/**
 * The booking route's field validators: the date and time patterns, phone
 * normalisation and the phone check.
 */
module Validators {
  import opened Results
  import opened JsText
  import opened Tz
  import Arith

  // ---------------------------------------------------------------------------
  // `isValidDate`: /^\d{4}-\d{2}-\d{2}$/

  predicate IsValidDate(date: string) {
    |date| == 10 && forall i :: 0 <= i < 10 ==> if i == 4 || i == 7 then date[i] == '-' else IsDigit(date[i])
  }

  /** A date that passes the pattern reads as its three digit groups. */
  lemma ValidDateReads(date: string)
    requires IsValidDate(date)
    ensures ParseDate(date) == Some(CivilDate(DigitsValue(date[..4]), DigitsValue(date[5..7]), DigitsValue(date[8..])))
  {
    var y, m, d := date[..4], date[5..7], date[8..];
    DateSplits(date);
    DateFieldsOfDigits(y, m, d);
  }

  lemma DateSplits(date: string)
    requires IsValidDate(date)
    ensures Split(date, '-') == [date[..4], date[5..7], date[8..]]
  {
    var y, m, d := date[..4], date[5..7], date[8..];
    var parts := [y, m, d];
    assert Join(parts[2..], '-') == d;
    assert Join(parts[1..], '-') == m + ['-'] + d;
    assert date == y + ['-'] + (m + ['-'] + d);
    assert forall i :: 0 <= i < 3 ==> '-' !in parts[i] by {
      assert forall j :: 0 <= j < 4 ==> y[j] == date[j];
      assert forall j :: 0 <= j < 2 ==> m[j] == date[5 + j] && d[j] == date[8 + j];
    }
    SplitJoin(parts, '-');
  }

  lemma DateFieldsOfDigits(y: string, m: string, d: string)
    requires |y| == 4 && |m| == 2 && |d| == 2 && AllDigits(y) && AllDigits(m) && AllDigits(d)
    ensures DateFields([y, m, d]) == Some(CivilDate(DigitsValue(y), DigitsValue(m), DigitsValue(d)))
  {
    JsNumberOfDigits(y);
    JsNumberOfDigits(m);
    JsNumberOfDigits(d);
  }

  // ---------------------------------------------------------------------------
  // `isValidHHMM`: /^([01]\d|2[0-3]):[0-5]\d$/

  predicate IsValidHHMM(time: string) {
    |time| == 5
    && (('0' <= time[0] <= '1' && IsDigit(time[1])) || (time[0] == '2' && '0' <= time[1] <= '3'))
    && time[2] == ':' && '0' <= time[3] <= '5' && IsDigit(time[4])
  }

  /** The minute of the day a valid `HH:MM` names. */
  function ClockOf(time: string): (m: int)
    requires IsValidHHMM(time)
    ensures 0 <= m < MinutesPerDay
  {
    (10 * (time[0] as int - 48) + (time[1] as int - 48)) * 60 + 10 * (time[3] as int - 48) + (time[4] as int - 48)
  }

  /** Every zero-padded clock reading passes the pattern. */
  lemma ClockIsValid(h: int, mi: int)
    requires 0 <= h < 24 && 0 <= mi < 60
    ensures IsValidHHMM(FormatClock(h, mi))
  {
    var t := FormatClock(h, mi);
    assert t == [DigitChar(h / 10), DigitChar(h % 10), ':', DigitChar(mi / 10), DigitChar(mi % 10)];
  }

  lemma FormattedIsValid(m: int)
    requires 0 <= m < MinutesPerDay
    ensures IsValidHHMM(FormatHHMM(m))
  {
    ClockIsValid(m / 60, m % 60);
  }

  /** A valid `HH:MM` is the zero-padded rendering of the minute it names. */
  lemma ValidIsFormatted(time: string)
    requires IsValidHHMM(time)
    ensures time == FormatHHMM(ClockOf(time))
  {
    var h := 10 * (time[0] as int - 48) + (time[1] as int - 48);
    var mi := 10 * (time[3] as int - 48) + (time[4] as int - 48);
    assert 0 <= h < 24 && 0 <= mi < 60;
    ClockDigits(time, h, mi);
    var m := ClockOf(time);
    assert m == h * 60 + mi;
    assert m / 60 == h && m % 60 == mi;
  }

  lemma ClockDigits(time: string, h: int, mi: int)
    requires IsValidHHMM(time)
    requires h == 10 * (time[0] as int - 48) + (time[1] as int - 48)
    requires mi == 10 * (time[3] as int - 48) + (time[4] as int - 48)
    requires 0 <= h < 24 && 0 <= mi < 60
    ensures time == FormatClock(h, mi)
  {
    Arith.DivModUnique(h, 10, time[0] as int - 48, time[1] as int - 48);
    Arith.DivModUnique(mi, 10, time[3] as int - 48, time[4] as int - 48);
    var f := FormatClock(h, mi);
    assert f == [DigitChar(h / 10), DigitChar(h % 10), ':', DigitChar(mi / 10), DigitChar(mi % 10)];
  }

  /** The pattern accepts exactly the renderings `00:00` to `23:59`. */
  lemma ValidHHMMIff(time: string)
    ensures IsValidHHMM(time) <==> exists m :: 0 <= m < MinutesPerDay && time == FormatHHMM(m)
  {
    if IsValidHHMM(time) {
      ValidIsFormatted(time);
    }
    if exists m :: 0 <= m < MinutesPerDay && time == FormatHHMM(m) {
      var m :| 0 <= m < MinutesPerDay && time == FormatHHMM(m);
      FormattedIsValid(m);
    }
  }

  /** A valid time reads as the minute it names. */
  lemma ValidHHMMReads(time: string)
    requires IsValidHHMM(time)
    ensures ParseClock(time) == Some(ClockOf(time))
  {
    ValidIsFormatted(time);
  }

  /** `Number(time.slice(3, 5))` of a valid time is its minute of the hour. */
  lemma ValidMinuteReads(time: string)
    requires IsValidHHMM(time)
    ensures JsNumber(time[3..5]) == Some(ClockOf(time) % 60)
  {
    var mm := time[3..5];
    TwoDigitsValue(mm);
    JsNumberOfDigits(mm);
    ClockMinute(time);
  }

  lemma TwoDigitsValue(s: string)
    requires |s| == 2 && AllDigits(s)
    ensures DigitsValue(s) == 10 * (s[0] as int - 48) + (s[1] as int - 48)
  {
    assert s[..1] == [s[0]];
    assert s[..1][..0] == [];
    assert DigitsValue(s[..1]) == s[0] as int - 48;
  }

  lemma ClockMinute(time: string)
    requires IsValidHHMM(time)
    ensures ClockOf(time) % 60 == 10 * (time[3] as int - 48) + (time[4] as int - 48)
  {
    var h := 10 * (time[0] as int - 48) + (time[1] as int - 48);
    var mi := 10 * (time[3] as int - 48) + (time[4] as int - 48);
    assert ClockOf(time) == h * 60 + mi;
  }

  // ---------------------------------------------------------------------------
  // `normalizePhone`: input.replace(/\s+/g, " ").trim()

  /** `replace(/\s+/g, " ")`: each run of white space becomes one plain space. */
  function Collapse(s: string): string
    decreases |s|
  {
    if s == [] then []
    else if IsSpace(s[0]) then
      if |s| > 1 && IsSpace(s[1]) then Collapse(s[1..]) else [' '] + Collapse(s[1..])
    else [s[0]] + Collapse(s[1..])
  }

  function NormalizePhone(input: string): string {
    Trim(Collapse(input))
  }

  /** The only white space is a plain space, and never two in a row. */
  ghost predicate Tidy(s: string) {
    (forall i :: 0 <= i < |s| && IsSpace(s[i]) ==> s[i] == ' ')
    && (forall i :: 0 <= i < |s| - 1 && IsSpace(s[i]) ==> !IsSpace(s[i + 1]))
  }

  lemma {:induction false} CollapseHead(s: string)
    ensures Collapse(s) == [] <==> s == []
    ensures s != [] ==> (IsSpace(Collapse(s)[0]) <==> IsSpace(s[0]))
    decreases |s|
  {
    if s != [] && IsSpace(s[0]) && |s| > 1 && IsSpace(s[1]) {
      CollapseHead(s[1..]);
    }
  }

  lemma {:induction false} CollapseTidy(s: string)
    ensures Tidy(Collapse(s))
    decreases |s|
  {
    if s != [] {
      CollapseTidy(s[1..]);
      CollapseHead(s[1..]);
      var rest := Collapse(s[1..]);
      if !(IsSpace(s[0]) && |s| > 1 && IsSpace(s[1])) {
        var r := Collapse(s);
        var c := if IsSpace(s[0]) then ' ' else s[0];
        assert r == [c] + rest;
        forall i | 0 <= i < |r| && IsSpace(r[i])
          ensures r[i] == ' '
        {
          if i > 0 {
            assert r[i] == rest[i - 1];
          }
        }
        forall i | 0 <= i < |r| - 1 && IsSpace(r[i])
          ensures !IsSpace(r[i + 1])
        {
          if i > 0 {
            assert r[i] == rest[i - 1] && r[i + 1] == rest[i];
          }
        }
      }
    }
  }

  /** Text that is already tidy comes back unchanged. */
  lemma {:induction false} CollapseOfTidy(s: string)
    requires Tidy(s)
    ensures Collapse(s) == s
    decreases |s|
  {
    if s != [] {
      assert Tidy(s[1..]) by {
        forall i | 0 <= i < |s[1..]| - 1 && IsSpace(s[1..][i])
          ensures !IsSpace(s[1..][i + 1])
        {
          assert s[1..][i] == s[i + 1] && s[1..][i + 1] == s[i + 2];
        }
      }
      CollapseOfTidy(s[1..]);
      assert s == [s[0]] + s[1..];
    }
  }

  lemma TidySlice(s: string, a: int, b: int)
    requires Tidy(s) && 0 <= a <= b <= |s|
    ensures Tidy(s[a..b])
  {
    var t := s[a..b];
    forall i | 0 <= i < |t| - 1 && IsSpace(t[i])
      ensures !IsSpace(t[i + 1])
    {
      assert t[i] == s[a + i] && t[i + 1] == s[a + i + 1];
    }
  }

  /** `normalizePhone` leaves no white space at either end, only plain single spaces inside. */
  lemma NormalizePhoneTidy(input: string)
    ensures var r := NormalizePhone(input);
      Tidy(r) && (|r| > 0 ==> !IsSpace(r[0]) && !IsSpace(r[|r| - 1]))
  {
    var c := Collapse(input);
    CollapseTidy(input);
    TrimSpec(c);
    var r := Trim(c);
    TidySlice(c, LeadingSpaces(c), LeadingSpaces(c) + |r|);
  }

  /** Normalising twice is normalising once. */
  lemma NormalizePhoneIdempotent(input: string)
    ensures NormalizePhone(NormalizePhone(input)) == NormalizePhone(input)
  {
    var r := NormalizePhone(input);
    NormalizePhoneTidy(input);
    CollapseOfTidy(r);
    if |r| > 0 {
      assert LeadingSpaces(r) == 0;
      assert TrailingSpaces(r) == 0;
    }
  }

  // ---------------------------------------------------------------------------
  // Character filters, and `isValidPhone`

  /** The characters of `s` that satisfy `p`, in order. */
  function KeepChars(s: string, p: char -> bool): string
    decreases |s|
  {
    if s == [] then [] else (if p(s[0]) then [s[0]] else []) + KeepChars(s[1..], p)
  }

  lemma {:induction false} KeepCharsConcat(a: string, b: string, p: char -> bool)
    ensures KeepChars(a + b, p) == KeepChars(a, p) + KeepChars(b, p)
    decreases |a|
  {
    if a != [] {
      assert (a + b)[1..] == a[1..] + b;
      KeepCharsConcat(a[1..], b, p);
    } else {
      assert a + b == b;
    }
  }

  /** Filtering with a weaker test first changes nothing. */
  lemma {:induction false} KeepCharsNested(s: string, p: char -> bool, q: char -> bool)
    requires forall c :: q(c) ==> p(c)
    ensures KeepChars(KeepChars(s, p), q) == KeepChars(s, q)
    decreases |s|
  {
    if s != [] {
      KeepCharsNested(s[1..], p, q);
      KeepCharsConcat(if p(s[0]) then [s[0]] else [], KeepChars(s[1..], p), q);
    }
  }

  lemma {:induction false} KeepCharsNone(s: string, p: char -> bool)
    requires forall i :: 0 <= i < |s| ==> !p(s[i])
    ensures KeepChars(s, p) == []
    decreases |s|
  {
    if s != [] {
      KeepCharsNone(s[1..], p);
    }
  }

  function NotSpace(c: char): bool {
    !IsSpace(c)
  }

  /** The characters `isValidPhone` counts: what `replace(/[^\d+]/g, "")` keeps. */
  function PhoneChar(c: char): bool {
    IsDigit(c) || c == '+'
  }

  predicate IsValidPhone(phone: string) {
    9 <= |KeepChars(phone, PhoneChar)| <= 16
  }

  /** Collapsing white space keeps every other character, in order. */
  lemma {:induction false} CollapseKeepsText(s: string)
    ensures KeepChars(Collapse(s), NotSpace) == KeepChars(s, NotSpace)
    decreases |s|
  {
    if s != [] {
      CollapseKeepsText(s[1..]);
      var head := if IsSpace(s[0]) then (if |s| > 1 && IsSpace(s[1]) then [] else [' ']) else [s[0]];
      assert Collapse(s) == head + Collapse(s[1..]);
      KeepCharsConcat(head, Collapse(s[1..]), NotSpace);
    }
  }

  /** Trimming drops white space only. */
  lemma TrimKeepsText(s: string)
    ensures KeepChars(Trim(s), NotSpace) == KeepChars(s, NotSpace)
  {
    var a := LeadingSpaces(s);
    var b := TrailingSpaces(s);
    LeadingSpacesMaximal(s);
    TrailingSpacesMaximal(s);
    if a + b >= |s| {
      TrimEmptyIff(s);
      KeepCharsNone(s, NotSpace);
    } else {
      assert forall i :: 0 <= i < a ==> !NotSpace(s[i]);
      assert forall i :: |s| - b <= i < |s| ==> !NotSpace(s[i]);
      KeepMiddle(s, a, |s| - b);
    }
  }

  /** Keeping the text of `s` when only white space lies outside `[a, b)`. */
  lemma KeepMiddle(s: string, a: int, b: int)
    requires 0 <= a <= b <= |s|
    requires forall i :: 0 <= i < a ==> !NotSpace(s[i])
    requires forall i :: b <= i < |s| ==> !NotSpace(s[i])
    ensures KeepChars(s[a..b], NotSpace) == KeepChars(s, NotSpace)
  {
    KeepOuterRejected(s, a, b, NotSpace);
  }

  /** Characters that `p` rejects on both sides of `s[a..b]` do not change what is kept. */
  lemma KeepOuterRejected(s: string, a: int, b: int, p: char -> bool)
    requires 0 <= a <= b <= |s|
    requires forall i :: 0 <= i < a ==> !p(s[i])
    requires forall i :: b <= i < |s| ==> !p(s[i])
    ensures KeepChars(s[a..b], p) == KeepChars(s, p)
  {
    var rest := s[a..];
    KeepDropPrefix(s, a, p);
    forall i | b - a <= i < |rest|
      ensures !p(rest[i])
    {
      assert rest[i] == s[a + i];
    }
    KeepDropSuffix(rest, b - a, p);
    assert rest[..b - a] == s[a..b];
  }

  lemma KeepDropPrefix(s: string, a: int, p: char -> bool)
    requires 0 <= a <= |s|
    requires forall i :: 0 <= i < a ==> !p(s[i])
    ensures KeepChars(s[a..], p) == KeepChars(s, p)
  {
    KeepSplit(s, a, p);
    KeepCharsNone(s[..a], p);
  }

  lemma KeepDropSuffix(s: string, b: int, p: char -> bool)
    requires 0 <= b <= |s|
    requires forall i :: b <= i < |s| ==> !p(s[i])
    ensures KeepChars(s[..b], p) == KeepChars(s, p)
  {
    KeepSplit(s, b, p);
    KeepCharsNone(s[b..], p);
  }

  lemma KeepSplit(s: string, i: int, p: char -> bool)
    requires 0 <= i <= |s|
    ensures KeepChars(s, p) == KeepChars(s[..i], p) + KeepChars(s[i..], p)
  {
    assert s == s[..i] + s[i..];
    KeepCharsConcat(s[..i], s[i..], p);
  }

  /** `normalizePhone` only touches white space: every other character survives, in order. */
  lemma NormalizePhoneKeepsText(input: string)
    ensures KeepChars(NormalizePhone(input), NotSpace) == KeepChars(input, NotSpace)
  {
    CollapseKeepsText(input);
    TrimKeepsText(Collapse(input));
  }

  /** Normalising the phone never changes whether it passes the check. */
  lemma NormalizePhoneKeepsValidity(input: string)
    ensures IsValidPhone(NormalizePhone(input)) == IsValidPhone(input)
  {
    NormalizePhoneKeepsText(input);
    KeepCharsNested(NormalizePhone(input), NotSpace, PhoneChar);
    KeepCharsNested(input, NotSpace, PhoneChar);
  }
}
