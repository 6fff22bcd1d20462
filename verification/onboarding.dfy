/**
 * The first onboarding step: deriving a store's link (its slug) from the
 * store name, choosing between the owner's own slug and the derived one, the
 * checks made before the store is saved, and reading the step number from
 * the page address.
 */
module Onboarding {
  import opened Results
  import JsText

  /** The number of onboarding steps. */
  const Total := 6
  /** The longest slug that is saved. */
  const MaxSlug := 60

  const NameMissing := "Indique o nome da loja."
  const SlugMissing := "Não foi possível gerar o link (slug)."

  /**
   * The two Unicode tables `slugify` consults, `toLowerCase` and
   * `normalize("NFD")`. They are parameters of the model; `AsciiFaithful`
   * pins them down on ASCII text.
   */
  datatype Unicode = Unicode(lower: string -> string, nfd: string -> string)

  predicate IsAscii(s: string) {
    forall i :: 0 <= i < |s| ==> s[i] < '\U{0080}'
  }

  function AsciiLowerChar(c: char): char {
    if 'A' <= c <= 'Z' then (c as int + 32) as char else c
  }

  function AsciiLower(s: string): string
    decreases |s|
  {
    if s == [] then [] else [AsciiLowerChar(s[0])] + AsciiLower(s[1..])
  }

  /** On ASCII text, lower-casing maps exactly `A`-`Z` to `a`-`z` and NFD changes nothing. */
  ghost predicate AsciiFaithful(u: Unicode) {
    forall s :: IsAscii(s) ==> u.lower(s) == AsciiLower(s) && u.nfd(s) == s
  }

  /** The combining diacritical marks, U+0300 to U+036F. */
  predicate IsMark(c: char) {
    '\U{0300}' <= c <= '\U{036F}'
  }

  /** `.replace(/[\u0300-\u036f]/g, "")`: the marks removed. */
  function StripMarks(s: string): string
    decreases |s|
  {
    if s == [] then [] else (if IsMark(s[0]) then [] else [s[0]]) + StripMarks(s[1..])
  }

  /** The characters a slug keeps: `[a-z0-9]`. */
  predicate IsWordChar(c: char) {
    'a' <= c <= 'z' || '0' <= c <= '9'
  }

  /** A maximal run of kept characters is a word. */
  predicate IsWord(w: string) {
    w != [] && forall i :: 0 <= i < |w| ==> IsWordChar(w[i])
  }

  /** A slug: kept characters and dashes, no dash at either end, no two dashes in a row. */
  predicate IsSlug(s: string) {
    (forall i :: 0 <= i < |s| ==> IsWordChar(s[i]) || s[i] == '-')
    && (s != [] ==> s[0] != '-' && s[|s| - 1] != '-')
    && (forall i :: 0 < i < |s| ==> !(s[i - 1] == '-' && s[i] == '-'))
  }

  /** The length of the longest prefix of `s` made of kept characters. */
  function WordLength(s: string): (n: nat)
    ensures n <= |s|
    decreases |s|
  {
    if s != [] && IsWordChar(s[0]) then 1 + WordLength(s[1..]) else 0
  }

  /** `WordLength` measures the longest prefix of kept characters. */
  lemma {:induction false} WordLengthMaximal(s: string)
    ensures forall i :: 0 <= i < WordLength(s) ==> IsWordChar(s[i])
    ensures WordLength(s) < |s| ==> !IsWordChar(s[WordLength(s)])
    decreases |s|
  {
    if s != [] && IsWordChar(s[0]) {
      WordLengthMaximal(s[1..]);
    }
  }

  /** The length of the longest prefix of `s` made of other characters. */
  function GapLength(s: string): (n: nat)
    ensures n <= |s|
    decreases |s|
  {
    if s != [] && !IsWordChar(s[0]) then 1 + GapLength(s[1..]) else 0
  }

  /** `GapLength` measures the longest prefix of other characters. */
  lemma {:induction false} GapLengthMaximal(s: string)
    ensures forall i :: 0 <= i < GapLength(s) ==> !IsWordChar(s[i])
    ensures GapLength(s) < |s| ==> IsWordChar(s[GapLength(s)])
    decreases |s|
  {
    if s != [] && !IsWordChar(s[0]) {
      GapLengthMaximal(s[1..]);
    }
  }

  /** `.replace(/[^a-z0-9]+/g, "-")`: every maximal run of other characters becomes one dash. */
  function Dashes(s: string): string
    decreases |s|
  {
    if s == [] then ""
    else if IsWordChar(s[0]) then s[..WordLength(s)] + Dashes(s[WordLength(s)..])
    else "-" + Dashes(s[GapLength(s)..])
  }

  /** `.replace(/(^-|-$)+/g, "")`: a leading dash and a trailing dash removed. */
  function TrimDashes(s: string): string {
    var a := if s != [] && s[0] == '-' then s[1..] else s;
    if a != [] && a[|a| - 1] == '-' then a[..|a| - 1] else a
  }

  /** The text `slugify` cuts into words: lower-cased, trimmed, decomposed, marks removed. */
  function Prepared(u: Unicode, input: string): string {
    StripMarks(u.nfd(JsText.Trim(u.lower(input))))
  }

  /** `slugify(input)`. */
  function Slugify(u: Unicode, input: string): (r: string)
    ensures IsSlug(r)
  {
    var p := Prepared(u, input);
    SlugOfText(p);
    WordsAreWords(p);
    HyphenateIsSlug(Words(p));
    TrimDashes(Dashes(p))
  }

  /** The words of `s`, in order: its maximal runs of kept characters. */
  function Words(s: string): seq<string>
    decreases |s|
  {
    if s == [] then []
    else if !IsWordChar(s[0]) then Words(s[GapLength(s)..])
    else [s[..WordLength(s)]] + Words(s[WordLength(s)..])
  }

  /** Every piece `Words` cuts is a word. */
  lemma {:induction false} WordsAreWords(s: string)
    ensures forall i :: 0 <= i < |Words(s)| ==> IsWord(Words(s)[i])
    decreases |s|
  {
    if s != [] && !IsWordChar(s[0]) {
      WordsAreWords(s[GapLength(s)..]);
    } else if s != [] {
      var n := WordLength(s);
      WordLengthMaximal(s);
      WordsAreWords(s[n..]);
      assert IsWord(s[..n]);
      var ws := Words(s);
      assert ws == [s[..n]] + Words(s[n..]);
      forall i | 0 <= i < |ws|
        ensures IsWord(ws[i])
      {
        if i > 0 { assert ws[i] == Words(s[n..])[i - 1]; }
      }
    }
  }

  /** Words joined by single dashes. */
  function Hyphenate(ws: seq<string>): string {
    if ws == [] then "" else JsText.Join(ws, '-')
  }

  lemma HyphenateCons(w: string, ws: seq<string>)
    requires ws != []
    ensures Hyphenate([w] + ws) == w + "-" + Hyphenate(ws)
  {
    assert ([w] + ws)[1..] == ws;
  }

  /** Joined words start and end with a kept character. */
  lemma {:induction false} HyphenateEnds(ws: seq<string>)
    requires ws != [] && forall i :: 0 <= i < |ws| ==> IsWord(ws[i])
    ensures var h := Hyphenate(ws); h != [] && IsWordChar(h[0]) && IsWordChar(h[|h| - 1])
    decreases |ws|
  {
    assert IsWord(ws[0]);
    if |ws| > 1 {
      HyphenateCons(ws[0], ws[1..]);
      assert [ws[0]] + ws[1..] == ws;
      HyphenateEnds(ws[1..]);
    } else {
      assert Hyphenate(ws) == ws[0];
    }
  }

  /** Joined words are a slug. */
  lemma {:induction false} HyphenateIsSlug(ws: seq<string>)
    requires forall i :: 0 <= i < |ws| ==> IsWord(ws[i])
    ensures IsSlug(Hyphenate(ws))
    decreases |ws|
  {
    if |ws| == 1 {
      assert Hyphenate(ws) == ws[0];
      assert IsWord(ws[0]);
    } else if |ws| > 1 {
      var w, t := ws[0], Hyphenate(ws[1..]);
      assert IsWord(w);
      HyphenateCons(w, ws[1..]);
      assert [w] + ws[1..] == ws;
      HyphenateIsSlug(ws[1..]);
      HyphenateEnds(ws[1..]);
      SlugAfterWord(w, t);
    }
  }

  /** A word, a dash and a slug that starts with a kept character make a slug. */
  lemma SlugAfterWord(w: string, t: string)
    requires IsWord(w) && IsSlug(t) && t != [] && IsWordChar(t[0])
    ensures IsSlug(w + "-" + t)
  {
    var h := w + "-" + t;
    forall i | 0 <= i < |h|
      ensures IsWordChar(h[i]) || h[i] == '-'
    {
      if i < |w| { assert h[i] == w[i]; } else if i > |w| { assert h[i] == t[i - |w| - 1]; }
    }
    forall i | 0 < i < |h|
      ensures !(h[i - 1] == '-' && h[i] == '-')
    {
      if i > |w| + 1 {
        assert h[i - 1] == t[i - |w| - 2] && h[i] == t[i - |w| - 1];
      } else if i == |w| + 1 {
        assert h[i] == t[0];
      } else if i == |w| {
        assert h[i - 1] == w[i - 1];
      } else {
        assert h[i] == w[i];
      }
    }
    assert h[0] == w[0];
    assert h[|h| - 1] == t[|t| - 1];
  }

  /**
   * A text that starts with a kept character turns into its words joined by
   * dashes, followed by one dash when it ends in other characters.
   */
  lemma {:induction false} DashesOfWordStart(s: string)
    requires s != [] && IsWordChar(s[0])
    ensures Words(s) != []
    ensures Dashes(s) == Hyphenate(Words(s)) + (if IsWordChar(s[|s| - 1]) then "" else "-")
    decreases |s|
  {
    var w := s[..WordLength(s)];
    WordLengthMaximal(s);
    if w == s {
      assert Dashes(s) == w + Dashes([]);
      assert Words(s) == [w] + Words([]);
      assert Hyphenate([w]) == w;
    } else {
      var next := DashesStep(s);
      if next == [] {
        assert Hyphenate([w]) == w;
      } else {
        DashesOfWordStart(next);
        HyphenateCons(w, Words(next));
      }
    }
  }

  /**
   * One step of the run replacement on a text that starts with a word and
   * does not end with it: the word, one dash, and the rest after the gap.
   */
  lemma DashesStep(s: string) returns (next: string)
    requires s != [] && IsWordChar(s[0]) && WordLength(s) < |s|
    ensures var w := s[..WordLength(s)];
      Dashes(s) == w + "-" + Dashes(next) && Words(s) == [w] + Words(next) && |next| < |s|
    ensures next == [] ==> !IsWordChar(s[|s| - 1])
    ensures next != [] ==> IsWordChar(next[0]) && next[|next| - 1] == s[|s| - 1]
  {
    var n := WordLength(s);
    var w, rest := s[..n], s[n..];
    assert Dashes(s) == w + Dashes(rest);
    assert Words(s) == [w] + Words(rest);
    WordLengthMaximal(s);
    var g := GapLength(rest);
    GapLengthMaximal(rest);
    next := rest[g..];
    assert Dashes(rest) == "-" + Dashes(next);
    assert Words(rest) == Words(next);
    assert rest[|rest| - 1] == s[|s| - 1];
  }

  /** Replacing the runs and then the edge dashes leaves exactly the words joined by dashes. */
  lemma SlugOfText(s: string)
    ensures TrimDashes(Dashes(s)) == Hyphenate(Words(s))
  {
    if s != [] && IsWordChar(s[0]) {
      SlugOfWordStart(s);
    } else if s != [] {
      var rest := s[GapLength(s)..];
      GapLengthMaximal(s);
      assert Dashes(s) == "-" + Dashes(rest);
      assert Words(s) == Words(rest);
      if rest != [] {
        SlugOfGapStart(rest);
      }
    }
  }

  lemma SlugOfWordStart(s: string)
    requires s != [] && IsWordChar(s[0])
    ensures TrimDashes(Dashes(s)) == Hyphenate(Words(s))
  {
    var d, h := Dashes(s), Hyphenate(Words(s));
    var tail := if IsWordChar(s[|s| - 1]) then "" else "-";
    assert d == h + tail && h != [] && IsWordChar(h[0]) && IsWordChar(h[|h| - 1]) by {
      DashesOfWordStart(s);
      WordsAreWords(s);
      HyphenateEnds(Words(s));
    }
    TrailingDashDropped(h, tail, d);
  }

  /** A joined text followed by at most one dash loses just that dash. */
  lemma TrailingDashDropped(h: string, tail: string, s: string)
    requires tail == "" || tail == "-"
    requires h != [] && IsWordChar(h[0]) && IsWordChar(h[|h| - 1])
    requires s == h + tail
    ensures TrimDashes(s) == h
  {
    assert s[0] == h[0];
    if tail == "-" {
      assert s[..|s| - 1] == h;
    }
  }

  lemma SlugOfGapStart(rest: string)
    requires rest != [] && IsWordChar(rest[0])
    ensures TrimDashes("-" + Dashes(rest)) == Hyphenate(Words(rest))
  {
    SlugOfWordStart(rest);
    DashesHead(rest);
    LeadingDashDropped(Dashes(rest));
  }

  lemma DashesHead(s: string)
    requires s != [] && IsWordChar(s[0])
    ensures Dashes(s) != [] && Dashes(s)[0] == s[0]
  {
    assert Dashes(s) == s[..WordLength(s)] + Dashes(s[WordLength(s)..]);
  }

  lemma LeadingDashDropped(d: string)
    requires d != [] && d[0] != '-'
    ensures TrimDashes("-" + d) == TrimDashes(d)
  {
    assert ("-" + d)[1..] == d;
  }

  /**
   * What `slugify` computes, stated independently of the regular
   * expressions: the words of the lower-cased, mark-free text, joined by
   * single dashes.
   */
  lemma SlugifyIsWords(u: Unicode, input: string)
    ensures Slugify(u, input) == Hyphenate(Words(Prepared(u, input)))
  {
    SlugOfText(Prepared(u, input));
  }

  /** A text is made of exactly the words it shows once they are joined. */
  lemma {:induction false} WordsOfHyphenate(ws: seq<string>)
    requires forall i :: 0 <= i < |ws| ==> IsWord(ws[i])
    ensures Words(Hyphenate(ws)) == ws
    decreases |ws|
  {
    if ws != [] {
      var w := ws[0];
      assert IsWord(w);
      if |ws| == 1 {
        assert Hyphenate(ws) == w;
        WordsOfWord(w);
      } else {
        var t := Hyphenate(ws[1..]);
        HyphenateCons(w, ws[1..]);
        assert [w] + ws[1..] == ws;
        HyphenateEnds(ws[1..]);
        WordsAfterWord(w, "-" + t);
        WordsAfterGap('-', t);
        assert w + "-" + t == w + ("-" + t);
        WordsOfHyphenate(ws[1..]);
      }
    }
  }

  /** A word followed by a gap or by nothing is the first word. */
  lemma WordsAfterWord(w: string, t: string)
    requires IsWord(w) && (t == [] || !IsWordChar(t[0]))
    ensures Words(w + t) == [w] + Words(t)
  {
    WordLengthOfWord(w, t);
    var s := w + t;
    assert s[..|w|] == w && s[|w|..] == t;
  }

  /** One separating character in front of a word is skipped. */
  lemma WordsAfterGap(c: char, v: string)
    requires !IsWordChar(c) && (v == [] || IsWordChar(v[0]))
    ensures Words([c] + v) == Words(v)
  {
    assert ([c] + v)[1..] == v;
    assert GapLength([c] + v) == 1 by {
      assert GapLength(v) == 0;
    }
  }

  lemma WordsOfWord(w: string)
    requires IsWord(w)
    ensures Words(w) == [w]
  {
    WordsAfterWord(w, "");
    assert w + "" == w;
  }

  lemma {:induction false} WordLengthOfWord(w: string, t: string)
    requires IsWord(w) && (t == [] || !IsWordChar(t[0]))
    ensures WordLength(w + t) == |w|
    decreases |w|
  {
    if |w| > 1 {
      assert IsWord(w[1..]);
      assert (w + t)[1..] == w[1..] + t;
      WordLengthOfWord(w[1..], t);
    } else {
      assert (w + t)[1..] == t;
    }
  }

  /** `Words` is empty exactly when `s` holds no kept character. */
  lemma {:induction false} WordsEmptyIff(s: string)
    ensures Words(s) == [] <==> forall i :: 0 <= i < |s| ==> !IsWordChar(s[i])
    decreases |s|
  {
    if s != [] && !IsWordChar(s[0]) {
      var g := GapLength(s);
      GapLengthMaximal(s);
      WordsEmptyIff(s[g..]);
      forall i | 0 <= i < |s[g..]|
        ensures s[g..][i] == s[g + i]
      {
      }
    }
  }

  /** A slug is ASCII, so the Unicode tables leave it alone, and it has nothing to trim. */
  lemma SlugPrepared(u: Unicode, s: string)
    requires AsciiFaithful(u) && IsSlug(s)
    ensures Prepared(u, s) == s
  {
    assert IsAscii(s);
    SlugLowerFixed(s);
    assert u.lower(s) == s;
    NothingToTrim(s);
    assert u.nfd(s) == s;
    SlugMarkFree(s);
  }

  lemma {:induction false} SlugLowerFixed(s: string)
    requires forall i :: 0 <= i < |s| ==> IsWordChar(s[i]) || s[i] == '-'
    ensures AsciiLower(s) == s
    decreases |s|
  {
    if s != [] {
      SlugLowerFixed(s[1..]);
    }
  }

  lemma {:induction false} SlugMarkFree(s: string)
    requires forall i :: 0 <= i < |s| ==> IsWordChar(s[i]) || s[i] == '-'
    ensures StripMarks(s) == s
    decreases |s|
  {
    if s != [] {
      SlugMarkFree(s[1..]);
    }
  }

  /**
   * Slugifying a slug changes nothing, so re-slugifying the slug field on
   * every keystroke does not drift.
   */
  lemma SlugifyIdempotent(u: Unicode, input: string)
    requires AsciiFaithful(u)
    ensures Slugify(u, Slugify(u, input)) == Slugify(u, input)
  {
    var r := Slugify(u, input);
    var ws := Words(Prepared(u, input));
    SlugifyIsWords(u, input);
    SlugPrepared(u, r);
    SlugifyIsWords(u, r);
    WordsAreWords(Prepared(u, input));
    WordsOfHyphenate(ws);
  }

  /** `slugify` gives the empty string exactly when the prepared text holds no letter or digit. */
  lemma SlugifyEmptyIff(u: Unicode, input: string)
    ensures var p := Prepared(u, input);
      Slugify(u, input) == "" <==> forall i :: 0 <= i < |p| ==> !IsWordChar(p[i])
  {
    var p := Prepared(u, input);
    SlugifyIsWords(u, input);
    WordsEmptyIff(p);
    if Words(p) != [] {
      WordsAreWords(p);
      HyphenateEnds(Words(p));
    }
  }

  /** The slug chosen in the first step: the owner's own, trimmed, or the derived one, cut at 60 characters. */
  function FinalSlug(u: Unicode, slugField: string, storeName: string): (r: string)
    ensures |r| <= MaxSlug
    ensures JsText.Trim(slugField) != "" ==> var own := JsText.Trim(slugField);
      |r| <= |own| && r == own[..|r|] && (|r| < MaxSlug ==> r == own)
    ensures JsText.Trim(slugField) == "" ==> var d := Slugify(u, JsText.Trim(storeName));
      |r| <= |d| && r == d[..|r|] && (|r| < MaxSlug ==> r == d)
  {
    var own := JsText.Trim(slugField);
    var chosen := if own != "" then own else Slugify(u, JsText.Trim(storeName));
    if |chosen| <= MaxSlug then chosen else chosen[..MaxSlug]
  }

  /**
   * A derived slug keeps the slug alphabet, never starts with a dash and
   * never holds two dashes in a row, but the cut may leave a dash at its end.
   */
  lemma DerivedSlugPrefix(u: Unicode, slugField: string, storeName: string)
    requires JsText.Trim(slugField) == ""
    ensures var r := FinalSlug(u, slugField, storeName);
      (forall i :: 0 <= i < |r| ==> IsWordChar(r[i]) || r[i] == '-')
      && (r != [] ==> r[0] != '-')
      && (forall i :: 0 < i < |r| ==> !(r[i - 1] == '-' && r[i] == '-'))
  {
    var d := Slugify(u, JsText.Trim(storeName));
    var r := FinalSlug(u, slugField, storeName);
    assert forall i :: 0 <= i < |r| ==> r[i] == d[i];
  }

  /** A name of a 59-letter word and a second word yields a slug cut right after the dash. */
  lemma CutSlugEndsInDash(u: Unicode, w: string, v: string)
    requires AsciiFaithful(u) && IsWord(w) && IsWord(v) && |w| == MaxSlug - 1
    ensures FinalSlug(u, "", w + " " + v) == w + "-"
  {
    var name := w + " " + v;
    assert JsText.Trim("") == "";
    TwoWordsPrepared(u, w, v);
    assert JsText.Trim(name) == name;
    TwoWords(w, ' ', v);
    assert w + [' '] + v == name;
    SlugifyIsWords(u, name);
    HyphenateCons(w, [v]);
    assert Hyphenate([v]) == v;
    var d := w + "-" + v;
    assert Slugify(u, name) == d;
    assert d[..MaxSlug] == w + "-";
  }

  /** Two words separated by a space are already trimmed, lower-case and free of marks. */
  lemma TwoWordsPrepared(u: Unicode, w: string, v: string)
    requires AsciiFaithful(u) && IsWord(w) && IsWord(v)
    ensures JsText.Trim(w + " " + v) == w + " " + v
    ensures Prepared(u, w + " " + v) == w + " " + v
  {
    var name := w + " " + v;
    assert AsciiLower(name) == name && StripMarks(name) == name && IsAscii(name) by {
      SpacedWordsChars(w, v);
      NameFixed(name);
    }
    assert name[0] == w[0] && name[|name| - 1] == v[|v| - 1];
    NothingToTrim(name);
  }

  /** A text that neither starts nor ends with white space is its own trim. */
  lemma NothingToTrim(s: string)
    requires s != [] ==> !JsText.IsSpace(s[0]) && !JsText.IsSpace(s[|s| - 1])
    ensures JsText.Trim(s) == s
  {
    if s != [] {
      assert JsText.LeadingSpaces(s) == 0 && JsText.TrailingSpaces(s) == 0;
      assert s[0..|s|] == s;
    }
  }

  lemma SpacedWordsChars(w: string, v: string)
    requires IsWord(w) && IsWord(v)
    ensures forall i :: 0 <= i < |w + " " + v| ==> IsWordChar((w + " " + v)[i]) || (w + " " + v)[i] == ' '
  {
    var name := w + " " + v;
    forall i | 0 <= i < |name|
      ensures IsWordChar(name[i]) || name[i] == ' '
    {
      if i < |w| { assert name[i] == w[i]; } else if i > |w| { assert name[i] == v[i - |w| - 1]; }
    }
  }

  /** Two words with one separating character between them are read back as those two words. */
  lemma TwoWords(w: string, c: char, v: string)
    requires IsWord(w) && IsWord(v) && !IsWordChar(c)
    ensures Words(w + [c] + v) == [w, v]
  {
    WordsAfterWord(w, [c] + v);
    WordsAfterGap(c, v);
    WordsOfWord(v);
    assert w + [c] + v == w + ([c] + v);
  }

  lemma {:induction false} NameFixed(s: string)
    requires forall i :: 0 <= i < |s| ==> IsWordChar(s[i]) || s[i] == ' '
    ensures AsciiLower(s) == s && StripMarks(s) == s
    decreases |s|
  {
    if s != [] {
      NameFixed(s[1..]);
    }
  }

  datatype BusinessType = Barbershop | Beauty | Mixed

  /** The store row the first step upserts for its owner. */
  datatype StoreDraft = StoreDraft(name: string, businessType: BusinessType, city: Option<string>, slug: string)

  /** What saving the first step decides before it talks to the database. */
  datatype StepOne = Invalid(message: string) | Save(store: StoreDraft)

  /** `saveStep1AndNext` up to the upsert. */
  function SaveStepOne(u: Unicode, storeName: string, businessType: BusinessType, city: string, slugField: string): (r: StepOne)
    ensures JsText.Trim(storeName) == "" ==> r == Invalid(NameMissing)
    ensures JsText.Trim(storeName) != "" && FinalSlug(u, slugField, storeName) == "" ==> r == Invalid(SlugMissing)
    ensures r.Save? ==> r.store.name != "" && r.store.slug != "" && |r.store.slug| <= MaxSlug
  {
    var name := JsText.Trim(storeName);
    var cityClean := JsText.Trim(city);
    var slug := FinalSlug(u, slugField, storeName);
    if name == "" then Invalid(NameMissing)
    else if slug == "" then Invalid(SlugMissing)
    else Save(StoreDraft(name, businessType, if cityClean == "" then None else Some(cityClean), slug))
  }

  /**
   * The first step saves exactly when the trimmed name is non-empty and the
   * chosen slug is non-empty: the owner gave one, or the name holds a
   * letter or digit once lower-cased and stripped of marks. What it saves
   * is the trimmed name, the trimmed city or nothing, and the chosen slug.
   */
  lemma SaveStepOneIff(u: Unicode, storeName: string, businessType: BusinessType, city: string, slugField: string)
    ensures var name := JsText.Trim(storeName);
      var p := Prepared(u, name);
      (SaveStepOne(u, storeName, businessType, city, slugField).Save? <==>
        name != "" && (JsText.Trim(slugField) != "" || exists i :: 0 <= i < |p| && IsWordChar(p[i])))
    ensures var r := SaveStepOne(u, storeName, businessType, city, slugField);
      r.Save? ==> (r.store.name == JsText.Trim(storeName) && r.store.businessType == businessType
        && r.store.slug == FinalSlug(u, slugField, storeName)
        && (r.store.city.Some? <==> JsText.Trim(city) != "")
        && (r.store.city.Some? ==> r.store.city.value == JsText.Trim(city)))
  {
    var name := JsText.Trim(storeName);
    SlugifyEmptyIff(u, name);
    var own := JsText.Trim(slugField);
    var f := FinalSlug(u, slugField, storeName);
    if own == "" {
      assert f == "" <==> Slugify(u, name) == "";
    }
  }

  /** `Math.min(TOTAL, Math.max(1, raw))` on an integer. */
  function ClampStep(raw: int): (step: int)
    ensures 1 <= step <= Total
    ensures 1 <= raw <= Total ==> step == raw
    ensures raw < 1 ==> step == 1
    ensures raw > Total ==> step == Total
  {
    var low := if raw > 1 then raw else 1;
    if low < Total then low else Total
  }

  /**
   * The step read from the address, `?step=` missing meaning "1". An integer
   * is clamped into the step range; any other text is NaN, which the clamp
   * passes through (None).
   */
  function StepOf(param: Option<string>): (step: Option<int>)
    ensures step.Some? <==> JsText.JsNumber(param.GetOr("1")).Some?
    ensures step.Some? ==> 1 <= step.value <= Total
  {
    match JsText.JsNumber(param.GetOr("1"))
    case None => None
    case Some(raw) => Some(ClampStep(raw))
  }

  /** The page rendered for a step: steps 1 to 5 by number, anything else the last page. */
  function PageShown(step: Option<int>): (page: int)
    ensures 1 <= page <= Total
    ensures step.Some? && 1 <= step.value <= Total ==> page == step.value
    ensures step.None? ==> page == Total
  {
    match step
    case Some(n) => if 1 <= n < Total then n else Total
    case None => Total
  }

  /** Without a step in the address the first page shows; an unreadable step shows the last. */
  lemma StepDefaults()
    ensures PageShown(StepOf(None)) == 1
    ensures forall t :: JsText.JsNumber(t).None? ==> PageShown(StepOf(Some(t))) == Total
  {
    JsText.JsNumberOfDigits("1");
    assert JsText.DigitsValue("1") == 1 by {
      assert "1"[..0] == "";
    }
  }
}
