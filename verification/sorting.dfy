/**
 * `Array.from(new Set(xs)).sort()` on strings: drop repeats, then order by the
 * default comparison of `Array.prototype.sort`, which is lexicographic with a
 * proper prefix first. Characters compare by their code, which agrees with
 * the UTF-16 code-unit order inside the Basic Multilingual Plane.
 */
module Sorting {
  import opened JsText
  import opened Tz

  /** `a` sorts before `b`. */
  predicate StrLess(a: string, b: string)
    decreases |a|
  {
    if a == [] then b != []
    else if b == [] then false
    else a[0] < b[0] || (a[0] == b[0] && StrLess(a[1..], b[1..]))
  }

  lemma {:induction false} StrLessIrreflexive(a: string)
    ensures !StrLess(a, a)
    decreases |a|
  {
    if a != [] {
      StrLessIrreflexive(a[1..]);
    }
  }

  lemma {:induction false} StrLessTransitive(a: string, b: string, c: string)
    requires StrLess(a, b) && StrLess(b, c)
    ensures StrLess(a, c)
    decreases |a|
  {
    if a != [] && a[0] == b[0] && b[0] == c[0] {
      StrLessTransitive(a[1..], b[1..], c[1..]);
    }
  }

  /** Any two different strings are ordered one way or the other. */
  lemma {:induction false} StrLessTotal(a: string, b: string)
    ensures a == b || StrLess(a, b) || StrLess(b, a)
    decreases |a|
  {
    if a != [] && b != [] && a[0] == b[0] {
      StrLessTotal(a[1..], b[1..]);
      if a[1..] == b[1..] {
        assert a == [a[0]] + a[1..] && b == [b[0]] + b[1..];
      }
    }
  }

  lemma StrLessAsymmetric(a: string, b: string)
    requires StrLess(a, b)
    ensures !StrLess(b, a)
  {
    if StrLess(b, a) {
      StrLessTransitive(a, b, a);
      StrLessIrreflexive(a);
    }
  }

  /** Every element sorts before every later one, so there are no repeats. */
  ghost predicate StrictlySorted(s: seq<string>) {
    forall i, j :: 0 <= i < j < |s| ==> StrLess(s[i], s[j])
  }

  /** Insert `x` into a strictly sorted sequence, leaving it unchanged when `x` is already there. */
  function Insert(x: string, s: seq<string>): (r: seq<string>)
    requires StrictlySorted(s)
    ensures StrictlySorted(r)
    ensures forall y :: y in r <==> y == x || y in s
  {
    if s == [] then [x]
    else if x == s[0] then s
    else if StrLess(x, s[0]) then
      assert forall j :: 0 <= j < |s| ==> StrLess(x, s[j]) by {
        forall j | 0 < j < |s| {
          StrLessTransitive(x, s[0], s[j]);
        }
      }
      [x] + s
    else
      StrLessTotal(x, s[0]);
      var rest := Insert(x, s[1..]);
      assert forall y :: y in rest ==> StrLess(s[0], y);
      [s[0]] + rest
  }

  /** `Array.from(new Set(xs)).sort()`. */
  function SortUnique(xs: seq<string>): (r: seq<string>)
    ensures StrictlySorted(r)
    ensures forall y :: y in r <==> y in xs
  {
    if xs == [] then [] else Insert(xs[0], SortUnique(xs[1..]))
  }

  /**
   * A strictly sorted sequence is fixed by its elements: the sorted, de-duplicated
   * list is the only one with that content and that order.
   */
  lemma {:induction false} SortedUnique(s: seq<string>, t: seq<string>)
    requires StrictlySorted(s) && StrictlySorted(t)
    requires forall y :: y in s <==> y in t
    ensures s == t
    decreases |s|
  {
    SameElementsBothEmpty(s, t);
    if s != [] {
      if s[0] != t[0] {
        assert s[0] in t && t[0] in s;
        var i :| 0 <= i < |t| && t[i] == s[0];
        var j :| 0 <= j < |s| && s[j] == t[0];
        assert StrLess(t[0], s[0]) by { assert i > 0; }
        assert StrLess(s[0], t[0]) by { assert j > 0; }
        StrLessAsymmetric(t[0], s[0]);
      }
      forall y
        ensures y in s[1..] <==> y in t[1..]
      {
        if y in s[1..] {
          var i :| 1 <= i < |s| && s[i] == y;
          assert StrLess(s[0], y);
          StrLessIrreflexive(y);
        }
        if y in t[1..] {
          var i :| 1 <= i < |t| && t[i] == y;
          assert StrLess(t[0], y);
          StrLessIrreflexive(y);
        }
        assert y in s <==> y == s[0] || y in s[1..];
        assert y in t <==> y == t[0] || y in t[1..];
      }
      SortedUnique(s[1..], t[1..]);
      assert s == [s[0]] + s[1..] && t == [t[0]] + t[1..];
    }
  }

  lemma SameElementsBothEmpty(s: seq<string>, t: seq<string>)
    requires forall y :: y in s <==> y in t
    ensures s == [] <==> t == []
  {
    if s != [] {
      assert s[0] in t;
    }
    if t != [] {
      assert t[0] in s;
    }
  }

  /** The result depends only on which strings occur: order and repeats in the input do not matter. */
  lemma SortUniqueSetOnly(xs: seq<string>, ys: seq<string>)
    requires forall y :: y in xs <==> y in ys
    ensures SortUnique(xs) == SortUnique(ys)
  {
    SortedUnique(SortUnique(xs), SortUnique(ys));
  }

  /** Sorting a list that is already sorted and free of repeats leaves it as it is. */
  lemma SortUniqueOfSorted(s: seq<string>)
    requires StrictlySorted(s)
    ensures SortUnique(s) == s
  {
    SortedUnique(SortUnique(s), s);
  }

  /** Past a common-length head, the order is decided by the heads and, when they are equal, by the tails. */
  lemma {:induction false} StrLessConcat(p: string, x: string, q: string, y: string)
    requires |p| == |q|
    ensures StrLess(p + x, q + y) <==> StrLess(p, q) || (p == q && StrLess(x, y))
    decreases |p|
  {
    if p == [] {
      assert p + x == x && q + y == y;
    } else {
      StrLessConcat(p[1..], x, q[1..], y);
      assert (p + x)[0] == p[0] && (q + y)[0] == q[0];
      assert (p + x)[1..] == p[1..] + x && (q + y)[1..] == q[1..] + y;
      assert p == [p[0]] + p[1..] && q == [q[0]] + q[1..];
      assert p[0] == q[0] ==> (p == q <==> p[1..] == q[1..]);
    }
  }

  lemma DigitCharOrder(a: int, b: int)
    requires 0 <= a < 10 && 0 <= b < 10
    ensures DigitChar(a) < DigitChar(b) <==> a < b
    ensures DigitChar(a) == DigitChar(b) <==> a == b
  {
  }

  lemma Pad2Order(a: int, b: int)
    requires 0 <= a < 100 && 0 <= b < 100
    ensures StrLess(Pad2(a), Pad2(b)) <==> a < b
  {
    var x, y := [DigitChar(a % 10)], [DigitChar(b % 10)];
    DigitCharOrder(a / 10, b / 10);
    DigitCharOrder(a % 10, b % 10);
    assert Pad2(a)[1..] == x && Pad2(b)[1..] == y;
    assert StrLess(x, y) <==> a % 10 < b % 10 by {
      assert x[1..] == [] && y[1..] == [];
    }
    assert a < b <==> a / 10 < b / 10 || (a / 10 == b / 10 && a % 10 < b % 10);
  }

  lemma ClockOrder(h1: int, m1: int, h2: int, m2: int)
    requires 0 <= h1 < 24 && 0 <= m1 < 60 && 0 <= h2 < 24 && 0 <= m2 < 60
    ensures StrLess(FormatClock(h1, m1), FormatClock(h2, m2)) <==> h1 * 60 + m1 < h2 * 60 + m2
  {
    var p1, p2 := Pad2(h1) + [':'], Pad2(h2) + [':'];
    assert FormatClock(h1, m1) == p1 + Pad2(m1);
    assert FormatClock(h2, m2) == p2 + Pad2(m2);
    StrLessConcat(p1, Pad2(m1), p2, Pad2(m2));
    StrLessConcat(Pad2(h1), [':'], Pad2(h2), [':']);
    StrLessIrreflexive([':']);
    assert p1 == p2 <==> h1 == h2 by {
      if p1 == p2 {
        assert Pad2(h1) == p1[..2] && Pad2(h2) == p2[..2];
      }
    }
    Pad2Order(h1, h2);
    Pad2Order(m1, m2);
  }

  /** Sorting `HH:MM` text puts the minutes of the day in chronological order. */
  lemma HHMMOrder(a: int, b: int)
    requires 0 <= a < MinutesPerDay && 0 <= b < MinutesPerDay
    ensures StrLess(FormatHHMM(a), FormatHHMM(b)) <==> a < b
  {
    ClockOrder(a / 60, a % 60, b / 60, b % 60);
  }
}
