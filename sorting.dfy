/** `sorted(set(xs))` over strings, with Python's string order: lexicographic
    by code point, a proper prefix coming first. */
module Sorting {

  predicate StrLess(a: string, b: string)
    decreases |a|
  {
    if a == [] then b != []
    else if b == [] then false
    else if a[0] != b[0] then a[0] < b[0]
    else StrLess(a[1..], b[1..])
  }

  lemma {:induction false} StrLessIrreflexive(a: string)
    ensures !StrLess(a, a)
  {
    if a != [] { StrLessIrreflexive(a[1..]); }
  }

  lemma {:induction false} StrLessTransitive(a: string, b: string, c: string)
    requires StrLess(a, b) && StrLess(b, c)
    ensures StrLess(a, c)
    decreases |a|
  {
    if a != [] && b != [] && c != [] && a[0] == b[0] && b[0] == c[0] {
      StrLessTransitive(a[1..], b[1..], c[1..]);
    }
  }

  lemma {:induction false} StrLessTotal(a: string, b: string)
    requires a != b
    ensures StrLess(a, b) || StrLess(b, a)
    decreases |a|
  {
    if a != [] && b != [] && a[0] == b[0] {
      assert a == [a[0]] + a[1..] && b == [b[0]] + b[1..];
      StrLessTotal(a[1..], b[1..]);
    }
  }

  lemma {:induction false} StrLessAsymmetric(a: string, b: string)
    ensures StrLess(a, b) ==> !StrLess(b, a)
    decreases |a|
  {
    if a != [] && b != [] && a[0] == b[0] { StrLessAsymmetric(a[1..], b[1..]); }
  }

  /** Strictly increasing: sorted and free of duplicates. */
  predicate StrictlySorted(s: seq<string>) {
    forall i, j :: 0 <= i < j < |s| ==> StrLess(s[i], s[j])
  }

  /** Inserts `x` into a strictly increasing sequence unless it is already there. */
  function Insert(x: string, s: seq<string>): (r: seq<string>)
    requires StrictlySorted(s)
    ensures StrictlySorted(r)
    ensures forall y :: y in r <==> y in s || y == x
  {
    if s == [] then [x]
    else if x == s[0] then s
    else if StrLess(x, s[0]) then
      assert forall j :: 0 < j < |s| ==> StrLess(x, s[j]) by {
        forall j | 0 < j < |s| ensures StrLess(x, s[j]) { StrLessTransitive(x, s[0], s[j]); }
      }
      [x] + s
    else
      StrLessTotal(x, s[0]);
      var tail := Insert(x, s[1..]);
      assert forall y :: y in s <==> y == s[0] || y in s[1..];
      assert forall k :: 0 <= k < |tail| ==> StrLess(s[0], tail[k]) by {
        forall k | 0 <= k < |tail| ensures StrLess(s[0], tail[k]) {
          assert tail[k] in tail;
        }
      }
      [s[0]] + tail
  }

  /** `sorted(set(xs))` */
  function SortedSet(xs: seq<string>): (r: seq<string>)
    ensures StrictlySorted(r)
    ensures forall y :: y in r <==> y in xs
  {
    if xs == [] then []
    else
      var init := xs[..|xs| - 1];
      assert xs == init + [xs[|xs| - 1]];
      Insert(xs[|xs| - 1], SortedSet(init))
  }

  /** The head of a strictly increasing sequence is below every other element. */
  lemma HeadIsLeast(s: seq<string>, y: string)
    requires StrictlySorted(s) && y in s
    ensures y == s[0] || StrLess(s[0], y)
  {
    var k :| 0 <= k < |s| && s[k] == y;
    if k > 0 { assert StrLess(s[0], s[k]); }
  }

  /** There is only one strictly increasing arrangement of a set of strings,
      so `SortedSet` is the sorted order and not merely some sorted order. */
  lemma {:induction false} StrictlySortedUnique(s: seq<string>, t: seq<string>)
    requires StrictlySorted(s) && StrictlySorted(t)
    requires forall y :: y in s <==> y in t
    ensures s == t
  {
    assert s != [] ==> s[0] in t;
    assert t != [] ==> t[0] in s;
    if s != [] && t != [] {
      HeadIsLeast(s, t[0]);
      HeadIsLeast(t, s[0]);
      StrLessAsymmetric(s[0], t[0]);
      assert s[0] == t[0];
      forall y ensures y in s[1..] <==> y in t[1..] {
        StrLessIrreflexive(y);
        if y in s[1..] {
          var k :| 1 <= k < |s| && s[k] == y;
          assert StrLess(s[0], s[k]);
        }
        if y in t[1..] {
          var k :| 1 <= k < |t| && t[k] == y;
          assert StrLess(t[0], t[k]);
        }
        assert y in s <==> y == s[0] || y in s[1..];
        assert y in t <==> y == t[0] || y in t[1..];
      }
      StrictlySortedUnique(s[1..], t[1..]);
      assert s == [s[0]] + s[1..] && t == [t[0]] + t[1..];
    }
  }
}
