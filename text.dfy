/** Python `str` primitives the agent relies on, stated over `seq<char>`.
    `IsSpace` is `str.isspace()`, which is also the set of characters the
    regular-expression class `\s` matches in a `str` pattern; `Lower` folds
    ASCII letters only. */
module Text {

  datatype Option<+T> = None | Some(value: T)

  /** `str.isspace()` / regex `\s` */
  predicate IsSpace(c: char) {
    var n := c as int;
    (9 <= n <= 13) || (28 <= n <= 32) || n == 0x85 || n == 0xA0 || n == 0x1680
    || (0x2000 <= n <= 0x200A) || n == 0x2028 || n == 0x2029 || n == 0x202F
    || n == 0x205F || n == 0x3000
  }

  /** The characters `str.splitlines()` breaks at (`\r\n` counts as one break). */
  predicate IsLineBreak(c: char) {
    var n := c as int;
    (10 <= n <= 13) || (28 <= n <= 30) || n == 0x85 || n == 0x2028 || n == 0x2029
  }

  /** `s.strip() == ""` */
  predicate IsBlank(s: string) {
    forall i :: 0 <= i < |s| ==> IsSpace(s[i])
  }

  /** What `str.strip()` returns: no whitespace at either end. */
  predicate IsStripped(s: string) {
    s == [] || (!IsSpace(s[0]) && !IsSpace(s[|s| - 1]))
  }

  function RStrip(s: string): (r: string)
    ensures |r| <= |s| && r == s[..|r|]
    ensures IsBlank(s[|r|..])
    ensures r == [] || !IsSpace(r[|r| - 1])
  {
    if s != [] && IsSpace(s[|s| - 1]) then
      var r := RStrip(s[..|s| - 1]);
      assert s[|r|..] == s[..|s| - 1][|r|..] + [s[|s| - 1]];
      r
    else s
  }

  /** `str.strip()`: the infix of `s` left after removing whitespace at both ends. */
  function Strip(s: string): (r: string)
    ensures IsStripped(r)
    ensures IsBlank(s) <==> r == []
  {
    if s != [] && IsSpace(s[0]) then
      assert IsBlank(s) <==> IsBlank(s[1..]);
      Strip(s[1..])
    else
      assert s != [] ==> RStrip(s) == [] || RStrip(s)[0] == s[0];
      RStrip(s)
  }

  /** `Strip(s)` is the infix of `s` between two runs of whitespace. */
  lemma {:induction false} StripInfix(s: string) returns (a: nat)
    ensures a + |Strip(s)| <= |s| && Strip(s) == s[a..a + |Strip(s)|]
    ensures forall k :: 0 <= k < a ==> IsSpace(s[k])
    ensures forall k :: a + |Strip(s)| <= k < |s| ==> IsSpace(s[k])
  {
    if s != [] && IsSpace(s[0]) {
      var t := s[1..];
      var b := StripInfix(t);
      var n := |Strip(t)|;
      a := b + 1;
      assert Strip(s) == Strip(t);
      assert Strip(t) == s[a..a + n] by {
        assert t[b..b + n] == s[a..a + n];
      }
      assert forall k :: a + n <= k < |s| ==> IsSpace(s[k]) by {
        forall k | a + n <= k < |s| ensures IsSpace(s[k]) {
          assert s[k] == t[k - 1];
        }
      }
      assert forall k :: 0 <= k < a ==> IsSpace(s[k]) by {
        forall k | 0 < k < a ensures IsSpace(s[k]) {
          assert s[k] == t[k - 1];
        }
      }
    } else {
      a := 0;
      assert Strip(s) == RStrip(s);
      RStripTail(s);
    }
  }

  /** What `RStrip` cuts off is whitespace. */
  lemma RStripTail(s: string)
    ensures RStrip(s) == s[0..|RStrip(s)|]
    ensures forall k :: |RStrip(s)| <= k < |s| ==> IsSpace(s[k])
  {
    var r := RStrip(s);
    forall k | |r| <= k < |s| ensures IsSpace(s[k]) {
      assert s[k] == s[|r|..][k - |r|];
    }
  }

  function LowerChar(c: char): char {
    if 'A' <= c <= 'Z' then (c as int + 32) as char else c
  }

  /** `str.lower()` on ASCII letters */
  function Lower(s: string): (r: string)
    ensures |r| == |s|
    ensures forall i :: 0 <= i < |s| ==> r[i] == LowerChar(s[i])
  {
    seq(|s|, i requires 0 <= i < |s| => LowerChar(s[i]))
  }

  /** Regex `\w` over ASCII, the class `[a-zA-Z0-9_]`. */
  predicate IsWordChar(c: char) {
    ('a' <= c <= 'z') || ('A' <= c <= 'Z') || ('0' <= c <= '9') || c == '_'
  }

  /** A match of `[a-zA-Z0-9_]+`. */
  predicate IsWord(s: string) {
    s != [] && forall c :: c in s ==> IsWordChar(c)
  }

  /** The end of the run of word characters starting at `i`: where a greedy
      `[a-zA-Z0-9_]+` or `\w+` starting at `i` stops. */
  function WordEnd(s: string, i: nat): (j: nat)
    requires i <= |s|
    ensures i <= j <= |s| && (j == |s| || !IsWordChar(s[j]))
    decreases |s| - i
  {
    if i < |s| && IsWordChar(s[i]) then WordEnd(s, i + 1) else i
  }

  /** Everything `WordEnd` passes over is a word character. */
  lemma {:induction false} WordEndSpans(s: string, i: nat)
    requires i <= |s|
    ensures forall k :: i <= k < WordEnd(s, i) ==> IsWordChar(s[k])
    decreases |s| - i
  {
    if i < |s| && IsWordChar(s[i]) {
      WordEndSpans(s, i + 1);
    }
  }

  /** `t` occurs in `s` at index `i` */
  predicate StartsAt(s: string, i: nat, t: string) {
    i + |t| <= |s| && s[i..i + |t|] == t
  }

  predicate StartsWith(s: string, t: string) {
    StartsAt(s, 0, t)
  }

  predicate EndsWith(s: string, t: string) {
    |t| <= |s| && s[|s| - |t|..] == t
  }

  /** Python's `t in s` */
  predicate Contains(s: string, t: string) {
    exists i | 0 <= i <= |s| :: StartsAt(s, i, t)
  }

  /** The first index at or after `i` that is not whitespace (or `|s|`):
      where a greedy `\s*` starting at `i` stops. */
  function SkipSpace(s: string, i: nat): (j: nat)
    requires i <= |s|
    ensures i <= j <= |s|
    ensures j < |s| ==> !IsSpace(s[j])
    decreases |s| - i
  {
    if i < |s| && IsSpace(s[i]) then SkipSpace(s, i + 1) else i
  }

  /** Everything `SkipSpace` passes over is whitespace. */
  lemma {:induction false} SkipSpaceSpans(s: string, i: nat)
    requires i <= |s|
    ensures forall k :: i <= k < SkipSpace(s, i) ==> IsSpace(s[k])
    decreases |s| - i
  {
    if i < |s| && IsSpace(s[i]) {
      SkipSpaceSpans(s, i + 1);
    }
  }

  /** The first index at or after `i` holding `c`, or `|s|`: where a greedy
      `[^c]*` starting at `i` stops. */
  function IndexFrom(s: string, c: char, i: nat): (j: nat)
    requires i <= |s|
    ensures i <= j <= |s| && (j == |s| || s[j] == c)
    decreases |s| - i
  {
    if i == |s| || s[i] == c then i else IndexFrom(s, c, i + 1)
  }

  /** Everything `IndexFrom` passes over differs from `c`. */
  lemma {:induction false} IndexFromSpans(s: string, c: char, i: nat)
    requires i <= |s|
    ensures forall k :: i <= k < IndexFrom(s, c, i) ==> s[k] != c
    decreases |s| - i
  {
    if i < |s| && s[i] != c {
      IndexFromSpans(s, c, i + 1);
    }
  }

  /** A run free of `c` ended by `c` is what `IndexFrom` finds. */
  lemma {:induction false} IndexFromRun(s: string, c: char, i: nat, j: nat)
    requires i <= j < |s| && s[j] == c
    requires forall k :: i <= k < j ==> s[k] != c
    ensures IndexFrom(s, c, i) == j
    decreases j - i
  {
    if i < j {
      IndexFromRun(s, c, i + 1, j);
    }
  }

  /** `sep.join(xs)` */
  function Join(xs: seq<string>, sep: string): (r: string)
  {
    if xs == [] then ""
    else if |xs| == 1 then xs[0]
    else xs[0] + sep + Join(xs[1..], sep)
  }

  /** `s.split(c)` for a one-character separator: always at least one piece,
      and no piece contains the separator. */
  function Split(s: string, c: char): (r: seq<string>)
    ensures |r| >= 1
    ensures forall i :: 0 <= i < |r| ==> c !in r[i]
  {
    if s == [] then [""]
    else
      var rest := Split(s[1..], c);
      if s[0] == c then [""] + rest else [[s[0]] + rest[0]] + rest[1..]
  }

  lemma {:induction false} JoinSplit(s: string, c: char)
    ensures Join(Split(s, c), [c]) == s
  {
    if s != [] {
      var rest := Split(s[1..], c);
      JoinSplit(s[1..], c);
      if s[0] == c {
        assert Split(s, c) == [""] + rest;
      } else {
        var r := Split(s, c);
        assert r == [[s[0]] + rest[0]] + rest[1..];
        if |rest| == 1 {
          assert Join(rest, [c]) == rest[0];
        } else {
          assert Join(rest, [c]) == rest[0] + [c] + Join(rest[1..], [c]);
          assert r[1..] == rest[1..];
        }
      }
    }
  }

  lemma {:induction false} SplitJoin(xs: seq<string>, c: char)
    requires xs != []
    requires forall i :: 0 <= i < |xs| ==> c !in xs[i]
    ensures Split(Join(xs, [c]), c) == xs
  {
    if |xs| == 1 {
      SplitNoSep(xs[0], c);
    } else {
      SplitJoin(xs[1..], c);
      SplitPrefix(xs[0], Join(xs[1..], [c]), c);
      assert [xs[0]] + xs[1..] == xs;
    }
  }

  lemma {:induction false} SplitNoSep(s: string, c: char)
    requires c !in s
    ensures Split(s, c) == [s]
  {
    if s != [] {
      SplitNoSep(s[1..], c);
      assert [s[0]] + s[1..] == s;
    }
  }

  /** Splitting `w + [c] + t` where `w` has no separator gives `w` then the pieces of `t`. */
  lemma {:induction false} SplitPrefix(w: string, t: string, c: char)
    requires c !in w
    ensures Split(w + [c] + t, c) == [w] + Split(t, c)
  {
    if w == [] {
      assert w + [c] + t == [c] + t;
      assert ([c] + t)[1..] == t;
    } else {
      var s := w + [c] + t;
      assert s[1..] == w[1..] + [c] + t;
      SplitPrefix(w[1..], t, c);
      assert [w[0]] + w[1..] == w;
    }
  }

  /** Index of the first line break in `s`, or `|s|`. */
  function LineEnd(s: string): (k: nat)
    ensures k <= |s|
    ensures forall i :: 0 <= i < k ==> !IsLineBreak(s[i])
    ensures k < |s| ==> IsLineBreak(s[k])
  {
    if s == [] || IsLineBreak(s[0]) then 0 else 1 + LineEnd(s[1..])
  }

  /** `str.splitlines()`: no piece contains a line break, and a final line
      break does not start an empty last line. */
  function SplitLines(s: string): (r: seq<string>)
    ensures forall i, j :: 0 <= i < |r| && 0 <= j < |r[i]| ==> !IsLineBreak(r[i][j])
    ensures r == [] <==> s == []
    decreases |s|
  {
    if s == [] then []
    else
      var k := LineEnd(s);
      if k == |s| then [s]
      else
        var width := if s[k] == '\r' && k + 1 < |s| && s[k + 1] == '\n' then 2 else 1;
        [s[..k]] + SplitLines(s[k + width..])
  }

  /** `len(s.split())`: the number of maximal runs of non-whitespace. */
  function WordCount(s: string): nat {
    if s == [] then 0
    else (if !IsSpace(s[0]) && (|s| == 1 || IsSpace(s[1])) then 1 else 0) + WordCount(s[1..])
  }

  /** `xs` is `ys` with some elements left out, order kept. */
  predicate IsSubsequence<T(==)>(xs: seq<T>, ys: seq<T>)
    decreases |ys|
  {
    if xs == [] then true
    else if ys == [] then false
    else if xs[|xs| - 1] == ys[|ys| - 1] then IsSubsequence(xs[..|xs| - 1], ys[..|ys| - 1])
    else IsSubsequence(xs, ys[..|ys| - 1])
  }

  lemma {:induction false} SubsequenceExtend<T>(xs: seq<T>, ys: seq<T>, y: T)
    requires IsSubsequence(xs, ys)
    ensures IsSubsequence(xs, ys + [y])
    decreases |ys|, 1
  {
    var ys' := ys + [y];
    assert ys'[..|ys'| - 1] == ys;
    if xs != [] && xs[|xs| - 1] == y {
      SubsequenceDropLast(xs, ys);
    }
  }

  lemma {:induction false} SubsequenceDropLast<T>(xs: seq<T>, ys: seq<T>)
    requires xs != [] && IsSubsequence(xs, ys)
    ensures IsSubsequence(xs[..|xs| - 1], ys)
    decreases |ys|, 0
  {
    var init := ys[..|ys| - 1];
    if xs[|xs| - 1] == ys[|ys| - 1] {
      SubsequenceExtend(xs[..|xs| - 1], init, ys[|ys| - 1]);
    } else {
      SubsequenceDropLast(xs, init);
      SubsequenceExtend(xs[..|xs| - 1], init, ys[|ys| - 1]);
    }
    assert init + [ys[|ys| - 1]] == ys;
  }

  lemma SubsequenceAppendBoth<T>(xs: seq<T>, ys: seq<T>, y: T)
    requires IsSubsequence(xs, ys)
    ensures IsSubsequence(xs + [y], ys + [y])
  {
    assert (xs + [y])[..|xs|] == xs;
    assert (ys + [y])[..|ys|] == ys;
  }

  lemma {:induction false} SubsequenceMembers<T>(xs: seq<T>, ys: seq<T>)
    requires IsSubsequence(xs, ys)
    ensures forall x :: x in xs ==> x in ys
    decreases |ys|
  {
    if xs != [] {
      var init := ys[..|ys| - 1];
      if xs[|xs| - 1] == ys[|ys| - 1] {
        SubsequenceMembers(xs[..|xs| - 1], init);
        assert xs == xs[..|xs| - 1] + [xs[|xs| - 1]];
      } else {
        SubsequenceMembers(xs, init);
      }
    }
  }

  /** The index of the first element satisfying `p`, if any. */
  function FirstWhere<T>(xs: seq<T>, p: T -> bool): (r: Option<nat>)
    ensures r.Some? ==>
              r.value < |xs| && p(xs[r.value]) && forall k :: 0 <= k < r.value ==> !p(xs[k])
    ensures r.None? ==> forall k :: 0 <= k < |xs| ==> !p(xs[k])
  {
    if xs == [] then None
    else if p(xs[0]) then Some(0)
    else match FirstWhere(xs[1..], p) {
      case None => None
      case Some(i) => Some(i + 1)
    }
  }
}
