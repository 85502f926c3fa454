/** split_text of the ingestion script: the lines of a document packed
    greedily into chunks of at most `maxWords` words. */
module Chunking {
  import opened Text

  /** The number of words in some lines. */
  function Words(lines: seq<string>): nat {
    if lines == [] then 0 else Words(lines[..|lines| - 1]) + WordCount(lines[|lines| - 1])
  }

  /** The concatenation of some groups of lines. */
  function Flatten(groups: seq<seq<string>>): seq<string> {
    if groups == [] then [] else Flatten(groups[..|groups| - 1]) + groups[|groups| - 1]
  }

  /** The lines of each chunk: `chunk.split("\n")`. */
  function ChunkLines(chunks: seq<string>): (r: seq<seq<string>>)
    ensures |r| == |chunks|
    ensures forall i :: 0 <= i < |chunks| ==> r[i] == Split(chunks[i], '\n')
  {
    seq(|chunks|, i requires 0 <= i < |chunks| => Split(chunks[i], '\n'))
  }

  /** Groups of lines as split_text forms them: no group is empty, a group of
      several lines holds at most `maxWords` words, and every group but the
      last was closed because its next line would have pushed it past
      `maxWords` (stated group by group in PackedMeans). */
  predicate Packed(groups: seq<seq<string>>, maxWords: int) {
    if groups == [] then true
    else
      var n := |groups|;
      && Packed(groups[..n - 1], maxWords)
      && groups[n - 1] != []
      && (|groups[n - 1]| > 1 ==> Words(groups[n - 1]) <= maxWords)
      && (n > 1 ==> Overflows(groups[n - 2], groups[n - 1], maxWords))
  }

  /** Group `a` could not take the first line of `b` without passing `maxWords`. */
  predicate Overflows(a: seq<string>, b: seq<string>, maxWords: int) {
    b != [] && Words(a) + WordCount(b[0]) > maxWords
  }

  /** Packed, read group by group. */
  predicate PackedEach(groups: seq<seq<string>>, maxWords: int) {
    && (forall i :: 0 <= i < |groups| ==> groups[i] != [])
    && (forall i :: 0 <= i < |groups| ==> |groups[i]| > 1 ==> Words(groups[i]) <= maxWords)
    && (forall i :: 0 <= i < |groups| - 1 ==> Overflows(groups[i], groups[i + 1], maxWords))
  }

  /** What Packed says about each group and each pair of neighbours. */
  lemma PackedMeans(groups: seq<seq<string>>, maxWords: int)
    requires Packed(groups, maxWords)
    ensures PackedEach(groups, maxWords)
  {
    forall i | 0 <= i < |groups|
      ensures groups[i] != [] && (|groups[i]| > 1 ==> Words(groups[i]) <= maxWords)
      ensures i < |groups| - 1 ==> Overflows(groups[i], groups[i + 1], maxWords)
    {
      PackedAt(groups, i, maxWords);
    }
  }

  /** Group `i` of some packed groups, and its neighbour. */
  predicate PackedGroup(groups: seq<seq<string>>, i: nat, maxWords: int)
    requires i < |groups|
  {
    && groups[i] != []
    && (|groups[i]| > 1 ==> Words(groups[i]) <= maxWords)
    && (i + 1 < |groups| ==> Overflows(groups[i], groups[i + 1], maxWords))
  }

  lemma {:induction false} PackedAt(groups: seq<seq<string>>, i: nat, maxWords: int)
    requires Packed(groups, maxWords) && i < |groups|
    ensures PackedGroup(groups, i, maxWords)
  {
    var n := |groups|;
    if i < n - 1 {
      var init := groups[..n - 1];
      PackedAt(init, i, maxWords);
      assert init[i] == groups[i];
      if i + 1 < n - 1 {
        assert init[i + 1] == groups[i + 1];
      }
    }
  }

  /** No line holds a line break. */
  predicate Unbroken(lines: seq<string>) {
    forall i, j :: 0 <= i < |lines| && 0 <= j < |lines[i]| ==> !IsLineBreak(lines[i][j])
  }

  predicate NoNewline(lines: seq<string>) {
    forall k :: 0 <= k < |lines| ==> '\n' !in lines[k]
  }

  /** Each group joined by newlines, as split_text does with `"\n".join(current)`. */
  function JoinAll(groups: seq<seq<string>>): (r: seq<string>)
    ensures |r| == |groups|
  {
    if groups == [] then [] else JoinAll(groups[..|groups| - 1]) + [Join(groups[|groups| - 1], "\n")]
  }

  /** No line of any group holds a newline. */
  predicate AllNoNewline(groups: seq<seq<string>>) {
    groups == [] || (AllNoNewline(groups[..|groups| - 1]) && NoNewline(groups[|groups| - 1]))
  }

  /** Splitting joined groups at newlines gives the groups back. */
  lemma {:induction false} SplitJoinAll(groups: seq<seq<string>>)
    requires AllNoNewline(groups) && forall k :: 0 <= k < |groups| ==> groups[k] != []
    ensures ChunkLines(JoinAll(groups)) == groups
  {
    if groups != [] {
      var n := |groups|;
      var init := groups[..n - 1];
      assert forall k :: 0 <= k < n - 1 ==> init[k] == groups[k];
      SplitJoinAll(init);
      SplitJoin(groups[n - 1], '\n');
    }
  }

  /** The state of split_text's loop after `i` lines: the closed groups,
      joined into `chunks`, and the open group `cur` of `words` words. */
  ghost predicate Progress(lines: seq<string>, i: nat, chunks: seq<string>, groups: seq<seq<string>>,
                           cur: seq<string>, words: nat, maxWords: int)
  {
    && i <= |lines|
    && chunks == JoinAll(groups)
    && AllNoNewline(groups)
    && Flatten(groups) + cur == lines[..i]
    && words == Words(cur)
    && (i == 0 ==> groups == [] && cur == [])
    && (i > 0 ==> cur != [])
    && NoNewline(cur)
    && Packed(groups, maxWords)
    && (|cur| > 1 ==> words <= maxWords)
    && (groups != [] ==> Overflows(groups[|groups| - 1], cur, maxWords))
  }

  /** split_text: the lines of the text, greedily packed into chunks joined by
      newlines. Splitting the chunks at newlines gives back the lines. */
  method SplitText(text: string, maxWords: int) returns (chunks: seq<string>)
    ensures Flatten(ChunkLines(chunks)) == SplitLines(text)
    ensures Packed(ChunkLines(chunks), maxWords)
    ensures chunks == [] <==> text == []
  {
    var lines := SplitLines(text);
    chunks := [];
    var cur: seq<string> := [];
    var words: nat := 0;
    ghost var groups: seq<seq<string>> := [];
    for i := 0 to |lines|
      invariant Progress(lines, i, chunks, groups, cur, words, maxWords)
    {
      var line := lines[i];
      var w := WordCount(line);
      if words + w > maxWords && cur != [] {
        StartGroup(lines, i, chunks, groups, cur, words, maxWords);
        chunks, groups, cur, words := chunks + [Join(cur, "\n")], groups + [cur], [line], w;
      } else {
        AddLine(lines, i, chunks, groups, cur, words, maxWords);
        cur, words := cur + [line], words + w;
      }
    }
    Finish(lines, chunks, groups, cur, words, maxWords);
    if cur != [] {
      chunks := chunks + [Join(cur, "\n")];
    }
  }

  /** The next line does not fit: the open group is closed and the line opens a new one. */
  lemma StartGroup(lines: seq<string>, i: nat, chunks: seq<string>, groups: seq<seq<string>>,
                   cur: seq<string>, words: nat, maxWords: int)
    requires i < |lines| && Unbroken(lines) && Progress(lines, i, chunks, groups, cur, words, maxWords)
    requires words + WordCount(lines[i]) > maxWords && cur != []
    ensures Progress(lines, i + 1, chunks + [Join(cur, "\n")], groups + [cur], [lines[i]],
                     WordCount(lines[i]), maxWords)
  {
    NoLineBreak(lines, i);
    Close(groups, cur, maxWords);
    Extend([], lines[i]);
    assert [] + [lines[i]] == [lines[i]];
    LinesSnoc(Flatten(groups + [cur]), lines, i);
  }

  /** The next line joins the open group. */
  lemma AddLine(lines: seq<string>, i: nat, chunks: seq<string>, groups: seq<seq<string>>,
                cur: seq<string>, words: nat, maxWords: int)
    requires i < |lines| && Unbroken(lines) && Progress(lines, i, chunks, groups, cur, words, maxWords)
    requires !(words + WordCount(lines[i]) > maxWords && cur != [])
    ensures Progress(lines, i + 1, chunks, groups, cur + [lines[i]], words + WordCount(lines[i]), maxWords)
  {
    NoLineBreak(lines, i);
    Extend(cur, lines[i]);
    assert Flatten(groups) + (cur + [lines[i]]) == Flatten(groups) + cur + [lines[i]];
    LinesSnoc(Flatten(groups) + cur, lines, i);
  }

  /** After the last line the open group, if any, is closed. */
  lemma Finish(lines: seq<string>, chunks: seq<string>, groups: seq<seq<string>>,
               cur: seq<string>, words: nat, maxWords: int)
    requires Progress(lines, |lines|, chunks, groups, cur, words, maxWords)
    ensures var all := if cur == [] then chunks else chunks + [Join(cur, "\n")];
            Flatten(ChunkLines(all)) == lines && Packed(ChunkLines(all), maxWords)
            && (all == [] <==> lines == [])
  {
    assert lines[..|lines|] == lines;
    var all := if cur == [] then groups else groups + [cur];
    if cur != [] {
      Close(groups, cur, maxWords);
    }
    PackedMeans(all, maxWords);
    SplitJoinAll(all);
  }

  lemma LinesSnoc(done: seq<string>, lines: seq<string>, i: nat)
    requires i < |lines| && done == lines[..i]
    ensures done + [lines[i]] == lines[..i + 1]
  {
  }

  lemma NoLineBreak(lines: seq<string>, i: nat)
    requires i < |lines|
    requires Unbroken(lines)
    ensures '\n' !in lines[i]
  {
    forall k | 0 <= k < |lines[i]| ensures lines[i][k] != '\n' { assert !IsLineBreak(lines[i][k]); }
  }
  /** Closing the current group keeps the groups packed. */
  lemma Close(groups: seq<seq<string>>, g: seq<string>, maxWords: int)
    requires AllNoNewline(groups) && NoNewline(g)
    requires Packed(groups, maxWords) && g != [] && (|g| > 1 ==> Words(g) <= maxWords)
    requires groups != [] ==> Overflows(groups[|groups| - 1], g, maxWords)
    ensures AllNoNewline(groups + [g])
    ensures Packed(groups + [g], maxWords)
    ensures Flatten(groups + [g]) == Flatten(groups) + g
    ensures JoinAll(groups + [g]) == JoinAll(groups) + [Join(g, "\n")]
  {
    assert (groups + [g])[..|groups|] == groups;
  }

  lemma Extend(cur: seq<string>, line: string)
    requires NoNewline(cur) && '\n' !in line
    ensures NoNewline(cur + [line])
    ensures Words(cur + [line]) == Words(cur) + WordCount(line)
  {
    WordsSnoc(cur, line);
  }

  lemma WordsSnoc(cur: seq<string>, line: string)
    ensures Words(cur + [line]) == Words(cur) + WordCount(line)
  {
    assert (cur + [line])[..|cur|] == cur;
  }

  // ---------------------------------------------------------------------
  // The packing is unique
  // ---------------------------------------------------------------------

  lemma {:induction false} FlattenCons(groups: seq<seq<string>>)
    requires groups != []
    ensures Flatten(groups) == groups[0] + Flatten(groups[1..])
  {
    var n := |groups|;
    if n > 1 {
      FlattenCons(groups[..n - 1]);
      assert groups[..n - 1][1..] == groups[1..][..n - 2];
    } else {
      assert groups[..0] == [];
    }
  }

  lemma {:induction false} WordsPrefix(lines: seq<string>, k: nat)
    requires k <= |lines|
    ensures Words(lines[..k]) <= Words(lines)
    decreases |lines|
  {
    if k < |lines| {
      var init := lines[..|lines| - 1];
      WordsPrefix(init, k);
      assert init[..k] == lines[..k];
    } else {
      assert lines[..k] == lines;
    }
  }

  /** In a packing whose first group `a` is followed by `rest`, a first group
      longer than `a` would hold more than `maxWords` words. */
  lemma Longer(a: seq<string>, rest: seq<seq<string>>, h: seq<string>, maxWords: int)
    requires rest != [] ==> Overflows(a, rest[0], maxWords)
    requires |h| <= |a + Flatten(rest)| && h == (a + Flatten(rest))[..|h|]
    ensures |h| > |a| ==> Words(h) > maxWords
  {
    if |h| > |a| {
      FlattenCons(rest);
      var line := rest[0][0];
      assert h[|a|] == line;
      assert h[..|a| + 1] == a + [line];
      WordsSnoc(a, line);
      WordsPrefix(h, |a| + 1);
    }
  }

  /** Dropping the first group keeps a packing a packing. */
  lemma PackedEachTail(groups: seq<seq<string>>, maxWords: int)
    requires PackedEach(groups, maxWords) && groups != []
    ensures PackedEach(groups[1..], maxWords)
  {
    var r := groups[1..];
    assert forall i :: 0 <= i < |r| ==> r[i] == groups[i + 1];
  }

  /** Two packings of the same lines are the same packing. */
  lemma {:induction false} PackedEachUnique(g1: seq<seq<string>>, g2: seq<seq<string>>, maxWords: int)
    requires PackedEach(g1, maxWords) && PackedEach(g2, maxWords)
    requires Flatten(g1) == Flatten(g2)
    ensures g1 == g2
    decreases |g1|
  {
    if g1 != [] {
      FlattenCons(g1);
      assert g1[0] != [];
    }
    if g2 != [] {
      FlattenCons(g2);
      assert g2[0] != [];
    }
    if g1 != [] && g2 != [] {
      var a, b := g1[0], g2[0];
      var r1, r2 := g1[1..], g2[1..];
      assert r1 != [] ==> r1[0] == g1[1];
      assert r2 != [] ==> r2[0] == g2[1];
      Longer(a, r1, b, maxWords);
      Longer(b, r2, a, maxWords);
      assert a == b;
      PackedEachTail(g1, maxWords);
      PackedEachTail(g2, maxWords);
      PackedEachUnique(r1, r2, maxWords);
      assert g1 == [a] + r1;
      assert g2 == [b] + r2;
    }
  }

  /** There is exactly one packing of given lines: Packed and Flatten pin down
      split_text's groups. */
  lemma PackingUnique(g1: seq<seq<string>>, g2: seq<seq<string>>, maxWords: int)
    requires Packed(g1, maxWords) && Packed(g2, maxWords)
    requires Flatten(g1) == Flatten(g2)
    ensures g1 == g2
  {
    PackedMeans(g1, maxWords);
    PackedMeans(g2, maxWords);
    PackedEachUnique(g1, g2, maxWords);
  }

  /** The chunks are their lines joined back with newlines. */
  lemma {:induction false} ChunksFromLines(chunks: seq<string>)
    ensures JoinAll(ChunkLines(chunks)) == chunks
    decreases |chunks|
  {
    if chunks != [] {
      var n := |chunks|;
      ChunksFromLines(chunks[..n - 1]);
      assert ChunkLines(chunks)[..n - 1] == ChunkLines(chunks[..n - 1]);
      JoinSplit(chunks[n - 1], '\n');
    }
  }

  /** SplitText's contract fixes its result: two lists of chunks that both meet
      it for the same text and limit are equal. */
  lemma SplitTextDetermined(text: string, maxWords: int, c1: seq<string>, c2: seq<string>)
    requires Flatten(ChunkLines(c1)) == SplitLines(text) && Packed(ChunkLines(c1), maxWords)
    requires Flatten(ChunkLines(c2)) == SplitLines(text) && Packed(ChunkLines(c2), maxWords)
    ensures c1 == c2
  {
    PackingUnique(ChunkLines(c1), ChunkLines(c2), maxWords);
    ChunksFromLines(c1);
    ChunksFromLines(c2);
  }
}
