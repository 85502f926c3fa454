/** clean_terraform_output: strips Markdown code fences and surrounding prose
    from the language model's answer and keeps the Terraform it contains. */
module Postprocess {
  import opened Text

  /** Three backticks at the start of `s`. */
  predicate FenceAt0(s: string) {
    |s| >= 3 && s[0] == '`' && s[1] == '`' && s[2] == '`'
  }

  /** Three backticks at index `i`. */
  predicate FenceAt(s: string, i: nat)
    requires i + 2 < |s|
  {
    s[i] == '`' && s[i + 1] == '`' && s[i + 2] == '`'
  }

  /** No three consecutive backticks anywhere in `s`. */
  predicate FenceFree(s: string) {
    forall i: nat :: i + 2 < |s| ==> !FenceAt(s, i)
  }

  lemma FenceFreeNoFence(s: string)
    requires FenceFree(s)
    ensures !Contains(s, "```")
  {
    forall i | 0 <= i <= |s|
      ensures !StartsAt(s, i, "```")
    {
      if i + 3 <= |s| {
        assert s[i..i + 3][0] == s[i] && s[i..i + 3][1] == s[i + 1] && s[i..i + 3][2] == s[i + 2];
        assert !FenceAt(s, i);
      }
    }
  }

  /** Where a fence match starting at 0 ends. With `lang` it is the pattern
      ```` ```(?:hcl|terraform)?\s*\n? ```` (the `\s*` already swallows any
      newline, so `\n?` matches empty); without, it is ```` ```\s* ````. */
  function FenceEnd(s: string, lang: bool): (k: nat)
    requires FenceAt0(s)
    ensures 3 <= k <= |s|
  {
    var k := if lang && StartsAt(s, 3, "hcl") then 6
             else if lang && StartsAt(s, 3, "terraform") then 12
             else 3;
    SkipSpace(s, k)
  }

  /** `re.sub(pattern, '', s)` for either fence pattern: scanning from the left,
      each match is dropped and scanning resumes after it. */
  function RemoveFences(s: string, lang: bool): (r: string)
    ensures |r| <= |s|
    decreases |s|
  {
    if FenceAt0(s) then RemoveFences(s[FenceEnd(s, lang)..], lang)
    else if s == [] then []
    else [s[0]] + RemoveFences(s[1..], lang)
  }

  /** After the substitution no fence is left, not even one formed by joining
      the text around a removed match: a kept backtick is never directly
      followed by two more. */
  lemma {:induction false} FencesRemoved(s: string, lang: bool)
    ensures FenceFree(RemoveFences(s, lang))
    decreases |s|
  {
    if FenceAt0(s) {
      FencesRemoved(s[FenceEnd(s, lang)..], lang);
    } else if s != [] {
      var t := RemoveFences(s[1..], lang);
      FencesRemoved(s[1..], lang);
      var r := [s[0]] + t;
      assert r == RemoveFences(s, lang);
      // a kept backtick is followed by at most one more in the output
      if s[0] == '`' && |s| >= 2 {
        var s1 := s[1..];
        if s[1] != '`' {
          assert !FenceAt0(s1) && t[0] == s[1];
        } else if |s| == 2 {
          assert !FenceAt0(s1) && |t| == 1;
        } else {
          var s2 := s[2..];
          assert !FenceAt0(s1) && !FenceAt0(s2);
          assert t == [s[1]] + RemoveFences(s2, lang);
          assert RemoveFences(s2, lang)[0] == s[2];
        }
      }
      forall i: nat | i + 2 < |r|
        ensures !FenceAt(r, i)
      {
        if i > 0 {
          assert r[i] == t[i - 1] && r[i + 1] == t[i] && r[i + 2] == t[i + 1];
          assert !FenceAt(t, i - 1);
        }
      }
    }
  }

  /** On fence-free text either substitution changes nothing. */
  lemma {:induction false} RemoveFencesIdle(s: string, lang: bool)
    requires FenceFree(s)
    ensures RemoveFences(s, lang) == s
    decreases |s|
  {
    if s != [] {
      if |s| >= 3 {
        assert !FenceAt(s, 0);
      }
      FenceFreeSlice(s, 1, |s|);
      assert s[1..|s|] == s[1..];
      RemoveFencesIdle(s[1..], lang);
    }
  }

  /** `re.sub(r'```\s*$', '', s)`: three backticks followed by nothing but
      whitespace up to the end are dropped together with that whitespace. */
  function RemoveTrailingFence(s: string): (r: string)
    decreases |s|
  {
    if s == [] then []
    else if FenceAt0(s) && IsBlank(s[3..]) then []
    else [s[0]] + RemoveTrailingFence(s[1..])
  }

  lemma {:induction false} RemoveTrailingFenceIdle(s: string)
    requires FenceFree(s)
    ensures RemoveTrailingFence(s) == s
    decreases |s|
  {
    if s != [] {
      if |s| >= 3 {
        assert !FenceAt(s, 0);
      }
      FenceFreeSlice(s, 1, |s|);
      assert s[1..|s|] == s[1..];
      RemoveTrailingFenceIdle(s[1..]);
    }
  }

  lemma FenceFreeSlice(s: string, a: nat, b: nat)
    requires FenceFree(s) && a <= b <= |s|
    ensures FenceFree(s[a..b])
  {
    var t := s[a..b];
    forall i: nat | i + 2 < |t|
      ensures !FenceAt(t, i)
    {
      assert t[i] == s[a + i] && t[i + 1] == s[a + i + 1] && t[i + 2] == s[a + i + 2];
      assert !FenceAt(s, a + i);
    }
  }

  /** The first piece of `s.split(c)` is a prefix of `s`. */
  lemma {:induction false} SplitHeadPrefix(s: string, c: char)
    ensures |Split(s, c)[0]| <= |s| && Split(s, c)[0] == s[..|Split(s, c)[0]|]
  {
    if s != [] {
      SplitHeadPrefix(s[1..], c);
    }
  }

  lemma {:induction false} SplitFenceFree(s: string, c: char)
    requires FenceFree(s)
    ensures forall i :: 0 <= i < |Split(s, c)| ==> FenceFree(Split(s, c)[i])
  {
    if s != [] {
      var rest := Split(s[1..], c);
      FenceFreeSlice(s, 1, |s|);
      assert s[1..|s|] == s[1..];
      SplitFenceFree(s[1..], c);
      if s[0] != c {
        SplitHeadPrefix(s[1..], c);
        assert [s[0]] + rest[0] == s[..1 + |rest[0]|];
        FenceFreeSlice(s, 0, 1 + |rest[0]|);
      }
    }
  }

  /** Joining fence-free lines with newlines makes no fence: a fence never spans a newline. */
  lemma {:induction false} JoinFenceFree(xs: seq<string>)
    requires forall i :: 0 <= i < |xs| ==> FenceFree(xs[i]) && '\n' !in xs[i]
    ensures FenceFree(Join(xs, "\n"))
  {
    if |xs| > 1 {
      JoinFenceFree(xs[1..]);
      var a := xs[0];
      var b := Join(xs[1..], "\n");
      var j := a + "\n" + b;
      assert j == Join(xs, "\n");
      forall i: nat | i + 2 < |j|
        ensures !FenceAt(j, i)
      {
        if i + 2 < |a| {
          assert j[i] == a[i] && j[i + 1] == a[i + 1] && j[i + 2] == a[i + 2];
          assert !FenceAt(a, i);
        } else if i <= |a| {
          assert j[|a|] == '\n';
        } else {
          var k: nat := i - |a| - 1;
          assert j[i] == b[k] && j[i + 1] == b[k + 1] && j[i + 2] == b[k + 2];
          assert !FenceAt(b, k);
        }
      }
    }
  }

  lemma StripFenceFree(s: string)
    requires FenceFree(s)
    ensures FenceFree(Strip(s))
  {
    var a := StripInfix(s);
    FenceFreeSlice(s, a, a + |Strip(s)|);
  }

  /** The text the line scan works on. The closing-fence pass never changes
      anything: the first pass has already removed every fence. */
  function Cleaned(raw: string): (c: string)
    ensures c == RemoveTrailingFence(RemoveFences(raw, true))
    ensures c == RemoveFences(raw, true) && FenceFree(c)
  {
    var once := RemoveFences(raw, true);
    FencesRemoved(raw, true);
    RemoveTrailingFenceIdle(once);
    RemoveTrailingFence(once)
  }

  /** What is returned when no usable block is found: the answer with both
      fence patterns removed (the second finds nothing left to remove). */
  function Fallback(raw: string): (f: string)
    ensures f == RemoveFences(raw, true) && FenceFree(f)
  {
    var once := RemoveFences(raw, true);
    FencesRemoved(raw, true);
    RemoveFencesIdle(once, false);
    RemoveFences(once, false)
  }

  predicate OpensResource(line: string) {
    StartsWith(Strip(line), "resource ")
  }

  predicate ReportsMissing(line: string) {
    StartsWith(Strip(line), "MISSING_REQUIRED:")
  }

  predicate HasBrace(s: string) {
    '{' in s || '}' in s
  }

  /** The test of the second scan: a line with '=', '{' or '}' that is not a comment. */
  predicate LooksLikeHcl(line: string) {
    ('=' in line || '{' in line || '}' in line) && !StartsWith(Strip(line), "#")
  }

  /** Line `j` ends the block opened at line `r`: it is a lone "}" and no line
      collected before it, the opening line included, holds a brace. */
  predicate ClosesBlock(lines: seq<string>, r: nat, j: nat)
    requires r <= j < |lines|
  {
    Strip(lines[j]) == "}" && forall k :: r <= k < j ==> !HasBrace(lines[k])
  }

  /** One past the last line of the block opened at `r`, searching from line `j`. */
  function BlockEnd(lines: seq<string>, r: nat, j: nat): (e: nat)
    requires r < j <= |lines|
    ensures j <= e <= |lines|
    decreases |lines| - j
  {
    if j == |lines| then |lines|
    else if ClosesBlock(lines, r, j) then j + 1
    else BlockEnd(lines, r, j + 1)
  }

  /** The closing test can never pass once the opening line holds a brace, and
      the opening line of a Terraform block always does: the block then runs
      to the last line of the answer, trailing prose included. */
  lemma {:induction false} BlockRunsToEnd(lines: seq<string>, r: nat, j: nat)
    requires r < j <= |lines| && HasBrace(lines[r])
    ensures BlockEnd(lines, r, j) == |lines|
    decreases |lines| - j
  {
    if j < |lines| {
      assert r <= r < j && HasBrace(lines[r]);
      assert !ClosesBlock(lines, r, j);
      BlockRunsToEnd(lines, r, j + 1);
    }
  }

  /** The lines the second scan keeps, in order. */
  function HclLooking(lines: seq<string>): (r: seq<string>)
    ensures IsSubsequence(r, lines)
    ensures forall x :: x in r <==> x in lines && LooksLikeHcl(x)
  {
    if lines == [] then []
    else
      var init := lines[..|lines| - 1];
      var last := lines[|lines| - 1];
      var rest := HclLooking(init);
      assert lines == init + [last];
      if LooksLikeHcl(last) then
        SubsequenceAppendBoth(rest, init, last);
        rest + [last]
      else
        SubsequenceExtend(rest, init, last);
        rest
  }

  /** A kept line is kept as often as it occurs; any other line never. */
  lemma {:induction false} HclLookingCount(lines: seq<string>)
    ensures forall x :: multiset(HclLooking(lines))[x] == if LooksLikeHcl(x) then multiset(lines)[x] else 0
  {
    if lines != [] {
      var init := lines[..|lines| - 1];
      assert lines == init + [lines[|lines| - 1]];
      HclLookingCount(init);
    }
  }

  /** The final check: the joined, stripped lines if they mention "resource",
      the stripped fallback otherwise. */
  function Assemble(raw: string, hcl: seq<string>): (r: string)
    ensures IsStripped(r)
    ensures Contains(r, "resource") || r == Strip(Fallback(raw))
  {
    var result := Strip(Join(hcl, "\n"));
    if result == [] || !Contains(result, "resource") then Strip(Fallback(raw)) else result
  }

  /** What the line loop ends with: a MISSING_REQUIRED line to return at once,
      or the collected block (empty when no line opens a resource). */
  datatype Scan = Missing(line: string) | Block(hcl: seq<string>)

  /** The line loop as a function of the lines: a MISSING_REQUIRED line before
      any resource line is returned on its own; otherwise the block runs from
      the first resource line to the line closing it, or to the end. */
  function ScanSpec(lines: seq<string>): (r: Scan)
    ensures r.Missing? ==> StartsWith(r.line, "MISSING_REQUIRED:")
    ensures r.Block? ==> (r.hcl == [] <==> forall k :: 0 <= k < |lines| ==> !OpensResource(lines[k]))
    ensures r.Block? && r.hcl != [] ==> OpensResource(r.hcl[0])
    ensures r.Block? ==> forall x :: x in r.hcl ==> x in lines
  {
    var fr := FirstWhere(lines, OpensResource);
    var fm := FirstWhere(lines, ReportsMissing);
    if fm.Some? && (fr.None? || fm.value < fr.value) then Missing(Strip(lines[fm.value]))
    else if fr.Some? then Block(lines[fr.value..BlockEnd(lines, fr.value, fr.value + 1)])
    else Block([])
  }

  /** clean_terraform_output as a function of the answer: the MISSING_REQUIRED
      line, or the block, or failing that every HCL-looking line, checked for a
      mention of "resource" and replaced by the fallback when there is none. */
  function CleanSpec(raw: string): (r: string)
    ensures IsStripped(r)
    ensures Contains(r, "resource") || StartsWith(r, "MISSING_REQUIRED:") || r == Strip(Fallback(raw))
  {
    var lines := Split(Cleaned(raw), '\n');
    match ScanSpec(lines) {
      case Missing(line) => line
      case Block(hcl) => Assemble(raw, if hcl == [] then HclLooking(lines) else hcl)
    }
  }

  lemma AssembleFenceFree(raw: string, hcl: seq<string>)
    requires forall i :: 0 <= i < |hcl| ==> FenceFree(hcl[i]) && '\n' !in hcl[i]
    ensures FenceFree(Assemble(raw, hcl))
  {
    JoinFenceFree(hcl);
    StripFenceFree(Join(hcl, "\n"));
    StripFenceFree(Fallback(raw));
  }

  /** Whatever path is taken, no code fence survives into the output. */
  lemma CleanOutputFenceFree(raw: string)
    ensures FenceFree(CleanSpec(raw))
  {
    var lines := Split(Cleaned(raw), '\n');
    SplitFenceFree(Cleaned(raw), '\n');
    assert forall x :: x in lines ==> FenceFree(x) && '\n' !in x;
    match ScanSpec(lines) {
      case Missing(line) =>
        var m := FirstWhere(lines, ReportsMissing).value;
        StripFenceFree(lines[m]);
      case Block(hcl) =>
        var h := if hcl == [] then HclLooking(lines) else hcl;
        assert forall x :: x in h ==> x in lines;
        AssembleFenceFree(raw, h);
    }
  }

  /** A one-line MISSING_REQUIRED answer comes back stripped and otherwise unchanged. */
  lemma MissingAnswerPassesThrough(raw: string)
    requires FenceFree(raw) && '\n' !in raw && ReportsMissing(raw)
    ensures CleanSpec(raw) == Strip(raw)
  {
    RemoveFencesIdle(raw, true);
    SplitNoSep(raw, '\n');
    assert Split(Cleaned(raw), '\n') == [raw];
    ScanSpecMissing([raw], 0);
  }

  /** `''.join(xs)` holds a character exactly when one of the pieces does. */
  lemma {:induction false} ConcatHolds(xs: seq<string>, c: char)
    ensures c in Join(xs, "") <==> exists k :: 0 <= k < |xs| && c in xs[k]
  {
    if |xs| > 1 {
      ConcatHolds(xs[1..], c);
      assert Join(xs, "") == xs[0] + Join(xs[1..], "");
      assert forall k :: 1 <= k < |xs| ==> xs[k] == xs[1..][k - 1];
      assert forall k :: 0 <= k < |xs| - 1 ==> xs[1..][k] == xs[k + 1];
    }
  }

  /** No line both opens a resource and reports missing fields. */
  lemma OpensNotMissing(line: string)
    ensures !(OpensResource(line) && ReportsMissing(line))
  {
    var t := Strip(line);
    if |t| >= 17 {
      assert t[..9][0] == t[0] && t[..17][0] == t[0];
    }
  }

  lemma ScanSpecMissing(lines: seq<string>, i: nat)
    requires i < |lines| && ReportsMissing(lines[i])
    requires forall k :: 0 <= k < i ==> !OpensResource(lines[k]) && !ReportsMissing(lines[k])
    ensures ScanSpec(lines) == Missing(Strip(lines[i]))
  {
    OpensNotMissing(lines[i]);
    var fr := FirstWhere(lines, OpensResource);
    assert FirstWhere(lines, ReportsMissing) == Some(i);
    assert fr.None? || fr.value > i;
  }

  lemma ScanSpecBlock(lines: seq<string>, start: nat)
    requires start < |lines| && OpensResource(lines[start])
    requires forall k :: 0 <= k < start ==> !OpensResource(lines[k]) && !ReportsMissing(lines[k])
    ensures ScanSpec(lines) == Block(lines[start..BlockEnd(lines, start, start + 1)])
  {
    OpensNotMissing(lines[start]);
    assert FirstWhere(lines, OpensResource) == Some(start);
    var fm := FirstWhere(lines, ReportsMissing);
    assert fm.None? || fm.value > start;
  }

  /** The brace test on the collected lines before the current one. */
  lemma BraceBefore(lines: seq<string>, start: nat, i: nat)
    requires start <= i <= |lines|
    ensures ('{' in Join(lines[start..i], "") || '}' in Join(lines[start..i], ""))
            <==> exists k :: start <= k < i && HasBrace(lines[k])
  {
    var xs := lines[start..i];
    ConcatHolds(xs, '{');
    ConcatHolds(xs, '}');
    assert forall k :: 0 <= k < |xs| ==> xs[k] == lines[start + k];
  }

  /** The loop of clean_terraform_output run from line `i`, in the state
      (`inside`, collected `hcl`) it has reached there. */
  function ScanFrom(lines: seq<string>, i: nat, inside: bool, hcl: seq<string>): Scan
    requires i <= |lines|
    decreases |lines| - i
  {
    if i == |lines| then Block(hcl)
    else
      var line := lines[i];
      var stripped := Strip(line);
      if StartsWith(stripped, "resource ") then ScanFrom(lines, i + 1, true, hcl + [line])
      else if inside then
        var before := Join(hcl, "");
        if stripped == "}" && !('{' in before || '}' in before) then Block(hcl + [line])
        else ScanFrom(lines, i + 1, true, hcl + [line])
      else if StartsWith(stripped, "MISSING_REQUIRED:") then Missing(stripped)
      else ScanFrom(lines, i + 1, false, hcl)
  }

  /** Inside the block, the loop collects exactly the lines up to the block's end. */
  lemma {:induction false} ScanFromInside(lines: seq<string>, start: nat, i: nat)
    requires start < i <= |lines| && OpensResource(lines[start])
    ensures ScanFrom(lines, i, true, lines[start..i])
            == Block(lines[start..BlockEnd(lines, start, i)])
    decreases |lines| - i
  {
    if i < |lines| {
      BraceBefore(lines, start, i);
      assert lines[start..i] + [lines[i]] == lines[start..i + 1];
      if !ClosesBlock(lines, start, i) {
        ScanFromInside(lines, start, i + 1);
      }
    }
  }

  /** Before the block, the loop ends as the declarative scan says. */
  lemma {:induction false} ScanFromOutside(lines: seq<string>, i: nat)
    requires i <= |lines|
    requires forall k :: 0 <= k < i ==> !OpensResource(lines[k]) && !ReportsMissing(lines[k])
    ensures ScanFrom(lines, i, false, []) == ScanSpec(lines)
    decreases |lines| - i
  {
    if i == |lines| {
      assert FirstWhere(lines, OpensResource).None? && FirstWhere(lines, ReportsMissing).None?;
    } else if OpensResource(lines[i]) {
      assert [] + [lines[i]] == lines[i..i + 1];
      ScanFromInside(lines, i, i + 1);
      ScanSpecBlock(lines, i);
    } else if ReportsMissing(lines[i]) {
      ScanSpecMissing(lines, i);
    } else {
      ScanFromOutside(lines, i + 1);
    }
  }

  /** The `for line in lines` loop of clean_terraform_output. */
  method ScanLines(lines: seq<string>) returns (r: Scan)
    ensures r == ScanSpec(lines)
  {
    ScanFromOutside(lines, 0);
    ghost var spec := ScanSpec(lines);
    var hclLines: seq<string> := [];
    var inside := false;
    var i := 0;
    while i < |lines|
      invariant 0 <= i <= |lines|
      invariant ScanFrom(lines, i, inside, hclLines) == spec
    {
      var line := lines[i];
      var stripped := Strip(line);
      if StartsWith(stripped, "resource ") {
        assert ScanFrom(lines, i, inside, hclLines) == ScanFrom(lines, i + 1, true, hclLines + [line]);
        inside := true;
        hclLines := hclLines + [line];
      } else if inside {
        // `hcl_lines[:-1]` once the line is appended: the lines collected before it
        var before := Join(hclLines, "");
        if stripped == "}" && !('{' in before || '}' in before) {
          return Block(hclLines + [line]);
        }
        assert ScanFrom(lines, i, inside, hclLines) == ScanFrom(lines, i + 1, true, hclLines + [line]);
        hclLines := hclLines + [line];
      } else if StartsWith(stripped, "MISSING_REQUIRED:") {
        return Missing(stripped);
      } else {
        assert ScanFrom(lines, i, inside, hclLines) == ScanFrom(lines, i + 1, false, hclLines);
      }
      i := i + 1;
    }
    return Block(hclLines);
  }

  /** `CleanSpec` when the scan stops at a MISSING_REQUIRED line. */
  lemma CleanSpecMissing(raw: string, line: string)
    requires ScanSpec(Split(Cleaned(raw), '\n')) == Missing(line)
    ensures CleanSpec(raw) == line
  {
  }

  /** `CleanSpec` when the scan ends with a block, possibly empty. */
  lemma CleanSpecBlock(raw: string, hcl: seq<string>)
    requires ScanSpec(Split(Cleaned(raw), '\n')) == Block(hcl)
    ensures CleanSpec(raw) == Assemble(raw, if hcl == [] then HclLooking(Split(Cleaned(raw), '\n')) else hcl)
  {
  }

  /** The HCL-looking filter over all lines, as the source's second loop. */
  method FilterHclLooking(lines: seq<string>) returns (hcl: seq<string>)
    ensures hcl == HclLooking(lines)
  {
    hcl := [];
    for j := 0 to |lines|
      invariant hcl == HclLooking(lines[..j])
    {
      var line := lines[j];
      assert lines[..j + 1][..j] == lines[..j];
      if ('=' in line || '{' in line || '}' in line) && !StartsWith(Strip(line), "#") {
        hcl := hcl + [line];
      }
    }
    assert lines[..|lines|] == lines;
  }

  /** clean_terraform_output. */
  method CleanTerraformOutput(raw: string) returns (out: string)
    ensures out == CleanSpec(raw)
  {
    var cleaned := RemoveFences(raw, true);
    cleaned := RemoveTrailingFence(cleaned);
    var lines := Split(cleaned, '\n');
    var scan := ScanLines(lines);
    if scan.Missing? {
      CleanSpecMissing(raw, scan.line);
      return scan.line;
    }
    CleanSpecBlock(raw, scan.hcl);
    var hclLines := scan.hcl;
    if hclLines == [] {
      hclLines := FilterHclLooking(lines);
    }
    var result := Strip(Join(hclLines, "\n"));
    if result == [] || !Contains(result, "resource") {
      var fallback := raw;
      fallback := RemoveFences(fallback, true);
      fallback := RemoveFences(fallback, false);
      out := Strip(fallback);
    } else {
      out := result;
    }
    assert out == Assemble(raw, hclLines);
  }
}
