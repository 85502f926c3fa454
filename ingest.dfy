/** The text helpers of the ingestion script: the resource name taken from a
    documentation file name, the "Argument Reference" section of a page, the
    required arguments listed in it. The chunking of a page is in Chunking. */
module Ingest {
  import opened Text
  import opened Sorting

  // ---------------------------------------------------------------------
  // extract_resource_name
  // ---------------------------------------------------------------------

  /** `$` without MULTILINE: the end of the string, or just before a final newline. */
  predicate AtEnd(s: string, k: nat) {
    k == |s| || (k + 1 == |s| && s[k] == '\n')
  }

  /** `resources_([^.]+)\.md$` matches at `p`. The greedy `[^.]+` runs to the
      first dot, and only that dot can start `\.md`: a shorter group would
      leave a character other than a dot in its place. */
  predicate DocNameAt(s: string, p: nat) {
    && StartsAt(s, p, "resources_")
    && var d := IndexFrom(s, '.', p + 10);
       d > p + 10 && StartsAt(s, d, ".md") && AtEnd(s, d + 3)
  }

  /** The leftmost match at or after `p`: `re.search` tries each start in turn. */
  function DocNameFrom(s: string, p: nat): (r: Option<nat>)
    requires p <= |s|
    ensures r.Some? ==> p <= r.value <= |s| && DocNameAt(s, r.value)
    ensures r.Some? ==> forall k :: p <= k < r.value ==> !DocNameAt(s, k)
    ensures r.None? ==> forall k :: p <= k <= |s| ==> !DocNameAt(s, k)
    decreases |s| - p
  {
    if DocNameAt(s, p) then Some(p) else if p == |s| then None else DocNameFrom(s, p + 1)
  }

  /** extract_resource_name: "cloudstack_" and the group of the leftmost match. */
  function ExtractResourceName(filename: string): (r: Option<string>)
    ensures r.Some? ==> |r.value| > 11 && r.value[..11] == "cloudstack_"
    ensures r.Some? ==> '.' !in r.value[11..]
    ensures r.Some? ==> EndsWith(filename, "resources_" + r.value[11..] + ".md")
                        || EndsWith(filename, "resources_" + r.value[11..] + ".md\n")
  {
    match DocNameFrom(filename, 0) {
      case None => None
      case Some(p) =>
        var d := IndexFrom(filename, '.', p + 10);
        var name := filename[p + 10..d];
        DocNoDot(filename, p, d);
        DocTail(filename, p, d);
        assert ("cloudstack_" + name)[11..] == name;
        Some("cloudstack_" + name)
    }
  }

  /** The group `[^.]+` holds no dot. */
  lemma DocNoDot(s: string, p: nat, d: nat)
    requires DocNameAt(s, p) && d == IndexFrom(s, '.', p + 10)
    ensures '.' !in s[p + 10..d]
  {
    IndexFromSpans(s, '.', p + 10);
    var name := s[p + 10..d];
    forall k | 0 <= k < |name| ensures name[k] != '.' {
      assert name[k] == s[p + 10 + k];
    }
  }

  /** The text from a match to the end of the file name. */
  lemma DocTail(s: string, p: nat, d: nat)
    requires DocNameAt(s, p) && d == IndexFrom(s, '.', p + 10)
    ensures EndsWith(s, "resources_" + s[p + 10..d] + ".md")
            || EndsWith(s, "resources_" + s[p + 10..d] + ".md\n")
  {
    var tail := "resources_" + s[p + 10..d] + ".md";
    assert s[p..d + 3] == tail by {
      assert s[p..p + 10] == "resources_";
      assert s[d..d + 3] == ".md";
    }
    if d + 3 == |s| {
      assert s[|s| - |tail|..] == tail;
    } else {
      assert s[p..] == s[p..d + 3] + [s[d + 3]];
      assert s[|s| - |tail + "\n"|..] == tail + "\n";
    }
  }

  /** A file name that ends in "resources_<name>.md", where this "resources_" is
      the first in the name and `<name>` has no dot, yields "cloudstack_<name>". */
  lemma DocFileName(prefix: string, name: string)
    requires name != [] && '.' !in name
    requires forall p :: 0 <= p < |prefix| ==> !StartsAt(prefix + "resources_" + name + ".md", p, "resources_")
    ensures ExtractResourceName(prefix + "resources_" + name + ".md") == Some("cloudstack_" + name)
  {
    var s := prefix + "resources_" + name + ".md";
    var q := |prefix| + 10;
    assert s[|prefix|..q] == "resources_";
    assert forall k :: q <= k < q + |name| ==> s[k] == name[k - q];
    assert s[q + |name|..|s|] == ".md";
    IndexFromRun(s, '.', q, q + |name|);
    assert DocNameAt(s, |prefix|);
    assert s[q..q + |name|] == name;
  }


  // ---------------------------------------------------------------------
  // slice_argument_reference_section
  // ---------------------------------------------------------------------

  /** `^` under MULTILINE. */
  predicate LineStart(s: string, p: nat) {
    p == 0 || (0 < p <= |s| && s[p - 1] == '\n')
  }

  /** The last newline in `s[i..e]`, if any. */
  function LastNewline(s: string, i: nat, e: nat): (r: Option<nat>)
    requires i <= e <= |s|
    ensures r.Some? ==> i <= r.value < e && s[r.value] == '\n'
    ensures r.Some? ==> forall k :: r.value < k < e ==> s[k] != '\n'
    ensures r.None? ==> forall k :: i <= k < e ==> s[k] != '\n'
    decreases e - i
  {
    if e == i then None else if s[e - 1] == '\n' then Some(e - 1) else LastNewline(s, i, e - 1)
  }

  /** Where `\s*$` under MULTILINE, started at `i`, ends. The greedy `\s*` may
      cross newlines; when the whitespace run is followed by text, `$` can only
      hold at the last newline inside the run. */
  function TrailEnd(s: string, i: nat): (r: Option<nat>)
    requires i <= |s|
    ensures r.Some? ==> i <= r.value <= |s| && (r.value == |s| || s[r.value] == '\n')
    ensures r.Some? ==> IsBlank(s[i..r.value])
  {
    var e := SkipSpace(s, i);
    SkipSpaceSpans(s, i);
    if e == |s| then Some(e) else LastNewline(s, i, e)
  }

  /** `t`, written in lower case, occurs at index `i` of `s` when ASCII case
      is ignored. The heading text has no letter whose case folding reaches
      beyond ASCII, so this is what IGNORECASE compares. */
  predicate FoldedAt(s: string, i: nat, t: string) {
    i + |t| <= |s| && forall k :: 0 <= k < |t| ==> LowerChar(s[i + k]) == t[k]
  }

  /** The bracketed link text `[^\]]*Argument Reference[^\]]*` between `[` at
      `w` and the first `]` at `c` contains the heading words. */
  predicate BracketNames(s: string, w: nat, c: nat) {
    exists j :: w < j && j + 18 <= c && FoldedAt(s, j, "argument reference")
  }

  /** The end of a match of the heading pattern
      `^##\s*(?:\[[^\]]*Argument Reference[^\]]*\]\([^)]+\)|Argument Reference)\s*$`
      (IGNORECASE, MULTILINE) starting at `p`. `\s*` before the alternatives
      stops at the first non-space, which must be `[` or the heading text;
      the bracketed text runs to the first `]` and the link target to the
      first `)`. */
  function HeadingEnd(s: string, p: nat): (r: Option<nat>)
    requires p <= |s|
    ensures r.Some? ==> LineStart(s, p) && StartsAt(s, p, "##")
    ensures r.Some? ==> p + 2 <= r.value <= |s| && (r.value == |s| || s[r.value] == '\n')
  {
    if !(LineStart(s, p) && StartsAt(s, p, "##")) then None
    else
      var w := SkipSpace(s, p + 2);
      if w < |s| && s[w] == '[' then
        var c := IndexFrom(s, ']', w + 1);
        if c + 1 < |s| && s[c + 1] == '(' && BracketNames(s, w, c) then
          var e := IndexFrom(s, ')', c + 2);
          if e < |s| && e > c + 2 then TrailEnd(s, e + 1) else None
        else None
      else if FoldedAt(s, w, "argument reference") then
        TrailEnd(s, w + 18)
      else None
  }

  /** The start of the first heading match at or after `p`, if any. */
  function HeadingFrom(text: string, p: nat): (r: Option<nat>)
    requires p <= |text|
    ensures r.Some? ==> p <= r.value <= |text| && HeadingEnd(text, r.value).Some?
    ensures r.Some? ==> forall k :: p <= k < r.value ==> HeadingEnd(text, k).None?
    ensures r.None? ==> forall k :: p <= k <= |text| ==> HeadingEnd(text, k).None?
    decreases |text| - p
  {
    if HeadingEnd(text, p).Some? then Some(p)
    else if p == |text| then None
    else HeadingFrom(text, p + 1)
  }

  /** `^\s*##\s+` under MULTILINE matches at `p`: after the leading whitespace,
      which may span blank lines, come "##" and at least one whitespace character. */
  predicate NextHeadingAt(t: string, p: nat)
    requires p <= |t|
  {
    && LineStart(t, p)
    && var w := SkipSpace(t, p);
       StartsAt(t, w, "##") && w + 2 < |t| && IsSpace(t[w + 2])
  }

  /** The first match of `^\s*##\s+` at or after `p`, if any. */
  function NextHeadingFrom(t: string, p: nat): (r: Option<nat>)
    requires p <= |t|
    ensures r.Some? ==> p <= r.value <= |t| && NextHeadingAt(t, r.value)
    ensures r.Some? ==> forall k :: p <= k < r.value ==> !NextHeadingAt(t, k)
    ensures r.None? ==> forall k :: p <= k <= |t| ==> !NextHeadingAt(t, k)
    decreases |t| - p
  {
    if NextHeadingAt(t, p) then Some(p) else if p == |t| then None else NextHeadingFrom(t, p + 1)
  }

  /** `r` is `t` cut before its first `^\s*##\s+` match, or all of `t` when
      there is none. */
  predicate CutAtHeading(t: string, r: string) {
    && |r| <= |t| && r == t[..|r|]
    && (forall k :: 0 <= k < |r| ==> !NextHeadingAt(t, k))
    && (r == t || NextHeadingAt(t, |r|))
  }

  /** The text after the heading up to the start of the next "##" heading. */
  function SectionBody(section: string): (r: string)
    ensures CutAtHeading(section, r)
  {
    match NextHeadingFrom(section, 0) {
      case None => section
      case Some(k) => section[..k]
    }
  }

  /** slice_argument_reference_section: the whole text when no heading matches;
      otherwise the text from the end of the first heading match up to the
      next heading. */
  function SliceArgumentReferenceSection(text: string): (r: string)
    ensures HeadingFrom(text, 0).None? ==> r == text
    ensures HeadingFrom(text, 0).Some? ==>
              CutAtHeading(text[HeadingEnd(text, HeadingFrom(text, 0).value).value..], r)
  {
    match HeadingFrom(text, 0) {
      case None => text
      case Some(p) => SectionBody(text[HeadingEnd(text, p).value..])
    }
  }

  /** A line "## Argument Reference" is a heading the slicer recognises. */
  lemma PlainHeading(s: string, p: nat)
    requires p <= |s| && LineStart(s, p) && StartsAt(s, p, "## Argument Reference")
    requires p + 21 == |s| || s[p + 21] == '\n'
    ensures HeadingEnd(s, p).Some?
  {
    var h := s[p..p + 21];
    assert h == "## Argument Reference";
    assert s[p..p + 2] == h[..2] == "##";
    assert s[p + 3..p + 21] == h[3..];
    assert s[p + 2] == h[2] == ' ';
    SkipOne(s, p + 2);
    HeadingWords(s, p + 3);
    LineEndTrail(s, p + 21);
  }

  /** "Argument Reference" matches the heading words whatever their case. */
  lemma HeadingWords(s: string, i: nat)
    requires StartsAt(s, i, "Argument Reference")
    ensures FoldedAt(s, i, "argument reference")
  {
    forall k | 0 <= k < 18 ensures LowerChar(s[i + k]) == "argument reference"[k] {
      assert s[i + k] == s[i..i + 18][k] == "Argument Reference"[k];
    }
  }

  /** `\s*$` holds at the end of the text or just before a newline. */
  lemma LineEndTrail(s: string, i: nat)
    requires i <= |s| && (i == |s| || s[i] == '\n')
    ensures TrailEnd(s, i).Some?
  {
    if i < |s| {
      assert SkipSpace(s, i) > i;
      LastNewlineFound(s, i, SkipSpace(s, i), i);
    }
  }

  /** A newline inside `s[i..e]` makes LastNewline succeed. */
  lemma {:induction false} LastNewlineFound(s: string, i: nat, e: nat, k: nat)
    requires i <= k < e <= |s| && s[k] == '\n'
    ensures LastNewline(s, i, e).Some?
    decreases e - i
  {
    if s[e - 1] != '\n' {
      LastNewlineFound(s, i, e - 1, k);
    }
  }

  // ---------------------------------------------------------------------
  // extract_required_fields
  // ---------------------------------------------------------------------

  /** The three list-item forms the extractor accepts:
      "- [`name`](link) - (Required)", "- `name` - (Required)" and
      "- name - (Required)". */
  datatype Form = Linked | Ticked | Bare

  /** A match: the captured name and the index where the match ends. */
  datatype Item = Item(name: string, end: nat)

  predicate CharAt(s: string, i: nat, c: char) {
    i < |s| && s[i] == c
  }

  /** `\s*(?:-|\\-)\s*\(Required\)` starting at `i`: where it ends, if it
      matches. Each `\s*` stops at a non-space, which must be the dash (or
      the backslash before it) and then the opening parenthesis. */
  function RequiredTagEnd(s: string, i: nat): (r: Option<nat>)
    requires i <= |s|
    ensures r.Some? ==> i + 11 <= r.value <= |s| && s[r.value - 10..r.value] == "(Required)"
  {
    var j := SkipSpace(s, i);
    var k := if CharAt(s, j, '-') then j + 1
             else if CharAt(s, j, '\\') && CharAt(s, j + 1, '-') then j + 2
             else j;
    if k == j then None
    else
      var m := SkipSpace(s, k);
      if StartsAt(s, m, "(Required)") then Some(m + 10) else None
  }

  /** `^\s*-\s*` at `p`: where the item's body starts, if `p` begins a line
      whose first non-space character is a dash. */
  function DashAt(s: string, p: nat): (r: Option<nat>)
    requires p <= |s|
    ensures r.Some? ==> p < r.value <= |s|
  {
    if !LineStart(s, p) then None
    else
      var a := SkipSpace(s, p);
      if !CharAt(s, a, '-') then None else Some(SkipSpace(s, a + 1))
  }

  /** The name `s[from..to]`, then `{dash}\(Required\)` from `next`. */
  function Tagged(s: string, from: nat, to: nat, next: nat): (r: Option<Item>)
    requires from < to <= next <= |s| && to == WordEnd(s, from)
    ensures r.Some? ==> next < r.value.end <= |s| && IsWord(r.value.name)
  {
    match RequiredTagEnd(s, next) {
      case None => None
      case Some(end) =>
        WordRun(s, from);
        Some(Item(s[from..to], end))
    }
  }

  /** The third pattern, `^\s*-\s*([a-zA-Z0-9_]+){dash}\(Required\)`, at `p`.
      The name is the whole run of name characters: a shorter run would leave
      a name character where the dash pattern needs a space, '-' or '\'. */
  function BareAt(s: string, p: nat): (r: Option<Item>)
    requires p <= |s|
    ensures r.Some? ==> p < r.value.end <= |s| && IsWord(r.value.name)
  {
    match DashAt(s, p) {
      case None => None
      case Some(b) =>
        var n1 := WordEnd(s, b);
        if n1 == b then None else Tagged(s, b, n1, n1)
    }
  }

  /** The second pattern, ``^\s*-\s*`([a-zA-Z0-9_]+)`{dash}\(Required\)``, at `p`. */
  function TickedAt(s: string, p: nat): (r: Option<Item>)
    requires p <= |s|
    ensures r.Some? ==> p < r.value.end <= |s| && IsWord(r.value.name)
  {
    match DashAt(s, p) {
      case None => None
      case Some(b) =>
        if !CharAt(s, b, '`') then None
        else
          var n1 := WordEnd(s, b + 1);
          if n1 == b + 1 || !CharAt(s, n1, '`') then None else Tagged(s, b + 1, n1, n1 + 1)
    }
  }

  /** The first pattern, ``^\s*-\s*\[\s*`?([a-zA-Z0-9_]+)`?\s*\]\([^)]+\){dash}\(Required\)``,
      at `p`. Every greedy part stops at a character the next part needs, so
      no backtracking changes the outcome; the link `[^)]+` runs to the first
      ')' and may span lines. */
  function LinkedAt(s: string, p: nat): (r: Option<Item>)
    requires p <= |s|
    ensures r.Some? ==> p < r.value.end <= |s| && IsWord(r.value.name)
  {
    match DashAt(s, p) {
      case None => None
      case Some(b) =>
        if !CharAt(s, b, '[') then None
        else
          var c := SkipSpace(s, b + 1);
          var n0 := if CharAt(s, c, '`') then c + 1 else c;
          var n1 := WordEnd(s, n0);
          var q := if CharAt(s, n1, '`') then n1 + 1 else n1;
          var t := SkipSpace(s, q);
          if n1 == n0 || !CharAt(s, t, ']') || !CharAt(s, t + 1, '(') then None
          else
            var e := IndexFrom(s, ')', t + 2);
            if t + 2 < e < |s| then Tagged(s, n0, n1, e + 1) else None
    }
  }

  /** The match of one form's pattern at `p`. */
  function ItemAt(form: Form, s: string, p: nat): (r: Option<Item>)
    requires p <= |s|
    ensures r.Some? ==> p < r.value.end <= |s| && IsWord(r.value.name)
  {
    match form
    case Linked => LinkedAt(s, p)
    case Ticked => TickedAt(s, p)
    case Bare => BareAt(s, p)
  }

  /** A non-empty run found by `WordEnd` is a word. */
  lemma WordRun(s: string, i: nat)
    requires i <= |s| && i < WordEnd(s, i)
    ensures IsWord(s[i..WordEnd(s, i)])
  {
    var w := s[i..WordEnd(s, i)];
    WordEndSpans(s, i);
    forall c | c in w ensures IsWordChar(c) {
      var k :| 0 <= k < |w| && w[k] == c;
      assert w[k] == s[i + k];
    }
  }

  /** `re.finditer` of one form over `s` from `p`: the names of the
      non-overlapping matches, left to right. */
  function FindItems(form: Form, s: string, p: nat): (r: seq<string>)
    requires p <= |s|
    ensures forall n :: n in r ==> IsWord(n)
    decreases |s| - p
  {
    match ItemAt(form, s, p) {
      case Some(m) => [m.name] + FindItems(form, s, m.end)
      case None => if p == |s| then [] else FindItems(form, s, p + 1)
    }
  }

  /** The names any of the three forms finds in `section`. */
  predicate Listed(section: string, name: string) {
    name in FindItems(Linked, section, 0) || name in FindItems(Ticked, section, 0)
    || name in FindItems(Bare, section, 0)
  }

  /** `name` is found by one of `forms` in `section`. */
  predicate FoundBy(forms: seq<Form>, section: string, name: string)
    decreases |forms|
  {
    forms != [] &&
    (FoundBy(forms[..|forms| - 1], section, name) || name in FindItems(forms[|forms| - 1], section, 0))
  }

  /** extract_required_fields: each pattern's matches over the section are
      added to a set, which is returned sorted. */
  method ExtractRequiredFields(text: string) returns (fields: seq<string>)
    ensures StrictlySorted(fields)
    ensures forall n :: n in fields <==> Listed(SliceArgumentReferenceSection(text), n)
    ensures forall n :: n in fields ==> IsWord(n)
  {
    var section := SliceArgumentReferenceSection(text);
    var found: set<string> := {};
    var forms := [Linked, Ticked, Bare];
    for i := 0 to |forms|
      invariant forall n :: n in found <==> FoundBy(forms[..i], section, n)
    {
      assert forms[..i + 1][..i] == forms[..i];
      found := AddMatches(found, FindItems(forms[i], section, 0));
    }
    assert forms[..|forms|] == forms;
    FoundByAll(section);
    fields := SortedElements(found);
  }

  /** `fields.add(m.group(1))` for each match in turn. */
  method AddMatches(found: set<string>, matches: seq<string>) returns (r: set<string>)
    ensures forall n :: n in r <==> n in found || n in matches
  {
    r := found;
    for k := 0 to |matches|
      invariant forall n :: n in r <==> n in found || n in matches[..k]
    {
      assert matches[..k + 1] == matches[..k] + [matches[k]];
      r := r + {matches[k]};
    }
    assert matches[..|matches|] == matches;
  }

  /** The names the three forms find are exactly the listed names, all words. */
  lemma FoundByAll(section: string)
    ensures forall n :: FoundBy([Linked, Ticked, Bare], section, n) <==> Listed(section, n)
    ensures forall n :: FoundBy([Linked, Ticked, Bare], section, n) ==> IsWord(n)
  {
    assert [Linked, Ticked, Bare][..2] == [Linked, Ticked];
    assert [Linked, Ticked][..1] == [Linked];
    assert [Linked][..0] == [];
  }

  /** `sorted()` of a set of strings. */
  method SortedElements(s: set<string>) returns (r: seq<string>)
    ensures StrictlySorted(r)
    ensures forall n :: n in r <==> n in s
  {
    var rest := s;
    var xs: seq<string> := [];
    while rest != {}
      invariant forall n :: n in s <==> n in xs || n in rest
      decreases |rest|
    {
      var x :| x in rest;
      xs := xs + [x];
      rest := rest - {x};
    }
    r := SortedSet(xs);
  }

  lemma StartsAtConcat(s: string, i: nat, a: string, b: string)
    requires StartsAt(s, i, a + b)
    ensures StartsAt(s, i, a) && StartsAt(s, i + |a|, b)
  {
    assert s[i..i + |a|] == s[i..i + |a + b|][..|a|];
    assert s[i + |a|..i + |a + b|] == s[i..i + |a + b|][|a|..];
  }

  /** The text after a name in a required item, with a plain or an escaped dash. */
  function RequiredSuffix(escaped: bool): string {
    if escaped then " \\- (Required)" else " - (Required)"
  }

  lemma PlainTag(s: string, i: nat)
    requires StartsAt(s, i, " - (Required)")
    ensures RequiredTagEnd(s, i) == Some(i + 13)
  {
    var u := s[i..i + 13];
    assert u == " - (Required)";
    assert s[i] == u[0] && s[i + 1] == u[1] && s[i + 2] == u[2] && s[i + 3] == u[3];
    assert s[i + 3..i + 13] == u[3..];
    SkipOne(s, i);
    SkipOne(s, i + 2);
  }

  lemma EscapedTag(s: string, i: nat)
    requires StartsAt(s, i, " \\- (Required)")
    ensures RequiredTagEnd(s, i) == Some(i + 14)
  {
    var u := s[i..i + 14];
    assert u == " \\- (Required)";
    assert s[i] == u[0] && s[i + 1] == u[1] && s[i + 2] == u[2] && s[i + 3] == u[3] && s[i + 4] == u[4];
    assert s[i + 4..i + 14] == u[4..];
    SkipOne(s, i);
    SkipOne(s, i + 3);
  }

  /** " - (Required)" or " \- (Required)" after a name is the tag all three
      patterns end with. */
  lemma RequiredTagMatches(s: string, i: nat, escaped: bool)
    requires StartsAt(s, i, RequiredSuffix(escaped))
    ensures RequiredTagEnd(s, i) == Some(i + |RequiredSuffix(escaped)|)
  {
    if escaped { EscapedTag(s, i); } else { PlainTag(s, i); }
  }

  lemma SkipOne(s: string, i: nat)
    requires i + 1 < |s| && IsSpace(s[i]) && !IsSpace(s[i + 1])
    ensures SkipSpace(s, i) == i + 1
  {}

  /** A word at `i` followed by a character that is not a word character. */
  lemma WordBefore(s: string, i: nat, name: string)
    requires IsWord(name) && StartsAt(s, i, name)
    requires i + |name| < |s| && !IsWordChar(s[i + |name|])
    ensures WordEnd(s, i) == i + |name|
  {
    forall k | i <= k < i + |name| ensures IsWordChar(s[k]) {
      assert s[k] == s[i..i + |name|][k - i];
      assert name[k - i] in name;
    }
    WordEndRun(s, i, i + |name|);
  }

  /** The first character of the required tag. */
  lemma TagStartsWithSpace(s: string, i: nat, escaped: bool)
    requires StartsAt(s, i, RequiredSuffix(escaped))
    ensures i < |s| && s[i] == ' '
  {
    assert s[i] == s[i..i + |RequiredSuffix(escaped)|][0];
  }

  /** "- " at the start of a line, followed by a non-space, opens an item. */
  lemma DashOpening(s: string, p: nat)
    requires LineStart(s, p) && StartsAt(s, p, "- ") && p + 2 < |s| && !IsSpace(s[p + 2])
    ensures DashAt(s, p) == Some(p + 2)
  {
    assert s[p] == s[p..p + 2][0] == '-';
    assert s[p + 1] == s[p..p + 2][1] == ' ';
    SkipOne(s, p + 1);
  }

  /** A name ending at a non-name character, then the required tag. */
  lemma TaggedName(s: string, from: nat, name: string, next: nat, escaped: bool)
    requires IsWord(name) && StartsAt(s, from, name) && from + |name| <= next
    requires from + |name| < |s| && !IsWordChar(s[from + |name|])
    requires StartsAt(s, next, RequiredSuffix(escaped))
    ensures WordEnd(s, from) == from + |name|
    ensures Tagged(s, from, from + |name|, next) == Some(Item(name, next + |RequiredSuffix(escaped)|))
  {
    WordBefore(s, from, name);
    RequiredTagMatches(s, next, escaped);
  }

  /** The list item "- name - (Required)" (plain or escaped dash) at the
      start of a line is matched by the bare form. */
  lemma BareItem(s: string, p: nat, name: string, escaped: bool)
    requires IsWord(name) && LineStart(s, p)
    requires StartsAt(s, p, "- ") && StartsAt(s, p + 2, name)
    requires StartsAt(s, p + 2 + |name|, RequiredSuffix(escaped))
    ensures BareAt(s, p) == Some(Item(name, p + 2 + |name| + |RequiredSuffix(escaped)|))
  {
    var n1 := p + 2 + |name|;
    WordStart(s, p + 2, name);
    DashOpening(s, p);
    TagStartsWithSpace(s, n1, escaped);
    TaggedName(s, p + 2, name, n1, escaped);
    BareAtOf(s, p, p + 2);
  }

  /** The first character of a word. */
  lemma WordStart(s: string, i: nat, name: string)
    requires IsWord(name) && StartsAt(s, i, name)
    ensures i < |s| && IsWordChar(s[i]) && !IsSpace(s[i])
  {
    assert s[i] == s[i..i + |name|][0] == name[0];
    assert name[0] in name;
  }

  /** After the dash, the bare form takes the run of name characters. */
  lemma BareAtOf(s: string, p: nat, b: nat)
    requires p <= |s| && DashAt(s, p) == Some(b) && b < WordEnd(s, b)
    ensures BareAt(s, p) == Tagged(s, b, WordEnd(s, b), WordEnd(s, b))
  {
  }

  /** The list item "- `name` - (Required)" (plain or escaped dash) at the
      start of a line is matched by the backticked form. */
  lemma TickedItem(s: string, p: nat, name: string, escaped: bool)
    requires IsWord(name) && LineStart(s, p)
    requires StartsAt(s, p, "- ") && CharAt(s, p + 2, '`') && StartsAt(s, p + 3, name)
    requires CharAt(s, p + 3 + |name|, '`') && StartsAt(s, p + 4 + |name|, RequiredSuffix(escaped))
    ensures TickedAt(s, p) == Some(Item(name, p + 4 + |name| + |RequiredSuffix(escaped)|))
  {
    var n1 := p + 3 + |name|;
    var tag := RequiredSuffix(escaped);
    assert DashAt(s, p) == Some(p + 2) by {
      DashOpening(s, p);
    }
    assert WordEnd(s, p + 3) == n1 && Tagged(s, p + 3, n1, n1 + 1) == Some(Item(name, n1 + 1 + |tag|)) by {
      TaggedName(s, p + 3, name, n1 + 1, escaped);
    }
    TickedAtOf(s, p, p + 2, n1);
  }

  /** After the dash, the backticked form takes the run of name characters
      after the backtick and requires a second backtick. */
  lemma TickedAtOf(s: string, p: nat, b: nat, n1: nat)
    requires p <= |s| && DashAt(s, p) == Some(b) && CharAt(s, b, '`')
    requires b + 1 < n1 == WordEnd(s, b + 1) && CharAt(s, n1, '`')
    ensures TickedAt(s, p) == Tagged(s, b + 1, n1, n1 + 1)
  {
  }

  /** A run of word characters ended by a non-word character is what `WordEnd` finds. */
  lemma {:induction false} WordEndRun(s: string, i: nat, j: nat)
    requires i <= j < |s| && !IsWordChar(s[j])
    requires forall k :: i <= k < j ==> IsWordChar(s[k])
    ensures WordEnd(s, i) == j
    decreases j - i
  {
    if i < j {
      WordEndRun(s, i + 1, j);
    }
  }
}
