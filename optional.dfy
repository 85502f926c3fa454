/** extract_optional_fields_from_docs: the language model's list when it gives
    one, otherwise a scan of the documentation for names tagged "(Optional)". */
module OptionalFields {
  import opened Text
  import opened Sorting
  import opened Store

  /** "(Optional)", matched case-insensitively, at position `t`. */
  predicate TagAt(s: string, t: nat) {
    t + 10 <= |s| && Lower(s[t..t + 10]) == "(optional)"
  }

  /** The first newline at or after `q`, or the end of the text. */
  function LineStop(s: string, q: nat): (n: nat)
    requires q <= |s|
    ensures q <= n <= |s| && (n == |s| || s[n] == '\n')
    ensures forall k :: q <= k < n ==> s[k] != '\n'
    decreases |s| - q
  {
    if q == |s| || s[q] == '\n' then q else LineStop(s, q + 1)
  }

  /** The furthest start of the tag after a name ending at `q`: the pattern's
      `[`]?.{0,40}` reaches 40 characters on, 41 after a closing backtick, and
      never across a newline. */
  function Reach(s: string, q: nat): (h: nat)
    requires q <= |s|
    ensures q <= h <= q + 41
  {
    var limit := q + 40 + (if q < |s| && s[q] == '`' then 1 else 0);
    var stop := LineStop(s, q);
    if stop < limit then stop else limit
  }

  /** The last tag start in `[q, t]`: the greedy `.{0,40}` takes as many
      characters as still lets the tag match. */
  function LastTag(s: string, q: nat, t: nat): (r: Option<nat>)
    requires q <= t
    ensures r.Some? ==>
              q <= r.value <= t && TagAt(s, r.value)
              && forall u :: r.value < u <= t ==> !TagAt(s, u)
    ensures r.None? ==> forall u :: q <= u <= t ==> !TagAt(s, u)
    decreases t - q
  {
    if TagAt(s, t) then Some(t)
    else if t == q then None
    else LastTag(s, q, t - 1)
  }

  /** One match of the fallback pattern: the captured name, where it starts,
      and where the whole match ends. */
  datatype Mention = Mention(name: string, start: nat, end: nat)

  /** The match of `([`]?([a-zA-Z0-9_]+)[`]?.{0,40})\((Optional)\)` starting at `p`,
      if there is one. Backtracking into the name cannot help: a shorter name
      leaves name characters, never '(', in front of the tag, so the name is
      always the whole run. */
  function MentionAt(s: string, p: nat): (r: Option<Mention>)
    requires p <= |s|
    ensures r.Some? ==> p + 10 < r.value.end <= |s| && IsWord(r.value.name)
    ensures r.Some? ==>
              var m := r.value;
              p <= m.start <= p + 1 && StartsAt(s, m.start, m.name)
              && m.start + |m.name| <= m.end - 10 <= m.start + |m.name| + 41
              && TagAt(s, m.end - 10)
              && forall k :: m.start + |m.name| <= k < m.end - 10 ==> s[k] != '\n'
  {
    var a := if p < |s| && s[p] == '`' then p + 1 else p;
    var q := WordEnd(s, a);
    if q == a then None
    else match LastTag(s, q, Reach(s, q)) {
      case None => None
      case Some(t) =>
        assert StartsAt(s, a, s[a..q]);
        WordEndSpans(s, a);
        Some(Mention(s[a..q], a, t + 10))
    }
  }

  /** `re.finditer` over the whole text from position `p`: after a match the
      search resumes at its end, otherwise one character further on. */
  function Mentions(s: string, p: nat): (names: seq<string>)
    requires p <= |s|
    ensures forall n :: n in names ==> IsWord(n)
    decreases |s| - p
  {
    if p == |s| then []
    else match MentionAt(s, p) {
      case Some(m) => [m.name] + Mentions(s, m.end)
      case None => Mentions(s, p + 1)
    }
  }

  /** The strings of the model's list that are not required. */
  function StringsNotIn(items: seq<Json>, required: seq<string>): (r: seq<string>)
    ensures forall x :: x in r <==> JStr(x) in items && x !in required
  {
    if items == [] then []
    else
      var rest := StringsNotIn(items[1..], required);
      assert forall j :: j in items <==> j == items[0] || j in items[1..];
      if items[0].JStr? && items[0].s !in required then [items[0].s] + rest else rest
  }

  /** extract_optional_fields_from_docs. `llmResult` is what the JSON request to
      the language model produced (`JOther` when it produced nothing usable).
      The result is sorted, free of duplicates and never lists a required field. */
  method ExtractOptionalFields(docsText: string, required: seq<string>, llmResult: Json)
    returns (r: seq<string>)
    ensures StrictlySorted(r)
    ensures forall x :: x in r ==> x !in required
    ensures llmResult.JList? ==>
              forall x :: x in r <==> JStr(x) in llmResult.items && x !in required
    ensures !llmResult.JList? ==>
              forall x :: x in r <==> x in Mentions(docsText, 0) && x !in required
    ensures !llmResult.JList? ==> forall x :: x in r ==> IsWord(x)
  {
    if llmResult.JList? {
      return SortedSet(StringsNotIn(llmResult.items, required));
    }
    var names := Mentions(docsText, 0);
    var optional: seq<string> := [];
    for i := 0 to |names|
      invariant forall x :: x in optional <==> x in names[..i] && x !in required
    {
      var name := names[i];
      assert name in names;
      assert names[..i + 1] == names[..i] + [name];
      if name != "" && name !in required {
        optional := optional + [name];
      }
    }
    assert names[..|names|] == names;
    r := SortedSet(optional);
  }
}
