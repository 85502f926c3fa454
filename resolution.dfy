/** Mapping a user's request onto one of the indexed resource names:
    list_available_resources, best_fuzzy_match and normalize_resource_query. */
module Resolution {
  import opened Text
  import opened Sorting
  import opened Store

  /** list_available_resources: the distinct non-empty resource names, sorted;
      a failed query yields the empty list. */
  function ListAvailableResources(reply: QueryReply): (r: seq<string>)
    ensures reply.QueryFailed? ==> r == []
    ensures StrictlySorted(r) && "" !in r
    ensures reply.Rows? ==>
              forall n :: n in r <==> n != "" && exists row :: row in reply.rows && row.resource == n
  {
    match reply
    case QueryFailed => []
    case Rows(rows) => SortedSet(Truthy(rows, (row: Row) => row.resource))
  }

  /** `difflib.get_close_matches(word, possibilities, n=1, cutoff=0.6)`, reduced
      to its best match if there is one. */
  type CloseMatch = (string, seq<string>) -> Option<string>

  /** What difflib guarantees: a match is one of the possibilities it was given. */
  ghost predicate CloseMatchSound(closeMatch: CloseMatch) {
    forall w, xs :: closeMatch(w, xs).Some? ==> closeMatch(w, xs).value in xs
  }

  /** The direct token test of best_fuzzy_match: the lowered query and the
      lowered candidate, one inside the other. */
  predicate TokenMatch(q: string, c: string) {
    Contains(Lower(c), q) || Contains(q, Lower(c))
  }

  /** The index of the first candidate passing the token test. */
  function FirstTokenMatch(q: string, cs: seq<string>): (r: Option<nat>)
    ensures r.Some? ==>
              r.value < |cs| && TokenMatch(q, cs[r.value])
              && forall k :: 0 <= k < r.value ==> !TokenMatch(q, cs[k])
    ensures r.None? ==> forall k :: 0 <= k < |cs| ==> !TokenMatch(q, cs[k])
  {
    FirstWhere(cs, c => TokenMatch(q, c))
  }

  function Lowered(cs: seq<string>): (r: seq<string>)
    ensures |r| == |cs| && forall i :: 0 <= i < |cs| ==> r[i] == Lower(cs[i])
  {
    seq(|cs|, i requires 0 <= i < |cs| => Lower(cs[i]))
  }

  /** `list.index`: the first position holding `x`. */
  function IndexOf(xs: seq<string>, x: string): (i: nat)
    requires x in xs
    ensures i < |xs| && xs[i] == x && forall k :: 0 <= k < i ==> xs[k] != x
  {
    if xs[0] == x then 0 else 1 + IndexOf(xs[1..], x)
  }

  /** The two difflib fallbacks of best_fuzzy_match: first against the lowered
      candidates (mapped back to the first candidate with that lowering), then,
      unless the query already carries it, with the "cloudstack_" prefix
      against the candidates as given. */
  function DifflibStage(q: string, candidates: seq<string>, closeMatch: CloseMatch): (r: Option<string>)
    requires CloseMatchSound(closeMatch)
    ensures r.Some? ==> r.value in candidates
    ensures closeMatch(q, Lowered(candidates)).Some? ==>
              r.Some? && Lower(r.value) == closeMatch(q, Lowered(candidates)).value
  {
    var lowered := Lowered(candidates);
    match closeMatch(q, lowered) {
      case Some(m) => Some(candidates[IndexOf(lowered, m)])
      case None =>
        if !StartsWith(q, "cloudstack_") then closeMatch("cloudstack_" + q, candidates) else None
    }
  }

  /** best_fuzzy_match: the first candidate passing the token test wins; only
      when none does is difflib consulted. The result is always a candidate. */
  method BestFuzzyMatch(query: string, candidates: seq<string>, closeMatch: CloseMatch)
    returns (r: Option<string>)
    requires CloseMatchSound(closeMatch)
    ensures candidates == [] ==> r.None?
    ensures r.Some? ==> r.value in candidates
    ensures FirstTokenMatch(Lower(query), candidates).Some? ==>
              r == Some(candidates[FirstTokenMatch(Lower(query), candidates).value])
    ensures candidates != [] && FirstTokenMatch(Lower(query), candidates).None? ==>
              r == DifflibStage(Lower(query), candidates, closeMatch)
  {
    if candidates == [] {
      return None;
    }
    var lowered := Lowered(candidates);
    var q := Lower(query);
    for i := 0 to |candidates|
      invariant forall k :: 0 <= k < i ==> !TokenMatch(q, candidates[k])
    {
      if Contains(lowered[i], q) || Contains(q, lowered[i]) {
        return Some(candidates[i]);
      }
    }
    var matches := closeMatch(q, lowered);
    if matches.Some? {
      var idx := IndexOf(lowered, matches.value);
      return Some(candidates[idx]);
    }
    if !StartsWith(q, "cloudstack_") {
      matches := closeMatch("cloudstack_" + q, candidates);
      if matches.Some? {
        return matches;
      }
    }
    return None;
  }

  /** A query naming a candidate exactly (up to ASCII case) is settled by the
      token test, never by difflib, though possibly by an earlier candidate. */
  lemma ExactNameSettledByTokens(query: string, candidates: seq<string>, j: nat)
    requires j < |candidates| && Lower(query) == Lower(candidates[j])
    ensures FirstTokenMatch(Lower(query), candidates).Some?
    ensures FirstTokenMatch(Lower(query), candidates).value <= j
  {
    assert StartsAt(Lower(candidates[j]), 0, Lower(query));
    assert TokenMatch(Lower(query), candidates[j]);
  }

  /** The earlier candidate can be a different resource: with the names sorted,
      a request for "cloudstack_network_acl" goes to "cloudstack_network",
      whose name it contains. */
  lemma LongerNameShadowed()
    ensures FirstTokenMatch("cloudstack_network_acl", ["cloudstack_network", "cloudstack_network_acl"])
            == Some(0)
  {
    var q := "cloudstack_network_acl";
    assert Lower(q) == q;
    assert Lower("cloudstack_network") == "cloudstack_network";
    assert StartsAt(q, 0, "cloudstack_network");
  }

  /** normalize_resource_query. `reply` is the answer to the listing query and
      `llmAnswer` the language model's reply text (`None` when the call raised).
      The result is always one of the listed resources. */
  method NormalizeResourceQuery(userInput: string, reply: QueryReply, llmAnswer: Option<string>,
                                closeMatch: CloseMatch)
    returns (r: Option<string>)
    requires CloseMatchSound(closeMatch)
    ensures ListAvailableResources(reply) == [] ==> r.None?
    ensures r.Some? ==> r.value in ListAvailableResources(reply) && r.value != ""
    ensures (ListAvailableResources(reply) != [] && llmAnswer.Some?
             && Strip(llmAnswer.value) in ListAvailableResources(reply)) ==>
              r == Some(Strip(llmAnswer.value))
    ensures (llmAnswer.None? || Strip(llmAnswer.value) !in ListAvailableResources(reply))
            && FirstTokenMatch(Lower(userInput), ListAvailableResources(reply)).Some? ==>
              r == Some(ListAvailableResources(reply)[FirstTokenMatch(Lower(userInput), ListAvailableResources(reply)).value])
    ensures ListAvailableResources(reply) != []
            && (llmAnswer.None? || Strip(llmAnswer.value) !in ListAvailableResources(reply))
            && FirstTokenMatch(Lower(userInput), ListAvailableResources(reply)).None? ==>
              r == DifflibStage(Lower(userInput), ListAvailableResources(reply), closeMatch)
  {
    var known := ListAvailableResources(reply);
    if known == [] {
      return None;
    }
    if llmAnswer.Some? {
      var name := Strip(llmAnswer.value);
      if name in known {
        return Some(name);
      }
    }
    var fm := BestFuzzyMatch(userInput, known, closeMatch);
    if fm.Some? && fm.value != "" {
      return fm;
    }
    return None;
  }
}
