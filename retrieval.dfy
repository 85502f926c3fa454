/** search_docs: all stored chunks of one resource, fetched in batches, and the
    required-field list stored beside them. */
module Retrieval {
  import opened Text
  import opened Store

  const BatchSize: nat := 1000
  /** The hard stop of the batching loop: no batch is requested at this offset or beyond. */
  const OffsetCap: nat := 16000

  /** The filter expression search_docs sends for one resource. */
  function ResourceFilter(name: string): (expr: string)
    ensures StartsWith(expr, "resource == \"") && EndsWith(expr, "\"")
    ensures |expr| == |name| + 14 && expr[13..13 + |name|] == name
  {
    "resource == \"" + name + "\""
  }

  /** `collection.query(expr, limit=1000, offset=offset)`, as a function of the
      filter and the offset. */
  type Query = (string, nat) -> QueryReply

  /** The offset of the k-th batch. */
  function Offset(k: nat): nat {
    k * BatchSize
  }

  /** The rows the batching loop gathers from `offset` on: it stops on a failed
      query, an empty or short batch, or when the next offset would reach the cap. */
  function Fetched(query: Query, expr: string, offset: nat): seq<Row>
    decreases OffsetCap - offset
  {
    match query(expr, offset) {
      case QueryFailed => []
      case Rows(rows) =>
        if rows == [] || |rows| < BatchSize || offset + BatchSize >= OffsetCap then rows
        else rows + Fetched(query, expr, offset + BatchSize)
    }
  }

  /** Only the first sixteen batches are ever requested: two stores that agree
      on them yield the same rows. */
  lemma {:induction false} FetchedReadsSixteenBatches(q1: Query, q2: Query, expr: string, k: nat)
    requires k < 16
    requires forall m :: k <= m < 16 ==> q1(expr, Offset(m)) == q2(expr, Offset(m))
    ensures Fetched(q1, expr, Offset(k)) == Fetched(q2, expr, Offset(k))
    decreases 16 - k
  {
    assert Offset(k) + BatchSize == Offset(k + 1);
    if k + 1 < 16 {
      FetchedReadsSixteenBatches(q1, q2, expr, k + 1);
    }
  }

  /** Every gathered row was returned by one of the sixteen batch queries. */
  lemma {:induction false} FetchedRowsFromBatches(query: Query, expr: string, k: nat, row: Row)
    requires k < 16 && row in Fetched(query, expr, Offset(k))
    ensures exists m :: k <= m < 16 && query(expr, Offset(m)).Rows? && row in query(expr, Offset(m)).rows
    decreases 16 - k
  {
    assert Offset(k) + BatchSize == Offset(k + 1);
    var reply := query(expr, Offset(k));
    if row !in reply.rows {
      FetchedRowsFromBatches(query, expr, k + 1, row);
    }
  }

  /** A row whose `required_fields` is non-empty and decodes to a JSON list. */
  predicate ListRow(row: Row, parse: string -> Option<Json>) {
    row.requiredFields != "" && parse(row.requiredFields).Some? && parse(row.requiredFields).value.JList?
  }

  /** The string elements of a JSON list, in order. */
  function StringItems(items: seq<Json>): (r: seq<string>)
    ensures |r| <= |items|
    ensures forall x :: x in r <==> JStr(x) in items
  {
    if items == [] then []
    else
      var rest := StringItems(items[1..]);
      assert forall j :: j in items <==> j == items[0] || j in items[1..];
      if items[0].JStr? then [items[0].s] + rest else rest
  }

  /** The required-field list of search_docs: that of the first row carrying a
      decodable list, and empty when no row does. */
  function RequiredOf(rows: seq<Row>, parse: string -> Option<Json>): (r: seq<string>)
    ensures (forall k :: 0 <= k < |rows| ==> !ListRow(rows[k], parse)) ==> r == []
    ensures forall x :: x in r ==>
              exists k :: 0 <= k < |rows| && ListRow(rows[k], parse)
                          && JStr(x) in parse(rows[k].requiredFields).value.items
  {
    match FirstWhere(rows, (row: Row) => ListRow(row, parse)) {
      case None => []
      case Some(i) => StringItems(parse(rows[i].requiredFields).value.items)
    }
  }

  /** The batching loop of search_docs. */
  method FetchAll(query: Query, expr: string) returns (allResults: seq<Row>)
    ensures allResults == Fetched(query, expr, 0)
  {
    var offset: nat := 0;
    allResults := [];
    while true
      invariant offset < OffsetCap
      invariant allResults + Fetched(query, expr, offset) == Fetched(query, expr, 0)
      decreases OffsetCap - offset
    {
      var reply := query(expr, offset);
      if reply.QueryFailed? {
        assert allResults + [] == allResults;
        break;
      }
      var results := reply.rows;
      if results == [] {
        assert allResults + [] == allResults;
        break;
      }
      allResults := allResults + results;
      if |results| < BatchSize {
        break;
      }
      offset := offset + BatchSize;
      if offset >= OffsetCap {
        break;
      }
    }
  }

  /** The loop of search_docs that looks for the stored required-field list. */
  method FindRequired(allResults: seq<Row>, parse: string -> Option<Json>) returns (required: seq<string>)
    ensures required == RequiredOf(allResults, parse)
  {
    required := [];
    var i := 0;
    while i < |allResults|
      invariant 0 <= i <= |allResults|
      invariant forall k :: 0 <= k < i ==> !ListRow(allResults[k], parse)
    {
      var rf := allResults[i].requiredFields;
      if rf != "" {
        var parsed := parse(rf);
        if parsed.Some? && parsed.value.JList? {
          required := StringItems(parsed.value.items);
          break;
        }
      }
      i := i + 1;
    }
  }

  /** search_docs. `query` stands for the vector store and `parse` for `json.loads`
      (`None` when it raises). Chunks are the non-empty texts of the gathered rows
      in order; the required fields come from the first row holding a list. */
  method SearchDocs(resourceName: string, query: Query, parse: string -> Option<Json>)
    returns (chunks: seq<string>, required: seq<string>)
    ensures chunks == Truthy(Fetched(query, ResourceFilter(resourceName), 0), (row: Row) => row.text)
    ensures required == RequiredOf(Fetched(query, ResourceFilter(resourceName), 0), parse)
  {
    var expr := ResourceFilter(resourceName);
    var allResults := FetchAll(query, expr);
    chunks := Truthy(allResults, (row: Row) => row.text);
    required := FindRequired(allResults, parse);
  }
}
