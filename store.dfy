/** The shapes of what the vector store and the JSON decoder hand back, as far
    as the agent looks at them. */
module Store {
  import opened Text

  /** One stored chunk as `collection.query` returns it. A field the row does
      not carry is the empty string: the agent only tests these fields for
      truthiness, where missing and empty behave alike. */
  datatype Row = Row(resource: string, text: string, requiredFields: string)

  /** The outcome of one `collection.query` call: the rows, or the exception it raised. */
  datatype QueryReply = Rows(rows: seq<Row>) | QueryFailed

  /** A decoded JSON value, split only as finely as the agent inspects it. */
  datatype Json = JList(items: seq<Json>) | JStr(s: string) | JOther

  /** One field of every row, in row order. */
  function Column(rows: seq<Row>, field: Row -> string): (r: seq<string>)
    ensures |r| == |rows| && forall i :: 0 <= i < |rows| ==> r[i] == field(rows[i])
  {
    seq(|rows|, i requires 0 <= i < |rows| => field(rows[i]))
  }

  /** `[r[field] for r in rows if r.get(field)]`: the non-empty values of one
      field, in row order, duplicates kept. */
  function Truthy(rows: seq<Row>, field: Row -> string): (r: seq<string>)
    ensures IsSubsequence(r, Column(rows, field))
    ensures forall n :: n in r <==> n != "" && exists row :: row in rows && field(row) == n
  {
    if rows == [] then []
    else
      var init := rows[..|rows| - 1];
      var last := rows[|rows| - 1];
      var rest := Truthy(init, field);
      assert Column(rows, field) == Column(init, field) + [field(last)];
      assert forall row :: row in rows <==> row in init || row == last;
      if field(last) != "" then
        SubsequenceAppendBoth(rest, Column(init, field), field(last));
        rest + [field(last)]
      else
        SubsequenceExtend(rest, Column(init, field), field(last));
        rest
  }

  /** Each non-empty value is kept as often as it occurs in the column; the empty one never. */
  lemma {:induction false} TruthyCount(rows: seq<Row>, field: Row -> string)
    ensures forall n :: multiset(Truthy(rows, field))[n]
                        == if n != "" then multiset(Column(rows, field))[n] else 0
  {
    if rows != [] {
      var init := rows[..|rows| - 1];
      assert Column(rows, field) == Column(init, field) + [field(rows[|rows| - 1])];
      TruthyCount(init, field);
    }
  }
}
