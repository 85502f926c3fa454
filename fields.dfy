/** Field collection: the heuristic validator of one field value and the
    console loop that asks for each field until a value is accepted.
    The LLM's answers (field details and the valid/invalid verdict) and the
    console lines are inputs of the model. */
module FieldCollection {
  import opened Text

  /** The `options` entry of the details dictionary, by Python truthiness:
      absent, None or an empty list is `NoOptions`; `Listed` holds the `str()`
      of each element of a non-empty list; `NotAList` is any other truthy value. */
  datatype OptionsHint = NoOptions | Listed(items: seq<string>) | NotAList

  /** The dictionary suggest_field_details returns; `default` already holds
      `str(default)`. */
  datatype FieldDetails = FieldDetails(typ: Option<string>, example: Option<string>,
                                       default: Option<string>, options: OptionsHint)

  /** Why a value was rejected (the source prints these as text). */
  datatype Reason = NoReason | EmptyValue | Rejected(verdict: string)
                  | NotInOptions | NotAnInteger | NotABoolean

  predicate IsDigit(c: char) { '0' <= c <= '9' }

  /** `re.fullmatch(r"^-?\d+$", value)` */
  predicate IsIntegerText(value: string) {
    var digits := if |value| > 0 && value[0] == '-' then value[1..] else value;
    |digits| > 0 && forall i :: 0 <= i < |digits| ==> IsDigit(digits[i])
  }

  predicate IsBooleanText(value: string) {
    Lower(value) in ["true", "false", "1", "0", "yes", "no"]
  }

  /** A truthy `type` entry. */
  predicate HasType(d: FieldDetails) {
    d.typ.Some? && d.typ.value != ""
  }

  /** The heuristics of validate_field_value, used when the verdict does not decide. */
  function Heuristics(value: string, d: FieldDetails): (r: (bool, Reason))
    ensures d.options.Listed? && d.options.items != [] ==>
              r == (if value in d.options.items then (true, NoReason) else (false, NotInOptions))
    ensures d.options.NotAList? ==> r == (false, NotInOptions)
    ensures (d.options.NoOptions? || d.options == Listed([])) && HasType(d) ==>
              var t := Lower(d.typ.value);
              if Contains(t, "int") || Contains(t, "number") then r.0 == IsIntegerText(value)
              else if Contains(t, "bool") then r.0 == IsBooleanText(value)
              else r == (true, NoReason)
    ensures (d.options.NoOptions? || d.options == Listed([])) && !HasType(d) ==> r == (true, NoReason)
  {
    if d.options.NotAList? || (d.options.Listed? && d.options.items != []) then
      if d.options.Listed? && value in d.options.items then (true, NoReason) else (false, NotInOptions)
    else if HasType(d) then
      var t := Lower(d.typ.value);
      if Contains(t, "int") || Contains(t, "number") then
        if IsIntegerText(value) then (true, NoReason) else (false, NotAnInteger)
      else if Contains(t, "bool") then
        if IsBooleanText(value) then (true, NoReason) else (false, NotABoolean)
      else (true, NoReason)
    else (true, NoReason)
  }

  /** validate_field_value. `verdict` is what the LLM answered for this value
      (the literal "invalid" when the call failed). */
  function ValidateFieldValue(value: string, verdict: string, d: FieldDetails): (r: (bool, Reason))
    ensures IsBlank(value) ==> r == (false, EmptyValue)
    ensures r.0 ==> !IsBlank(value)
    ensures (!IsBlank(value) && Contains(Lower(verdict), "valid")
             && !Contains(Lower(verdict), "invalid")) ==> r == (true, NoReason)
    ensures !IsBlank(value) && !Contains(Lower(verdict), "valid") ==> r == Heuristics(value, d)
  {
    if Strip(value) == "" then (false, EmptyValue)
    else
      var text := Lower(verdict);
      InvalidContainsValid(text);
      if Contains(text, "valid") && !Contains(text, "invalid") then (true, NoReason)
      else if Contains(text, "invalid") && !Contains(text, "valid") then (false, Rejected(Strip(text)))
      else Heuristics(value, d)
  }

  /** Every text containing "invalid" also contains "valid". */
  lemma InvalidContainsValid(t: string)
    ensures Contains(t, "invalid") ==> Contains(t, "valid")
  {
    if Contains(t, "invalid") {
      var i :| 0 <= i <= |t| && StartsAt(t, i, "invalid");
      assert t[i + 2..i + 7] == t[i..i + 7][2..];
      assert StartsAt(t, i + 2, "valid");
    }
  }

  /** The branch that rejects on an "invalid" verdict can never be taken: a
      verdict containing "invalid" never decides, the heuristics do. */
  lemma InvalidVerdictNeverDecides(value: string, verdict: string, d: FieldDetails)
    requires !IsBlank(value)
    requires Contains(Lower(verdict), "invalid")
    ensures ValidateFieldValue(value, verdict, d) == Heuristics(value, d)
    ensures !ValidateFieldValue(value, verdict, d).1.Rejected?
  {
    InvalidContainsValid(Lower(verdict));
  }

  /** validate_field_value accepts `value` for `field` with details `d`. */
  predicate Passes(field: string, value: string, d: FieldDetails, verdictOf: (string, string) -> string) {
    ValidateFieldValue(value, verdictOf(field, value), d).0
  }

  /** The value is accepted by validate_field_value. */
  predicate Accepted(field: string, value: string,
                     detailsOf: string -> FieldDetails, verdictOf: (string, string) -> string)
  {
    Passes(field, value, detailsOf(field), verdictOf)
  }

  /** What one pass of the inner `while True` of prompt_for_fields does with the
      remaining console lines: record a value, skip the field, ask again, or hit
      the end of input (where `input()` raises EOFError). `used` counts the lines read. */
  datatype Attempt = Record(value: string, used: nat) | Skip(used: nat) | Again(used: nat) | EndOfInput

  /** The answer to "Type 'retry' to try again, or Enter to skip". */
  predicate IsRetry(answer: string) {
    Lower(Strip(answer)) == "retry"
  }

  function TryOnce(field: string, d: FieldDetails, verdictOf: (string, string) -> string,
                   required: bool, lines: seq<string>): (a: Attempt)
    ensures lines == [] ==> a.EndOfInput?
    ensures a.EndOfInput? ==> lines == [] || (!required && |lines| == 1)
    ensures !a.EndOfInput? ==> 1 <= a.used <= |lines|
    ensures a.Record? ==>
              !IsBlank(a.value) && ValidateFieldValue(a.value, verdictOf(field, a.value), d).0
    // empty input and a default: the default is what gets validated and recorded
    ensures lines != [] && Strip(lines[0]) == "" && d.default.Some? && a.Record? ==>
              a.value == d.default.value
    // optional mode: an empty answer (and no usable default) skips without validation
    ensures (lines != [] && !required && Strip(lines[0]) == ""
             && (d.default.None? || d.default.value == "")) ==> a == Skip(1)
    // required mode never skips a field
    ensures required ==> !a.Skip?
    // optional mode, rejected value: anything but "retry" on the next line skips
    ensures lines != [] && !required && a.Again? ==> a.used == 2 && IsRetry(lines[1])
  {
    if lines == [] then EndOfInput
    else
      var value := Entered(lines[0], d);
      if value == "" && !required then Skip(1)
      else if ValidateFieldValue(value, verdictOf(field, value), d).0 then Record(value, 1)
      else if required then Again(1)
      else AfterRejection(lines[1..])
  }

  /** How one pass of the prompt loop depends on the first line: the entered
      value is recorded when it passes validation (unless an optional field was
      left empty); a rejected value costs one line in required mode and is
      followed by the retry question in optional mode. */
  lemma TryOnceEntered(field: string, d: FieldDetails, verdictOf: (string, string) -> string,
                       required: bool, lines: seq<string>)
    requires lines != []
    ensures var a := TryOnce(field, d, verdictOf, required, lines);
            var v := Entered(lines[0], d);
            && (a.Record? ==> a == Record(v, 1))
            && ((required || v != "") && Passes(field, v, d, verdictOf) ==> a == Record(v, 1))
            && (required && !Passes(field, v, d, verdictOf) ==> a == Again(1))
            && (2 <= |lines| && !required && v != "" && !Passes(field, v, d, verdictOf)
                ==> a == (if IsRetry(lines[1]) then Again(2) else Skip(2)))
  {
  }

  /** `input(...).strip()`, replaced by `str(default)` when empty and a default exists. */
  function Entered(line: string, d: FieldDetails): string {
    var typed := Strip(line);
    if typed == "" && d.default.Some? then d.default.value else typed
  }

  /** The optional-field prompt after a rejection: "retry" asks again, anything else skips. */
  function AfterRejection(rest: seq<string>): (a: Attempt)
    ensures a.EndOfInput? <==> rest == []
    ensures a.Again? ==> a.used == 2 && IsRetry(rest[0])
    ensures a.Skip? ==> a.used == 2
    ensures !a.Record?
  {
    if rest == [] then EndOfInput
    else if !IsRetry(rest[0]) then Skip(2)
    else Again(2)
  }

  /** The dictionary prompt_for_fields builds: its keys in insertion order and
      the key-to-value map. `used` is the number of console lines read.
      `InputExhausted` is `input()` raising EOFError: there is no other way out
      of the loop for a required field. */
  datatype Prompted = Prompted(keys: seq<string>, values: map<string, string>, used: nat)
                    | InputExhausted

  /** No key occurs twice: none equals a key before it. */
  predicate Distinct(xs: seq<string>) {
    forall i :: 0 <= i < |xs| ==> xs[i] !in xs[..i]
  }

  /** The outcome of asking for one field: the accepted value, if any, the
      index of the first unread line, and whether the input ran out. */
  datatype Asked = Asked(answer: Option<string>, next: nat, exhausted: bool)

  /** One unfolding of AskSpec at a line that exists, given the outcome `a`
      of the pass that reads it. */
  lemma AskUnfold(f: string, required: bool, d: FieldDetails, verdictOf: (string, string) -> string,
                  lines: seq<string>, pos: nat, a: Attempt)
    requires pos <= |lines| && a == TryOnce(f, d, verdictOf, required, lines[pos..])
    ensures a.EndOfInput? ==> AskSpec(f, required, d, verdictOf, lines, pos) == Asked(None, |lines|, true)
    ensures a.Record? ==> AskSpec(f, required, d, verdictOf, lines, pos) == Asked(Some(a.value), pos + a.used, false)
    ensures a.Skip? ==> AskSpec(f, required, d, verdictOf, lines, pos) == Asked(None, pos + a.used, false)
    ensures a.Again? ==> pos + a.used <= |lines| &&
                         AskSpec(f, required, d, verdictOf, lines, pos) == AskSpec(f, required, d, verdictOf, lines, pos + a.used)
  {
  }

  /** The inner `while True` of prompt_for_fields for one field, as a function
      of the console lines from `pos`: the accepted value, if any, the index of
      the first unread line, and whether the input ran out (which happens only
      once every line has been read). */
  function AskSpec(f: string, required: bool, d: FieldDetails, verdictOf: (string, string) -> string,
                   lines: seq<string>, pos: nat): (r: Asked)
    requires pos <= |lines|
    ensures pos <= r.next <= |lines|
    ensures r.exhausted ==> r.answer.None? && r.next == |lines|
    decreases |lines| - pos
  {
    if pos == |lines| then Asked(None, |lines|, true)
    else
      match TryOnce(f, d, verdictOf, required, lines[pos..])
      case EndOfInput => Asked(None, |lines|, true)
      case Record(v, n) => Asked(Some(v), pos + n, false)
      case Skip(n) => Asked(None, pos + n, false)
      case Again(n) => AskSpec(f, required, d, verdictOf, lines, pos + n)
  }

  /** Only an accepted, non-blank value is ever the answer, and in required
      mode the field is answered unless the input runs out. */
  lemma {:induction false} AskSpecSound(f: string, required: bool, d: FieldDetails,
                                        verdictOf: (string, string) -> string, lines: seq<string>, pos: nat)
    requires pos <= |lines|
    ensures var r := AskSpec(f, required, d, verdictOf, lines, pos);
            && (r.answer.Some? ==> !IsBlank(r.answer.value) && Passes(f, r.answer.value, d, verdictOf))
            && (required && !r.exhausted ==> r.answer.Some?)
    decreases |lines| - pos
  {
    if pos < |lines| {
      var a := TryOnce(f, d, verdictOf, required, lines[pos..]);
      AskUnfold(f, required, d, verdictOf, lines, pos, a);
      if a.Again? {
        AskSpecSound(f, required, d, verdictOf, lines, pos + a.used);
      }
    }
  }

  /** The first line settles the field when its entered value passes (unless
      an optional field is left empty, which skips it after one line). */
  lemma AskSpecFirstLine(f: string, required: bool, d: FieldDetails,
                         verdictOf: (string, string) -> string, lines: seq<string>, pos: nat)
    requires pos < |lines|
    ensures var r := AskSpec(f, required, d, verdictOf, lines, pos);
            var v := Entered(lines[pos], d);
            && ((required || v != "") && Passes(f, v, d, verdictOf) ==> r == Asked(Some(v), pos + 1, false))
            && (!required && v == "" ==> r == Asked(None, pos + 1, false))
  {
    AskUnfold(f, required, d, verdictOf, lines, pos, TryOnce(f, d, verdictOf, required, lines[pos..]));
    TryOnceEntered(f, d, verdictOf, required, lines[pos..]);
  }

  /** The inner `while True` of prompt_for_fields for one field with the
      details `d` suggested for it, reading from `lines[start..]`: it asks
      until a value is accepted, the field is skipped (optional mode only) or
      the input runs out. Returns the accepted value, if any, and the index of
      the first unread line. */
  method AskField(f: string, required: bool, d: FieldDetails,
                  verdictOf: (string, string) -> string, lines: seq<string>, start: nat)
    returns (answer: Option<string>, next: nat, exhausted: bool)
    requires start <= |lines|
    ensures Asked(answer, next, exhausted) == AskSpec(f, required, d, verdictOf, lines, start)
    ensures start <= next <= |lines|
    ensures answer.Some? ==> !exhausted && !IsBlank(answer.value) && Passes(f, answer.value, d, verdictOf)
    ensures required && !exhausted ==> answer.Some?
  {
    ghost var spec := AskSpec(f, required, d, verdictOf, lines, start);
    AskSpecSound(f, required, d, verdictOf, lines, start);
    var pos := start;
    var a := TryOnce(f, d, verdictOf, required, lines[pos..]);
    while a.Again?
      invariant start <= pos <= |lines|
      invariant a == TryOnce(f, d, verdictOf, required, lines[pos..])
      invariant AskSpec(f, required, d, verdictOf, lines, pos) == spec
      decreases |lines| - pos
    {
      AskUnfold(f, required, d, verdictOf, lines, pos, a);
      pos := pos + a.used;
      a := TryOnce(f, d, verdictOf, required, lines[pos..]);
    }
    var r := if a.EndOfInput? then Asked(None, |lines|, true)
             else if a.Record? then Asked(Some(a.value), pos + a.used, false)
             else Asked(None, pos + a.used, false);
    assert r == spec by {
      AskUnfold(f, required, d, verdictOf, lines, pos, a);
    }
    answer, next, exhausted := r.answer, r.next, r.exhausted;
  }

  /** Every value in the map is non-blank and accepted for its key. */
  ghost predicate AllAccepted(values: map<string, string>,
                              detailsOf: string -> FieldDetails, verdictOf: (string, string) -> string)
  {
    forall k :: k in values ==> !IsBlank(values[k]) && Accepted(k, values[k], detailsOf, verdictOf)
  }

  /** What prompt_for_fields has built after visiting the fields `done`: each
      recorded key once, in the order first recorded, each with an accepted
      non-blank value, and in required mode every visited field recorded. */
  ghost predicate Collected(keys: seq<string>, values: map<string, string>, done: seq<string>, required: bool,
                            detailsOf: string -> FieldDetails, verdictOf: (string, string) -> string)
  {
    && (forall k :: k in keys <==> k in values)
    && Distinct(keys) && IsSubsequence(keys, done)
    && AllAccepted(values, detailsOf, verdictOf)
    && (required ==> forall g :: g in done ==> g in values)
  }

  /** Recording an accepted value for the next field `f` of the loop keeps the
      loop's invariant: the key is appended when new and keeps its place when
      seen before, and every stored value stays accepted. */
  lemma RecordStep(keys: seq<string>, values: map<string, string>, done: seq<string>, required: bool,
                   detailsOf: string -> FieldDetails, verdictOf: (string, string) -> string,
                   f: string, v: string)
    requires Collected(keys, values, done, required, detailsOf, verdictOf)
    requires !IsBlank(v) && Accepted(f, v, detailsOf, verdictOf)
    ensures Collected(if f in values then keys else keys + [f], values[f := v], done + [f],
                      required, detailsOf, verdictOf)
  {
    AcceptedUpdate(values, f, v, detailsOf, verdictOf);
    if f in values {
      SubsequenceExtend(keys, done, f);
      assert Collected(keys, values[f := v], done + [f], required, detailsOf, verdictOf);
    } else {
      SubsequenceAppendBoth(keys, done, f);
      DistinctAppend(keys, f);
      assert Collected(keys + [f], values[f := v], done + [f], required, detailsOf, verdictOf);
    }
  }

  /** Appending a key not yet present keeps the keys distinct. */
  lemma DistinctAppend(keys: seq<string>, f: string)
    requires Distinct(keys) && f !in keys
    ensures Distinct(keys + [f])
  {
    var keys' := keys + [f];
    forall i | 0 <= i < |keys'| ensures keys'[i] !in keys'[..i] {
      assert keys'[..i] == if i < |keys| then keys[..i] else keys;
    }
  }

  /** Storing an accepted value keeps every stored value accepted. */
  lemma AcceptedUpdate(values: map<string, string>, f: string, v: string,
                       detailsOf: string -> FieldDetails, verdictOf: (string, string) -> string)
    requires AllAccepted(values, detailsOf, verdictOf)
    requires !IsBlank(v) && Accepted(f, v, detailsOf, verdictOf)
    ensures AllAccepted(values[f := v], detailsOf, verdictOf)
  {
    var values' := values[f := v];
    forall k | k in values'
      ensures !IsBlank(values'[k]) && Accepted(k, values'[k], detailsOf, verdictOf)
    {
      if k != f {
        assert values'[k] == values[k];
      }
    }
  }

  /** Skipping an optional field keeps the invariant. */
  lemma SkipStep(keys: seq<string>, values: map<string, string>, done: seq<string>,
                 detailsOf: string -> FieldDetails, verdictOf: (string, string) -> string, f: string)
    requires Collected(keys, values, done, false, detailsOf, verdictOf)
    ensures Collected(keys, values, done + [f], false, detailsOf, verdictOf)
  {
    SubsequenceExtend(keys, done, f);
  }

  /** The outer loop of prompt_for_fields from field `i` on, as a function of
      the console lines, the next unread line `pos` and the dictionary so far. */
  function PromptFrom(fields: seq<string>, required: bool, detailsOf: string -> FieldDetails,
                      verdictOf: (string, string) -> string, lines: seq<string>,
                      i: nat, pos: nat, keys: seq<string>, values: map<string, string>): Prompted
    requires i <= |fields| && pos <= |lines|
    decreases |fields| - i
  {
    if i == |fields| then Prompted(keys, values, pos)
    else
      var f := fields[i];
      var Asked(answer, next, exhausted) := AskSpec(f, required, detailsOf(f), verdictOf, lines, pos);
      if exhausted then InputExhausted
      else if answer.Some? then
        PromptFrom(fields, required, detailsOf, verdictOf, lines, i + 1, next,
                   if f in values then keys else keys + [f], values[f := answer.value])
      else PromptFrom(fields, required, detailsOf, verdictOf, lines, i + 1, next, keys, values)
  }

  /** prompt_for_fields as a function of the console lines. */
  function PromptSpec(fields: seq<string>, required: bool, detailsOf: string -> FieldDetails,
                      verdictOf: (string, string) -> string, lines: seq<string>): Prompted
  {
    PromptFrom(fields, required, detailsOf, verdictOf, lines, 0, 0, [], map[])
  }

  /** prompt_for_fields: fields are visited in list order, each until a value is
      accepted (or, for optional fields, skipped); only accepted values are
      recorded, so every recorded value is non-blank. */
  method PromptForFields(fields: seq<string>, required: bool, detailsOf: string -> FieldDetails,
                         verdictOf: (string, string) -> string, lines: seq<string>)
    returns (r: Prompted)
    ensures r == PromptSpec(fields, required, detailsOf, verdictOf, lines)
    ensures r.Prompted? ==> r.used <= |lines|
    ensures r.Prompted? ==> (forall k :: k in r.keys <==> k in r.values) && Distinct(r.keys)
    ensures r.Prompted? ==> IsSubsequence(r.keys, fields)
    ensures r.Prompted? ==> forall k :: k in r.values ==>
              !IsBlank(r.values[k]) && Accepted(k, r.values[k], detailsOf, verdictOf)
    ensures r.Prompted? && required ==> forall f :: f in fields ==> f in r.values
  {
    ghost var spec := PromptSpec(fields, required, detailsOf, verdictOf, lines);
    PromptSpecCollected(fields, required, detailsOf, verdictOf, lines);
    var keys: seq<string> := [];
    var values: map<string, string> := map[];
    var pos := 0;
    var i := 0;
    while i < |fields|
      invariant 0 <= i <= |fields| && pos <= |lines|
      invariant PromptFrom(fields, required, detailsOf, verdictOf, lines, i, pos, keys, values) == spec
    {
      var f := fields[i];
      var answer, next, exhausted := AskField(f, required, detailsOf(f), verdictOf, lines, pos);
      if exhausted {
        return InputExhausted;
      }
      pos := next;
      if answer.Some? {
        keys := if f in values then keys else keys + [f];
        values := values[f := answer.value];
      }
      i := i + 1;
    }
    r := Prompted(keys, values, pos);
  }

  /** What PromptSpec collects: each recorded key once, in field order, with
      an accepted non-blank value; every field in required mode; and no more
      lines than were given. */
  lemma PromptSpecCollected(fields: seq<string>, required: bool, detailsOf: string -> FieldDetails,
                            verdictOf: (string, string) -> string, lines: seq<string>)
    ensures var r := PromptSpec(fields, required, detailsOf, verdictOf, lines);
            r.Prompted? ==> r.used <= |lines| && Collected(r.keys, r.values, fields, required, detailsOf, verdictOf)
  {
    assert fields[..0] == [];
    PromptFromCollected(fields, required, detailsOf, verdictOf, lines, 0, 0, [], map[]);
  }

  lemma {:induction false} PromptFromCollected(fields: seq<string>, required: bool, detailsOf: string -> FieldDetails,
                                               verdictOf: (string, string) -> string, lines: seq<string>,
                                               i: nat, pos: nat, keys: seq<string>, values: map<string, string>)
    requires i <= |fields| && pos <= |lines|
    requires Collected(keys, values, fields[..i], required, detailsOf, verdictOf)
    ensures var r := PromptFrom(fields, required, detailsOf, verdictOf, lines, i, pos, keys, values);
            r.Prompted? ==> r.used <= |lines| && Collected(r.keys, r.values, fields, required, detailsOf, verdictOf)
    decreases |fields| - i
  {
    if i == |fields| {
      assert fields[..i] == fields;
    } else {
      var f := fields[i];
      var d := detailsOf(f);
      var s := AskSpec(f, required, d, verdictOf, lines, pos);
      assert fields[..i + 1] == fields[..i] + [f];
      if !s.exhausted {
        if s.answer.Some? {
          assert !IsBlank(s.answer.value) && Accepted(f, s.answer.value, detailsOf, verdictOf) by {
            AskSpecSound(f, required, d, verdictOf, lines, pos);
          }
          RecordStep(keys, values, fields[..i], required, detailsOf, verdictOf, f, s.answer.value);
          PromptFromCollected(fields, required, detailsOf, verdictOf, lines, i + 1, s.next,
                              if f in values then keys else keys + [f], values[f := s.answer.value]);
        } else {
          assert !required by {
            AskSpecSound(f, required, d, verdictOf, lines, pos);
          }
          SkipStep(keys, values, fields[..i], detailsOf, verdictOf, f);
          PromptFromCollected(fields, required, detailsOf, verdictOf, lines, i + 1, s.next, keys, values);
        }
      }
    }
  }

  /** A console script answering each of distinct fields with one line whose
      entered value passes validation yields exactly those answers, keyed in
      field order, after reading one line per field. */
  lemma OneLineEach(fields: seq<string>, required: bool, detailsOf: string -> FieldDetails,
                    verdictOf: (string, string) -> string, lines: seq<string>)
    requires Distinct(fields) && |lines| == |fields|
    requires forall j :: 0 <= j < |fields| ==>
               Passes(fields[j], Entered(lines[j], detailsOf(fields[j])), detailsOf(fields[j]), verdictOf)
    ensures var r := PromptSpec(fields, required, detailsOf, verdictOf, lines);
            && r.Prompted? && r.keys == fields && r.used == |fields|
            && (forall k :: k in r.values <==> k in fields)
            && forall j :: 0 <= j < |fields| ==> r.values[fields[j]] == Entered(lines[j], detailsOf(fields[j]))
  {
    assert fields[..0] == [];
    OneLineEachFrom(fields, required, detailsOf, verdictOf, lines, 0, map[]);
  }

  lemma {:induction false} OneLineEachFrom(fields: seq<string>, required: bool, detailsOf: string -> FieldDetails,
                                           verdictOf: (string, string) -> string, lines: seq<string>,
                                           i: nat, values: map<string, string>)
    requires Distinct(fields) && |lines| == |fields| && i <= |fields|
    requires forall j :: 0 <= j < |fields| ==>
               Passes(fields[j], Entered(lines[j], detailsOf(fields[j])), detailsOf(fields[j]), verdictOf)
    requires forall k :: k in values <==> k in fields[..i]
    requires forall j :: 0 <= j < i ==> fields[j] in values && values[fields[j]] == Entered(lines[j], detailsOf(fields[j]))
    ensures var r := PromptFrom(fields, required, detailsOf, verdictOf, lines, i, i, fields[..i], values);
            && r.Prompted? && r.keys == fields && r.used == |fields|
            && (forall k :: k in r.values <==> k in fields)
            && forall j :: 0 <= j < |fields| ==> r.values[fields[j]] == Entered(lines[j], detailsOf(fields[j]))
    decreases |fields| - i
  {
    if i == |fields| {
      assert fields[..i] == fields;
    } else {
      var f := fields[i];
      var d := detailsOf(f);
      var v := Entered(lines[i], d);
      assert AskSpec(f, required, d, verdictOf, lines, i) == Asked(Some(v), i + 1, false) by {
        assert Passes(f, v, d, verdictOf);
        assert !IsBlank(v);
        assert v != "";
        AskSpecFirstLine(f, required, d, verdictOf, lines, i);
      }
      assert f !in values by {
        assert f !in fields[..i];
      }
      var values' := values[f := v];
      assert fields[..i + 1] == fields[..i] + [f];
      forall j | 0 <= j < i + 1
        ensures fields[j] in values' && values'[fields[j]] == Entered(lines[j], detailsOf(fields[j]))
      {
        if j < i {
          assert fields[j] in fields[..i];
        }
      }
      OneLineEachFrom(fields, required, detailsOf, verdictOf, lines, i + 1, values');
    }
  }

  /** Optional mode: a script of empty answers, one per field, with no usable
      default, skips every field and records nothing. */
  lemma AllSkipped(fields: seq<string>, detailsOf: string -> FieldDetails,
                   verdictOf: (string, string) -> string, lines: seq<string>)
    requires |lines| == |fields|
    requires forall j :: 0 <= j < |fields| ==> Entered(lines[j], detailsOf(fields[j])) == ""
    ensures PromptSpec(fields, false, detailsOf, verdictOf, lines) == Prompted([], map[], |fields|)
  {
    AllSkippedFrom(fields, detailsOf, verdictOf, lines, 0);
  }

  lemma {:induction false} AllSkippedFrom(fields: seq<string>, detailsOf: string -> FieldDetails,
                                          verdictOf: (string, string) -> string, lines: seq<string>, i: nat)
    requires |lines| == |fields| && i <= |fields|
    requires forall j :: 0 <= j < |fields| ==> Entered(lines[j], detailsOf(fields[j])) == ""
    ensures PromptFrom(fields, false, detailsOf, verdictOf, lines, i, i, [], map[]) == Prompted([], map[], |fields|)
    decreases |fields| - i
  {
    if i < |fields| {
      AskSpecFirstLine(fields[i], false, detailsOf(fields[i]), verdictOf, lines, i);
      assert AskSpec(fields[i], false, detailsOf(fields[i]), verdictOf, lines, i) == Asked(None, i + 1, false);
      AllSkippedFrom(fields, detailsOf, verdictOf, lines, i + 1);
    }
  }
}
