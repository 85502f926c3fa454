/** The validation cascade run over generated HCL: a required-field scan and
    the combination of the syntax, required-field and Terraform CLI layers
    into one report. The HCL parser and the `terraform` CLI are not part of
    this model; their verdicts arrive as `LayerOutcome` values. */
module Validation {
  import opened Text

  /** Regex `\b` at index `i` of `s`. */
  predicate WordBoundary(s: string, i: nat)
    requires i <= |s|
  {
    (i > 0 && IsWordChar(s[i - 1])) != (i < |s| && IsWordChar(s[i]))
  }

  /** The pattern `\b<field>\s*=` matches at index `i`: a greedy `\s*` can only
      be followed by `=` if the first non-space character is `=`. */
  predicate AssignsAt(content: string, field: string, i: nat) {
    && StartsAt(content, i, field)
    && WordBoundary(content, i)
    && var j := SkipSpace(content, i + |field|);
       j < |content| && content[j] == '='
  }

  /** `re.search(rf'\b{re.escape(field)}\s*=', content)` succeeds. */
  predicate FieldAssigned(content: string, field: string) {
    exists i | 0 <= i <= |content| :: AssignsAt(content, field, i)
  }

  /** The required fields with no assignment in `content`, in their own order. */
  function MissingFields(content: string, fields: seq<string>): (m: seq<string>)
    ensures forall f :: f in m <==> f in fields && !FieldAssigned(content, f)
    ensures IsSubsequence(m, fields)
  {
    if fields == [] then []
    else
      var init := fields[..|fields| - 1];
      var last := fields[|fields| - 1];
      var m0 := MissingFields(content, init);
      assert fields == init + [last];
      SubsequenceExtend(m0, init, last);
      if FieldAssigned(content, last) then m0
      else
        SubsequenceAppendBoth(m0, init, last);
        m0 + [last]
  }

  /** A missing field is listed as often as it is required; an assigned one never. */
  lemma {:induction false} MissingFieldsCount(content: string, fields: seq<string>)
    ensures forall f :: multiset(MissingFields(content, fields))[f]
                        == if FieldAssigned(content, f) then 0 else multiset(fields)[f]
  {
    if fields != [] {
      var init := fields[..|fields| - 1];
      var last := fields[|fields| - 1];
      assert fields == init + [last];
      MissingFieldsCount(content, init);
    }
  }

  /** One more required field adds itself to the missing ones exactly when it is unassigned. */
  lemma MissingStep(content: string, fields: seq<string>, i: nat)
    requires i < |fields|
    ensures MissingFields(content, fields[..i + 1])
            == MissingFields(content, fields[..i]) + if FieldAssigned(content, fields[i]) then [] else [fields[i]]
  {
    assert fields[..i + 1][..i] == fields[..i];
  }

  /** validate_required_fields */
  method ValidateRequiredFields(content: string, requiredFields: seq<string>)
    returns (allPresent: bool, missing: seq<string>)
    ensures missing == MissingFields(content, requiredFields)
    ensures allPresent <==> missing == []
    ensures allPresent <==> forall f :: f in requiredFields ==> FieldAssigned(content, f)
  {
    missing := [];
    var i := 0;
    while i < |requiredFields|
      invariant 0 <= i <= |requiredFields|
      invariant missing == MissingFields(content, requiredFields[..i])
    {
      var field := requiredFields[i];
      MissingStep(content, requiredFields, i);
      if !FieldAssigned(content, field) {
        missing := missing + [field];
      }
      i := i + 1;
    }
    assert requiredFields[..i] == requiredFields;
    allPresent := |missing| == 0;
    if !allPresent {
      assert missing[0] in missing;
    }
  }

  /** What a layer validator did: returned `(valid, message)` or raised. */
  datatype LayerOutcome = Returned(valid: bool, message: string) | Raised(error: string)

  /** One `{'valid': ..., 'message': ...}` entry of the report. */
  datatype LayerCheck = LayerCheck(valid: bool, message: string)

  /** The dictionary comprehensive_terraform_validation returns. */
  datatype Report =
    | Disabled(message: string)
    | Full(overallValid: bool, syntaxCheck: LayerCheck, terraformCli: LayerCheck,
           requiredValid: bool, missing: seq<string>, suggestions: seq<string>)

  const FixSyntax := "Fix HCL syntax errors"
  const ReviewCli := "Review Terraform validation errors"
  const SkippedCli := "Skipped due to syntax errors"

  /** `syntax_valid` after the syntax layer: false when the parser raised. */
  predicate SyntaxPassed(syntax: LayerOutcome) {
    syntax.Returned? && syntax.valid
  }

  /** The CLI layer lets the artifact through: it passed, or it returned a
      failure whose message says the tool is not available. */
  predicate CliAccepted(cli: LayerOutcome) {
    cli.Returned? && (cli.valid || Contains(cli.message, "not available"))
  }

  /** The CLI layer earns the "Review Terraform validation errors" suggestion. */
  predicate CliFlagged(cli: LayerOutcome) {
    match cli
    case Returned(v, m) => !v && !Contains(m, "not available")
    case Raised(e) => !Contains("CLI validation error: " + e, "not available")
  }

  /** The suggestion list of the report, in the order the checks add them. */
  function Suggestions(syntaxOk: bool, missing: seq<string>, cliFlagged: bool): seq<string> {
    (if syntaxOk then [] else [FixSyntax])
    + (if missing == [] then [] else ["Add missing required fields: " + Join(missing, ", ")])
    + (if cliFlagged then [ReviewCli] else [])
  }

  /** Each suggestion appears exactly when its layer asks for it, and a
      syntax failure is always the first thing to fix. */
  lemma SuggestionsMention(syntaxOk: bool, missing: seq<string>, cliFlagged: bool)
    ensures var s := Suggestions(syntaxOk, missing, cliFlagged);
      && (FixSyntax in s <==> !syntaxOk)
      && (ReviewCli in s <==> cliFlagged)
      && (!syntaxOk ==> s[0] == FixSyntax)
  {
    var addMissing := "Add missing required fields: " + Join(missing, ", ");
    assert addMissing[0] == 'A';
    assert FixSyntax[0] == 'F' && ReviewCli[0] == 'R';
  }

  /** comprehensive_terraform_validation. The CLI outcome is only consulted when
      the syntax layer passed: with a failed syntax layer nothing in the result
      depends on `cli`. */
  method ComprehensiveValidation(enabled: bool, content: string, requiredFields: seq<string>,
                                 syntax: LayerOutcome, cli: LayerOutcome)
    returns (r: Report)
    ensures !enabled ==> r == Disabled("Validation disabled")
    ensures enabled ==> r.Full?
    ensures r.Full? ==> (r.overallValid <==>
      SyntaxPassed(syntax) && MissingFields(content, requiredFields) == [] && CliAccepted(cli))
    ensures r.Full? ==> r.missing == MissingFields(content, requiredFields)
                        && (r.requiredValid <==> r.missing == [])
    ensures r.Full? ==> r.syntaxCheck == match syntax
                                         case Returned(v, m) => LayerCheck(v, m)
                                         case Raised(e) => LayerCheck(false, "Syntax validation error: " + e)
    ensures r.Full? && !SyntaxPassed(syntax) ==>
      && r.terraformCli == LayerCheck(true, SkippedCli)
      && r.suggestions != [] && r.suggestions[0] == FixSyntax
      && ReviewCli !in r.suggestions
    ensures r.Full? && SyntaxPassed(syntax) ==>
      && r.terraformCli == (match cli
                            case Returned(v, m) => LayerCheck(v, m)
                            case Raised(e) => LayerCheck(false, "CLI validation error: " + e))
      && FixSyntax !in r.suggestions
      && (ReviewCli in r.suggestions <==> CliFlagged(cli))
    ensures r.Full? ==>
      r.suggestions == Suggestions(SyntaxPassed(syntax), r.missing, SyntaxPassed(syntax) && CliFlagged(cli))
  {
    if !enabled {
      return Disabled("Validation disabled");
    }
    var overall := true;
    var syntaxValid := true;
    var cliValid := true;
    var cliMsg := "";

    // 1. syntax layer
    var syntaxCheck: LayerCheck;
    match syntax {
      case Returned(v, m) =>
        syntaxValid := v;
        syntaxCheck := LayerCheck(v, m);
        if !v { overall := false; }
      case Raised(e) =>
        syntaxValid := false;
        syntaxCheck := LayerCheck(false, "Syntax validation error: " + e);
        overall := false;
    }

    assert syntaxValid == SyntaxPassed(syntax) && overall == syntaxValid;

    // 2. required fields layer
    var fieldsValid, missing := ValidateRequiredFields(content, requiredFields);
    if !fieldsValid { overall := false; }
    assert overall == (syntaxValid && fieldsValid);

    // 3. CLI layer, only after a valid syntax check
    var cliCheck: LayerCheck;
    if syntaxValid {
      match cli {
        case Returned(v, m) =>
          cliValid, cliMsg := v, m;
          cliCheck := LayerCheck(v, m);
          if !v && !Contains(m, "not available") { overall := false; }
        case Raised(e) =>
          cliValid := false;
          cliMsg := "CLI validation error: " + e;
          cliCheck := LayerCheck(false, cliMsg);
          overall := false;
      }
    } else {
      cliCheck := LayerCheck(true, SkippedCli);
    }
    assert overall == (syntaxValid && fieldsValid && CliAccepted(cli));

    // 4. suggestions
    var flagged := !cliValid && !Contains(cliMsg, "not available");
    assert flagged <==> syntaxValid && CliFlagged(cli);
    var suggestions: seq<string> := [];
    if !syntaxValid {
      suggestions := suggestions + [FixSyntax];
    }
    ghost var first := suggestions;
    assert first == if syntaxValid then [] else [FixSyntax];
    if missing != [] {
      suggestions := suggestions + ["Add missing required fields: " + Join(missing, ", ")];
    }
    ghost var second := suggestions;
    assert second == first + (if missing == [] then [] else ["Add missing required fields: " + Join(missing, ", ")]);
    if flagged {
      suggestions := suggestions + [ReviewCli];
    }
    assert suggestions == second + (if flagged then [ReviewCli] else []);
    SuggestionsMention(syntaxValid, missing, flagged);
    r := Full(overall, syntaxCheck, cliCheck, fieldsValid, missing, suggestions);
  }
}
