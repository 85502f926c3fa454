# CloudStack Terraform generator: the deterministic core, in Dafny

The system is a retrieval-augmented assistant. It writes Terraform HCL for CloudStack resources in three steps:

1. An ingestion script (`Clean.py`, `milvus_ingest.py`) cleans scraped provider documentation.
2. It cuts each page into chunks and records each resource's required arguments in a vector store.
3. An interactive agent (`milvus_rag_groq.py`) maps a user's request to a resource name and fetches that resource's chunks. It then asks the user for field values, has a language model write the HCL, cleans up that answer, validates it and saves it.

This project models the parts of that pipeline that are plain text processing and control flow:

- **Clean.py, `clean_markdown`** (module `Clean`). The chain of seven regular-expression substitutions and the final strip.
  - Each `re.sub` is a left-to-right scanner (`Sub`) over a per-pattern matcher (`MatchAt`).
  - Lemmas state what each substitution does to the text.
- **milvus_ingest.py.** The ingestion helpers:
  - `split_text` (module `Chunking`). A loop, proved against a declarative description of the greedy packing. That packing is shown to be unique.
  - `extract_resource_name`, `slice_argument_reference_section` and `extract_required_fields` (module `Ingest`). Their regular expressions are written as deterministic scanners. Each scanner is only used where backtracking cannot change the outcome.
- **milvus_rag_groq.py.**
  - `validate_required_fields` and `comprehensive_terraform_validation` (module `Validation`).
  - `validate_field_value` and `prompt_for_fields` (module `FieldCollection`).
  - `list_available_resources`, `best_fuzzy_match` and `normalize_resource_query` (module `Resolution`).
  - `search_docs` (modules `Retrieval` and `Store`).
  - `extract_optional_fields_from_docs` (module `OptionalFields`).
  - `clean_terraform_output` (module `Postprocess`). The two loops are methods, proved against a function of the answer.
  - The file name built by `save_generated` (module `Naming`).
- **Shared Python primitives.** `str.strip`, `str.split`, `str.splitlines`, `str.lower`, `in` on strings, and `sorted(set(...))` live in the modules `Text` and `Sorting`.

Everything the agent does not decide for itself is a parameter of the model:

- the language model's answers;
- the vector store's replies;
- `json.loads`;
- `difflib.get_close_matches`;
- the HCL parser and the Terraform CLI;
- the console.

A parameter stands for one fixed reply per input. Wherever a result depends on one of these, the contract says how.

Three facts about the source come out of the proofs:

- In `validate_field_value`, the branch that rejects a value on an "invalid" verdict can never run. Every text containing "invalid" also contains "valid", so such a verdict always falls through to the heuristics (`FieldCollection.InvalidVerdictNeverDecides`).
- In `clean_terraform_output`, the early stop at a root-level `}` can never fire once the `resource` line itself holds a brace. The collected block then runs to the last line of the answer (`Postprocess.BlockRunsToEnd`).
- In `best_fuzzy_match`, the substring test can settle a query on an earlier, shorter resource name. An example is `cloudstack_network` for `cloudstack_network_acl` (`Resolution.LongerNameShadowed`).

## Model

| member | source | states |
|---|---|---|
| Clean.JunkMatch | Clean.py:11-13 | a `\n?word\n?` match takes at least the word and is replaced by nothing |
| Clean.PolicyEnd | Clean.py:16 | the lazy cookie-section match ends after at least a policy name and its period |
| Clean.LinkMatch | Clean.py:19 | a link match yields a non-empty text that is shorter than what it consumes |
| Clean.MatchAt | Clean.py:11-25 | every match of every pattern consumes at least one character and puts back fewer than it takes |
| Clean.Sub | Clean.py:11-25 | `re.sub` never makes the text longer |
| Clean.KeepPrefix | Clean.py:11-25 | a prefix where the pattern never starts a match is copied unchanged in front of the substituted rest |
| Clean.NoMatchUnchanged | Clean.py:11-25 | text where the pattern matches nowhere comes back unchanged |
| Clean.CookieBannerRemoved | Clean.py:16 | a banner from "We use cookies and other similar technology" through its first "Privacy Policy." is deleted; text before it without a `W` is kept |
| Clean.BannerEnd | Clean.py:16 | the lazy `.*?` stops at the first closing sentence, right after the banner's "Privacy Policy." |
| Clean.JunkDeleted | Clean.py:11-13 | a footer word ("Copy", "Dismiss", "Manage Preferences") between two newlines is deleted together with both newlines, and the text before it is kept |
| Clean.LinkReplaced | Clean.py:19 | a Markdown link `[text](target)` is replaced by its text, and the text before it is kept |
| Clean.UnderscoresRestored | Clean.py:22 | unescaping `\_` inverts Markdown underscore escaping for any text without backslashes |
| Clean.LeadCollapsed | Clean.py:25 | a run of three or more newlines becomes exactly two, and a shorter run is kept |
| Clean.BlankLinesCollapsed | Clean.py:25 | after collapsing, no three newlines are adjacent |
| Clean.StripKeepsAbsent | Clean.py:27 | stripping cannot create a substring, so no triple newline appears |
| Clean.CleanMarkdown | Clean.py:9-27 | the cleaned page is stripped and holds no three consecutive newlines |
| Text.Strip | Clean.py:27 | `str.strip()` leaves no whitespace at either end, and is empty exactly for blank text |
| Text.StripInfix | Clean.py:27 | the stripped text is the infix left between two runs of whitespace |
| Text.SplitLines | milvus_ingest.py:114 | `splitlines()` pieces hold no line break, and only the empty text gives no pieces |
| Text.Split | milvus_rag_groq.py:721 | `split('\n')` gives at least one piece, and no piece holds the separator |
| Text.SplitJoin | milvus_ingest.py:117 | splitting newline-joined lines that hold no newline gives the lines back |
| Chunking.SplitText | milvus_ingest.py:112-123 | the chunks, split at newlines and concatenated, are the lines of the text; they form a greedy packing; there are no chunks exactly when the text is empty |
| Chunking.StartGroup | milvus_ingest.py:116-119 | a line that would push a non-empty chunk past the limit closes it and opens the next chunk |
| Chunking.AddLine | milvus_ingest.py:119-120 | a line that fits, or meets an empty chunk, joins the current chunk |
| Chunking.Finish | milvus_ingest.py:121-123 | closing the last open chunk leaves a packing of all the lines |
| Chunking.PackedMeans | milvus_ingest.py:116 | in a packing no chunk is empty, a chunk of several lines stays within the limit, and each chunk was closed because the next line overflowed it |
| Chunking.PackingUnique | milvus_ingest.py:112-123 | two packings of the same lines with the same limit are equal |
| Chunking.SplitTextDetermined | milvus_ingest.py:112-123 | SplitText's contract determines its result completely |
| Chunking.ChunksFromLines | milvus_ingest.py:117 | each chunk is its own lines joined back with newlines |
| Chunking.SplitJoinAll | milvus_ingest.py:117 | splitting newline-joined groups gives the groups back |
| Ingest.DocNameFrom | milvus_ingest.py:64 | `re.search` finds the leftmost position where `resources_<name>.md` ends the file name |
| Ingest.ExtractResourceName | milvus_ingest.py:58-65 | a found name is "cloudstack_" followed by a dot-free name, and the file name ends in "resources_<name>.md" (or that with a final newline) |
| Ingest.DocFileName | milvus_ingest.py:64-65 | a file name ending in "resources_<name>.md", with no earlier "resources_", gives "cloudstack_<name>" |
| Ingest.HeadingEnd | milvus_ingest.py:75-76 | a heading match starts a line with "##" and ends at a line end |
| Ingest.HeadingFrom | milvus_ingest.py:75-77 | the first heading match, or none anywhere |
| Ingest.PlainHeading | milvus_ingest.py:75 | a line "## Argument Reference" is recognised |
| Ingest.HeadingWords | milvus_ingest.py:75-76 | the heading words match whatever their case |
| Ingest.NextHeadingFrom | milvus_ingest.py:81 | the first `^\s*##\s+` match after the heading, or none |
| Ingest.SectionBody | milvus_ingest.py:80-82 | the section is cut just before the first following "##" heading, or runs to the end |
| Ingest.SliceArgumentReferenceSection | milvus_ingest.py:67-82 | with no heading the whole text is returned; otherwise the text after the heading, cut at the next heading |
| Ingest.RequiredTagEnd | milvus_ingest.py:95 | the dash pattern matches a plain or escaped dash and ends with "(Required)" |
| Ingest.LinkedAt | milvus_ingest.py:99 | a linked item captures a word and the match ends inside the text |
| Ingest.TickedAt | milvus_ingest.py:101 | a backticked item captures a word |
| Ingest.BareAt | milvus_ingest.py:103 | a bare item captures a word |
| Ingest.BareItem | milvus_ingest.py:103 | the line "- name - (Required)", with a plain or escaped dash, is matched with that name |
| Ingest.TickedItem | milvus_ingest.py:101 | the line "- \`name\` - (Required)", with a plain or escaped dash, is matched with that name |
| Ingest.RequiredTagMatches | milvus_ingest.py:95 | " - (Required)" and " \\- (Required)" are both accepted as the tag |
| Ingest.FindItems | milvus_ingest.py:106-108 | `re.finditer` of one pattern yields only words |
| Ingest.AddMatches | milvus_ingest.py:106-108 | adding the matches to the set keeps what was there and adds exactly the matches |
| Ingest.FoundByAll | milvus_ingest.py:97-108 | the names the three patterns find are exactly the listed names |
| Ingest.SortedElements | milvus_ingest.py:110 | `sorted()` of a set lists exactly its elements, strictly increasing |
| Ingest.ExtractRequiredFields | milvus_ingest.py:84-110 | the result is strictly sorted, holds exactly the names one of the three item forms finds in the sliced section, and every name is a word |
| Sorting.StrLessTransitive | milvus_ingest.py:110 | Python's string order is transitive |
| Sorting.StrLessTotal | milvus_ingest.py:110 | any two different strings are ordered |
| Sorting.SortedSet | milvus_rag_groq.py:355 | `sorted(set(xs))` is strictly increasing and holds exactly the elements of `xs` |
| Sorting.StrictlySortedUnique | milvus_rag_groq.py:355 | only one strictly increasing sequence holds a given set, so the sorted order is determined |
| Validation.MissingFields | milvus_rag_groq.py:176-182 | a field is missing exactly when it is required and no `\bfield\s*=` occurs; the required order is kept |
| Validation.MissingFieldsCount | milvus_rag_groq.py:176-182 | a missing field is listed as often as it is required, an assigned one never |
| Validation.ValidateRequiredFields | milvus_rag_groq.py:171-184 | returns the missing fields, and all-present exactly when every required field is assigned |
| Validation.SuggestionsMention | milvus_rag_groq.py:244-254 | each suggestion appears exactly when its check asks for it, and a syntax failure comes first |
| Validation.ComprehensiveValidation | milvus_rag_groq.py:186-256 | disabled validation reports success. Otherwise it is valid exactly when syntax passed, nothing is missing and the CLI passed or was not available. The CLI is skipped after a syntax failure. Each layer's entry and the suggestions are as the source builds them |
| FieldCollection.Heuristics | milvus_rag_groq.py:581-603 | options decide first. Otherwise an int/number type needs `-?\d+` and a bool type needs one of the six boolean words. Anything else is accepted |
| FieldCollection.ValidateFieldValue | milvus_rag_groq.py:554-603 | a blank value is rejected as empty. An accepted value is never blank. A verdict with "valid" and not "invalid" accepts, and one without "valid" falls to the heuristics |
| FieldCollection.InvalidContainsValid | milvus_rag_groq.py:576-579 | every text containing "invalid" contains "valid" |
| FieldCollection.InvalidVerdictNeverDecides | milvus_rag_groq.py:576-579 | an "invalid" verdict never rejects by itself; the heuristics decide |
| FieldCollection.TryOnce | milvus_rag_groq.py:631-652 | one pass of the prompt loop. It records only validated non-blank values, uses the default on empty input, and skips an empty optional field. It never skips in required mode. In optional mode it asks again only after "retry" |
| FieldCollection.TryOnceEntered | milvus_rag_groq.py:633-652 | what is recorded is the value entered on the first line. An entered value that passes is recorded after one line, unless an optional field was left empty. In required mode a rejected value costs one line and the field is asked again. In optional mode a rejected value is followed by the retry question: "retry" asks again and anything else skips |
| FieldCollection.AfterRejection | milvus_rag_groq.py:649-652 | after a rejected optional value, "retry" asks again and anything else skips |
| FieldCollection.AskSpec | milvus_rag_groq.py:631-652 | the inner loop for one field as a function of the console lines: it reads no line before `pos` and none past the end, and it runs out of input only after reading every line |
| FieldCollection.AskSpecSound | milvus_rag_groq.py:641-652 | only a non-blank value that passes validation is ever the answer; in required mode the field is answered unless the input runs out |
| FieldCollection.AskSpecFirstLine | milvus_rag_groq.py:633-645 | a first line whose entered value passes settles the field with that value after one line; an empty optional answer skips after one line |
| FieldCollection.AskField | milvus_rag_groq.py:631-652 | the loop returns exactly what AskSpec prescribes for the lines from `start`: the answer, the next unread line and whether input ran out. A returned value is non-blank and accepted, and in required mode the loop ends only with a value or at end of input |
| FieldCollection.RecordStep | milvus_rag_groq.py:642-645 | storing an accepted value keeps keys and map in step and the keys distinct, in field order, with every stored value accepted |
| FieldCollection.SkipStep | milvus_rag_groq.py:638-652 | skipping an optional field keeps what has been collected |
| FieldCollection.DistinctAppend | milvus_rag_groq.py:644 | a key added to the dictionary for the first time keeps the keys distinct |
| FieldCollection.PromptForFields | milvus_rag_groq.py:608-653 | the result is exactly PromptSpec of the console lines. Keys are distinct and in field order. Every stored value is non-blank and accepted for its field. In required mode every field gets a value. At most the given input lines are used |
| FieldCollection.PromptSpecCollected | milvus_rag_groq.py:617-653 | what prompt_for_fields returns has each recorded key once, in field order, with a non-blank accepted value; every field in required mode; no more lines than given |
| FieldCollection.PromptFromCollected | milvus_rag_groq.py:617-653 | the outer loop from any field on keeps the collected dictionary well formed |
| FieldCollection.OneLineEach | milvus_rag_groq.py:617-653 | one passing line per distinct field yields exactly those values, keyed in field order, after one line per field |
| FieldCollection.AllSkipped | milvus_rag_groq.py:617-640 | in optional mode, empty answers with no usable default skip every field: the dictionary is empty and one line per field is read |
| Resolution.ListAvailableResources | milvus_rag_groq.py:351-358 | the names are sorted, distinct and non-empty, exactly the rows' resource names; a failed query gives none |
| Resolution.FirstTokenMatch | milvus_rag_groq.py:366-368 | the first candidate whose lowered name contains, or is contained in, the lowered query |
| Resolution.DifflibStage | milvus_rag_groq.py:369-378 | a difflib result is always a candidate, and a close match among the lowered names returns the candidate with that lowered name |
| Resolution.BestFuzzyMatch | milvus_rag_groq.py:360-379 | no candidates give nothing, and the result is always a candidate. The first token match wins; only without one is difflib consulted |
| Resolution.ExactNameSettledByTokens | milvus_rag_groq.py:366-368 | a query equal to a candidate up to case is settled by the token test, at that candidate or an earlier one |
| Resolution.LongerNameShadowed | milvus_rag_groq.py:366-368 | `cloudstack_network_acl` is resolved to `cloudstack_network`, which precedes it |
| Resolution.NormalizeResourceQuery | milvus_rag_groq.py:381-421 | without listed resources there is no answer. Any answer is a listed resource. A listed model answer wins, otherwise the first token match, otherwise the difflib fallback |
| Store.Truthy | milvus_rag_groq.py:463 | the non-empty values of one field, in row order; a value is kept exactly when some row has it |
| Store.TruthyCount | milvus_rag_groq.py:463 | each non-empty value is kept as often as it occurs in the column, the empty value never |
| Retrieval.ResourceFilter | milvus_rag_groq.py:431 | the filter is `resource == "<name>"` with the name in place |
| Retrieval.FetchAll | milvus_rag_groq.py:432-460 | the batching loop gathers exactly the rows the batch description gives |
| Retrieval.FetchedReadsSixteenBatches | milvus_rag_groq.py:456-460 | only the first sixteen batches are ever requested |
| Retrieval.FetchedRowsFromBatches | milvus_rag_groq.py:436-450 | every gathered row came from one of those batches |
| Retrieval.RequiredOf | milvus_rag_groq.py:464-474 | no row holding a list gives no fields; every field comes from a stored list |
| Retrieval.FindRequired | milvus_rag_groq.py:464-474 | the loop finds the list of the first row whose `required_fields` decodes to a list |
| Retrieval.SearchDocs | milvus_rag_groq.py:426-475 | the chunks are the non-empty texts of the gathered rows in order, and the required fields come from the first row holding a list |
| OptionalFields.LastTag | milvus_rag_groq.py:503 | the greedy `.{0,40}` stops at the last "(Optional)" it can reach |
| OptionalFields.MentionAt | milvus_rag_groq.py:503 | a match captures a word, followed within 41 characters on the same line by "(Optional)" in any case |
| OptionalFields.Mentions | milvus_rag_groq.py:503-506 | every name `re.finditer` captures is a word |
| OptionalFields.StringsNotIn | milvus_rag_groq.py:497 | exactly the model's string items that are not required |
| OptionalFields.ExtractOptionalFields | milvus_rag_groq.py:481-507 | the result is strictly sorted and never required. It comes from the model's list when one is given, otherwise from the "(Optional)" scan of the docs |
| Postprocess.FenceEnd | milvus_rag_groq.py:717 | a fence match takes at least the three backticks |
| Postprocess.RemoveFences | milvus_rag_groq.py:717 | removing fences never lengthens the text |
| Postprocess.FencesRemoved | milvus_rag_groq.py:717 | after the substitution no three backticks remain anywhere |
| Postprocess.RemoveFencesIdle | milvus_rag_groq.py:717 | text without fences is unchanged |
| Postprocess.RemoveTrailingFenceIdle | milvus_rag_groq.py:718 | the closing-fence pass changes nothing in fence-free text |
| Postprocess.Cleaned | milvus_rag_groq.py:717-718 | the text the line scan works on is fence-free, and the second pass leaves it unchanged |
| Postprocess.Fallback | milvus_rag_groq.py:751-754 | the fallback is the answer with fences removed, and is fence-free |
| Postprocess.BlockEnd | milvus_rag_groq.py:730-734 | the block ends within the lines |
| Postprocess.BlockRunsToEnd | milvus_rag_groq.py:733 | when the resource line holds a brace, the block runs to the last line |
| Postprocess.BraceBefore | milvus_rag_groq.py:733 | the joined earlier lines hold a brace exactly when one of them does |
| Postprocess.HclLooking | milvus_rag_groq.py:740-744 | the second scan keeps, in order, exactly the lines with `=`, `{` or `}` that are not comments |
| Postprocess.HclLookingCount | milvus_rag_groq.py:740-744 | a kept line is kept as often as it occurs, any other line never |
| Postprocess.ScanSpec | milvus_rag_groq.py:725-737 | a MISSING_REQUIRED result starts with that marker. An empty block means no line opens a resource. A non-empty block starts with a resource line and holds only answer lines |
| Postprocess.ScanSpecMissing | milvus_rag_groq.py:735-737 | a MISSING_REQUIRED line before any resource line is returned stripped |
| Postprocess.ScanSpecBlock | milvus_rag_groq.py:726-734 | the first resource line starts the block, which runs to its end |
| Postprocess.ScanLines | milvus_rag_groq.py:725-737 | the line loop ends as the scan description says |
| Postprocess.FilterHclLooking | milvus_rag_groq.py:740-744 | the second loop keeps the HCL-looking lines |
| Postprocess.Assemble | milvus_rag_groq.py:746-756 | the result is stripped; it mentions "resource" or is the stripped fallback |
| Postprocess.CleanSpec | milvus_rag_groq.py:711-756 | the output is stripped. It mentions "resource", reports missing fields, or is the stripped fallback |
| Postprocess.CleanTerraformOutput | milvus_rag_groq.py:711-756 | the method returns what the description of the cleanup gives |
| Postprocess.CleanOutputFenceFree | milvus_rag_groq.py:711-756 | whatever path is taken, no code fence survives |
| Postprocess.MissingAnswerPassesThrough | milvus_rag_groq.py:736-737 | a one-line MISSING_REQUIRED answer comes back stripped and otherwise unchanged |
| Postprocess.OpensNotMissing | milvus_rag_groq.py:727-736 | no line both opens a resource and reports missing fields |
| Naming.Sanitize | milvus_rag_groq.py:762 | the substituted name holds only `[a-zA-Z0-9_-]`, is no longer than the original, and is empty only when the original is |
| Naming.SanitizeIdleIff | milvus_rag_groq.py:762 | the substitution leaves a name unchanged exactly when it is already safe |
| Naming.NameSource | milvus_rag_groq.py:761 | `name` if non-empty, else `display_name` if non-empty, else "resource" |
| Naming.SafeName | milvus_rag_groq.py:761-762 | the sanitized source name cut to its first 64 characters: all of it when shorter, exactly 64 otherwise; 1 to 64 safe characters |
| Naming.SafeNameStable | milvus_rag_groq.py:762 | sanitizing a safe name again changes nothing |
| Naming.OutputFileName | milvus_rag_groq.py:763 | `terraform_<resource>_<safe>.tf`: the resource name and the safe name can be read back at fixed positions |
| Naming.OutputFileNamesDiffer | milvus_rag_groq.py:760-763 | different safe names for one resource give different files |

## Left out

- The calls to the language model are inputs of the model, not modelled:
  - `safe_groq_json` and `safe_groq_text`;
  - `suggest_field_details` (its dictionary is a `FieldDetails` value per field);
  - the resource-choosing prompt of `normalize_resource_query`;
  - `generate_terraform_hcl`.
- The validators are outcomes the caller supplies:
  - `validate_hcl_syntax`, `validate_terraform_cli` and `check_terraform_installed` depend on the `hcl2` parser, a temporary directory and the `terraform` executable;
  - their results are `LayerOutcome` values.
  - `TERRAFORM_VALIDATION_ENABLED` is the `enabled` parameter.
- `difflib.get_close_matches` is a function parameter. The only thing assumed of it is that a match is one of the possibilities given.
- The vector store is a function from a filter and an offset to a reply, and `json.loads` is a function from text to a decoded value.
  - The `limit` of `list_available_resources` is part of the store's reply.
  - Connection set-up (`ensure_collection`) and inserts are not modelled.
- Console and file I/O are left out:
  - prompts and warnings (`print_validation_results`, the sample list printed by `normalize_resource_query`, the messages of `prompt_for_fields`);
  - writing files (`save_generated` writes the HCL; `process_documents` and `process_all_md_files` walk directories);
  - `main`.
  - Console input is a sequence of lines. `input()` raising at end of input is the `InputExhausted` result.
- Text.Lower, Text.IsWordChar: `str.lower()`, `re.IGNORECASE`, `\w` and `\d` are modelled for ASCII only. Python also folds and accepts other Unicode letters and digits.
- Retrieval.RequiredOf: keeps only the string elements of the decoded list. Python returns the list as decoded, whatever its element types; the ingestion script stores lists of strings.
- FieldCollection.FieldDetails: the `type` entry is a string or absent. A truthy non-string `type` in the model's JSON (milvus_rag_groq.py:528) makes `(typ or "").lower()` at milvus_rag_groq.py:591 raise `AttributeError`, which propagates out of `prompt_for_fields`. The model has neither that value nor that error path.
- FieldCollection.Heuristics: option values are compared after `str()`, which is taken to be already applied to the `options` list. A `None` value cannot occur, because values are strings.
- Clean.CookieBannerRemoved: shown only for a banner closed by "Privacy Policy." whose middle holds no period; a banner closed by "Cookie Policy." is covered only by the general lemmas about `Sub` (`KeepPrefix`, `NoMatchUnchanged`).
- Ingest.LinkedAt: no lemma shows a concrete "- [\`name\`](link) - (Required)" line accepted. The linked form is covered by `FindItems` and `ExtractRequiredFields`.
- `config.py` is not part of this model: it only holds connection settings.
