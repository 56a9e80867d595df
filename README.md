# Policy automation scripts, modelled in Dafny

Two Python scripts create Prisma Cloud policies from the rows of a CSV file.
For each row they resolve an RQL query to a search id, and then create a policy
bound to that id.

- `iam-policy-automation.py` (the IAM variant) gets the id from one call to the
  IAM permission-search endpoint. It creates an IAM policy and counts each row
  as processed or failed.
- `config-policy-automation.py` (the config variant) runs a config search,
  saves the search under a name, and creates a config policy. It keeps no
  counters. An unexpected exception ends the whole run.

The model is split into modules:

- `Wrappers` — `Option` and `Result`.
- `Text` — Python's `str.strip()`, `str.strip(chars)`, `str.split(sep)` and
  `sep.join(parts)`. Split and join are proved to be inverses.
- `Api` — what both scripts share:
  - a CSV row, as a `map<string, string>`;
  - the outcome of one HTTP POST, `HttpOutcome`, which the caller of the model
    supplies;
  - the exceptions that steer control flow, the login step, the error handling
    of `add_policy`, and the policy-creation body.
- `IamPolicy` — the IAM variant:
  - label parsing, row reading with its `KeyError`s and defaults, and the
    search-id extraction;
  - the policy body, `process_policy_from_csv` as a function, and `main` as a
    method whose loop is proved against a specification function;
  - lemmas about the counters and about how rows are isolated from each other.
- `ConfigPolicy` — the config variant:
  - label parsing, row reading and the required-field check;
  - the `searchId`/`id` fallback and the save-search URL and body;
  - the policy body, and the per-row stages as a method;
  - `main` as a method whose loop is proved against a specification function
    that stops at the first exception.
- `Variants` — where the two label parsers agree and where they differ, and
  how the two policy bodies differ.

The remote service is a parameter, `net: Call -> HttpOutcome`. A `Call` holds
the 0-based row number and the request that was built, so every run yields a
trace of the calls it made, in order.

Two behaviours of the code are modelled as written:

- **`add_policy` can raise `AttributeError`.** Its "already exists" test reads
  `e.response.text` without checking that `e.response` is not `None`. A
  request that fails with no response at all, `Failed(None)`, therefore raises
  `AttributeError`.
  - In the IAM variant, `main`'s generic handler counts that row as failed.
  - In the config variant, `main`'s handler calls `exit()`, which ends the run.
- **The IAM variant checks only the header.** It checks that the five required
  columns are named. It never checks that a cell is non-empty. Only a missing
  key fails a row, with `KeyError`.

## Model

| member | source | states |
|---|---|---|
| Text.TrimStartRemoves | config-policy-automation.py:175 | `lstrip(chars)` removes a prefix made only of stripped characters, and what is left does not start with one |
| Text.TrimEndRemoves | config-policy-automation.py:175 | `rstrip(chars)` removes a suffix made only of stripped characters, and what is left does not end with one |
| Text.StripChars | iam-policy-automation.py:152 | the stripped string is no longer than the input, and neither of its ends is a stripped character |
| Text.StripCharsOfPadded | config-policy-automation.py:175-177 | characterises `str.strip(chars)` without its recursion: padding made of stripped characters around a core whose ends are not stripped characters strips back to exactly that core |
| Text.Strip | iam-policy-automation.py:152 | `str.strip()` leaves no whitespace at either end |
| Text.StripOfTrimmed | iam-policy-automation.py:152 | a string with no surrounding whitespace is its own strip |
| Text.StripCharsIdempotent | config-policy-automation.py:177 | stripping twice gives the same result as stripping once |
| Text.Split | iam-policy-automation.py:152 | `str.split(sep)` yields one more part than there are separators, and no part contains the separator |
| Text.JoinSplit | config-policy-automation.py:176 | joining the parts of a split with the separator gives the original string back |
| Text.SplitJoin | config-policy-automation.py:176 | splitting a join of separator-free parts gives exactly those parts back, empty parts included |
| Text.JoinSnoc | config-policy-automation.py:176 | proof helper; the code has no join, which is modelled as the inverse of its split: a join of more than one part is the join of all but the last part, the separator, and the last part |
| Text.JoinEnds | config-policy-automation.py:175 | proof helper for the bracket strip of a joined cell: when the first and last parts are non-empty, a join starts with the first part's first character and ends with the last part's last character, whatever the parts in between |
| Api.GetJwtToken | config-policy-automation.py:21-40 | login yields `None` exactly on a request error. A success without a non-empty `token` raises `ValueError`, which nobody catches. A returned token is the response's non-empty `token` |
| Api.RuleNameInjective | iam-policy-automation.py:119 | different policy names give different rule names (`name + " Rule"`) |
| Api.AddPolicyStep | config-policy-automation.py:141-147 | `add_policy` returns the response body exactly on success. It returns `None` on any request error that has a response, whatever its text says. It raises `AttributeError` exactly when the error has no response |
| IamPolicy.KeepNonBlank | iam-policy-automation.py:152 | the comprehension keeps at most as many labels as there are segments, and every kept label is non-empty with no surrounding whitespace |
| IamPolicy.ParseLabels | iam-policy-automation.py:151-152 | every label is non-empty and trimmed. There are at most (commas + 1) labels, and an empty cell gives `[]` |
| IamPolicy.NonBlankPositions | iam-policy-automation.py:152 | an independent account of the filter: the increasing positions of exactly the segments that are non-blank after stripping |
| IamPolicy.NonBlankPositionsComplete | iam-policy-automation.py:152 | every segment that is non-blank after stripping has its position listed |
| IamPolicy.KeepNonBlankInOrder | iam-policy-automation.py:152 | label k is the stripped k-th non-blank segment, so segment order is kept and only blank segments are dropped |
| IamPolicy.KeepNonBlankOfClean | iam-policy-automation.py:152 | the comprehension leaves a list of labels that are already clean unchanged |
| IamPolicy.ParseLabelsOfJoined | iam-policy-automation.py:151-152 | clean labels joined with commas parse back to themselves, so parsing is idempotent on its own output |
| IamPolicy.RowFields | iam-policy-automation.py:146-156 | with the indexed columns present: query, name, severity and cloud type are their cells. Labels are parsed from `POLICY_LABELS`, or from `''` when it is absent. Description comes from `POLICY_NAME.1`, else `''`. The saved-search name defaults to name + `" Query"`, and the saved-search description defaults to the description |
| IamPolicy.ReadPolicyRow | iam-policy-automation.py:146-156 | the row reads successfully exactly when all four indexed columns are present, and then gives its fields. Otherwise it raises `KeyError` for an indexed column the row lacks |
| IamPolicy.ReadPolicyRowFirstMissing | iam-policy-automation.py:146-154 | the `KeyError` names the first missing indexed column, in the order the function reads them |
| IamPolicy.SearchIdOf | iam-policy-automation.py:85-99 | a request error gives `None`. A response whose `id` is absent or empty raises `ValueError`. Otherwise the result is the response's non-empty `id` |
| IamPolicy.PolicyPayload | iam-policy-automation.py:109-126 | `policyType` and `rule.type` are `"IAM"`, `rule.name` is name + `" Rule"` and `rule.criteria` is the search id. `savedSearch` and `enabled` are true, and the recommendation is the fixed IAM text. Name, description, severity, labels and cloud type pass through unchanged |
| IamPolicy.ProcessRow | iam-policy-automation.py:142-187 | one row makes at most two calls, all tagged with its own row number |
| IamPolicy.ProcessRowStages | iam-policy-automation.py:142-156 | a row missing an indexed column raises `KeyError` before any call. Any other row goes on to the search and policy stages with its fields |
| IamPolicy.SearchAndCreate | iam-policy-automation.py:160-187 | the stages after the read make one or two calls, all tagged with the row's number |
| IamPolicy.SearchAndCreateStages | iam-policy-automation.py:160-187 | the search call is first. A failed search gives `False` with no policy call. A search response without an id raises `ValueError` after that one call. A search that returns an id always leads to the policy call, and that call carries that id. The row raises exactly in those two cases or when the policy call fails with no response. The row gives `True` (`Api.Truthy`, line 182) exactly when the policy call returned a non-empty body |
| IamPolicy.RowRuns | iam-policy-automation.py:219-221 | each row is processed on its own, under its own row number |
| IamPolicy.TallyRuns | iam-policy-automation.py:219-230 | each row moves exactly one of the two counters, so processed + failed equals the number of rows |
| IamPolicy.TallyStep | iam-policy-automation.py:220-230 | one more row appends its calls to the trace and moves exactly one counter: `processed` when its processing returned true, `failed` otherwise |
| IamPolicy.TallyCountsSuccesses | iam-policy-automation.py:221-230 | `processed` is the number of rows whose processing returned true. `failed` is every other row, whether it returned false or raised any exception |
| IamPolicy.RunBatch | iam-policy-automation.py:189-235 | `main`'s loop computes exactly the specified run (`IamPolicy.RunSpec`, with the header check `IamPolicy.HasRequiredColumns` of line 214). The run finishes exactly when login yields a token and the header names every required column. A finished run has attempted every row. A run that ended early made no calls and counted nothing |
| IamPolicy.CallsOfRow | iam-policy-automation.py:219-230 | proof helper for `RowIsolation`, a projection of the trace: the calls of one row within a trace: all carry that row's number and all occur in the trace |
| IamPolicy.CallsOfRowAppend | iam-policy-automation.py:219-230 | proof helper for `RowIsolation`: the calls of a row in two consecutive stretches of a trace are its calls in the first followed by its calls in the second |
| IamPolicy.TallyCallsFromRuns | iam-policy-automation.py:219-221 | every call in the batch trace comes from one of the rows |
| IamPolicy.RowIsolation | iam-policy-automation.py:219-230 | in the batch trace, row i made exactly the calls it makes when processed alone, whatever happened to other rows |
| IamPolicy.EveryReadableRowSearches | iam-policy-automation.py:219-230 | in the batch trace, which is the trace of a finished run, every row whose indexed columns are present reaches the search stage, even after earlier rows failed |
| IamPolicy.HeaderCheckRulesOutKeyError | iam-policy-automation.py:211-217 | when the header passed the column check and each row carries every header column, no row raises `KeyError` |
| ConfigPolicy.Unquote | config-policy-automation.py:177 | a label neither starts nor ends with a double quote |
| ConfigPolicy.ParseLabels | config-policy-automation.py:175-179 | nothing left after stripping brackets gives `[]`. Otherwise there are exactly (commas + 1) labels in segment order, empty ones included, each with whitespace and then quotes removed |
| ConfigPolicy.OnlyBracketsParseEmpty | config-policy-automation.py:175-179 | a cell made only of `[` and `]`, including `""` and `"[]"`, gives no labels |
| ConfigPolicy.Quoted | config-policy-automation.py:177 | helper for the round-trip lemma; the code never quotes labels, so this is the inverse of the unquoting it does: each label wrapped in double quotes, one per label |
| ConfigPolicy.ParseRenderedLabels | config-policy-automation.py:175-179 | a label list written as `["a","b"]` parses back to the same list, for labels without commas and without quotes at their ends |
| ConfigPolicy.UnquoteEach | config-policy-automation.py:176-177 | when the bracket-stripped cell splits into the quoted labels, the parsed labels are the labels themselves |
| ConfigPolicy.UnquoteQuoted | config-policy-automation.py:177 | unquoting a quoted label gives the label back |
| ConfigPolicy.ReadPolicyRow | config-policy-automation.py:169-183 | every field is the cell when its column is present and `''` otherwise. Labels are parsed from the cell, and a missing `POLICY_LABELS` column gives `[]` |
| ConfigPolicy.RequiredFieldsPresent | config-policy-automation.py:185-188 | a row passes validation exactly when each of the five required columns is present and non-empty |
| ConfigPolicy.SearchIdOf | config-policy-automation.py:54-69 | a request error gives `None`. A non-empty `searchId` wins. `id` is used only when `searchId` is absent or empty. When both are absent or empty, the call raises `ValueError` |
| ConfigPolicy.SaveSearchUrl | config-policy-automation.py:96 | the save URL is the endpoint prefix followed by exactly the search id |
| ConfigPolicy.SaveSearchUrlInjective | config-policy-automation.py:96 | different ids are saved at different URLs |
| ConfigPolicy.SaveSearchPayload | config-policy-automation.py:79-96 | the body's `id` is the search id, `saved` is true and `default` is false. Query, name, description and cloud type pass through |
| ConfigPolicy.SaveSearchSucceeded | config-policy-automation.py:95-106 | `save_search` returns true exactly when its request succeeded |
| ConfigPolicy.PolicyPayload | config-policy-automation.py:116-133 | `policyType` is `"config"` and `rule.type` is `"Config"`. `rule.name` is name + `" Rule"` and `rule.criteria` is the search id. `savedSearch` and `enabled` are true and the recommendation is empty. The descriptive fields pass through |
| ConfigPolicy.ProcessRow | config-policy-automation.py:167-227 | one row makes at most three calls, all tagged with its own row number |
| ConfigPolicy.ProcessRowStages | config-policy-automation.py:185-227 | a row fails validation exactly when it makes no call. The stages run in the order search, save, policy. Each runs exactly when the previous one succeeded, and save and policy both use the id the search returned. The outcome is `NoSearchId` exactly when the search returned no id, and `NotSaved` exactly when the save failed. It is `PolicyAdded` exactly when the policy call returned a non-empty body (`Api.Truthy`, line 222), and `PolicyNotAdded` when that call returned an empty body or a request error with a response. The row raises exactly when the search id is missing, or when the policy call failed with no response |
| ConfigPolicy.HandleRow | config-policy-automation.py:167-227 | the loop body's stages, with `continue` at each failed stage, produce exactly the row's specified calls and outcome |
| ConfigPolicy.RowRuns | config-policy-automation.py:165-227 | each row is processed on its own, under its own row number |
| ConfigPolicy.Advance | config-policy-automation.py:165-234 | rows are taken in order. Each finished row's outcome is its own returned outcome. Without an exception every row has an outcome. With one, the run stops at the first row that raised, and that row's exception is the reason |
| ConfigPolicy.AdvanceStep | config-policy-automation.py:165-234 | while no row has raised, one more row appends its calls. A row that returned also appends its outcome. A row that raised ends the run with its exception |
| ConfigPolicy.AbortIsFinal | config-policy-automation.py:232-234 | once a row has raised, later rows change nothing |
| ConfigPolicy.CallsStopAtAbort | config-policy-automation.py:232-234 | no call in the trace comes from a row after the one that ended the run |
| ConfigPolicy.RunBatch | config-policy-automation.py:149-234 | `main`'s loop computes exactly the specified run (`ConfigPolicy.RunSpec`). A finished run has an outcome for every row. An aborted run stopped before the end. A failed login made no calls |
| Variants.ConfigParsesJoined | config-policy-automation.py:175-179 | the config variant reads back comma-joined segments that have no surrounding whitespace or quotes, empty ones included, when the first and last segments have no bracket at their outer ends |
| Variants.BracketsSpareJoined | config-policy-automation.py:175 | stripping brackets leaves such a join unchanged |
| Variants.UnquoteSegments | config-policy-automation.py:176-177 | when a cell is unchanged by the bracket strip and splits into segments that unquoting leaves alone, the labels are those segments |
| Variants.UnquoteClean | config-policy-automation.py:177 | a label with no surrounding whitespace or quotes is unchanged by unquoting |
| Variants.ParsersAgreeOnCleanLists | iam-policy-automation.py:151-152 | both variants parse a comma-joined list of clean labels to that same list. A clean label is non-empty, holds no comma, and has no whitespace, quote or bracket at its ends |
| Variants.JoinAroundEmpty | config-policy-automation.py:176 | proof helper; the code has no join: two labels joined around an empty segment form `x,,y` |
| Variants.IamDropsEmptySegment | iam-policy-automation.py:152 | the IAM variant drops an empty segment: for clean labels x and y, `x,,y` gives `[x, y]` |
| Variants.KeepNonBlankEmptyMiddle | iam-policy-automation.py:152 | an empty segment between two labels is dropped by the comprehension |
| Variants.ConfigKeepsEmptySegment | config-policy-automation.py:176-177 | the config variant keeps it: `x,,y` gives `[x, "", y]` |
| Variants.PolicyBodiesDifferInKindOnly | config-policy-automation.py:116-133 | given the same inputs, the IAM and config policy bodies differ only in policy type, rule type and recommendation |

## Left out

- HTTP transport is not modelled: `requests.post`, `raise_for_status` and JSON decoding. Each call is an `HttpOutcome` supplied by the `net` parameter, and the remote service is not visible.
- The request headers, including the `x-redlock-auth` token, are not modelled. Neither are the endpoint URLs; the save-search URL prefix is a parameter.
- JSON response values are modelled as strings. A non-string `token`, `id` or `searchId`, and a response that is not a JSON object, are not modelled.
- Environment and configuration loading are not modelled, and neither are the fallback credentials hard-coded in `config-policy-automation.py`.
- Opening the CSV file is not modelled: the IAM existence check, `FileNotFoundError` in the config variant, and `csv.DictReader` itself. The input is a header list and a sequence of rows. `None` cells of short rows and a missing header (`fieldnames` is `None`) are not modelled.
- All `print` output is left out, including the "already exists" message, which changes no control flow.
- `Text.Strip` removes only the ASCII whitespace characters Python recognises: space, `\t`, `\n`, `\r`, `\x0b`, `\x0c` and `\x1c`-`\x1f`. Python's `str.strip()` also removes non-ASCII whitespace such as `\x85`, `\xa0` and `\u3000`; strings are not modelled beyond ASCII whitespace.
- Token expiry and retries are absent from the code and from the model.
- `main` after an exception is modelled as a run that ends with a reason (`LoginRaised`, `Aborted`). Process exit itself is not modelled.
