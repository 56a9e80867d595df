/**
  The config variant (config-policy-automation.py): a config search yields a
  transient search id, a second call saves that search under a name, and a
  third creates a config policy bound to it. `RunBatch` is the script's `main`
  loop: a failed stage skips the row, an unexpected exception ends the run.
 */
module ConfigPolicy {
  import opened Wrappers
  import opened Text
  import opened Api

  // ---------------------------------------------------------------- labels

  const Brackets: set<char> := {'[', ']'}
  const Quote: set<char> := {'\"'}

  /** Neither end of `s` is a double quote. */
  predicate Unquoted(s: string)
  {
    s == [] || (s[0] != '\"' && s[|s| - 1] != '\"')
  }

  /** One label segment: surrounding whitespace removed, then surrounding
      double quotes. */
  function Unquote(segment: string): (r: string)
    ensures Unquoted(r)
  {
    StripChars(Strip(segment), Quote)
  }

  /** `POLICY_LABELS` cell to label list: brackets stripped from both ends,
      then, unless nothing is left, every comma-separated segment unquoted;
      empty segments are kept. */
  function ParseLabels(cell: string): (labels: seq<string>)
    ensures StripChars(cell, Brackets) == "" ==> labels == []
    ensures StripChars(cell, Brackets) != "" ==>
              |labels| == Count(StripChars(cell, Brackets), ',') + 1 &&
              forall k :: 0 <= k < |labels| ==> labels[k] == Unquote(Split(StripChars(cell, Brackets), ',')[k])
    ensures forall k :: 0 <= k < |labels| ==> Unquoted(labels[k])
  {
    var inner := StripChars(cell, Brackets);
    if inner == "" then []
    else
      var segments := Split(inner, ',');
      seq(|segments|, k requires 0 <= k < |segments| => Unquote(segments[k]))
  }

  /** A cell made only of brackets (among them `""` and `"[]"`) holds no labels. */
  lemma OnlyBracketsParseEmpty(cell: string)
    requires forall k :: 0 <= k < |cell| ==> cell[k] in Brackets
    ensures ParseLabels(cell) == []
  {
    StripCharsOfPadded(cell, [], [], Brackets);
    assert cell + [] + [] == cell;
  }

  /** Each label in double quotes. */
  function Quoted(labels: seq<string>): (quoted: seq<string>)
    ensures |quoted| == |labels|
    ensures forall k :: 0 <= k < |labels| ==> quoted[k] == ['\"'] + labels[k] + ['\"']
  {
    seq(|labels|, k requires 0 <= k < |labels| => ['\"'] + labels[k] + ['\"'])
  }

  /** A label list written as a bracketed, comma-separated list of quoted
      labels, `["a","b"]`: the form the parser reads back. */
  function RenderLabels(labels: seq<string>): string
  {
    "[" + Join(Quoted(labels), ',') + "]"
  }

  /** Rendering and parsing again gives the labels back, for labels that hold
      no comma and do not start or end with a double quote. */
  lemma ParseRenderedLabels(labels: seq<string>)
    requires forall k :: 0 <= k < |labels| ==> ',' !in labels[k] && Unquoted(labels[k])
    ensures ParseLabels(RenderLabels(labels)) == labels
  {
    if labels == [] {
      assert RenderLabels(labels) == "[]";
      OnlyBracketsParseEmpty("[]");
    } else {
      var quoted := Quoted(labels);
      var joined := Join(quoted, ',');
      var cell := RenderLabels(labels);
      JoinEnds(quoted, ',');
      assert StripChars(cell, Brackets) == joined by {
        assert cell == "[" + joined + "]";
        StripCharsOfPadded("[", joined, "]", Brackets);
      }
      assert Split(joined, ',') == quoted by {
        forall k | 0 <= k < |quoted| ensures ',' !in quoted[k] {
          assert quoted[k] == ['\"'] + labels[k] + ['\"'];
        }
        SplitJoin(quoted, ',');
      }
      UnquoteEach(cell, quoted, labels);
    }
  }

  /** When the bracket-stripped cell is not empty and splits into the quoted
      labels, the parsed labels are the labels. */
  lemma UnquoteEach(cell: string, quoted: seq<string>, labels: seq<string>)
    requires StripChars(cell, Brackets) != "" && Split(StripChars(cell, Brackets), ',') == quoted
    requires |quoted| == |labels|
    requires forall k :: 0 <= k < |labels| ==> quoted[k] == ['\"'] + labels[k] + ['\"'] && Unquoted(labels[k])
    ensures ParseLabels(cell) == labels
  {
    var parsed := ParseLabels(cell);
    forall k | 0 <= k < |labels| ensures parsed[k] == labels[k] {
      UnquoteQuoted(labels[k]);
    }
  }

  lemma UnquoteQuoted(l: string)
    requires Unquoted(l)
    ensures Unquote(['\"'] + l + ['\"']) == l
  {
    var q := ['\"'] + l + ['\"'];
    StripCharsOfPadded([], q, [], Whitespace);
    assert [] + q + [] == q;
    StripCharsOfPadded(['\"'], l, ['\"'], Quote);
  }

  // ------------------------------------------------------------ row fields

  /** The values `main` reads from one row. */
  datatype PolicyRow = PolicyRow(
    query: string,
    name: string,
    description: string,
    severity: string,
    labels: seq<string>,
    cloudType: string,
    savedSearchName: string,
    savedSearchDescription: string)

  /** `value` is what `row.get(key, '')` gives. */
  predicate ReadAs(row: Row, key: string, value: string)
  {
    if key in row then value == row[key] else value == ""
  }

  /** The field reads at the top of the loop body: every column defaults to
      the empty string, `POLICY_LABELS` to `"[]"`. */
  function ReadPolicyRow(row: Row): (p: PolicyRow)
    ensures ReadAs(row, "RQL_QUERY", p.query) && ReadAs(row, "POLICY_NAME", p.name)
    ensures ReadAs(row, "POLICY_DESCRIPTION", p.description) && ReadAs(row, "POLICY_SEVERITY", p.severity)
    ensures ReadAs(row, "POLICY_CLOUD_TYPE", p.cloudType) && ReadAs(row, "SAVED_SEARCH_NAME", p.savedSearchName)
    ensures ReadAs(row, "SAVED_SEARCH_DESCRIPTION", p.savedSearchDescription)
    ensures "POLICY_LABELS" in row ==> p.labels == ParseLabels(row["POLICY_LABELS"])
    ensures "POLICY_LABELS" !in row ==> p.labels == []
  {
    assert forall k :: 0 <= k < |"[]"| ==> "[]"[k] in Brackets;
    OnlyBracketsParseEmpty("[]");
    PolicyRow(
      Get(row, "RQL_QUERY", ""), Get(row, "POLICY_NAME", ""), Get(row, "POLICY_DESCRIPTION", ""),
      Get(row, "POLICY_SEVERITY", ""), ParseLabels(Get(row, "POLICY_LABELS", "[]")),
      Get(row, "POLICY_CLOUD_TYPE", ""), Get(row, "SAVED_SEARCH_NAME", ""), Get(row, "SAVED_SEARCH_DESCRIPTION", ""))
  }

  /** The columns that must hold a non-empty value. */
  const RequiredFields: seq<string> := ["RQL_QUERY", "POLICY_NAME", "POLICY_SEVERITY", "POLICY_CLOUD_TYPE", "SAVED_SEARCH_NAME"]

  /** The check before any network stage. */
  predicate HasRequiredFields(p: PolicyRow)
  {
    p.query != "" && p.name != "" && p.severity != "" && p.cloudType != "" && p.savedSearchName != ""
  }

  /** A row passes the check exactly when each required column is present
      and not empty. */
  lemma RequiredFieldsPresent(row: Row)
    ensures HasRequiredFields(ReadPolicyRow(row)) <==> forall c :: c in RequiredFields ==> c in row && row[c] != ""
  {
    var p := ReadPolicyRow(row);
    if forall c :: c in RequiredFields ==> c in row && row[c] != "" {
      assert "RQL_QUERY" in RequiredFields && "POLICY_NAME" in RequiredFields && "POLICY_SEVERITY" in RequiredFields;
      assert "POLICY_CLOUD_TYPE" in RequiredFields && "SAVED_SEARCH_NAME" in RequiredFields;
    }
  }

  // -------------------------------------------------------------- requests

  /** The body POSTed to `search/history/{id}`; `isDefault` is the JSON field `default`. */
  datatype SaveSearchBody = SaveSearchBody(
    query: string,
    id: string,
    name: string,
    description: string,
    saved: bool,
    cloudType: string,
    isDefault: bool)

  datatype Request =
    | ConfigSearch(query: string)
    | SaveSearch(url: string, save: SaveSearchBody)
    | CreatePolicy(policy: PolicyBody)

  /** One network call: the row being processed (0-based) and what was sent. */
  datatype Call = Call(row: nat, request: Request)

  /** The remote service, as the outcome of each call. */
  type Network = Call -> HttpOutcome

  /** `get_search_id` after its POST: `None` on a request error; on success the
      response's `searchId`, or its `id` when `searchId` is absent or empty, and
      a `ValueError` that the function does not catch when both are. */
  function SearchIdOf(o: HttpOutcome): (r: Step<Option<string>>)
    ensures r == Returned(None) <==> o.Failed?
    ensures r.Raised? <==> o.Succeeded? && Get(o.body, "searchId", "") == "" && Get(o.body, "id", "") == ""
    ensures r.Raised? ==> r.exc == ValueError
    ensures o.Succeeded? && Get(o.body, "searchId", "") != "" ==> r == Returned(Some(o.body["searchId"]))
    ensures o.Succeeded? && Get(o.body, "searchId", "") == "" && Get(o.body, "id", "") != "" ==>
              r == Returned(Some(o.body["id"]))
  {
    match o
    case Failed(_) => Returned(None)
    case Succeeded(body) =>
      var searchId := Get(body, "searchId", "");
      var searchId' := if searchId == "" then Get(body, "id", "") else searchId;
      if searchId' == "" then Raised(ValueError) else Returned(Some(searchId'))
  }

  /** The save-search URL: the endpoint prefix (configuration) followed by the id. */
  function SaveSearchUrl(prefix: string, searchId: string): (url: string)
    ensures |url| == |prefix| + |searchId|
    ensures url[..|prefix|] == prefix && url[|prefix|..] == searchId
  {
    prefix + searchId
  }

  /** Different ids are saved at different URLs. */
  lemma SaveSearchUrlInjective(prefix: string, a: string, b: string)
    requires SaveSearchUrl(prefix, a) == SaveSearchUrl(prefix, b)
    ensures a == b
  {
    assert a == SaveSearchUrl(prefix, a)[|prefix|..];
  }

  /** The `save_search` body: marks search `searchId` as saved, not default,
      under the given name; query, description and cloud type pass through. */
  function SaveSearchPayload(searchId: string, query: string, name: string, description: string,
                             cloudType: string): (b: SaveSearchBody)
    ensures b.id == searchId && b.saved && !b.isDefault
    ensures b.query == query && b.name == name && b.description == description && b.cloudType == cloudType
  {
    SaveSearchBody(query, searchId, name, description, true, cloudType, false)
  }

  /** `save_search` after its POST: true exactly when the request succeeded. */
  function SaveSearchSucceeded(o: HttpOutcome): (saved: bool)
    ensures saved <==> o.Succeeded?
  {
    o.Succeeded?
  }

  /** The `add_policy` body: an enabled config policy with an empty
      recommendation, whose rule is a saved-search reference to `searchId`; the
      descriptive fields pass through unchanged. */
  function PolicyPayload(searchId: string, name: string, description: string, severity: string,
                         labels: seq<string>, cloudType: string): (p: PolicyBody)
    ensures p.policyType == "config" && p.rule.ruleType == "Config"
    ensures p.rule.name == name + " Rule" && p.rule.criteria == searchId
    ensures p.rule.savedSearch && p.enabled && p.recommendation == ""
    ensures p.name == name && p.description == description && p.severity == severity
    ensures p.labels == labels && p.cloudType == cloudType
  {
    PolicyBody(name, description, severity, labels, "config", cloudType, true, "",
               Rule(RuleName(name), searchId, true, "Config"))
  }

  // ------------------------------------------------------------ one row

  /** Where the processing of one row stopped; only logged by the script. */
  datatype RowOutcome = MissingFields | NoSearchId | NotSaved | PolicyAdded | PolicyNotAdded

  /** The calls one row made and how its processing ended; `Raised` ends the run. */
  datatype RowRun = RowRun(calls: seq<Call>, result: Step<RowOutcome>)

  /** The body of `main`'s loop for the row at `index`, as a function. */
  function ProcessRow(row: Row, index: nat, net: Network, savePrefix: string): (r: RowRun)
    ensures |r.calls| <= 3
    ensures forall k :: 0 <= k < |r.calls| ==> r.calls[k].row == index
  {
    var p := ReadPolicyRow(row);
    if !HasRequiredFields(p) then RowRun([], Returned(MissingFields))
    else
      var search := Call(index, ConfigSearch(p.query));
      match SearchIdOf(net(search))
      case Raised(e) => RowRun([search], Raised(e))
      case Returned(None) => RowRun([search], Returned(NoSearchId))
      case Returned(Some(searchId)) =>
        var save := Call(index, SaveSearch(SaveSearchUrl(savePrefix, searchId),
                                           SaveSearchPayload(searchId, p.query, p.savedSearchName,
                                                             p.savedSearchDescription, p.cloudType)));
        if !SaveSearchSucceeded(net(save)) then RowRun([search, save], Returned(NotSaved))
        else
          var add := Call(index, CreatePolicy(PolicyPayload(searchId, p.name, p.description, p.severity,
                                                            p.labels, p.cloudType)));
          match AddPolicyStep(net(add))
          case Raised(e) => RowRun([search, save, add], Raised(e))
          case Returned(details) =>
            RowRun([search, save, add], Returned(if Truthy(details) then PolicyAdded else PolicyNotAdded))
  }

  /** The stages of one row: a row failing the required-field check makes no
      call; otherwise search, save and policy creation come in that order, each
      exactly when the previous one succeeded, the save and the policy both
      using the id the search returned; the outcome names the stage that
      stopped the row, or what the policy call gave. */
  lemma ProcessRowStages(row: Row, index: nat, net: Network, savePrefix: string)
    ensures var r := ProcessRow(row, index, net, savePrefix);
            r.calls == [] <==> !HasRequiredFields(ReadPolicyRow(row))
    ensures var r := ProcessRow(row, index, net, savePrefix);
            r.calls == [] ==> r.result == Returned(MissingFields)
    ensures var r := ProcessRow(row, index, net, savePrefix);
            |r.calls| >= 1 ==> r.calls[0].request == ConfigSearch(ReadPolicyRow(row).query)
    ensures var r := ProcessRow(row, index, net, savePrefix);
            |r.calls| >= 2 ==>
              var p := ReadPolicyRow(row);
              var searchId := SearchIdOf(net(r.calls[0]));
              searchId.Returned? && searchId.value.Some? &&
              r.calls[1].request ==
                SaveSearch(SaveSearchUrl(savePrefix, searchId.value.value),
                           SaveSearchPayload(searchId.value.value, p.query, p.savedSearchName,
                                             p.savedSearchDescription, p.cloudType))
    ensures var r := ProcessRow(row, index, net, savePrefix);
            |r.calls| == 3 ==>
              var p := ReadPolicyRow(row);
              var searchId := SearchIdOf(net(r.calls[0])).value.value;
              net(r.calls[1]).Succeeded? &&
              r.calls[2].request ==
                CreatePolicy(PolicyPayload(searchId, p.name, p.description, p.severity, p.labels, p.cloudType))
    ensures var r := ProcessRow(row, index, net, savePrefix);
            |r.calls| >= 1 && SearchIdOf(net(r.calls[0])).Returned? && SearchIdOf(net(r.calls[0])).value.Some? ==>
              |r.calls| >= 2
    ensures var r := ProcessRow(row, index, net, savePrefix);
            |r.calls| >= 2 && net(r.calls[1]).Succeeded? ==> |r.calls| == 3
    ensures var r := ProcessRow(row, index, net, savePrefix);
            r.result == Returned(NoSearchId) <==> |r.calls| == 1 && SearchIdOf(net(r.calls[0])) == Returned(None)
    ensures var r := ProcessRow(row, index, net, savePrefix);
            r.result == Returned(NotSaved) <==> |r.calls| == 2 && !SaveSearchSucceeded(net(r.calls[1]))
    ensures var r := ProcessRow(row, index, net, savePrefix);
            r.result == Returned(PolicyAdded) <==>
              |r.calls| == 3 && AddPolicyStep(net(r.calls[2])).Returned? && Truthy(AddPolicyStep(net(r.calls[2])).value)
    ensures var r := ProcessRow(row, index, net, savePrefix);
            r.result == Returned(PolicyNotAdded) <==>
              |r.calls| == 3 && AddPolicyStep(net(r.calls[2])).Returned? && !Truthy(AddPolicyStep(net(r.calls[2])).value)
    ensures var r := ProcessRow(row, index, net, savePrefix);
            r.result.Raised? <==>
              (|r.calls| == 1 && SearchIdOf(net(r.calls[0])).Raised?) || (|r.calls| == 3 && net(r.calls[2]) == Failed(None))
  {
  }

  // ------------------------------------------------------------ the batch

  /** Every row run makes its calls under its own row number. */
  predicate Tagged(runs: seq<RowRun>)
  {
    forall k, j :: 0 <= k < |runs| && 0 <= j < |runs[k].calls| ==> runs[k].calls[j].row == k
  }

  /** The run of every row, in row order, each processed on its own. */
  function RowRuns(rows: seq<Row>, net: Network, savePrefix: string): (runs: seq<RowRun>)
    ensures |runs| == |rows| && Tagged(runs)
    ensures forall k :: 0 <= k < |rows| ==> runs[k] == ProcessRow(rows[k], k, net, savePrefix)
  {
    seq(|rows|, k requires 0 <= k < |rows| => ProcessRow(rows[k], k, net, savePrefix))
  }

  /** Calls made, the outcome of every row finished so far, and the exception
      that ended the run, if one did. */
  datatype Progress = Progress(calls: seq<Call>, outcomes: seq<RowOutcome>, abort: Option<Exception>)

  /** The loop of `main` over the row runs: rows are taken in order until one
      raises, and that one ends the run. */
  function Advance(runs: seq<RowRun>): (p: Progress)
    ensures |p.outcomes| <= |runs|
    ensures p.abort.None? ==> |p.outcomes| == |runs|
    ensures forall k :: 0 <= k < |p.outcomes| ==> runs[k].result == Returned(p.outcomes[k])
    ensures p.abort.Some? ==> |p.outcomes| < |runs| && runs[|p.outcomes|].result == Raised(p.abort.value)
  {
    if runs == [] then Progress([], [], None)
    else
      var n := |runs| - 1;
      var before := Advance(runs[..n]);
      if before.abort.Some? then before
      else
        match runs[n].result
        case Returned(outcome) => Progress(before.calls + runs[n].calls, before.outcomes + [outcome], None)
        case Raised(e) => Progress(before.calls + runs[n].calls, before.outcomes, Some(e))
  }

  /** One more row, while no row has raised: its calls are appended, and its
      outcome too unless it raised, in which case the run ends. */
  lemma AdvanceStep(runs: seq<RowRun>, i: nat)
    requires i < |runs| && Advance(runs[..i]).abort.None?
    ensures var before, after := Advance(runs[..i]), Advance(runs[..i + 1]);
            after.calls == before.calls + runs[i].calls &&
            (runs[i].result.Returned? ==> after.outcomes == before.outcomes + [runs[i].result.value] && after.abort.None?) &&
            (runs[i].result.Raised? ==> after.outcomes == before.outcomes && after.abort == Some(runs[i].result.exc))
  {
    assert runs[..i + 1][..i] == runs[..i];
  }

  /** Once the run has ended, later rows change nothing. */
  lemma {:induction false} AbortIsFinal(runs: seq<RowRun>, m: nat)
    requires m <= |runs|
    requires Advance(runs[..m]).abort.Some?
    ensures Advance(runs) == Advance(runs[..m])
    decreases |runs|
  {
    if m < |runs| {
      var n := |runs| - 1;
      assert runs[..n][..m] == runs[..m];
      AbortIsFinal(runs[..n], m);
    } else {
      assert runs[..m] == runs;
    }
  }

  /** Every call of the trace belongs to a row that was processed: none comes
      from a row after the one that ended the run. */
  lemma {:induction false} CallsStopAtAbort(runs: seq<RowRun>)
    requires Tagged(runs)
    ensures forall k :: 0 <= k < |Advance(runs).calls| ==> Advance(runs).calls[k].row <= |Advance(runs).outcomes|
  {
    if runs != [] {
      var n := |runs| - 1;
      assert Tagged(runs[..n]);
      CallsStopAtAbort(runs[..n]);
    }
  }

  /** How `main` ended. `LoginRaised` is the uncaught `ValueError` of a login
      response without a token; `Aborted` is the `exit()` in the handler of an
      unexpected exception. */
  datatype End = NoToken | LoginRaised | Aborted(exc: Exception) | Finished

  datatype Run = Run(calls: seq<Call>, outcomes: seq<RowOutcome>, end: End)

  /** `main`, as a function of the login outcome, the data rows, the remote
      service and the save-search URL prefix. */
  function RunSpec(login: HttpOutcome, rows: seq<Row>, net: Network, savePrefix: string): Run
  {
    match GetJwtToken(login)
    case Raised(_) => Run([], [], LoginRaised)
    case Returned(None) => Run([], [], NoToken)
    case Returned(Some(_)) =>
      var p := Advance(RowRuns(rows, net, savePrefix));
      Run(p.calls, p.outcomes, if p.abort.Some? then Aborted(p.abort.value) else Finished)
  }

  /** The body of `main`'s loop for one row: read the fields, check the
      required ones, then search, save and create the policy, stopping at the
      first stage that fails; the calls made and how the row ended. */
  method HandleRow(row: Row, index: nat, net: Network, savePrefix: string)
    returns (calls: seq<Call>, result: Step<RowOutcome>)
    ensures RowRun(calls, result) == ProcessRow(row, index, net, savePrefix)
  {
    var p := ReadPolicyRow(row);
    if !HasRequiredFields(p) {
      return [], Returned(MissingFields);
    }
    var search := Call(index, ConfigSearch(p.query));
    calls := [search];
    var found := SearchIdOf(net(search));
    if found.Raised? {
      return calls, Raised(found.exc);
    }
    if found.value.None? {
      return calls, Returned(NoSearchId);
    }
    var searchId := found.value.value;
    var save := Call(index, SaveSearch(SaveSearchUrl(savePrefix, searchId),
                                       SaveSearchPayload(searchId, p.query, p.savedSearchName,
                                                         p.savedSearchDescription, p.cloudType)));
    calls := calls + [save];
    var saved := SaveSearchSucceeded(net(save));
    if !saved {
      return calls, Returned(NotSaved);
    }
    var add := Call(index, CreatePolicy(PolicyPayload(searchId, p.name, p.description, p.severity,
                                                      p.labels, p.cloudType)));
    calls := calls + [add];
    var added := AddPolicyStep(net(add));
    if added.Raised? {
      return calls, Raised(added.exc);
    }
    result := Returned(if Truthy(added.value) then PolicyAdded else PolicyNotAdded);
  }

  /** `main`: log in once, then handle the rows in order; an unexpected
      exception in a row ends the whole run. */
  method RunBatch(login: HttpOutcome, rows: seq<Row>, net: Network, savePrefix: string) returns (run: Run)
    ensures run == RunSpec(login, rows, net, savePrefix)
    ensures run.end.Finished? ==> |run.outcomes| == |rows|
    ensures run.end.Aborted? ==> |run.outcomes| < |rows|
    ensures (run.end.NoToken? || run.end.LoginRaised?) ==> run.calls == [] && run.outcomes == []
  {
    var token := GetJwtToken(login);
    if token.Raised? {
      return Run([], [], LoginRaised);
    }
    if token.value.None? {
      return Run([], [], NoToken);
    }
    ghost var all := RowRuns(rows, net, savePrefix);
    var calls: seq<Call> := [];
    var outcomes: seq<RowOutcome> := [];
    var i := 0;
    while i < |rows|
      invariant i <= |rows|
      invariant Advance(all[..i]) == Progress(calls, outcomes, None)
    {
      var rowCalls, result := HandleRow(rows[i], i, net, savePrefix);
      AdvanceStep(all, i);
      calls := calls + rowCalls;
      i := i + 1;
      if result.Raised? {
        AbortIsFinal(all, i);
        return Run(calls, outcomes, Aborted(result.exc));
      }
      outcomes := outcomes + [result.value];
    }
    assert all[..i] == all;
    run := Run(calls, outcomes, Finished);
  }
}
