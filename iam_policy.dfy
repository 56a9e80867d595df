/**
  The IAM variant (iam-policy-automation.py): one call to the IAM permission
  search endpoint yields the saved-search id, then one call creates an IAM
  policy bound to it. `RunBatch` is the script's `main` loop with its two
  counters.
 */
module IamPolicy {
  import opened Wrappers
  import opened Text
  import opened Api

  // ---------------------------------------------------------------- labels

  /** The label comprehension over already split segments: each segment
      stripped, blank ones dropped, order kept. */
  function KeepNonBlank(segments: seq<string>): (labels: seq<string>)
    ensures |labels| <= |segments|
    ensures forall k :: 0 <= k < |labels| ==> IsLabel(labels[k])
  {
    if segments == [] then []
    else
      var n := |segments| - 1;
      var stripped := Strip(segments[n]);
      KeepNonBlank(segments[..n]) + (if stripped == "" then [] else [stripped])
  }

  /** What every IAM label is: not empty and without surrounding whitespace. */
  predicate IsLabel(s: string)
  {
    s != [] && Trimmed(s)
  }

  /** `POLICY_LABELS` cell to label list: split on commas, strip, drop blanks. */
  function ParseLabels(cell: string): (labels: seq<string>)
    ensures forall k :: 0 <= k < |labels| ==> IsLabel(labels[k])
    ensures |labels| <= Count(cell, ',') + 1
    ensures cell == "" ==> labels == []
  {
    KeepNonBlank(Split(cell, ','))
  }

  /** The positions of the segments that are not blank once stripped, in
      increasing order: an account of the filter that does not build labels. */
  function NonBlankPositions(segments: seq<string>): (idx: seq<nat>)
    ensures forall k :: 0 <= k < |idx| ==> idx[k] < |segments| && Strip(segments[idx[k]]) != ""
    ensures forall k :: 0 < k < |idx| ==> idx[k - 1] < idx[k]
  {
    if segments == [] then []
    else
      var n := |segments| - 1;
      var before := NonBlankPositions(segments[..n]);
      before + (if Strip(segments[n]) == "" then [] else [n])
  }

  /** No non-blank segment is missed. */
  lemma {:induction false} NonBlankPositionsComplete(segments: seq<string>, i: nat)
    requires i < |segments| && Strip(segments[i]) != ""
    ensures i in NonBlankPositions(segments)
  {
    var n := |segments| - 1;
    var before := NonBlankPositions(segments[..n]);
    if i < n {
      NonBlankPositionsComplete(segments[..n], i);
      var j :| 0 <= j < |before| && before[j] == i;
      assert NonBlankPositions(segments)[j] == i;
    } else {
      assert NonBlankPositions(segments) == before + [n];
    }
  }

  /** The labels are the stripped non-blank segments, in segment order and
      nothing else: label k comes from the k-th non-blank segment. */
  lemma {:induction false} KeepNonBlankInOrder(segments: seq<string>)
    ensures |KeepNonBlank(segments)| == |NonBlankPositions(segments)|
    ensures forall k :: 0 <= k < |KeepNonBlank(segments)| ==>
              KeepNonBlank(segments)[k] == Strip(segments[NonBlankPositions(segments)[k]])
  {
    if segments != [] {
      var n := |segments| - 1;
      var init := segments[..n];
      KeepNonBlankInOrder(init);
      var labels, idx := KeepNonBlank(segments), NonBlankPositions(segments);
      var labels0, idx0 := KeepNonBlank(init), NonBlankPositions(init);
      var stripped := Strip(segments[n]);
      assert labels == labels0 + (if stripped == "" then [] else [stripped]);
      assert idx == idx0 + (if stripped == "" then [] else [n]);
      forall k | 0 <= k < |labels| ensures labels[k] == Strip(segments[idx[k]]) {
        if k < |labels0| {
          assert labels[k] == labels0[k] && idx[k] == idx0[k];
          assert init[idx0[k]] == segments[idx0[k]];
        } else {
          assert labels[k] == stripped && idx[k] == n;
        }
      }
    }
  }

  /** Labels that are already clean (non-empty, no comma, no surrounding
      whitespace) survive a join with commas and a reparse unchanged; in
      particular parsing is idempotent on its own output. */
  lemma ParseLabelsOfJoined(labels: seq<string>)
    requires forall k :: 0 <= k < |labels| ==> IsLabel(labels[k]) && ',' !in labels[k]
    ensures ParseLabels(Join(labels, ',')) == labels
  {
    if labels != [] {
      SplitJoin(labels, ',');
      KeepNonBlankOfClean(labels);
    }
  }

  lemma {:induction false} KeepNonBlankOfClean(labels: seq<string>)
    requires forall k :: 0 <= k < |labels| ==> IsLabel(labels[k])
    ensures KeepNonBlank(labels) == labels
  {
    if labels != [] {
      var n := |labels| - 1;
      var init := labels[..n];
      assert forall k :: 0 <= k < |init| ==> IsLabel(init[k]);
      KeepNonBlankOfClean(init);
      assert IsLabel(labels[n]);
      StripOfTrimmed(labels[n]);
      assert labels == init + [labels[n]];
    }
  }

  // ------------------------------------------------------------ row fields

  /** The values `process_policy_from_csv` reads from one row. */
  datatype PolicyRow = PolicyRow(
    query: string,
    name: string,
    description: string,
    severity: string,
    labels: seq<string>,
    cloudType: string,
    savedSearchName: string,
    savedSearchDescription: string)

  /** The columns a data row must carry: `row[...]` raises `KeyError`, in this order. */
  const IndexedColumns: seq<string> := ["RQL_QUERY", "POLICY_NAME", "POLICY_SEVERITY", "POLICY_CLOUD_TYPE"]

  /** The field reads at the top of `process_policy_from_csv` once the
      indexed columns are known to be present: description from
      `POLICY_NAME.1`, labels parsed, saved-search name and description
      defaulted. */
  function RowFields(row: Row): (p: PolicyRow)
    requires forall c :: c in IndexedColumns ==> c in row
    ensures p.query == row["RQL_QUERY"] && p.name == row["POLICY_NAME"]
    ensures p.severity == row["POLICY_SEVERITY"] && p.cloudType == row["POLICY_CLOUD_TYPE"]
    ensures p.labels == ParseLabels(Get(row, "POLICY_LABELS", ""))
    ensures p.description == (if "POLICY_NAME.1" in row then row["POLICY_NAME.1"] else "")
    ensures "SAVED_SEARCH_NAME" !in row ==> p.savedSearchName == p.name + " Query"
    ensures "SAVED_SEARCH_NAME" in row ==> p.savedSearchName == row["SAVED_SEARCH_NAME"]
    ensures "SAVED_SEARCH_DESCRIPTION" !in row ==> p.savedSearchDescription == p.description
    ensures "SAVED_SEARCH_DESCRIPTION" in row ==> p.savedSearchDescription == row["SAVED_SEARCH_DESCRIPTION"]
  {
    assert "RQL_QUERY" in IndexedColumns && "POLICY_NAME" in IndexedColumns;
    assert "POLICY_SEVERITY" in IndexedColumns && "POLICY_CLOUD_TYPE" in IndexedColumns;
    var name := row["POLICY_NAME"];
    var description := Get(row, "POLICY_NAME.1", "");
    PolicyRow(
      row["RQL_QUERY"], name, description, row["POLICY_SEVERITY"],
      ParseLabels(Get(row, "POLICY_LABELS", "")), row["POLICY_CLOUD_TYPE"],
      Get(row, "SAVED_SEARCH_NAME", name + " Query"),
      Get(row, "SAVED_SEARCH_DESCRIPTION", description))
  }

  /** The row read: a missing indexed column raises `KeyError`; otherwise the
      fields. */
  function ReadPolicyRow(row: Row): (r: Result<PolicyRow, Exception>)
    ensures r.Ok? <==> forall c :: c in IndexedColumns ==> c in row
    ensures r.Err? ==> r.error.KeyError? && r.error.key in IndexedColumns && r.error.key !in row
    ensures r.Ok? ==> r.value == RowFields(row)
  {
    if "RQL_QUERY" !in row then Err(KeyError("RQL_QUERY"))
    else if "POLICY_NAME" !in row then Err(KeyError("POLICY_NAME"))
    else if "POLICY_SEVERITY" !in row then Err(KeyError("POLICY_SEVERITY"))
    else if "POLICY_CLOUD_TYPE" !in row then Err(KeyError("POLICY_CLOUD_TYPE"))
    else Ok(RowFields(row))
  }

  /** The `KeyError` names the first missing indexed column, in the order the
      function reads them. */
  lemma ReadPolicyRowFirstMissing(row: Row)
    ensures ReadPolicyRow(row) == Err(KeyError("RQL_QUERY")) <==> "RQL_QUERY" !in row
    ensures ReadPolicyRow(row) == Err(KeyError("POLICY_NAME")) <==> "RQL_QUERY" in row && "POLICY_NAME" !in row
    ensures ReadPolicyRow(row) == Err(KeyError("POLICY_SEVERITY")) <==>
              "RQL_QUERY" in row && "POLICY_NAME" in row && "POLICY_SEVERITY" !in row
    ensures ReadPolicyRow(row) == Err(KeyError("POLICY_CLOUD_TYPE")) <==>
              "RQL_QUERY" in row && "POLICY_NAME" in row && "POLICY_SEVERITY" in row && "POLICY_CLOUD_TYPE" !in row
  {
  }

  // -------------------------------------------------------------- requests

  /** The body POSTed to the IAM permission search endpoint. */
  datatype SearchBody = SearchBody(query: string, name: string, description: string)

  datatype Request = PermissionSearch(search: SearchBody) | CreatePolicy(policy: PolicyBody)

  /** One network call: the row being processed (0-based) and what was sent. */
  datatype Call = Call(row: nat, request: Request)

  /** The remote service, as the outcome of each call. */
  type Network = Call -> HttpOutcome

  /** `create_and_get_saved_search_id_iam` after its POST: `None` on a request
      error, the response's non-empty `id` on success, and otherwise a
      `ValueError` that the function does not catch. */
  function SearchIdOf(o: HttpOutcome): (r: Step<Option<string>>)
    ensures r == Returned(None) <==> o.Failed?
    ensures r.Raised? <==> o.Succeeded? && Get(o.body, "id", "") == ""
    ensures r.Raised? ==> r.exc == ValueError
    ensures r.Returned? && r.value.Some? ==>
              o.Succeeded? && "id" in o.body && r.value.value == o.body["id"] && r.value.value != ""
  {
    match o
    case Failed(_) => Returned(None)
    case Succeeded(body) =>
      var id := Get(body, "id", "");
      if id == "" then Raised(ValueError) else Returned(Some(id))
  }

  /** The recommendation text every IAM policy is created with. */
  const Recommendation: string := "권한 관련 정책 발견 시 권장 사항."

  /** The `add_policy` body: an enabled IAM policy whose rule is a saved-search
      reference to `searchId`; the descriptive fields pass through unchanged. */
  function PolicyPayload(searchId: string, name: string, description: string, severity: string,
                         labels: seq<string>, cloudType: string): (p: PolicyBody)
    ensures p.policyType == "IAM" && p.rule.ruleType == "IAM"
    ensures p.rule.name == name + " Rule" && p.rule.criteria == searchId
    ensures p.rule.savedSearch && p.enabled && p.recommendation == Recommendation
    ensures p.name == name && p.description == description && p.severity == severity
    ensures p.labels == labels && p.cloudType == cloudType
  {
    PolicyBody(name, description, severity, labels, "IAM", cloudType, true, Recommendation,
               Rule(RuleName(name), searchId, true, "IAM"))
  }

  // ------------------------------------------------------------ one row

  /** The calls one row made and how `process_policy_from_csv` ended for it. */
  datatype RowRun = RowRun(calls: seq<Call>, result: Step<bool>)

  /** `process_policy_from_csv` for the row at `index`. */
  function ProcessRow(row: Row, index: nat, net: Network): (r: RowRun)
    ensures |r.calls| <= 2
    ensures forall k :: 0 <= k < |r.calls| ==> r.calls[k].row == index
  {
    match ReadPolicyRow(row)
    case Err(e) => RowRun([], Raised(e))
    case Ok(p) => SearchAndCreate(p, index, net)
  }

  /** The rest of `process_policy_from_csv` once the fields are read: search,
      then create the policy with the id found. */
  function SearchAndCreate(p: PolicyRow, index: nat, net: Network): (r: RowRun)
    ensures 1 <= |r.calls| <= 2
    ensures forall k :: 0 <= k < |r.calls| ==> r.calls[k].row == index
  {
    var search := Call(index, PermissionSearch(SearchBody(p.query, p.savedSearchName, p.savedSearchDescription)));
    match SearchIdOf(net(search))
    case Raised(e) => RowRun([search], Raised(e))
    case Returned(None) => RowRun([search], Returned(false))
    case Returned(Some(searchId)) =>
      var add := Call(index, CreatePolicy(PolicyPayload(searchId, p.name, p.description, p.severity, p.labels, p.cloudType)));
      match AddPolicyStep(net(add))
      case Raised(e) => RowRun([search, add], Raised(e))
      case Returned(details) => RowRun([search, add], Returned(Truthy(details)))
  }

  /** A row missing an indexed column raises `KeyError` before any call; any
      other row goes on to the search and policy stages with its fields. */
  lemma ProcessRowStages(row: Row, index: nat, net: Network)
    ensures ReadPolicyRow(row).Err? ==>
              ProcessRow(row, index, net) == RowRun([], Raised(ReadPolicyRow(row).error))
    ensures ReadPolicyRow(row).Ok? ==>
              ProcessRow(row, index, net) == SearchAndCreate(RowFields(row), index, net)
  {
  }

  /** The stages after the read: the search comes first; a failed search
      gives `False` with no policy call, and a search response without an id
      raises `ValueError` with none either; a policy is created exactly when
      the search returned an id, and with that id; the row raises only there
      or when the policy call failed without a response, and gives `True`
      exactly when the policy call returned a non-empty body. */
  lemma SearchAndCreateStages(p: PolicyRow, index: nat, net: Network)
    ensures var r := SearchAndCreate(p, index, net);
            r.calls[0].request == PermissionSearch(SearchBody(p.query, p.savedSearchName, p.savedSearchDescription))
    ensures var r := SearchAndCreate(p, index, net);
            net(r.calls[0]).Failed? ==> |r.calls| == 1 && r.result == Returned(false)
    ensures var r := SearchAndCreate(p, index, net);
            |r.calls| == 2 ==>
              var found := net(r.calls[0]);
              found.Succeeded? && Get(found.body, "id", "") != "" &&
              r.calls[1].request ==
                CreatePolicy(PolicyPayload(found.body["id"], p.name, p.description, p.severity, p.labels, p.cloudType))
    ensures var r := SearchAndCreate(p, index, net);
            var found := SearchIdOf(net(r.calls[0]));
            found.Raised? ==> |r.calls| == 1 && r.result == Raised(ValueError)
    ensures var r := SearchAndCreate(p, index, net);
            var found := SearchIdOf(net(r.calls[0]));
            found.Returned? && found.value.Some? ==>
              |r.calls| == 2 &&
              r.calls[1].request ==
                CreatePolicy(PolicyPayload(found.value.value, p.name, p.description, p.severity, p.labels, p.cloudType))
    ensures var r := SearchAndCreate(p, index, net);
            r.result.Raised? <==>
              SearchIdOf(net(r.calls[0])).Raised? || (|r.calls| == 2 && net(r.calls[1]) == Failed(None))
    ensures var r := SearchAndCreate(p, index, net);
            r.result == Returned(true) <==>
              |r.calls| == 2 && net(r.calls[1]).Succeeded? && |net(r.calls[1]).body| > 0
  {
  }

  // ------------------------------------------------------------ the batch

  /** The columns the header must name before any row is read. */
  const RequiredColumns: seq<string> := ["RQL_QUERY", "POLICY_NAME", "POLICY_SEVERITY", "POLICY_LABELS", "POLICY_CLOUD_TYPE"]

  predicate HasRequiredColumns(header: seq<string>)
  {
    forall c :: c in RequiredColumns ==> c in header
  }

  /** Every row run makes its calls under its own row number. */
  predicate Tagged(runs: seq<RowRun>)
  {
    forall k, j :: 0 <= k < |runs| && 0 <= j < |runs[k].calls| ==> runs[k].calls[j].row == k
  }

  /** The run of every row, in row order, each processed on its own. */
  function RowRuns(rows: seq<Row>, net: Network): (runs: seq<RowRun>)
    ensures |runs| == |rows| && Tagged(runs)
    ensures forall k :: 0 <= k < |rows| ==> runs[k] == ProcessRow(rows[k], k, net)
  {
    seq(|rows|, k requires 0 <= k < |rows| => ProcessRow(rows[k], k, net))
  }

  /** Calls made and the two counters. */
  datatype Tally = Tally(calls: seq<Call>, processed: nat, failed: nat)

  /** The counting in `main`'s loop: a row whose processing returned true moves
      `processed`; one that returned false or raised anything moves `failed`. */
  function TallyRuns(runs: seq<RowRun>): (t: Tally)
    ensures t.processed + t.failed == |runs|
  {
    if runs == [] then Tally([], 0, 0)
    else
      var n := |runs| - 1;
      var before := TallyRuns(runs[..n]);
      if runs[n].result == Returned(true) then Tally(before.calls + runs[n].calls, before.processed + 1, before.failed)
      else Tally(before.calls + runs[n].calls, before.processed, before.failed + 1)
  }

  /** The rows whose processing returned true. */
  function Successes(runs: seq<RowRun>): set<nat>
  {
    set k | 0 <= k < |runs| && runs[k].result == Returned(true)
  }

  /** `processed` counts exactly the rows whose processing returned true, and
      `failed` every other row, whatever it raised. */
  lemma {:induction false} TallyCountsSuccesses(runs: seq<RowRun>)
    ensures TallyRuns(runs).processed == |Successes(runs)|
    ensures TallyRuns(runs).failed == |runs| - |Successes(runs)|
  {
    if runs != [] {
      var n := |runs| - 1;
      TallyCountsSuccesses(runs[..n]);
      var before := Successes(runs[..n]);
      assert n !in before;
      if runs[n].result == Returned(true) {
        assert Successes(runs) == before + {n};
      } else {
        assert Successes(runs) == before;
      }
    }
  }

  /** One more row moves exactly one counter and appends that row's calls. */
  lemma TallyStep(runs: seq<RowRun>, i: nat)
    requires i < |runs|
    ensures var before, after := TallyRuns(runs[..i]), TallyRuns(runs[..i + 1]);
            after.calls == before.calls + runs[i].calls &&
            (runs[i].result == Returned(true) ==> after.processed == before.processed + 1 && after.failed == before.failed) &&
            (runs[i].result != Returned(true) ==> after.processed == before.processed && after.failed == before.failed + 1)
  {
    assert runs[..i + 1][..i] == runs[..i];
  }

  /** How `main` ended. `LoginRaised` is the uncaught `ValueError` of a login
      response without a token. */
  datatype End = NoToken | LoginRaised | MissingColumns | Finished

  datatype Run = Run(calls: seq<Call>, processed: nat, failed: nat, end: End)

  /** `main`, as a function of the login outcome, the CSV header, the data rows
      and the remote service. */
  function RunSpec(login: HttpOutcome, header: seq<string>, rows: seq<Row>, net: Network): Run
  {
    match GetJwtToken(login)
    case Raised(_) => Run([], 0, 0, LoginRaised)
    case Returned(None) => Run([], 0, 0, NoToken)
    case Returned(Some(_)) =>
      if !HasRequiredColumns(header) then Run([], 0, 0, MissingColumns)
      else
        var t := TallyRuns(RowRuns(rows, net));
        Run(t.calls, t.processed, t.failed, Finished)
  }

  /** `main`: log in once, check the header, then process every row, counting
      each as processed or failed. */
  method RunBatch(login: HttpOutcome, header: seq<string>, rows: seq<Row>, net: Network) returns (run: Run)
    ensures run == RunSpec(login, header, rows, net)
    ensures run.end == Finished <==>
              GetJwtToken(login).Returned? && GetJwtToken(login).value.Some? && HasRequiredColumns(header)
    ensures run.end == Finished ==> run.processed + run.failed == |rows|
    ensures run.end != Finished ==> run.calls == [] && run.processed == 0 && run.failed == 0
  {
    var token := GetJwtToken(login);
    if token.Raised? {
      return Run([], 0, 0, LoginRaised);
    }
    if token.value.None? {
      return Run([], 0, 0, NoToken);
    }
    if !HasRequiredColumns(header) {
      return Run([], 0, 0, MissingColumns);
    }
    ghost var all := RowRuns(rows, net);
    var calls: seq<Call> := [];
    var processed, failed := 0, 0;
    var i := 0;
    while i < |rows|
      invariant i <= |rows|
      invariant TallyRuns(all[..i]) == Tally(calls, processed, failed)
    {
      var attempt := ProcessRow(rows[i], i, net);
      TallyStep(all, i);
      calls := calls + attempt.calls;
      if attempt.result == Returned(true) {
        processed := processed + 1;
      } else {
        // returned False, or raised KeyError or any other exception
        failed := failed + 1;
      }
      i := i + 1;
    }
    assert all[..i] == all;
    run := Run(calls, processed, failed, Finished);
  }

  // ------------------------------------------------------ batch properties

  /** The calls of row `i` within a trace. */
  function CallsOfRow(calls: seq<Call>, i: nat): (mine: seq<Call>)
    ensures |mine| <= |calls|
    ensures forall k :: 0 <= k < |mine| ==> mine[k].row == i && mine[k] in calls
  {
    if calls == [] then []
    else
      var n := |calls| - 1;
      CallsOfRow(calls[..n], i) + (if calls[n].row == i then [calls[n]] else [])
  }

  lemma {:induction false} CallsOfRowAppend(a: seq<Call>, b: seq<Call>, i: nat)
    ensures CallsOfRow(a + b, i) == CallsOfRow(a, i) + CallsOfRow(b, i)
    decreases |b|
  {
    if b == [] {
      assert a + b == a;
    } else {
      var n := |b| - 1;
      assert (a + b)[..|a + b| - 1] == a + b[..n];
      CallsOfRowAppend(a, b[..n], i);
    }
  }

  lemma {:induction false} CallsOfRowNone(calls: seq<Call>, i: nat)
    requires forall k :: 0 <= k < |calls| ==> calls[k].row != i
    ensures CallsOfRow(calls, i) == []
  {
    if calls != [] {
      CallsOfRowNone(calls[..|calls| - 1], i);
    }
  }

  lemma {:induction false} CallsOfRowAll(calls: seq<Call>, i: nat)
    requires forall k :: 0 <= k < |calls| ==> calls[k].row == i
    ensures CallsOfRow(calls, i) == calls
  {
    if calls != [] {
      var n := |calls| - 1;
      CallsOfRowAll(calls[..n], i);
      assert calls == calls[..n] + [calls[n]];
    }
  }

  /** Row runs are concatenated in row order: every call of the tally comes
      from one of the runs, under that run's row number. */
  lemma {:induction false} TallyCallsFromRuns(runs: seq<RowRun>)
    requires Tagged(runs)
    ensures forall k :: 0 <= k < |TallyRuns(runs).calls| ==> TallyRuns(runs).calls[k].row < |runs|
  {
    if runs != [] {
      var n := |runs| - 1;
      assert Tagged(runs[..n]);
      TallyCallsFromRuns(runs[..n]);
    }
  }

  /** Failure isolation: in the batch's trace, row `i` made exactly the calls
      it makes when processed on its own, whatever happened to other rows. */
  lemma {:induction false} RowIsolation(runs: seq<RowRun>, i: nat)
    requires Tagged(runs)
    requires i < |runs|
    ensures CallsOfRow(TallyRuns(runs).calls, i) == runs[i].calls
  {
    var n := |runs| - 1;
    var before := TallyRuns(runs[..n]);
    assert Tagged(runs[..n]);
    assert TallyRuns(runs).calls == before.calls + runs[n].calls;
    CallsOfRowAppend(before.calls, runs[n].calls, i);
    if i == n {
      TallyCallsFromRuns(runs[..n]);
      CallsOfRowNone(before.calls, i);
      CallsOfRowAll(runs[n].calls, i);
    } else {
      RowIsolation(runs[..n], i);
      CallsOfRowNone(runs[n].calls, i);
    }
  }

  /** Each row whose indexed columns are present reaches the search stage in
      the batch trace (the calls of a finished run), whether or not earlier
      rows failed. */
  lemma EveryReadableRowSearches(rows: seq<Row>, net: Network, i: nat)
    requires i < |rows| && ReadPolicyRow(rows[i]).Ok?
    ensures exists c :: c in TallyRuns(RowRuns(rows, net)).calls && c.row == i && c.request.PermissionSearch?
  {
    var runs := RowRuns(rows, net);
    var calls := TallyRuns(runs).calls;
    var mine := runs[i].calls;
    assert |mine| > 0 && mine[0].request.PermissionSearch? by {
      ProcessRowStages(rows[i], i, net);
      SearchAndCreateStages(RowFields(rows[i]), i, net);
    }
    assert CallsOfRow(calls, i) == mine by {
      RowIsolation(runs, i);
    }
    assert mine[0] in calls && mine[0].row == i;
  }

  /** When every row carries every header column (as `csv.DictReader` makes
      it) and the header passed the column check, no row raises `KeyError`. */
  lemma HeaderCheckRulesOutKeyError(header: seq<string>, row: Row, index: nat, net: Network)
    requires HasRequiredColumns(header)
    requires forall c :: c in header ==> c in row
    ensures !ProcessRow(row, index, net).result.Raised? || !ProcessRow(row, index, net).result.exc.KeyError?
  {
    assert forall c :: c in IndexedColumns ==> c in RequiredColumns;
  }
}
