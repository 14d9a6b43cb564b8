/** Submitting a statement to Athena and waiting for it. The Athena client is not called:
    the reply to the submission and the replies of successive `GetQueryExecution`
    calls are parameters, and the 100 ms pause between two calls is counted, not
    slept. */
module QueryRunner {
  import opened Wrappers

  /** What one `GetQueryExecution` call reports: `Status.State` and
      `Status.StateChangeReason` (absent is `None`). */
  datatype Status = Status(state: string, stateChangeReason: Option<string>)

  /** One awaited `GetQueryExecution` call: it resolves with a status, or its promise
      rejects (throttling, the network, an unknown id) with an error of this message. */
  datatype Fetch = Fetched(status: Status) | FetchRejected(error: string)

  /** How waiting ends: the promise resolves, it rejects with an `Error` of this message,
      or the fetches given ran out while the query was still running (the loop has no
      bound, so polling would go on). */
  datatype Outcome = Returned | Threw(message: string) | StillPolling

  predicate IsTerminal(state: string) {
    state == "SUCCEEDED" || state == "FAILED" || state == "CANCELLED"
  }

  /** A fetch that ends the loop: a rejected call, or a terminal status. */
  predicate Decides(f: Fetch) {
    f.FetchRejected? || IsTerminal(f.status.state)
  }

  predicate Succeeded(f: Fetch) {
    f.Fetched? && f.status.state == "SUCCEEDED"
  }

  /** The `k`-th fetch is the first one that ends the loop. */
  predicate FirstDecisiveAt(observed: seq<Fetch>, k: int) {
    && 0 <= k < |observed| && Decides(observed[k])
    && forall j :: 0 <= j < k ==> !Decides(observed[j])
  }

  /** A missing reason renders as "undefined" in the template. */
  function ReasonText(reason: Option<string>): string {
    if reason.None? then "undefined" else reason.value
  }

  function FailureMessage(id: string, reason: Option<string>): string {
    "Query " + id + " failed: " + ReasonText(reason)
  }

  /** The index of the first fetch that rejects or reports a terminal status. */
  function FirstDecisive(observed: seq<Fetch>): (k: Option<nat>)
    ensures k.Some? ==> FirstDecisiveAt(observed, k.value)
    ensures k.None? ==> forall j :: 0 <= j < |observed| ==> !Decides(observed[j])
  {
    if observed == [] then None
    else if Decides(observed[0]) then Some(0)
    else
      var rest := FirstDecisive(observed[1..]);
      if rest.None? then None else Some(rest.value + 1)
  }

  /** The outcome is decided by the first deciding fetch alone. */
  function PollOutcome(id: string, observed: seq<Fetch>): Outcome {
    match FirstDecisive(observed)
    case None => StillPolling
    case Some(k) =>
      match observed[k]
      case FetchRejected(error) => Threw(error)
      case Fetched(status) =>
        if status.state == "SUCCEEDED" then Returned
        else Threw(FailureMessage(id, status.stateChangeReason))
  }

  /** Fetch the status, passing on a rejected call; stop on a terminal status; otherwise
      wait and fetch again. If the `k`-th fetch decides, that takes `k + 1` fetches and
      `k` waits. */
  method WaitForQueryExecution(id: string, observed: seq<Fetch>) returns (outcome: Outcome, fetches: nat, waits: nat)
    ensures outcome == PollOutcome(id, observed)
    ensures FirstDecisive(observed).Some? ==>
      fetches == FirstDecisive(observed).value + 1 && waits == FirstDecisive(observed).value
    ensures FirstDecisive(observed).None? ==> fetches == |observed| && waits == |observed|
  {
    fetches, waits := 0, 0;
    while fetches < |observed|
      invariant waits == fetches <= |observed|
      invariant forall j :: 0 <= j < fetches ==> !Decides(observed[j])
    {
      var fetch := observed[fetches];
      fetches := fetches + 1;
      match fetch {
        case FetchRejected(error) =>
          DecisiveAt(observed, fetches - 1);
          return Threw(error), fetches, waits;
        case Fetched(status) =>
          if status.state == "SUCCEEDED" {
            DecisiveAt(observed, fetches - 1);
            return Returned, fetches, waits;
          } else if status.state == "FAILED" || status.state == "CANCELLED" {
            DecisiveAt(observed, fetches - 1);
            return Threw(FailureMessage(id, status.stateChangeReason)), fetches, waits;
          }
      }
      waits := waits + 1;
    }
    outcome := StillPolling;
  }

  /** The first deciding fetch is the one after a run of fetches that decide nothing. */
  lemma DecisiveAt(observed: seq<Fetch>, k: nat)
    requires FirstDecisiveAt(observed, k)
    ensures FirstDecisive(observed) == Some(k)
  {
    var r := FirstDecisive(observed);
    assert r.Some?;
    assert r.value == k;
  }

  /** Four cases. Waiting returns exactly when a `SUCCEEDED` status comes before any other
      deciding fetch. It throws exactly when a rejected call, a `FAILED` or a `CANCELLED`
      comes first: with the call's error in the first case and with that status's reason
      otherwise. It keeps polling exactly when no fetch decides. */
  lemma PollOutcomeCases(id: string, observed: seq<Fetch>)
    ensures PollOutcome(id, observed) == Returned <==>
      exists k :: FirstDecisiveAt(observed, k) && Succeeded(observed[k])
    ensures PollOutcome(id, observed).Threw? <==>
      exists k :: FirstDecisiveAt(observed, k) && !Succeeded(observed[k])
    ensures forall k :: FirstDecisiveAt(observed, k) && observed[k].FetchRejected? ==>
      PollOutcome(id, observed) == Threw(observed[k].error)
    ensures forall k :: FirstDecisiveAt(observed, k) && observed[k].Fetched? && !Succeeded(observed[k]) ==>
      PollOutcome(id, observed) == Threw(FailureMessage(id, observed[k].status.stateChangeReason))
    ensures PollOutcome(id, observed) == StillPolling <==>
      forall j :: 0 <= j < |observed| ==> !Decides(observed[j])
  {
    forall k | FirstDecisiveAt(observed, k)
      ensures FirstDecisive(observed) == Some(k)
    {
      DecisiveAt(observed, k);
    }
  }

  /** A non-terminal status, whatever its text (`QUEUED`, `RUNNING` or anything else),
      costs one wait and one more fetch and decides nothing. */
  lemma NonTerminalWaits(id: string, s: Status, rest: seq<Fetch>)
    requires !IsTerminal(s.state)
    ensures FirstDecisive([Fetched(s)] + rest) ==
      (if FirstDecisive(rest).None? then None else Some(FirstDecisive(rest).value + 1))
    ensures PollOutcome(id, [Fetched(s)] + rest) == PollOutcome(id, rest)
  {
    var all := [Fetched(s)] + rest;
    assert all[0] == Fetched(s) && all[1..] == rest;
    assert FirstDecisive(all) == (if FirstDecisive(rest).None? then None else Some(FirstDecisive(rest).value + 1));
    if FirstDecisive(rest).Some? {
      var k := FirstDecisive(rest).value;
      assert all[k + 1] == rest[k];
    }
  }

  /** Fetches after the deciding one are never made: they change nothing. */
  lemma LaterStatusesIgnored(id: string, observed: seq<Fetch>, later: seq<Fetch>)
    requires FirstDecisive(observed).Some?
    ensures FirstDecisive(observed + later) == FirstDecisive(observed)
    ensures PollOutcome(id, observed + later) == PollOutcome(id, observed)
  {
    var k := FirstDecisive(observed).value;
    assert (observed + later)[k] == observed[k];
    assert FirstDecisiveAt(observed + later, k);
    DecisiveAt(observed + later, k);
  }

  // ---------------------------------------------------------------------------
  // Submitting

  /** `StartQueryExecution` parameters: the statement and the results location (absent
      when the variable is unset). */
  datatype StartRequest = StartRequest(queryString: string, outputLocation: Option<string>)

  /** The reply to the submission: the new query's id, or a rejection. */
  datatype SubmitReply = Started(queryExecutionId: string) | SubmitFailed(error: string)

  /** Submit the statement verbatim, then wait for the id the submission returned; a
      rejected submission is passed on and nothing is polled. */
  method RunQuery(query: string, location: Option<string>, reply: SubmitReply, observed: seq<Fetch>)
    returns (request: StartRequest, polled: Option<string>, outcome: Outcome, fetches: nat, waits: nat)
    ensures request == StartRequest(query, location)
    ensures reply.SubmitFailed? ==> polled == None && outcome == Threw(reply.error) && fetches == 0 && waits == 0
    ensures reply.Started? ==> polled == Some(reply.queryExecutionId) && outcome == PollOutcome(reply.queryExecutionId, observed)
    ensures reply.Started? && FirstDecisive(observed).Some? ==>
      fetches == FirstDecisive(observed).value + 1 && waits == FirstDecisive(observed).value
  {
    request := StartRequest(query, location);
    match reply {
      case SubmitFailed(error) =>
        return request, None, Threw(error), 0, 0;
      case Started(id) =>
        polled := Some(id);
        outcome, fetches, waits := WaitForQueryExecution(id, observed);
    }
  }
}
