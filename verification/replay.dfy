/**
 * The replay loop both recovery paths run (balance.js:166-202, listTokens.js:192-227),
 * the records they append afterwards, and the registry lookup they share.
 */
module Replay {
  import opened Wrappers
  import opened Seqs
  import opened Ordering
  import opened Decimal
  import opened Records
  import opened Contract
  import opened Selection

  /** How the new contract reacts when a given record is replayed against it. */
  type Oracle = Operation -> Fault

  /** What the outside world does during one recovery: the deployment or the error it throws, the contract's faults, the clock. */
  datatype RecoveryEnv = RecoveryEnv(deployment: Result<Deployment>, oracle: Oracle, clock: nat)

  /** The loop's variables: the new contract, `processedAddresses`, and the fields of `recoveryResults`. */
  datatype ReplayState = ReplayState(
    ledger: Ledger,
    processed: set<Option<string>>,
    successful: nat,
    failed: nat,
    balances: seq<BalanceResult>)

  function Start(initial: Ledger): ReplayState {
    ReplayState(initial, {}, 0, 0, [])
  }

  /** The amount the contract receives: the record's amount string read as an integer. */
  function AmountValue(op: Operation): Option<nat> {
    match op.amount
    case None => None
    case Some(a) => ParseDecimal(a)
  }

  /** `setVirtualBalance` does not throw: there is a target, a readable amount, and no fault on the call. */
  predicate SetGoesThrough(oracle: Oracle, op: Operation) {
    op.targetAddress.Some? && AmountValue(op).Some? && oracle(op) != SetFault
  }

  /** The whole try block completes: the set and both reads after it. */
  function Succeeds(oracle: Oracle): Operation -> bool {
    op => SetGoesThrough(oracle, op) && oracle(op) == NoFault
  }

  /** The entry pushed after a successful replay, read back from the contract. */
  function ResultFor(op: Operation, l: Ledger): BalanceResult {
    var account := op.targetAddress.GetOr("");
    var declared := BalanceOf(l, account);
    BalanceResult(op.targetAddress, op.amount, declared, ActualBalanceOf(l, account),
                  Some(DecimalString(declared)) == op.amount)
  }

  /**
   * The entry a successful replay of `op` produces on a contract with the given actual
   * balances, whatever the declared balances were before.
   */
  function Entry(actual: map<string, nat>, op: Operation): BalanceResult {
    var v := AmountValue(op).GetOr(0);
    BalanceResult(op.targetAddress, op.amount, v, Lookup(actual, op.targetAddress.GetOr("")),
                  Some(DecimalString(v)) == op.amount)
  }

  function EntryFor(actual: map<string, nat>): Operation -> BalanceResult {
    op => Entry(actual, op)
  }

  /** One iteration of the loop over the records, latest first. */
  function Attempt(oracle: Oracle, st: ReplayState, op: Operation): ReplayState
  {
    if op.targetAddress in st.processed then st
    else if !SetGoesThrough(oracle, op) then st.(failed := st.failed + 1)
    else
      var ledger := SetVirtualBalance(st.ledger, op.targetAddress.value, AmountValue(op).value);
      if oracle(op) == ReadFault then
        st.(ledger := ledger, failed := st.failed + 1)
      else
        st.(ledger := ledger, processed := st.processed + {op.targetAddress},
            successful := st.successful + 1, balances := st.balances + [ResultFor(op, ledger)])
  }

  /**
   * What one iteration changes: nothing for a processed target; for a successful replay
   * one entry, one to `successful` and the target marked processed; for any throw one
   * to `failed` only. The actual balances never change.
   */
  lemma AttemptOutcome(oracle: Oracle, st: ReplayState, op: Operation)
    ensures var r := Attempt(oracle, st, op);
      && (op.targetAddress in st.processed ==> r == st)
      && r.ledger.actual == st.ledger.actual
      && (r.successful == st.successful + 1 <==> op.targetAddress !in st.processed && Succeeds(oracle)(op))
      && (r.failed == st.failed + 1 <==> op.targetAddress !in st.processed && !Succeeds(oracle)(op))
      && (r.failed != st.failed ==>
        r.processed == st.processed && r.successful == st.successful && r.balances == st.balances)
      && (r.successful != st.successful ==>
        r.processed == st.processed + {op.targetAddress} && r.failed == st.failed
        && r.balances == st.balances + [Entry(st.ledger.actual, op)])
  {
  }

  /** The whole loop: every record is visited, none aborts it. */
  function Run(oracle: Oracle, st: ReplayState, ops: seq<Operation>): ReplayState
    decreases |ops|
  {
    if |ops| == 0 then st else Run(oracle, Attempt(oracle, st, ops[0]), ops[1..])
  }

  /**
   * What the loop replays: for each target not yet processed, the first record for it
   * whose attempt succeeds. A failed attempt leaves its target open, so the next older
   * record for the same target is tried.
   */
  lemma {:induction false} RunKeepsFirstSuccessPerTarget(oracle: Oracle, st: ReplayState, ops: seq<Operation>)
    ensures var r := Run(oracle, st, ops);
      var kept := DedupBy(TargetOf, Filter(Succeeds(oracle), ops), st.processed);
      && r.balances == st.balances + Map(EntryFor(st.ledger.actual), kept)
      && r.successful == st.successful + |kept|
      && r.ledger.actual == st.ledger.actual
    decreases |ops|
  {
    if |ops| > 0 {
      var op, tail := ops[0], ops[1..];
      var next := Attempt(oracle, st, op);
      var f := EntryFor(st.ledger.actual);
      var added := op.targetAddress !in st.processed && Succeeds(oracle)(op);
      RunKeepsFirstSuccessPerTarget(oracle, next, tail);
      AttemptOutcome(oracle, st, op);
      SplitHead(ops);
      RunCons(oracle, st, op, tail);
      KeptCons(oracle, op, tail, st.processed);
      StepAlgebra(st, next, Run(oracle, next, tail), op, f,
        DedupBy(TargetOf, Filter(Succeeds(oracle), tail), next.processed),
        DedupBy(TargetOf, Filter(Succeeds(oracle), ops), st.processed), added);
    }
  }

  /** The bookkeeping of one step of `RunKeepsFirstSuccessPerTarget`, on the states alone. */
  lemma StepAlgebra(st: ReplayState, next: ReplayState, rn: ReplayState, op: Operation,
                    f: Operation -> BalanceResult, keptTail: seq<Operation>, keptAll: seq<Operation>, added: bool)
    requires added ==> (next.balances == st.balances + [f(op)] && next.successful == st.successful + 1
      && keptAll == [op] + keptTail)
    requires !added ==> next.balances == st.balances && next.successful == st.successful && keptAll == keptTail
    requires rn.balances == next.balances + Map(f, keptTail) && rn.successful == next.successful + |keptTail|
    ensures rn.balances == st.balances + Map(f, keptAll) && rn.successful == st.successful + |keptAll|
  {
    if added {
      MapCons(f, op, keptTail);
      AppendAssoc(st.balances, [f(op)], Map(f, keptTail));
    }
  }

  lemma RunCons(oracle: Oracle, st: ReplayState, op: Operation, tail: seq<Operation>)
    ensures Run(oracle, st, [op] + tail) == Run(oracle, Attempt(oracle, st, op), tail)
  {
    assert ([op] + tail)[0] == op && ([op] + tail)[1..] == tail;
  }

  /** The records kept from `[op] + tail`: `op` itself when its target is new and its attempt succeeds. */
  lemma KeptCons(oracle: Oracle, op: Operation, tail: seq<Operation>, seen: set<Option<string>>)
    ensures DedupBy(TargetOf, Filter(Succeeds(oracle), [op] + tail), seen) ==
      if op.targetAddress !in seen && Succeeds(oracle)(op)
      then [op] + DedupBy(TargetOf, Filter(Succeeds(oracle), tail), seen + {op.targetAddress})
      else DedupBy(TargetOf, Filter(Succeeds(oracle), tail), seen)
  {
    FilterCons(Succeeds(oracle), op, tail);
    DedupCons(TargetOf, op, Filter(Succeeds(oracle), tail), seen);
  }

  /** `successful` counts the entries in `balances`, whatever fails. */
  lemma {:induction false} RunCounts(oracle: Oracle, st: ReplayState, ops: seq<Operation>)
    requires st.successful == |st.balances|
    ensures Run(oracle, st, ops).successful == |Run(oracle, st, ops).balances|
    decreases |ops|
  {
    if |ops| > 0 {
      RunCounts(oracle, Attempt(oracle, st, ops[0]), ops[1..]);
    }
  }

  /** When every attempt throws, every record is counted as failed and nothing is recorded. */
  lemma {:induction false} RunWhenEveryAttemptFails(oracle: Oracle, st: ReplayState, ops: seq<Operation>)
    requires forall op :: op in ops ==> !Succeeds(oracle)(op) && op.targetAddress !in st.processed
    ensures var r := Run(oracle, st, ops);
      r.failed == st.failed + |ops| && r.successful == st.successful && r.balances == st.balances
    decreases |ops|
  {
    if |ops| > 0 {
      assert ops[0] in ops;
      RunWhenEveryAttemptFails(oracle, Attempt(oracle, st, ops[0]), ops[1..]);
    }
  }

  /** When no attempt throws, nothing is counted as failed. */
  lemma {:induction false} RunWhenNoAttemptFails(oracle: Oracle, st: ReplayState, ops: seq<Operation>)
    requires forall op :: op in ops ==> Succeeds(oracle)(op)
    ensures Run(oracle, st, ops).failed == st.failed
    decreases |ops|
  {
    if |ops| > 0 {
      assert ops[0] in ops;
      RunWhenNoAttemptFails(oracle, Attempt(oracle, st, ops[0]), ops[1..]);
    }
  }

  /**
   * What the loop keeps true of its variables: one entry per success, every entry's
   * target processed and distinct from the others', and each entry's `recovered` flag
   * saying whether the read-back balance prints as the recorded amount.
   */
  ghost predicate Consistent(st: ReplayState) {
    && st.successful == |st.balances|
    && (forall j :: 0 <= j < |st.balances| ==> st.balances[j].address in st.processed)
    && (forall j, k :: 0 <= j < k < |st.balances| ==> st.balances[j].address != st.balances[k].address)
    && (forall b :: b in st.balances ==>
      b.address.Some? && (b.recovered <==> b.expectedAmount == Some(DecimalString(b.virtualBalance))))
  }

  lemma AttemptKeepsConsistent(oracle: Oracle, st: ReplayState, op: Operation)
    requires Consistent(st)
    ensures var r := Attempt(oracle, st, op);
      Consistent(r) && r.successful + r.failed <= st.successful + st.failed + 1
      && r.ledger.actual == st.ledger.actual
  {
    var r := Attempt(oracle, st, op);
    if r.balances != st.balances {
      var e := ResultFor(op, r.ledger);
      assert r.balances == st.balances + [e];
      assert e.address == op.targetAddress && op.targetAddress !in st.processed;
      forall b | b in r.balances
        ensures b.address.Some? && (b.recovered <==> b.expectedAmount == Some(DecimalString(b.virtualBalance)))
      {
        if b != e { assert b in st.balances; }
      }
    }
  }

  /**
   * The loop as written: the counters, the processed set and the accumulated balances
   * over the records latest first, computing what `Run` describes.
   */
  method ReplayRecords(oracle: Oracle, initial: Ledger, ops: seq<Operation>) returns (results: RecoveryResults, ledger: Ledger)
    ensures results.successful == |results.balances|
    ensures results.successful + results.failed <= |ops|
    ensures results.limits == None
    ensures forall i, j :: 0 <= i < j < |results.balances| ==> results.balances[i].address != results.balances[j].address
    ensures forall b :: b in results.balances ==>
      b.address.Some? && (b.recovered <==> b.expectedAmount == Some(DecimalString(b.virtualBalance)))
    ensures ledger.actual == initial.actual
    ensures var st := Run(oracle, Start(initial), ops);
      results == RecoveryResults(st.successful, st.failed, st.balances, None) && ledger == st.ledger
  {
    var processed: set<Option<string>> := {};
    var successful: nat, failed: nat := 0, 0;
    var balances: seq<BalanceResult> := [];
    ledger := initial;
    var i := 0;
    while i < |ops|
      invariant i <= |ops|
      invariant Run(oracle, ReplayState(ledger, processed, successful, failed, balances), ops[i..])
             == Run(oracle, Start(initial), ops)
      invariant Consistent(ReplayState(ledger, processed, successful, failed, balances))
      invariant successful + failed <= i
      invariant ledger.actual == initial.actual
    {
      var op := ops[i];
      ghost var before := ReplayState(ledger, processed, successful, failed, balances);
      if op.targetAddress !in processed {
        if SetGoesThrough(oracle, op) {
          ledger := SetVirtualBalance(ledger, op.targetAddress.value, AmountValue(op).value);
          if oracle(op) == ReadFault {
            failed := failed + 1;
          } else {
            balances := balances + [ResultFor(op, ledger)];
            successful := successful + 1;
            processed := processed + {op.targetAddress};
          }
        } else {
          failed := failed + 1;
        }
      }
      assert ReplayState(ledger, processed, successful, failed, balances) == Attempt(oracle, before, op);
      AttemptKeepsConsistent(oracle, before, op);
      SplitHead(ops[i..]);
      assert ops[i..][1..] == ops[i + 1..];
      i := i + 1;
    }
    results := RecoveryResults(successful, failed, balances, None);
  }

  /** `recoveryResults` of a replay against a contract deployed in state `initial`, before any limits are attached. */
  function ReplayResults(ops: seq<Operation>, protocolAddress: string, initial: Ledger, oracle: Oracle): RecoveryResults
  {
    var st := Run(oracle, Start(initial), ReplayOrder(ops, protocolAddress));
    RecoveryResults(st.successful, st.failed, st.balances, None)
  }

  /** When no replay call throws, the replay records exactly the selection, in order. */
  lemma ReplayMatchesSelection(ops: seq<Operation>, protocolAddress: string, initial: Ledger, oracle: Oracle)
    requires forall op :: op in ops && IsCandidateFor(op, protocolAddress) ==> Succeeds(oracle)(op)
    ensures var r := ReplayResults(ops, protocolAddress, initial, oracle);
      && r.failed == 0
      && r.successful == |r.balances|
      && r.balances == Map(EntryFor(initial.actual), LatestPerTarget(ops, protocolAddress))
  {
    var order := ReplayOrder(ops, protocolAddress);
    FilterAll(Succeeds(oracle), order);
    RunKeepsFirstSuccessPerTarget(oracle, Start(initial), order);
    RunWhenNoAttemptFails(oracle, Start(initial), order);
  }

  /** A replayed entry carries the record's amount string, and reads as recovered exactly when that string is canonical. */
  lemma EntrySpelling(actual: map<string, nat>, op: Operation)
    requires AmountValue(op).Some?
    ensures Entry(actual, op).address == op.targetAddress
    ensures Entry(actual, op).expectedAmount == op.amount
    ensures Entry(actual, op).recovered <==> Canonical(op.amount.value)
  {
    PrintsAs(AmountValue(op).value, op.amount.value);
  }

  /** Each entry of the selection's replay holds the amount of the latest candidate for its target. */
  lemma SelectedEntryIsLatest(ops: seq<Operation>, protocolAddress: string, oracle: Oracle, actual: map<string, nat>, i: nat)
    requires forall op :: op in ops && IsCandidateFor(op, protocolAddress) ==> Succeeds(oracle)(op)
    requires i < |LatestPerTarget(ops, protocolAddress)|
    ensures var op := LatestPerTarget(ops, protocolAddress)[i];
      var f := Filter(KeyIs(TargetOf, op.targetAddress), Candidates(ops, protocolAddress));
      && |f| > 0
      && op.amount.Some?
      && Entry(actual, op).address == op.targetAddress
      && Entry(actual, op).expectedAmount == LatestOf(Timestamp, f).amount
      && (Entry(actual, op).recovered <==> Canonical(op.amount.value))
  {
    var d := LatestPerTarget(ops, protocolAddress);
    var op := d[i];
    SelectedIsLatest(ops, protocolAddress, i);
    assert op in ReplayOrder(ops, protocolAddress);
    assert Succeeds(oracle)(op);
    EntrySpelling(actual, op);
  }

  /** The entries recorded for the selection, one per selected record. */
  lemma SelectionEntriesPointwise(ops: seq<Operation>, protocolAddress: string, actual: map<string, nat>)
    ensures var d := LatestPerTarget(ops, protocolAddress);
      var bs := Map(EntryFor(actual), d);
      && |bs| == |d|
      && forall i :: 0 <= i < |bs| ==> bs[i] == Entry(actual, d[i]) && bs[i].address == d[i].targetAddress
  {
  }

  /** Every target named by a candidate has an entry in the selection's replay. */
  lemma SelectionEntriesCover(ops: seq<Operation>, protocolAddress: string, actual: map<string, nat>, op: Operation)
    requires op in ops && IsCandidateFor(op, protocolAddress)
    ensures var bs := Map(EntryFor(actual), LatestPerTarget(ops, protocolAddress));
      exists i :: 0 <= i < |bs| && bs[i].address == op.targetAddress
  {
    var d := LatestPerTarget(ops, protocolAddress);
    SelectionEntriesPointwise(ops, protocolAddress, actual);
    SelectionCoversTargets(ops, protocolAddress, op);
    var i :| 0 <= i < |d| && d[i].targetAddress == op.targetAddress;
    assert Map(EntryFor(actual), d)[i].address == op.targetAddress;
  }

  /**
   * The entries a replay of the selection records, when no call throws: one per target
   * named by a candidate, each with the amount of that target's latest candidate, and
   * `recovered` exactly when that amount is spelled the way the read-back balance prints.
   */
  lemma SelectionEntries(ops: seq<Operation>, protocolAddress: string, oracle: Oracle, actual: map<string, nat>)
    requires forall op :: op in ops && IsCandidateFor(op, protocolAddress) ==> Succeeds(oracle)(op)
    ensures var bs := Map(EntryFor(actual), LatestPerTarget(ops, protocolAddress));
      && (forall i, j :: 0 <= i < j < |bs| ==> bs[i].address != bs[j].address)
      && (forall op :: op in ops && IsCandidateFor(op, protocolAddress) ==>
            exists i :: 0 <= i < |bs| && bs[i].address == op.targetAddress)
      && (forall i :: 0 <= i < |bs| ==>
            var f := Filter(KeyIs(TargetOf, bs[i].address), Candidates(ops, protocolAddress));
            && |f| > 0
            && bs[i].expectedAmount == LatestOf(Timestamp, f).amount
            && bs[i].expectedAmount.Some?
            && (bs[i].recovered <==> Canonical(bs[i].expectedAmount.value)))
  {
    var d := LatestPerTarget(ops, protocolAddress);
    var bs := Map(EntryFor(actual), d);
    SelectionEntriesPointwise(ops, protocolAddress, actual);
    forall i | 0 <= i < |bs|
      ensures var f := Filter(KeyIs(TargetOf, bs[i].address), Candidates(ops, protocolAddress));
        && |f| > 0
        && bs[i].expectedAmount == LatestOf(Timestamp, f).amount
        && bs[i].expectedAmount.Some?
        && (bs[i].recovered <==> Canonical(bs[i].expectedAmount.value))
    {
      SelectedEntryIsLatest(ops, protocolAddress, oracle, actual, i);
    }
    forall op | op in ops && IsCandidateFor(op, protocolAddress)
      ensures exists i :: 0 <= i < |bs| && bs[i].address == op.targetAddress
    {
      SelectionEntriesCover(ops, protocolAddress, actual, op);
    }
  }

  /**
   * When no replay call throws, every target of a candidate record is replayed exactly
   * once, with the amount of its latest record, and nothing fails.
   */
  lemma RecoveryReplaysLatestAmounts(ops: seq<Operation>, protocolAddress: string, initial: Ledger, oracle: Oracle)
    requires forall op :: op in ops && IsCandidateFor(op, protocolAddress) ==> Succeeds(oracle)(op)
    ensures var r := ReplayResults(ops, protocolAddress, initial, oracle);
      && r.failed == 0
      && r.successful == |r.balances|
      && (forall i, j :: 0 <= i < j < |r.balances| ==> r.balances[i].address != r.balances[j].address)
      && (forall op :: op in ops && IsCandidateFor(op, protocolAddress) ==>
            exists i :: 0 <= i < |r.balances| && r.balances[i].address == op.targetAddress)
      && (forall i :: 0 <= i < |r.balances| ==>
            var f := Filter(KeyIs(TargetOf, r.balances[i].address), Candidates(ops, protocolAddress));
            && |f| > 0
            && r.balances[i].expectedAmount == LatestOf(Timestamp, f).amount
            && r.balances[i].expectedAmount.Some?
            && (r.balances[i].recovered <==> Canonical(r.balances[i].expectedAmount.value)))
  {
    ReplayMatchesSelection(ops, protocolAddress, initial, oracle);
    SelectionEntries(ops, protocolAddress, oracle, initial.actual);
  }

  /** `data.protocols.findIndex(p => p.address === protocolAddress)`. */
  function FindProtocol(protocols: seq<Protocol>, address: string): (r: Option<nat>)
    ensures r.None? <==> forall i :: 0 <= i < |protocols| ==> protocols[i].address != address
    ensures r.Some? ==> r.value < |protocols| && protocols[r.value].address == address
    ensures r.Some? ==> forall i :: 0 <= i < r.value ==> protocols[i].address != address
    decreases |protocols|
  {
    if |protocols| == 0 then None
    else if protocols[0].address == address then Some(0)
    else
      match FindProtocol(protocols[1..], address)
      case None => None
      case Some(i) => Some(i + 1)
  }

  const RedeployReason: string := "Network restart recovery"

  /** The `REDEPLOY` operation appended after a replay. */
  function RedeployOperation(clock: nat, original: string, newAddress: string, description: string, results: RecoveryResults): Operation {
    Operation(StampedId("redeploy_", clock), RedeployKind, clock, Completed, None, None, None,
              RedeployDetails(original, newAddress, description, results))
  }

  /** `{ ...p, redeployHistory: [...(p.redeployHistory || []), entry] }`. */
  function AppendHistory(p: Protocol, entry: RedeployEntry): (r: Protocol)
    ensures r.address == p.address && r.tokenData == p.tokenData && r.timestamp == p.timestamp
    ensures r.History() == p.History() + [entry]
  {
    p.(redeployHistory := Some(p.History() + [entry]))
  }

  /** The entry appended to the registry entry's `redeployHistory`. */
  function HistoryEntry(clock: nat, original: string, newAddress: string, results: RecoveryResults): RedeployEntry {
    RedeployEntry(original, newAddress, clock, RedeployReason, results)
  }
}
