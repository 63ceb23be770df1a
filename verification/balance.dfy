/**
 * `verifyAndRecoverContract` (balance.js:141-281): probe the registered address, and when
 * it holds no code deploy a replacement, replay the logged virtual balances onto it,
 * attach the latest limits and record the redeploy. Also the two small computations of
 * the balance checks: the distinct targets of a protocol and the virtual-over-actual excess.
 */
module Balance {
  import opened Wrappers
  import opened Seqs
  import opened Ordering
  import opened Records
  import opened Contract
  import opened Selection
  import opened Replay

  const RecoveryDescription: string := "Redeploy automático com recuperação de estado"

  function UpdatedAt(l: LimitsRecord): int {
    l.updatedAt
  }

  predicate LimitsOf(l: LimitsRecord, protocolAddress: string) {
    l.protocolAddress == Some(protocolAddress)
  }

  function IsLimitsFor(protocolAddress: string): LimitsRecord -> bool {
    l => LimitsOf(l, protocolAddress)
  }

  /**
   * The limits record of a protocol with the greatest `updatedAt`, the first of them in
   * the list when several share it; `None` when the protocol has none.
   */
  function LatestLimits(limits: seq<LimitsRecord>, protocolAddress: string): (r: Option<LimitsRecord>)
    ensures r.None? <==> forall l :: l in limits ==> l.protocolAddress != Some(protocolAddress)
    ensures r.Some? ==> r.value in limits && r.value.protocolAddress == Some(protocolAddress)
    ensures r.Some? ==> forall l :: l in limits && l.protocolAddress == Some(protocolAddress) ==> l.updatedAt <= r.value.updatedAt
  {
    var mine := Filter(IsLimitsFor(protocolAddress), limits);
    FilterMembers(IsLimitsFor(protocolAddress), limits);
    if |mine| == 0 then None
    else
      SortHead(UpdatedAt, mine);
      assert forall l :: l in mine ==> UpdatedAt(l) <= UpdatedAt(LatestOf(UpdatedAt, mine));
      Some(SortDesc(UpdatedAt, mine)[0])
  }

  /**
   * Among equally recent records the one listed first wins, as the stable sort keeps it
   * first: every record of the protocol listed before the chosen one is strictly older.
   */
  lemma LatestLimitsTieBreak(limits: seq<LimitsRecord>, protocolAddress: string)
    ensures var mine := Filter(IsLimitsFor(protocolAddress), limits);
      |mine| > 0 ==>
        var k := LatestIndex(UpdatedAt, mine);
        && LatestLimits(limits, protocolAddress) == Some(mine[k])
        && forall j :: 0 <= j < k ==> mine[j].updatedAt < mine[k].updatedAt
  {
    var mine := Filter(IsLimitsFor(protocolAddress), limits);
    if |mine| > 0 {
      SortHead(UpdatedAt, mine);
    }
  }

  /** `recoveryResults.limits`: looked up only when the data has a `limits` list. */
  function AttachedLimits(limits: Option<seq<LimitsRecord>>, protocolAddress: string): Option<LimitsRecord> {
    match limits
    case None => None
    case Some(ls) => LatestLimits(ls, protocolAddress)
  }

  /**
   * The registry after a recovery: the first entry with the probed address gets one more
   * history entry, every entry keeps its address.
   */
  function RecordRecovery(ps: seq<Protocol>, protocolAddress: string, entry: RedeployEntry): (r: seq<Protocol>)
    ensures |r| == |ps|
    ensures forall j :: 0 <= j < |ps| ==> r[j].address == ps[j].address
    ensures FindProtocol(ps, protocolAddress).None? ==> r == ps
    ensures FindProtocol(ps, protocolAddress).Some? ==>
      var i := FindProtocol(ps, protocolAddress).value;
      && r[i].History() == ps[i].History() + [entry]
      && r[i].tokenData == ps[i].tokenData
      && forall j :: 0 <= j < |ps| && j != i ==> r[j] == ps[j]
  {
    match FindProtocol(ps, protocolAddress)
    case None => ps
    case Some(i) => ps[i := AppendHistory(ps[i], entry)]
  }

  /** What the function returns: the address of the contract handle, and the data object after it. */
  datatype Recovered = Recovered(contract: string, data: Data)

  /**
   * The whole function. `code` is what `getCode` yields or throws; the environment gives
   * the deployment, the replay faults and the clock. Every error is rethrown.
   */
  function VerifyAndRecover(d: Data, protocolAddress: string, code: Result<string>, env: RecoveryEnv): (r: Result<Recovered>)
    ensures code.Failure? ==> r == Failure(code.error)
    ensures code.Success? && code.value != NoCode ==> r == Success(Recovered(protocolAddress, d))
    ensures code == Success(NoCode) && env.deployment.Failure? ==> r == Failure(env.deployment.error)
    ensures code == Success(NoCode) && env.deployment.Success? ==>
      && r.Success?
      && r.value.contract == env.deployment.value.address
      && |r.value.data.operations| == |d.operations| + 1
      && Extends(r.value.data.operations, d.operations)
      && r.value.data.limits == d.limits
      && r.value.data.targets == d.targets
      && r.value.data.metadata == d.metadata
      && |r.value.data.protocols| == |d.protocols|
      && (forall j :: 0 <= j < |d.protocols| ==> r.value.data.protocols[j].address == d.protocols[j].address)
  {
    match code
    case Failure(e) => Failure(e)
    case Success(c) =>
      if c != NoCode then Success(Recovered(protocolAddress, d))
      else
        match env.deployment
        case Failure(e) => Failure(e)
        case Success(dep) =>
          var results := ReplayResults(d.operations, protocolAddress, dep.ledger, env.oracle)
                           .(limits := AttachedLimits(d.limits, protocolAddress));
          var op := RedeployOperation(env.clock, protocolAddress, dep.address, RecoveryDescription, results);
          var entry := HistoryEntry(env.clock, protocolAddress, dep.address, results);
          assert (d.operations + [op])[..|d.operations|] == d.operations;
          Success(Recovered(dep.address, d.(operations := d.operations + [op],
                                            protocols := RecordRecovery(d.protocols, protocolAddress, entry))))
  }

  /**
   * The one record a recovery appends: a completed `REDEPLOY` from the probed address to
   * the new one, carrying the replay's results with the latest limits attached, and the
   * same results in the history entry of the registry entry.
   */
  lemma RecoveryRecord(d: Data, protocolAddress: string, env: RecoveryEnv)
    requires env.deployment.Success?
    ensures var r := VerifyAndRecover(d, protocolAddress, Success(NoCode), env);
      var op := r.value.data.operations[|d.operations|];
      var results := op.payload.results;
      && op.kind == RedeployKind && op.status == Completed
      && op.payload == RedeployDetails(protocolAddress, env.deployment.value.address, RecoveryDescription, results)
      && results == ReplayResults(d.operations, protocolAddress, env.deployment.value.ledger, env.oracle)
                      .(limits := AttachedLimits(d.limits, protocolAddress))
      && results.successful == |results.balances|
      && (FindProtocol(d.protocols, protocolAddress).Some? ==>
            var i := FindProtocol(d.protocols, protocolAddress).value;
            r.value.data.protocols[i].History()
              == d.protocols[i].History() + [RedeployEntry(protocolAddress, env.deployment.value.address, env.clock, RedeployReason, results)])
  {
    var dep := env.deployment.value;
    RunCounts(env.oracle, Start(dep.ledger), ReplayOrder(d.operations, protocolAddress));
  }

  /**
   * The `limits` key is set exactly when the data has a `limits` list holding a record
   * for the protocol, and then it is that protocol's most recent record.
   */
  lemma RecoveryAttachesLatestLimits(d: Data, protocolAddress: string, env: RecoveryEnv)
    requires env.deployment.Success?
    ensures var results := VerifyAndRecover(d, protocolAddress, Success(NoCode), env).value.data.operations[|d.operations|].payload.results;
      && (results.limits.Some? <==> d.limits.Some? && exists l :: l in d.limits.value && l.protocolAddress == Some(protocolAddress))
      && (results.limits.Some? ==>
            && results.limits.value in d.limits.value
            && forall l :: l in d.limits.value && l.protocolAddress == Some(protocolAddress) ==> l.updatedAt <= results.limits.value.updatedAt)
  {
  }

  /** The distinct truthy targets of a protocol's records, in first-occurrence order (`checkAllTargets`). */
  function AllTargets(ops: seq<Operation>, protocolAddress: string): (r: seq<string>)
    ensures forall i, j :: 0 <= i < j < |r| ==> r[i] != r[j]
    ensures forall t :: t in r <==> t != "" && exists op :: op in ops && op.targetAddress == Some(t) && op.protocolAddress == Some(protocolAddress)
  {
    Distinct(NamedTargets(ops, protocolAddress))
  }

  /** The targets of a protocol's records that have a non-empty one, in log order, repeats kept. */
  function NamedTargets(ops: seq<Operation>, protocolAddress: string): (r: seq<string>)
    ensures forall t :: t in r <==> t != "" && exists op :: op in ops && op.targetAddress == Some(t) && op.protocolAddress == Some(protocolAddress)
    decreases |ops|
  {
    if |ops| == 0 then []
    else
      var rest := NamedTargets(ops[1..], protocolAddress);
      assert forall op :: op in ops <==> op == ops[0] || op in ops[1..];
      match ops[0].targetAddress
      case Some(t) =>
        if t != "" && ops[0].protocolAddress == Some(protocolAddress) then [t] + rest else rest
      case None => rest
  }

  /** The difference printed when the virtual balance exceeds the actual one. */
  function Excess(virtual: nat, actual: nat): (r: Option<nat>)
    ensures r.Some? <==> virtual > actual
    ensures r.Some? ==> actual + r.value == virtual
  {
    if virtual > actual then Some(virtual - actual) else None
  }
}
