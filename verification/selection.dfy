/**
 * Which log records a recovery replays (balance.js:158-164, listTokens.js:184-190) and
 * which one wins for an account (balance.js:167-175, listTokens.js:86-89, 193-201):
 * keep the completed `CONFIGURE_VIRTUAL_BALANCE` records of the probed address, sort
 * them latest first, and take the first record per `targetAddress`.
 */
module Selection {
  import opened Wrappers
  import opened Seqs
  import opened Ordering
  import opened Records

  function Timestamp(op: Operation): int {
    op.timestamp
  }

  /** The key of the processed-address `Set`: the raw `targetAddress`, compared exactly. */
  function TargetOf(op: Operation): Option<string> {
    op.targetAddress
  }

  predicate IsCandidateFor(op: Operation, protocolAddress: string) {
    op.kind == ConfigureVirtualBalanceKind && op.status == Completed && op.protocolAddress == Some(protocolAddress)
  }

  function IsReplayCandidate(protocolAddress: string): Operation -> bool {
    op => IsCandidateFor(op, protocolAddress)
  }

  /** The filter step, in log order. */
  function Candidates(ops: seq<Operation>, protocolAddress: string): seq<Operation> {
    Filter(IsReplayCandidate(protocolAddress), ops)
  }

  /**
   * `virtualBalanceOps`: exactly the candidate records, each as often as in the log,
   * latest timestamp first.
   */
  function ReplayOrder(ops: seq<Operation>, protocolAddress: string): (r: seq<Operation>)
    ensures forall op :: op in r <==> op in ops && IsCandidateFor(op, protocolAddress)
    ensures multiset(r) == multiset(Candidates(ops, protocolAddress))
    ensures SortedDesc(Timestamp, r)
  {
    FilterMembers(IsReplayCandidate(protocolAddress), ops);
    SortDesc(Timestamp, Candidates(ops, protocolAddress))
  }

  /** The first record per target in replay order: what a replay keeps when no call fails. */
  function LatestPerTarget(ops: seq<Operation>, protocolAddress: string): seq<Operation> {
    DedupBy(TargetOf, ReplayOrder(ops, protocolAddress), {})
  }

  /** Records with equal timestamps are replayed in log order. */
  lemma EqualTimestampsKeepLogOrder(ops: seq<Operation>, protocolAddress: string, t: int)
    ensures Filter(KeyIs(Timestamp, t), ReplayOrder(ops, protocolAddress))
         == Filter(KeyIs(Timestamp, t), Candidates(ops, protocolAddress))
  {
    SortStable(Timestamp, Candidates(ops, protocolAddress), t);
  }

  /**
   * Last writer wins: for any target, the selection holds exactly one record for it if
   * some candidate names it, and that record is the latest candidate for it (among equal
   * timestamps the earliest in the log); otherwise none.
   */
  lemma LastWriterWins(ops: seq<Operation>, protocolAddress: string, target: Option<string>)
    ensures var f := Filter(KeyIs(TargetOf, target), Candidates(ops, protocolAddress));
      Filter(KeyIs(TargetOf, target), LatestPerTarget(ops, protocolAddress))
        == if |f| == 0 then [] else [LatestOf(Timestamp, f)]
  {
    var c := Candidates(ops, protocolAddress);
    var f := Filter(KeyIs(TargetOf, target), c);
    DedupKeepsFirst(TargetOf, ReplayOrder(ops, protocolAddress), {}, target);
    FilterSort(Timestamp, KeyIs(TargetOf, target), c);
    if |f| > 0 {
      SortHead(Timestamp, f);
    }
  }

  /** The selection is still latest first, so it is ordered by each target's latest timestamp. */
  lemma SelectionLatestFirst(ops: seq<Operation>, protocolAddress: string)
    ensures SortedDesc(Timestamp, LatestPerTarget(ops, protocolAddress))
  {
    SubsequenceSorted(Timestamp, LatestPerTarget(ops, protocolAddress), ReplayOrder(ops, protocolAddress));
  }

  /** Each selected record is the latest candidate for its own target. */
  lemma SelectedIsLatest(ops: seq<Operation>, protocolAddress: string, i: nat)
    requires i < |LatestPerTarget(ops, protocolAddress)|
    ensures var d := LatestPerTarget(ops, protocolAddress);
      var f := Filter(KeyIs(TargetOf, d[i].targetAddress), Candidates(ops, protocolAddress));
      |f| > 0 && d[i] == LatestOf(Timestamp, f)
  {
    var d := LatestPerTarget(ops, protocolAddress);
    var t := d[i].targetAddress;
    var f := Filter(KeyIs(TargetOf, t), Candidates(ops, protocolAddress));
    var g := Filter(KeyIs(TargetOf, t), d);
    LastWriterWins(ops, protocolAddress, t);
    FilterMembers(KeyIs(TargetOf, t), d);
    assert KeyIs(TargetOf, t)(d[i]);
    assert d[i] in d;
    assert d[i] in g;
    assert |f| > 0;
    assert g == [LatestOf(Timestamp, f)];
  }

  /** Every target named by a candidate record is selected. */
  lemma SelectionCoversTargets(ops: seq<Operation>, protocolAddress: string, op: Operation)
    requires op in ops && IsCandidateFor(op, protocolAddress)
    ensures exists i :: (0 <= i < |LatestPerTarget(ops, protocolAddress)|
      && LatestPerTarget(ops, protocolAddress)[i].targetAddress == op.targetAddress)
  {
    var d := LatestPerTarget(ops, protocolAddress);
    var t := op.targetAddress;
    LastWriterWins(ops, protocolAddress, t);
    var f := Filter(KeyIs(TargetOf, t), Candidates(ops, protocolAddress));
    FilterMembers(IsReplayCandidate(protocolAddress), ops);
    FilterMembers(KeyIs(TargetOf, t), Candidates(ops, protocolAddress));
    FilterMembers(KeyIs(TargetOf, t), d);
    assert op in Candidates(ops, protocolAddress);
    assert op in f;
    var latest := LatestOf(Timestamp, f);
    assert latest in Filter(KeyIs(TargetOf, t), d);
    var i :| 0 <= i < |d| && d[i] == latest;
  }
}
