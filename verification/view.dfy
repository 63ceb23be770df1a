/**
 * view.js: the read-only views of the log. `viewOperations` filters the operations by the
 * chosen criterion; the choosers offer the distinct protocol addresses and types found in
 * the log, or the three statuses; `getStatusColor` picks the colour of a status.
 */
module View {
  import opened Wrappers
  import opened Seqs
  import opened Records

  /** The view menu's values; the wall-clock `recent` view is not part of this model. */
  datatype ViewChoice = All | ByProtocol | ByType | ByStatus | ExportOperations | Back

  /** What the call ends with: a listing under a caption, the log handed to the export, or nothing. */
  datatype Outcome = Shown(operations: seq<Operation>, filterInfo: string) | Exported(operations: seq<Operation>) | NothingShown

  function ProtocolOf(op: Operation): Option<string> {
    op.protocolAddress
  }

  function KindOf(op: Operation): string {
    op.kind
  }

  /** The protocol chooser: `[...new Set(operations.map(op => op.protocolAddress))]`. */
  function ProtocolChoices(ops: seq<Operation>): (r: seq<Option<string>>)
    ensures forall i, j :: 0 <= i < j < |r| ==> r[i] != r[j]
    ensures forall a :: a in r <==> exists op :: op in ops && op.protocolAddress == a
  {
    var all := Map(ProtocolOf, ops);
    assert forall a :: a in all <==> exists op :: op in ops && op.protocolAddress == a by {
      forall a | a in all ensures exists op :: op in ops && op.protocolAddress == a {
        var i :| 0 <= i < |all| && all[i] == a;
        assert ops[i] in ops;
      }
      forall a | exists op :: op in ops && op.protocolAddress == a ensures a in all {
        var op :| op in ops && op.protocolAddress == a;
        var i :| 0 <= i < |ops| && ops[i] == op;
        assert all[i] == a;
      }
    }
    Distinct(all)
  }

  /** The type chooser: `[...new Set(operations.map(op => op.type))]`. */
  function TypeChoices(ops: seq<Operation>): (r: seq<string>)
    ensures forall i, j :: 0 <= i < j < |r| ==> r[i] != r[j]
    ensures forall k :: k in r <==> exists op :: op in ops && op.kind == k
  {
    var all := Map(KindOf, ops);
    assert forall k :: k in all <==> exists op :: op in ops && op.kind == k by {
      forall k | k in all ensures exists op :: op in ops && op.kind == k {
        var i :| 0 <= i < |all| && all[i] == k;
        assert ops[i] in ops;
      }
      forall k | exists op :: op in ops && op.kind == k ensures k in all {
        var op :| op in ops && op.kind == k;
        var i :| 0 <= i < |ops| && ops[i] == op;
        assert all[i] == k;
      }
    }
    Distinct(all)
  }

  /**
   * The choosers list values in order of first appearance: a newly logged operation adds
   * its protocol address and its type at the end when they are new, and nothing otherwise.
   */
  lemma ChoicesInFirstOccurrenceOrder(ops: seq<Operation>, op: Operation)
    ensures ProtocolChoices(ops + [op])
         == ProtocolChoices(ops) + (if op.protocolAddress in Map(ProtocolOf, ops) then [] else [op.protocolAddress])
    ensures TypeChoices(ops + [op])
         == TypeChoices(ops) + (if op.kind in Map(KindOf, ops) then [] else [op.kind])
  {
    assert Map(ProtocolOf, ops + [op]) == Map(ProtocolOf, ops) + [op.protocolAddress];
    assert Map(KindOf, ops + [op]) == Map(KindOf, ops) + [op.kind];
    DistinctSnoc(Map(ProtocolOf, ops), op.protocolAddress);
    DistinctSnoc(Map(KindOf, ops), op.kind);
  }

  /** The status chooser always offers the same three statuses. */
  const StatusChoices: seq<string> := [Completed, Pending, Failed]

  predicate HasProtocol(op: Operation, protocolAddress: string) {
    op.protocolAddress == Some(protocolAddress)
  }

  predicate HasKind(op: Operation, kind: string) {
    op.kind == kind
  }

  predicate HasStatus(op: Operation, status: string) {
    op.status == status
  }

  function WithProtocol(protocolAddress: string): Operation -> bool {
    op => HasProtocol(op, protocolAddress)
  }

  function WithKind(kind: string): Operation -> bool {
    op => HasKind(op, kind)
  }

  function WithStatus(status: string): Operation -> bool {
    op => HasStatus(op, status)
  }

  /** A pick the code treats as no pick: `undefined` or the empty string. */
  predicate Falsy(pick: Option<string>) {
    pick.None? || pick.value == ""
  }

  /**
   * `viewOperations`: `pick` is what the chooser of the chosen view returns. An empty log
   * or a falsy pick shows nothing; the log itself is never changed.
   */
  function ViewOperations(ops: seq<Operation>, choice: ViewChoice, pick: Option<string>): (r: Outcome)
    ensures |ops| == 0 || choice == Back ==> r == NothingShown
    ensures r.Shown? ==> SubsequenceOf(r.operations, ops)
    ensures |ops| > 0 && choice == All ==> r == Shown(ops, "")
    ensures |ops| > 0 && choice == ExportOperations ==> r == Exported(ops)
    ensures |ops| > 0 && choice in {ByProtocol, ByType, ByStatus} && Falsy(pick) ==> r == NothingShown
    ensures |ops| > 0 && choice == ByProtocol && !Falsy(pick) ==>
      r.Shown? && forall op :: op in r.operations <==> op in ops && op.protocolAddress == pick
    ensures |ops| > 0 && choice == ByType && !Falsy(pick) ==>
      r.Shown? && forall op :: op in r.operations <==> op in ops && op.kind == pick.value
    ensures |ops| > 0 && choice == ByStatus && !Falsy(pick) ==>
      r.Shown? && forall op :: op in r.operations <==> op in ops && op.status == pick.value
  {
    if |ops| == 0 then NothingShown
    else
      match choice
      case Back => NothingShown
      case All =>
        SubsequenceOfSelf(ops);
        Shown(ops, "")
      case ExportOperations => Exported(ops)
      case ByProtocol =>
        FilterMembers(WithProtocol(pick.GetOr("")), ops);
        FilterSubsequence(WithProtocol(pick.GetOr("")), ops);
        if Falsy(pick) then NothingShown else Shown(Filter(WithProtocol(pick.value), ops), "Protocolo: " + pick.value)
      case ByType =>
        FilterMembers(WithKind(pick.GetOr("")), ops);
        FilterSubsequence(WithKind(pick.GetOr("")), ops);
        if Falsy(pick) then NothingShown else Shown(Filter(WithKind(pick.value), ops), "Tipo: " + pick.value)
      case ByStatus =>
        FilterMembers(WithStatus(pick.GetOr("")), ops);
        FilterSubsequence(WithStatus(pick.GetOr("")), ops);
        if Falsy(pick) then NothingShown else Shown(Filter(WithStatus(pick.value), ops), "Status: " + pick.value)
  }

  /** Each filtered view keeps every matching operation as often as the log holds it, and no other. */
  lemma FilteredViewKeepsMultiplicity(ops: seq<Operation>, value: string, op: Operation)
    requires |ops| > 0 && value != ""
    ensures var r := ViewOperations(ops, ByProtocol, Some(value));
      multiset(r.operations)[op] == if op.protocolAddress == Some(value) then multiset(ops)[op] else 0
    ensures var r := ViewOperations(ops, ByType, Some(value));
      multiset(r.operations)[op] == if op.kind == value then multiset(ops)[op] else 0
    ensures var r := ViewOperations(ops, ByStatus, Some(value));
      multiset(r.operations)[op] == if op.status == value then multiset(ops)[op] else 0
  {
    FilterMultiset(WithProtocol(value), ops, op);
    FilterMultiset(WithKind(value), ops, op);
    FilterMultiset(WithStatus(value), ops, op);
  }

  /** Operations without a protocol address never appear under the protocol view, whatever is picked. */
  lemma UnaddressedNeverShownByProtocol(ops: seq<Operation>, pick: Option<string>, op: Operation)
    requires op.protocolAddress.None?
    ensures var r := ViewOperations(ops, ByProtocol, pick);
      r.Shown? ==> op !in r.operations
  {
  }

  datatype Color = Green | Yellow | Red | White

  /** `getStatusColor`. */
  function StatusColor(status: string): (c: Color)
    ensures c == Green <==> status == Completed
    ensures c == Yellow <==> status == Pending
    ensures c == Red <==> status == Failed
    ensures c == White <==> status !in StatusChoices
  {
    if status == Completed then Green
    else if status == Pending then Yellow
    else if status == Failed then Red
    else White
  }
}
