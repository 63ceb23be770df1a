/**
 * listTokens.js: the active/inactive split and the action menu of `listDeployedTokens`,
 * its per-target virtual-balance listing and limits lookup, the second copy of the
 * recovery in `redeployInactiveTokens`, and the shape of `exportTokenReport`.
 */
module ListTokens {
  import opened Wrappers
  import opened Seqs
  import opened Ordering
  import opened Decimal
  import opened Records
  import opened Contract
  import opened Selection
  import opened Replay
  import opened Balance

  const InactivityDescription: string := "Redeploy automático após inatividade"

  /** What `getCode` yields or throws for each address; `getContractAt` throwing is folded in. */
  type CodeProbe = string -> Result<string>

  predicate IsInactive(code: CodeProbe, p: Protocol) {
    code(p.address) == Success(NoCode)
  }

  function InactiveUnder(code: CodeProbe): Protocol -> bool {
    p => IsInactive(code, p)
  }

  /**
   * `inactiveTokens`: the registry entries whose address holds no code, in registry
   * order. An entry whose probe throws is neither active nor inactive.
   */
  function InactiveTokens(ps: seq<Protocol>, code: CodeProbe): (r: seq<Protocol>)
    ensures SubsequenceOf(r, ps)
    ensures forall p :: p in r <==> p in ps && code(p.address) == Success(NoCode)
  {
    FilterMembers(InactiveUnder(code), ps);
    FilterSubsequence(InactiveUnder(code), ps);
    Filter(InactiveUnder(code), ps)
  }

  /** The choices offered after the listing. */
  datatype Action = RedeployInactiveTokens | BackToMenu | ExportReport | Exit

  function Label(a: Action): string {
    match a
    case RedeployInactiveTokens => "Redeploy de tokens inativos"
    case BackToMenu => "Voltar ao menu principal"
    case ExportReport => "Exportar relatório"
    case Exit => "Sair"
  }

  /** The dispatch on the chosen label. */
  function ActionOf(choice: string): (r: Option<Action>)
    ensures r.Some? ==> Label(r.value) == choice
  {
    if choice == "Redeploy de tokens inativos" then Some(RedeployInactiveTokens)
    else if choice == "Voltar ao menu principal" then Some(BackToMenu)
    else if choice == "Exportar relatório" then Some(ExportReport)
    else if choice == "Sair" then Some(Exit)
    else None
  }

  /** Each label leads back to its own action, so no two actions share a label. */
  lemma LabelsDispatch(a: Action)
    ensures ActionOf(Label(a)) == Some(a)
  {
  }

  /**
   * The action list: back-to-menu, preceded by the redeploy option when some token is
   * inactive, followed by export and exit.
   */
  function Actions(inactive: seq<Protocol>): (r: seq<Action>)
    ensures |r| >= 3
    ensures r[0] == RedeployInactiveTokens <==> |inactive| > 0
    ensures RedeployInactiveTokens in r <==> |inactive| > 0
    ensures r[|r| - 3..] == [BackToMenu, ExportReport, Exit]
  {
    var choices := [BackToMenu];
    var choices := if |inactive| > 0 then [RedeployInactiveTokens] + choices else choices;
    choices + [ExportReport, Exit]
  }

  /**
   * The whole listing step as far as it decides anything: nothing when the registry is
   * empty, otherwise the inactive entries and the action list built from them.
   */
  function ListDeployedTokens(ps: seq<Protocol>, code: CodeProbe): (r: Option<(seq<Protocol>, seq<Action>)>)
    ensures r.None? <==> |ps| == 0
    ensures r.Some? ==> r.value.0 == InactiveTokens(ps, code) && r.value.1 == Actions(r.value.0)
    ensures r.Some? ==> (r.value.1[0] == RedeployInactiveTokens <==> exists p :: p in ps && code(p.address) == Success(NoCode))
  {
    if |ps| == 0 then None
    else
      var inactive := InactiveTokens(ps, code);
      assert (exists p :: p in ps && code(p.address) == Success(NoCode)) ==> |inactive| > 0 by {
        if p :| p in ps && code(p.address) == Success(NoCode) {
          assert p in inactive;
        }
      }
      assert |inactive| > 0 ==> inactive[0] in inactive;
      Some((inactive, Actions(inactive)))
  }

  /** The targets whose balances the listing reads, one per target, latest record first. */
  function ListedTargets(ops: seq<Operation>, protocolAddress: string): (r: seq<Option<string>>)
    ensures |r| == |LatestPerTarget(ops, protocolAddress)|
    ensures forall i, j :: 0 <= i < j < |r| ==> r[i] != r[j]
    ensures forall i :: 0 <= i < |r| ==> r[i] == LatestPerTarget(ops, protocolAddress)[i].targetAddress
  {
    Map(TargetOf, LatestPerTarget(ops, protocolAddress))
  }

  /**
   * The listing shows exactly the targets named by the protocol's completed
   * virtual-balance records, each once, ordered by each target's latest timestamp.
   */
  lemma ListingShowsEachTargetOnce(ops: seq<Operation>, protocolAddress: string)
    ensures var r := ListedTargets(ops, protocolAddress);
      && (forall t :: t in r <==> exists op :: op in ops && IsCandidateFor(op, protocolAddress) && op.targetAddress == t)
      && SortedDesc(Timestamp, LatestPerTarget(ops, protocolAddress))
  {
    var d := LatestPerTarget(ops, protocolAddress);
    var r := ListedTargets(ops, protocolAddress);
    SelectionLatestFirst(ops, protocolAddress);
    forall t | t in r
      ensures exists op :: op in ops && IsCandidateFor(op, protocolAddress) && op.targetAddress == t
    {
      var i :| 0 <= i < |r| && r[i] == t;
      assert d[i] in ReplayOrder(ops, protocolAddress);
    }
    forall op | op in ops && IsCandidateFor(op, protocolAddress)
      ensures op.targetAddress in r
    {
      SelectionCoversTargets(ops, protocolAddress, op);
      var i :| 0 <= i < |d| && d[i].targetAddress == op.targetAddress;
      assert r[i] == op.targetAddress;
    }
  }

  /** When no replay call throws, the recovery replays exactly the targets the listing shows, in the same order. */
  lemma ListingMatchesRecovery(ops: seq<Operation>, protocolAddress: string, initial: Ledger, oracle: Oracle)
    requires forall op :: op in ops && IsCandidateFor(op, protocolAddress) ==> Succeeds(oracle)(op)
    ensures var bs := ReplayResults(ops, protocolAddress, initial, oracle).balances;
      |bs| == |ListedTargets(ops, protocolAddress)|
      && forall i :: 0 <= i < |bs| ==> bs[i].address == ListedTargets(ops, protocolAddress)[i]
  {
    ReplayMatchesSelection(ops, protocolAddress, initial, oracle);
    SelectionEntriesPointwise(ops, protocolAddress, initial.actual);
  }

  /** `data.limits?.find(l => l.protocolAddress === address)`: the first record in list order. */
  function FirstLimits(limits: Option<seq<LimitsRecord>>, protocolAddress: string): (r: Option<LimitsRecord>)
    ensures r.None? <==> limits.None? || forall l :: l in limits.value ==> l.protocolAddress != Some(protocolAddress)
    ensures r.Some? ==> exists i :: (0 <= i < |limits.value| && limits.value[i] == r.value
      && r.value.protocolAddress == Some(protocolAddress)
      && forall j :: 0 <= j < i ==> limits.value[j].protocolAddress != Some(protocolAddress))
  {
    match limits
    case None => None
    case Some(ls) =>
      var mine := Filter(IsLimitsFor(protocolAddress), ls);
      FilterMembers(IsLimitsFor(protocolAddress), ls);
      if |mine| == 0 then None
      else
        FirstOfFilter(IsLimitsFor(protocolAddress), ls);
        var i :| 0 <= i < |ls| && ls[i] == mine[0] && forall j :: 0 <= j < i ==> !IsLimitsFor(protocolAddress)(ls[j]);
        assert mine[0] in mine;
        assert forall j :: 0 <= j < i ==> ls[j].protocolAddress != Some(protocolAddress);
        Some(mine[0])
  }

  /** The first element of a filter is the first element of the list that satisfies the predicate. */
  lemma {:induction false} FirstOfFilter<T(!new)>(p: T -> bool, s: seq<T>)
    ensures |Filter(p, s)| > 0 ==> exists i :: (0 <= i < |s| && s[i] == Filter(p, s)[0]
      && forall j :: 0 <= j < i ==> !p(s[j]))
    decreases |s|
  {
    if |s| > 0 && !p(s[0]) {
      FirstOfFilter(p, s[1..]);
      if |Filter(p, s)| > 0 {
        var i :| 0 <= i < |s[1..]| && s[1..][i] == Filter(p, s[1..])[0] && forall j :: 0 <= j < i ==> !p(s[1..][j]);
        assert s[i + 1] == Filter(p, s)[0];
        forall j | 0 <= j < i + 1 ensures !p(s[j]) {
          if j > 0 { assert s[j] == s[1..][j - 1]; }
        }
      }
    }
  }

  /**
   * The listing and the recovery disagree on limits whenever a protocol has a limits record
   * newer than its first one: the listing shows the first, the recovery carries the latest.
   */
  lemma ListingLimitsStale(ls: seq<LimitsRecord>, p: string, l: LimitsRecord)
    requires l in ls && l.protocolAddress == Some(p)
    requires FirstLimits(Some(ls), p).Some? && FirstLimits(Some(ls), p).value.updatedAt < l.updatedAt
    ensures AttachedLimits(Some(ls), p) != FirstLimits(Some(ls), p)
    ensures AttachedLimits(Some(ls), p).Some? && FirstLimits(Some(ls), p).value.updatedAt < AttachedLimits(Some(ls), p).value.updatedAt
  {
  }

  /**
   * An instance of the above: with an older record listed before a newer one, the listing
   * shows the older, the recovery carries the newer.
   */
  lemma ListingLimitsMayBeStale()
    ensures var older := LimitsRecord("limits_1", Some("0xA"), "10", "1", "100", 1);
      var newer := LimitsRecord("limits_2", Some("0xA"), "20", "2", "200", 2);
      && FirstLimits(Some([older, newer]), "0xA") == Some(older)
      && AttachedLimits(Some([older, newer]), "0xA") == Some(newer)
  {
    var older := LimitsRecord("limits_1", Some("0xA"), "10", "1", "100", 1);
    var newer := LimitsRecord("limits_2", Some("0xA"), "20", "2", "200", 2);
    var ls := [older, newer];
    assert Filter(IsLimitsFor("0xA"), ls) == ls by {
      FilterAll(IsLimitsFor("0xA"), ls);
    }
    var r := AttachedLimits(Some(ls), "0xA");
    assert r.Some? && r.value in ls && older.updatedAt <= r.value.updatedAt;
  }

  /** `{ ...p, address: newAddress, redeployHistory: [...(p.redeployHistory || []), entry] }`. */
  function MoveAndAppendHistory(p: Protocol, newAddress: string, entry: RedeployEntry): (r: Protocol)
    requires entry.newAddress == newAddress
    ensures r.address == newAddress
    ensures r.History() == p.History() + [entry]
    ensures r.address == r.History()[|r.History()| - 1].newAddress
    ensures r.tokenData == p.tokenData && r.timestamp == p.timestamp
  {
    p.(address := newAddress, redeployHistory := Some(p.History() + [entry]))
  }

  /** The two copies update a registry entry alike except for `address`, which only this one rewrites. */
  lemma UpdatesDifferOnlyInAddress(p: Protocol, newAddress: string, entry: RedeployEntry)
    requires entry.newAddress == newAddress
    ensures MoveAndAppendHistory(p, newAddress, entry) == AppendHistory(p, entry).(address := newAddress)
    ensures AppendHistory(p, entry).address == p.address
  {
  }

  /** The registry after one token is redeployed: the first entry with its old address moves to the new one. */
  function RecordRedeploy(ps: seq<Protocol>, original: string, entry: RedeployEntry): (r: seq<Protocol>)
    ensures |r| == |ps|
    ensures FindProtocol(ps, original).None? ==> r == ps
    ensures FindProtocol(ps, original).Some? ==>
      var i := FindProtocol(ps, original).value;
      && r[i].address == entry.newAddress
      && r[i].History() == ps[i].History() + [entry]
      && r[i].address == r[i].History()[|r[i].History()| - 1].newAddress
      && forall j :: 0 <= j < |ps| && j != i ==> r[j] == ps[j]
  {
    match FindProtocol(ps, original)
    case None => ps
    case Some(i) => ps[i := MoveAndAppendHistory(ps[i], entry.newAddress, entry)]
  }

  /**
   * The body of the loop for one inactive token: deploy, replay, append the `REDEPLOY`
   * record and move the registry entry. A deployment error is caught by the caller.
   */
  function RedeployOne(d: Data, p: Protocol, env: RecoveryEnv): (r: Result<Data>)
    ensures env.deployment.Failure? ==> r.Failure?
    ensures env.deployment.Success? ==>
      && r.Success?
      && |r.value.operations| == |d.operations| + 1
      && Extends(r.value.operations, d.operations)
      && r.value.operations[|d.operations|].kind == RedeployKind
      && r.value.operations[|d.operations|].status == Completed
      && r.value.operations[|d.operations|].payload.RedeployDetails?
      && r.value.operations[|d.operations|].payload.newAddress == env.deployment.value.address
      && r.value.operations[|d.operations|].payload.results.limits.None?
      && |r.value.protocols| == |d.protocols|
      && r.value.limits == d.limits && r.value.targets == d.targets && r.value.metadata == d.metadata
  {
    match env.deployment
    case Failure(e) => Failure(e)
    case Success(dep) =>
      var results := ReplayResults(d.operations, p.address, dep.ledger, env.oracle);
      var op := RedeployOperation(env.clock, p.address, dep.address, InactivityDescription, results);
      var entry := HistoryEntry(env.clock, p.address, dep.address, results);
      assert (d.operations + [op])[..|d.operations|] == d.operations;
      Success(d.(operations := d.operations + [op], protocols := RecordRedeploy(d.protocols, p.address, entry)))
  }

  /**
   * Both copies of the recovery replay the same records the same way and record the same
   * balances and counts. They differ in three places: the description, the `limits` the
   * balance check attaches (this copy never attaches any), and the registry entry's
   * `address`, which only this copy moves. The results agree exactly when there are no
   * limits to attach.
   */
  lemma CopiesReplayAlike(d: Data, p: Protocol, env: RecoveryEnv)
    requires env.deployment.Success?
    ensures var byCheck := VerifyAndRecover(d, p.address, Success(NoCode), env).value.data;
      var byListing := RedeployOne(d, p, env).value;
      var newAddress := env.deployment.value.address;
      var checked := byCheck.operations[|d.operations|].payload.results;
      var listed := byListing.operations[|d.operations|].payload.results;
      var i := FindProtocol(d.protocols, p.address);
      && checked == listed.(limits := AttachedLimits(d.limits, p.address))
      && (checked == listed <==> AttachedLimits(d.limits, p.address).None?)
      && byCheck.operations[|d.operations|].payload.description == RecoveryDescription
      && byListing.operations[|d.operations|].payload.description == InactivityDescription
      && (i.Some? ==>
            && byCheck.protocols[i.value].address == p.address
            && byListing.protocols[i.value].address == newAddress
            && byCheck.protocols[i.value].History()
                 == d.protocols[i.value].History() + [RedeployEntry(p.address, newAddress, env.clock, RedeployReason, checked)]
            && byListing.protocols[i.value].History()
                 == d.protocols[i.value].History() + [RedeployEntry(p.address, newAddress, env.clock, RedeployReason, listed)]
            && byListing.protocols[i.value].tokenData == byCheck.protocols[i.value].tokenData)
      && (forall j :: 0 <= j < |d.protocols| && Some(j) != i ==> byListing.protocols[j] == byCheck.protocols[j])
  {
  }

  /** One step of `redeployInactiveTokens`: a failed token leaves the data as it was. */
  function RedeployStep(d: Data, p: Protocol, env: RecoveryEnv): Data {
    match RedeployOne(d, p, env)
    case Success(next) => next
    case Failure(_) => d
  }

  /** How many of the first `n` tokens deploy. */
  function Deployed(envs: nat -> RecoveryEnv, n: nat): (c: nat)
    ensures c <= n
  {
    if n == 0 then 0 else Deployed(envs, n - 1) + (if envs(n - 1).deployment.Success? then 1 else 0)
  }

  /** The loop over the inactive tokens; token `i` meets environment `envs(i)`. */
  function RedeployAll(d: Data, inactive: seq<Protocol>, envs: nat -> RecoveryEnv): Data
    decreases |inactive|
  {
    if |inactive| == 0 then d
    else RedeployStep(RedeployAll(d, inactive[..|inactive| - 1], envs), inactive[|inactive| - 1], envs(|inactive| - 1))
  }

  /**
   * `redeployInactiveTokens` as a loop: each token is attempted whatever happened to the
   * ones before; the log only grows, by one `REDEPLOY` record per token that deployed.
   */
  method RedeployInactive(d: Data, inactive: seq<Protocol>, envs: nat -> RecoveryEnv) returns (r: Data)
    ensures r == RedeployAll(d, inactive, envs)
    ensures Extends(r.operations, d.operations)
    ensures |r.operations| == |d.operations| + Deployed(envs, |inactive|)
    ensures forall k :: |d.operations| <= k < |r.operations| ==>
      r.operations[k].kind == RedeployKind && r.operations[k].status == Completed
    ensures |r.protocols| == |d.protocols|
  {
    r := d;
    var i := 0;
    while i < |inactive|
      invariant i <= |inactive|
      invariant r == RedeployAll(d, inactive[..i], envs)
      invariant Extends(r.operations, d.operations)
      invariant |r.operations| == |d.operations| + Deployed(envs, i)
      invariant forall k :: |d.operations| <= k < |r.operations| ==>
        r.operations[k].kind == RedeployKind && r.operations[k].status == Completed
      invariant |r.protocols| == |d.protocols|
    {
      assert inactive[..i + 1][..i] == inactive[..i];
      var outcome := RedeployOne(r, inactive[i], envs(i));
      if outcome.Success? {
        r := outcome.value;
      }
      i := i + 1;
    }
    assert inactive[..i] == inactive;
  }

  /** What a token's probe during the report yields: its code and, for a live contract, its current data. */
  datatype ChainView = ChainView(code: string, current: Result<CurrentInfo>)

  datatype CurrentInfo = CurrentInfo(name: string, symbol: string, decimals: nat, totalSupply: nat)

  /** `current` as the report stores it: the two numbers as decimal strings. */
  datatype CurrentEntry = CurrentEntry(name: string, symbol: string, decimals: string, totalSupply: string)

  datatype TokenEntry =
    | TokenInfo(registered: TokenData, isDeployed: bool, address: string, deployDate: int, current: Option<CurrentEntry>)
    | TokenError(address: string, error: string)

  datatype Report = Report(timestamp: int, totalTokens: nat, tokens: seq<TokenEntry>)

  /** The report entry for one registry entry. */
  function ReportEntry(probe: string -> Result<ChainView>): Protocol -> TokenEntry {
    p => ProbedEntry(probe, p)
  }

  function ProbedEntry(probe: string -> Result<ChainView>, p: Protocol): TokenEntry {
    EntryOf(p, probe(p.address))
  }

  function EntryOf(p: Protocol, view: Result<ChainView>): (e: TokenEntry)
    ensures e.address == p.address
    ensures e.TokenError? <==> view.Failure? || (view.value.code != NoCode && view.value.current.Failure?)
    ensures e.TokenInfo? ==> e.registered == p.tokenData && (e.isDeployed <==> view.value.code != NoCode)
    ensures e.TokenInfo? ==> (e.current.Some? <==> e.isDeployed)
  {
    match view
    case Failure(msg) => TokenError(p.address, msg)
    case Success(v) =>
      if v.code == NoCode then TokenInfo(p.tokenData, false, p.address, p.timestamp, None)
      else
        match v.current
        case Failure(msg) => TokenError(p.address, msg)
        case Success(c) =>
          TokenInfo(p.tokenData, true, p.address, p.timestamp,
                    Some(CurrentEntry(c.name, c.symbol, DecimalString(c.decimals), DecimalString(c.totalSupply))))
  }

  /** `exportTokenReport`: one entry per registry entry, in order, even for those whose probe throws. */
  function ExportTokenReport(ps: seq<Protocol>, probe: string -> Result<ChainView>, clock: int): (r: Report)
    ensures r.totalTokens == |ps| == |r.tokens|
    ensures forall i :: 0 <= i < |ps| ==> r.tokens[i].address == ps[i].address
    ensures forall i :: 0 <= i < |ps| ==> (r.tokens[i].TokenError? <==>
      probe(ps[i].address).Failure? || (probe(ps[i].address).value.code != NoCode && probe(ps[i].address).value.current.Failure?))
  {
    Report(clock, |ps|, Map(ReportEntry(probe), ps))
  }
}
