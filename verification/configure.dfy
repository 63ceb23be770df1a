/**
 * configure.js: `configureProtocol` and the three configurations it dispatches to. Each
 * appends one record (an operation, a target or a limits record); anything the chosen
 * configuration throws is caught once and logged as one `CONFIGURE_ERROR` operation.
 */
module Configure {
  import opened Wrappers
  import opened Decimal
  import opened Records
  import opened Selection
  import opened Replay

  /**
   * The answers to the prompts after the protocol is chosen. Amounts are the outcome of
   * converting the typed text to base units, which can throw. A typed limit may be
   * negative (the conversion accepts a leading minus sign); a virtual balance is only
   * ever sent as a non-negative integer, since the contract call rejects a negative one.
   */
  datatype Request =
    | Back
    | SetBalance(targetAddress: string, amount: Result<nat>)
    | ConfigureTarget(targetAddress: string, description: string, isWhitelisted: bool)
    | ConfigureLimits(maxLoanAmount: Result<int>, minLoanAmount: Result<int>, maxVirtualBalance: Result<int>)

  /**
   * The outside world of one call: whether `getContractAt` throws, the receipt of the
   * `setVirtualBalance` transaction or the error its send or wait throws, and the clock.
   */
  datatype ConfigEnv = ConfigEnv(contract: Result<()>, send: Result<Receipt>, clock: nat)

  /** The operation recorded for a virtual balance that was set. */
  function BalanceOperation(clock: nat, protocolAddress: string, targetAddress: string, amount: nat, receipt: Receipt): (op: Operation)
    ensures IsCandidateFor(op, protocolAddress)
    ensures op.targetAddress == Some(targetAddress)
    ensures AmountValue(op) == Some(amount)
  {
    PrintsAs(amount, DecimalString(amount));
    Operation(StampedId("config_vb_", clock), ConfigureVirtualBalanceKind, clock, Completed,
              Some(protocolAddress), Some(targetAddress), Some(DecimalString(amount)), Transaction(receipt))
  }

  /** The operation recorded when a configuration throws. */
  function ErrorOperation(clock: nat, message: string): (op: Operation)
    ensures op.kind == ConfigureErrorKind && op.status == Failed && op.payload == ErrorDetails(message)
    ensures forall a :: !IsCandidateFor(op, a)
    ensures op.protocolAddress.None?
  {
    Operation(StampedId("config_error_", clock), ConfigureErrorKind, clock, Failed, None, None, None, ErrorDetails(message))
  }

  /**
   * The limits from three converted amounts, or the first conversion error. Each amount
   * is stored as its `toString()` spelling, a minus sign included.
   */
  function LimitsFrom(clock: nat, protocolAddress: string, maxLoan: Result<int>, minLoan: Result<int>, maxVirtual: Result<int>): (r: Result<LimitsRecord>)
    ensures r.Success? <==> maxLoan.Success? && minLoan.Success? && maxVirtual.Success?
    ensures r.Success? ==>
      && r.value.protocolAddress == Some(protocolAddress)
      && r.value.updatedAt == clock
      && ParseSignedDecimal(r.value.maxLoanAmount) == Some(maxLoan.value)
      && ParseSignedDecimal(r.value.minLoanAmount) == Some(minLoan.value)
      && ParseSignedDecimal(r.value.maxVirtualBalance) == Some(maxVirtual.value)
  {
    match maxLoan
    case Failure(e) => Failure(e)
    case Success(maxL) =>
      match minLoan
      case Failure(e) => Failure(e)
      case Success(minL) =>
        match maxVirtual
        case Failure(e) => Failure(e)
        case Success(maxV) =>
          SignedRoundTrip(maxL);
          SignedRoundTrip(minL);
          SignedRoundTrip(maxV);
          Success(LimitsRecord(StampedId("limits_", clock), Some(protocolAddress),
                               SignedDecimalString(maxL), SignedDecimalString(minL), SignedDecimalString(maxV), clock))
  }

  /** What the chosen configuration does to the data, or the error it throws. */
  function Dispatch(d: Data, protocolAddress: string, req: Request, env: ConfigEnv): (r: Result<Data>)
    ensures r.Success? ==> r.value.protocols == d.protocols && r.value.metadata == d.metadata && r.value.lastUpdate == d.lastUpdate
    ensures r.Success? && !req.SetBalance? ==> r.value.operations == d.operations
    ensures r.Success? && req.SetBalance? ==>
      && |r.value.operations| == |d.operations| + 1
      && r.value.operations[..|d.operations|] == d.operations
      && r.value.operations[|d.operations|].kind == ConfigureVirtualBalanceKind
      && r.value.operations[|d.operations|].status == Completed
  {
    match env.contract
    case Failure(e) => Failure(e)
    case Success(_) =>
      match req
      case Back => Success(d)
      case SetBalance(target, amount) =>
        (match amount
         case Failure(e) => Failure(e)
         case Success(v) =>
           (match env.send
            case Failure(e) => Failure(e)
            case Success(receipt) =>
              var ops := d.operations + [BalanceOperation(env.clock, protocolAddress, target, v, receipt)];
              assert ops[..|d.operations|] == d.operations;
              Success(d.(operations := ops))))
      case ConfigureTarget(target, description, whitelisted) =>
        var t := TargetRecord(StampedId("target_", env.clock), target, description, whitelisted, env.clock, protocolAddress);
        Success(d.(targets := Some(d.targets.GetOr([]) + [t])))
      case ConfigureLimits(maxLoan, minLoan, maxVirtual) =>
        match LimitsFrom(env.clock, protocolAddress, maxLoan, minLoan, maxVirtual)
        case Failure(e) => Failure(e)
        case Success(l) => Success(d.(limits := Some(d.limits.GetOr([]) + [l])))
  }

  /**
   * `configureProtocol` for the registry entry the user picks (`pick`, an index into the
   * listed entries). An empty registry or `back` changes nothing; an error is logged.
   */
  function ConfigureProtocol(d: Data, pick: nat, req: Request, env: ConfigEnv): (r: Data)
    requires |d.protocols| > 0 ==> pick < |d.protocols|
    ensures |d.protocols| == 0 || req == Back ==> r == d
    ensures r.protocols == d.protocols && r.metadata == d.metadata && r.lastUpdate == d.lastUpdate
    ensures Extends(r.operations, d.operations) && |r.operations| <= |d.operations| + 1
    ensures |r.operations| == |d.operations| + 1 ==>
      var op := r.operations[|d.operations|];
      (op.kind == ConfigureVirtualBalanceKind && op.status == Completed) || (op.kind == ConfigureErrorKind && op.status == Failed)
  {
    if |d.protocols| == 0 || req == Back then d
    else
      var protocolAddress := d.protocols[pick].address;
      match Dispatch(d, protocolAddress, req, env)
      case Success(next) => next
      case Failure(e) =>
        var ops := d.operations + [ErrorOperation(env.clock, e)];
        assert ops[..|d.operations|] == d.operations;
        d.(operations := ops)
  }

  /**
   * A successful virtual-balance configuration appends exactly one completed
   * `CONFIGURE_VIRTUAL_BALANCE` record for the chosen protocol and target, whose logged
   * amount reads back as the integer sent to the contract.
   */
  lemma SetBalanceRecordsAmount(d: Data, pick: nat, target: string, v: nat, env: ConfigEnv)
    requires pick < |d.protocols|
    requires env.contract.Success? && env.send.Success?
    ensures var r := ConfigureProtocol(d, pick, SetBalance(target, Success(v)), env);
      && |r.operations| == |d.operations| + 1
      && var op := r.operations[|d.operations|];
      && IsCandidateFor(op, d.protocols[pick].address)
      && op.targetAddress == Some(target)
      && op.amount.Some? && ParseDecimal(op.amount.value) == Some(v)
      && r.limits == d.limits && r.targets == d.targets
  {
  }

  /**
   * When the conversion, the send or the wait throws, no virtual-balance record is
   * written: exactly one `CONFIGURE_ERROR`/failed record carries the error instead.
   */
  lemma SetBalanceFailureLogsError(d: Data, pick: nat, target: string, amount: Result<nat>, env: ConfigEnv)
    requires pick < |d.protocols|
    requires env.contract.Failure? || amount.Failure? || env.send.Failure?
    ensures var r := ConfigureProtocol(d, pick, SetBalance(target, amount), env);
      var e := if env.contract.Failure? then env.contract.error else if amount.Failure? then amount.error else env.send.error;
      r.operations == d.operations + [ErrorOperation(env.clock, e)]
      && r.limits == d.limits && r.targets == d.targets
  {
  }

  /**
   * A record that a configuration logged replays to the same balance and reads as
   * recovered: the amount written to the log is the canonical spelling of the integer.
   */
  lemma ConfiguredBalanceRecovers(clock: nat, protocolAddress: string, target: string, v: nat, receipt: Receipt, actual: map<string, nat>)
    ensures var op := BalanceOperation(clock, protocolAddress, target, v, receipt);
      && Entry(actual, op).virtualBalance == v
      && Entry(actual, op).recovered
  {
  }

  /** `configureTarget` appends one target record, creating the list when it is absent; the log is untouched. */
  lemma TargetAppended(d: Data, pick: nat, target: string, description: string, whitelisted: bool, env: ConfigEnv)
    requires pick < |d.protocols| && env.contract.Success?
    ensures var r := ConfigureProtocol(d, pick, ConfigureTarget(target, description, whitelisted), env);
      && r.operations == d.operations && r.limits == d.limits
      && r.targets.Some?
      && |r.targets.value| == |d.targets.GetOr([])| + 1
      && r.targets.value[..|d.targets.GetOr([])|] == d.targets.GetOr([])
      && r.targets.value[|d.targets.GetOr([])|].address == target
      && r.targets.value[|d.targets.GetOr([])|].protocolAddress == d.protocols[pick].address
  {
    var ts := d.targets.GetOr([]);
    var r := ConfigureProtocol(d, pick, ConfigureTarget(target, description, whitelisted), env);
    assert r.targets.value == ts + [r.targets.value[|ts|]];
  }

  /**
   * `configureLimits` appends one limits record for the chosen protocol stamped with the
   * clock, creating the list when it is absent, whose amounts read back as the converted
   * integers, negative ones included; a conversion error is logged instead.
   */
  lemma LimitsAppended(d: Data, pick: nat, maxLoan: Result<int>, minLoan: Result<int>, maxVirtual: Result<int>, env: ConfigEnv)
    requires pick < |d.protocols| && env.contract.Success?
    ensures var r := ConfigureProtocol(d, pick, ConfigureLimits(maxLoan, minLoan, maxVirtual), env);
      var ls := d.limits.GetOr([]);
      if maxLoan.Success? && minLoan.Success? && maxVirtual.Success? then
        && r.operations == d.operations && r.targets == d.targets
        && r.limits.Some? && |r.limits.value| == |ls| + 1
        && r.limits.value[..|ls|] == ls
        && r.limits.value[|ls|].protocolAddress == Some(d.protocols[pick].address)
        && r.limits.value[|ls|].updatedAt == env.clock
        && ParseSignedDecimal(r.limits.value[|ls|].maxLoanAmount) == Some(maxLoan.value)
        && ParseSignedDecimal(r.limits.value[|ls|].minLoanAmount) == Some(minLoan.value)
        && ParseSignedDecimal(r.limits.value[|ls|].maxVirtualBalance) == Some(maxVirtual.value)
      else
        && r.limits == d.limits && r.targets == d.targets
        && |r.operations| == |d.operations| + 1
        && r.operations[|d.operations|].kind == ConfigureErrorKind
  {
    var ls := d.limits.GetOr([]);
    var r := ConfigureProtocol(d, pick, ConfigureLimits(maxLoan, minLoan, maxVirtual), env);
    if maxLoan.Success? && minLoan.Success? && maxVirtual.Success? {
      assert r.limits.value == ls + [r.limits.value[|ls|]];
    }
  }
}
