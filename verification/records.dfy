/**
 * The records of the console's data file: operations in the log, registry entries
 * (protocols) with their redeploy history, limit and target records, and the whole
 * in-memory data object the menu functions pass around.
 */
module Records {
  import opened Wrappers
  import opened Decimal

  // Values of an operation's `type` field.
  const ConfigureVirtualBalanceKind: string := "CONFIGURE_VIRTUAL_BALANCE"
  const RedeployKind: string := "REDEPLOY"
  const ConfigureErrorKind: string := "CONFIGURE_ERROR"
  const SystemErrorKind: string := "SYSTEM_ERROR"

  // Values of an operation's `status` field.
  const Completed: string := "completed"
  const Pending: string := "pending"
  const Failed: string := "failed"

  /** The fields kept from a transaction receipt. */
  datatype Receipt = Receipt(hash: string, blockNumber: nat, gasUsed: nat)

  /**
   * One entry of `recoveryResults.balances`: the raw target and amount of the replayed
   * record, the balances read back from the new contract, and whether they agree.
   */
  datatype BalanceResult = BalanceResult(
    address: Option<string>,
    expectedAmount: Option<string>,
    virtualBalance: nat,
    actualBalance: nat,
    recovered: bool)

  /** A limits record; the three amounts are decimal strings of base units. */
  datatype LimitsRecord = LimitsRecord(
    id: string,
    protocolAddress: Option<string>,
    maxLoanAmount: string,
    minLoanAmount: string,
    maxVirtualBalance: string,
    updatedAt: int)

  /** `recoveryResults`; `limits` is a key that is present only when a limits record was found. */
  datatype RecoveryResults = RecoveryResults(
    successful: nat,
    failed: nat,
    balances: seq<BalanceResult>,
    limits: Option<LimitsRecord>)

  /** The fields of an operation beyond the common ones, by kind of record. */
  datatype Payload =
    | NoPayload
    | Transaction(receipt: Receipt)
    | RedeployDetails(originalAddress: string, newAddress: string, description: string, results: RecoveryResults)
    | ErrorDetails(message: string)

  /**
   * An operation of the log. `kind` is the record's `type`; `timestamp` is its ISO time
   * as milliseconds. Fields a record may lack are `Option`s.
   */
  datatype Operation = Operation(
    id: string,
    kind: string,
    timestamp: int,
    status: string,
    protocolAddress: Option<string>,
    targetAddress: Option<string>,
    amount: Option<string>,
    payload: Payload)

  datatype TokenData = TokenData(name: string, symbol: string, decimals: nat, initialSupply: string)

  /** One entry of a protocol's `redeployHistory`. */
  datatype RedeployEntry = RedeployEntry(
    originalAddress: string,
    newAddress: string,
    timestamp: int,
    reason: string,
    results: RecoveryResults)

  /** A registry entry; `redeployHistory` is absent until the first redeploy. */
  datatype Protocol = Protocol(
    address: string,
    tokenData: TokenData,
    timestamp: int,
    redeployHistory: Option<seq<RedeployEntry>>)
  {
    /** `redeployHistory || []`. */
    function History(): seq<RedeployEntry> {
      redeployHistory.GetOr([])
    }
  }

  datatype TargetRecord = TargetRecord(
    id: string,
    address: string,
    description: string,
    isWhitelisted: bool,
    createdAt: int,
    protocolAddress: string)

  datatype Metadata = Metadata(version: string, created: string)

  /**
   * The data object in memory. `limits` and `targets` are keys that may be missing
   * (`INITIAL_DATA` has no `limits`; the loader never produces `targets`).
   */
  datatype Data = Data(
    operations: seq<Operation>,
    protocols: seq<Protocol>,
    lastUpdate: string,
    metadata: Metadata,
    limits: Option<seq<LimitsRecord>>,
    targets: Option<seq<TargetRecord>>)

  /** An id built as `` `${prefix}${Date.now()}` ``. */
  function StampedId(prefix: string, clock: nat): string {
    prefix + DecimalString(clock)
  }

  /** Only appends: `after` starts with all of `before`. */
  ghost predicate Extends<T>(after: seq<T>, before: seq<T>) {
    |before| <= |after| && after[..|before|] == before
  }
}
