/**
 * menu.js: the shape normalisation of the data file (`loadData`, `saveData`,
 * `INITIAL_DATA`), `manageLimits`, and the global unhandled-rejection handler. The file is
 * a value: what `fs` finds and what `saveData` writes, with JSON's missing and falsy
 * values as `None`.
 */
module Store {
  import opened Wrappers
  import opened Records
  import opened Decimal
  import opened Configure

  /** A parsed data file: the keys the loader reads, the `targets` key, and the names of any other keys. */
  datatype Blob = Blob(
    operations: Option<seq<Operation>>,
    protocols: Option<seq<Protocol>>,
    lastUpdate: Option<string>,
    metadata: Option<Metadata>,
    limits: Option<seq<LimitsRecord>>,
    targets: Option<seq<TargetRecord>>,
    otherKeys: set<string>)

  /** The data file as `loadData` finds it. */
  datatype StoredFile = Missing | Unreadable | Stored(blob: Blob)

  const Version: string := "1.0.0"

  /** `INITIAL_DATA`, built once at start-up with the start-up time: no `limits` key. */
  function InitialData(startup: string): (d: Data)
    ensures d.operations == [] && d.protocols == [] && d.limits.None?
    ensures d.metadata.version == Version
  {
    Data([], [], startup, Metadata(Version, startup), None, None)
  }

  /** `value || fallback` on a string: the empty string is falsy. */
  function OrNow(s: Option<string>, now: string): (r: string)
    ensures s.Some? && s.value != "" ==> r == s.value
    ensures s.None? || s.value == "" ==> r == now
  {
    if s.Some? && s.value != "" then s.value else now
  }

  /**
   * `loadData`: a missing or unreadable file yields `INITIAL_DATA`; otherwise the five
   * keys with missing ones defaulted, every other key dropped.
   */
  function LoadData(file: StoredFile, now: string, startup: string): (d: Data)
    ensures file.Missing? || file.Unreadable? ==> d == InitialData(startup)
    ensures file.Stored? ==>
      && d.operations == file.blob.operations.GetOr([])
      && d.protocols == file.blob.protocols.GetOr([])
      && d.limits == Some(file.blob.limits.GetOr([]))
      && d.metadata == file.blob.metadata.GetOr(InitialData(startup).metadata)
      && d.lastUpdate == OrNow(file.blob.lastUpdate, now)
      && d.targets.None?
  {
    match file
    case Missing => InitialData(startup)
    case Unreadable => InitialData(startup)
    case Stored(b) =>
      Data(b.operations.GetOr([]), b.protocols.GetOr([]), OrNow(b.lastUpdate, now),
           b.metadata.GetOr(InitialData(startup).metadata), Some(b.limits.GetOr([])), None)
  }

  /**
   * `saveData`: what is written holds exactly operations, protocols, a fresh
   * `lastUpdate`, metadata and limits; `targets` and any other key are not written.
   */
  function SaveData(d: Data, now: string): (b: Blob)
    ensures b.operations == Some(d.operations) && b.protocols == Some(d.protocols)
    ensures b.lastUpdate == Some(now) && b.metadata == Some(d.metadata)
    ensures b.limits == Some(d.limits.GetOr([]))
    ensures b.targets.None? && b.otherKeys == {}
  {
    Blob(Some(d.operations), Some(d.protocols), Some(now), Some(d.metadata), Some(d.limits.GetOr([])), None, {})
  }

  /**
   * Saving and loading again gives back the operations, protocols, metadata and limits
   * (an absent list as an empty one); `targets` is lost and `lastUpdate` is the save time.
   */
  lemma SaveLoadRoundTrip(d: Data, saved: string, now: string, startup: string)
    requires saved != ""
    ensures LoadData(Stored(SaveData(d, saved)), now, startup)
         == d.(lastUpdate := saved, limits := Some(d.limits.GetOr([])), targets := None)
  {
  }

  /** Normalising twice gives the same operations, protocols and limits as normalising once. */
  lemma NormaliseIdempotent(file: StoredFile, t1: string, t2: string, t3: string, t4: string, startup: string)
    ensures var once := LoadData(file, t1, startup);
      var twice := LoadData(Stored(SaveData(LoadData(Stored(SaveData(once, t2)), t3, startup), t4)), t3, startup);
      && twice.operations == once.operations
      && twice.protocols == once.protocols
      && twice.limits == Some(once.limits.GetOr([]))
      && twice.metadata == once.metadata
  {
  }

  /**
   * `manageLimits` for the registry entry the user picks. With no protocols nothing
   * changes; a conversion error propagates before anything is written.
   */
  function ManageLimits(d: Data, pick: nat, maxLoan: Result<int>, minLoan: Result<int>, maxVirtual: Result<int>, clock: nat): (r: Result<Data>)
    requires |d.protocols| > 0 ==> pick < |d.protocols|
    ensures |d.protocols| == 0 ==> r == Success(d)
    ensures |d.protocols| > 0 ==> (r.Failure? <==> maxLoan.Failure? || minLoan.Failure? || maxVirtual.Failure?)
    ensures |d.protocols| > 0 && r.Success? ==>
      var ls := d.limits.GetOr([]);
      && r.value.operations == d.operations && r.value.protocols == d.protocols
      && r.value.limits.Some?
      && |r.value.limits.value| == |ls| + 1
      && r.value.limits.value[..|ls|] == ls
      && r.value.limits.value[|ls|].protocolAddress == Some(d.protocols[pick].address)
      && r.value.limits.value[|ls|].updatedAt == clock
      && ParseSignedDecimal(r.value.limits.value[|ls|].maxLoanAmount) == Some(maxLoan.value)
      && ParseSignedDecimal(r.value.limits.value[|ls|].minLoanAmount) == Some(minLoan.value)
      && ParseSignedDecimal(r.value.limits.value[|ls|].maxVirtualBalance) == Some(maxVirtual.value)
  {
    if |d.protocols| == 0 then Success(d)
    else
      match LimitsFrom(clock, d.protocols[pick].address, maxLoan, minLoan, maxVirtual)
      case Failure(e) => Failure(e)
      case Success(l) =>
        var ls := d.limits.GetOr([]);
        assert (ls + [l])[..|ls|] == ls;
        Success(d.(limits := Some(ls + [l])))
  }

  /** `error.message || 'Unknown error'`. */
  function ErrorMessage(message: Option<string>): (m: string)
    ensures m != ""
  {
    if message.Some? && message.value != "" then message.value else "Unknown error"
  }

  /**
   * The reason a promise was rejected with: `undefined` or `null` (`Promise.reject()`),
   * or any other value, with its `message` property when that is a string.
   */
  datatype Reason = Absent | Thrown(message: Option<string>)

  /**
   * The unhandled-rejection handler: load, append one `SYSTEM_ERROR`/failed operation,
   * save; the blob written, if any. Every operation loaded is written back, in order,
   * before the new one. Reading `message` of an absent reason throws inside the handler
   * before anything is loaded, so the file is left as it was.
   */
  function UnhandledRejection(file: StoredFile, reason: Reason, clock: nat, now: string, startup: string): (w: Option<Blob>)
    ensures w.None? <==> reason.Absent?
    ensures w.Some? ==>
      var loaded := LoadData(file, now, startup).operations;
      && w.value.operations.Some?
      && |w.value.operations.value| == |loaded| + 1
      && w.value.operations.value[..|loaded|] == loaded
      && w.value.operations.value[|loaded|].kind == SystemErrorKind
      && w.value.operations.value[|loaded|].status == Failed
      && w.value.operations.value[|loaded|].payload == ErrorDetails(ErrorMessage(reason.message))
  {
    match reason
    case Absent => None
    case Thrown(message) =>
      var d := LoadData(file, now, startup);
      var op := Operation(StampedId("error_", clock), SystemErrorKind, clock, Failed, None, None, None, ErrorDetails(ErrorMessage(message)));
      assert (d.operations + [op])[..|d.operations|] == d.operations;
      Some(SaveData(d.(operations := d.operations + [op]), now))
  }
}
