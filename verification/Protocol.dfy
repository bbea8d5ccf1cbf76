/**
 * The protocol of src/database.cpp: for every operation, the file writes it makes and the result it
 * returns, as functions of the files it finds.
 */
module Protocol {
  import opened Codec
  import opened Records
  import opened Log
  import opened IndexImage
  import opened IndexPlans
  import opened IndexSetup
  import opened IndexMetadata
  import opened DiskModel

  /** No file of the model grows past this size, so every offset fits the 64-bit fields. */
  const FILE_LIMIT: nat := 0x4000_0000_0000_0000

  datatype RecoveryReason = NoReason | MissingIndex | InvalidIndex | UncleanIndex
  datatype RecoveryAction = NoAction | FullIndexRebuild
  datatype RecoveryReport = RecoveryReport(reason: RecoveryReason, action: RecoveryAction, truncatedBytes: nat)

  /** The decision of the `Database` constructor on existing files. */
  datatype Opening = Refused | Opens(report: RecoveryReport, plan: seq<DiskWrite>)

  function RecordsOf(log: Bytes): seq<Record>
  {
    Scan(Tail(log)).records
  }

  /** Where `scan_records` and `rebuild_index` start: zero stands for the first record. */
  function StartFrom(startOffset: nat): nat
  {
    if startOffset == 0 then DB_HEADER_SIZE else startOffset
  }

  /** The writes of replaying the records `rs`, the first of them at `base`, into a staging file. */
  function StagingPlan(rs: seq<Record>, base: nat, n: nat): seq<DiskWrite>
  {
    [CreateIndex(Staged)] + Lift(Staged, ReplayPlan(rs, base, n))
  }

  /** The writes that follow: the staging file is renamed into place, then the checkpoint set. */
  function InstallPlan(size: nat): seq<DiskWrite>
  {
    [InstallStaged, WriteIndex(Installed, CheckpointPatch(size))]
  }

  /** `rebuild_index_impl` from the offset `from` on. */
  function RebuildFromPlan(log: Bytes, from: nat, n: nat): seq<DiskWrite>
  {
    StagingPlan(Scan(From(log, from)).records, from, n) + InstallPlan(|log|)
  }

  /** `rebuild_index_impl` from the first record on. */
  function RebuildPlan(log: Bytes, n: nat): seq<DiskWrite>
  {
    RebuildFromPlan(log, DB_HEADER_SIZE, n)
  }

  /** The installed index, or nothing. */
  function IndexOf(d: DiskState): Bytes
  {
    if d.index.Some? then d.index.value else []
  }

  /** There is an index file, and `Index::load` accepts it. */
  predicate HeaderIntact(d: DiskState)
  {
    d.index.Some? && Loads(IndexOf(d))
  }

  /** `index_metadata_clean`. */
  predicate MetadataClean(d: DiskState)
  {
    Clean(IndexOf(d)) && |d.log| == Checkpoint(IndexOf(d))
  }

  /** `recover_records`: cut an incomplete tail off the log and rebuild; anything else is corruption. */
  function RecoverPlan(log: Bytes, n: nat): Option<seq<DiskWrite>>
    requires |log| >= DB_HEADER_SIZE
  {
    match Scan(Tail(log)).stop
    case EndOfFile => Some(RebuildPlan(log, n))
    case Truncated => Some([ResizeLog(ValidEnd(log))] + RebuildPlan(log[..ValidEnd(log)], n))
    case _ => None
  }

  /** Where the valid records end: the failing offset of a scan that does not reach the end. */
  function ValidEnd(log: Bytes): (p: nat)
    requires |log| >= DB_HEADER_SIZE
    ensures DB_HEADER_SIZE <= p <= |log|
  {
    DB_HEADER_SIZE + Scan(Tail(log)).size
  }

  /** What `recover_records` reports. */
  function TruncatedBytes(log: Bytes): nat
    requires |log| >= DB_HEADER_SIZE
  {
    if Scan(Tail(log)).stop.Truncated? then |log| - ValidEnd(log) else 0
  }

  const MARK_DIRTY: DiskWrite := WriteIndex(Installed, CleanPatch(false))

  function OpenPlan(d: DiskState, n: nat): Opening
  {
    if !LogLoads(d.log) || n == 0 then Refused
    else if !HeaderIntact(d) then
      if Scan(Tail(d.log)).stop != EndOfFile then Refused
      else
        var reason := if d.index == None then MissingIndex else InvalidIndex;
        Opens(RecoveryReport(reason, FullIndexRebuild, 0), RebuildPlan(d.log, n) + [MARK_DIRTY])
    else if MetadataClean(d) then
      Opens(RecoveryReport(NoReason, NoAction, 0), [MARK_DIRTY])
    else
      match RecoverPlan(d.log, BucketCount(IndexOf(d)))
      case None => Refused
      case Some(plan) =>
        Opens(RecoveryReport(UncleanIndex, FullIndexRebuild, TruncatedBytes(d.log)), plan + [MARK_DIRTY])
  }

  predicate CanStore(key: Key, value: Value)
  {
    |key| <= MAX_KEY_SIZE && |value| <= MAX_VALUE_SIZE
  }

  /** `put`: append the record, index it, then move the checkpoint past it. */
  function PutPlan(d: DiskState, key: Key, value: Value): seq<DiskWrite>
  {
    if !CanStore(key, value) || BucketCount(IndexOf(d)) == 0 then []
    else
      var bytes := Encode(Record(Put, key, value));
      [AppendLog(bytes)]
      + Lift(Installed, SetPlan(IndexOf(d), key, |d.log|) + [CheckpointPatch(|d.log| + |bytes|)])
  }

  /** `erase`: nothing for a key that is not indexed, otherwise as `put`. */
  function DeletePlan(d: DiskState, key: Key): seq<DiskWrite>
  {
    if key !in IndexImage.Contents(IndexOf(d)) || BucketCount(IndexOf(d)) == 0 then []
    else
      var bytes := Encode(Record(Delete, key, []));
      [AppendLog(bytes)]
      + Lift(Installed, ErasePlan(IndexOf(d), key) + [CheckpointPatch(|d.log| + |bytes|)])
  }

  /** `close`: the flag is set only when the index has caught up with the log. */
  function ClosePlan(d: DiskState): seq<DiskWrite>
  {
    if |d.log| == Checkpoint(IndexOf(d)) then [WriteIndex(Installed, CleanPatch(true))] else []
  }

  datatype Outcome = Threw | Returned | Value(value: Option<Log.Value>) | Existed(found: bool)

  /** `get`: the record at the indexed offset must read back as a Put of the key. */
  function GetResult(d: DiskState, key: Key): Outcome
  {
    var m := IndexImage.Contents(IndexOf(d));
    if key !in m then Value(None)
    else if m[key] > |d.log| then Threw
    else
      var p := Parse(d.log[m[key]..]);
      if p.status.Success? && p.record.kind == Put && p.record.key == key then Value(Some(p.record.value))
      else Threw
  }

  // ---- the states between operations ----

  predicate FilesFit(d: DiskState)
  {
    |d.log| <= FILE_LIMIT && TableEnd(BucketCount(IndexOf(d))) <= FILE_LIMIT
  }

  /** The log is that of the records `rs`; the index beside it is well-formed, whatever it maps. */
  predicate Serving(d: DiskState, rs: seq<Record>)
  {
    && AllSerializable(rs) && d.log == LogOf(rs) && FilesFit(d)
    && d.index.Some? && WellFormed(IndexOf(d)) && |IndexOf(d)| <= FILE_LIMIT + 2 * |d.log|
  }

  /** Moreover the index is that of the whole log. */
  predicate CaughtUp(d: DiskState, rs: seq<Record>)
  {
    && Serving(d, rs)
    && IndexImage.Contents(IndexOf(d)) == ReplayOffsets(rs, DB_HEADER_SIZE)
    && Checkpoint(IndexOf(d)) == |d.log|
  }

  /** The state of an open database between two operations. */
  predicate InUse(d: DiskState, rs: seq<Record>)
  {
    CaughtUp(d, rs) && !Clean(IndexOf(d))
  }

  /**
   * What holds of the files at every instant, whatever the program was doing: the log is whole records
   * and at most one cut short, which only an index with an intact header allows; and a clean flag that
   * is set can be trusted.
   */
  predicate Safe(d: DiskState)
  {
    var scan := Scan(Tail(d.log));
    && LogLoads(d.log) && |d.log| <= FILE_LIMIT && (scan.stop.EndOfFile? || scan.stop.Truncated?)
    && if HeaderIntact(d) then
         TableEnd(BucketCount(IndexOf(d))) <= FILE_LIMIT && (Clean(IndexOf(d)) ==> CaughtUp(d, scan.records))
       else
         scan.stop.EndOfFile?
  }

  /** A plan for opening with `n` buckets stays within the size limit. */
  predicate OpenFits(d: DiskState, n: nat)
  {
    HeaderIntact(d) || TableEnd(n) <= FILE_LIMIT
  }
}
