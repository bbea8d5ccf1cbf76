/** The `Database` class of src/database.cpp, proved to make exactly the writes of the protocol. */
module Databases {
  import opened Codec
  import opened Records
  import opened Log
  import opened IndexImage
  import IndexUpdates
  import opened IndexPlans
  import opened IndexSetup
  import opened IndexCounts
  import opened IndexMetadata
  import opened DiskModel
  import opened HashIndex
  import opened Protocol
  import opened CrashSteps
  import opened CrashPlans
  import opened CrashRuns
  import opened LostUpdates
  import opened Recovery
  import opened Damage

  datatype ScanStatus = ScanSuccess | ScanTruncated | ScanInvalidLength | ScanChecksumMismatch | ScanInvalidType

  datatype ScanResult = ScanResult(status: ScanStatus, lastValidRecordOffset: nat, failingRecordOffset: nat)

  function ToScanStatus(stop: RecordReadStatus): ScanStatus
  {
    match stop
    case ChecksumMismatch => ScanChecksumMismatch
    case InvalidLength => ScanInvalidLength
    case InvalidType => ScanInvalidType
    case Truncated => ScanTruncated
    case EndOfFile => ScanSuccess
    case Success => ScanSuccess
  }

  /**
   * What a scan reports: where the last valid record starts (0 if there is none), and where the read
   * failed (0 if it reached the end).
   */
  function ScanReport(log: Bytes, startOffset: nat): ScanResult
  {
    var from := StartFrom(startOffset);
    var s := Scan(From(log, from));
    ScanResult(ToScanStatus(s.stop),
               if s.records == [] then 0 else from + StartOf(s.records, |s.records| - 1),
               if s.stop == EndOfFile then 0 else from + s.size)
  }

  /**
   * What a scan from record `i` on reports of whole records and what follows them: the status is the
   * verdict on what follows, under the same name; then the start of the last whole record, if there is one;
   * and where they end, unless nothing follows. Offset zero stands for the first record.
   */
  lemma ScanReported(rs: seq<Record>, i: nat, tail: Bytes, startOffset: nat)
    requires AllSerializable(rs) && i <= |rs| && !Parse(tail).status.Success?
    requires startOffset == 24 + StartOf(rs, i) || (startOffset == 0 && i == 0)
    ensures var r, verdict := ScanReport(LogOf(rs) + tail, startOffset), Parse(tail).status;
            && (r.status == ScanSuccess <==> verdict == EndOfFile)
            && (r.status == ScanTruncated <==> verdict == RecordReadStatus.Truncated)
            && (r.status == ScanInvalidLength <==> verdict == RecordReadStatus.InvalidLength)
            && (r.status == ScanChecksumMismatch <==> verdict == ChecksumMismatch)
            && (r.status == ScanInvalidType <==> verdict == InvalidType)
            && r.lastValidRecordOffset == (if i == |rs| then 0 else 24 + StartOf(rs, |rs| - 1))
            && r.failingRecordOffset == (if tail == [] then 0 else |LogOf(rs)|)
  {
    hide Parse, Scan, EncodeAll, AllSerializable, LogOf, DbHeader;
    var log, from, part := LogOf(rs) + tail, 24 + StartOf(rs, i), rs[i..];
    LogSize(rs);
    StartsSum(rs, i);
    FromRecord(rs, i, tail);
    SomeOf(rs, i);
    ScanEncoded(part, tail);
    ScanFailing(tail);
    assert part + [] == part;
    EndOfFileIsEmpty(tail);
  }

  /** The bytes of a log from one of its records on. */
  lemma FromRecord(rs: seq<Record>, i: nat, tail: Bytes)
    requires i <= |rs|
    ensures From(LogOf(rs) + tail, 24 + StartOf(rs, i)) == EncodeAll(rs[i..]) + tail
    ensures i == 0 ==> StartOf(rs, i) == 0
  {
    hide EncodeAll, DbHeader;
    EncodeAllConcat(rs[..i], rs[i..]);
    assert rs[..i] + rs[i..] == rs;
    var header, before, after := DbHeader(), EncodeAll(rs[..i]), EncodeAll(rs[i..]);
    assert LogOf(rs) + tail == header + before + (after + tail);
    assert (header + before + (after + tail))[24 + |before|..] == after + tail;
    if i == 0 {
      EncodeAllNothing();
    }
  }

  lemma StartsSum(rs: seq<Record>, i: nat)
    requires i <= |rs|
    ensures |EncodeAll(rs)| == StartOf(rs, i) + |EncodeAll(rs[i..])|
    ensures i < |rs| ==> StartOf(rs, |rs| - 1) == StartOf(rs, i) + StartOf(rs[i..], |rs| - i - 1)
  {
    hide EncodeAll;
    EncodeAllConcat(rs[..i], rs[i..]);
    assert rs[..i] + rs[i..] == rs;
    if i < |rs| {
      var n := |rs| - 1;
      EncodeAllConcat(rs[..i], rs[i..][..n - i]);
      assert rs[..i] + rs[i..][..n - i] == rs[..n];
    }
  }

  lemma LogSize(rs: seq<Record>)
    ensures |LogOf(rs)| == DB_HEADER_SIZE + |EncodeAll(rs)|
  {
  }

  /** A damaged record is reported as a bad checksum or type, at its start. */
  lemma DamageReported(rs: seq<Record>, i: nat, t: Bytes, at: nat)
    requires AllSerializable(rs) && i < |rs| && DamagedRecord(rs[i], t, at)
    ensures var r, typed := ScanReport(DamagedLog(rs, i, t), 0), t[0] == 1 || t[0] == 2;
            && r.status == (if typed then ScanChecksumMismatch else ScanInvalidType)
            && r.lastValidRecordOffset == (if i == 0 then 0 else 24 + StartOf(rs, i - 1))
            && r.failingRecordOffset == 24 + StartOf(rs, i)
  {
    hide Parse, Scan, EncodeAll, AllSerializable, DbHeader, Encode;
    var rest := t + EncodeAll(rs[i + 1..]);
    assert forall q | q in rs[..i] :: q in rs by { assert AllSerializable(rs); }
    DamageDetected(rs[i], t, at, EncodeAll(rs[i + 1..])) by { assert Serializable(rs[i]) by { OneOf(rs, i); } }
    ParseVerdicts(rest);
    SomeOf(rs, i);
    ScanReported(rs[..i], 0, rest, 0);
    Associative(DbHeader(), EncodeAll(rs[..i]), rest);
    LogSize(rs[..i]);
    if i > 0 {
      assert rs[..i][..i - 1] == rs[..i - 1];
    }
  }

  lemma OneOf(rs: seq<Record>, i: nat)
    requires AllSerializable(rs) && i < |rs|
    ensures Serializable(rs[i])
  {
  }

  lemma SomeOf(rs: seq<Record>, i: nat)
    requires AllSerializable(rs) && i <= |rs|
    ensures AllSerializable(rs[..i]) && AllSerializable(rs[i..])
  {
  }

  /** Seeking past the end leaves nothing to read. */
  lemma FromSeek(log: Bytes, p: nat)
    ensures From(log, p) == log[if p <= |log| then p else |log|..]
  {
  }

  /** After `n` of the bytes behind `p`. */
  lemma FromAdvance(log: Bytes, p: nat, n: nat)
    requires 0 < n <= |From(log, p)|
    ensures p + n <= |log| && From(log, p + n) == From(log, p)[n..] == log[p + n..]
  {
  }

  /** The records read so far and those still to be read make up the scan. */
  lemma ScanAdvance(rs: seq<Record>, rest: Bytes, all: Scanned)
    requires all.records == rs + Scan(rest).records && all.size == |EncodeAll(rs)| + Scan(rest).size
    requires all.stop == Scan(rest).stop && Parse(rest).status.Success?
    ensures var p := Parse(rest);
            && Serializable(p.record) && p.size == |Encode(p.record)|
            && all.records == rs + [p.record] + Scan(rest[p.size..]).records
            && all.size == |EncodeAll(rs + [p.record])| + Scan(rest[p.size..]).size
            && all.stop == Scan(rest[p.size..]).stop
  {
    hide Parse, Encode, EncodeAll, Serializable;
    var p := Parse(rest);
    ParseSound(rest);
    EncodeAllSnoc(rs, p.record);
    Associative(rs, [p.record], Scan(rest[p.size..]).records);
  }

  lemma ScanStops(rs: seq<Record>, rest: Bytes, all: Scanned)
    requires all.records == rs + Scan(rest).records && all.size == |EncodeAll(rs)| + Scan(rest).size
    requires all.stop == Scan(rest).stop && !Parse(rest).status.Success?
    ensures all == Scanned(rs, |EncodeAll(rs)|, Parse(rest).status)
  {
    hide Parse, EncodeAll;
    assert rs + [] == rs;
  }

  lemma EncodeAllNothing()
    ensures EncodeAll([]) == []
  {
  }

  /** The log of an open database ends after a whole record, and its files have room for another. */
  lemma AttachedEnd(d: DiskState)
    requires Attached(d)
    ensures |d.log| >= DB_HEADER_SIZE && LogLoads(d.log) && Scan(Tail(d.log)).stop == EndOfFile
    ensures |IndexOf(d)| + 20 + MAX_KEY_SIZE <= MAX_U64 && |d.log| <= FILE_LIMIT
    ensures TableEnd(BucketCount(IndexOf(d))) <= FILE_LIMIT && OffsetsBelow(IndexImage.Contents(IndexOf(d)), |d.log|)
  {
    hide WellFormed, Scan, AllSerializable, RecordsOf, IndexImage.Contents, LogLoads, LogContents, Replay, LogOf,
      BucketCount, Checkpoint, Clean, Serving, HeaderIntact, OffsetsBelow;
    ServingParts(d, RecordsOf(d.log));
  }

  lemma DbHeaderExact(log: Bytes)
    ensures LogLoads(log) <==>
              && |log| >= DB_HEADER_SIZE && De(log[0..4]) == |DB_MAGIC| && log[4..20] == DB_MAGIC
              && De(log[20..24]) == DB_VERSION
  {
    hide Le, De, U32Bytes, DbHeader;
    if |log| >= DB_HEADER_SIZE {
      var head := log[..DB_HEADER_SIZE];
      U32Decoded(log[0..4]);
      U32Decoded(log[20..24]);
      U32RoundTrip(|DB_MAGIC|);
      U32RoundTrip(DB_VERSION);
      SliceOfSlice(log, 0, DB_HEADER_SIZE, 0, 4);
      SliceOfSlice(log, 0, DB_HEADER_SIZE, 4, 20);
      SliceOfSlice(log, 0, DB_HEADER_SIZE, 20, 24);
      DbHeaderFields();
      assert head == log[0..4] + log[4..20] + log[20..24];
      assert LogLoads(log) <==> head == DbHeader();
    }
  }

  lemma DbHeaderFields()
    ensures var s := DbHeader();
            && s[0..4] == U32Bytes(|DB_MAGIC|) && s[4..20] == DB_MAGIC && s[20..24] == U32Bytes(DB_VERSION)
            && s == s[0..4] + s[4..20] + s[20..24]
  {
    hide Le, U32Bytes;
  }

  lemma StagingSnoc(rs: seq<Record>, r: Record, base: nat, n: nat)
    requires BucketCount(Rebuilt(rs, base, n)) > 0
    ensures StagingPlan(rs + [r], base, n)
         == StagingPlan(rs, base, n) + Lift(Staged, RecordPlan(Rebuilt(rs, base, n), r, base + |EncodeAll(rs)|))
  {
    hide ReplayPlan, RecordPlan, Rebuilt, EncodeAll, BucketCount;
    ReplayPlanSnoc(rs, r, base, n);
    var plan := ReplayPlan(rs, base, n);
    var more := RecordPlan(Rebuilt(rs, base, n), r, base + |EncodeAll(rs)|);
    LiftConcat(Staged, plan, more);
    Associative([CreateIndex(Staged)], Lift(Staged, plan), Lift(Staged, more));
  }

  /** The staging index is within bounds at every point of a rebuild. */
  lemma StagingFits(size: nat, rs: seq<Record>, base: nat, n: nat)
    requires AllSerializable(rs) && size <= FILE_LIMIT && 0 < n && TableEnd(n) <= FILE_LIMIT
    requires base + |EncodeAll(rs)| <= MAX_U64 && |EncodeAll(rs)| <= size
    ensures var img := Rebuilt(rs, base, n);
            WellFormed(img) && BucketCount(img) == n && |img| + 20 + MAX_KEY_SIZE <= MAX_U64
  {
    hide WellFormed, BucketCount, Rebuilt, EncodeAll, AllSerializable, ReplayOffsets, IndexImage.Contents;
    RebuildExact(rs, base, n);
  }

  lemma WroteNothing(disk: Disk)
    ensures disk.Wrote(disk.State(), disk.journal, [])
  {
    assert disk.journal + [] == disk.journal;
  }

  lemma WroteState(disk: Disk, d: DiskState, j: seq<DiskWrite>, ws: seq<DiskWrite>)
    requires disk.Wrote(d, j, ws)
    ensures disk.State() == DoAll(d, ws) && disk.journal == j + ws
    ensures ws == [] ==> disk.State() == d
  {
    hide Do;
  }

  /** The cached fields of an installed index are those on disk. */
  lemma LoadedFields(index: Index)
    requires index.Loaded() && index.slot == Installed
    ensures var img := IndexOf(index.disk.State());
            && index.Img() == img && Loads(img) && index.numBuckets == BucketCount(img) > 0
            && index.indexedUpTo == Checkpoint(img) && (index.clean <==> Clean(img))
  {
    hide Headed, Checkpoint, Clean;
    HeaderRead(index.Img(), index.numBuckets);
    IndexUpdates.HeadedEnd(index.Img(), index.numBuckets);
  }

  /** After its valid part is cut out, a log ends cleanly. */
  lemma TruncatedLogClean(log: Bytes)
    requires LogLoads(log)
    ensures |log| >= DB_HEADER_SIZE
    ensures LogLoads(log[..ValidEnd(log)]) && Scan(Tail(log[..ValidEnd(log)])).stop == EndOfFile
    ensures RecordsOf(log[..ValidEnd(log)]) == RecordsOf(log)
  {
    hide Scan, LogOf, AllSerializable, LogLoads, EncodeAll;
    HeaderLength(log);
    ValidPart(log);
    LogFacts(RecordsOf(log));
  }

  lemma PlannedPut(d: DiskState, key: Key, value: Log.Value)
    ensures OutcomeOf(OpPut(key, value), d) == if CanStore(key, value) then Returned else Threw
    ensures !CanStore(key, value) ==> PlanOf(OpPut(key, value), d) == []
  {
    hide BucketCount, SetPlan, Encode, CheckpointPatch;
  }

  lemma PlannedErase(d: DiskState, key: Key)
    ensures OutcomeOf(OpErase(key), d) == Existed(key in IndexImage.Contents(IndexOf(d)))
    ensures key !in IndexImage.Contents(IndexOf(d)) ==> PlanOf(OpErase(key), d) == []
  {
    hide BucketCount, ErasePlan, Encode, CheckpointPatch, IndexImage.Contents;
  }

  lemma LoggedLog(d: DiskState, data: Bytes, plan: seq<Patch>)
    requires d.index.Some?
    ensures DoAll(d, [AppendLog(data)] + Lift(Installed, plan)).log == d.log + data
  {
    hide DoAll, ApplyPatches, Lift;
    var d1 := Do(d, AppendLog(data));
    DoAllConcat(d, [AppendLog(data)], Lift(Installed, plan));
    DoAllOne(d, AppendLog(data));
    DoLifted(d1, Installed, plan);
  }

  /** The writes of a `put` that was accepted are its plan. */
  lemma PutWritten(disk: Disk, d: DiskState, j: seq<DiskWrite>, key: Key, value: Log.Value,
                   append: DiskWrite, plan: seq<Patch>, end: nat)
    requires CanStore(key, value) && d.index.Some? && BucketCount(IndexOf(d)) > 0
    requires append == AppendLog(Encode(Record(RecordType.Put, key, value)))
    requires plan == SetPlan(IndexOf(d), key, |d.log|) && end == |d.log| + |append.data|
    requires disk.Wrote(d, j, [append] + Lift(Installed, plan + [CheckpointPatch(end)]))
    ensures disk.Wrote(d, j, PlanOf(OpPut(key, value), d)) && disk.State() == DoAll(d, PlanOf(OpPut(key, value), d))
    ensures disk.log == d.log + append.data
  {
    hide BucketCount, SetPlan, Encode, CheckpointPatch, DoAll, Lift, Disk.Wrote;
    assert PlanOf(OpPut(key, value), d) == [append] + Lift(Installed, plan + [CheckpointPatch(end)]);
    WroteState(disk, d, j, PlanOf(OpPut(key, value), d));
    LoggedLog(d, append.data, plan + [CheckpointPatch(end)]);
  }

  /** The writes of an `erase` that found its key are its plan. */
  lemma EraseWritten(disk: Disk, d: DiskState, j: seq<DiskWrite>, key: Key,
                     append: DiskWrite, plan: seq<Patch>, end: nat)
    requires key in IndexImage.Contents(IndexOf(d)) && d.index.Some? && BucketCount(IndexOf(d)) > 0
    requires append == AppendLog(Encode(Record(RecordType.Delete, key, [])))
    requires plan == ErasePlan(IndexOf(d), key) && end == |d.log| + |append.data|
    requires disk.Wrote(d, j, [append] + Lift(Installed, plan + [CheckpointPatch(end)]))
    ensures disk.Wrote(d, j, PlanOf(OpErase(key), d)) && disk.State() == DoAll(d, PlanOf(OpErase(key), d))
    ensures disk.log == d.log + append.data
  {
    hide BucketCount, ErasePlan, Encode, CheckpointPatch, DoAll, Lift, Disk.Wrote, IndexImage.Contents;
    assert PlanOf(OpErase(key), d) == [append] + Lift(Installed, plan + [CheckpointPatch(end)]);
    WroteState(disk, d, j, PlanOf(OpErase(key), d));
    LoggedLog(d, append.data, plan + [CheckpointPatch(end)]);
  }

  /** The three stretches of a logged operation are its plan. */
  lemma LoggedWrites(append: DiskWrite, plan: seq<Patch>, checkpoint: Patch)
    ensures [append] + Lift(Installed, plan) + Lift(Installed, [checkpoint])
         == [append] + Lift(Installed, plan + [checkpoint])
  {
    LiftConcat(Installed, plan, [checkpoint]);
    Associative([append], Lift(Installed, plan), Lift(Installed, [checkpoint]));
  }

  lemma TrustedIndex(d: DiskState)
    requires Safe(d) && HeaderIntact(d) && Clean(IndexOf(d))
    ensures WellFormed(IndexOf(d))
  {
    hide Scan, Loads, WellFormed, LogLoads, Checkpoint, IndexImage.Contents, ReplayOffsets, BucketCount, LogOf,
      AllSerializable;
  }

  /** What the constructor leaves, when it rebuilt the index or found files that a kill can leave. */
  lemma OpenLeavesUsable(d: DiskState, n: nat)
    requires |d.log| <= FILE_LIMIT && TableEnd(n) <= FILE_LIMIT
    requires Loads(IndexOf(d)) ==> TableEnd(BucketCount(IndexOf(d))) <= FILE_LIMIT
    requires OpenPlan(d, n).Opens? && (OpenPlan(d, n).report.action == FullIndexRebuild || Safe(d))
    ensures var d' := DoAll(d, OpenPlan(d, n).plan);
            Opened(d') && LogContents(d'.log) == LogContents(d.log)
  {
    hide DoAll, Scan, Loads, BucketCount, Opened, CrashSafe, Safe, RecordsOf, InUse, Replay, LogContents,
      RecoverPlan, RebuildPlan, LogLoads, Clean, Checkpoint;
    if Safe(d) {
      OpenSafe(d, n) by { OpenNeedsBuckets(d, n); }
    } else {
      OpenRebuilds(d, n);
      OpenedLog(d, n);
      ValidPart(d.log);
    }
    InUseOpen(DoAll(d, OpenPlan(d, n).plan), RecordsOf(d.log));
  }

  lemma OpenNeedsBuckets(d: DiskState, n: nat)
    requires OpenPlan(d, n).Opens?
    ensures n > 0
  {
    hide Scan, LogLoads, Loads, RecoverPlan, RebuildPlan, Clean, Checkpoint;
  }

  lemma OpenedLog(d: DiskState, n: nat)
    requires OpenPlan(d, n).Opens?
    ensures LogLoads(d.log)
  {
    hide Scan, LogLoads, Loads, RecoverPlan, RebuildPlan, Clean, Checkpoint;
  }

  class Database {
    const disk: Disk
    var index: Index?
    var closed: bool
    var report: RecoveryReport

    /** It is closed, or has an index file that loads and caches its header fields. */
    ghost predicate Bound()
      reads this, disk, index
    {
      closed || (index != null && index.disk == disk && index.slot == Installed && index.Loaded())
    }

    /** It is closed, or its files are sound. The index may lag behind the log. */
    ghost predicate Valid()
      reads this, disk, index
    {
      closed || (Bound() && index.Valid() && Attached(disk.State()))
    }

    /** It is open and its index is that of the whole log. */
    ghost predicate Usable()
      reads this, disk, index
    {
      !closed && Valid() && Opened(disk.State())
    }

    /**
     * The call, made on the files `d`, left stale the keys it should, the checkpoint where it should, and the
     * index with as many buckets as before.
     */
    ghost predicate Settled(call: Call, d: DiskState)
      reads disk
    {
      && Possible(d, call)
      && Stale(disk.State()) == StaleAfter(Stale(d), d, call)
      && (Lags(disk.State()) <==> LagsAfter(Lags(d), d, call))
      && BucketCount(IndexOf(disk.State())) == BucketCount(IndexOf(d))
    }

    /**
     * Since the files `d` and the journal `j`, exactly the writes of `op` were made in their order, and
     * the database did what a map does: `outcome` and the new contents are those of the map operation.
     */
    ghost predicate Did(op: Op, d: DiskState, j: seq<DiskWrite>, outcome: Outcome)
      reads disk
    {
      && disk.Wrote(d, j, PlanOf(op, d)) && outcome == OutcomeOf(op, d)
      && outcome == Expected(op, LogContents(d.log))
      && LogContents(disk.log) == Effect(op, LogContents(d.log))
    }

    constructor (disk: Disk, index: Index, report: RecoveryReport)
      ensures this.disk == disk && this.index == index && !closed && this.report == report
    {
      this.disk, this.index, this.closed, this.report := disk, index, false, report;
    }

    /** `scan_records`: the longest run of valid records from the given offset on. */
    static method ScanLog(disk: Disk, startOffset: nat) returns (r: ScanResult)
      ensures r == ScanReport(disk.log, startOffset)
    {
      hide Parse, Encode, EncodeAll, Scan, Serializable, From;
      var file := new InputStream(disk.log);
      var recordStart: nat, lastValid: nat := if startOffset == 0 then DB_HEADER_SIZE else startOffset, 0;
      ghost var from := recordStart;
      file.Seek(if recordStart <= |disk.log| then recordStart else |disk.log|);
      ghost var all, rs: seq<Record>, rest := Scan(From(disk.log, from)), [], From(disk.log, from);
      FromSeek(disk.log, from);
      EncodeAllNothing();
      assert [] + all.records == all.records;
      var status, record := Read(file, Record(RecordType.Put, [], []));
      while status == RecordReadStatus.Success
        invariant file.bytes == disk.log && file.Valid()
        invariant rest == From(disk.log, recordStart) && recordStart == from + |EncodeAll(rs)|
        invariant all.records == rs + Scan(rest).records && all.size == |EncodeAll(rs)| + Scan(rest).size
        invariant all.stop == Scan(rest).stop
        invariant status == Parse(rest).status
        invariant status.Success? ==> file.pos == recordStart + Parse(rest).size
        invariant lastValid == if rs == [] then 0 else from + StartOf(rs, |rs| - 1)
        decreases |rest|
      {
        lastValid := recordStart;
        ScanAdvance(rs, rest, all);
        ghost var r1 := rs + [Parse(rest).record];
        EncodeAllSnoc(rs, Parse(rest).record);
        assert r1[..|r1| - 1] == rs;
        FromAdvance(disk.log, recordStart, Parse(rest).size);
        recordStart := file.pos;
        rs := r1;
        rest := From(disk.log, recordStart);
        status, record := Read(file, record);
      }
      ScanStops(rs, rest, all);
      r := ScanResult(ToScanStatus(status), lastValid, if status == EndOfFile then 0 else recordStart);
    }

    /** `scan_records`; from the first record the log of an open database is always clean. */
    method ScanRecords(startOffset: nat) returns (outcome: Outcome, r: ScanResult)
      requires Valid()
      ensures outcome == if closed then Threw else Returned
      ensures !closed ==> r == ScanReport(disk.log, startOffset)
      ensures !closed && startOffset == 0 ==>
                var rs := RecordsOf(disk.log);
                r == ScanResult(ScanSuccess, if rs == [] then 0 else DB_HEADER_SIZE + StartOf(rs, |rs| - 1), 0)
    {
      hide Scan, EncodeAll, Attached;
      r := ScanResult(ScanSuccess, 0, 0);
      if closed {
        return Threw, r;
      }
      AttachedEnd(disk.State());
      r := ScanLog(disk, startOffset);
      outcome := Returned;
    }

    /**
     * `rebuild_index_impl`: replays the log from an offset on into a staging index, renames it into place
     * and sets the checkpoint. If reading from there does not reach the end of the log after a whole
     * record, the installed index is left as it was.
     */
    static method RebuildIndexImpl(disk: Disk, startOffset: nat, buckets: nat) returns (r: Option<Index>)
      requires |disk.log| <= FILE_LIMIT && startOffset <= MAX_U64 && 0 < buckets && TableEnd(buckets) <= FILE_LIMIT
      modifies disk
      ensures var from := StartFrom(startOffset);
              && (r.Some? <==> Scan(From(old(disk.log), from)).stop == EndOfFile)
              && (r.Some? ==>
                    && fresh(r.value) && r.value.disk == disk && r.value.slot == Installed && r.value.Valid()
                    && disk.Wrote(old(disk.State()), old(disk.journal),
                                  RebuildFromPlan(old(disk.log), from, buckets)))
      ensures r.None? ==> disk.State() == old(disk.State()).(staging := None)
    {
      hide Parse, Encode, EncodeAll, Scan, Serializable, DoAll, WellFormed, ApplyPatches, ApplyPatch,
        ReplayPlan, RecordPlan, Rebuilt;
      hide U64Bytes, IndexImage.Contents, BucketCount, Headed, Clean, Checkpoint, SetupPlan, StagingPlan,
        Disk.Wrote, EmptyImage, ReplayOffsets, Loads, InstallPlan, From;
      ghost var d, j, log := disk.State(), disk.journal, disk.log;
      var file := new InputStream(disk.log);
      var recordStart: nat := if startOffset == 0 then DB_HEADER_SIZE else startOffset;
      ghost var from := recordStart;
      file.Seek(if recordStart <= |disk.log| then recordStart else |disk.log|);
      ghost var all, rs: seq<Record>, rest := Scan(From(log, from)), [], From(log, from);
      FromSeek(log, from);
      var temporary := StartRebuild(disk, from, buckets);
      EncodeAllNothing();
      assert [] + all.records == all.records;
      var status, record := Read(file, Record(RecordType.Put, [], []));
      while status == RecordReadStatus.Success
        invariant file.bytes == log && file.Valid() && fresh(file) && fresh(temporary)
        invariant rest == From(log, recordStart) && (rs == [] || recordStart <= |log|)
        invariant recordStart == from + |EncodeAll(rs)| && AllSerializable(rs)
        invariant all.records == rs + Scan(rest).records && all.size == |EncodeAll(rs)| + Scan(rest).size
        invariant all.stop == Scan(rest).stop && status == Parse(rest).status
        invariant status.Success? ==> file.pos == recordStart + Parse(rest).size && record == Parse(rest).record
        invariant temporary.disk == disk && temporary.slot == Staged && temporary.Valid()
        invariant disk.Wrote(d, j, StagingPlan(rs, from, buckets))
        decreases |rest|
      {
        ScanAdvance(rs, rest, all);
        FromAdvance(log, recordStart, Parse(rest).size);
        ReplayRecord(temporary, record, recordStart, rs, from, d, j, buckets);
        EncodeAllSnoc(rs, record);
        assert forall q | q in rs + [record] :: q in rs || q == record;
        recordStart := file.pos;
        rs := rs + [record];
        rest := From(log, recordStart);
        status, record := Read(file, record);
      }
      ScanStops(rs, rest, all);
      if status != EndOfFile {
        Abandon(disk, d, j, rs, from, buckets);
        return None;
      }
      var index := Install(disk, d, j, rs, from, buckets);
      r := Some(index);
    }

    /** The staging file and an empty index in it. */
    static method StartRebuild(disk: Disk, ghost base: nat, buckets: nat) returns (index: Index)
      requires 0 < buckets && TableEnd(buckets) <= FILE_LIMIT
      modifies disk
      ensures fresh(index) && index.disk == disk && index.slot == Staged && index.Valid()
      ensures disk.Wrote(old(disk.State()), old(disk.journal), StagingPlan([], base, buckets))
    {
      hide DoAll, WellFormed, ApplyPatches, BucketCount, Headed, Clean, Checkpoint, SetupPlan, EmptyImage,
        IndexImage.Contents;
      ghost var d, j := disk.State(), disk.journal;
      disk.CreateIndexFile(Staged);
      DoAllOne(d, CreateIndex(Staged));
      ghost var d1, j1 := disk.State(), disk.journal;
      index := Index.Setup(disk, Staged, buckets);
      WroteMore(disk, d, j, [CreateIndex(Staged)], d1, j1, Lift(Staged, SetupPlan(buckets)));
      NoRecords(base, buckets);
    }

    /** One turn of the rebuild loop: the record's effect on the staging index. */
    static method ReplayRecord(temporary: Index, record: Record, start: nat, ghost rs: seq<Record>,
                               ghost base: nat, ghost d: DiskState, ghost j: seq<DiskWrite>, ghost buckets: nat)
      requires temporary.slot == Staged && temporary.Valid()
      requires AllSerializable(rs) && Serializable(record) && start == base + |EncodeAll(rs)|
      requires 0 < buckets && TableEnd(buckets) <= FILE_LIMIT && start <= |d.log| <= FILE_LIMIT
      requires temporary.disk.Wrote(d, j, StagingPlan(rs, base, buckets))
      modifies temporary.disk
      ensures temporary.Valid()
      ensures temporary.disk.Wrote(d, j, StagingPlan(rs + [record], base, buckets))
    {
      hide DoAll, Do, WellFormed, ApplyPatches, BucketCount, Headed, Clean, Checkpoint, IndexImage.Contents,
        StagingPlan, Rebuilt, SetPlan, ErasePlan, AllSerializable, EncodeAll;
      var disk := temporary.disk;
      ghost var d1, j1, img := disk.State(), disk.journal, temporary.Img();
      Staging(d, rs, base, buckets);
      StagingFits(|d.log|, rs, base, buckets);
      match record.kind {
        case Put =>
          var ok := temporary.Set(record.key, start);
          assert ok;
        case Delete =>
          var _ := temporary.Erase(record.key);
      }
      WroteMore(disk, d, j, StagingPlan(rs, base, buckets), d1, j1, Lift(Staged, RecordPlan(img, record, start)));
      StagingSnoc(rs, record, base, buckets);
    }

    /** The failure path of a rebuild: the staging directory is removed. */
    static method Abandon(disk: Disk, ghost d: DiskState, ghost j: seq<DiskWrite>, ghost rs: seq<Record>,
                          ghost base: nat, ghost buckets: nat)
      requires disk.Wrote(d, j, StagingPlan(rs, base, buckets))
      modifies disk
      ensures disk.State() == d.(staging := None)
    {
      hide DoAll, StagingPlan, Rebuilt;
      Staging(d, rs, base, buckets);
      ghost var d1 := disk.State();
      disk.RemoveStagedIndex();
      DoAllOne(d1, RemoveStaged);
    }

    /** The success path: rename, load the installed file, set its checkpoint. */
    static method Install(disk: Disk, ghost d: DiskState, ghost j: seq<DiskWrite>, ghost rs: seq<Record>,
                          ghost base: nat, ghost buckets: nat)
      returns (index: Index)
      requires disk.Wrote(d, j, StagingPlan(rs, base, buckets))
      requires AllSerializable(rs) && rs == Scan(From(d.log, base)).records && |d.log| <= FILE_LIMIT
      requires base + |EncodeAll(rs)| <= MAX_U64 && |EncodeAll(rs)| <= |d.log|
      requires 0 < buckets && TableEnd(buckets) <= FILE_LIMIT
      modifies disk
      ensures fresh(index) && index.disk == disk && index.slot == Installed && index.Valid()
      ensures disk.Wrote(d, j, RebuildFromPlan(d.log, base, buckets))
    {
      hide DoAll, StagingPlan, Rebuilt, WellFormed, BucketCount, Headed, Clean, Checkpoint, IndexImage.Contents,
        Loads, AllSerializable, CheckpointPatch, InstallPlan, Scan, EncodeAll, Disk.Wrote;
      ghost var staging := StagingPlan(rs, base, buckets);
      WroteState(disk, d, j, staging);
      Staging(d, rs, base, buckets);
      StagingFits(|d.log|, rs, base, buckets);
      ghost var d1, j1 := disk.State(), disk.journal;
      disk.InstallStagedIndex();
      DoAllOne(d1, InstallStaged);
      WroteState(disk, d1, j1, [InstallStaged]);
      WroteMore(disk, d, j, staging, d1, j1, [InstallStaged]);
      WellFormedLoads(Rebuilt(rs, base, buckets));
      var loaded := Index.Load(disk, Installed);
      index := loaded.value;
      ghost var d2, j2 := disk.State(), disk.journal;
      WroteState(disk, d, j, staging + [InstallStaged]);
      index.SetIndexedUpTo(|disk.log|);
      WroteMore(disk, d, j, staging + [InstallStaged], d2, j2, Lift(Installed, [CheckpointPatch(|d.log|)]));
      InstallPlanParts(|d.log|);
      Associative(staging, [InstallStaged], Lift(Installed, [CheckpointPatch(|d.log|)]));
    }

    /**
     * The body of `recover_records`: scan, cut an incomplete tail off, rebuild. Any other damage is
     * reported before anything is written.
     */
    static method RecoverImpl(disk: Disk, buckets: nat) returns (r: Option<Index>, truncatedBytes: nat)
      requires LogLoads(disk.log) && |disk.log| <= FILE_LIMIT && 0 < buckets && TableEnd(buckets) <= FILE_LIMIT
      modifies disk
      ensures |old(disk.log)| >= DB_HEADER_SIZE
      ensures r.Some? <==> RecoverPlan(old(disk.log), buckets).Some?
      ensures r.Some? ==>
                && fresh(r.value) && r.value.disk == disk && r.value.slot == Installed && r.value.Valid()
                && disk.Wrote(old(disk.State()), old(disk.journal), RecoverPlan(old(disk.log), buckets).value)
                && truncatedBytes == TruncatedBytes(old(disk.log)) == |old(disk.log)| - |disk.log|
                && disk.log <= old(disk.log) && BucketCount(IndexOf(disk.State())) == buckets
      ensures r.None? ==> disk.Wrote(old(disk.State()), old(disk.journal), [])
    {
      hide DoAll, Scan, WellFormed, BucketCount, Headed, Clean, Checkpoint, RebuildFromPlan, LogOf, AllSerializable,
        LogLoads, From, EncodeAll;
      ghost var d, j, log := disk.State(), disk.journal, disk.log;
      HeaderLength(log);
      RecoverDone(d, buckets);
      WroteNothing(disk);
      var scan := ScanLog(disk, 0);
      truncatedBytes := 0;
      r := None;
      match scan.status {
        case ScanSuccess =>
          r := RebuildIndexImpl(disk, 0, buckets);
        case ScanTruncated =>
          assert scan.failingRecordOffset == ValidEnd(log);
          truncatedBytes := |disk.log| - scan.failingRecordOffset;
          disk.TruncateLog(scan.failingRecordOffset);
          DoAllOne(d, ResizeLog(scan.failingRecordOffset));
          ghost var d1, j1 := disk.State(), disk.journal;
          TruncatedLogClean(log);
          r := RebuildIndexImpl(disk, 0, buckets);
          WroteMore(disk, d, j, [ResizeLog(scan.failingRecordOffset)], d1, j1, RebuildPlan(d1.log, buckets));
        case _ =>
      }
      if r.Some? {
        WroteState(disk, d, j, RecoverPlan(log, buckets).value);
      }
    }

    /** `Database::load`: magic and version of the log. */
    static method LoadLog(log: Bytes) returns (ok: bool)
      ensures ok == LogLoads(log)
    {
      hide De, LogLoads;
      DbHeaderExact(log);
      if |log| >= DB_HEADER_SIZE {
        SliceOfTail(log, 4, 16);
        SliceOfTail(log, 20, 4);
      }
      assert log[0..] == log;
      var file := new InputStream(log);
      var status, magic := file.ReadString([], |DB_MAGIC|);
      if status != ReadStatus.Success || magic != DB_MAGIC {
        return false;
      }
      var version;
      status, version := file.ReadUint32();
      ok := status == ReadStatus.Success && version == DB_VERSION;
    }

    /** `Database::setup`: the header of a new log. */
    static method SetupLog(disk: Disk)
      requires disk.log == []
      modifies disk
      ensures disk.log == DbHeader() && disk.index == old(disk.index) && disk.staging == old(disk.staging)
    {
      hide U32Bytes, DoAll;
      ghost var d := disk.State();
      var stream := new OutputStream();
      var _ := stream.WriteString(DB_MAGIC, |DB_MAGIC|);
      stream.WriteUint32(DB_VERSION);
      disk.AppendToLog(stream.bytes);
      DoAllOne(d, AppendLog(stream.bytes));
    }

    /**
     * The constructor when there is no log. An index may be there, if it is an empty one: it cannot be
     * rebuilt from anything. What is opened is a state every run may start from.
     */
    static method Create(disk: Disk, buckets: nat) returns (r: Option<Database>)
      requires disk.log == [] && disk.staging == None && TableEnd(buckets) <= FILE_LIMIT
      requires Loads(IndexOf(disk.State())) ==>
                 WellFormed(IndexOf(disk.State())) && |IndexOf(disk.State())| <= FILE_LIMIT
      modifies disk
      ensures r.Some? <==>
                && buckets > 0
                && (old(disk.index) == None
                    || (Loads(old(disk.index).value) && IndexImage.Contents(old(disk.index).value) == map[]))
      ensures r.None? ==> disk.State() == old(disk.State())
      ensures r.Some? ==>
                && fresh(r.value) && r.value.disk == disk && r.value.Usable() && LogContents(disk.log) == map[]
                && Begun(CrashRuns.State(disk.State(), Up, []))
                && disk.log == DbHeader()
                && disk.index == Some(Prepared(if old(disk.index).Some? then old(disk.index).value
                                               else EmptyImage(buckets)))
                && (old(disk.index) == None ==> disk.State() == Created(buckets).disk)
    {
      hide DoAll, WellFormed, BucketCount, Headed, Clean, Checkpoint, IndexImage.Contents, CheckpointPatch,
        CleanPatch, EmptyImage, SetupPlan, DbHeader, ApplyPatch, ApplyPatches, Opened, LogContents, Disk.Wrote,
        Loads, Attached;
      if buckets == 0 {
        return None;
      }
      var index: Index;
      if disk.index.Some? {
        var loaded := Index.Load(disk, Installed);
        if loaded.None? {
          return None;
        }
        index := loaded.value;
      } else {
        index := NewIndex(disk, buckets);
      }
      var empty := index.IsEmpty();
      if !empty {
        return None;
      }
      ghost var img := index.Img();
      SetupLog(disk);
      ghost var d2, j2 := disk.State(), disk.journal;
      index.SetIndexedUpTo(|disk.log|);
      WroteIndex(disk, d2, j2, Installed, [CheckpointPatch(DB_HEADER_SIZE)]);
      ApplyOne(img, CheckpointPatch(DB_HEADER_SIZE));
      ghost var d3, j3 := disk.State(), disk.journal;
      index.SetClean(false);
      WroteIndex(disk, d3, j3, Installed, [CleanPatch(false)]);
      ApplyOne(ApplyPatch(img, CheckpointPatch(DB_HEADER_SIZE)), CleanPatch(false));
      assert disk.State() == DiskState(DbHeader(), Some(Prepared(img)), None);
      PreparedOpen(img);
      OpenedAttached(disk.State());
      var database := new Database(disk, index, RecoveryReport(NoReason, NoAction, 0));
      r := Some(database);
    }

    /** The index file of a new database. */
    static method NewIndex(disk: Disk, buckets: nat) returns (index: Index)
      requires 0 < buckets && TableEnd(buckets) <= FILE_LIMIT
      modifies disk
      ensures fresh(index) && index.disk == disk && index.slot == Installed && index.Valid() && index.Map() == map[]
      ensures disk.State() == old(disk.State()).(index := Some(EmptyImage(buckets)))
    {
      hide DoAll, WellFormed, BucketCount, Headed, Clean, Checkpoint, IndexImage.Contents, EmptyImage, SetupPlan,
        ApplyPatch, ApplyPatches, Disk.Wrote;
      ghost var d, j := disk.State(), disk.journal;
      disk.CreateIndexFile(Installed);
      DoAllOne(d, CreateIndex(Installed));
      WroteState(disk, d, j, [CreateIndex(Installed)]);
      ghost var d1, j1 := disk.State(), disk.journal;
      index := Index.Setup(disk, Installed, buckets);
      WroteIndex(disk, d1, j1, Installed, SetupPlan(buckets));
      SetupBuilds(buckets);
    }

    /**
     * The constructor on an existing log: trust the index, recover over it, or rebuild one that is
     * missing or invalid. Whatever the files, it opens exactly when `OpenPlan` says so and leaves log
     * and index alone otherwise; and the database it opens is usable whenever it rebuilt the index, or
     * the files are such as any kill leaves behind.
     */
    static method Open(disk: Disk, buckets: nat) returns (r: Option<Database>)
      requires |disk.log| <= FILE_LIMIT && TableEnd(buckets) <= FILE_LIMIT
      requires Loads(IndexOf(disk.State())) ==> TableEnd(BucketCount(IndexOf(disk.State()))) <= FILE_LIMIT
      modifies disk
      ensures r.Some? <==> OpenPlan(old(disk.State()), buckets).Opens?
      ensures r.Some? ==>
                && fresh(r.value) && r.value.disk == disk && !r.value.closed && r.value.Bound()
                && r.value.report == OpenPlan(old(disk.State()), buckets).report
                && disk.Wrote(old(disk.State()), old(disk.journal), OpenPlan(old(disk.State()), buckets).plan)
                && Reported(old(disk.State()), buckets, r.value.report, disk.State())
                && (r.value.report.action == FullIndexRebuild || Safe(old(disk.State())) ==>
                      r.value.Usable() && LogContents(disk.log) == LogContents(old(disk.log)))
      ensures r.None? ==> disk.log == old(disk.log) && disk.index == old(disk.index)
    {
      hide DoAll, Scan, WellFormed, BucketCount, Headed, Loads, Clean, Checkpoint, RebuildFromPlan, RecoverPlan,
        LogLoads, Safe, LogContents, Opened, CleanPatch, Disk.Wrote, TruncatedBytes, Attached, From, Reported;
      ghost var d, j := disk.State(), disk.journal;
      r := None;
      var ok := LoadLog(disk.log);
      if !ok || buckets == 0 {
        return;
      }
      var index: Option<Index> := None;
      var report := RecoveryReport(NoReason, NoAction, 0);
      ghost var plan: seq<DiskWrite> := [];
      WroteNothing(disk);
      if disk.index.Some? {
        index := Index.Load(disk, Installed);
        report := RecoveryReport(InvalidIndex, FullIndexRebuild, 0);
      } else {
        report := RecoveryReport(MissingIndex, FullIndexRebuild, 0);
      }
      if index.None? {
        index := RebuildIndexImpl(disk, 0, buckets);
        plan := RebuildPlan(d.log, buckets);
        if index.None? {
          return;
        }
      } else {
        LoadedFields(index.value);
        if index.value.clean && |disk.log| == index.value.indexedUpTo {
          report := RecoveryReport(NoReason, NoAction, 0);
          if Safe(d) {
            TrustedIndex(d);
            assert index.value.Valid();
          }
        } else {
          var truncated;
          ghost var count := index.value.numBuckets;
          index, truncated := RecoverImpl(disk, index.value.numBuckets);
          if index.None? {
            WroteState(disk, d, j, []);
            return;
          }
          plan := RecoverPlan(d.log, count).value;
          report := RecoveryReport(UncleanIndex, FullIndexRebuild, truncated);
        }
      }
      ghost var d1, j1 := disk.State(), disk.journal;
      WroteState(disk, d, j, plan);
      index.value.SetClean(false);
      WroteMore(disk, d, j, plan, d1, j1, Lift(Installed, [CleanPatch(false)]));
      assert Lift(Installed, [CleanPatch(false)]) == [MARK_DIRTY];
      assert [] + [MARK_DIRTY] == [MARK_DIRTY];
      var database := new Database(disk, index.value, report);
      WroteState(disk, d, j, plan + [MARK_DIRTY]);
      OpenReports(d, buckets);
      if report.action == FullIndexRebuild || Safe(d) {
        OpenLeavesUsable(d, buckets);
        OpenedAttached(disk.State());
      }
      r := Some(database);
    }

    /** `recover_records` on an open database truncates nothing, and mends an index that lagged behind. */
    method RecoverRecords() returns (outcome: Outcome, truncatedBytes: nat)
      requires Valid()
      modifies this`index, disk
      ensures closed ==> outcome == Threw && disk.Wrote(old(disk.State()), old(disk.journal), [])
      ensures !closed ==> Usable() && Did(OpRecover, old(disk.State()), old(disk.journal), outcome)
      ensures !closed ==>
                && outcome == Returned && truncatedBytes == 0
                && BucketCount(IndexOf(disk.State())) == BucketCount(IndexOf(old(disk.State())))
    {
      hide DoAll, Scan, WellFormed, BucketCount, Headed, Clean, Checkpoint, RebuildPlan, LogContents, Opened,
        Safe, Disk.Wrote, Attached, IndexImage.Contents, OffsetsBelow, Stale, Lags;
      WroteNothing(disk);
      if closed {
        return Threw, 0;
      }
      ghost var d, j := disk.State(), disk.journal;
      AttachedEnd(d);
      CallDone(d, OpRecover);
      LoadedFields(index);
      var r;
      r, truncatedBytes := RecoverImpl(disk, index.numBuckets);
      index := r.value;
      outcome := Returned;
      WroteState(disk, d, j, PlanOf(OpRecover, d));
    }

    /**
     * `rebuild_index`, with the bucket count the index has. From the first record on it makes the index
     * that of the whole log; from elsewhere, that of what can be read from there, or it throws.
     */
    method RebuildIndex(startOffset: nat) returns (outcome: Outcome)
      requires Valid() && startOffset <= MAX_U64
      modifies this`index, disk
      ensures Valid()
      ensures closed ==> outcome == Threw && disk.Wrote(old(disk.State()), old(disk.journal), [])
      ensures !closed ==>
                && outcome == (if ReadsToEnd(old(disk.State()), startOffset) then Returned else Threw)
                && disk.State() == FilesAfter(old(disk.State()), RebuiltFrom(startOffset))
                && Settled(RebuiltFrom(startOffset), old(disk.State()))
                && (outcome == Returned ==>
                      disk.journal == old(disk.journal) + RebuildFromPlan(old(disk.log), StartFrom(startOffset),
                                                                          BucketCount(IndexOf(old(disk.State())))))
      ensures !closed && startOffset == 0 ==>
                Usable() && Did(OpRebuild, old(disk.State()), old(disk.journal), outcome)
    {
      hide DoAll, Scan, WellFormed, BucketCount, Headed, Clean, Checkpoint, RebuildFromPlan, LogContents, Opened,
        Safe, Disk.Wrote, Attached, IndexImage.Contents, OffsetsBelow, Stale, Lags, Difference, From;
      WroteNothing(disk);
      if closed {
        return Threw;
      }
      ghost var d, j := disk.State(), disk.journal;
      AttachedEnd(d);
      CallDone(d, OpRebuild);
      CallStep(d, RebuiltFrom(startOffset));
      LoadedFields(index);
      var r := RebuildIndexImpl(disk, startOffset, index.numBuckets);
      if r.None? {
        return Threw;
      }
      index := r.value;
      outcome := Returned;
      WroteState(disk, d, j, RebuildFromPlan(d.log, StartFrom(startOffset), BucketCount(IndexOf(d))));
    }

    /**
     * `close`: throws, leaving everything as it was, exactly when the checkpoint is not the size of the
     * log; otherwise it sets the clean flag. Closing twice is allowed.
     */
    method Close() returns (outcome: Outcome)
      requires Bound()
      modifies this`index, this`closed, index, disk
      ensures old(closed) ==> outcome == Returned && disk.Wrote(old(disk.State()), old(disk.journal), [])
      ensures !old(closed) ==>
                && outcome == OutcomeOf(OpClose, old(disk.State()))
                && disk.Wrote(old(disk.State()), old(disk.journal), PlanOf(OpClose, old(disk.State())))
                && (outcome == Returned ==> MarkedCaughtUp(disk.State()) && disk.log == old(disk.log))
                && (outcome != Returned ==> disk.State() == old(disk.State()))
      ensures closed <==> outcome == Returned
      ensures old(Valid()) ==> Valid()
      ensures old(Usable()) ==> outcome == Returned && Did(OpClose, old(disk.State()), old(disk.journal), outcome)
    {
      hide DoAll, WellFormed, BucketCount, Headed, Clean, Checkpoint, LogContents, Opened, Safe, Disk.Wrote,
        Attached, CleanPatch, CrashSafe, IndexImage.Contents;
      WroteNothing(disk);
      if closed {
        return Returned;
      }
      ghost var d, j := disk.State(), disk.journal;
      if Usable() {
        UsableCloses(d);
      }
      LoadedFields(index);
      if |disk.log| != index.indexedUpTo {
        WroteState(disk, d, j, []);
        return Threw;
      }
      index.SetClean(true);
      assert Lift(Installed, [CleanPatch(true)]) == [WriteIndex(Installed, CleanPatch(true))];
      WroteState(disk, d, j, PlanOf(OpClose, d));
      LoadedFields(index);
      ClosedBytes(d);
      index := null;
      closed := true;
      outcome := Returned;
    }

    /**
     * `get`: whatever the index holds, the answer of the protocol; and the map's own, for every key that
     * is not stale. Then the three checks on the record it reads cannot fail.
     */
    method Get(key: Key) returns (outcome: Outcome)
      requires Valid()
      ensures closed ==> outcome == Threw
      ensures !closed ==> outcome == OutcomeOf(OpGet(key), disk.State())
      ensures !closed && key !in Stale(disk.State()) ==>
                outcome == Value(if key in LogContents(disk.log) then Some(LogContents(disk.log)[key]) else None)
      ensures Usable() ==> Stale(disk.State()) == {}
    {
      hide WellFormed, BucketCount, Headed, Clean, Checkpoint, LogContents, Opened, Parse, IndexImage.Contents,
        Attached, Stale;
      if closed {
        return Threw;
      }
      if Usable() {
        OpenedAttached(disk.State());
      }
      if key !in Stale(disk.State()) {
        UnstaleRead(disk.State(), key);
      }
      AttachedEnd(disk.State());
      LoadedFields(index);
      var offset := index.Find(key);
      if offset.None? {
        return Value(None);
      }
      var file := new InputStream(disk.log);
      file.Seek(offset.value);
      var status, record := Read(file, Record(RecordType.Put, [], []));
      if status != RecordReadStatus.Success || record.kind != RecordType.Put || record.key != key {
        return Threw;
      }
      outcome := Value(Some(record.value));
    }

    /** The append of `put` and `erase`: one record at the end of the log. */
    method Append(record: Record) returns (start: nat, end: nat)
      requires Serializable(record)
      modifies disk
      ensures disk.Wrote(old(disk.State()), old(disk.journal), [AppendLog(Encode(record))])
      ensures disk.State() == old(disk.State()).(log := old(disk.log) + Encode(record))
      ensures start == |old(disk.log)| && end == start + |Encode(record)|
    {
      hide DoAll, Encode;
      ghost var d := disk.State();
      start := |disk.log|;
      var ok, bytes := Serialize(record);
      assert ok && bytes == Encode(record);
      disk.AppendToLog(bytes);
      DoAllOne(d, AppendLog(bytes));
      end := |disk.log|;
    }

    /** The last step of `put` and `erase`: the checkpoint moves past the record. */
    method Advance(end: nat, ghost d: DiskState, ghost j: seq<DiskWrite>, ghost append: DiskWrite,
                   ghost plan: seq<Patch>)
      requires index != null && index.disk == disk && index.slot == Installed && index.Valid() && end <= MAX_U64
      requires disk.Wrote(d, j, [append] + Lift(Installed, plan))
      modifies index, disk
      ensures index.Valid() && disk.Wrote(d, j, [append] + Lift(Installed, plan + [CheckpointPatch(end)]))
    {
      hide DoAll, WellFormed, BucketCount, Headed, Clean, Checkpoint, IndexImage.Contents, CheckpointPatch,
        Disk.Wrote;
      ghost var ws := [append] + Lift(Installed, plan);
      WroteState(disk, d, j, ws);
      ghost var d1, j1 := disk.State(), disk.journal;
      index.SetIndexedUpTo(end);
      WroteMore(disk, d, j, ws, d1, j1, Lift(Installed, [CheckpointPatch(end)]));
      LoggedWrites(append, plan, CheckpointPatch(end));
    }

    /**
     * `put`: limits first, then log, index and checkpoint in that order. It acts as on a map whatever was
     * lost before, and settles its key.
     */
    method Put(key: Key, value: Log.Value) returns (outcome: Outcome)
      requires Valid() && (!closed ==> Room(OpPut(key, value), disk.State()))
      modifies index, disk
      ensures Valid() && (old(Usable()) ==> Usable())
      ensures closed ==> outcome == Threw && disk.Wrote(old(disk.State()), old(disk.journal), [])
      ensures !closed ==>
                && (outcome == Returned <==> |key| <= 1024 && |value| <= 16_777_216)
                && (outcome == Returned ==> disk.log == old(disk.log) + Encode(Record(RecordType.Put, key, value)))
                && (outcome != Returned ==> disk.State() == old(disk.State()))
                && Did(OpPut(key, value), old(disk.State()), old(disk.journal), outcome)
                && Settled(Made(OpPut(key, value)), old(disk.State()))
    {
      hide DoAll, WellFormed, BucketCount, Headed, Clean, Checkpoint, LogContents, Opened, Safe, Disk.Wrote,
        Attached, SetPlan, Encode, IndexImage.Contents, PlanOf, OutcomeOf, Expected, Effect, CheckpointPatch, Lift;
      hide Stale, Lags, LoggedRecord, OffsetsBelow, Room;
      WroteNothing(disk);
      if closed {
        return Threw;
      }
      ghost var d, j := disk.State(), disk.journal;
      AttachedEnd(d);
      CallDone(d, OpPut(key, value));
      PlannedPut(d, key, value);
      LoadedFields(index);
      if |key| > MAX_KEY_SIZE {
        WroteState(disk, d, j, []);
        return Threw;
      }
      if |value| > MAX_VALUE_SIZE {
        WroteState(disk, d, j, []);
        return Threw;
      }
      ghost var img, append := IndexOf(d), AppendLog(Encode(Record(RecordType.Put, key, value)));
      var start, end := Append(Record(RecordType.Put, key, value));
      WroteState(disk, d, j, [append]);
      ghost var d1, j1 := disk.State(), disk.journal;
      PutFits(d, key, value);
      var ok := index.Set(key, start);
      ghost var plan := SetPlan(img, key, start);
      WroteMore(disk, d, j, [append], d1, j1, Lift(Installed, plan));
      Advance(end, d, j, append, plan);
      PutWritten(disk, d, j, key, value, append, plan, end);
      outcome := Returned;
    }

    /**
     * `erase`: a key that is not indexed leaves the files alone; the deletion is logged, then unlinked. It
     * acts as on a map for every key that is not stale.
     */
    method Erase(key: Key) returns (outcome: Outcome)
      requires Valid() && (!closed ==> Room(OpErase(key), disk.State()))
      modifies index, disk
      ensures Valid() && (old(Usable()) ==> Usable())
      ensures closed ==> outcome == Threw && disk.Wrote(old(disk.State()), old(disk.journal), [])
      ensures !closed ==>
                && outcome == OutcomeOf(OpErase(key), old(disk.State()))
                && disk.Wrote(old(disk.State()), old(disk.journal), PlanOf(OpErase(key), old(disk.State())))
                && (outcome == Existed(true) ==>
                      disk.log == old(disk.log) + Encode(Record(RecordType.Delete, key, [])))
                && (outcome != Existed(true) ==> disk.State() == old(disk.State()))
                && Settled(Made(OpErase(key)), old(disk.State()))
                && (key !in Stale(old(disk.State())) ==>
                      Did(OpErase(key), old(disk.State()), old(disk.journal), outcome))
    {
      hide DoAll, WellFormed, BucketCount, Headed, Clean, Checkpoint, LogContents, Opened, Safe, Disk.Wrote,
        Attached, ErasePlan, Encode, IndexImage.Contents, PlanOf, OutcomeOf, Expected, Effect, CheckpointPatch, Lift;
      hide Stale, Lags, LoggedRecord, OffsetsBelow, Room;
      WroteNothing(disk);
      if closed {
        return Threw;
      }
      ghost var d, j := disk.State(), disk.journal;
      AttachedEnd(d);
      CallDone(d, OpErase(key));
      LoadedFields(index);
      PlannedErase(d, key);
      var exist := index.Find(key);
      if exist.None? {
        WroteState(disk, d, j, []);
        return Existed(false);
      }
      MappedKeyFits(IndexOf(d), key);
      EraseFits(d, key);
      ghost var img, append := IndexOf(d), AppendLog(Encode(Record(RecordType.Delete, key, [])));
      var _, end := Append(Record(RecordType.Delete, key, []));
      WroteState(disk, d, j, [append]);
      ghost var d1, j1 := disk.State(), disk.journal;
      var found := index.Erase(key);
      assert found;
      ghost var plan := ErasePlan(img, key);
      WroteMore(disk, d, j, [append], d1, j1, Lift(Installed, plan));
      Advance(end, d, j, append, plan);
      EraseWritten(disk, d, j, key, append, plan, end);
      outcome := Existed(true);
    }

    /** `index_metadata_clean`. An open database whose files are sound is never marked clean. */
    method IndexMetadataClean() returns (outcome: Outcome, clean: bool)
      requires Bound()
      ensures outcome == if closed then Threw else Returned
      ensures !closed ==> clean == MarkedCaughtUp(disk.State())
      ensures !closed && Valid() ==> !clean
    {
      hide MarkedCaughtUp, Loads, WellFormed, BucketCount, Headed, Clean, Checkpoint, RecordsOf, Serving,
        IndexImage.Contents;
      if closed {
        return Threw, false;
      }
      LoadedFields(index);
      MetadataBytes(disk.State());
      var flag, caughtUp := index.clean, |disk.log| == index.indexedUpTo;
      clean := flag && caughtUp;
      outcome := Returned;
    }

    /** `get_index_stats`: every key of the index once, however they are spread over the buckets. */
    method GetIndexStats() returns (outcome: Outcome, stats: IndexStats)
      requires Valid()
      ensures outcome == if closed then Threw else Returned
      ensures !closed ==>
                var img := IndexOf(disk.State());
                && stats.numBuckets == BucketCount(img) == |ChainsOf(img)|
                && stats.numBuckets == stats.emptyBuckets + stats.nonEmptyBuckets
                && stats.emptyBuckets == |EmptyBuckets(ChainsOf(img), stats.numBuckets)|
                && stats.avgChainLength * stats.nonEmptyBuckets as real == |IndexImage.Contents(img)| as real
                && (stats.nonEmptyBuckets == 0 ==> stats.avgChainLength == 0.0)
                && (forall b | 0 <= b < stats.numBuckets :: |ChainsOf(img)[b]| <= stats.maxChainLength)
                && (exists b :: 0 <= b < stats.numBuckets && |ChainsOf(img)[b]| == stats.maxChainLength)
      ensures Usable() ==> |IndexImage.Contents(IndexOf(disk.State()))| == |LogContents(disk.log)|
    {
      hide WellFormed, BucketCount, Headed, Clean, Checkpoint, LogContents, IndexImage.Contents, ChainsOf, Opened,
        Attached, EmptyBuckets;
      stats := IndexStats(0, 0, 0, 0.0, 0);
      if closed {
        return Threw, stats;
      }
      LoadedFields(index);
      Counted(index.Img());
      stats := index.Stats();
      if Usable() {
        SameSize(disk.State());
      }
      outcome := Returned;
    }
  }

  /** After the flag of a caught-up index is set, the bytes say so. */
  lemma ClosedBytes(d: DiskState)
    requires HeaderIntact(d) && Checkpoint(IndexOf(d)) == |d.log|
    ensures var d' := DoAll(d, PlanOf(OpClose, d)); MarkedCaughtUp(d') && d'.log == d.log
  {
    hide Headed, Checkpoint, Clean, ApplyPatch, CleanPatch, BucketCount, DoAll, MarkedCaughtUp;
    var img := ApplyPatch(IndexOf(d), CleanPatch(true));
    DoAllOne(d, WriteIndex(Installed, CleanPatch(true)));
    CleanHeader(IndexOf(d), BucketCount(IndexOf(d)), true);
    HeaderRead(img, BucketCount(IndexOf(d)));
    MetadataBytes(Do(d, WriteIndex(Installed, CleanPatch(true))));
  }

  /** The checkpoint of a database that is caught up lets it close. */
  lemma UsableCloses(d: DiskState)
    requires Opened(d)
    ensures OutcomeOf(OpClose, d) == Returned == Expected(OpClose, LogContents(d.log))
    ensures LogContents(DoAll(d, PlanOf(OpClose, d)).log) == LogContents(d.log)
  {
    hide Opened, Safe, LogContents, DoAll, PlanOf, OutcomeOf, CrashSafe;
    CloseCorrect(d);
  }

  lemma PutFits(d: DiskState, key: Key, value: Log.Value)
    requires Room(OpPut(key, value), d)
    ensures |d.log| + |Encode(Record(RecordType.Put, key, value))| <= FILE_LIMIT
  {
    hide Encode;
  }

  lemma EraseFits(d: DiskState, key: Key)
    requires Room(OpErase(key), d)
    ensures |d.log| + |Encode(Record(RecordType.Delete, key, []))| <= FILE_LIMIT
  {
    hide Encode;
  }

  lemma SameSize(d: DiskState)
    requires Opened(d)
    ensures |IndexImage.Contents(IndexOf(d))| == |LogContents(d.log)|
  {
    hide Opened, LogContents, IndexImage.Contents;
    var a, b := IndexImage.Contents(IndexOf(d)), LogContents(d.log);
    forall key
      ensures key in a <==> key in b
    {
      IndexedKeys(d, key);
    }
    assert a.Keys == b.Keys;
    assert |a| == |a.Keys| && |b| == |b.Keys|;
  }
}
