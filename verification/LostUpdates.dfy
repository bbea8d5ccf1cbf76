/**
 * Calls that leave the index wrong while the process lives on: a `put` or `erase` that throws after its
 * append, so that the log holds a record the index never saw, and `rebuild_index` from a later record.
 * This module says exactly which keys the index is then wrong about, when `close` accepts the files all
 * the same, and what clears the fault.
 */
module LostUpdates {
  import opened Codec
  import opened Records
  import opened Log
  import opened IndexImage
  import opened IndexUpdates
  import opened IndexPlans
  import opened IndexSetup
  import opened IndexMetadata
  import opened DiskModel
  import opened Protocol
  import opened CrashSteps
  import opened CrashPlans
  import opened CrashRuns

  /**
   * A call that ran to its end; a `put` or `erase` that threw after `writes` of its file writes; or a call
   * of `rebuild_index` with an offset, which replays the log only from there on.
   */
  datatype Call = Made(op: Op) | Thrown(op: Op, writes: nat) | RebuiltFrom(startOffset: nat)

  /** The record an operation logs, if it logs one. */
  function LoggedRecord(op: Op, d: DiskState): Option<Record>
  {
    match op
    case OpPut(key, value) => if CanStore(key, value) then Some(Record(RecordType.Put, key, value)) else None
    case OpErase(key) =>
      if key in IndexImage.Contents(IndexOf(d)) then Some(Record(RecordType.Delete, key, [])) else None
    case _ => None
  }

  predicate Rebuilds(op: Op)
  {
    op.OpRebuild? || op.OpRecover?
  }

  /** What may be called on the open database `d` without ending its life. */
  predicate Possible(d: DiskState, call: Call)
  {
    match call
    case Made(op) => Room(op, d) && !op.OpOpen? && !op.OpClose?
    case Thrown(op, writes) => Room(op, d) && (op.OpPut? || op.OpErase?) && writes < |PlanOf(op, d)|
    case RebuiltFrom(startOffset) => startOffset <= MAX_U64
  }

  /** The records `rebuild_index` replays. */
  function ReplayedFrom(d: DiskState, startOffset: nat): seq<Record>
  {
    Scan(From(d.log, StartFrom(startOffset))).records
  }

  /** Reading from the given offset on ends at the end of the log: otherwise `rebuild_index` throws. */
  predicate ReadsToEnd(d: DiskState, startOffset: nat)
  {
    Scan(From(d.log, StartFrom(startOffset))).stop == EndOfFile
  }

  /** The files a call leaves. */
  function FilesAfter(d: DiskState, call: Call): DiskState
    requires Possible(d, call)
  {
    match call
    case Made(op) => DoAll(d, PlanOf(op, d))
    case Thrown(op, writes) => At(d, PlanOf(op, d), writes)
    case RebuiltFrom(startOffset) =>
      if ReadsToEnd(d, startOffset) then
        DoAll(d, RebuildFromPlan(d.log, StartFrom(startOffset), BucketCount(IndexOf(d))))
      else
        d.(staging := None)
  }

  // ---- the two maps ----

  /** The keys the two maps disagree about. */
  function Difference(a: map<Key, nat>, b: map<Key, nat>): set<Key>
  {
    set k | k in a.Keys + b.Keys && Differs(a, b, k)
  }

  lemma DifferenceMeans(a: map<Key, nat>, b: map<Key, nat>)
    ensures forall k :: k in Difference(a, b) <==> Differs(a, b, k)
    ensures Difference(a, b) == {} <==> a == b
  {
    if Difference(a, b) == {} {
      forall k
        ensures !Differs(a, b, k)
      {
        assert k !in Difference(a, b);
      }
      assert a.Keys == b.Keys by {
        assert forall k :: !Differs(a, b, k) ==> (k in a.Keys <==> k in b.Keys);
      }
      assert forall k | k in a :: !Differs(a, b, k) ==> a[k] == b[k];
    }
  }

  /** A record that takes effect in both maps settles its key and leaves every other dispute. */
  lemma DifferenceSettled(a: map<Key, nat>, b: map<Key, nat>, r: Record, start: nat)
    ensures Difference(ApplyOffset(a, r, start), ApplyOffset(b, r, start)) == Difference(a, b) - {r.key}
  {
  }

  /** A record that takes effect only in the second map puts its key in dispute. */
  lemma DifferenceRaised(a: map<Key, nat>, b: map<Key, nat>, r: Record, start: nat)
    requires r.key in a ==> a[r.key] < start
    requires r.kind.Delete? ==> r.key in a
    ensures Difference(a, ApplyOffset(b, r, start)) == Difference(a, b) + {r.key}
  {
  }

  predicate OffsetsBelow(m: map<Key, nat>, end: nat)
  {
    forall k | k in m :: m[k] < end
  }

  lemma {:induction false} ReplayedBelow(rs: seq<Record>, base: nat)
    ensures OffsetsBelow(ReplayOffsets(rs, base), base + |EncodeAll(rs)|)
    decreases |rs|
  {
    hide Encode, EncodeAll, ReplayOffsets;
    if rs == [] {
      assert ReplayOffsets([], base) == map[] by { NothingReplayed(base); }
    } else {
      var init, r := rs[..|rs| - 1], rs[|rs| - 1];
      assert init + [r] == rs;
      ReplayedBelow(init, base);
      ReplaySnoc(init, r, base);
      EncodeAllSnoc(init, r);
    }
  }

  lemma NothingReplayed(base: nat)
    ensures ReplayOffsets([], base) == map[]
  {
  }

  // ---- an open database whose index may lag behind ----

  /** The index contents that the whole log calls for. */
  function Wanted(d: DiskState): map<Key, nat>
  {
    ReplayOffsets(RecordsOf(d.log), DB_HEADER_SIZE)
  }

  /** The keys the index is wrong about. */
  function Stale(d: DiskState): set<Key>
  {
    Difference(IndexImage.Contents(IndexOf(d)), Wanted(d))
  }

  /** The checkpoint is not the size of the log: what makes `close` throw. */
  predicate Lags(d: DiskState)
  {
    Checkpoint(IndexOf(d)) != |d.log|
  }

  /** An open database that swallowed exceptions: its files are sound, its index may be wrong. */
  predicate Attached(d: DiskState)
  {
    && Serving(d, RecordsOf(d.log)) && !Clean(IndexOf(d))
    && Checkpoint(IndexOf(d)) <= |d.log| && OffsetsBelow(IndexImage.Contents(IndexOf(d)), |d.log|)
  }

  /** Nothing was lost yet. */
  lemma OpenedAttached(d: DiskState)
    requires Opened(d)
    ensures Attached(d) && Stale(d) == {} && !Lags(d)
  {
    hide Serving, RecordsOf, ReplayOffsets, IndexImage.Contents, Checkpoint, Clean, LogOf, EncodeAll, Difference,
      BucketCount, Scan, LogLoads, HeaderIntact, LogContents;
    var rs := RecordsOf(d.log);
    ServingParts(d, rs);
    LogFacts(rs);
    ReplayedBelow(rs, DB_HEADER_SIZE);
    DifferenceMeans(IndexImage.Contents(IndexOf(d)), Wanted(d));
  }

  // ---- one call ----

  /** The keys the index is wrong about after a call, from those before it. */
  function StaleAfter(stale: set<Key>, d: DiskState, call: Call): set<Key>
    requires Possible(d, call)
  {
    match call
    case Made(op) =>
      if Rebuilds(op) then {}
      else (match LoggedRecord(op, d) case Some(r) => stale - {r.key} case None => stale)
    case Thrown(op, writes) =>
      if writes == 0 then stale
      else if writes < |PlanOf(op, d)| - 1 then stale + {op.key}
      else stale - {op.key}
    case RebuiltFrom(startOffset) =>
      if ReadsToEnd(d, startOffset) then
        Difference(ReplayOffsets(ReplayedFrom(d, startOffset), StartFrom(startOffset)), Wanted(d))
      else stale
  }

  /** Whether the checkpoint falls short of the log after a call. */
  predicate LagsAfter(lags: bool, d: DiskState, call: Call)
  {
    match call
    case Made(op) => lags && !Rebuilds(op) && LoggedRecord(op, d).None?
    case Thrown(op, writes) => lags || writes > 0
    case RebuiltFrom(startOffset) => lags && !ReadsToEnd(d, startOffset)
  }

  lemma PlanIsLogged(op: Op, d: DiskState, r: Record)
    requires Attached(d) && LoggedRecord(op, d) == Some(r) && Room(op, d)
    ensures BucketCount(IndexOf(d)) > 0 && PlanOf(op, d) == LoggedPlan(d, r)
    ensures Serializable(r) && |d.log| + |Encode(r)| <= FILE_LIMIT && op.key == r.key
    ensures r.kind.Delete? ==> r.key in IndexImage.Contents(IndexOf(d))
  {
    hide Serving, RecordsOf, IndexImage.Contents, Checkpoint, Clean, Encode, SetPlan, ErasePlan, BucketCount,
      CheckpointPatch, LogLoads, LogContents, Replay, HeaderIntact, Scan, LogOf, WellFormed, FilesFit;
    ServingParts(d, RecordsOf(d.log));
    if op.OpErase? {
      MappedKeyFits(IndexOf(d), op.key);
    }
  }

  /** A key in the index is within the limit. */
  lemma MappedKeyFits(img: Bytes, key: Key)
    requires WellFormed(img) && key in IndexImage.Contents(img)
    ensures |key| <= MAX_KEY_SIZE
  {
    hide WellFormed, ChainFor, Position, IndexImage.Contents, HoldsEntry, BucketCount;
    LookupExact(img, key);
    EntryThere(img, key, Position(ChainFor(img, key), key));
  }

  lemma NothingLogged(op: Op, d: DiskState)
    requires LoggedRecord(op, d) == None && !op.OpOpen? && !op.OpClose? && !Rebuilds(op)
    ensures PlanOf(op, d) == []
  {
    hide IndexImage.Contents, BucketCount, SetPlan, ErasePlan, Encode, CheckpointPatch;
  }

  /** A record that is logged and indexed in full. */
  lemma LoggedCall(d: DiskState, r: Record)
    requires Attached(d) && BucketCount(IndexOf(d)) > 0 && Serializable(r) && |d.log| + |Encode(r)| <= FILE_LIMIT
    ensures var d' := DoAll(d, LoggedPlan(d, r));
            && Attached(d') && Stale(d') == Stale(d) - {r.key} && !Lags(d')
            && BucketCount(IndexOf(d')) == BucketCount(IndexOf(d))
            && RecordsOf(d'.log) == RecordsOf(d.log) + [r]
  {
    hide Serving, ReplayOffsets, IndexImage.Contents, Checkpoint, Clean, LogOf, EncodeAll, Encode, Difference,
      BucketCount, Scan, LogLoads, LogContents, Replay, LoggedPlan, DoAll, HeaderIntact;
    var rs, start := RecordsOf(d.log), |d.log|;
    var d' := DoAll(d, LoggedPlan(d, r));
    ServingParts(d, rs);
    LoggedServing(d, rs, r);
    ServingParts(d', rs + [r]);
    LogSizes(rs, r);
    ReplaySnoc(rs, r, DB_HEADER_SIZE);
    DifferenceSettled(IndexImage.Contents(IndexOf(d)), Wanted(d), r, start);
  }

  lemma LogSizes(rs: seq<Record>, r: Record)
    ensures |LogOf(rs)| == DB_HEADER_SIZE + |EncodeAll(rs)|
    ensures |LogOf(rs + [r])| == |LogOf(rs)| + |Encode(r)| > |LogOf(rs)|
  {
    hide Encode, EncodeAll, DbHeader;
    EncodeAllSnoc(rs, r);
  }

  lemma LoggedPlanSize(d: DiskState, r: Record)
    requires BucketCount(IndexOf(d)) > 0
    ensures |LoggedPlan(d, r)| == |RecordPlan(IndexOf(d), r, |d.log|)| + 2
  {
    hide Encode, RecordPlan, BucketCount, U64Bytes;
  }

  /** A record that is logged, but whose index update stops after `j` writes of its plan. */
  lemma ThrownFiles(d: DiskState, r: Record, j: nat)
    requires d.index.Some? && BucketCount(IndexOf(d)) > 0 && j <= |RecordPlan(IndexOf(d), r, |d.log|)|
    ensures var plan := RecordPlan(IndexOf(d), r, |d.log|);
            At(d, LoggedPlan(d, r), j + 1)
            == DiskState(d.log + Encode(r), Some(After(IndexOf(d), plan, j)), d.staging)
  {
    hide Encode, RecordPlan, DoAll, ApplyPatch, ApplyPatches, BucketCount, U64Bytes;
    var append, plan := AppendLog(Encode(r)), RecordPlan(IndexOf(d), r, |d.log|);
    var whole := plan + [CheckpointPatch(|d.log| + |Encode(r)|)];
    assert Lift(Installed, whole)[..j] == Lift(Installed, plan[..j]);
    assert LoggedPlan(d, r)[..j + 1] == [append] + Lift(Installed, plan[..j]);
    DoAllConcat(d, [append], Lift(Installed, plan[..j]));
    DoAllOne(d, append);
    DoLifted(Do(d, append), Installed, plan[..j]);
  }

  /** A call that throws after the append: the record is there, the checkpoint is not moved. */
  lemma ThrownCall(d: DiskState, r: Record, j: nat)
    requires Attached(d) && BucketCount(IndexOf(d)) > 0 && Serializable(r) && |d.log| + |Encode(r)| <= FILE_LIMIT
    requires r.kind.Delete? ==> r.key in IndexImage.Contents(IndexOf(d))
    requires j <= |RecordPlan(IndexOf(d), r, |d.log|)|
    ensures var d' := At(d, LoggedPlan(d, r), j + 1);
            && Attached(d') && Lags(d') && RecordsOf(d'.log) == RecordsOf(d.log) + [r]
            && BucketCount(IndexOf(d')) == BucketCount(IndexOf(d))
            && Stale(d') == (if j == |RecordPlan(IndexOf(d), r, |d.log|)| then Stale(d) - {r.key}
                             else Stale(d) + {r.key})
  {
    hide Serving, ReplayOffsets, IndexImage.Contents, Checkpoint, Clean, LogOf, EncodeAll, Encode, Difference,
      BucketCount, Scan, LogLoads, LogContents, Replay, LoggedPlan, DoAll, Loads, WellFormed, SameHeader,
      RecordPlan, ApplyPatches;
    var rs, start, img := RecordsOf(d.log), |d.log|, IndexOf(d);
    LoggedPlanSize(d, r);
    var d' := At(d, LoggedPlan(d, r), j + 1);
    ServingParts(d, rs);
    ThrownFiles(d, r, j);
    RecordEveryStep(img, r, start, j);
    SameHeaderMetadata(img, IndexOf(d'));
    LogAppended(rs, r);
    LogSizes(rs, r);
    EncodedKeyFits(r);
    assert forall q | q in rs + [r] :: q in rs || q == r;
    NowServing(d', rs + [r]);
    ServingParts(d', rs + [r]);
    ReplaySnoc(rs, r, DB_HEADER_SIZE);
    if j == |RecordPlan(img, r, start)| {
      DifferenceSettled(IndexImage.Contents(img), Wanted(d), r, start);
    } else {
      DifferenceRaised(IndexImage.Contents(img), Wanted(d), r, start);
      DifferenceOfZero(IndexImage.Contents(img), ApplyOffset(Wanted(d), r, start), r.key);
    }
  }

  /** Where a key is in dispute because it should be gone, any offset for it is as wrong as the last. */
  lemma DifferenceOfZero(a: map<Key, nat>, b: map<Key, nat>, key: Key)
    ensures key in a && key !in b ==> Difference(a[key := 0], b) == Difference(a, b)
  {
  }

  /** Rebuilding settles everything. */
  lemma RebuildingCall(d: DiskState, op: Op)
    requires Attached(d) && Rebuilds(op)
    ensures PlanOf(op, d) == RebuildPlan(d.log, BucketCount(IndexOf(d)))
    ensures var d' := DoAll(d, PlanOf(op, d));
            Opened(d') && d'.log == d.log && BucketCount(IndexOf(d')) == BucketCount(IndexOf(d))
  {
    hide Serving, RecordsOf, IndexImage.Contents, Checkpoint, Clean, LogOf, BucketCount, Scan, LogLoads, LogContents,
      Replay, DoAll, HeaderIntact, RebuildPlan, AllSerializable, WellFormed, InUse;
    var rs := RecordsOf(d.log);
    ServingParts(d, rs);
    RebuildDone(d, rs, BucketCount(IndexOf(d)));
    InUseOpen(DoAll(d, PlanOf(op, d)), rs);
  }

  lemma MadeStep(d: DiskState, op: Op)
    requires Attached(d) && Possible(d, Made(op))
    ensures var d', call := FilesAfter(d, Made(op)), Made(op);
            && Attached(d') && Stale(d') == StaleAfter(Stale(d), d, call)
            && (Lags(d') <==> LagsAfter(Lags(d), d, call)) && BucketCount(IndexOf(d')) == BucketCount(IndexOf(d))
  {
    hide Attached, Stale, Lags, LoggedRecord, Room, DoAll, LoggedPlan, BucketCount, Encode, PlanOf, Opened,
      IndexOf, RecordsOf;
    if Rebuilds(op) {
      RebuildingCall(d, op);
      OpenedAttached(DoAll(d, PlanOf(op, d)));
    } else if LoggedRecord(op, d) == None {
      NothingLogged(op, d);
      NothingDone(d);
    } else {
      var r := LoggedRecord(op, d).value;
      PlanIsLogged(op, d, r);
      LoggedCall(d, r);
    }
  }

  lemma ThrownStep(d: DiskState, op: Op, writes: nat)
    requires Attached(d) && Possible(d, Thrown(op, writes))
    ensures var d', call := FilesAfter(d, Thrown(op, writes)), Thrown(op, writes);
            && Attached(d') && Stale(d') == StaleAfter(Stale(d), d, call)
            && (Lags(d') <==> LagsAfter(Lags(d), d, call)) && BucketCount(IndexOf(d')) == BucketCount(IndexOf(d))
  {
    hide Attached, Stale, Lags, LoggedRecord, Room, At, LoggedPlan, BucketCount, Encode, PlanOf, RecordPlan,
      RecordsOf;
    if LoggedRecord(op, d) == None {
      NothingLogged(op, d);
    } else {
      var r := LoggedRecord(op, d).value;
      PlanIsLogged(op, d, r);
      LoggedPlanSize(d, r);
      if writes == 0 {
        AtStart(d, PlanOf(op, d));
      } else {
        ThrownCall(d, r, writes - 1);
      }
    }
  }

  /** What can be read from an offset on fits behind it. */
  lemma ReplayedFits(d: DiskState, startOffset: nat)
    ensures AllSerializable(ReplayedFrom(d, startOffset))
    ensures var rs, from := ReplayedFrom(d, startOffset), StartFrom(startOffset);
            if from <= |d.log| then from + |EncodeAll(rs)| <= |d.log| else rs == []
  {
    hide Scan, EncodeAll, AllSerializable;
    var from := StartFrom(startOffset);
    ScanSound(From(d.log, from));
    if from > |d.log| {
      ScanFailing([]) by { EndOfFileIsEmpty([]); }
    }
  }

  /** A rebuild from any offset, if it does not throw, leaves an index of the records read from there. */
  lemma RebuiltFromStep(d: DiskState, startOffset: nat)
    requires Attached(d) && startOffset <= MAX_U64 && ReadsToEnd(d, startOffset)
    ensures var d', rs := FilesAfter(d, RebuiltFrom(startOffset)), ReplayedFrom(d, startOffset);
            && d'.log == d.log && d'.staging == None && Attached(d') && !Lags(d')
            && BucketCount(IndexOf(d')) == BucketCount(IndexOf(d))
            && IndexImage.Contents(IndexOf(d')) == ReplayOffsets(rs, StartFrom(startOffset))
  {
    hide Serving, RecordsOf, IndexImage.Contents, Checkpoint, Clean, LogOf, BucketCount, Scan, LogLoads, LogContents,
      Replay, DoAll, RebuildFromPlan, AllSerializable, WellFormed, HeaderIntact, Rebuilt, ReplayOffsets, EncodeAll,
      ApplyPatch, CheckpointPatch, From, DbHeader;
    var from, n, rs := StartFrom(startOffset), BucketCount(IndexOf(d)), ReplayedFrom(d, startOffset);
    ServingParts(d, RecordsOf(d.log));
    ReplayedFits(d, startOffset);
    if rs == [] {
      assert EncodeAll([]) == [] by { NoRecords(0, 1); }
      NothingReplayed(from);
    }
    RebuildExact(rs, from, n);
    RebuildFromEnds(d, from, n);
    CheckpointStep(Rebuilt(rs, from, n), |d.log|);
    ReplayedBelow(rs, from);
    NowServing(FilesAfter(d, RebuiltFrom(startOffset)), RecordsOf(d.log));
  }

  lemma RebuiltStep(d: DiskState, startOffset: nat)
    requires Attached(d) && Possible(d, RebuiltFrom(startOffset))
    ensures var call := RebuiltFrom(startOffset);
            var d' := FilesAfter(d, call);
            && Attached(d') && Stale(d') == StaleAfter(Stale(d), d, call)
            && (Lags(d') <==> LagsAfter(Lags(d), d, call)) && BucketCount(IndexOf(d')) == BucketCount(IndexOf(d))
  {
    hide RecordsOf, IndexImage.Contents, Checkpoint, Clean, Serving, DoAll, ReplayOffsets, ReplayedFrom, ReadsToEnd,
      Difference, BucketCount, OffsetsBelow, RebuildFromPlan;
    if ReadsToEnd(d, startOffset) {
      RebuiltFromStep(d, startOffset);
    } else {
      AttachedElsewhere(d);
    }
  }

  /** The staging file does not matter. */
  lemma AttachedElsewhere(d: DiskState)
    requires Attached(d)
    ensures Attached(d.(staging := None))
  {
    hide RecordsOf, IndexImage.Contents, Checkpoint, Clean, OffsetsBelow, WellFormed, BucketCount, LogOf,
      AllSerializable;
  }

  /** What one call does to the keys the index is wrong about, and to the checkpoint. */
  lemma CallStep(d: DiskState, call: Call)
    requires Attached(d) && Possible(d, call)
    ensures var d' := FilesAfter(d, call);
            && Attached(d') && Stale(d') == StaleAfter(Stale(d), d, call)
            && (Lags(d') <==> LagsAfter(Lags(d), d, call)) && BucketCount(IndexOf(d')) == BucketCount(IndexOf(d))
  {
    hide Attached, Stale, Lags, Possible, FilesAfter, StaleAfter, LagsAfter;
    match call {
      case Made(op) => MadeStep(d, op);
      case Thrown(op, writes) => ThrownStep(d, op, writes);
      case RebuiltFrom(startOffset) => RebuiltStep(d, startOffset);
    }
  }

  lemma NothingDone(d: DiskState)
    ensures DoAll(d, []) == d
  {
  }

  /** The index and the log name the same keys, but for the stale ones. */
  lemma UnstaleKeys(d: DiskState, key: Key)
    requires Attached(d) && key !in Stale(d)
    ensures key in IndexImage.Contents(IndexOf(d)) <==> key in LogContents(d.log)
  {
    hide Scan, IndexImage.Contents, Serving, Checkpoint, Clean, ReplayOffsets, Replay, Live, Difference;
    DifferenceMeans(IndexImage.Contents(IndexOf(d)), Wanted(d));
    OffsetsLive(RecordsOf(d.log), DB_HEADER_SIZE);
  }

  lemma LoggedRight(d: DiskState, op: Op, r: Record)
    requires Attached(d) && Possible(d, Made(op)) && LoggedRecord(op, d) == Some(r)
    ensures LogContents(DoAll(d, PlanOf(op, d)).log) == Effect(op, LogContents(d.log))
  {
    hide RecordsOf, Serving, OffsetsBelow, Stale, DoAll, LoggedPlan, PlanOf, IndexImage.Contents, Checkpoint,
      Clean, Room, Encode, Replay, LogContents, LogLoads, HeaderIntact, Scan, BucketCount, LogOf, WellFormed;
    var rs := RecordsOf(d.log);
    PlanIsLogged(op, d, r);
    LoggedCall(d, r);
    ServingParts(d, rs);
    ServingParts(DoAll(d, PlanOf(op, d)), rs + [r]);
    ReplayOne(rs, r);
  }

  lemma UnstaleRead(d: DiskState, key: Key)
    requires Attached(d) && key !in Stale(d)
    ensures GetResult(d, key) == Value(if key in LogContents(d.log) then Some(LogContents(d.log)[key]) else None)
  {
    hide RecordsOf, IndexImage.Contents, Serving, Checkpoint, Clean, ReplayOffsets, Difference, GetResult,
      OffsetsBelow, LogContents, Differs;
    DifferenceMeans(IndexImage.Contents(IndexOf(d)), Wanted(d));
    ReadThrough(d, RecordsOf(d.log), key);
  }

  lemma UnstaleErase(d: DiskState, key: Key)
    requires Attached(d) && key !in Stale(d)
    ensures OutcomeOf(OpErase(key), d) == Existed(key in LogContents(d.log))
    ensures LoggedRecord(OpErase(key), d) == None ==> LogContents(d.log) - {key} == LogContents(d.log)
  {
    hide Attached, IndexImage.Contents, Stale, LogContents;
    UnstaleKeys(d, key);
  }

  lemma RebuildingRight(d: DiskState, op: Op)
    requires Attached(d) && Rebuilds(op)
    ensures OutcomeOf(op, d) == Returned
  {
    hide Serving, RecordsOf, Checkpoint, Clean, OffsetsBelow, Scan, BucketCount, RebuildPlan, LogOf, LogContents,
      Replay, LogLoads, HeaderIntact, WellFormed, IndexImage.Contents;
    ServingParts(d, RecordsOf(d.log));
  }

  /**
   * Whatever was lost before, a call does and returns what a map would, as long as it neither reads nor
   * erases a stale key. Only `put` is safe on those too.
   */
  lemma CallRight(d: DiskState, op: Op)
    requires Attached(d) && Possible(d, Made(op)) && (op.OpErase? || op.OpGet? ==> op.key !in Stale(d))
    ensures OutcomeOf(op, d) == Expected(op, LogContents(d.log))
    ensures LogContents(DoAll(d, PlanOf(op, d)).log) == Effect(op, LogContents(d.log))
  {
    hide Attached, Stale, DoAll, PlanOf, IndexImage.Contents, GetResult, Room, RecoverPlan, Scan, LogContents,
      LoggedRecord, Opened;
    if Rebuilds(op) {
      RebuildingCall(d, op);
      RebuildingRight(d, op);
    } else {
      match op {
        case OpPut(key, value) => PutOutcome(d, key, value);
        case OpErase(key) => UnstaleErase(d, key);
        case OpGet(key) => UnstaleRead(d, key);
      }
      if LoggedRecord(op, d) == None {
        NothingLogged(op, d);
        NothingDone(d);
      } else {
        LoggedRight(d, op, LoggedRecord(op, d).value);
      }
    }
  }

  lemma PutOutcome(d: DiskState, key: Key, value: Log.Value)
    ensures OutcomeOf(OpPut(key, value), d) == if CanStore(key, value) then Returned else Threw
    ensures LoggedRecord(OpPut(key, value), d) == None <==> !CanStore(key, value)
  {
  }

  /** With nothing stale and the checkpoint at the end of the log, the database is as good as new. */
  lemma AttachedOpened(d: DiskState)
    requires Attached(d)
    ensures Opened(d) <==> Stale(d) == {} && !Lags(d)
  {
    hide RecordsOf, IndexImage.Contents, Serving, Checkpoint, Clean, ReplayOffsets, Difference, OffsetsBelow;
    DifferenceMeans(IndexImage.Contents(IndexOf(d)), Wanted(d));
  }

  /** All of this about one call that ran to its end. */
  lemma CallDone(d: DiskState, op: Op)
    requires Attached(d) && Possible(d, Made(op))
    ensures var d' := DoAll(d, PlanOf(op, d));
            && Attached(d') && Stale(d') == StaleAfter(Stale(d), d, Made(op))
            && (Lags(d') <==> LagsAfter(Lags(d), d, Made(op))) && BucketCount(IndexOf(d')) == BucketCount(IndexOf(d))
            && (Opened(d) || Rebuilds(op) ==> Opened(d'))
            && ((op.OpErase? || op.OpGet? ==> op.key !in Stale(d)) ==>
                  && OutcomeOf(op, d) == Expected(op, LogContents(d.log))
                  && LogContents(d'.log) == Effect(op, LogContents(d.log)))
  {
    hide Attached, Stale, Lags, DoAll, PlanOf, OutcomeOf, Room, LogContents, LoggedRecord, Opened, Expected, Effect;
    CallStep(d, Made(op));
    AttachedOpened(d);
    AttachedOpened(DoAll(d, PlanOf(op, d)));
    if op.OpErase? || op.OpGet? ==> op.key !in Stale(d) {
      CallRight(d, op);
    }
  }

  // ---- any number of calls ----

  predicate AllPossible(d: DiskState, calls: seq<Call>)
    decreases |calls|
  {
    calls == [] || (Possible(d, calls[0]) && AllPossible(FilesAfter(d, calls[0]), calls[1..]))
  }

  function FilesAfterAll(d: DiskState, calls: seq<Call>): DiskState
    requires AllPossible(d, calls)
    decreases |calls|
  {
    if calls == [] then d else FilesAfterAll(FilesAfter(d, calls[0]), calls[1..])
  }

  function StaleAfterAll(stale: set<Key>, d: DiskState, calls: seq<Call>): set<Key>
    requires AllPossible(d, calls)
    decreases |calls|
  {
    if calls == [] then stale
    else StaleAfterAll(StaleAfter(stale, d, calls[0]), FilesAfter(d, calls[0]), calls[1..])
  }

  predicate LagsAfterAll(lags: bool, d: DiskState, calls: seq<Call>)
    requires AllPossible(d, calls)
    decreases |calls|
  {
    if calls == [] then lags
    else LagsAfterAll(LagsAfter(lags, d, calls[0]), FilesAfter(d, calls[0]), calls[1..])
  }

  lemma {:induction false} CallSteps(d: DiskState, calls: seq<Call>)
    requires Attached(d) && AllPossible(d, calls)
    ensures var d' := FilesAfterAll(d, calls);
            && Attached(d') && Stale(d') == StaleAfterAll(Stale(d), d, calls)
            && (Lags(d') <==> LagsAfterAll(Lags(d), d, calls)) && BucketCount(IndexOf(d')) == BucketCount(IndexOf(d))
    decreases |calls|
  {
    hide Attached, Stale, Lags, Possible, FilesAfter, StaleAfter, LagsAfter;
    if calls != [] {
      CallStep(d, calls[0]);
      CallSteps(FilesAfter(d, calls[0]), calls[1..]);
    }
  }

  lemma AttachedLog(d: DiskState)
    requires Attached(d)
    ensures LogLoads(d.log) && |d.log| <= FILE_LIMIT
    ensures AllSerializable(RecordsOf(d.log)) && d.log == LogOf(RecordsOf(d.log))
  {
    hide Serving, RecordsOf, IndexImage.Contents, Checkpoint, Clean, LogLoads, Scan, HeaderIntact, BucketCount,
      LogContents, Replay, WellFormed, LogOf, AllSerializable;
    ServingParts(d, RecordsOf(d.log));
  }

  /** The index is that of the whole log, as `close` means to make sure. */
  predicate IndexExact(d: DiskState)
  {
    IndexImage.Contents(IndexOf(d)) == Wanted(d)
  }

  /** The files after `close`, whether it accepted them or threw. */
  function Closed(d: DiskState): DiskState
  {
    DoAll(d, ClosePlan(d))
  }

  lemma ClosedFiles(d: DiskState)
    requires Attached(d)
    ensures var d' := Closed(d);
            && d'.log == d.log && IndexImage.Contents(IndexOf(d')) == IndexImage.Contents(IndexOf(d))
            && (MetadataClean(d') <==> !Lags(d)) && HeaderIntact(d')
  {
    hide RecordsOf, IndexImage.Contents, Checkpoint, Clean, LogOf, BucketCount, Scan, LogLoads, LogContents,
      Replay, DoAll, RebuildPlan, AllSerializable, WellFormed, CleanPatch, ApplyPatch, Serving, Loads;
    var w := WriteIndex(Installed, CleanPatch(true));
    ServingParts(d, RecordsOf(d.log));
    CleanStep(IndexOf(d), true);
    WellFormedLoads(ApplyPatch(IndexOf(d), CleanPatch(true)));
    DoAllOne(d, w);
    NothingDone(d);
  }

  /**
   * Exactly when the guard of `close` does what it is for. On an open database, after any calls of which
   * some threw part of the way or rebuilt from a later record:
   *
   *  - `close` accepts if and only if a call that logged a record or rebuilt the index ran to its end
   *    after the last call that threw with its record logged;
   *  - the index is that of the log if and only if no key is left stale: every key whose update was lost,
   *    or missed by a rebuild, has been logged again since, or the index rebuilt from the first record;
   *  - so what `close` declares clean is right exactly when no key is left stale. The next open trusts
   *    it either way.
   */
  lemma CloseGuardExact(d: DiskState, calls: seq<Call>, n: nat)
    requires Opened(d) && AllPossible(d, calls) && n > 0
    ensures var d1 := FilesAfterAll(d, calls);
            && (OutcomeOf(OpClose, d1) == Returned <==> !LagsAfterAll(false, d, calls))
            && (MetadataClean(Closed(d1)) <==> !LagsAfterAll(false, d, calls))
            && Closed(d1).log == d1.log
            && (IndexExact(Closed(d1)) <==> StaleAfterAll({}, d, calls) == {})
            && (MetadataClean(Closed(d1)) ==>
                  OpenPlan(Closed(d1), n) == Opens(RecoveryReport(NoReason, NoAction, 0), [MARK_DIRTY]))
  {
    hide Opened, Attached, Serving, RecordsOf, IndexImage.Contents, Checkpoint, Clean, AllPossible, FilesAfterAll,
      StaleAfterAll, LagsAfterAll, Closed, Difference, HeaderIntact, ReplayOffsets, LogLoads, BucketCount, Scan,
      RecoverPlan, RebuildPlan, CleanPatch;
    var d1 := FilesAfterAll(d, calls);
    OpenedAttached(d);
    CallSteps(d, calls);
    ClosedFiles(d1);
    DifferenceMeans(IndexImage.Contents(IndexOf(d1)), Wanted(d1));
    AttachedLog(d1);
  }

  /** However many updates were lost, a call that spares the stale keys still acts as on a map. */
  lemma OtherCallsRight(d: DiskState, calls: seq<Call>, op: Op)
    requires Opened(d) && AllPossible(d, calls) && Possible(FilesAfterAll(d, calls), Made(op))
    requires op.OpErase? || op.OpGet? ==> op.key !in StaleAfterAll({}, d, calls)
    ensures var d1 := FilesAfterAll(d, calls);
            && OutcomeOf(op, d1) == Expected(op, LogContents(d1.log))
            && LogContents(DoAll(d1, PlanOf(op, d1)).log) == Effect(op, LogContents(d1.log))
  {
    hide Opened, Attached, Stale, Lags, AllPossible, FilesAfterAll, StaleAfterAll, LagsAfterAll, LogContents,
      Possible, PlanOf, OutcomeOf, Expected, Effect, DoAll;
    OpenedAttached(d);
    CallSteps(d, calls);
    CallRight(FilesAfterAll(d, calls), op);
  }

  // ---- rebuilding from a later record ----

  /** `suffix` is the part of `all` that lies at `from` or behind. */
  predicate PartFrom(suffix: map<Key, nat>, all: map<Key, nat>, from: nat)
  {
    && (forall k | k in suffix :: k in all && all[k] == suffix[k] >= from)
    && (forall k | k in all && all[k] >= from :: k in suffix)
  }

  /** Replaying from record `i` on finds the offsets that lie there, and no others. */
  lemma {:induction false} ReplaySuffix(rs: seq<Record>, i: nat, base: nat)
    requires i <= |rs|
    ensures var from := base + StartOf(rs, i);
            PartFrom(ReplayOffsets(rs[i..], from), ReplayOffsets(rs, base), from)
    decreases |rs|
  {
    hide Encode, EncodeAll, ReplayOffsets, StartOf;
    var from := base + StartOf(rs, i);
    if i == |rs| {
      assert rs[i..] == [];
      NothingReplayed(from);
      ReplayedBelow(rs, base);
      assert StartOf(rs, |rs|) == |EncodeAll(rs)| by { StartOfAll(rs); }
    } else {
      var init, r := rs[..|rs| - 1], rs[|rs| - 1];
      assert init + [r] == rs && init[i..] + [r] == rs[i..];
      ReplaySuffix(init, i, base);
      ReplaySnoc(init, r, base);
      ReplaySnoc(init[i..], r, from);
      StartOfInit(init, r, i);
    }
  }

  lemma StartOfAll(rs: seq<Record>)
    ensures StartOf(rs, |rs|) == |EncodeAll(rs)|
  {
    hide EncodeAll;
    assert rs[..|rs|] == rs;
  }

  lemma StartOfInit(init: seq<Record>, r: Record, i: nat)
    requires i <= |init|
    ensures StartOf(init + [r], i) == StartOf(init, i)
    ensures StartOf(init, i) + |EncodeAll(init[i..])| == |EncodeAll(init)|
  {
    hide Encode, EncodeAll;
    assert (init + [r])[..i] == init[..i];
    assert init == init[..i] + init[i..];
    EncodeAllConcat(init[..i], init[i..]);
  }

  predicate OffsetsFrom(m: map<Key, nat>, start: nat)
  {
    forall k | k in m :: m[k] >= start
  }

  /**
   * `rebuild_index` from record `i` on moves the checkpoint to the end of the log all the same, so `close`
   * accepts. The index is then wrong about exactly the keys whose value lies before that record: it is
   * right if and only if there are none.
   */
  lemma RebuiltFromRecord(d: DiskState, i: nat)
    requires Attached(d) && i <= |RecordsOf(d.log)|
    ensures var start := DB_HEADER_SIZE + StartOf(RecordsOf(d.log), i);
            && start <= |d.log| <= FILE_LIMIT && ReadsToEnd(d, start)
            && var d' := FilesAfter(d, RebuiltFrom(start));
               && Attached(d') && !Lags(d')
               && Stale(d') == (set k | k in Wanted(d) && Wanted(d)[k] < start)
               && (IndexExact(d') <==> OffsetsFrom(Wanted(d), start))
  {
    hide RecordsOf, IndexImage.Contents, Checkpoint, Clean, Serving, DoAll, ReplayOffsets, Attached,
      BucketCount, RebuildFromPlan, Scan, LogOf, EncodeAll, From, FilesAfter;
    var rs := RecordsOf(d.log);
    var start := DB_HEADER_SIZE + StartOf(rs, i);
    AttachedLog(d);
    ScanFromRecord(d.log, rs, i);
    RebuiltFromStep(d, start);
    ReplaySuffix(rs, i, DB_HEADER_SIZE);
    DifferenceMeans(ReplayOffsets(rs[i..], start), Wanted(d));
  }

  lemma CreatedLog(n: nat)
    ensures Created(n).disk.log == DbHeader()
  {
  }

  lemma NewlyCreated(n: nat)
    requires 0 < n && TableEnd(n) <= FILE_LIMIT
    ensures var d := Created(n).disk;
            InUse(d, []) && |d.log| == DB_HEADER_SIZE && IndexImage.Contents(IndexOf(d)) == map[]
  {
    hide Created, DbHeader, Scan, Serving, Checkpoint, Clean, IndexImage.Contents, LogOf, LogContents, ReplayOffsets;
    CreatedInvariant(n);
    EmptyLog();
    LogFacts([]);
    CreatedLog(n);
  }

  lemma TwoOffsets(a: Record, b: Record)
    requires a.kind == b.kind == RecordType.Put
    ensures StartOf([a, b], 1) == |Encode(a)|
    ensures ReplayOffsets([a, b], DB_HEADER_SIZE)
         == map[a.key := DB_HEADER_SIZE][b.key := DB_HEADER_SIZE + |Encode(a)|]
  {
    hide Encode, EncodeAll, ReplayOffsets;
    assert [] + [a] == [a] && [a] + [b] == [a, b] && [a, b][..1] == [a];
    EncodeAllSnoc([], a);
    assert EncodeAll([]) == [] by { NoRecords(0, 1); }
    NothingReplayed(DB_HEADER_SIZE);
    ReplaySnoc([], a, DB_HEADER_SIZE);
    ReplaySnoc([a], b, DB_HEADER_SIZE);
  }

  lemma PutOne(d: DiskState, rs: seq<Record>, r: Record)
    requires InUse(d, rs) && Serializable(r) && r.kind == RecordType.Put && |d.log| + |Encode(r)| <= FILE_LIMIT
    ensures var d' := DoAll(d, PutPlan(d, r.key, r.value));
            && InUse(d', rs + [r]) && RecordsOf(d'.log) == rs + [r] && |d'.log| == |d.log| + |Encode(r)|
  {
    hide InUse, Encode, DoAll, SetPlan, BucketCount, RecordsOf, LogOf, LogContents, Serving, CheckpointPatch;
    LoggedDone(d, rs, r);
    assert PutPlan(d, r.key, r.value) == LoggedPlan(d, r) by { assert Record(RecordType.Put, r.key, r.value) == r; }
    InUseParts(d, rs);
    InUseParts(DoAll(d, LoggedPlan(d, r)), rs + [r]);
    LogSizes(rs, r);
  }

  /** The smallest such run: puts of "a" and "b" into a new database, then a rebuild from the second. */
  lemma RebuiltFromInstance()
    ensures var a, b := Record(RecordType.Put, [0x61], []), Record(RecordType.Put, [0x62], []);
            var d1 := DoAll(Created(1).disk, PutPlan(Created(1).disk, a.key, a.value));
            var d2 := DoAll(d1, PutPlan(d1, b.key, b.value));
            && Opened(d2) && Possible(d2, RebuiltFrom(38))
            && var d3 := FilesAfter(d2, RebuiltFrom(38));
               Attached(d3) && !Lags(d3) && Stale(d3) == {a.key}
  {
    hide Opened, Attached, Stale, RecordsOf, IndexImage.Contents, LogOf, BucketCount, Scan, Encode, ReplayOffsets,
      DoAll, InUse, Created, PutPlan, FilesAfter, LogContents, ReadsToEnd, Lags, StartOf, IndexExact, OffsetsFrom;
    var a, b := Record(RecordType.Put, [0x61], []), Record(RecordType.Put, [0x62], []);
    var d0 := Created(1).disk;
    NewlyCreated(1);
    PutOne(d0, [], a);
    var d1 := DoAll(d0, PutPlan(d0, a.key, a.value));
    PutOne(d1, [a], b) by { assert [] + [a] == [a]; }
    var d2 := DoAll(d1, PutPlan(d1, b.key, b.value));
    assert [a] + [b] == [a, b];
    InUseOpen(d2, [a, b]);
    OpenedAttached(d2);
    RebuiltFromRecord(d2, 1);
    TwoOffsets(a, b);
  }

  // ---- one lost update ----

  /**
   * The index update of the record `lost` is lost altogether, a later call `op` logs a record and runs to
   * its end, and `close` follows. It always marks the files clean, and that is right if and only if `op`
   * names the same key: the index has seen that record and nothing of `lost`, so for a key that was there
   * before it still holds the old offset.
   */
  lemma LostThenLogged(d: DiskState, rs: seq<Record>, lost: Record, op: Op)
    requires InUse(d, rs) && Serializable(lost) && |d.log| + |Encode(lost)| <= FILE_LIMIT
    requires lost.kind.Delete? ==> lost.key in IndexImage.Contents(IndexOf(d))
    requires var d1 := Do(d, AppendLog(Encode(lost))); LoggedRecord(op, d1).Some? && Room(op, d1)
    ensures var d1 := Do(d, AppendLog(Encode(lost)));
            var d3, r := Closed(DoAll(d1, PlanOf(op, d1))), LoggedRecord(op, d1).value;
            && MetadataClean(d3) && d3.log == LogOf(rs + [lost] + [r])
            && IndexImage.Contents(IndexOf(d3)) == ApplyOffset(IndexImage.Contents(IndexOf(d)), r, |d1.log|)
            && (IndexImage.Contents(IndexOf(d3)) == ReplayOffsets(rs + [lost] + [r], DB_HEADER_SIZE)
                <==> r.key == lost.key)
  {
    hide Attached, RecordsOf, IndexImage.Contents, Checkpoint, Clean, LogOf, BucketCount, Scan, LogLoads, Encode,
      LogContents, Replay, DoAll, Difference, ReplayOffsets, Serving, HeaderIntact, PlanOf, Closed, Room,
      LoggedRecord, LoggedPlan, ApplyOffset, RecordPlan;
    var d1, r := Do(d, AppendLog(Encode(lost))), LoggedRecord(op, Do(d, AppendLog(Encode(lost)))).value;
    var d2 := DoAll(d1, PlanOf(op, d1));
    InUseOpen(d, rs);
    OpenedAttached(d);
    LostFirst(d, rs, lost);
    PlanIsLogged(op, d1, r);
    LoggedCall(d1, r);
    LoggedServing(d1, rs + [lost], r);
    ServingParts(d2, rs + [lost] + [r]);
    ClosedFiles(d2);
    DifferenceMeans(IndexImage.Contents(IndexOf(d2)), Wanted(d2));
    assert {lost.key} - {r.key} == {} <==> r.key == lost.key by {
      assert r.key != lost.key ==> lost.key in {lost.key} - {r.key};
    }
  }

  /** The files when everything after the append was lost. */
  lemma LostFirst(d: DiskState, rs: seq<Record>, lost: Record)
    requires InUse(d, rs) && Serializable(lost) && |d.log| + |Encode(lost)| <= FILE_LIMIT
    requires lost.kind.Delete? ==> lost.key in IndexImage.Contents(IndexOf(d))
    ensures var d1 := Do(d, AppendLog(Encode(lost)));
            && Attached(d1) && Stale(d1) == {lost.key} && Serving(d1, rs + [lost]) && BucketCount(IndexOf(d1)) > 0
  {
    hide OffsetsBelow, Stale, RecordsOf, IndexImage.Contents, Checkpoint, Clean, LogOf, BucketCount, Scan, LogLoads,
      Encode, LogContents, Replay, DoAll, Serving, Loads, LoggedPlan, RecordPlan;
    var d1 := Do(d, AppendLog(Encode(lost)));
    InUseOpen(d, rs);
    OpenedAttached(d);
    ServingParts(d, rs);
    assert RecordPlan(IndexOf(d), lost, |d.log|) != [] by { RecordPlanSome(IndexOf(d), lost, |d.log|); }
    LoggedPlanSize(d, lost);
    FirstWrite(d, lost);
    ThrownCall(d, lost, 0);
  }

  lemma FirstWrite(d: DiskState, r: Record)
    requires BucketCount(IndexOf(d)) > 0
    ensures At(d, LoggedPlan(d, r), 1) == Do(d, AppendLog(Encode(r)))
  {
    hide Encode, RecordPlan, BucketCount, DoAll, U64Bytes;
    assert LoggedPlan(d, r)[..1] == [AppendLog(Encode(r))];
    DoAllOne(d, AppendLog(Encode(r)));
  }

  lemma RecordPlanSome(img: Bytes, r: Record, start: nat)
    requires WellFormed(img) && BucketCount(img) > 0 && (r.kind.Delete? ==> r.key in IndexImage.Contents(img))
    ensures RecordPlan(img, r, start) != []
  {
    hide WellFormed, IndexImage.Contents, ErasePlan, BucketCount, ApplyPatches, Position, ChainFor, U64Bytes, U32Bytes;
    if r.kind.Delete? {
      EraseEveryStep(img, r.key, 0);
    }
  }

  /** Both records are in the log, and two puts bind both keys. */
  lemma BothLogged(rs: seq<Record>, a: Record, b: Record)
    requires AllSerializable(rs) && Serializable(a) && Serializable(b) && a.kind == b.kind == RecordType.Put
    ensures RecordsOf(LogOf(rs + [a] + [b])) == rs + [a] + [b]
    ensures a.key in LogContents(LogOf(rs + [a] + [b]))
  {
    hide Serializable, LogOf, Replay, RecordsOf;
    assert forall q | q in rs + [a] + [b] :: q in rs || q == a || q == b;
    LogFacts(rs + [a] + [b]);
    ReplayOne(rs, a);
    ReplayOne(rs + [a], b);
  }

  /** The smallest such run: a new database of one bucket, a lost `put` of "a", then a `put` of "b". */
  lemma LostThenLoggedInstance()
    ensures var d := Created(1).disk;
            var lost, op := Record(RecordType.Put, [0x61], [0x31]), OpPut([0x62], [0x32]);
            var d1 := Do(d, AppendLog(Encode(lost)));
            var d3 := Closed(DoAll(d1, PlanOf(op, d1)));
            && InUse(d, []) && MetadataClean(d3) && !IndexExact(d3)
            && lost.key in LogContents(d3.log) && GetResult(d3, lost.key) == Value(None)
  {
    hide Attached, RecordsOf, IndexImage.Contents, Checkpoint, Clean, LogOf, BucketCount, Scan, LogLoads, Encode,
      LogContents, Replay, DoAll, ReplayOffsets, InUse, HeaderIntact, PlanOf, Closed, Created, DbHeader,
      MetadataClean;
    var d := Created(1).disk;
    var lost, r := Record(RecordType.Put, [0x61], [0x31]), Record(RecordType.Put, [0x62], [0x32]);
    var op := OpPut(r.key, r.value);
    var d1 := Do(d, AppendLog(Encode(lost)));
    NewlyCreated(1);
    assert LoggedRecord(op, d1) == Some(r);
    LostThenLogged(d, [], lost, op);
    BothLogged([], lost, r);
  }

  /**
   * A `put` whose index update was lost is in the log, but it is not seen: reading its key returns what
   * it returned before, be that nothing or the old value.
   */
  lemma LostPutUnseen(d: DiskState, key: Key, value: Log.Value, writes: nat)
    requires Opened(d) && Possible(d, Thrown(OpPut(key, value), writes))
    requires 0 < writes < |PlanOf(OpPut(key, value), d)| - 1
    ensures var d' := FilesAfter(d, Thrown(OpPut(key, value), writes));
            && LogContents(d'.log) == LogContents(d.log)[key := value]
            && GetResult(d', key) == GetResult(d, key)
            && GetResult(d, key) == Value(if key in LogContents(d.log) then Some(LogContents(d.log)[key]) else None)
  {
    hide IndexImage.Contents, RecordsOf, Serving, Checkpoint, Clean, LogContents, Replay, GetResult, DoAll, Encode,
      BucketCount, LoggedPlan, PlanOf, RecordPlan, LogOf, Loads, AllSerializable, LogLoads, WellFormed, FilesFit;
    var op, rs := OpPut(key, value), RecordsOf(d.log);
    var d', r := FilesAfter(d, Thrown(op, writes)), Record(RecordType.Put, key, value);
    OpenedAttached(d);
    ServingParts(d, rs);
    if LoggedRecord(op, d) == None {
      NothingLogged(op, d);
    } else {
      PlanIsLogged(op, d, r);
      LoggedPlanSize(d, r);
      ThrownFiles(d, r, writes - 1);
      RecordEveryStep(IndexOf(d), r, |d.log|, writes - 1);
      ThrownCall(d, r, writes - 1);
      ServingParts(d', rs + [r]);
      ReplayOne(rs, r);
      GetCorrect(d, key);
      LaterRead(d, d', key, Encode(r));
    }
  }

  /** What was read from the log is read again when the log has grown. */
  lemma LaterRead(d: DiskState, d': DiskState, key: Key, more: Bytes)
    requires d'.log == d.log + more && GetResult(d, key) != Threw
    requires IndexImage.Contents(IndexOf(d')) == IndexImage.Contents(IndexOf(d))
    ensures GetResult(d', key) == GetResult(d, key)
  {
    hide IndexImage.Contents, Parse;
    var m := IndexImage.Contents(IndexOf(d));
    if key in m {
      assert (d.log + more)[m[key]..] == d.log[m[key]..] + more;
      VerdictFinal(d.log[m[key]..], more);
    }
  }
}
