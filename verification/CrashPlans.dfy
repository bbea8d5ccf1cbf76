/** Every operation of the database is safe under a kill at any byte, and ends where it should. */
module CrashPlans {
  import opened Codec
  import opened Records
  import opened Log
  import opened IndexImage
  import opened IndexUpdates
  import opened IndexPlans
  import opened IndexSetup
  import opened IndexMetadata
  import opened DiskModel
  import opened Protocol
  import opened CrashSteps

  // ---- put and erase ----

  lemma HarmlessPlan(img: Bytes, r: Record, start: nat)
    requires WellFormed(img) && BucketCount(img) > 0
    ensures forall p | p in RecordPlan(img, r, start) :: Harmless(p)
  {
    hide SetPlan, ErasePlan, WellFormed, BucketCount, Harmless;
    HarmlessSet(img, r.key, start);
    HarmlessErase(img, r.key);
  }

  lemma HarmlessSet(img: Bytes, key: Key, start: nat)
    requires WellFormed(img) && BucketCount(img) > 0
    ensures forall p | p in SetPlan(img, key, start) :: Harmless(p)
  {
    hide U64Bytes, U32Bytes, WellFormed, ChainFor, Bucket, Headed, BucketCount, Position;
    var c := ChainFor(img, key);
    WellFormedParts(img, key);
    HeadedEnd(img, BucketCount(img));
    if Position(c, key) < |c| {
      EntryThere(img, key, Position(c, key));
    }
  }

  lemma HarmlessErase(img: Bytes, key: Key)
    requires WellFormed(img) && BucketCount(img) > 0
    ensures forall p | p in ErasePlan(img, key) :: Harmless(p)
  {
    hide U64Bytes, WellFormed, ChainFor, Bucket, BucketCount, Position;
    var c := ChainFor(img, key);
    var i := Position(c, key);
    if i < |c| {
      EntryThere(img, key, i);
    }
    if 0 < i {
      EntryThere(img, key, i - 1);
    }
  }

  /** The writes that log a record and index it. */
  function LoggedPlan(d: DiskState, r: Record): seq<DiskWrite>
    requires BucketCount(IndexOf(d)) > 0
  {
    [AppendLog(Encode(r))]
    + Lift(Installed, RecordPlan(IndexOf(d), r, |d.log|) + [CheckpointPatch(|d.log| + |Encode(r)|)])
  }

  lemma LoggedSafe(d: DiskState, rs: seq<Record>, r: Record)
    requires InUse(d, rs) && Serializable(r) && |d.log| + |Encode(r)| <= FILE_LIMIT
    ensures BucketCount(IndexOf(d)) > 0
    ensures CrashSafe(d, LoggedPlan(d, r), Replay(rs), Replay(rs + [r]))
  {
    hide Encode, Serializable, WellFormed, Safe, RecordPlan, Replay, LogContents, BucketCount, Clean, U64Bytes,
      CrashSafe;
    InUseParts(d, rs);
    AppendSafe(d, rs, r);
    var append := AppendLog(Encode(r));
    var ps := RecordPlan(IndexOf(d), r, |d.log|) + [CheckpointPatch(|d.log| + |Encode(r)|)];
    HarmlessPlan(IndexOf(d), r, |d.log|);
    assert Harmless(CheckpointPatch(|d.log| + |Encode(r)|));
    var d1 := Do(d, append);
    DoAllOne(d, append);
    HarmlessSafe(d1, ps, Replay(rs), Replay(rs + [r]));
    CrashSafeConcat(d, [append], Lift(Installed, ps), Replay(rs), Replay(rs + [r]));
  }

  /**
   * Once its last write is made, the record is in the log and has had its effect on the index, whatever
   * the index held; and the checkpoint is the end of the log.
   */
  lemma LoggedServing(d: DiskState, rs: seq<Record>, r: Record)
    requires Serving(d, rs) && Serializable(r) && |d.log| + |Encode(r)| <= FILE_LIMIT
    ensures BucketCount(IndexOf(d)) > 0
    ensures var d' := DoAll(d, LoggedPlan(d, r));
            && Serving(d', rs + [r]) && Checkpoint(IndexOf(d')) == |d'.log| && d'.staging == d.staging
            && IndexImage.Contents(IndexOf(d')) == ApplyOffset(IndexImage.Contents(IndexOf(d)), r, |d.log|)
            && (Clean(IndexOf(d')) <==> Clean(IndexOf(d))) && BucketCount(IndexOf(d')) == BucketCount(IndexOf(d))
  {
    hide Encode, Serializable, WellFormed, RecordPlan, BucketCount, Clean, U64Bytes, DoAll, Replay,
      ApplyPatches, ApplyPatch, Loads;
    hide LogOf, Checkpoint, IndexImage.Contents, SameHeader, ApplyOffset, EncodeAll, Scan, LogContents, Serving;
    ServingParts(d, rs);
    var img, start := IndexOf(d), |d.log|;
    var plan, checkpoint := RecordPlan(img, r, start), CheckpointPatch(start + |Encode(r)|);
    var d1 := Do(d, AppendLog(Encode(r)));
    DoAllOne(d, AppendLog(Encode(r)));
    DoAllConcat(d, [AppendLog(Encode(r))], Lift(Installed, plan + [checkpoint]));
    DoLifted(d1, Installed, plan + [checkpoint]);
    ApplyPatchesConcat(img, plan, [checkpoint]);
    var img1 := ApplyPatches(img, plan);
    ApplyOne(img1, checkpoint);
    EncodedKeyFits(r);
    RecordStep(img, r, start);
    SameHeaderMetadata(img, img1);
    CheckpointStep(img1, start + |Encode(r)|);
    LogAppended(rs, r);
    assert forall q | q in rs + [r] :: q in rs || q == r;
    NowServing(DoAll(d, LoggedPlan(d, r)), rs + [r]);
  }

  lemma NowServing(d: DiskState, rs: seq<Record>)
    requires AllSerializable(rs) && d.log == LogOf(rs) && FilesFit(d)
    requires d.index.Some? && WellFormed(IndexOf(d)) && |IndexOf(d)| <= FILE_LIMIT + 2 * |d.log|
    ensures Serving(d, rs)
  {
    hide WellFormed, BucketCount, LogOf, AllSerializable;
  }

  /** If the index was that of the whole log, it still is. */
  lemma LoggedDone(d: DiskState, rs: seq<Record>, r: Record)
    requires InUse(d, rs) && Serializable(r) && |d.log| + |Encode(r)| <= FILE_LIMIT
    ensures BucketCount(IndexOf(d)) > 0
    ensures InUse(DoAll(d, LoggedPlan(d, r)), rs + [r])
    ensures DoAll(d, LoggedPlan(d, r)).staging == d.staging
  {
    hide Encode, Serializable, Clean, DoAll, LogOf, Checkpoint, IndexImage.Contents, ApplyOffset, ReplayOffsets,
      EncodeAll, Serving, LoggedPlan, LogContents, Scan;
    InUseParts(d, rs);
    LoggedServing(d, rs, r);
    LogFacts(rs);
    ReplaySnoc(rs, r, DB_HEADER_SIZE);
  }

  // ---- the clean flag ----

  lemma CaughtUpSafe(d: DiskState, rs: seq<Record>)
    requires CaughtUp(d, rs)
    ensures Safe(d) && HeaderIntact(d) && LogContents(d.log) == Replay(rs) && RecordsOf(d.log) == rs
  {
    hide Scan, LogOf, AllSerializable, Clean, Loads, WellFormed, BucketCount, LogLoads, LogContents, Replay,
      ReplayOffsets, Checkpoint, IndexImage.Contents;
    ServingParts(d, rs);
  }

  /** Setting or clearing the flag on an index that has caught up: `close` and the end of open. */
  lemma FlagSafe(d: DiskState, rs: seq<Record>, clean: bool)
    requires CaughtUp(d, rs)
    ensures var w := WriteIndex(Installed, CleanPatch(clean));
            && CrashSafe(d, [w], Replay(rs), Replay(rs))
            && CaughtUp(Do(d, w), rs) && (Clean(IndexOf(Do(d, w))) <==> clean)
  {
    hide Safe, Clean, Replay, ApplyPatch, LogContents, CaughtUp, CrashSafe, CleanPatch;
    var w, m := WriteIndex(Installed, CleanPatch(clean)), Replay(rs);
    FlagDone(d, rs, clean);
    CaughtUpSafe(d, rs);
    CaughtUpSafe(Do(d, w), rs);
    forall c: nat
      ensures Holds(d, KilledDuring(d, w, c), m, m)
    {
      FlagTorn(d, clean, c);
    }
    CrashSafeOne(d, w, m, m);
  }

  lemma FlagDone(d: DiskState, rs: seq<Record>, clean: bool)
    requires CaughtUp(d, rs)
    ensures var d' := Do(d, WriteIndex(Installed, CleanPatch(clean)));
            && CaughtUp(d', rs) && (Clean(IndexOf(d')) <==> clean)
            && d'.log == d.log && BucketCount(IndexOf(d')) == BucketCount(IndexOf(d))
  {
    hide WellFormed, BucketCount, Clean, IndexImage.Contents, ReplayOffsets, Checkpoint, LogOf, AllSerializable,
      ApplyPatch, CleanPatch;
    CleanStep(IndexOf(d), clean);
  }

  /** The flag is one byte: it is written or it is not. */
  lemma FlagTorn(d: DiskState, clean: bool, c: nat)
    ensures var w := WriteIndex(Installed, CleanPatch(clean));
            KilledDuring(d, w, c) == d || KilledDuring(d, w, c) == Do(d, w)
  {
    hide ApplyPatch;
    if c == 0 {
      PatchNothing(IndexOf(d), CleanPatch(clean));
    } else {
      assert Cut(CleanPatch(clean).data, c) == CleanPatch(clean).data;
    }
  }

  lemma PatchNothing(img: Bytes, p: Patch)
    ensures ApplyPatch(img, Patch(p.at, Cut(p.data, 0))) == img
  {
    assert Cut(p.data, 0) == [];
  }

  // ---- rebuilding ----

  predicate StagedOnly(w: DiskWrite)
  {
    (w.CreateIndex? || w.WriteIndex? || w.RemoveStaged?) && (w.CreateIndex? || w.WriteIndex? ==> w.slot == Staged)
  }

  predicate SameFiles(d: DiskState, d': DiskState)
  {
    d'.log == d.log && d'.index == d.index
  }

  lemma {:induction false} StagedKeeps(d: DiskState, ws: seq<DiskWrite>)
    requires forall w | w in ws :: StagedOnly(w)
    ensures SameFiles(d, DoAll(d, ws))
    decreases |ws|
  {
    hide ApplyPatch;
    if ws != [] {
      assert StagedOnly(ws[0]);
      StagedKeeps(Do(d, ws[0]), ws[1..]);
    }
  }

  lemma SafeElsewhere(d: DiskState, d': DiskState, before: Store, after: Store)
    requires Holds(d, d, before, after) && SameFiles(d, d')
    ensures Holds(d, d', before, after) && Holds(d', d', before, after)
  {
    hide Scan, Loads, Clean, WellFormed, IndexImage.Contents, ReplayOffsets, Checkpoint, BucketCount, LogOf,
      LogLoads, AllSerializable, LogContents;
  }

  /** Nothing done to the staging file matters. */
  lemma StagedSafe(d: DiskState, ws: seq<DiskWrite>, before: Store, after: Store)
    requires Holds(d, d, before, after) && forall w | w in ws :: StagedOnly(w)
    ensures CrashSafe(d, ws, before, after)
  {
    hide Holds, DoAll, ApplyPatch;
    forall i | 0 <= i <= |ws|
      ensures SameFiles(d, At(d, ws, i))
    {
      StagedKeeps(d, ws[..i]);
    }
    forall i | 0 <= i <= |ws|
      ensures Holds(d, At(d, ws, i), before, after)
    {
      SafeElsewhere(d, At(d, ws, i), before, after);
    }
    forall i, c: nat | 0 <= i < |ws|
      ensures Holds(d, KilledDuring(At(d, ws, i), ws[i], c), before, after)
    {
      assert ws[i] in ws;
      SafeElsewhere(d, KilledDuring(At(d, ws, i), ws[i], c), before, after);
    }
  }

  lemma Staging(d: DiskState, rs: seq<Record>, base: nat, n: nat)
    ensures DoAll(d, StagingPlan(rs, base, n)) == d.(staging := Some(Rebuilt(rs, base, n)))
    ensures forall w | w in StagingPlan(rs, base, n) :: StagedOnly(w)
  {
    hide ReplayPlan, ApplyPatches, DoAll;
    var d1 := Do(d, CreateIndex(Staged));
    DoAllOne(d, CreateIndex(Staged));
    DoAllConcat(d, [CreateIndex(Staged)], Lift(Staged, ReplayPlan(rs, base, n)));
    DoLifted(d1, Staged, ReplayPlan(rs, base, n));
  }

  lemma InstallPlanParts(size: nat)
    ensures InstallPlan(size) == [InstallStaged] + Lift(Installed, [CheckpointPatch(size)])
  {
    hide U64Bytes;
    var checkpoint := CheckpointPatch(size);
    assert Lift(Installed, [checkpoint]) == [WriteIndex(Installed, checkpoint)];
  }

  /** What a rebuild leaves: the new index with its checkpoint, and no staging file. */
  lemma RebuildFromEnds(d: DiskState, from: nat, n: nat)
    ensures var img := Rebuilt(Scan(From(d.log, from)).records, from, n);
            DoAll(d, RebuildFromPlan(d.log, from, n))
            == DiskState(d.log, Some(ApplyPatch(img, CheckpointPatch(|d.log|))), None)
  {
    hide DoAll, Rebuilt, U64Bytes, ApplyPatch, ApplyPatches, StagingPlan, InstallPlan, Scan;
    var rs, checkpoint := Scan(From(d.log, from)).records, CheckpointPatch(|d.log|);
    var img := Rebuilt(rs, from, n);
    InstallPlanParts(|d.log|);
    Staging(d, rs, from, n);
    var d1 := d.(staging := Some(img));
    var d2 := Do(d1, InstallStaged);
    DoAllConcat(d, StagingPlan(rs, from, n), InstallPlan(|d.log|));
    DoAllConcat(d1, [InstallStaged], Lift(Installed, [checkpoint]));
    DoAllOne(d1, InstallStaged);
    DoLifted(d2, Installed, [checkpoint]);
    ApplyOne(img, checkpoint);
  }

  lemma RebuildEnds(d: DiskState, rs: seq<Record>, n: nat)
    requires AllSerializable(rs) && d.log == LogOf(rs)
    ensures DoAll(d, RebuildPlan(d.log, n))
         == DiskState(d.log, Some(ApplyPatch(Rebuilt(rs, DB_HEADER_SIZE, n), CheckpointPatch(|d.log|))), None)
  {
    hide DoAll, RebuildFromPlan, Rebuilt, LogOf, AllSerializable, U64Bytes, ApplyPatch, Scan;
    LogFacts(rs);
    RebuildFromEnds(d, DB_HEADER_SIZE, n);
  }

  /** A finished rebuild leaves an index of the whole log that is not marked clean. */
  lemma RebuildDone(d: DiskState, rs: seq<Record>, n: nat)
    requires AllSerializable(rs) && d.log == LogOf(rs) && |d.log| <= FILE_LIMIT
    requires 0 < n && TableEnd(n) <= FILE_LIMIT
    ensures var d' := DoAll(d, RebuildPlan(d.log, n));
            InUse(d', rs) && BucketCount(IndexOf(d')) == n && d'.staging == None && d'.log == d.log
  {
    hide DoAll, RebuildPlan, Rebuilt, WellFormed, BucketCount, Clean, Checkpoint, IndexImage.Contents,
      ReplayOffsets, LogOf, AllSerializable, CheckpointPatch, ApplyPatch, InUse;
    LogFacts(rs);
    RebuildEnds(d, rs, n);
    RebuildExact(rs, DB_HEADER_SIZE, n);
    CheckpointStep(Rebuilt(rs, DB_HEADER_SIZE, n), |d.log|);
    NewlyIndexed(DoAll(d, RebuildPlan(d.log, n)), rs, n);
  }

  lemma NewlyIndexed(d: DiskState, rs: seq<Record>, n: nat)
    requires AllSerializable(rs) && d.log == LogOf(rs) && |d.log| <= FILE_LIMIT
    requires d.index.Some? && WellFormed(IndexOf(d)) && !Clean(IndexOf(d))
    requires BucketCount(IndexOf(d)) == n && TableEnd(n) <= FILE_LIMIT
    requires |IndexOf(d)| <= FILE_LIMIT + 2 * |d.log| && Checkpoint(IndexOf(d)) == |d.log|
    requires IndexImage.Contents(IndexOf(d)) == ReplayOffsets(rs, DB_HEADER_SIZE)
    ensures InUse(d, rs)
  {
    hide WellFormed, BucketCount, Clean, Checkpoint, IndexImage.Contents, ReplayOffsets, LogOf, AllSerializable;
  }

  /**
   * A rebuild is safe at every byte if there is no acceptable index, or one that is not marked clean:
   * until the rename nothing has changed, and what is renamed into place is not marked clean either.
   */
  lemma RebuildSafe(d: DiskState, rs: seq<Record>, n: nat)
    requires Safe(d) && AllSerializable(rs) && d.log == LogOf(rs)
    requires HeaderIntact(d) ==> !Clean(IndexOf(d))
    requires 0 < n && TableEnd(n) <= FILE_LIMIT
    ensures CrashSafe(d, RebuildPlan(d.log, n), Replay(rs), Replay(rs))
  {
    hide DoAll, Rebuilt, BucketCount, Clean, Checkpoint, IndexImage.Contents, ReplayOffsets, LogOf,
      AllSerializable, U64Bytes, ApplyPatch, ApplyPatches, StagingPlan, InstallPlan;
    hide CrashSafe, WellFormed, Loads, Scan, LogContents, SameIdentity, Harmless, Safe;
    var m, img, checkpoint := Replay(rs), Rebuilt(rs, DB_HEADER_SIZE, n), CheckpointPatch(|d.log|);
    LogFacts(rs);
    SafeSize(d);
    RebuildExact(rs, DB_HEADER_SIZE, n);
    InstallPlanParts(|d.log|);
    Staging(d, rs, DB_HEADER_SIZE, n);
    StagedSafe(d, StagingPlan(rs, DB_HEADER_SIZE, n), m, m);
    var d1 := d.(staging := Some(img));
    var d2 := Do(d1, InstallStaged);
    SafeElsewhere(d, d1, m, m);
    WellFormedLoads(img);
    DirtySafe(d2, img);
    CrashSafeOne(d1, InstallStaged, m, m);
    DoAllOne(d1, InstallStaged);
    CheckpointHarmless(|d.log|);
    HarmlessSafe(d2, [checkpoint], m, m);
    CrashSafeConcat(d1, [InstallStaged], Lift(Installed, [checkpoint]), m, m);
    CrashSafeConcat(d, StagingPlan(rs, DB_HEADER_SIZE, n), InstallPlan(|d.log|), m, m);
  }

  lemma SafeSize(d: DiskState)
    requires Safe(d)
    ensures LogLoads(d.log) && |d.log| <= FILE_LIMIT
  {
    hide Scan, Loads, Clean, CaughtUp, LogLoads, BucketCount;
  }

  lemma CheckpointHarmless(offset: nat)
    ensures Harmless(CheckpointPatch(offset))
  {
    hide U64Bytes;
  }

  lemma WellFormedLoads(img: Bytes)
    requires WellFormed(img)
    ensures Loads(img) && SameIdentity(img, img)
  {
    hide WellFormed, Headed;
    WellFormedParts(img, []);
    HeadedEnd(img, BucketCount(img));
  }

  // ---- opening ----

  /** The log up to where its valid records end is the log of those records. */
  lemma ValidPart(log: Bytes)
    requires LogLoads(log)
    ensures AllSerializable(RecordsOf(log)) && log[..ValidEnd(log)] == LogOf(RecordsOf(log))
    ensures Scan(Tail(log)).stop == EndOfFile ==> log == LogOf(RecordsOf(log))
    ensures LogContents(log) == Replay(RecordsOf(log))
  {
    hide Scan, DbHeader, EncodeAll, AllSerializable, Parse;
    ScanSound(Tail(log));
    var size := Scan(Tail(log)).size;
    assert log[..DB_HEADER_SIZE] == DbHeader();
    PrefixOfTail(log, size);
    EndOfFileIsEmpty(Tail(log)[size..]);
    if Scan(Tail(log)).stop == EndOfFile {
      assert |Tail(log)[size..]| == 0;
      assert log[..ValidEnd(log)] == log;
    }
  }

  lemma PrefixOfTail(log: Bytes, size: nat)
    requires |log| >= DB_HEADER_SIZE && size <= |Tail(log)|
    ensures log[..DB_HEADER_SIZE + size] == log[..DB_HEADER_SIZE] + Tail(log)[..size]
  {
  }

  /** Recovery over a dirty index is safe and ends with an index of the records that survived. */
  lemma RecoverSafe(d: DiskState, n: nat)
    requires Safe(d) && HeaderIntact(d) && !Clean(IndexOf(d)) && 0 < n && TableEnd(n) <= FILE_LIMIT
    ensures |d.log| >= DB_HEADER_SIZE && RecoverPlan(d.log, n).Some?
    ensures var plan, m := RecoverPlan(d.log, n).value, LogContents(d.log);
            && CrashSafe(d, plan, m, m)
            && InUse(DoAll(d, plan), RecordsOf(d.log)) && BucketCount(IndexOf(DoAll(d, plan))) == n
  {
    hide DoAll, RebuildPlan, BucketCount, Clean, LogOf, AllSerializable, CrashSafe, Loads, Scan, CaughtUp,
      DbHeader, LogContents, Replay, InUse;
    var rs, m := RecordsOf(d.log), LogContents(d.log);
    ValidPart(d.log);
    if Scan(Tail(d.log)).stop == EndOfFile {
      RebuildSafe(d, rs, n);
      RebuildDone(d, rs, n);
    } else {
      var end := ValidEnd(d.log);
      var d1 := Do(d, ResizeLog(end));
      assert d1.log == d.log[..end];
      LogFacts(rs);
      SameFilesDirty(d, d1);
      CrashSafeOne(d, ResizeLog(end), m, m);
      DoAllOne(d, ResizeLog(end));
      DoAllConcat(d, [ResizeLog(end)], RebuildPlan(d1.log, n));
      RebuildSafe(d1, rs, n);
      RebuildDone(d1, rs, n);
      CrashSafeConcat(d, [ResizeLog(end)], RebuildPlan(d1.log, n), m, m);
    }
  }

  lemma SameFilesDirty(d: DiskState, d': DiskState)
    requires Safe(d) && HeaderIntact(d) && !Clean(IndexOf(d)) && d'.index == d.index && |d'.log| <= |d.log|
    requires LogLoads(d'.log) && Scan(Tail(d'.log)).stop == EndOfFile
    ensures Safe(d') && HeaderIntact(d')
  {
    hide Scan, Loads, CaughtUp, BucketCount, LogLoads;
  }

  /** Once the index is that of the whole log, the plan may end by marking it dirty. */
  lemma DirtyAtEnd(d: DiskState, plan: seq<DiskWrite>, rs: seq<Record>)
    requires CrashSafe(d, plan, Replay(rs), Replay(rs)) && CaughtUp(DoAll(d, plan), rs)
    ensures CrashSafe(d, plan + [MARK_DIRTY], Replay(rs), Replay(rs))
    ensures InUse(DoAll(d, plan + [MARK_DIRTY]), rs)
  {
    hide DoAll, CrashSafe, CaughtUp, Clean, Replay, CleanPatch;
    var d1 := DoAll(d, plan);
    FlagSafe(d1, rs, false);
    DoAllConcat(d, plan, [MARK_DIRTY]);
    DoAllOne(d1, MARK_DIRTY);
    CrashSafeConcat(d, plan, [MARK_DIRTY], Replay(rs), Replay(rs));
  }

  /**
   * Opening a database left behind by any kill, or one that lost its index over a whole log, succeeds.
   * It keeps what the log holds, is itself safe under a kill at any byte, and ends with a dirty index of
   * the whole log.
   */
  lemma OpenSafe(d: DiskState, n: nat)
    requires Safe(d) && n > 0 && OpenFits(d, n)
    ensures OpenPlan(d, n).Opens?
    ensures var plan, m := OpenPlan(d, n).plan, LogContents(d.log);
            && CrashSafe(d, plan, m, m)
            && InUse(DoAll(d, plan), RecordsOf(d.log)) && Replay(RecordsOf(d.log)) == m
  {
    hide DoAll, BucketCount, Clean, LogOf, AllSerializable, CrashSafe, Scan, CaughtUp, DbHeader, LogContents,
      Replay, CleanPatch;
    hide RecoverPlan, Checkpoint, Headed, RebuildPlan;
    var rs, m, img := RecordsOf(d.log), LogContents(d.log), IndexOf(d);
    ValidPart(d.log);
    if !HeaderIntact(d) {
      RebuildSafe(d, rs, n);
      RebuildDone(d, rs, n);
      DirtyAtEnd(d, RebuildPlan(d.log, n), rs);
    } else if Clean(img) {
      TrustedCheckpoint(d, rs);
      FlagSafe(d, rs, false);
      DoAllOne(d, MARK_DIRTY);
    } else {
      LoadsPositive(img);
      RecoverSafe(d, BucketCount(img));
      DirtyAtEnd(d, RecoverPlan(d.log, BucketCount(img)).value, rs);
    }
  }

  /** The files when a kill hits the writes `ws` after `i` of them, `c` bytes into the next. */
  function KilledIn(d: DiskState, ws: seq<DiskWrite>, i: nat, c: nat): DiskState
    requires i <= |ws|
  {
    if i < |ws| then KilledDuring(At(d, ws, i), ws[i], c) else At(d, ws, i)
  }

  lemma KilledHolds(d: DiskState, ws: seq<DiskWrite>, before: Store, after: Store, i: nat, c: nat)
    requires CrashSafe(d, ws, before, after) && i <= |ws|
    ensures Holds(d, KilledIn(d, ws, i, c), before, after)
  {
    hide Holds, At, KilledDuring;
    if i < |ws| {
      assert Holds(d, KilledDuring(At(d, ws, i), ws[i], c), before, after);
    } else {
      assert Holds(d, At(d, ws, i), before, after);
    }
  }

  /**
   * A missing or unacceptable index over a log of whole records is replaced, and a kill at any byte of
   * doing so is harmless: the next open, with the same bucket count, succeeds and finds the same contents.
   */
  lemma LostIndexReplaced(d: DiskState, n: nat, i: nat, c: nat)
    requires LogLoads(d.log) && |d.log| <= FILE_LIMIT && Scan(Tail(d.log)).stop == EndOfFile
    requires d.index == None || !Loads(IndexOf(d))
    requires n > 0 && TableEnd(n) <= FILE_LIMIT
    ensures OpenPlan(d, n).Opens? && OpenPlan(d, n).report.action == FullIndexRebuild
    ensures var plan := OpenPlan(d, n).plan;
            && InUse(DoAll(d, plan), RecordsOf(d.log)) && DoAll(d, plan).log == d.log
            && (i <= |plan| ==>
                  var d' := KilledIn(d, plan, i, c);
                  && OpenPlan(d', n).Opens? && LogContents(d'.log) == LogContents(d.log)
                  && InUse(DoAll(d', OpenPlan(d', n).plan), RecordsOf(d'.log)))
  {
    hide DoAll, Loads, Scan, CaughtUp, BucketCount, LogLoads, LogContents, Replay, CrashSafe, InUse, RebuildPlan,
      KilledIn, AllSerializable, LogOf, Clean, Checkpoint;
    var plan, m := OpenPlan(d, n).plan, LogContents(d.log);
    assert !HeaderIntact(d);
    ValidPart(d.log);
    OpenSafe(d, n);
    RebuildDone(d, RecordsOf(d.log), n);
    DoAllConcat(d, RebuildPlan(d.log, n), [MARK_DIRTY]);
    DoAllOne(DoAll(d, RebuildPlan(d.log, n)), MARK_DIRTY);
    if i <= |plan| {
      KilledHolds(d, plan, m, m, i, c);
      OpenSafe(KilledIn(d, plan, i, c), n);
    }
  }

  lemma TrustedCheckpoint(d: DiskState, rs: seq<Record>)
    requires CaughtUp(d, rs)
    ensures |d.log| == Checkpoint(IndexOf(d))
  {
  }

  lemma LoadsPositive(img: Bytes)
    requires Loads(img)
    ensures BucketCount(img) > 0
  {
  }
}
