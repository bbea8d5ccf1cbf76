/** Recovery and opening on arbitrary files: bounds, idempotence, and exactly when opening is refused. */
module Recovery {
  import opened Codec
  import opened Records
  import opened Log
  import opened IndexImage
  import opened IndexPlans
  import opened IndexSetup
  import opened IndexMetadata
  import opened DiskModel
  import opened Protocol
  import opened CrashSteps
  import opened CrashPlans

  /** However the log was damaged, recovery cuts off less than one record of the largest size. */
  lemma TruncationBounded(log: Bytes)
    requires |log| >= DB_HEADER_SIZE
    ensures TruncatedBytes(log) < 13 + MAX_KEY_SIZE + MAX_VALUE_SIZE
    ensures TruncatedBytes(log) > 0 <==> Scan(Tail(log)).stop == RecordReadStatus.Truncated
  {
    hide Scan, Parse, EncodeAll, AllSerializable;
    ScanSound(Tail(log));
    if Scan(Tail(log)).stop == RecordReadStatus.Truncated {
      TruncatedIsShort(Tail(log)[Scan(Tail(log)).size..]);
    }
  }

  /**
   * Recovery, on any log it accepts: it keeps everything before the failing offset and the contents
   * that hold there, reports the bytes it removed, and a second recovery removes none and changes
   * nothing at all.
   */
  lemma RecoveryIdempotent(d: DiskState, n: nat)
    requires LogLoads(d.log) && |d.log| <= FILE_LIMIT && 0 < n && TableEnd(n) <= FILE_LIMIT
    ensures |d.log| >= DB_HEADER_SIZE
    ensures RecoverPlan(d.log, n).Some? ==>
              var d1 := DoAll(d, RecoverPlan(d.log, n).value);
              && d1.log == d.log[..ValidEnd(d.log)] && |d1.log| == |d.log| - TruncatedBytes(d.log)
              && LogContents(d1.log) == LogContents(d.log) && InUse(d1, RecordsOf(d.log))
              && |d1.log| >= DB_HEADER_SIZE && TruncatedBytes(d1.log) == 0
              && RecoverPlan(d1.log, n).Some? && DoAll(d1, RecoverPlan(d1.log, n).value) == d1
  {
    hide DoAll, Scan, LogOf, AllSerializable, RebuildPlan, EncodeAll, InUse, LogLoads, Replay, Rebuilt, Tail;
    HeaderLength(d.log);
    var rs := RecordsOf(d.log);
    ValidPart(d.log);
    LogFacts(rs);
    var end := ValidEnd(d.log);
    var cut := Do(d, ResizeLog(end));
    assert cut.log == d.log[..end] == LogOf(rs);
    if Scan(Tail(d.log)).stop == EndOfFile {
      assert d.log == LogOf(rs);
      assert end == |d.log| by { CleanEndIsAll(d.log); }
      assert d.log[..end] == d.log;
      RebuiltTwice(d, rs, n);
    } else if Scan(Tail(d.log)).stop == RecordReadStatus.Truncated {
      DoAllOne(d, ResizeLog(end));
      DoAllConcat(d, [ResizeLog(end)], RebuildPlan(cut.log, n));
      RebuiltTwice(cut, rs, n);
    }
  }

  lemma CleanEndIsAll(log: Bytes)
    requires |log| >= DB_HEADER_SIZE && Scan(Tail(log)).stop == EndOfFile
    ensures ValidEnd(log) == |log|
  {
    hide Scan, Parse, EncodeAll, AllSerializable;
    ScanSound(Tail(log));
    EndOfFileIsEmpty(Tail(log)[Scan(Tail(log)).size..]);
  }

  /** Rebuilding again reproduces the same files byte for byte. */
  lemma RebuiltTwice(d: DiskState, rs: seq<Record>, n: nat)
    requires AllSerializable(rs) && d.log == LogOf(rs) && |d.log| <= FILE_LIMIT
    requires 0 < n && TableEnd(n) <= FILE_LIMIT
    ensures var d1 := DoAll(d, RebuildPlan(d.log, n));
            && InUse(d1, rs) && d1.log == d.log && DoAll(d1, RebuildPlan(d1.log, n)) == d1
  {
    hide DoAll, LogOf, AllSerializable, RebuildPlan, InUse, Rebuilt, ApplyPatch;
    RebuildDone(d, rs, n);
    RebuildEnds(d, rs, n);
    RebuildEnds(DoAll(d, RebuildPlan(d.log, n)), rs, n);
  }

  /** The contents of a rebuilt index do not depend on its number of buckets. */
  lemma BucketCountIrrelevant(rs: seq<Record>, m: nat, n: nat)
    requires AllSerializable(rs) && |LogOf(rs)| <= FILE_LIMIT
    requires 0 < m && TableEnd(m) <= FILE_LIMIT && 0 < n && TableEnd(n) <= FILE_LIMIT
    ensures IndexImage.Contents(Rebuilt(rs, DB_HEADER_SIZE, m)) == IndexImage.Contents(Rebuilt(rs, DB_HEADER_SIZE, n))
  {
    hide Rebuilt, IndexImage.Contents, AllSerializable, LogOf, WellFormed, ReplayOffsets, EncodeAll;
    LogFacts(rs);
    RebuildExact(rs, DB_HEADER_SIZE, m);
    RebuildExact(rs, DB_HEADER_SIZE, n);
  }

  // ---- what opening decides and reports ----

  /** The clean byte is set and the eight checkpoint bytes hold the size of the log. */
  predicate MarkedCaughtUp(d: DiskState)
  {
    var img := IndexOf(d);
    |img| >= 41 && img[40] == 1 && De(img[32..40]) == |d.log|
  }

  lemma MetadataBytes(d: DiskState)
    requires HeaderIntact(d)
    ensures MetadataClean(d) <==> MarkedCaughtUp(d)
  {
    hide De, HeaderPrefix;
  }

  /** An index that loads is trusted exactly if those bytes say that it has caught up. */
  lemma TrustsExactly(d: DiskState, n: nat)
    requires LogLoads(d.log) && n > 0 && HeaderIntact(d)
    ensures OpenPlan(d, n).Opens? && OpenPlan(d, n).report.action == NoAction <==> MarkedCaughtUp(d)
  {
    hide LogLoads, HeaderIntact, MetadataClean, MarkedCaughtUp, RebuildPlan, RecoverPlan, BucketCount, Scan;
    MetadataBytes(d);
  }

  lemma MarkedDirty(d: DiskState, plan: seq<DiskWrite>, rs: seq<Record>)
    requires InUse(DoAll(d, plan), rs)
    ensures var d1, d' := DoAll(d, plan), DoAll(d, plan + [MARK_DIRTY]);
            && InUse(d', rs) && d'.log == d1.log && BucketCount(IndexOf(d')) == BucketCount(IndexOf(d1))
  {
    hide DoAll, CaughtUp, Clean, CleanPatch, BucketCount;
    DoAllConcat(d, plan, [MARK_DIRTY]);
    DoAllOne(DoAll(d, plan), MARK_DIRTY);
    FlagDone(DoAll(d, plan), rs, false);
  }

  /** Recovery keeps what was scanned, cuts off what it reports, and gives the index the buckets asked for. */
  lemma RecoverDone(d: DiskState, n: nat)
    requires LogLoads(d.log) && |d.log| <= FILE_LIMIT && 0 < n && TableEnd(n) <= FILE_LIMIT
    ensures |d.log| >= DB_HEADER_SIZE
    ensures RecoverPlan(d.log, n).Some? ==>
              var d' := DoAll(d, RecoverPlan(d.log, n).value);
              && InUse(d', RecordsOf(d.log)) && BucketCount(IndexOf(d')) == n
              && d'.log <= d.log && |d'.log| == |d.log| - TruncatedBytes(d.log)
  {
    hide DoAll, Scan, BucketCount, LogOf, AllSerializable, InUse, RebuildPlan, EncodeAll, LogLoads;
    HeaderLength(d.log);
    ValidPart(d.log);
    var rs, end := RecordsOf(d.log), ValidEnd(d.log);
    if Scan(Tail(d.log)).stop == EndOfFile {
      RebuildDone(d, rs, n);
    } else if Scan(Tail(d.log)).stop == RecordReadStatus.Truncated {
      var d1 := Do(d, ResizeLog(end));
      DoAllOne(d, ResizeLog(end));
      DoAllConcat(d, [ResizeLog(end)], RebuildPlan(d1.log, n));
      RebuildDone(d1, rs, n);
    }
  }

  /**
   * Opening by way of a rebuild, on any files: the database is in use, keeps what the log held and cuts off
   * what it reports. An index that loads gives the new one its number of buckets.
   */
  lemma OpenRebuilds(d: DiskState, n: nat)
    requires |d.log| <= FILE_LIMIT && TableEnd(n) <= FILE_LIMIT
    requires Loads(IndexOf(d)) ==> TableEnd(BucketCount(IndexOf(d))) <= FILE_LIMIT
    requires OpenPlan(d, n).Opens? && OpenPlan(d, n).report.action == FullIndexRebuild
    ensures var d' := DoAll(d, OpenPlan(d, n).plan);
            && InUse(d', RecordsOf(d.log)) && d'.log <= d.log
            && |d'.log| == |d.log| - OpenPlan(d, n).report.truncatedBytes
            && BucketCount(IndexOf(d')) == (if HeaderIntact(d) then BucketCount(IndexOf(d)) else n)
  {
    hide DoAll, Scan, Headed, BucketCount, RecordsOf, InUse, Clean, Checkpoint, RebuildPlan, RecoverPlan, LogLoads,
      TruncatedBytes;
    HeaderLength(d.log);
    if HeaderIntact(d) {
      LoadsPositive(IndexOf(d));
      RecoverDone(d, BucketCount(IndexOf(d)));
      MarkedDirty(d, RecoverPlan(d.log, BucketCount(IndexOf(d))).value, RecordsOf(d.log));
    } else {
      RecoverDone(d, n);
      CleanRecovery(d.log, n);
      MarkedDirty(d, RebuildPlan(d.log, n), RecordsOf(d.log));
    }
  }

  lemma CleanRecovery(log: Bytes, n: nat)
    requires |log| >= DB_HEADER_SIZE && Scan(Tail(log)).stop == EndOfFile
    ensures RecoverPlan(log, n) == Some(RebuildPlan(log, n)) && TruncatedBytes(log) == 0
  {
    hide Scan, RebuildPlan;
  }

  /** If they do not, and the log can be recovered, what opens is an index of the records that are there. */
  lemma DistrustRebuilds(d: DiskState, n: nat)
    requires LogLoads(d.log) && n > 0 && HeaderIntact(d) && FilesFit(d) && TableEnd(n) <= FILE_LIMIT
    requires !MarkedCaughtUp(d) && Scan(Tail(d.log)).stop in {EndOfFile, RecordReadStatus.Truncated}
    ensures OpenPlan(d, n).Opens? && OpenPlan(d, n).report.action == FullIndexRebuild
    ensures InUse(DoAll(d, OpenPlan(d, n).plan), RecordsOf(d.log))
  {
    hide LogLoads, HeaderIntact, MetadataClean, MarkedCaughtUp, RebuildPlan, BucketCount, Scan, DoAll, InUse, Loads;
    MetadataBytes(d);
    OpenRebuilds(d, n);
  }

  /**
   * The recovery report `report` of opening the files `d` with `n` buckets, which left `d'`: why the index
   * was rebuilt, if it was, and how much of the log was cut off; and how many buckets there are now.
   */
  predicate Reported(d: DiskState, n: nat, report: RecoveryReport, d': DiskState)
  {
    && (report.reason == MissingIndex <==> d.index == None)
    && (report.reason == InvalidIndex <==> d.index.Some? && !Loads(IndexOf(d)))
    && (report.reason == UncleanIndex <==> HeaderIntact(d) && !MarkedCaughtUp(d))
    && (report.reason == NoReason <==> HeaderIntact(d) && MarkedCaughtUp(d))
    && (report.action == NoAction <==> report.reason == NoReason)
    && d'.log <= d.log && report.truncatedBytes == |d.log| - |d'.log|
    && BucketCount(IndexOf(d')) == (if HeaderIntact(d) then BucketCount(IndexOf(d)) else n)
  }

  /** The report of every opening is right, and every index keeps its number of buckets. */
  lemma OpenReports(d: DiskState, n: nat)
    requires |d.log| <= FILE_LIMIT && TableEnd(n) <= FILE_LIMIT
    requires Loads(IndexOf(d)) ==> TableEnd(BucketCount(IndexOf(d))) <= FILE_LIMIT
    requires OpenPlan(d, n).Opens?
    ensures Reported(d, n, OpenPlan(d, n).report, DoAll(d, OpenPlan(d, n).plan))
  {
    hide LogLoads, MetadataClean, MarkedCaughtUp, RebuildPlan, RecoverPlan, BucketCount, Scan, DoAll, InUse, Loads,
      CleanPatch, TruncatedBytes, LogOf, RecordsOf;
    if OpenPlan(d, n).report.action == FullIndexRebuild {
      OpenRebuilds(d, n);
    } else {
      DoAllOne(d, MARK_DIRTY);
      FlagKeepsBuckets(IndexOf(d));
    }
    if HeaderIntact(d) {
      MetadataBytes(d);
    }
  }

  lemma FlagKeepsBuckets(img: Bytes)
    requires Loads(img)
    ensures BucketCount(ApplyPatch(img, CleanPatch(false))) == BucketCount(img)
  {
    hide Headed, ApplyPatch, CleanPatch;
    CleanHeader(img, BucketCount(img), false);
    HeaderRead(ApplyPatch(img, CleanPatch(false)), BucketCount(img));
  }

  // ---- when opening is refused ----

  predicate WholeRecords(log: Bytes, rs: seq<Record>)
  {
    AllSerializable(rs) && log == LogOf(rs)
  }

  predicate RecordsAndTail(log: Bytes, rs: seq<Record>, tail: Bytes)
  {
    AllSerializable(rs) && log == LogOf(rs) + tail && Parse(tail).status == RecordReadStatus.Truncated
  }

  lemma ScanDecides(log: Bytes)
    requires LogLoads(log)
    ensures Scan(Tail(log)).stop == EndOfFile <==> exists rs :: WholeRecords(log, rs)
    ensures Scan(Tail(log)).stop == RecordReadStatus.Truncated <==> exists rs, tail :: RecordsAndTail(log, rs, tail)
  {
    hide Scan, Parse, EncodeAll, AllSerializable, DbHeader, LogOf;
    HeaderLength(log);
    ValidPart(log);
    ScanSound(Tail(log));
    var rs0, end := RecordsOf(log), ValidEnd(log);
    assert log == log[..end] + log[end..];
    assert Tail(log)[Scan(Tail(log)).size..] == log[end..];
    if Scan(Tail(log)).stop == EndOfFile {
      assert WholeRecords(log, rs0);
    }
    if Scan(Tail(log)).stop == RecordReadStatus.Truncated {
      assert RecordsAndTail(log, rs0, log[end..]);
    }
    forall rs | WholeRecords(log, rs)
      ensures Scan(Tail(log)).stop == EndOfFile
    {
      LogFacts(rs);
    }
    forall rs, tail | RecordsAndTail(log, rs, tail)
      ensures Scan(Tail(log)).stop == RecordReadStatus.Truncated
    {
      TailOf(rs, tail);
      ScanEncoded(rs, tail);
      ScanFailing(tail);
    }
  }

  /**
   * Exactly when a database opens, for all files. The log must start with its header and a bucket
   * count be given; and either the log is whole records, or the index header is intact and the log is
   * whole records and a cut one, or the index header is intact and claims to be clean and caught up.
   */
  lemma OpensExactly(d: DiskState, n: nat)
    ensures OpenPlan(d, n).Opens? <==>
              && LogLoads(d.log) && n > 0
              && (|| (exists rs :: WholeRecords(d.log, rs))
                  || (HeaderIntact(d) && exists rs, tail :: RecordsAndTail(d.log, rs, tail))
                  || (HeaderIntact(d) && MarkedCaughtUp(d)))
  {
    hide Scan, Loads, LogLoads, WholeRecords, RecordsAndTail, MetadataClean, MarkedCaughtUp, RebuildPlan,
      BucketCount;
    if LogLoads(d.log) {
      ScanDecides(d.log);
    }
    if HeaderIntact(d) {
      MetadataBytes(d);
    }
  }

  /**
   * A torn tail and the loss of the index together: the log could replace a missing or invalid index,
   * but not when its last record was cut short. It opens if and only if the index header is intact.
   */
  lemma TornTailNeedsIndex(d: DiskState, rs: seq<Record>, r: Record, k: nat, n: nat)
    requires AllSerializable(rs) && Serializable(r) && 0 < k < |Encode(r)| && n > 0
    requires d.log == LogOf(rs) + Encode(r)[..k]
    ensures OpenPlan(d, n).Opens? <==> HeaderIntact(d)
  {
    hide Scan, Loads, LogOf, Encode, EncodeAll, AllSerializable, Serializable, RebuildPlan, BucketCount,
      LogLoads, DbHeader;
    TailOf(rs, Encode(r)[..k]);
    ScanTorn(rs, r, k);
  }

  /** The smallest such case: one byte of a record after the header, and no index. */
  lemma TornTailRefused(n: nat)
    requires n > 0
    ensures LogLoads(DbHeader() + [1])
    ensures OpenPlan(DiskState(DbHeader() + [1], None, None), n) == Refused
    ensures OpenPlan(DiskState(DbHeader(), None, None), n).Opens?
  {
    hide DbHeader, Crc32c.Crc, LogLoads, RebuildPlan;
    TailOf([], [1]);
    assert LogOf([]) == DbHeader() + [] == DbHeader();
    assert EncodeAll([]) + [1] == [1];
    assert Parse([1]).status == RecordReadStatus.Truncated;
    ScanFailing([1]);
    TailOf([], []);
    assert LogOf([]) + [] == DbHeader();
    assert EncodeAll([]) + [] == [];
    ScanFailing([]);
  }
}
