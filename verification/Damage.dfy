/** What damage to the log means to the database: it is noticed where it is, and nowhere else. */
module Damage {
  import opened Codec
  import opened Records
  import opened Log
  import opened IndexImage
  import opened IndexMetadata
  import opened DiskModel
  import opened Protocol
  import opened CrashSteps
  import opened CrashPlans
  import opened CrashRuns
  import opened Recovery

  /** The record `r` damaged into `t`: within the four bytes at `at`, and not in its length fields. */
  predicate DamagedRecord(r: Record, t: Bytes, at: nat)
  {
    && SameLengthFields(r, t) && t != Encode(r)
    && at + 4 <= |t| && t[..at] == Encode(r)[..at] && t[at + 4..] == Encode(r)[at + 4..]
  }

  /** The log of the records `rs` with the bytes `t` in the place of record `i`. */
  function DamagedLog(rs: seq<Record>, i: nat, t: Bytes): Bytes
    requires i < |rs|
  {
    DbHeader() + (EncodeAll(rs[..i]) + (t + EncodeAll(rs[i + 1..])))
  }

  /** Where record `j` starts, as seen from the damaged record `i`. */
  lemma StartsAround(rs: seq<Record>, i: nat, j: nat)
    requires i < |rs| && j < |rs|
    ensures |EncodeAll(rs)| == |EncodeAll(rs[..i])| + |Encode(rs[i])| + |EncodeAll(rs[i + 1..])|
    ensures j < i ==> StartOf(rs[..i], j) == StartOf(rs, j)
    ensures j > i ==> StartOf(rs, j) == StartOf(rs, i) + |Encode(rs[i])| + StartOf(rs[i + 1..], j - i - 1)
  {
    hide Encode, EncodeAll;
    assert rs == rs[..i] + [rs[i]] + rs[i + 1..];
    EncodeAllConcat(rs[..i] + [rs[i]], rs[i + 1..]);
    EncodeAllSnoc(rs[..i], rs[i]);
    if j < i {
      assert rs[..i][..j] == rs[..j];
    } else if j > i {
      assert rs[..j] == rs[..i] + [rs[i]] + rs[i + 1..][..j - i - 1];
      EncodeAllConcat(rs[..i] + [rs[i]], rs[i + 1..][..j - i - 1]);
    }
  }

  lemma DropPast<T>(a: seq<T>, b: seq<T>, n: nat)
    requires n <= |b|
    ensures (a + b)[|a| + n..] == b[n..]
  {
  }

  /** Every record but the damaged one reads back; the damaged one does not read as any record. */
  lemma ReadAroundDamage(rs: seq<Record>, i: nat, t: Bytes, at: nat, j: nat)
    requires AllSerializable(rs) && i < |rs| && j < |rs| && DamagedRecord(rs[i], t, at)
    ensures |DamagedLog(rs, i, t)| == |LogOf(rs)|
    ensures DB_HEADER_SIZE + StartOf(rs, j) <= |LogOf(rs)|
    ensures var p := Parse(DamagedLog(rs, i, t)[DB_HEADER_SIZE + StartOf(rs, j)..]);
            if j == i then p.status in {ChecksumMismatch, InvalidType}
            else p == ReadResult(RecordReadStatus.Success, rs[j], |Encode(rs[j])|)
  {
    hide Parse, Encode, EncodeAll, DbHeader, Serializable;
    var before, after := EncodeAll(rs[..i]), EncodeAll(rs[i + 1..]);
    StartsAround(rs, i, j);
    assert forall q | q in rs[..i] || q in rs[i + 1..] :: q in rs;
    if j < i {
      ReadAtStart(rs[..i], j, t + after);
      DropPast(DbHeader(), before + (t + after), StartOf(rs, j));
    } else if j == i {
      DamageDetected(rs[i], t, at, after);
      DropPast(DbHeader(), before + (t + after), |before|);
      assert (before + (t + after))[|before|..] == t + after;
    } else {
      var k := StartOf(rs[i + 1..], j - i - 1);
      ReadAtStart(rs[i + 1..], j - i - 1, []);
      assert after + [] == after;
      DropPast(DbHeader(), before + (t + after), |before| + (|t| + k));
      DropPast(before, t + after, |t| + k);
      DropPast(t, after, k);
    }
  }

  /**
   * Reading a database whose log was damaged in one record: the one key whose value is in that record can
   * no longer be read, and every other key reads as before. A wrong value is never returned.
   */
  lemma DamagedReads(d: DiskState, rs: seq<Record>, i: nat, t: Bytes, at: nat, key: Key)
    requires CaughtUp(d, rs) && i < |rs| && DamagedRecord(rs[i], t, at)
    ensures var d' := d.(log := DamagedLog(rs, i, t));
            GetResult(d', key) == if LastNaming(rs, i, key, rs[i].value) then Threw else GetResult(d, key)
  {
    hide Serving, LogOf, Replay, ReplayOffsets, Parse, Live, Encode, IndexImage.Contents, StartOf, LogContents,
      AllSerializable, Checkpoint, HeaderIntact, BucketCount, WellFormed, DamagedLog, DamagedRecord, FilesFit, Scan;
    ServingParts(d, rs);
    OffsetsLive(rs, DB_HEADER_SIZE);
    if key in LogContents(d.log) {
      var j := LiveRecord(rs, key);
      ReadLogAt(rs, j);
      ReadAroundDamage(rs, i, t, at, j);
    } else if LastNaming(rs, i, key, rs[i].value) {
      LastNamingLive(rs, i, key);
    }
  }

  /** Scanning a damaged log stops at the damage, and never takes it for a record that was cut short. */
  lemma DamagedScan(rs: seq<Record>, i: nat, t: Bytes, at: nat)
    requires AllSerializable(rs) && i < |rs| && DamagedRecord(rs[i], t, at)
    ensures var s := Scan(Tail(DamagedLog(rs, i, t)));
            && LogLoads(DamagedLog(rs, i, t)) && s.records == rs[..i] && s.size == StartOf(rs, i)
            && s.stop in {ChecksumMismatch, InvalidType}
  {
    hide Parse, Encode, EncodeAll, DbHeader, Serializable, Scan;
    var after := t + EncodeAll(rs[i + 1..]);
    DamageDetected(rs[i], t, at, EncodeAll(rs[i + 1..]));
    assert forall q | q in rs[..i] :: q in rs;
    ScanEncoded(rs[..i], after);
    ScanFailing(after);
    assert rs[..i] + [] == rs[..i];
    Associative(DbHeader(), EncodeAll(rs[..i]), after);
    TailOf(rs[..i], after);
  }

  lemma CorruptedOpens(d: DiskState, n: nat)
    requires LogLoads(d.log) && Scan(Tail(d.log)).stop in {ChecksumMismatch, InvalidType}
    ensures |d.log| >= DB_HEADER_SIZE && RecoverPlan(d.log, n) == None
    ensures OpenPlan(d, n).Opens? <==> n > 0 && HeaderIntact(d) && MarkedCaughtUp(d)
    ensures OpenPlan(d, n).Opens? ==> OpenPlan(d, n).plan == [MARK_DIRTY]
  {
    hide Scan, MetadataClean, MarkedCaughtUp, HeaderIntact, BucketCount, RebuildPlan;
    if HeaderIntact(d) {
      MetadataBytes(d);
    }
  }

  /**
   * So recovery and rebuilding refuse a damaged log and cut nothing off it. It opens only beside an index
   * that is marked clean and caught up, which opening trusts without reading the log.
   */
  lemma DamageNeverTruncated(d: DiskState, rs: seq<Record>, i: nat, t: Bytes, at: nat, n: nat)
    requires AllSerializable(rs) && d.log == LogOf(rs) && i < |rs| && DamagedRecord(rs[i], t, at)
    ensures var d' := d.(log := DamagedLog(rs, i, t));
            && |d'.log| == |d.log| >= DB_HEADER_SIZE && RecoverPlan(d'.log, n) == None
            && (OpenPlan(d', n).Opens? <==> n > 0 && HeaderIntact(d) && MarkedCaughtUp(d))
            && (OpenPlan(d', n).Opens? ==> OpenPlan(d', n).plan == [MARK_DIRTY])
  {
    hide DamagedLog, DamagedRecord, Scan, LogOf, AllSerializable, Loads, Clean, Checkpoint, LogLoads, OpenPlan,
      RecoverPlan;
    ReadAroundDamage(rs, i, t, at, i);
    DamagedScan(rs, i, t, at);
    CorruptedOpens(d.(log := DamagedLog(rs, i, t)), n);
  }
}
