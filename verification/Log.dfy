/**
 * The data log of src/database.cpp: a 24-byte header and then records. What a log holds is the
 * longest run of valid records after its header, and what that run means is its replay.
 */
module Log {
  import opened Codec
  import opened Records

  type Value = Bytes
  type Store = map<Key, Value>

  // ---- lists of records ----

  predicate AllSerializable(rs: seq<Record>)
  {
    forall r | r in rs :: Serializable(r)
  }

  function EncodeAll(rs: seq<Record>): Bytes
  {
    if rs == [] then [] else Encode(rs[0]) + EncodeAll(rs[1..])
  }

  lemma {:induction false} EncodeAllConcat(a: seq<Record>, b: seq<Record>)
    ensures EncodeAll(a + b) == EncodeAll(a) + EncodeAll(b)
  {
    hide Encode;
    if a == [] {
      assert a + b == b;
    } else {
      var first, rest := Encode(a[0]), EncodeAll(a[1..]);
      EncodeAllConcat(a[1..], b);
      assert (a + b)[0] == a[0] && (a + b)[1..] == a[1..] + b;
      assert EncodeAll(a + b) == first + (rest + EncodeAll(b));
      Associative(first, rest, EncodeAll(b));
    }
  }

  lemma EncodeAllSnoc(rs: seq<Record>, r: Record)
    ensures EncodeAll(rs + [r]) == EncodeAll(rs) + Encode(r)
  {
    hide Encode;
    EncodeAllConcat(rs, [r]);
    assert EncodeAll([r]) == Encode(r) + EncodeAll([]);
  }

  /** Where record `i` of `rs` starts, counting from the first record. */
  function StartOf(rs: seq<Record>, i: nat): nat
    requires i <= |rs|
  {
    |EncodeAll(rs[..i])|
  }

  // ---- scanning ----

  /** The records read from `s`, the bytes they take, and the status of the read that stopped. */
  datatype Scanned = Scanned(records: seq<Record>, size: nat, stop: RecordReadStatus)

  function Scan(s: Bytes): (r: Scanned)
    ensures r.size <= |s| && !r.stop.Success?
    decreases |s|
  {
    var p := Parse(s);
    if p.status.Success? then
      var rest := Scan(s[p.size..]);
      Scanned([p.record] + rest.records, p.size + rest.size, rest.stop)
    else
      Scanned([], 0, p.status)
  }

  lemma ScanOne(r: Record, tail: Bytes)
    requires Serializable(r)
    ensures var t := Scan(tail);
            Scan(Encode(r) + tail) == Scanned([r] + t.records, |Encode(r)| + t.size, t.stop)
  {
    hide Parse, Encode, Serializable;
    ParseEncoded(r, tail);
    assert (Encode(r) + tail)[|Encode(r)|..] == tail;
  }

  lemma ScanFailing(s: Bytes)
    requires !Parse(s).status.Success?
    ensures Scan(s) == Scanned([], 0, Parse(s).status)
  {
  }

  /** Scanning past records that are there in full. */
  lemma {:induction false} ScanEncoded(rs: seq<Record>, rest: Bytes)
    requires AllSerializable(rs)
    ensures var t := Scan(rest);
            Scan(EncodeAll(rs) + rest) == Scanned(rs + t.records, |EncodeAll(rs)| + t.size, t.stop)
  {
    hide Scan, Encode, Serializable;
    if rs == [] {
      assert EncodeAll(rs) + rest == rest;
      assert rs + Scan(rest).records == Scan(rest).records;
    } else {
      ScanEncoded(rs[1..], rest);
      ScanOne(rs[0], EncodeAll(rs[1..]) + rest);
      Associative(Encode(rs[0]), EncodeAll(rs[1..]), rest);
      Associative([rs[0]], rs[1..], Scan(rest).records);
      assert [rs[0]] + rs[1..] == rs;
    }
  }

  /** What a scan returns is really there, and the read after it fails as reported. */
  lemma {:induction false} ScanSound(s: Bytes)
    ensures var t := Scan(s);
            && AllSerializable(t.records)
            && t.size <= |s| && EncodeAll(t.records) == s[..t.size]
            && Parse(s[t.size..]).status == t.stop
    decreases |s|
  {
    hide Parse, Encode, Serializable;
    var p := Parse(s);
    if p.status.Success? {
      ParseSound(s);
      ScanSound(s[p.size..]);
      var rest := Scan(s[p.size..]);
      var t := Scan(s);
      assert s[..t.size] == s[..p.size] + s[p.size..][..rest.size];
      assert s[p.size..][rest.size..] == s[t.size..];
      assert t.records[0] == p.record && t.records[1..] == rest.records;
    } else {
      assert s[0..] == s;
    }
  }

  /**
   * Maximality: a list of valid records at the start of `s` is an initial part of what the scan
   * finds, so the scan stops at the end of the one longest such list.
   */
  lemma {:induction false} ScanMaximal(s: Bytes, rs: seq<Record>)
    requires AllSerializable(rs) && EncodeAll(rs) <= s
    ensures rs <= Scan(s).records
    ensures rs != Scan(s).records ==> |EncodeAll(rs)| < Scan(s).size
  {
    var rest := s[|EncodeAll(rs)|..];
    assert s == EncodeAll(rs) + rest;
    ScanEncoded(rs, rest);
    ScanSound(rest);
    if Scan(rest).records != [] {
      assert |EncodeAll(Scan(rest).records)| == Scan(rest).size;
    }
  }

  /** The log's encoding of a list of records is injective. */
  lemma EncodeAllInjective(a: seq<Record>, b: seq<Record>)
    requires AllSerializable(a) && AllSerializable(b) && EncodeAll(a) == EncodeAll(b)
    ensures a == b
  {
    hide Encode, Scan, Serializable;
    ScanClean(a);
    ScanClean(b);
  }

  /** A log cut inside a record scans to the records before it and stops there. */
  lemma ScanTorn(rs: seq<Record>, r: Record, k: nat)
    requires AllSerializable(rs) && Serializable(r) && k < |Encode(r)|
    ensures Scan(EncodeAll(rs) + Encode(r)[..k])
         == Scanned(rs, |EncodeAll(rs)|, if k == 0 then EndOfFile else RecordReadStatus.Truncated)
  {
    hide Parse, Encode, Serializable, EncodeAll;
    ParsePrefix(r, k);
    ScanEncoded(rs, Encode(r)[..k]);
    assert rs + [] == rs;
  }

  /** Success of a scan is exactly a clean end: the bytes are a list of encoded records. */
  lemma ScanCleanExact(s: Bytes)
    ensures Scan(s).stop == EndOfFile <==> exists rs :: AllSerializable(rs) && s == EncodeAll(rs)
  {
    hide Encode, Serializable;
    ScanSound(s);
    var t := Scan(s);
    if t.stop == EndOfFile {
      EndOfFileIsEmpty(s[t.size..]);
      assert s == EncodeAll(t.records);
    }
    if rs :| AllSerializable(rs) && s == EncodeAll(rs) {
      ScanClean(rs);
    }
  }

  lemma EndOfFileIsEmpty(s: Bytes)
    ensures Parse(s).status == EndOfFile <==> s == []
  {
    hide StringStatus, Crc32c.Crc;
  }

  lemma ScanClean(rs: seq<Record>)
    requires AllSerializable(rs)
    ensures Scan(EncodeAll(rs)) == Scanned(rs, |EncodeAll(rs)|, EndOfFile)
  {
    hide Encode, Serializable, EncodeAll;
    ScanEncoded(rs, []);
    assert EncodeAll(rs) + [] == EncodeAll(rs);
    assert rs + [] == rs;
  }

  // ---- replaying ----

  /** What one record does to the contents. */
  function Apply(m: Store, r: Record): Store
  {
    match r.kind
    case Put => m[r.key := r.value]
    case Delete => m - {r.key}
  }

  function Replay(rs: seq<Record>): Store
  {
    if rs == [] then map[] else Apply(Replay(rs[..|rs| - 1]), rs[|rs| - 1])
  }

  /** What the record at `start` does to the index contents. */
  function ApplyOffset(m: map<Key, nat>, r: Record, start: nat): map<Key, nat>
  {
    match r.kind
    case Put => m[r.key := start]
    case Delete => m - {r.key}
  }

  /** The index contents after the records `rs` of a log whose first record starts at `base`. */
  function ReplayOffsets(rs: seq<Record>, base: nat): map<Key, nat>
  {
    if rs == [] then map[]
    else
      var init := rs[..|rs| - 1];
      ApplyOffset(ReplayOffsets(init, base), rs[|rs| - 1], base + StartOf(rs, |rs| - 1))
  }

  lemma ReplaySnoc(rs: seq<Record>, r: Record, base: nat)
    ensures Replay(rs + [r]) == Apply(Replay(rs), r)
    ensures ReplayOffsets(rs + [r], base)
         == ApplyOffset(ReplayOffsets(rs, base), r, base + |EncodeAll(rs)|)
  {
    hide Encode, EncodeAll;
    var all := rs + [r];
    assert all[..|all| - 1] == rs && all[|all| - 1] == r;
  }

  /** Record `i` is the last one that names `key`, and puts `value` there. */
  predicate LastNaming(rs: seq<Record>, i: nat, key: Key, value: Value)
  {
    && i < |rs| && rs[i] == Record(Put, key, value)
    && forall j | i < j < |rs| :: rs[j].key != key
  }

  /** The offset indexed for `key` is the start of the last record naming it, a Put of its value. */
  ghost predicate Live(rs: seq<Record>, base: nat, key: Key)
  {
    && key in Replay(rs) && key in ReplayOffsets(rs, base)
    && exists i :: LastNaming(rs, i, key, Replay(rs)[key]) && ReplayOffsets(rs, base)[key] == base + StartOf(rs, i)
  }

  /** Exactly the keys of the contents are indexed, and every offset is live. */
  lemma {:induction false} OffsetsLive(rs: seq<Record>, base: nat)
    ensures ReplayOffsets(rs, base).Keys == Replay(rs).Keys
    ensures forall k | k in Replay(rs) :: Live(rs, base, k)
  {
    hide Encode, EncodeAll, Live;
    if rs != [] {
      var init, r := rs[..|rs| - 1], rs[|rs| - 1];
      assert init + [r] == rs;
      OffsetsLive(init, base);
      ReplaySnoc(init, r, base);
      forall k | k in Replay(rs)
        ensures Live(rs, base, k)
      {
        LiveAfter(init, r, base, k);
      }
    }
  }

  /** And conversely: the last Put of a key is its value. */
  lemma {:induction false} LastNamingLive(rs: seq<Record>, i: nat, key: Key)
    requires i < |rs| && LastNaming(rs, i, key, rs[i].value)
    ensures key in Replay(rs) && Replay(rs)[key] == rs[i].value
    decreases |rs|
  {
    var init, r := rs[..|rs| - 1], rs[|rs| - 1];
    if i < |rs| - 1 {
      assert forall j | i < j < |init| :: init[j].key != key;
      LastNamingLive(init, i, key);
    }
  }

  lemma LiveAfter(rs: seq<Record>, r: Record, base: nat, k: Key)
    requires k in Replay(rs + [r])
    requires k in Replay(rs) ==> Live(rs, base, k)
    ensures Live(rs + [r], base, k)
  {
    hide Encode, EncodeAll, Replay, ReplayOffsets;
    ReplaySnoc(rs, r, base);
    var all := rs + [r];
    if r.key == k {
      assert all[..|rs|] == rs;
      assert LastNaming(all, |rs|, k, Replay(all)[k]);
    } else {
      var i: nat :| LastNaming(rs, i, k, Replay(rs)[k]) && ReplayOffsets(rs, base)[k] == base + StartOf(rs, i);
      assert all[..i] == rs[..i];
      assert LastNaming(all, i, k, Replay(all)[k]);
    }
  }

  /** Reading a log at the start of record `i` yields that record. */
  lemma ReadAtStart(rs: seq<Record>, i: nat, rest: Bytes)
    requires AllSerializable(rs) && i < |rs|
    ensures StartOf(rs, i) + |Encode(rs[i])| <= |EncodeAll(rs)|
    ensures var s := EncodeAll(rs) + rest;
            Parse(s[StartOf(rs, i)..]) == ReadResult(RecordReadStatus.Success, rs[i], |Encode(rs[i])|)
  {
    hide Encode, Parse, Serializable;
    var before, record, after := EncodeAll(rs[..i]), Encode(rs[i]), EncodeAll(rs[i + 1..]);
    EncodeAllConcat(rs[..i], rs[i..]);
    assert rs[..i] + rs[i..] == rs;
    assert rs[i..][1..] == rs[i + 1..];
    assert EncodeAll(rs) == before + (record + after);
    Associative(before, record + after, rest);
    Associative(record, after, rest);
    assert (before + (record + (after + rest)))[|before|..] == record + (after + rest);
    ParseEncoded(rs[i], after + rest);
  }

  // ---- the log file ----

  const DB_MAGIC: Bytes := [0x5A, 0x49, 0x44, 0x41, 0x4E, 0x45, 0x44, 0x42,
                            0x44, 0x41, 0x54, 0x41, 0x42, 0x41, 0x53, 0x45]
  const DB_VERSION: nat := 1

  /** The size of the header written by `Database::setup`. */
  const DB_HEADER_SIZE: nat := 24

  function DbHeader(): (s: Bytes)
    ensures |s| == DB_HEADER_SIZE
  {
    StringBytes(DB_MAGIC) + U32Bytes(DB_VERSION)
  }

  /** A log that `Database::load` accepts. */
  predicate LogLoads(log: Bytes)
  {
    DbHeader() <= log
  }

  lemma HeaderLength(log: Bytes)
    requires LogLoads(log)
    ensures |log| >= DB_HEADER_SIZE
  {
    hide DbHeader;
  }

  /** The bytes of a log from the offset `p` on; past the end there are none. */
  function From(log: Bytes, p: nat): Bytes
  {
    if p <= |log| then log[p..] else []
  }

  /** The bytes after the header. */
  function Tail(log: Bytes): Bytes
  {
    From(log, DB_HEADER_SIZE)
  }

  /** What a log holds: the replay of its longest run of valid records. */
  function LogContents(log: Bytes): Store
  {
    Replay(Scan(Tail(log)).records)
  }

  function LogOf(rs: seq<Record>): Bytes
  {
    DbHeader() + EncodeAll(rs)
  }

  /** From the start of any record, a log of whole records scans to its end. */
  lemma ScanFromRecord(log: Bytes, rs: seq<Record>, i: nat)
    requires AllSerializable(rs) && log == LogOf(rs) && i <= |rs|
    ensures DB_HEADER_SIZE + StartOf(rs, i) <= |log|
    ensures Scan(From(log, DB_HEADER_SIZE + StartOf(rs, i))) == Scanned(rs[i..], |EncodeAll(rs[i..])|, EndOfFile)
  {
    hide Scan, EncodeAll, DbHeader, Serializable;
    EncodeAllConcat(rs[..i], rs[i..]);
    assert rs[..i] + rs[i..] == rs;
    assert log[DB_HEADER_SIZE + StartOf(rs, i)..] == EncodeAll(rs[i..]);
    ScanClean(rs[i..]);
  }

  lemma TailOf(rs: seq<Record>, rest: Bytes)
    ensures LogLoads(LogOf(rs) + rest) && Tail(LogOf(rs) + rest) == EncodeAll(rs) + rest
  {
    hide DbHeader, EncodeAll;
    assert (LogOf(rs) + rest)[..DB_HEADER_SIZE] == DbHeader();
  }
}
