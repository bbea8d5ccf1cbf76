/** The `Index` class of src/index.cpp: an index file together with its cached header fields. */
module HashIndex {
  import opened Codec
  import opened Records
  import opened IndexImage
  import opened IndexUpdates
  import opened IndexPlans
  import opened IndexSetup
  import opened IndexCounts
  import opened IndexMetadata
  import opened DiskModel

  /** Where a key's entry and the pointers to it are; zero stands for "none". */
  datatype EntryLocation = EntryLocation(entryOffset: nat, prevEntryOffset: nat, bucketOffset: nat, chainOffset: nat)

  datatype IndexStats = IndexStats(
    numBuckets: nat, emptyBuckets: nat, nonEmptyBuckets: nat, avgChainLength: real, maxChainLength: nat)

  /** The fields of an acceptable header, one by one. */
  lemma LoadsExact(img: Bytes)
    ensures Loads(img) <==>
            && |img| >= INDEX_HEADER_SIZE
            && De(img[0..4]) == |INDEX_MAGIC| && img[4..20] == INDEX_MAGIC
            && De(img[20..24]) == INDEX_VERSION
            && 0 < De(img[24..32]) && img[40] <= 1
            && De(img[24..32]) <= (|img| - INDEX_HEADER_SIZE) / 8
  {
    hide Le, De, U32Bytes, U64Bytes, HeaderPrefix;
    if |img| >= INDEX_HEADER_SIZE {
      var n := De(img[24..32]);
      var head := img[..CHECKPOINT_AT];
      assert head == img[0..4] + img[4..20] + img[20..24] + img[24..32];
      U32Decoded(img[0..4]);
      U32Decoded(img[20..24]);
      U64Decoded(img[24..32]);
      U32RoundTrip(|INDEX_MAGIC|);
      U32RoundTrip(INDEX_VERSION);
      HeaderPrefixFields(n);
      SliceOfSlice(img, 0, CHECKPOINT_AT, 0, 4);
      SliceOfSlice(img, 0, CHECKPOINT_AT, 4, 20);
      SliceOfSlice(img, 0, CHECKPOINT_AT, 20, 24);
    }
  }

  lemma HeaderPrefixFields(n: nat)
    ensures var s := HeaderPrefix(n);
            && s[0..4] == U32Bytes(|INDEX_MAGIC|) && s[4..20] == INDEX_MAGIC
            && s[20..24] == U32Bytes(INDEX_VERSION) && s[24..32] == U64Bytes(n)
            && s == s[0..4] + s[4..20] + s[20..24] + s[24..32]
  {
    hide Le, U32Bytes, U64Bytes;
  }

  /** The position of an entry, zero past the end of its chain, tells whether there is one. */
  lemma PointerNonZero(img: Bytes, key: Key, i: nat)
    requires WellFormed(img) && BucketCount(img) > 0
    ensures (Pointer(ChainFor(img, key), i) != 0) <==> i < |ChainFor(img, key)|
  {
    if i < |ChainFor(img, key)| {
      EntryThere(img, key, i);
    }
  }

  lemma HeadThere(img: Bytes, b: nat)
    requires WellFormed(img) && b < BucketCount(img)
    ensures HeadAt(b) + 8 <= |img| && |ChainsOf(img)| == BucketCount(img)
    ensures U64At(img, HeadAt(b)) == Pointer(ChainsOf(img)[b], 0)
  {
    hide Bucket, ChainsOf, HeaderPrefix, Link, Ordered, Apart;
    var chains := ChainsOf(img);
    RepresentsMeans(img, chains) by { UnfoldWellFormed(img); }
    assert HoldsHead(img, b, Pointer(chains[b], 0));
    if chains[b] != [] {
      assert Placed(|chains|, |img|, b, chains[b][0]);
    }
    HeadRead(img, b, Pointer(chains[b], 0));
  }

  /** `seekg` to `p` and `read_uint64` there. */
  method ReadU64At(file: InputStream, p: nat) returns (n: nat)
    requires p + 8 <= |file.bytes|
    modifies file
    ensures n == U64At(file.bytes, p) && file.Valid() && file.pos == p + 8
  {
    file.Seek(p);
    hide De;
    var status;
    SliceOfTail(file.bytes, p, 8);
    status, n := file.ReadUint64();
    assert status == ReadStatus.Success;
  }

  /** `Index::read_entry`: no entry at zero, and none of its reads can fail where an entry is. */
  method ReadEntry(file: InputStream, at: nat, ghost e: Entry, ghost next: nat)
    returns (dbOffset: nat, nextOffset: nat, key: Key)
    requires at != 0 ==> at == e.at && HoldsEntry(file.bytes, e, next)
    requires at != 0 ==> e.offset <= MAX_U64 && next <= MAX_U64 && |e.key| <= MAX_KEY_SIZE
    modifies file
    ensures at == 0 ==> dbOffset == nextOffset == 0 && key == []
    ensures at != 0 ==> dbOffset == e.offset && nextOffset == next && key == e.key
  {
    hide Le, De, EntryBytes, U64Bytes, U32Bytes;
    if at == 0 {
      return 0, 0, [];
    }
    EntryRead(file.bytes, e, next);
    dbOffset := ReadU64At(file, at);
    nextOffset := ReadU64At(file, at + 8);
    ghost var img := file.bytes;
    ghost var rest := file.Rest();
    assert rest == img[at + 16..];
    SliceOfTail(img, at + 16, 4);
    SliceOfTail(img, at + 20, |e.key|);
    assert rest[4..] == img[at + 20..];
    var status;
    status, key := file.ReadString([], MAX_KEY_SIZE);
    assert status == ReadStatus.Success;
  }

  lemma NothingWritten(disk: Disk, slot: Slot, plan: seq<Patch>)
    ensures disk.Wrote(disk.State(), disk.journal, Lift(slot, plan[..0]))
    ensures disk.Wrote(disk.State(), disk.journal, [])
  {
    assert Lift(slot, plan[..0]) == [];
    assert disk.journal + [] == disk.journal;
  }

  /** A finished plan leaves the planned image and nothing else. */
  lemma WroteIndex(disk: Disk, d: DiskState, j: seq<DiskWrite>, slot: Slot, plan: seq<Patch>)
    requires Image(d, slot).Some? && disk.Wrote(d, j, Lift(slot, plan))
    ensures disk.State() == WithImage(d, slot, Some(ApplyPatches(Image(d, slot).value, plan)))
  {
    hide ApplyPatches, Do;
    DoLifted(d, slot, plan);
  }

  lemma {:induction false} TablePlanLength(n: nat)
    ensures |TablePlan(n)| == n && |SetupPlan(n)| == 6 + n
  {
    hide U64Bytes;
    if n > 0 {
      TablePlanLength(n - 1);
    }
  }

  lemma {:induction false} TablePlanEntry(n: nat, i: nat)
    requires i < n
    ensures |TablePlan(n)| == n && TablePlan(n)[i] == Patch(HeadAt(i), U64Bytes(0))
  {
    hide U64Bytes;
    TablePlanLength(n - 1);
    if i < n - 1 {
      TablePlanEntry(n - 1, i);
    }
  }

  lemma TablePlanAt(n: nat, i: nat)
    requires i < n
    ensures |SetupPlan(n)| == 6 + n && SetupPlan(n)[6 + i] == Patch(HeadAt(i), U64Bytes(0))
  {
    hide U64Bytes, U32Bytes, TablePlan;
    TablePlanEntry(n, i);
  }

  lemma RepresentsHeaded(img: Bytes)
    requires WellFormed(img)
    ensures Headed(img, BucketCount(img)) && BucketCount(img) > 0
  {
    hide Headed, WellFormed;
    WellFormedParts(img, []);
  }

  /** An update that keeps the header keeps the cached fields right. */
  lemma StillLoaded(img: Bytes, img': Bytes)
    requires WellFormed(img) && WellFormed(img') && SameHeader(img, img')
    ensures Headed(img', BucketCount(img)) && BucketCount(img') == BucketCount(img)
    ensures Checkpoint(img') == Checkpoint(img) && (Clean(img') <==> Clean(img))
  {
    hide WellFormed, SameHeader, Headed, Checkpoint, Clean;
    SameHeaderMetadata(img, img');
    RepresentsHeaded(img');
  }

  lemma BucketIs(key: Key, n: nat, hash: nat)
    requires n > 0 && hash == Hash(key)
    ensures hash % n == Bucket(key, n)
  {
  }

  lemma ChainHead(img: Bytes, key: Key)
    requires WellFormed(img) && BucketCount(img) > 0
    ensures var at := HeadAt(Bucket(key, BucketCount(img)));
            at + 8 <= |img| && U64At(img, at) == Pointer(ChainFor(img, key), 0)
  {
    hide Bucket, WellFormed, ChainsOf, ChainFor;
    WellFormedParts(img, key);
    HeadThere(img, Bucket(key, BucketCount(img)));
  }

  /** The places the plans of `set` and `erase` write to are inside the file. */
  lemma PlansInside(img: Bytes, key: Key)
    requires WellFormed(img) && BucketCount(img) > 0
    ensures HeadAt(Bucket(key, BucketCount(img))) + 8 <= |img|
    ensures var c := ChainFor(img, key);
            forall i | 0 <= i < |c| :: 0 < c[i].at && c[i].at + 16 <= |img|
  {
    hide Bucket, WellFormed, ChainFor, HoldsEntry;
    ChainHead(img, key);
    forall i | 0 <= i < |ChainFor(img, key)|
      ensures 0 < ChainFor(img, key)[i].at && ChainFor(img, key)[i].at + 16 <= |img|
    {
      EntryThere(img, key, i);
    }
  }

  /** Overwriting an entry's offset leaves its successor readable. */
  lemma NextKept(img: Bytes, e: Entry, next: nat)
    requires HoldsEntry(img, e, next) && next <= MAX_U64 && |e.key| <= MAX_KEY_SIZE
    ensures e.at <= |img|
    ensures var img' := ApplyPatch(img, Patch(e.at, U64Bytes(0)));
            e.at + 16 <= |img'| && U64At(img', e.at + 8) == next
  {
    hide U64Bytes, EntryBytes, U64At, Write;
    RebindEntry(img, e, next, 0);
    EntryRead(Write(img, e.at, U64Bytes(0)), e.(offset := 0), next);
  }

  /** The size of the map of a well-formed image, bucket by bucket. */
  lemma Counted(img: Bytes)
    requires WellFormed(img)
    ensures |ChainsOf(img)| == BucketCount(img) && TotalLength(ChainsOf(img), BucketCount(img)) == |Contents(img)|
  {
    hide ChainsOf, Headed, HoldsHead, Linked, Geometry, Bindings;
    RepresentsMeans(img, ChainsOf(img));
    TotalIsSize(BucketCount(img), |img|, ChainsOf(img));
  }

  lemma LinkThere(img: Bytes, b: nat, i: nat)
    requires WellFormed(img) && b < BucketCount(img) == |ChainsOf(img)| && i <= |ChainsOf(img)[b]|
    ensures var c := ChainsOf(img)[b];
            && ((Pointer(c, i) != 0) <==> i < |c|)
            && (i < |c| ==> && HoldsEntry(img, c[i], Pointer(c, i + 1)) && c[i].offset <= MAX_U64
                            && |c[i].key| <= MAX_KEY_SIZE && Pointer(c, i + 1) <= MAX_U64)
  {
    hide Bucket, ChainsOf, HoldsEntry, HoldsHead, Apart, HeaderPrefix, Ordered;
    UnfoldWellFormed(img);
    var chains := ChainsOf(img);
    assert Linked(img, chains[b]);
    if i < |chains[b]| {
      assert Link(img, chains[b], i);
      assert Placed(|chains|, |img|, b, chains[b][i]);
    }
    if i + 1 < |chains[b]| {
      assert Placed(|chains|, |img|, b, chains[b][i + 1]);
    }
  }

  lemma AverageExact(total: nat, count: nat)
    requires count > 0
    ensures total as real / count as real * count as real == total as real
  {
  }

  lemma CountNone(chains: Chains)
    ensures TotalLength(chains, 0) == 0 && EmptyCount(chains, 0) == 0
  {
  }

  /** Counting one more bucket. */
  lemma CountOne(chains: Chains, i: nat)
    requires i < |chains|
    ensures TotalLength(chains, i + 1) == TotalLength(chains, i) + |chains[i]|
    ensures EmptyCount(chains, i + 1) == EmptyCount(chains, i) + (if chains[i] == [] then 1 else 0)
  {
  }

  lemma ChainAtZero(img: Bytes, b: nat)
    requires WellFormed(img) && b < BucketCount(img) == |ChainsOf(img)|
    ensures Pointer(ChainsOf(img)[b], 0) == 0 <==> ChainsOf(img)[b] == []
  {
    hide ChainsOf, HoldsEntry, WellFormed;
    LinkThere(img, b, 0);
  }

  class Index {
    const disk: Disk
    const slot: Slot
    var numBuckets: nat
    var indexedUpTo: nat
    var clean: bool

    /** The cached fields are those of the file, which has room for its bucket table. */
    ghost predicate Loaded()
      reads this, disk
    {
      && disk.File(slot).Some?
      && Headed(Img(), numBuckets) && indexedUpTo == Checkpoint(Img()) && (clean <==> Clean(Img()))
    }

    ghost function Img(): Bytes
      reads this, disk
    {
      if disk.File(slot).Some? then disk.File(slot).value else []
    }

    /** Moreover the file is a well-formed index. */
    ghost predicate Valid()
      reads this, disk
    {
      Loaded() && WellFormed(Img()) && BucketCount(Img()) == numBuckets > 0
    }

    ghost function Map(): map<Key, nat>
      reads this, disk
    {
      Contents(Img())
    }

    constructor (disk: Disk, slot: Slot, numBuckets: nat, indexedUpTo: nat, clean: bool)
      ensures this.disk == disk && this.slot == slot
      ensures this.numBuckets == numBuckets && this.indexedUpTo == indexedUpTo && this.clean == clean
    {
      this.disk, this.slot := disk, slot;
      this.numBuckets, this.indexedUpTo, this.clean := numBuckets, indexedUpTo, clean;
    }

    /** The reads of `Index::load` and the checks on each field: bucket count, checkpoint and flag. */
    static method ReadHeader(img: Bytes) returns (r: Option<(nat, nat, bool)>)
      ensures r.Some? <==>
                && |img| >= INDEX_HEADER_SIZE && De(img[0..4]) == |INDEX_MAGIC| && img[4..20] == INDEX_MAGIC
                && De(img[20..24]) == INDEX_VERSION && 0 < De(img[24..32]) && img[40] <= 1
      ensures r.Some? ==> r.value == (De(img[24..32]), De(img[32..40]), img[40] == 1)
    {
      hide De;
      if |img| >= INDEX_HEADER_SIZE {
        SliceOfTail(img, 4, 16);
        SliceOfTail(img, 20, 4);
        SliceOfTail(img, 24, 8);
        SliceOfTail(img, 32, 8);
      }
      var file := new InputStream(img);
      assert img[0..] == img;
      var status, magic := file.ReadString([], |INDEX_MAGIC|);
      if status != ReadStatus.Success || magic != INDEX_MAGIC {
        return None;
      }
      var version;
      status, version := file.ReadUint32();
      if status != ReadStatus.Success || version != INDEX_VERSION {
        return None;
      }
      var buckets;
      status, buckets := file.ReadUint64();
      if status != ReadStatus.Success || buckets == 0 {
        return None;
      }
      var checkpoint;
      status, checkpoint := file.ReadUint64();
      if status != ReadStatus.Success {
        return None;
      }
      var flag;
      status, flag := file.ReadUint8();
      if status != ReadStatus.Success || (flag != 0 && flag != 1) {
        return None;
      }
      r := Some((buckets, checkpoint, flag == 1));
    }

    /**
     * `Index::load`: succeeds exactly when the header is one that was written and the declared table
     * fits the file. The division cannot underflow, since a header was read before it.
     */
    static method Load(disk: Disk, slot: Slot) returns (r: Option<Index>)
      requires disk.File(slot).Some?
      ensures r.Some? <==> Loads(disk.File(slot).value)
      ensures r.Some? ==> fresh(r.value) && r.value.disk == disk && r.value.slot == slot && r.value.Loaded()
      ensures r.Some? && WellFormed(disk.File(slot).value) ==> r.value.Valid()
    {
      hide De, WellFormed, Headed;
      var img := disk.File(slot).value;
      LoadsExact(img);
      var header := ReadHeader(img);
      if header == None {
        return None;
      }
      var (buckets, checkpoint, flag) := header.value;
      if buckets > (|img| - INDEX_HEADER_SIZE) / 8 {
        return None;
      }
      var index := new Index(disk, slot, buckets, checkpoint, flag);
      HeaderRead(img, buckets);
      HeadedEnd(img, buckets);
      r := Some(index);
    }

    /** One `seekp` and write, flushed: write number `k` of `plan`, begun in the state `d`. */
    method WriteAt(at: nat, data: Bytes, ghost d: DiskState, ghost j: seq<DiskWrite>, ghost plan: seq<Patch>,
                   ghost k: nat)
      requires disk.File(slot).Some? && at <= |Img()|
      requires k < |plan| && plan[k] == Patch(at, data) && disk.Wrote(d, j, Lift(slot, plan[..k]))
      modifies disk
      ensures disk.File(slot).Some? && disk.Wrote(d, j, Lift(slot, plan[..k + 1]))
      ensures Img() == ApplyPatch(old(Img()), Patch(at, data))
      ensures |Img()| >= old(|Img()|) && |Img()| >= at + |data|
    {
      hide DoAll, Write;
      ghost var d1, j1 := disk.State(), disk.journal;
      disk.WriteIndexFile(slot, at, data);
      ghost var w := WriteIndex(slot, plan[k]);
      DoAllOne(d1, w);
      WroteMore(disk, d, j, Lift(slot, plan[..k]), d1, j1, [w]);
      LiftConcat(slot, plan[..k], [plan[k]]);
      assert Lift(slot, [plan[k]]) == [w];
      assert plan[..k + 1] == plan[..k] + [plan[k]];
    }

    /** The header writes of `Index::setup`. */
    method WriteHeader(buckets: nat, ghost d: DiskState, ghost j: seq<DiskWrite>, ghost plan: seq<Patch>)
      requires disk.File(slot) == Some([]) && plan == SetupPlan(buckets) && |plan| >= 6
      requires disk.Wrote(d, j, Lift(slot, plan[..0]))
      modifies disk
      ensures disk.File(slot).Some? && |Img()| >= INDEX_HEADER_SIZE
      ensures disk.Wrote(d, j, Lift(slot, plan[..6]))
    {
      hide U32Bytes, U64Bytes, ApplyPatch, TablePlan, Disk.Wrote;
      WriteAt(0, U32Bytes(|INDEX_MAGIC|), d, j, plan, 0);
      WriteAt(4, INDEX_MAGIC, d, j, plan, 1);
      WriteAt(20, U32Bytes(INDEX_VERSION), d, j, plan, 2);
      WriteAt(24, U64Bytes(buckets), d, j, plan, 3);
      WriteAt(32, U64Bytes(0), d, j, plan, 4);
      WriteAt(40, [0], d, j, plan, 5);
    }

    /** `Index::setup` into a file that was just created, the bucket table head by head. */
    static method Setup(disk: Disk, slot: Slot, buckets: nat) returns (index: Index)
      requires disk.File(slot) == Some([]) && 0 < buckets && TableEnd(buckets) <= MAX_U64
      modifies disk
      ensures fresh(index) && index.disk == disk && index.slot == slot && index.Valid()
      ensures index.Img() == EmptyImage(buckets) && index.numBuckets == buckets
      ensures index.Map() == map[] && index.indexedUpTo == 0 && !index.clean
      ensures disk.Wrote(old(disk.State()), old(disk.journal), Lift(slot, SetupPlan(buckets)))
    {
      hide U32Bytes, U64Bytes, Le, ApplyPatch, ApplyPatches, DoAll, Do, WellFormed, Contents, Checkpoint, Clean,
        BucketCount;
      hide Headed, EmptyImage, TablePlan, Disk.Wrote;
      index := new Index(disk, slot, buckets, 0, false);
      ghost var d, j, plan := disk.State(), disk.journal, SetupPlan(buckets);
      NothingWritten(disk, slot, plan);
      TablePlanLength(buckets);
      index.WriteHeader(buckets, d, j, plan);
      for i := 0 to buckets
        invariant index.disk == disk && index.slot == slot && fresh(index) && disk.File(slot).Some?
        invariant index.numBuckets == buckets && index.indexedUpTo == 0 && !index.clean
        invariant |index.Img()| >= HeadAt(i) && disk.Wrote(d, j, Lift(slot, plan[..6 + i]))
      {
        TablePlanAt(buckets, i);
        index.WriteAt(HeadAt(i), U64Bytes(0), d, j, plan, 6 + i);
      }
      assert plan[..6 + buckets] == plan;
      WroteIndex(disk, d, j, slot, plan);
      SetupBuilds(buckets);
      EmptyImageMeans(buckets);
      UnfoldWellFormed(index.Img());
      RepresentsHeaded(index.Img());
    }

    /** `Index::find_entry_offset`: the walk down the key's chain. */
    method FindEntryOffset(file: InputStream, key: Key) returns (l: EntryLocation)
      requires Valid() && file.bytes == Img()
      modifies file
      ensures var c := ChainFor(Img(), key);
              var i := Position(c, key);
              && l.entryOffset == Pointer(c, i)
              && l.prevEntryOffset == (if 0 < i < |c| then c[i - 1].at else 0)
              && l.bucketOffset == HeadAt(Bucket(key, numBuckets))
              && l.chainOffset == Pointer(c, 0)
    {
      hide ChainFor, Position, HoldsEntry, WellFormed, Bucket, Headed, BucketCount, Checkpoint, Clean, Hash;
      ghost var img := Img();
      ghost var c := ChainFor(img, key);
      var hash := Fnv1a(key);
      var bucket := hash % numBuckets;
      BucketIs(key, numBuckets, hash);
      var bucketOffset := HeadAt(bucket);
      ChainHead(img, key);
      var head := ReadU64At(file, bucketOffset);
      var cur, prev, found := head, 0, 0;
      ghost var i := 0;
      PointerNonZero(img, key, 0);
      while cur != 0
        invariant i <= |c| && (forall k | 0 <= k < i :: c[k].key != key)
        invariant found == 0 && cur == Pointer(c, i) && (cur != 0 <==> i < |c|)
        invariant prev == if i == 0 then 0 else c[i - 1].at
        decreases |c| - i
      {
        EntryThere(img, key, i);
        var _, next, entryKey := ReadEntry(file, cur, c[i], Pointer(c, i + 1));
        if key == entryKey {
          found := cur;
          break;
        }
        prev := cur;
        cur := next;
        i := i + 1;
        PointerNonZero(img, key, i);
      }
      PositionIs(c, key, i);
      if found == 0 {
        prev := 0;
      }
      l := EntryLocation(found, prev, bucketOffset, head);
    }

    /** `Index::find` is lookup. */
    method Find(key: Key) returns (r: Option<nat>)
      requires Valid()
      ensures r == if key in Map() then Some(Map()[key]) else None
    {
      hide ChainFor, Position, HoldsEntry, WellFormed, Bucket, Headed, BucketCount, Checkpoint, Clean, Contents,
        EntryBytes;
      ghost var img := Img();
      ghost var c, i := ChainFor(img, key), Position(ChainFor(img, key), key);
      LookupExact(img, key);
      PointerNonZero(img, key, i);
      var file := new InputStream(disk.File(slot).value);
      var l := FindEntryOffset(file, key);
      if l.entryOffset == 0 {
        return None;
      }
      EntryThere(img, key, i);
      EntryRead(img, c[i], Pointer(c, i + 1));
      var offset := ReadU64At(file, l.entryOffset);
      r := Some(offset);
    }

    /** `Index::set` is map update; an oversized key is refused before anything is written. */
    method Set(key: Key, dbOffset: nat) returns (ok: bool)
      requires Valid() && dbOffset <= MAX_U64 && |Img()| + 20 + |key| <= MAX_U64
      modifies disk
      ensures ok == (|key| <= MAX_KEY_SIZE)
      ensures !ok ==> disk.Wrote(old(disk.State()), old(disk.journal), [])
      ensures ok ==> disk.Wrote(old(disk.State()), old(disk.journal), Lift(slot, SetPlan(old(Img()), key, dbOffset)))
      ensures Valid()
      ensures ok ==> Map() == old(Map())[key := dbOffset]
    {
      hide U32Bytes, U64Bytes, Le, StringBytes, ApplyPatch, ApplyPatches, DoAll, Do, ChainFor, Position, WellFormed;
      hide Bucket, Headed, BucketCount, Checkpoint, Clean, Contents, SameHeader, Hash, Disk.Wrote;
      ghost var d, j, img := disk.State(), disk.journal, Img();
      NothingWritten(disk, slot, SetPlan(img, key, dbOffset));
      if |key| > MAX_KEY_SIZE {
        return false;
      }
      ghost var c, plan := ChainFor(img, key), SetPlan(img, key, dbOffset);
      ghost var i := Position(c, key);
      PlansInside(img, key);
      PointerNonZero(img, key, i);
      var file := new InputStream(disk.File(slot).value);
      var l := FindEntryOffset(file, key);
      if l.entryOffset != 0 {
        WriteAt(l.entryOffset, U64Bytes(dbOffset), d, j, plan, 0);
      } else {
        var at := |disk.File(slot).value|;
        WriteAt(at, U64Bytes(dbOffset), d, j, plan, 0);
        WriteAt(at + 8, U64Bytes(l.chainOffset), d, j, plan, 1);
        WriteAt(at + 16, U32Bytes(|key|), d, j, plan, 2);
        WriteAt(at + 20, key, d, j, plan, 3);
        WriteAt(l.bucketOffset, U64Bytes(at), d, j, plan, 4);
      }
      ok := true;
      assert plan[..|plan|] == plan;
      WroteIndex(disk, d, j, slot, plan);
      SetEveryStep(img, key, dbOffset, |plan|);
      StillLoaded(img, Img());
    }

    /** `Index::erase` is removal, and tells whether there was anything to remove. */
    method Erase(key: Key) returns (found: bool)
      requires Valid()
      modifies disk
      ensures found == (key in old(Map()))
      ensures disk.Wrote(old(disk.State()), old(disk.journal), Lift(slot, ErasePlan(old(Img()), key)))
      ensures Valid() && Map() == old(Map()) - {key}
    {
      hide U32Bytes, U64Bytes, Le, StringBytes, ApplyPatch, ApplyPatches, DoAll, Do, ChainFor, Position, WellFormed;
      hide Bucket, Headed, BucketCount, Checkpoint, Clean, Contents, SameHeader, Hash, Disk.Wrote, HoldsEntry;
      ghost var d, j, img := disk.State(), disk.journal, Img();
      ghost var c, plan := ChainFor(img, key), ErasePlan(img, key);
      ghost var i := Position(c, key);
      NothingWritten(disk, slot, plan);
      PlansInside(img, key);
      PointerNonZero(img, key, i);
      var file := new InputStream(disk.File(slot).value);
      var l := FindEntryOffset(file, key);
      if l.entryOffset == 0 {
        found := false;
      } else {
        EntryThere(img, key, i);
        WriteAt(l.entryOffset, U64Bytes(0), d, j, plan, 0);
        NextKept(img, c[i], Pointer(c, i + 1));
        file := new InputStream(disk.File(slot).value);
        var next := ReadU64At(file, l.entryOffset + 8);
        if l.prevEntryOffset != 0 {
          WriteAt(l.prevEntryOffset + 8, U64Bytes(next), d, j, plan, 1);
        } else {
          WriteAt(l.bucketOffset, U64Bytes(next), d, j, plan, 1);
        }
        found := true;
      }
      assert plan[..|plan|] == plan;
      WroteIndex(disk, d, j, slot, plan);
      EraseEveryStep(img, key, |plan|);
      StillLoaded(img, Img());
    }

    /** `Index::set_indexed_up_to_offset` updates the file and the cached value. */
    method SetIndexedUpTo(offset: nat)
      requires Valid() && offset <= MAX_U64
      modifies this`indexedUpTo, disk
      ensures Valid() && Map() == old(Map()) && indexedUpTo == offset
      ensures disk.Wrote(old(disk.State()), old(disk.journal), Lift(slot, [CheckpointPatch(offset)]))
    {
      hide U64Bytes, ApplyPatch, DoAll, Do, WellFormed, Headed, Checkpoint, Clean, Contents, BucketCount;
      ghost var d, j, img, plan := disk.State(), disk.journal, Img(), [CheckpointPatch(offset)];
      NothingWritten(disk, slot, plan);
      HeadedEnd(img, numBuckets);
      WriteAt(CHECKPOINT_AT, U64Bytes(offset), d, j, plan, 0);
      assert plan[..1] == plan;
      CheckpointStep(img, offset);
      RepresentsHeaded(Img());
      indexedUpTo := offset;
    }

    /** `Index::set_index_clean` updates the file and the cached value. */
    method SetClean(value: bool)
      requires Loaded()
      modifies this`clean, disk
      ensures Loaded() && clean == value
      ensures old(Valid()) ==> Valid() && Map() == old(Map())
      ensures disk.Wrote(old(disk.State()), old(disk.journal), Lift(slot, [CleanPatch(value)]))
    {
      hide ApplyPatch, DoAll, Do, WellFormed, Headed, Checkpoint, Clean, Contents, BucketCount;
      ghost var d, j, img, plan := disk.State(), disk.journal, Img(), [CleanPatch(value)];
      NothingWritten(disk, slot, plan);
      HeadedEnd(img, numBuckets);
      WriteAt(CLEAN_AT, [if value then 1 else 0], d, j, plan, 0);
      assert plan[..1] == plan;
      CleanHeader(img, numBuckets, value);
      if WellFormed(img) {
        CleanStep(img, value);
      }
      clean := value;
    }

    /** `Index::empty`: every bucket head is zero exactly when the map is empty. */
    method IsEmpty() returns (r: bool)
      requires Valid()
      ensures r <==> Map() == map[]
    {
      hide WellFormed, Headed, Checkpoint, Clean, BucketCount, ChainsOf, Contents, De, Represents, Bindings;
      ghost var img := Img();
      ghost var chains := ChainsOf(img);
      Counted(img);
      var file := new InputStream(disk.File(slot).value);
      for i := 0 to numBuckets
        invariant forall b | 0 <= b < i :: chains[b] == []
      {
        HeadThere(img, i);
        var head := ReadU64At(file, HeadAt(i));
        ChainAtZero(img, i);
        if head != 0 {
          TotalZero(chains, numBuckets);
          return false;
        }
      }
      TotalZero(chains, numBuckets);
      r := true;
    }

    /**
     * `Index::stats`: empty and occupied buckets make up the table, the average over the occupied ones
     * accounts for every key exactly once, and the maximum is attained and bounds every chain.
     */
    method Stats() returns (s: IndexStats)
      requires Valid()
      ensures s.numBuckets == numBuckets == s.emptyBuckets + s.nonEmptyBuckets
      ensures numBuckets == |ChainsOf(Img())| && s.emptyBuckets == |EmptyBuckets(ChainsOf(Img()), numBuckets)|
      ensures s.avgChainLength * s.nonEmptyBuckets as real == |Map()| as real
      ensures s.nonEmptyBuckets == 0 ==> s.avgChainLength == 0.0
      ensures forall b | 0 <= b < numBuckets :: |ChainsOf(Img())[b]| <= s.maxChainLength
      ensures exists b :: 0 <= b < numBuckets && |ChainsOf(Img())[b]| == s.maxChainLength
    {
      hide WellFormed, Headed, Checkpoint, Clean, BucketCount, ChainsOf, Contents, De, Represents, Bindings,
        HoldsEntry, TotalLength, EmptyCount, EmptyBuckets, Pointer, U64At;
      ghost var img := Img();
      ghost var chains := ChainsOf(img);
      Counted(img);
      CountNone(chains);
      var file := new InputStream(disk.File(slot).value);
      var empty, nonEmpty, longest, total := 0, 0, 0, 0;
      ghost var witness' := 0;
      for i := 0 to numBuckets
        invariant file.bytes == img && |chains| == numBuckets
        invariant empty == EmptyCount(chains, i) && empty + nonEmpty == i && total == TotalLength(chains, i)
        invariant forall b | 0 <= b < i :: |chains[b]| <= longest
        invariant if i == 0 then longest == 0 == witness' else witness' < i && |chains[witness']| == longest
      {
        CountOne(chains, i);
        var head, length := ReadChain(file, i);
        if head == 0 {
          empty := empty + 1;
        } else {
          nonEmpty := nonEmpty + 1;
        }
        total := total + length;
        if longest < length {
          longest := length;
          witness' := i;
        }
      }
      var average := 0.0;
      TotalZero(chains, numBuckets);
      if nonEmpty > 0 {
        average := total as real / nonEmpty as real;
        AverageExact(total, nonEmpty);
      }
      EmptyCountIs(chains, numBuckets);
      s := IndexStats(numBuckets, empty, nonEmpty, average, longest);
    }

    /** The head of bucket `b` and the length of its chain: the inner loop of `Index::stats`. */
    method ReadChain(file: InputStream, b: nat) returns (head: nat, length: nat)
      requires Valid() && file.bytes == Img() && b < numBuckets == |ChainsOf(Img())|
      modifies file
      ensures length == |ChainsOf(Img())[b]| && (head == 0 <==> length == 0)
    {
      hide WellFormed, Headed, Checkpoint, Clean, BucketCount, ChainsOf, HoldsEntry, U64At;
      ghost var img := Img();
      ghost var c := ChainsOf(img)[b];
      HeadThere(img, b);
      head := ReadU64At(file, HeadAt(b));
      length := 0;
      var cur := head;
      LinkThere(img, b, 0);
      while cur != 0
        invariant length <= |c| && cur == Pointer(c, length) && (cur != 0 <==> length < |c|)
        decreases |c| - length
      {
        LinkThere(img, b, length);
        var _, next, _ := ReadEntry(file, cur, c[length], Pointer(c, length + 1));
        length := length + 1;
        cur := next;
        LinkThere(img, b, length);
      }
    }
  }

  lemma SliceOfTail<T>(s: seq<T>, p: nat, n: nat)
    requires p + n <= |s|
    ensures s[p..][..n] == s[p..p + n]
  {
  }
}
