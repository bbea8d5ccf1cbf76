/** A new index file, and rebuilding an index from the records of a log. */
module IndexSetup {
  import opened Codec
  import opened Records
  import opened Log
  import opened IndexImage
  import opened IndexUpdates
  import opened IndexPlans

  /** `count` empty bucket heads. */
  function Zeros(count: nat): (s: Bytes)
    ensures |s| == 8 * count
  {
    if count == 0 then [] else Zeros(count - 1) + U64Bytes(0)
  }

  /** The image `Index::setup` leaves: checkpoint zero, not clean, every bucket empty. */
  function EmptyImage(n: nat): (img: Bytes)
    ensures |img| == TableEnd(n)
  {
    HeaderPrefix(n) + U64Bytes(0) + [0] + Zeros(n)
  }

  /** The table writes of `Index::setup`. */
  function TablePlan(count: nat): seq<Patch>
  {
    if count == 0 then [] else TablePlan(count - 1) + [Patch(HeadAt(count - 1), U64Bytes(0))]
  }

  /** All writes of `Index::setup` to the new, empty file. */
  function SetupPlan(n: nat): seq<Patch>
  {
    [Patch(0, U32Bytes(|INDEX_MAGIC|)), Patch(4, INDEX_MAGIC), Patch(20, U32Bytes(INDEX_VERSION)),
     Patch(24, U64Bytes(n)), Patch(32, U64Bytes(0)), Patch(40, [0])] + TablePlan(n)
  }

  lemma ApplyOne(img: Bytes, p: Patch)
    ensures ApplyPatches(img, [p]) == ApplyPatch(img, p)
  {
    hide ApplyPatch;
    assert ApplyPatches(ApplyPatch(img, p), []) == ApplyPatch(img, p);
  }

  lemma AppendPatch(img: Bytes, data: Bytes)
    ensures ApplyPatch(img, Patch(|img|, data)) == img + data
  {
  }

  lemma {:induction false} TableBuilt(prefix: Bytes, count: nat)
    requires |prefix| == INDEX_HEADER_SIZE
    ensures ApplyPatches(prefix, TablePlan(count)) == prefix + Zeros(count)
  {
    hide U64Bytes, ApplyPatch, ApplyPatches;
    if count == 0 {
      NoPatches(prefix);
    } else {
      TableBuilt(prefix, count - 1);
      var p := Patch(HeadAt(count - 1), U64Bytes(0));
      var built := prefix + Zeros(count - 1);
      ApplyPatchesConcat(prefix, TablePlan(count - 1), [p]);
      ApplyOne(built, p);
      AppendPatch(built, U64Bytes(0));
      Associative(prefix, Zeros(count - 1), U64Bytes(0));
    }
  }

  lemma HeaderBuilt(n: nat, fixed: seq<Patch>)
    requires fixed == SetupPlan(n)[..6]
    ensures ApplyPatches([], fixed) == HeaderPrefix(n) + U64Bytes(0) + [0]
  {
    hide U64Bytes, U32Bytes, ApplyPatch;
    var s0: Bytes := U32Bytes(|INDEX_MAGIC|);
    var s1 := s0 + INDEX_MAGIC;
    var s2 := s1 + U32Bytes(INDEX_VERSION);
    var s3 := s2 + U64Bytes(n);
    var s4 := s3 + U64Bytes(0);
    AppendPatch([], s0);
    assert [] + s0 == s0;
    AppendPatch(s0, INDEX_MAGIC);
    AppendPatch(s1, U32Bytes(INDEX_VERSION));
    AppendPatch(s2, U64Bytes(n));
    AppendPatch(s3, U64Bytes(0));
    AppendPatch(s4, [0]);
    AfterSix([], fixed);
  }

  lemma AfterSix(img: Bytes, ps: seq<Patch>)
    requires |ps| == 6
    ensures ApplyPatches(img, ps)
         == ApplyPatch(ApplyPatch(ApplyPatch(ApplyPatch(ApplyPatch(ApplyPatch(
              img, ps[0]), ps[1]), ps[2]), ps[3]), ps[4]), ps[5])
  {
    hide ApplyPatch, ApplyPatches;
    AfterOne(img, ps, 0);
    AfterOne(img, ps, 1);
    AfterOne(img, ps, 2);
    AfterOne(img, ps, 3);
    AfterOne(img, ps, 4);
    AfterOne(img, ps, 5);
    assert ps[..6] == ps;
  }

  lemma SetupBuilds(n: nat)
    ensures ApplyPatches([], SetupPlan(n)) == EmptyImage(n)
  {
    hide U64Bytes, U32Bytes, ApplyPatch, ApplyPatches, TablePlan, Zeros, HeaderPrefix;
    var fixed := SetupPlan(n)[..6];
    assert SetupPlan(n) == fixed + TablePlan(n);
    HeaderBuilt(n, fixed);
    ApplyPatchesConcat([], fixed, TablePlan(n));
    TableBuilt(HeaderPrefix(n) + U64Bytes(0) + [0], n);
  }

  lemma {:induction false} ZeroAt(count: nat, b: nat)
    requires b < count
    ensures Zeros(count)[8 * b..8 * b + 8] == U64Bytes(0)
  {
    hide U64Bytes;
    if b < count - 1 {
      ZeroAt(count - 1, b);
      assert Zeros(count)[8 * b..8 * b + 8] == Zeros(count - 1)[8 * b..8 * b + 8];
    }
  }

  /** A new index is well-formed, empty, not clean, and has seen none of the log. */
  lemma EmptyImageMeans(n: nat)
    requires 0 < n && TableEnd(n) <= MAX_U64
    ensures var img := EmptyImage(n);
            && WellFormed(img) && BucketCount(img) == n && Contents(img) == map[]
            && Checkpoint(img) == 0 && !Clean(img)
  {
    hide U64Bytes, HeaderPrefix, Bindings, Bucket, De;
    var img := EmptyImage(n);
    var chains: Chains := seq(n, _ => []);
    assert img[..CHECKPOINT_AT] == HeaderPrefix(n);
    assert img[CLEAN_AT] == 0;
    forall b | 0 <= b < n
      ensures HoldsHead(img, b, Pointer(chains[b], 0)) && Linked(img, chains[b])
    {
      ZeroAt(n, b);
      assert img[HeadAt(b)..HeadAt(b) + 8] == Zeros(n)[8 * b..8 * b + 8];
    }
    RepresentsMeans(img, chains);
    NothingBound(chains);
    assert img[32..40] == U64Bytes(0);
    U64RoundTrip(0);
  }

  lemma NothingBound(chains: Chains)
    requires |chains| > 0 && forall b | 0 <= b < |chains| :: chains[b] == []
    ensures Bindings(chains) == map[]
  {
    hide Bucket;
    assert forall k :: k !in Keys(chains);
  }

  // ---- rebuilding ----

  /** The writes one record causes in an index that has seen everything before it. */
  function RecordPlan(img: Bytes, r: Record, start: nat): seq<Patch>
    requires BucketCount(img) > 0
  {
    match r.kind
    case Put => SetPlan(img, r.key, start)
    case Delete => ErasePlan(img, r.key)
  }

  /** The image after replaying the records into a new index of `n` buckets. */
  function ReplayPlan(rs: seq<Record>, base: nat, n: nat): seq<Patch>
  {
    if rs == [] then SetupPlan(n)
    else
      var before := ReplayPlan(rs[..|rs| - 1], base, n);
      var img := ApplyPatches([], before);
      before + (if BucketCount(img) == 0 then [] else RecordPlan(img, rs[|rs| - 1], base + StartOf(rs, |rs| - 1)))
  }

  function Rebuilt(rs: seq<Record>, base: nat, n: nat): Bytes
  {
    ApplyPatches([], ReplayPlan(rs, base, n))
  }

  lemma ReplayPlanSnoc(rs: seq<Record>, r: Record, base: nat, n: nat)
    requires BucketCount(Rebuilt(rs, base, n)) > 0
    ensures ReplayPlan(rs + [r], base, n)
         == ReplayPlan(rs, base, n) + RecordPlan(Rebuilt(rs, base, n), r, base + |EncodeAll(rs)|)
  {
    hide RecordPlan, ApplyPatches, EncodeAll, SetupPlan, BucketCount;
    var all := rs + [r];
    assert all[..|all| - 1] == rs && all[|all| - 1] == r;
  }

  /** What the first `j` writes of one record do to a well-formed index: nothing, before the last. */
  lemma RecordEveryStep(img: Bytes, r: Record, start: nat, j: nat)
    requires WellFormed(img) && BucketCount(img) > 0 && Serializable(r)
    requires start <= MAX_U64 && |img| + 20 + |r.key| <= MAX_U64 && j <= |RecordPlan(img, r, start)|
    ensures var plan := RecordPlan(img, r, start);
            var img' := After(img, plan, j);
            && WellFormed(img') && SameHeader(img, img') && |img'| <= |img| + 20 + |r.key|
            && Contents(img') == (if j == |plan| then ApplyOffset(Contents(img), r, start)
                                  else if r.kind.Delete? && j == 1 then Contents(img)[r.key := 0]
                                  else Contents(img))
  {
    hide WellFormed, Contents, SameHeader, SetPlan, ErasePlan, BucketCount, ApplyPatches;
    match r.kind {
      case Put => SetEveryStep(img, r.key, start, j);
      case Delete => EraseEveryStep(img, r.key, j);
    }
  }

  /** What one record does to a well-formed index. */
  lemma RecordStep(img: Bytes, r: Record, start: nat)
    requires WellFormed(img) && Serializable(r) && start <= MAX_U64 && |img| + 20 + |r.key| <= MAX_U64
    ensures BucketCount(img) > 0
    ensures var img' := ApplyPatches(img, RecordPlan(img, r, start));
            && WellFormed(img') && SameHeader(img, img') && |img'| <= |img| + 20 + |r.key|
            && Contents(img') == ApplyOffset(Contents(img), r, start)
  {
    hide WellFormed, Contents, SameHeader, ApplyPatches, RecordPlan;
    LookupExact(img, r.key);
    var plan := RecordPlan(img, r, start);
    assert plan[..|plan|] == plan;
    RecordEveryStep(img, r, start, |plan|);
  }

  lemma SameHeaderMetadata(img: Bytes, img': Bytes)
    requires WellFormed(img) && WellFormed(img') && SameHeader(img, img')
    ensures BucketCount(img') == BucketCount(img) && Checkpoint(img') == Checkpoint(img)
    ensures Clean(img') <==> Clean(img)
  {
    hide SameHeader, ChainsOf, Checkpoint, Clean, Geometry, HoldsHead, Linked, Headed;
    RepresentsMeans(img, ChainsOf(img));
    RepresentsMeans(img', ChainsOf(img'));
    SameHeaderHeaded(img, img', BucketCount(img));
    HeaderRead(img', BucketCount(img));
  }

  /**
   * Rebuilding from any list of valid records, overwrites and deletes of absent keys included, gives
   * the key-to-offset map of the log whatever the number of buckets, in an index that is not clean.
   */
  lemma {:induction false} RebuildExact(rs: seq<Record>, base: nat, n: nat)
    requires AllSerializable(rs) && 0 < n
    requires base + |EncodeAll(rs)| <= MAX_U64 && TableEnd(n) + 2 * |EncodeAll(rs)| <= MAX_U64
    ensures var img := Rebuilt(rs, base, n);
            && WellFormed(img) && BucketCount(img) == n && |img| <= TableEnd(n) + 2 * |EncodeAll(rs)|
            && Contents(img) == ReplayOffsets(rs, base)
            && Checkpoint(img) == 0 && !Clean(img)
    decreases |rs|
  {
    hide WellFormed, Contents, BucketCount, Checkpoint, Clean, ApplyPatches, RecordPlan, SetupPlan, EmptyImage,
      SameHeader, ApplyOffset, Serializable, Encode, EncodeAll, ReplayPlan;
    if rs == [] {
      SetupBuilds(n);
      EmptyImageMeans(n);
      NoRecords(base, n);
    } else {
      var init, r := rs[..|rs| - 1], rs[|rs| - 1];
      assert init + [r] == rs;
      EncodeAllSnoc(init, r);
      RebuildExact(init, base, n);
      var img, start := Rebuilt(init, base, n), base + |EncodeAll(init)|;
      EncodedKeyFits(r);
      RecordStep(img, r, start);
      ReplaySnoc(init, r, base);
      ReplayPlanSnoc(init, r, base, n);
      ApplyPatchesConcat([], ReplayPlan(init, base, n), RecordPlan(img, r, start));
      SameHeaderMetadata(img, Rebuilt(rs, base, n));
    }
  }

  lemma NoRecords(base: nat, n: nat)
    ensures ReplayPlan([], base, n) == SetupPlan(n) && EncodeAll([]) == []
  {
  }

  lemma EncodedKeyFits(r: Record)
    ensures 20 + |r.key| <= 2 * |Encode(r)|
  {
  }
}
