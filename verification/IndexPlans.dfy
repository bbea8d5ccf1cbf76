/**
 * `Index::set` and `Index::erase` as the list of writes each performs, and the theorem about every
 * state in between: what an interrupted operation leaves behind.
 */
module IndexPlans {
  import opened Codec
  import opened Records
  import opened IndexImage
  import opened IndexUpdates

  // ---- the map before and after a chain edit ----

  lemma RebindBindings(chains: Chains, key: Key, v: nat)
    requires |chains| > 0
    requires var c := chains[Bucket(key, |chains|)]; Ordered(c) && Position(c, key) < |c|
    ensures var b := Bucket(key, |chains|);
            var i := Position(chains[b], key);
            Bindings(chains[b := Rebind(chains[b], i, v)]) == Bindings(chains)[key := v]
  {
    hide Bindings, Bucket, Ordered, Position;
    var b := Bucket(key, |chains|);
    var was, i := chains[b], Position(chains[b], key);
    var c := Rebind(was, i, v);
    var all := chains[b := c];
    forall k
      ensures (k in Bindings(all) <==> k in Bindings(chains)[key := v])
           && (k in Bindings(all) ==> Bindings(all)[k] == Bindings(chains)[key := v][k])
    {
      Bound(chains, k);
      Bound(all, k);
      if Bucket(k, |chains|) == b {
        assert forall j | 0 <= j < |c| :: c[j].key == was[j].key;
        PositionIs(c, k, Position(was, k));
      }
    }
  }

  lemma PrependBindings(chains: Chains, e: Entry)
    requires |chains| > 0
    ensures var b := Bucket(e.key, |chains|);
            Bindings(chains[b := [e] + chains[b]]) == Bindings(chains)[e.key := e.offset]
  {
    hide Bindings, Bucket, Position;
    var b := Bucket(e.key, |chains|);
    var was, c := chains[b], [e] + chains[b];
    var all := chains[b := c];
    forall k
      ensures (k in Bindings(all) <==> k in Bindings(chains)[e.key := e.offset])
           && (k in Bindings(all) ==> Bindings(all)[k] == Bindings(chains)[e.key := e.offset][k])
    {
      Bound(chains, k);
      Bound(all, k);
      if Bucket(k, |chains|) == b {
        PositionIs(c, k, if k == e.key then 0 else 1 + Position(was, k));
      }
    }
  }

  lemma RemoveLength(was: seq<Entry>, i: nat)
    requires i < |was|
    ensures |Remove(was, i)| == |was| - 1
  {
  }

  lemma PositionAfterRemove(was: seq<Entry>, i: nat, k: Key)
    requires Ordered(was) && i < |was|
    ensures var p := Position(was, k);
            Position(Remove(was, i), k) == (if k == was[i].key then |was| - 1 else if p > i then p - 1 else p)
    ensures k != was[i].key && Position(was, k) < |was| ==>
              Remove(was, i)[Position(Remove(was, i), k)] == was[Position(was, k)]
  {
    hide Position;
    var c, p := Remove(was, i), Position(was, k);
    assert forall j | 0 <= j < |c| :: c[j] == was[if j < i then j else j + 1];
    PositionIs(c, k, if k == was[i].key then |c| else if p > i then p - 1 else p);
  }

  lemma RemoveBindings(chains: Chains, key: Key)
    requires |chains| > 0
    requires var c := chains[Bucket(key, |chains|)]; Ordered(c) && Position(c, key) < |c|
    ensures var b := Bucket(key, |chains|);
            var i := Position(chains[b], key);
            Bindings(chains[b := Remove(chains[b], i)]) == Bindings(chains) - {key}
  {
    hide Bindings, Bucket, Position, Ordered, Remove;
    var b := Bucket(key, |chains|);
    var was, i := chains[b], Position(chains[b], key);
    var c := Remove(was, i);
    RemoveLength(was, i);
    var all := chains[b := c];
    forall k
      ensures (k in Bindings(all) <==> k in Bindings(chains) - {key})
           && (k in Bindings(all) ==> Bindings(all)[k] == (Bindings(chains) - {key})[k])
    {
      Bound(chains, k);
      Bound(all, k);
      if Bucket(k, |chains|) == b {
        PositionAfterRemove(was, i, k);
      }
    }
  }

  // ---- plans ----

  /** One write at an absolute file position. */
  datatype Patch = Patch(at: nat, data: Bytes)

  function ApplyPatch(img: Bytes, p: Patch): Bytes
  {
    if p.at <= |img| then Write(img, p.at, p.data) else img
  }

  function ApplyPatches(img: Bytes, ps: seq<Patch>): Bytes
    decreases |ps|
  {
    if ps == [] then img else ApplyPatches(ApplyPatch(img, ps[0]), ps[1..])
  }

  lemma {:induction false} ApplyPatchesConcat(img: Bytes, ps: seq<Patch>, qs: seq<Patch>)
    ensures ApplyPatches(img, ps + qs) == ApplyPatches(ApplyPatches(img, ps), qs)
    decreases |ps|
  {
    hide ApplyPatch;
    if ps == [] {
      assert ps + qs == qs;
    } else {
      assert (ps + qs)[0] == ps[0] && (ps + qs)[1..] == ps[1..] + qs;
      ApplyPatchesConcat(ApplyPatch(img, ps[0]), ps[1..], qs);
    }
  }

  /** The chain of the bucket that `key` hashes to. */
  function ChainFor(img: Bytes, key: Key): seq<Entry>
    requires BucketCount(img) > 0
  {
    ChainAt(img, Bucket(key, BucketCount(img)))
  }

  /**
   * The writes of `Index::set`: one over the offset of an existing entry, or the four fields of a new
   * entry at the end of the file and then the bucket head.
   */
  function SetPlan(img: Bytes, key: Key, v: nat): seq<Patch>
    requires BucketCount(img) > 0
  {
    var c := ChainFor(img, key);
    var i := Position(c, key);
    var at := |img|;
    if i < |c| then [Patch(c[i].at, U64Bytes(v))]
    else [Patch(at, U64Bytes(v)), Patch(at + 8, U64Bytes(Pointer(c, 0))),
          Patch(at + 16, U32Bytes(|key|)), Patch(at + 20, key),
          Patch(HeadAt(Bucket(key, BucketCount(img))), U64Bytes(at))]
  }

  /** The writes of `Index::erase`: zero over the offset, then the entry is bypassed. */
  function ErasePlan(img: Bytes, key: Key): seq<Patch>
    requires BucketCount(img) > 0
  {
    var c := ChainFor(img, key);
    var i := Position(c, key);
    if i == |c| then []
    else [Patch(c[i].at, U64Bytes(0)),
          Patch(LinkAt(c, Bucket(key, BucketCount(img)), i), U64Bytes(Pointer(c, i + 1)))]
  }

  /** What a represented image means, in terms of its chains. */
  lemma RepresentsMeans(img: Bytes, chains: Chains)
    requires Represents(img, chains)
    ensures |chains| > 0 && WellFormed(img) && ChainsOf(img) == chains
    ensures BucketCount(img) == |chains| && Contents(img) == Bindings(chains)
  {
    hide Bindings, Geometry, HoldsHead, Linked;
    RepresentsUnique(img, chains);
    HeaderRead(img, |chains|);
  }

  lemma WellFormedParts(img: Bytes, key: Key)
    requires WellFormed(img)
    ensures BucketCount(img) == |ChainsOf(img)| > 0
    ensures ChainFor(img, key) == ChainsOf(img)[Bucket(key, BucketCount(img))]
    ensures Ordered(ChainFor(img, key)) && Headed(img, BucketCount(img))
  {
    hide ChainAt, Bucket, HoldsHead, Linked, Placed, Apart, Ordered;
    RepresentsMeans(img, ChainsOf(img));
  }

  /** An entry of a well-formed image can be read from the file. */
  lemma EntryThere(img: Bytes, key: Key, i: nat)
    requires WellFormed(img) && BucketCount(img) > 0 && i < |ChainFor(img, key)|
    ensures var c := ChainFor(img, key);
            && INDEX_HEADER_SIZE <= c[i].at && End(c[i]) <= |img| <= MAX_U64
            && HoldsEntry(img, c[i], Pointer(c, i + 1))
            && c[i].offset <= MAX_U64 && |c[i].key| <= MAX_KEY_SIZE && Pointer(c, i + 1) < c[i].at
  {
    hide Bucket, ChainFor, ChainsOf, HoldsEntry, HoldsHead, Apart, HeaderPrefix;
    WellFormedParts(img, key);
    UnfoldWellFormed(img);
    var chains, b := ChainsOf(img), Bucket(key, BucketCount(img));
    assert Linked(img, chains[b]) && Link(img, chains[b], i);
    assert Placed(|chains|, |img|, b, chains[b][i]);
    assert Ordered(chains[b]);
    if i + 1 < |chains[b]| {
      assert Placed(|chains|, |img|, b, chains[b][i + 1]);
    }
  }

  /** Looking a key up in its chain is looking it up in the map. */
  lemma LookupExact(img: Bytes, key: Key)
    requires WellFormed(img)
    ensures BucketCount(img) > 0
    ensures var c := ChainFor(img, key);
            && (key in Contents(img) <==> Position(c, key) < |c|)
            && (key in Contents(img) ==> Contents(img)[key] == c[Position(c, key)].offset)
  {
    hide Bindings, ChainFor, Position, Bucket, WellFormed, ChainsOf;
    WellFormedParts(img, key);
    RepresentsMeans(img, ChainsOf(img)) by { UnfoldWellFormed(img); }
    Bound(ChainsOf(img), key);
  }

  lemma UnfoldWellFormed(img: Bytes)
    requires WellFormed(img)
    ensures Represents(img, ChainsOf(img))
  {
  }

  /**
   * Every next-pointer stored in a well-formed image goes down, and no two entries, of one bucket or of
   * two, overlap: chains are acyclic and never meet.
   */
  lemma ChainsDescend(img: Bytes, b: nat, i: nat, d: nat, j: nat)
    requires WellFormed(img) && b < |ChainsOf(img)| && d < |ChainsOf(img)|
    requires i < |ChainsOf(img)[b]| && j < |ChainsOf(img)[d]|
    ensures var e := ChainsOf(img)[b][i];
            U64At(img, e.at + 8) == Pointer(ChainsOf(img)[b], i + 1) < e.at
    ensures (b, i) != (d, j) ==> Separate(ChainsOf(img)[b][i], ChainsOf(img)[d][j])
  {
    hide Bucket, ChainsOf, HoldsEntry, HoldsHead, HeaderPrefix, U64At;
    UnfoldWellFormed(img);
    var chains := ChainsOf(img);
    var e := chains[b][i];
    assert Linked(img, chains[b]) && Link(img, chains[b], i);
    assert Placed(|chains|, |img|, b, e) && Ordered(chains[b]);
    if i + 1 < |chains[b]| {
      assert Placed(|chains|, |img|, b, chains[b][i + 1]);
    }
    EntryRead(img, e, Pointer(chains[b], i + 1));
    if (b, i) != (d, j) {
      PairSeparate(|chains|, |img|, chains, b, i, d, j);
    }
  }

  /** The image after the first `j` writes of a plan. */
  function After(img: Bytes, plan: seq<Patch>, j: nat): Bytes
    requires j <= |plan|
  {
    ApplyPatches(img, plan[..j])
  }

  lemma AfterOne(img: Bytes, plan: seq<Patch>, j: nat)
    requires j < |plan|
    ensures After(img, plan, 0) == img
    ensures After(img, plan, j + 1) == ApplyPatch(After(img, plan, j), plan[j])
  {
    hide ApplyPatch;
    assert plan[..j + 1] == plan[..j] + [plan[j]];
    ApplyPatchesConcat(img, plan[..j], [plan[j]]);
    assert ApplyPatches(ApplyPatch(After(img, plan, j), plan[j]), []) == ApplyPatch(After(img, plan, j), plan[j]);
  }

  /** Where the first `j` fields of an entry end. */
  function FieldEnd(j: nat, key: Key): nat
  {
    if j == 0 then 0 else if j == 1 then 8 else if j == 2 then 16 else if j == 3 then 20 else 20 + |key|
  }

  /** The four appended fields of a new entry, after `j` of them. */
  lemma AppendedFields(img: Bytes, key: Key, v: nat, next: nat, plan: seq<Patch>, j: nat)
    requires |plan| >= 4 && j <= 4
    requires plan[0] == Patch(|img|, U64Bytes(v)) && plan[1] == Patch(|img| + 8, U64Bytes(next))
    requires plan[2] == Patch(|img| + 16, U32Bytes(|key|)) && plan[3] == Patch(|img| + 20, key)
    ensures After(img, plan, j) == img + EntryBytes(v, next, key)[..FieldEnd(j, key)]
  {
    hide U64Bytes, U32Bytes, EntryBytes, ApplyPatches;
    AfterOne(img, plan, 0);
    AfterOne(img, plan, 1);
    AfterOne(img, plan, 2);
    AfterOne(img, plan, 3);
    EntryFields(v, next, key);
    var bytes := EntryBytes(v, next, key);
    AppendWrite(img, bytes, 0, 8);
    AppendWrite(img, bytes, 8, 16);
    AppendWrite(img, bytes, 16, 20);
    AppendWrite(img, bytes, 20, |bytes|);
    assert img + bytes[..0] == img;
  }

  lemma AppendWrite(img: Bytes, bytes: Bytes, p: nat, q: nat)
    requires p <= q <= |bytes|
    ensures Write(img + bytes[..p], |img| + p, bytes[p..q]) == img + bytes[..q]
  {
    assert bytes[..p] + bytes[p..q] == bytes[..q];
    Associative(img, bytes[..p], bytes[p..q]);
  }

  /**
   * `Index::set` is safe at every write boundary: before its last write the image still stands for
   * the old map, after it for the updated one, and it is well-formed throughout.
   */
  lemma SetEveryStep(img: Bytes, key: Key, v: nat, j: nat)
    requires WellFormed(img) && |key| <= MAX_KEY_SIZE && v <= MAX_U64
    requires |img| + 20 + |key| <= MAX_U64
    requires BucketCount(img) > 0 && j <= |SetPlan(img, key, v)|
    ensures var plan := SetPlan(img, key, v);
            var img' := After(img, plan, j);
            && WellFormed(img') && SameHeader(img, img') && |img'| <= |img| + 20 + |key|
            && Contents(img') == if j == |plan| then Contents(img)[key := v] else Contents(img)
  {
    hide U64Bytes, U32Bytes, EntryBytes, Bucket, Bindings, Represents, ChainFor, ChainsOf, Contents,
      ApplyPatches, Write;
    hide SameHeader, Ordered, Headed, ApplyPatch;
    var chains, c := ChainsOf(img), ChainFor(img, key);
    WellFormedParts(img, key);
    RepresentsMeans(img, chains);
    var b, i, plan := Bucket(key, |chains|), Position(c, key), SetPlan(img, key, v);
    if i < |c| {
      AfterOne(img, plan, 0);
      SameHeaderSelf(img, |chains|);
      if j == 1 {
        RebindStep(img, chains, b, i, v);
        RebindBindings(chains, key, v);
        PatchIsWrite(img, plan[0]);
        RepresentsMeans(After(img, plan, 1), chains[b := Rebind(c, i, v)]);
      }
    } else {
      var e := Entry(|img|, v, key);
      var bytes := EntryBytes(v, Pointer(c, 0), key);
      if j <= 4 {
        AppendedFields(img, key, v, Pointer(c, 0), plan, j);
        GrowStep(img, chains, bytes[..FieldEnd(j, key)]);
        RepresentsMeans(After(img, plan, j), chains);
      } else {
        AppendedFields(img, key, v, Pointer(c, 0), plan, 4);
        assert bytes[..FieldEnd(4, key)] == bytes;
        AfterOne(img, plan, 4);
        PrependStep(img, chains, b, e);
        PrependBindings(chains, e);
        HeadedEnd(img, |chains|);
        PatchIsWrite(img + bytes, plan[4]);
        RepresentsMeans(After(img, plan, 5), chains[b := [e] + c]);
      }
    }
  }

  lemma SameHeaderSelf(img: Bytes, n: nat)
    requires Headed(img, n)
    ensures SameHeader(img, img)
  {
    hide HeaderPrefix;
  }

  lemma PatchIsWrite(img: Bytes, p: Patch)
    requires p.at <= |img|
    ensures ApplyPatch(img, p) == Write(img, p.at, p.data)
  {
  }

  /**
   * `Index::erase` removes the key wherever it is in its chain. Between its two writes the image is
   * well-formed but stands for a map that sends the key to offset zero: only the dirty flag covers
   * that state.
   */
  lemma EraseEveryStep(img: Bytes, key: Key, j: nat)
    requires WellFormed(img) && BucketCount(img) > 0 && j <= |ErasePlan(img, key)|
    ensures var plan := ErasePlan(img, key);
            var img' := After(img, plan, j);
            && (plan == [] <==> key !in Contents(img))
            && WellFormed(img') && SameHeader(img, img') && |img'| == |img|
            && Contents(img') == if j == |plan| then Contents(img) - {key}
                                 else if j == 1 then Contents(img)[key := 0] else Contents(img)
  {
    hide U64Bytes, Bucket, Bindings, Represents, ChainFor, ChainsOf, Contents, ApplyPatches, Write;
    hide SameHeader, Ordered, Headed, ApplyPatch, Rebind, Remove;
    var chains, c := ChainsOf(img), ChainFor(img, key);
    WellFormedParts(img, key);
    LookupExact(img, key);
    RepresentsMeans(img, chains);
    var b, i, plan := Bucket(key, |chains|), Position(c, key), ErasePlan(img, key);
    SameHeaderSelf(img, |chains|);
    if i == |c| {
      assert After(img, plan, 0) == img by { NoPatches(img); }
    } else {
      AfterOne(img, plan, 0);
      if j > 0 {
        var img1, chains1 := After(img, plan, 1), chains[b := Rebind(c, i, 0)];
        RebindStep(img, chains, b, i, 0);
        RebindBindings(chains, key, 0);
        PatchIsWrite(img, plan[0]);
        RepresentsMeans(img1, chains1);
        if j > 1 {
          AfterOne(img, plan, 1);
          RebindKeepsLinks(c, b, i, key);
          UnlinkStep(img1, chains1, b, i);
          RemoveBindings(chains1, key) by { assert Represents(img1, chains1); OrderedOf(img1, chains1, b); }
          PatchIsWrite(img1, plan[1]);
          SameHeaderTransitive(img, img1, After(img, plan, 2));
          RepresentsMeans(After(img, plan, 2), chains1[b := Remove(Rebind(c, i, 0), i)]);
          assert Bindings(chains)[key := 0] - {key} == Bindings(chains) - {key};
        }
      }
    }
  }

  lemma NoPatches(img: Bytes)
    ensures ApplyPatches(img, []) == img
  {
  }

  lemma OrderedOf(img: Bytes, chains: Chains, b: nat)
    requires Represents(img, chains) && b < |chains|
    ensures Ordered(chains[b])
  {
    hide Headed, HoldsHead, Linked, Placed, Apart, Ordered;
  }

  lemma RebindKeepsLinks(c: seq<Entry>, b: nat, i: nat, key: Key)
    requires i < |c| && i == Position(c, key)
    ensures var c' := Rebind(c, i, 0);
            && |c'| == |c| && LinkAt(c', b, i) == LinkAt(c, b, i) && Pointer(c', i + 1) == Pointer(c, i + 1)
            && Position(c', key) == i
  {
    PositionIs(Rebind(c, i, 0), key, i);
  }
}
