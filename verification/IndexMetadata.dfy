/** The two header fields that `Index` updates in place: the checkpoint and the clean flag. */
module IndexMetadata {
  import opened Codec
  import opened IndexImage
  import opened IndexUpdates
  import opened IndexPlans

  /** The write of `set_indexed_up_to_offset`. */
  function CheckpointPatch(offset: nat): Patch
  {
    Patch(CHECKPOINT_AT, U64Bytes(offset))
  }

  /** The write of `set_index_clean`. */
  function CleanPatch(clean: bool): Patch
  {
    Patch(CLEAN_AT, [if clean then 1 else 0])
  }

  lemma ChainUnderHeader(img: Bytes, chains: Chains, at: nat, data: Bytes, b: nat)
    requires Represents(img, chains) && b < |chains| && at + |data| <= INDEX_HEADER_SIZE
    ensures at <= |img| && HoldsChain(Write(img, at, data), b, chains[b])
  {
    hide Bucket, U64Bytes, EntryBytes, HeaderPrefix, Write, Ordered, Apart;
    var img' := Write(img, at, data);
    assert HoldsHead(img, b, Pointer(chains[b], 0));
    WriteKeeps(img, at, data, HeadAt(b), HeadAt(b) + 8);
    assert Linked(img, chains[b]);
    forall j | 0 <= j < |chains[b]|
      ensures Link(img', chains[b], j)
    {
      assert Link(img, chains[b], j) && Placed(|chains|, |img|, b, chains[b][j]);
      WriteKeeps(img, at, data, chains[b][j].at, End(chains[b][j]));
    }
  }

  /** A write inside the last nine header bytes leaves every chain as it is. */
  lemma HeaderStep(img: Bytes, chains: Chains, at: nat, data: Bytes)
    requires Represents(img, chains)
    requires CHECKPOINT_AT <= at && at + |data| <= INDEX_HEADER_SIZE
    requires Write(img, at, data)[CLEAN_AT] <= 1
    ensures Represents(Write(img, at, data), chains) && |Write(img, at, data)| == |img|
  {
    hide HeaderPrefix, Write, HoldsHead, Linked, Geometry;
    var img' := Write(img, at, data);
    WriteThere(img, at, data);
    WriteKeeps(img, at, data, 0, CHECKPOINT_AT);
    assert img'[0..CHECKPOINT_AT] == img[0..CHECKPOINT_AT];
    forall b | 0 <= b < |chains|
      ensures HoldsHead(img', b, Pointer(chains[b], 0)) && Linked(img', chains[b])
    {
      ChainUnderHeader(img, chains, at, data, b);
    }
  }

  /** Setting the checkpoint changes the checkpoint and nothing else. */
  lemma CheckpointStep(img: Bytes, offset: nat)
    requires WellFormed(img) && offset <= MAX_U64
    ensures var img' := ApplyPatch(img, CheckpointPatch(offset));
            && WellFormed(img') && |img'| == |img|
            && BucketCount(img') == BucketCount(img) && Contents(img') == Contents(img)
            && Checkpoint(img') == offset && (Clean(img') <==> Clean(img))
  {
    hide U64Bytes, De, HeaderPrefix, Write, HoldsHead, Linked, Geometry, Bindings, ChainsOf;
    var img' := Write(img, CHECKPOINT_AT, U64Bytes(offset));
    var chains := ChainsOf(img);
    RepresentsMeans(img, chains);
    WriteThere(img, CHECKPOINT_AT, U64Bytes(offset));
    WriteKeeps(img, CHECKPOINT_AT, U64Bytes(offset), CLEAN_AT, CLEAN_AT + 1);
    assert img'[CLEAN_AT] == img'[CLEAN_AT..CLEAN_AT + 1][0] == img[CLEAN_AT..CLEAN_AT + 1][0] == img[CLEAN_AT];
    HeaderStep(img, chains, CHECKPOINT_AT, U64Bytes(offset));
    RepresentsMeans(img', chains);
    U64RoundTrip(offset);
  }

  /** The flag of any acceptable header can be set. */
  lemma CleanHeader(img: Bytes, n: nat, clean: bool)
    requires Headed(img, n)
    ensures var img' := ApplyPatch(img, CleanPatch(clean));
            && Headed(img', n) && Checkpoint(img') == Checkpoint(img) && (Clean(img') <==> clean)
  {
    hide U64Bytes, De, HeaderPrefix, Write;
    var data: Bytes := [if clean then 1 else 0];
    var img' := Write(img, CLEAN_AT, data);
    WriteThere(img, CLEAN_AT, data);
    assert img'[CLEAN_AT] == img'[CLEAN_AT..CLEAN_AT + 1][0] == data[0];
    WriteKeeps(img, CLEAN_AT, data, CHECKPOINT_AT, CHECKPOINT_AT + 8);
    WriteKeeps(img, CLEAN_AT, data, 0, CHECKPOINT_AT);
    assert img'[0..CHECKPOINT_AT] == img[0..CHECKPOINT_AT];
  }

  /** Setting the flag changes the flag and nothing else. */
  lemma CleanStep(img: Bytes, clean: bool)
    requires WellFormed(img)
    ensures var img' := ApplyPatch(img, CleanPatch(clean));
            && WellFormed(img') && |img'| == |img|
            && BucketCount(img') == BucketCount(img) && Contents(img') == Contents(img)
            && Checkpoint(img') == Checkpoint(img) && (Clean(img') <==> clean)
  {
    hide U64Bytes, De, HeaderPrefix, Write, HoldsHead, Linked, Geometry, Bindings, ChainsOf;
    var data: Bytes := [if clean then 1 else 0];
    var img' := Write(img, CLEAN_AT, data);
    var chains := ChainsOf(img);
    RepresentsMeans(img, chains);
    WriteThere(img, CLEAN_AT, data);
    assert img'[CLEAN_AT] == img'[CLEAN_AT..CLEAN_AT + 1][0] == data[0];
    WriteKeeps(img, CLEAN_AT, data, CHECKPOINT_AT, CHECKPOINT_AT + 8);
    HeaderStep(img, chains, CLEAN_AT, data);
    RepresentsMeans(img', chains);
  }
}
