/**
 * The in-place updates of `Index::set` and `Index::erase` as lists of file writes, and what every
 * single one of those writes does to a well-formed image.
 */
module IndexUpdates {
  import opened Codec
  import opened Records
  import opened IndexImage

  /** The file after writing `data` at `at`, extending it if it ends before the data does. */
  function Write(img: Bytes, at: nat, data: Bytes): (r: Bytes)
    requires at <= |img|
    ensures |r| >= |img| && |r| >= at + |data|
  {
    img[..at] + data + (if at + |data| < |img| then img[at + |data|..] else [])
  }

  lemma WriteKeeps(img: Bytes, at: nat, data: Bytes, p: nat, q: nat)
    requires at <= |img| && p <= q <= |img|
    requires q <= at || at + |data| <= p
    ensures Write(img, at, data)[p..q] == img[p..q]
  {
  }

  lemma WriteThere(img: Bytes, at: nat, data: Bytes)
    requires at <= |img|
    ensures Write(img, at, data)[at..at + |data|] == data
    ensures at + |data| <= |img| ==> |Write(img, at, data)| == |img|
  {
  }

  // ---- geometry ----

  lemma PairSeparate(n: nat, size: nat, chains: Chains, b: nat, i: nat, d: nat, j: nat)
    requires Geometry(n, size, chains)
    requires b < n && d < n && i < |chains[b]| && j < |chains[d]| && (b, i) != (d, j)
    ensures Separate(chains[b][i], chains[d][j])
  {
    hide Placed;
    if b == d {
      assert Ordered(chains[b]);
    } else {
      assert Apart(chains[b], chains[d]);
    }
  }

  lemma GeometryUpdate(n: nat, size: nat, size': nat, chains: Chains, b: nat, c: seq<Entry>)
    requires Geometry(n, size, chains) && size <= size' <= MAX_U64 && b < n
    requires Ordered(c) && forall i | 0 <= i < |c| :: Placed(n, size', b, c[i])
    requires forall d | 0 <= d < n && d != b :: Apart(c, chains[d])
    ensures Geometry(n, size', chains[b := c])
  {
    hide Bucket, Ordered;
    var all := chains[b := c];
    forall d, i | 0 <= d < n && 0 <= i < |all[d]|
      ensures Placed(n, size', d, all[d][i])
    {
      if d != b {
        assert Placed(n, size, d, chains[d][i]);
      }
    }
    forall d, e | 0 <= d < n && 0 <= e < n && d != e
      ensures Apart(all[d], all[e])
    {
      if d != b && e != b {
        assert Apart(chains[d], chains[e]);
      } else if d == b {
        assert Apart(c, chains[e]);
      } else {
        assert Apart(c, chains[d]);
        assert forall i, j | 0 <= i < |chains[d]| && 0 <= j < |c| ::
            Separate(c[j], chains[d][i]) ==> Separate(chains[d][i], c[j]);
      }
    }
  }

  /** The same entries in the same places, one of them storing another offset. */
  function Rebind(c: seq<Entry>, i: nat, v: nat): seq<Entry>
    requires i < |c|
  {
    c[i := c[i].(offset := v)]
  }

  function Remove(c: seq<Entry>, i: nat): seq<Entry>
    requires i < |c|
  {
    c[..i] + c[i + 1..]
  }

  lemma GeometryRebind(n: nat, size: nat, chains: Chains, b: nat, i: nat, v: nat)
    requires Geometry(n, size, chains) && b < n && i < |chains[b]| && v <= MAX_U64
    ensures Geometry(n, size, chains[b := Rebind(chains[b], i, v)])
  {
    hide Bucket;
    var c := Rebind(chains[b], i, v);
    assert size <= MAX_U64 by { assert Placed(n, size, b, chains[b][i]); }
    forall j | 0 <= j < |c|
      ensures Placed(n, size, b, c[j])
    {
      assert Placed(n, size, b, chains[b][j]);
    }
    assert Ordered(chains[b]);
    assert Ordered(c);
    forall d | 0 <= d < n && d != b
      ensures Apart(c, chains[d])
    {
      assert Apart(chains[b], chains[d]);
      assert forall j, k | 0 <= j < |c| && 0 <= k < |chains[d]| ::
          Separate(chains[b][j], chains[d][k]) ==> Separate(c[j], chains[d][k]);
    }
    GeometryUpdate(n, size, size, chains, b, c);
  }

  lemma GeometryRemove(n: nat, size: nat, chains: Chains, b: nat, i: nat)
    requires Geometry(n, size, chains) && b < n && i < |chains[b]|
    ensures Geometry(n, size, chains[b := Remove(chains[b], i)])
  {
    hide Bucket;
    var c, was := Remove(chains[b], i), chains[b];
    assert size <= MAX_U64 by { assert Placed(n, size, b, chains[b][i]); }
    assert forall j | 0 <= j < |c| :: c[j] == was[if j < i then j else j + 1];
    forall j | 0 <= j < |c|
      ensures Placed(n, size, b, c[j])
    {
      assert Placed(n, size, b, was[if j < i then j else j + 1]);
    }
    assert Ordered(was);
    assert Ordered(c);
    forall d | 0 <= d < n && d != b
      ensures Apart(c, chains[d])
    {
      assert Apart(was, chains[d]);
      assert forall j, k | 0 <= j < |c| && 0 <= k < |chains[d]| ::
          Separate(was[if j < i then j else j + 1], chains[d][k]) ==> Separate(c[j], chains[d][k]);
    }
    GeometryUpdate(n, size, size, chains, b, c);
  }

  /** A new entry at the end of the file becomes the head of its chain. */
  lemma GeometryPrepend(n: nat, size: nat, chains: Chains, b: nat, e: Entry)
    requires Geometry(n, size, chains) && b < n
    requires e.at == size && TableEnd(n) <= size && Placed(n, End(e), b, e)
    requires Position(chains[b], e.key) == |chains[b]|
    ensures Geometry(n, End(e), chains[b := [e] + chains[b]])
  {
    hide Bucket;
    var was := chains[b];
    var c := [e] + was;
    forall d, j | 0 <= d < n && 0 <= j < |chains[d]|
      ensures End(chains[d][j]) <= e.at
    {
      assert Placed(n, size, d, chains[d][j]);
    }
    forall j | 0 <= j < |c|
      ensures Placed(n, End(e), b, c[j])
    {
      if j > 0 {
        assert Placed(n, size, b, was[j - 1]);
      }
    }
    assert Ordered(was);
    assert Ordered(c);
    forall d | 0 <= d < n && d != b
      ensures Apart(c, chains[d])
    {
      assert Apart(was, chains[d]);
      forall j, k | 0 <= j < |c| && 0 <= k < |chains[d]|
        ensures Separate(c[j], chains[d][k])
      {
        if j > 0 {
          assert Separate(was[j - 1], chains[d][k]);
        }
      }
    }
    GeometryUpdate(n, size, End(e), chains, b, c);
  }

  // ---- what an eight-byte write inside one bucket leaves alone ----

  /** The clean flag and everything before it. */
  predicate SameHeader(img: Bytes, img': Bytes)
  {
    |img'| >= |img| >= INDEX_HEADER_SIZE && img'[..INDEX_HEADER_SIZE] == img[..INDEX_HEADER_SIZE]
  }

  lemma SameHeaderHeaded(img: Bytes, img': Bytes, n: nat)
    requires Headed(img, n) && SameHeader(img, img')
    ensures Headed(img', n) && Checkpoint(img') == Checkpoint(img) && (Clean(img') <==> Clean(img))
  {
    hide HeaderPrefix, De;
    assert img'[..CHECKPOINT_AT] == img'[..INDEX_HEADER_SIZE][..CHECKPOINT_AT]
        == img[..INDEX_HEADER_SIZE][..CHECKPOINT_AT] == img[..CHECKPOINT_AT];
    assert img'[CLEAN_AT] == img'[..INDEX_HEADER_SIZE][CLEAN_AT] == img[CLEAN_AT];
    assert img'[32..40] == img'[..INDEX_HEADER_SIZE][32..40] == img[32..40];
  }

  /**
   * The write goes to the head of bucket `b` (when `i` is past its chain) or to one of the two
   * numbers of its entry `i`.
   */
  predicate Owned(chains: Chains, b: nat, i: nat, at: nat)
    requires b < |chains|
  {
    if i < |chains[b]| then at == chains[b][i].at || at == chains[b][i].at + 8 else at == HeadAt(b)
  }

  lemma OwnedInside(img: Bytes, chains: Chains, b: nat, i: nat, at: nat)
    requires Represents(img, chains) && b < |chains| && Owned(chains, b, i, at)
    ensures INDEX_HEADER_SIZE <= at && at + 8 <= |img|
  {
    hide Bucket, Linked, HoldsHead, HeaderPrefix;
    if i < |chains[b]| {
      assert Placed(|chains|, |img|, b, chains[b][i]);
    }
  }

  /** An entry other than the owner, and a head other than the owner, are out of the write's way. */
  lemma EntryKept(img: Bytes, chains: Chains, b: nat, i: nat, at: nat, data: Bytes, d: nat, j: nat)
    requires Represents(img, chains) && b < |chains| && Owned(chains, b, i, at) && |data| == 8 && at <= |img|
    requires d < |chains| && j < |chains[d]| && (d, j) != (b, i)
    ensures Link(Write(img, at, data), chains[d], j)
  {
    hide Bucket, Apart, Ordered, HoldsHead, HeaderPrefix, EntryBytes, Write;
    var n, e := |chains|, chains[d][j];
    assert Linked(img, chains[d]);
    assert Link(img, chains[d], j);
    assert Placed(n, |img|, d, e);
    if i < |chains[b]| {
      PairSeparate(n, |img|, chains, b, i, d, j);
    }
    WriteKeeps(img, at, data, e.at, End(e));
  }

  lemma HeadKept(img: Bytes, chains: Chains, b: nat, i: nat, at: nat, data: Bytes, d: nat)
    requires Represents(img, chains) && b < |chains| && Owned(chains, b, i, at) && |data| == 8 && at <= |img|
    requires d < |chains| && (d != b || i < |chains[b]|)
    ensures HoldsHead(Write(img, at, data), d, Pointer(chains[d], 0))
  {
    hide Bucket, Apart, Ordered, Linked, HeaderPrefix, Write;
    if i < |chains[b]| {
      assert Placed(|chains|, |img|, b, chains[b][i]);
    }
    assert HoldsHead(img, d, Pointer(chains[d], 0));
    WriteKeeps(img, at, data, HeadAt(d), HeadAt(d) + 8);
  }

  predicate HoldsChain(img: Bytes, b: nat, c: seq<Entry>)
  {
    HoldsHead(img, b, Pointer(c, 0)) && Linked(img, c)
  }

  lemma OwnedWrite(img: Bytes, chains: Chains, b: nat, i: nat, at: nat, data: Bytes)
    requires Represents(img, chains) && b < |chains| && Owned(chains, b, i, at) && |data| == 8
    ensures at + 8 <= |img|
    ensures var img' := Write(img, at, data);
            && |img'| == |img| && SameHeader(img, img') && Headed(img', |chains|)
            && (forall d | 0 <= d < |chains| && d != b :: HoldsChain(img', d, chains[d]))
            && (forall j | 0 <= j < |chains[b]| && j != i :: Link(img', chains[b], j))
            && (i < |chains[b]| ==> HoldsHead(img', b, Pointer(chains[b], 0)))
  {
    hide Link, HoldsHead, Headed, Geometry, Write;
    OwnedInside(img, chains, b, i, at);
    var img' := Write(img, at, data);
    WriteThere(img, at, data);
    WriteKeeps(img, at, data, 0, INDEX_HEADER_SIZE);
    SameHeaderHeaded(img, img', |chains|);
    forall d, j | 0 <= d < |chains| && 0 <= j < |chains[d]| && (d, j) != (b, i)
      ensures Link(img', chains[d], j)
    {
      EntryKept(img, chains, b, i, at, data, d, j);
    }
    forall d | 0 <= d < |chains| && (d != b || i < |chains[b]|)
      ensures HoldsHead(img', d, Pointer(chains[d], 0))
    {
      HeadKept(img, chains, b, i, at, data, d);
    }
  }

  lemma Reassemble(img: Bytes, chains: Chains, b: nat, c: seq<Entry>)
    requires b < |chains| && Headed(img, |chains|) && Geometry(|chains|, |img|, chains[b := c])
    requires HoldsChain(img, b, c)
    requires forall d | 0 <= d < |chains| && d != b :: HoldsChain(img, d, chains[d])
    ensures Represents(img, chains[b := c])
  {
    hide HoldsHead, Linked, Geometry, Headed;
    var all := chains[b := c];
    forall d | 0 <= d < |all|
      ensures HoldsHead(img, d, Pointer(all[d], 0)) && Linked(img, all[d])
    {
      assert HoldsChain(img, d, all[d]);
    }
  }

  // ---- the four kinds of step ----

  /** Overwriting the offset of an entry. */
  lemma RebindStep(img: Bytes, chains: Chains, b: nat, i: nat, v: nat)
    requires Represents(img, chains) && b < |chains| && i < |chains[b]| && v <= MAX_U64
    ensures var at := chains[b][i].at;
            && at + 8 <= |img|
            && SameHeader(img, Write(img, at, U64Bytes(v)))
            && |Write(img, at, U64Bytes(v))| == |img|
            && Represents(Write(img, at, U64Bytes(v)), chains[b := Rebind(chains[b], i, v)])
  {
    hide U64Bytes, Write, Geometry, Headed, HoldsHead, HoldsEntry;
    var was, e := chains[b], chains[b][i];
    OwnedWrite(img, chains, b, i, e.at, U64Bytes(v));
    var img', c := Write(img, e.at, U64Bytes(v)), Rebind(was, i, v);
    GeometryRebind(|chains|, |img|, chains, b, i, v);
    assert Linked(img, was) && Link(img, was, i);
    RebindEntry(img, e, Pointer(was, i + 1), v);
    forall j | 0 <= j < |c|
      ensures Link(img', c, j)
    {
      assert j != i ==> Link(img', was, j);
      assert Pointer(c, j + 1) == Pointer(was, j + 1);
    }
    assert Pointer(c, 0) == Pointer(was, 0);
    Reassemble(img', chains, b, c);
  }

  lemma RebindEntry(img: Bytes, e: Entry, next: nat, v: nat)
    requires HoldsEntry(img, e, next)
    ensures HoldsEntry(Write(img, e.at, U64Bytes(v)), e.(offset := v), next)
  {
    hide U64Bytes, StringBytes, Write;
    var img' := Write(img, e.at, U64Bytes(v));
    WriteThere(img, e.at, U64Bytes(v));
    WriteKeeps(img, e.at, U64Bytes(v), e.at + 8, End(e));
    assert img'[e.at..End(e)] == img'[e.at..e.at + 8] + img'[e.at + 8..End(e)];
    assert img[e.at + 8..End(e)] == img[e.at..End(e)][8..] == U64Bytes(next) + StringBytes(e.key);
    Associative(U64Bytes(v), U64Bytes(next), StringBytes(e.key));
  }

  lemma RelinkEntry(img: Bytes, e: Entry, next: nat, next': nat)
    requires HoldsEntry(img, e, next)
    ensures HoldsEntry(Write(img, e.at + 8, U64Bytes(next')), e, next')
  {
    hide U64Bytes, StringBytes, Write;
    var img' := Write(img, e.at + 8, U64Bytes(next'));
    WriteThere(img, e.at + 8, U64Bytes(next'));
    WriteKeeps(img, e.at + 8, U64Bytes(next'), e.at, e.at + 8);
    WriteKeeps(img, e.at + 8, U64Bytes(next'), e.at + 16, End(e));
    var s := img[e.at..End(e)];
    assert img[e.at..e.at + 8] == s[..8] == U64Bytes(e.offset);
    assert img[e.at + 16..End(e)] == s[16..] == StringBytes(e.key);
    assert img'[e.at..End(e)] == img'[e.at..e.at + 8] + img'[e.at + 8..e.at + 16] + img'[e.at + 16..End(e)];
  }

  lemma GrowChain(img: Bytes, b: nat, c: seq<Entry>, more: Bytes)
    requires HoldsChain(img, b, c)
    ensures HoldsChain(img + more, b, c)
  {
    hide U64Bytes, EntryBytes;
    var img' := img + more;
    assert img'[HeadAt(b)..HeadAt(b) + 8] == img[HeadAt(b)..HeadAt(b) + 8];
    forall j | 0 <= j < |c|
      ensures Link(img', c, j)
    {
      assert Link(img, c, j);
      assert img'[c[j].at..End(c[j])] == img[c[j].at..End(c[j])];
    }
  }

  /** Bytes after the end of the file, such as an entry not yet linked or cut short, change nothing. */
  lemma GrowStep(img: Bytes, chains: Chains, more: Bytes)
    requires Represents(img, chains) && |img| + |more| <= MAX_U64
    ensures Represents(img + more, chains) && SameHeader(img, img + more)
  {
    hide HeaderPrefix, HoldsHead, Linked, Ordered, Apart, Bucket;
    var img' := img + more;
    assert img'[..CHECKPOINT_AT] == img[..CHECKPOINT_AT];
    forall d, j | 0 <= d < |chains| && 0 <= j < |chains[d]|
      ensures Placed(|chains|, |img'|, d, chains[d][j])
    {
      assert Placed(|chains|, |img|, d, chains[d][j]);
    }
    forall d | 0 <= d < |chains|
      ensures HoldsHead(img', d, Pointer(chains[d], 0)) && Linked(img', chains[d])
    {
      assert HoldsChain(img, d, chains[d]);
      GrowChain(img, d, chains[d], more);
    }
  }

  /** The chain of the bucket after its new head `e` is in place and pointed at. */
  lemma PrependChain(grown: Bytes, img': Bytes, b: nat, was: seq<Entry>, e: Entry)
    requires End(e) <= |grown| && grown[e.at..End(e)] == EntryBytes(e.offset, Pointer(was, 0), e.key)
    requires HeadAt(b) + 8 <= e.at && img' == Write(grown, HeadAt(b), U64Bytes(e.at))
    requires forall j | 0 <= j < |was| :: Link(img', was, j)
    ensures HoldsChain(img', b, [e] + was)
  {
    hide U64Bytes, EntryBytes, Write, HoldsHead;
    var c := [e] + was;
    WriteKeeps(grown, HeadAt(b), U64Bytes(e.at), e.at, End(e));
    WrittenHead(grown, b, e.at);
    assert HoldsEntry(img', e, Pointer(was, 0));
    forall j | 0 <= j < |c|
      ensures Link(img', c, j)
    {
      assert Pointer(c, j + 1) == Pointer(was, j);
      if j > 0 {
        assert Link(img', was, j - 1);
      }
    }
  }

  /** Pointing the bucket at an entry that was appended in full. */
  lemma PrependStep(img: Bytes, chains: Chains, b: nat, e: Entry)
    requires Represents(img, chains) && b < |chains| && e.at == |img|
    requires |e.key| <= MAX_KEY_SIZE && e.offset <= MAX_U64 && End(e) <= MAX_U64
    requires Bucket(e.key, |chains|) == b && Position(chains[b], e.key) == |chains[b]|
    ensures var grown := img + EntryBytes(e.offset, Pointer(chains[b], 0), e.key);
            && Represents(grown, chains)
            && SameHeader(img, Write(grown, HeadAt(b), U64Bytes(e.at)))
            && |Write(grown, HeadAt(b), U64Bytes(e.at))| == End(e)
            && Represents(Write(grown, HeadAt(b), U64Bytes(e.at)), chains[b := [e] + chains[b]])
  {
    hide U64Bytes, Write, Geometry, Headed, HoldsHead, Link, EntryBytes, Bucket, SameHeader;
    var n, was := |chains|, chains[b];
    var bytes := EntryBytes(e.offset, Pointer(was, 0), e.key);
    var grown := img + bytes;
    GrowStep(img, chains, bytes);
    OwnedWrite(grown, chains, b, |was|, HeadAt(b), U64Bytes(e.at));
    var img', c := Write(grown, HeadAt(b), U64Bytes(e.at)), [e] + was;
    SameHeaderTransitive(img, grown, img');
    HeadedEnd(img, n);
    assert Placed(n, End(e), b, e);
    GeometryPrepend(n, |img|, chains, b, e);
    assert grown[e.at..End(e)] == bytes;
    PrependChain(grown, img', b, was, e);
    Reassemble(img', chains, b, c);
  }

  lemma SameHeaderTransitive(a: Bytes, b: Bytes, c: Bytes)
    requires SameHeader(a, b) && SameHeader(b, c)
    ensures SameHeader(a, c)
  {
  }

  lemma HeadedEnd(img: Bytes, n: nat)
    requires Headed(img, n)
    ensures 0 < n && INDEX_HEADER_SIZE < TableEnd(n) <= |img|
  {
  }

  lemma WrittenHead(img: Bytes, b: nat, head: nat)
    requires HeadAt(b) + 8 <= |img|
    ensures HoldsHead(Write(img, HeadAt(b), U64Bytes(head)), b, head)
  {
    hide U64Bytes, Write;
    WriteThere(img, HeadAt(b), U64Bytes(head));
  }

  /** Where `Index::erase` writes the successor of entry `i`: its predecessor, or the bucket head. */
  function LinkAt(c: seq<Entry>, b: nat, i: nat): nat
    requires i < |c|
  {
    if i > 0 then c[i - 1].at + 8 else HeadAt(b)
  }

  /** Bypassing an entry at the head, in the middle or at the tail of its chain. */
  lemma UnlinkStep(img: Bytes, chains: Chains, b: nat, i: nat)
    requires Represents(img, chains) && b < |chains| && i < |chains[b]|
    ensures var c := chains[b];
            var img' := Write(img, LinkAt(c, b, i), U64Bytes(Pointer(c, i + 1)));
            && LinkAt(c, b, i) + 8 <= |img| == |img'|
            && SameHeader(img, img')
            && Represents(img', chains[b := Remove(c, i)])
  {
    hide U64Bytes, Write, Geometry, Headed, HoldsHead, EntryBytes, HoldsEntry;
    var was := chains[b];
    var at, next := LinkAt(was, b, i), Pointer(was, i + 1);
    var owner := if i > 0 then i - 1 else |was|;
    OwnedWrite(img, chains, b, owner, at, U64Bytes(next));
    var img', c := Write(img, at, U64Bytes(next)), Remove(was, i);
    GeometryRemove(|chains|, |img|, chains, b, i);
    if i > 0 {
      assert Linked(img, was) && Link(img, was, i - 1);
      RelinkEntry(img, was[i - 1], Pointer(was, i), next);
    } else {
      WrittenHead(img, b, next);
    }
    assert forall j | 0 <= j < |c| :: c[j] == was[if j < i then j else j + 1];
    forall j | 0 <= j < |c|
      ensures Link(img', c, j)
    {
      if j + 1 < i {
        assert Link(img', was, j);
      } else if j + 1 > i {
        assert Link(img', was, j + 1);
      }
    }
    assert Pointer(c, 0) == if i == 0 then next else Pointer(was, 0);
    Reassemble(img', chains, b, c);
  }
}
