/**
 * The on-disk hash index of src/index.cpp as bytes: a 41-byte header, a table of bucket heads, and
 * entries [db_offset:u64][next_entry:u64][key_length:u32][key] chained by absolute file offsets, with
 * zero for the end of a chain. This module says what a well-formed image is and what it means.
 */
module IndexImage {
  import opened Codec
  import opened BinaryDigits
  import opened Records

  const INDEX_MAGIC: Bytes := [0x5A, 0x49, 0x44, 0x41, 0x4E, 0x45, 0x44, 0x42,
                               0x49, 0x4E, 0x44, 0x45, 0x58, 0x30, 0x32, 0x36]
  const INDEX_VERSION: nat := 1

  const INDEX_HEADER_SIZE: nat := 41
  const BUCKET_COUNT_AT: nat := 24
  const CHECKPOINT_AT: nat := 32
  const CLEAN_AT: nat := 40

  const FNV_OFFSET: nat := 14695981039346656037
  const FNV_PRIME: nat := 1099511628211

  /** Bytes are taken one by one: exclusive or first, then the multiplication, modulo 2^64. */
  function FnvFold(hash: nat, key: Bytes): nat
    decreases |key|
  {
    if key == [] then hash else FnvFold(Xor(hash, key[0]) * FNV_PRIME % (MAX_U64 + 1), key[1..])
  }

  /** The 64-bit FNV-1a hash of a key. */
  function Hash(key: Bytes): nat
  {
    FnvFold(FNV_OFFSET, key)
  }

  /** `fnv1a`. */
  method Fnv1a(key: Bytes) returns (hash: nat)
    ensures hash == Hash(key)
  {
    hide Xor;
    hash := FNV_OFFSET;
    for i := 0 to |key|
      invariant FnvFold(hash, key[i..]) == Hash(key)
    {
      assert key[i..][1..] == key[i + 1..];
      hash := Xor(hash, key[i]);
      hash := hash * FNV_PRIME % (MAX_U64 + 1);
    }
  }

  lemma {:induction false} FnvFoldSnoc(hash: nat, key: Bytes, c: byte)
    ensures FnvFold(hash, key + [c]) == Xor(FnvFold(hash, key), c) * FNV_PRIME % (MAX_U64 + 1)
    decreases |key|
  {
    hide Xor;
    if key == [] {
      assert [] + [c] == [c];
      assert FnvFold(Xor(hash, c) * FNV_PRIME % (MAX_U64 + 1), []) == Xor(hash, c) * FNV_PRIME % (MAX_U64 + 1);
    } else {
      assert (key + [c])[0] == key[0] && (key + [c])[1..] == key[1..] + [c];
      FnvFoldSnoc(Xor(hash, key[0]) * FNV_PRIME % (MAX_U64 + 1), key[1..], c);
    }
  }

  /**
   * What makes the hash FNV-1a: it starts from the offset basis, and one more byte is first added bit by
   * bit, without carry, and the sum `x` then multiplied by the prime modulo 2^64.
   */
  lemma HashIsFnv1a(key: Bytes, c: byte) returns (x: nat)
    ensures Hash([]) == 0xCBF2_9CE4_8422_2325
    ensures forall i: nat :: Bit(x, i) == (Bit(Hash(key), i) != Bit(c, i))
    ensures Hash(key + [c]) == x * 1_099_511_628_211 % 0x1_0000_0000_0000_0000
  {
    hide Xor, FnvFold;
    assert Hash([]) == FNV_OFFSET by { FnvFoldNothing(FNV_OFFSET); }
    x := Xor(Hash(key), c);
    FnvFoldSnoc(FNV_OFFSET, key, c);
    forall i: nat
      ensures Bit(x, i) == (Bit(Hash(key), i) != Bit(c, i))
    {
      XorBits(Hash(key), c, i);
    }
  }

  lemma FnvFoldNothing(hash: nat)
    ensures FnvFold(hash, []) == hash
  {
  }

  /** The bucket of a key. */
  function Bucket(key: Key, n: nat): (b: nat)
    requires n > 0
    ensures b < n
  {
    Hash(key) % n
  }

  // ---- layout ----

  function TableEnd(n: nat): nat
  {
    INDEX_HEADER_SIZE + 8 * n
  }

  function HeadAt(b: nat): nat
  {
    INDEX_HEADER_SIZE + 8 * b
  }

  /** The 64-bit number stored at `p`. */
  function U64At(img: Bytes, p: nat): nat
  {
    if p + 8 <= |img| then De(img[p..p + 8]) else 0
  }

  function U32At(img: Bytes, p: nat): nat
  {
    if p + 4 <= |img| then De(img[p..p + 4]) else 0
  }

  /** The header up to and including the bucket count. */
  function HeaderPrefix(n: nat): (s: Bytes)
    ensures |s| == CHECKPOINT_AT
  {
    StringBytes(INDEX_MAGIC) + U32Bytes(INDEX_VERSION) + U64Bytes(n)
  }

  /** A header of `n` buckets that `Index::load` accepts, with room for the table after it. */
  predicate Headed(img: Bytes, n: nat)
  {
    && 0 < n <= MAX_U64 && TableEnd(n) <= |img|
    && img[..CHECKPOINT_AT] == HeaderPrefix(n)
    && img[CLEAN_AT] <= 1
  }

  function BucketCount(img: Bytes): nat
  {
    U64At(img, BUCKET_COUNT_AT)
  }

  /** `Index::load` accepts the image. */
  predicate Loads(img: Bytes)
  {
    Headed(img, BucketCount(img))
  }

  function Checkpoint(img: Bytes): nat
  {
    U64At(img, CHECKPOINT_AT)
  }

  predicate Clean(img: Bytes)
  {
    |img| > CLEAN_AT && img[CLEAN_AT] == 1
  }

  /** An entry: where it is, the log offset it stores, and its key. */
  datatype Entry = Entry(at: nat, offset: nat, key: Key)

  type Chains = seq<seq<Entry>>

  function End(e: Entry): nat
  {
    e.at + 20 + |e.key|
  }

  function EntryBytes(offset: nat, next: nat, key: Key): (s: Bytes)
    ensures |s| == 20 + |key|
  {
    U64Bytes(offset) + U64Bytes(next) + StringBytes(key)
  }

  predicate HoldsEntry(img: Bytes, e: Entry, next: nat)
  {
    End(e) <= |img| && img[e.at..End(e)] == EntryBytes(e.offset, next, e.key)
  }

  /** Where the chain that starts at position `i` of `c` is found: the value of the pointer to it. */
  function Pointer(c: seq<Entry>, i: nat): nat
  {
    if i < |c| then c[i].at else 0
  }

  /** Entry `i` of the chain is in the file and points at the entry after it. */
  predicate Link(img: Bytes, c: seq<Entry>, i: nat)
    requires i < |c|
  {
    HoldsEntry(img, c[i], Pointer(c, i + 1))
  }

  predicate Linked(img: Bytes, c: seq<Entry>)
  {
    forall i | 0 <= i < |c| :: Link(img, c, i)
  }

  predicate HoldsHead(img: Bytes, b: nat, head: nat)
  {
    HeadAt(b) + 8 <= |img| && img[HeadAt(b)..HeadAt(b) + 8] == U64Bytes(head)
  }

  /** An entry of bucket `b` lies after the table and inside the file. */
  predicate Placed(n: nat, size: nat, b: nat, e: Entry)
    requires n > 0
  {
    && TableEnd(n) <= e.at && End(e) <= size <= MAX_U64
    && |e.key| <= MAX_KEY_SIZE && e.offset <= MAX_U64 && Bucket(e.key, n) == b
  }

  /** Along a chain the entries lie ever further down the file, and no key occurs twice. */
  predicate Ordered(c: seq<Entry>)
  {
    forall i, j | 0 <= i < j < |c| :: End(c[j]) <= c[i].at && c[i].key != c[j].key
  }

  predicate Separate(d: Entry, e: Entry)
  {
    End(d) <= e.at || End(e) <= d.at
  }

  predicate Apart(c: seq<Entry>, d: seq<Entry>)
  {
    forall i, j | 0 <= i < |c| && 0 <= j < |d| :: Separate(c[i], d[j])
  }

  predicate Geometry(n: nat, size: nat, chains: Chains)
  {
    && 0 < n == |chains|
    && (forall b, i | 0 <= b < n && 0 <= i < |chains[b]| :: Placed(n, size, b, chains[b][i]))
    && (forall b | 0 <= b < n :: Ordered(chains[b]))
    && (forall b, d | 0 <= b < n && 0 <= d < n && b != d :: Apart(chains[b], chains[d]))
  }

  /** The image stores exactly the chains `chains`. Bytes outside them may be anything. */
  predicate Represents(img: Bytes, chains: Chains)
  {
    && Headed(img, |chains|)
    && Geometry(|chains|, |img|, chains)
    && (forall b | 0 <= b < |chains| :: HoldsHead(img, b, Pointer(chains[b], 0)))
    && (forall b | 0 <= b < |chains| :: Linked(img, chains[b]))
  }

  /** Follow the pointers from `at`; an offset that does not go down ends the walk. */
  function Walk(img: Bytes, at: nat): seq<Entry>
    decreases at
  {
    var length := U32At(img, at + 16);
    if at == 0 || at + 20 + length > |img| then []
    else
      var next := U64At(img, at + 8);
      [Entry(at, U64At(img, at), img[at + 20..at + 20 + length])]
      + (if next < at then Walk(img, next) else [])
  }

  function ChainAt(img: Bytes, b: nat): seq<Entry>
  {
    Walk(img, U64At(img, HeadAt(b)))
  }

  /** The chains an image stores. */
  function ChainsOf(img: Bytes): Chains
  {
    seq(BucketCount(img), b requires 0 <= b => ChainAt(img, b))
  }

  predicate WellFormed(img: Bytes)
  {
    Represents(img, ChainsOf(img))
  }

  lemma EntryFields(v: nat, next: nat, key: Key)
    ensures var bytes := EntryBytes(v, next, key);
            && bytes[0..8] == U64Bytes(v) && bytes[8..16] == U64Bytes(next)
            && bytes[16..20] == U32Bytes(|key|) && bytes[20..|bytes|] == key
  {
    hide U64Bytes, U32Bytes;
  }

  lemma EntryRead(img: Bytes, e: Entry, next: nat)
    requires HoldsEntry(img, e, next)
    requires e.offset <= MAX_U64 && next <= MAX_U64 && |e.key| <= MAX_KEY_SIZE
    ensures U64At(img, e.at) == e.offset && U64At(img, e.at + 8) == next
    ensures U32At(img, e.at + 16) == |e.key| && img[e.at + 20..End(e)] == e.key
  {
    hide Le, De, U64Bytes, U32Bytes, EntryBytes;
    var s := img[e.at..End(e)];
    EntryFields(e.offset, next, e.key);
    SliceOfSlice(img, e.at, End(e), 0, 8);
    SliceOfSlice(img, e.at, End(e), 8, 16);
    SliceOfSlice(img, e.at, End(e), 16, 20);
    SliceOfSlice(img, e.at, End(e), 20, |s|);
    U64RoundTrip(e.offset);
    U64RoundTrip(next);
    U32RoundTrip(|e.key|);
  }

  lemma WalkOne(img: Bytes, e: Entry, next: nat)
    requires HoldsEntry(img, e, next) && 0 < e.at && next < e.at
    requires e.offset <= MAX_U64 && next <= MAX_U64 && |e.key| <= MAX_KEY_SIZE
    ensures Walk(img, e.at) == [e] + Walk(img, next)
  {
    hide EntryBytes, U64At, U32At;
    EntryRead(img, e, next);
  }

  lemma TailOfChain(img: Bytes, c: seq<Entry>)
    requires c != [] && Linked(img, c) && Ordered(c)
    ensures Linked(img, c[1..]) && Ordered(c[1..])
    ensures Pointer(c[1..], 0) == Pointer(c, 1) && (|c| > 1 ==> Pointer(c, 1) < c[0].at)
  {
    hide HoldsEntry;
    var rest := c[1..];
    forall i | 0 <= i < |rest|
      ensures Link(img, rest, i)
    {
      assert Link(img, c, i + 1);
    }
    forall i, j | 0 <= i < j < |rest|
      ensures End(rest[j]) <= rest[i].at && rest[i].key != rest[j].key
    {
      assert End(c[j + 1]) <= c[i + 1].at && c[i + 1].key != c[j + 1].key;
    }
  }

  /** Walking the bytes recovers the chain they were laid out for. */
  lemma {:induction false} WalkLinked(img: Bytes, c: seq<Entry>, n: nat, b: nat)
    requires n > 0 && Linked(img, c) && Ordered(c)
    requires forall i | 0 <= i < |c| :: Placed(n, |img|, b, c[i])
    ensures Walk(img, Pointer(c, 0)) == c
    decreases |c|
  {
    hide HoldsEntry, Ordered, Bucket, U64At, U32At;
    if c == [] {
      assert Walk(img, 0) == [];
    } else {
      hide Walk;
      TailOfChain(img, c);
      WalkLinked(img, c[1..], n, b);
      assert Link(img, c, 0);
      assert Placed(n, |img|, b, c[0]) && (|c| > 1 ==> Placed(n, |img|, b, c[1]));
      WalkOne(img, c[0], Pointer(c, 1));
      assert c == [c[0]] + c[1..];
    }
  }

  lemma HeaderRead(img: Bytes, n: nat)
    requires Headed(img, n)
    ensures BucketCount(img) == n && Loads(img)
  {
    hide Le, De, U64Bytes, U32Bytes;
    assert img[24..32] == img[..32][24..32] == U64Bytes(n);
    U64RoundTrip(n);
  }

  lemma HeadRead(img: Bytes, b: nat, head: nat)
    requires HoldsHead(img, b, head) && head <= MAX_U64
    ensures U64At(img, HeadAt(b)) == head
  {
    U64RoundTrip(head);
  }

  /** The bytes determine the chains. */
  lemma RepresentsUnique(img: Bytes, chains: Chains)
    requires Represents(img, chains)
    ensures WellFormed(img) && ChainsOf(img) == chains
  {
    hide HoldsHead, Walk, Bucket, HeaderPrefix;
    HeaderRead(img, |chains|);
    forall b | 0 <= b < |chains|
      ensures ChainAt(img, b) == chains[b]
    {
      HeadRead(img, b, Pointer(chains[b], 0));
      WalkLinked(img, chains[b], |chains|, b);
    }
    assert ChainsOf(img) == chains;
  }

  // ---- meaning ----

  /** The first position of `key` in `c`, or its length. */
  function Position(c: seq<Entry>, key: Key): (i: nat)
    ensures i <= |c|
    ensures i < |c| ==> c[i].key == key
    ensures forall j | 0 <= j < i :: c[j].key != key
  {
    if c == [] || c[0].key == key then 0 else 1 + Position(c[1..], key)
  }

  lemma PositionIs(c: seq<Entry>, key: Key, i: nat)
    requires i <= |c| && (forall j | 0 <= j < i :: c[j].key != key)
    requires i < |c| ==> c[i].key == key
    ensures Position(c, key) == i
  {
  }

  function Keys(chains: Chains): set<Key>
  {
    set b, i | 0 <= b < |chains| && 0 <= i < |chains[b]| :: chains[b][i].key
  }

  /** The offset stored for each key. */
  function Bindings(chains: Chains): map<Key, nat>
    requires |chains| > 0
  {
    map k | k in Keys(chains) && Position(chains[Bucket(k, |chains|)], k) < |chains[Bucket(k, |chains|)]|
      :: chains[Bucket(k, |chains|)][Position(chains[Bucket(k, |chains|)], k)].offset
  }

  /** The map an image stands for. */
  function Contents(img: Bytes): map<Key, nat>
  {
    if BucketCount(img) == 0 then map[] else Bindings(ChainsOf(img))
  }

  lemma Bound(chains: Chains, k: Key)
    requires |chains| > 0
    ensures var c := chains[Bucket(k, |chains|)];
            var i := Position(c, k);
            && (k in Bindings(chains) <==> i < |c|)
            && (i < |c| ==> Bindings(chains)[k] == c[i].offset)
  {
    hide Bucket;
    var c := chains[Bucket(k, |chains|)];
    if Position(c, k) < |c| {
      assert c[Position(c, k)].key in Keys(chains);
    }
  }
}
