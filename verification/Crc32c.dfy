/**
 * CRC32C (section 12.1 of RFC 3720): the reflected polynomial 0x82F63B78, with the register
 * complemented before and after. The vendored library computes this function from tables; here it
 * is the bit-serial division itself. A register is its 32 coefficients, least significant bit first,
 * which is also the order in which the bits of a byte enter it.
 */
module Crc32c {
  import opened Codec
  import opened BinaryDigits

  const POLYNOMIAL: nat := 0x82F6_3B78

  /** One division step: the bit leaving the register, added to the one entering, selects the taps. */
  function Divide(taps: Bits, r: Bits, bit: bool): (r': Bits)
    requires |taps| == |r| == 32
    ensures |r'| == 32
  {
    seq(32, i requires 0 <= i < 32 => (i < 31 && r[i + 1]) != (r[0] != bit && taps[i]))
  }

  function Feed(r: Bits, bit: bool): (r': Bits)
    requires |r| == 32
    ensures |r'| == 32
  {
    Divide(BitsOf(POLYNOMIAL, 32), r, bit)
  }

  function FeedAll(r: Bits, s: Bits): (r': Bits)
    requires |r| == 32
    ensures |r'| == 32
    decreases |s|
  {
    if s == [] then r else FeedAll(Feed(r, s[0]), s[1..])
  }

  /** The bits of a byte string in the order in which the register takes them. */
  function BitStream(s: Bytes): (r: Bits)
    ensures |r| == 8 * |s|
    decreases |s|
  {
    if s == [] then [] else BitsOf(s[0], 8) + BitStream(s[1..])
  }

  function Complement(r: Bits): (r': Bits)
    ensures |r'| == |r|
  {
    seq(|r|, i requires 0 <= i < |r| => !r[i])
  }

  /** The register after the bytes `s`, when `checksum` is that of what came before. */
  function Register(checksum: nat, s: Bytes): (r: Bits)
    ensures |r| == 32
  {
    FeedAll(Complement(BitsOf(checksum, 32)), BitStream(s))
  }

  /** `crc32c::Extend`: the checksum of a longer string from that of its prefix. */
  function Extend(checksum: nat, s: Bytes): nat
  {
    Number(Complement(Register(checksum, s)))
  }

  /** The checksum of a whole byte string. */
  function Crc(s: Bytes): nat
  {
    Extend(0, s)
  }

  // ---- streams of bits ----

  lemma ByteBitsInjective(a: byte, b: byte)
    requires BitsOf(a, 8) == BitsOf(b, 8)
    ensures a == b
  {
    hide Pow2, BitsOf;
    PowersOf2();
    NumberOfBits(a, 8);
    NumberOfBits(b, 8);
  }

  lemma {:induction false} BitStreamInjective(s: Bytes, t: Bytes)
    requires |s| == |t| && BitStream(s) == BitStream(t)
    ensures s == t
    decreases |s|
  {
    if s != [] {
      assert BitsOf(s[0], 8) == BitStream(s)[..8] == BitStream(t)[..8] == BitsOf(t[0], 8);
      assert BitStream(s[1..]) == BitStream(s)[8..] == BitStream(t)[8..] == BitStream(t[1..]);
      ByteBitsInjective(s[0], t[0]);
      BitStreamInjective(s[1..], t[1..]);
    }
  }

  lemma {:induction false} BitStreamConcat(s: Bytes, t: Bytes)
    ensures BitStream(s + t) == BitStream(s) + BitStream(t)
    decreases |s|
  {
    hide BitsOf;
    if s == [] {
      assert s + t == t;
    } else {
      BitStreamConcat(s[1..], t);
      assert (s + t)[0] == s[0] && (s + t)[1..] == s[1..] + t;
      Associative(BitsOf(s[0], 8), BitStream(s[1..]), BitStream(t));
    }
  }

  lemma {:induction false} FeedAllConcat(r: Bits, s: Bits, t: Bits)
    requires |r| == 32
    ensures FeedAll(r, s + t) == FeedAll(FeedAll(r, s), t)
    decreases |s|
  {
    hide Feed;
    if s == [] {
      assert s + t == t;
    } else {
      FeedAllConcat(Feed(r, s[0]), s[1..], t);
      assert (s + t)[1..] == s[1..] + t;
    }
  }

  /** Extending piece by piece is extending by the concatenation. */
  lemma ExtendConcat(c: nat, s: Bytes, t: Bytes)
    ensures Extend(Extend(c, s), t) == Extend(c, s + t)
  {
    hide FeedAll, BitStream, BitsOf;
    var r := Register(c, s);
    BitsOfNumber(Complement(r));
    assert Complement(Complement(r)) == r;
    BitStreamConcat(s, t);
    FeedAllConcat(Complement(BitsOf(c, 32)), BitStream(s), BitStream(t));
  }

  lemma CrcIsU32(s: Bytes)
    ensures Crc(s) <= MAX_U32
  {
    hide Pow2, BitsOf, Register, Complement;
    BitsOfNumber(Complement(Register(0, s)));
    PowersOf2();
  }

  // ---- why a burst of at most 32 bits is always noticed ----

  /** Register plus input is the same for (`a`, `u`) as for (`b`, `v`), position by position. */
  predicate SameSum(a: Bits, u: Bits, b: Bits, v: Bits)
    requires |a| == |b| == 32 && |u| == |v| <= 32
  {
    && (forall i | 0 <= i < |u| :: (a[i] != u[i]) == (b[i] != v[i]))
    && (forall i | |u| <= i < 32 :: a[i] == b[i])
  }

  /** The polynomial's top coefficient, which makes every step invertible. */
  lemma TopTap()
    ensures BitsOf(POLYNOMIAL, 32)[31]
  {
    hide BitsOf;
    TwoLowBits(8, 2);
    TwoLowBits(2, 0);
    assert BitsOf(8, 4)[3];
    LowByteBits(0x82_F63B, 0x78, 24);
    LowByteBits(0x82F6, 0x3B, 16);
    LowByteBits(0x82, 0xF6, 8);
    LowNibbleBits(8, 2, 4);
  }

  /** One step shows the sum of the first bits and keeps the others comparable. */
  lemma DivideSameSum(taps: Bits, a: Bits, u: Bits, b: Bits, v: Bits)
    requires |taps| == |a| == |b| == 32 && taps[31]
    requires 0 < |u| == |v| <= 32
    ensures SameSum(a, u, b, v)
       <==> SameSum(Divide(taps, a, u[0]), u[1..], Divide(taps, b, v[0]), v[1..])
  {
    var a', b' := Divide(taps, a, u[0]), Divide(taps, b, v[0]);
    assert a'[31] == (a[0] != u[0]) && b'[31] == (b[0] != v[0]);
    if SameSum(a', u[1..], b', v[1..]) {
      assert a'[31] == b'[31];
      forall i | 1 <= i < 32
        ensures if i < |u| then (a[i] != u[i]) == (b[i] != v[i]) else a[i] == b[i]
      {
        assert a'[i - 1] == (a[i] != (a[0] != u[0] && taps[i - 1]));
        assert b'[i - 1] == (b[i] != (b[0] != v[0] && taps[i - 1]));
        assert i < |u| ==> u[1..][i - 1] == u[i] && v[1..][i - 1] == v[i];
      }
    }
  }

  /** Up to 32 input bits act on the register only through their sum with it, and injectively so. */
  lemma {:induction false} FeedAllSameSum(a: Bits, u: Bits, b: Bits, v: Bits)
    requires |a| == |b| == 32 && |u| == |v| <= 32
    ensures FeedAll(a, u) == FeedAll(b, v) <==> SameSum(a, u, b, v)
    decreases |u|
  {
    if u != [] {
      TopTap();
      DivideSameSum(BitsOf(POLYNOMIAL, 32), a, u, b, v);
      FeedAllSameSum(Feed(a, u[0]), u[1..], Feed(b, v[0]), v[1..]);
    }
  }

  lemma FeedInjective(a: Bits, b: Bits, bit: bool)
    requires |a| == |b| == 32 && Feed(a, bit) == Feed(b, bit)
    ensures a == b
  {
    hide Feed;
    FeedAllSameSum(a, [bit], b, [bit]);
    assert FeedAll(a, [bit]) == FeedAll(Feed(a, bit), []) && FeedAll(b, [bit]) == FeedAll(Feed(b, bit), []);
    assert a[0] == b[0];
  }

  /** From one register, two inputs of at most 32 bits that lead to the same register are equal. */
  lemma WindowInjective(r: Bits, u: Bits, v: Bits)
    requires |r| == 32 && |u| == |v| <= 32 && FeedAll(r, u) == FeedAll(r, v)
    ensures u == v
  {
    hide FeedAll;
    FeedAllSameSum(r, u, r, v);
    assert forall i | 0 <= i < |u| :: (r[i] != u[i]) == (r[i] != v[i]);
  }

  /** Further equal input keeps two different registers different. */
  lemma {:induction false} FeedAllInjective(a: Bits, b: Bits, s: Bits)
    requires |a| == |b| == 32 && FeedAll(a, s) == FeedAll(b, s)
    ensures a == b
    decreases |s|
  {
    hide Feed, SameSum;
    if s != [] {
      FeedAllInjective(Feed(a, s[0]), Feed(b, s[0]), s[1..]);
      FeedInjective(a, b, s[0]);
    }
  }

  /** The register after a whole string. */
  function Seal(s: Bytes): (r: Bits)
    ensures |r| == 32
  {
    Register(0, s)
  }

  function Constant(bit: bool): (s: Bits)
    ensures |s| == 32
  {
    seq(32, _ => bit)
  }

  /** What the register holds after any string followed by that string's checksum. */
  function Residue(): Bits
  {
    FeedAll(Constant(false), Constant(true))
  }

  lemma {:induction false} BitStreamOfLe(n: nat, w: nat)
    ensures BitStream(Le(n, w)) == BitsOf(n, 8 * w)
    decreases w
  {
    hide BitsOf;
    if w > 0 {
      BitStreamOfLe(n / 256, w - 1);
      LowByteBits(n / 256, n % 256, 8 * w - 8);
      assert Le(n, w)[1..] == Le(n / 256, w - 1);
    }
  }

  lemma SealedResidue(s: Bytes)
    ensures Seal(s + U32Bytes(Crc(s))) == Residue()
  {
    hide FeedAll, BitStream, BitsOf, SameSum, Le, Constant;
    var r := Seal(s);
    var c := Complement(r);
    BitStreamConcat(s, U32Bytes(Crc(s)));
    FeedAllConcat(Complement(BitsOf(0, 32)), BitStream(s), BitStream(U32Bytes(Crc(s))));
    BitStreamOfLe(Crc(s), 4);
    BitsOfNumber(c);
    SumOfComplement(r);
    FeedAllSameSum(r, c, Constant(false), Constant(true));
  }

  lemma SumOfComplement(r: Bits)
    requires |r| == 32
    ensures SameSum(r, Complement(r), Constant(false), Constant(true))
  {
  }

  /** Two strings that differ only inside one window of four bytes leave different registers. */
  lemma WindowChangesSeal(s: Bytes, t: Bytes, i: nat)
    requires |s| == |t| && i + 4 <= |s|
    requires s[..i] == t[..i] && s[i + 4..] == t[i + 4..]
    requires Seal(s) == Seal(t)
    ensures s == t
  {
    hide FeedAll, BitStream, Complement, BitsOf;
    var before, after := s[..i], s[i + 4..];
    var v, w := s[i..i + 4], t[i..i + 4];
    assert s == before + v + after && t == before + w + after;
    var start, r := Complement(BitsOf(0, 32)), Seal(before);
    BitStreamConcat(before + v, after);
    BitStreamConcat(before + w, after);
    BitStreamConcat(before, v);
    BitStreamConcat(before, w);
    FeedAllConcat(start, BitStream(before + v), BitStream(after));
    FeedAllConcat(start, BitStream(before + w), BitStream(after));
    FeedAllConcat(start, BitStream(before), BitStream(v));
    FeedAllConcat(start, BitStream(before), BitStream(w));
    FeedAllInjective(FeedAll(r, BitStream(v)), FeedAll(r, BitStream(w)), BitStream(after));
    WindowInjective(r, BitStream(v), BitStream(w));
    BitStreamInjective(v, w);
  }
}
