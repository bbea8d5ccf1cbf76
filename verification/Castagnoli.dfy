/**
 * What the bit-serial register computes: the remainder of a polynomial over the two-element field. A
 * polynomial is the set of the exponents that occur in it, and adding two of them cancels what both have.
 */
module Castagnoli {
  import opened Codec
  import opened BinaryDigits
  import opened Crc32c

  type Polynomial = set<nat>

  /** The polynomial of section 12.1 of RFC 3720, 0x11EDC6F41 in its notation. */
  const CASTAGNOLI: Polynomial := {32, 28, 27, 26, 25, 23, 22, 20, 19, 18, 14, 13, 11, 10, 9, 8, 6, 0}

  function Add(p: Polynomial, q: Polynomial): Polynomial
  {
    (p - q) + (q - p)
  }

  /** The product with x to the power `k`. */
  function TimesPower(p: Polynomial, k: nat): Polynomial
  {
    set e | e in p :: e + k
  }

  /** The product of the polynomial with coefficients `q`, lowest first, and Castagnoli's. */
  function Multiple(q: Bits): Polynomial
  {
    if q == [] then {}
    else Add(Multiple(q[..|q| - 1]), if q[|q| - 1] then TimesPower(CASTAGNOLI, |q| - 1) else {})
  }

  predicate Below(p: Polynomial, k: nat)
  {
    forall e | e in p :: e < k
  }

  /** A register or a stream of bits, highest coefficient first. */
  function Coefficients(s: Bits): Polynomial
  {
    set i | 0 <= i < |s| && s[i] :: |s| - 1 - i
  }

  // ---- the algebra that is needed ----

  lemma AddAssociative(p: Polynomial, q: Polynomial, r: Polynomial)
    ensures Add(Add(p, q), r) == Add(p, Add(q, r))
  {
  }

  lemma PowerOfSum(p: Polynomial, q: Polynomial, k: nat)
    ensures TimesPower(Add(p, q), k) == Add(TimesPower(p, k), TimesPower(q, k))
  {
    forall e
      ensures e in TimesPower(Add(p, q), k) <==> e in Add(TimesPower(p, k), TimesPower(q, k))
    {
      InPower(Add(p, q), k, e);
      InPower(p, k, e);
      InPower(q, k, e);
    }
  }

  lemma InPower(p: Polynomial, k: nat, e: nat)
    ensures e in TimesPower(p, k) <==> e >= k && e - k in p
  {
    if e >= k && e - k in p {
      assert e == (e - k) + k;
    }
  }

  lemma InCoefficients(s: Bits, e: nat)
    ensures e in Coefficients(s) <==> e < |s| && s[|s| - 1 - e]
  {
    if e < |s| && s[|s| - 1 - e] {
      assert e == |s| - 1 - (|s| - 1 - e);
    }
  }

  /** A non-zero multiple has an exponent of at least 32, so remainders are unique. */
  lemma {:induction false} MultipleIsLarge(q: Bits)
    ensures Below(Multiple(q), 32 + |q|)
    ensures Below(Multiple(q), 32) ==> Multiple(q) == {}
    decreases |q|
  {
    if q != [] {
      var init, k := q[..|q| - 1], |q| - 1;
      MultipleIsLarge(init);
      forall e: nat
        ensures e in TimesPower(CASTAGNOLI, k) ==> e < 32 + |q|
      {
        InPower(CASTAGNOLI, k, e);
      }
      if q[k] {
        InPower(CASTAGNOLI, k, 32 + k);
        assert 32 + k in Multiple(q);
      } else {
        assert Multiple(q) == Multiple(init);
      }
    }
  }

  // ---- the polynomial is the one given ----

  lemma TapsAre()
    ensures BitsOf(POLYNOMIAL, 32)
         == [false, false, false, true, true, true, true, false, true, true, false, true, true, true, false, false,
             false, true, true, false, true, true, true, true, false, true, false, false, false, false, false, true]
  {
    hide BitsOf;
    LowByteBits(0x82_F63B, 0x78, 24);
    LowByteBits(0x82F6, 0x3B, 16);
    LowByteBits(0x82, 0xF6, 8);
    LowNibbleBits(0x8, 0x2, 4);
    LowNibbleBits(0xF, 0x6, 4);
    LowNibbleBits(0x3, 0xB, 4);
    LowNibbleBits(0x7, 0x8, 4);
    NibbleBits(0x2);
    NibbleBits(0x3);
    NibbleBits(0x6);
    NibbleBits(0x7);
    NibbleBits(0x8);
    NibbleBits(0xB);
    NibbleBits(0xF);
  }

  /** The taps are the exponents below 32, the register's bit `i` standing for x to the power 31 - i. */
  lemma TapsAreCastagnoli()
    ensures Add(CASTAGNOLI, {32}) == Coefficients(BitsOf(POLYNOMIAL, 32))
  {
    hide BitsOf;
    TapsAre();
    var taps := BitsOf(POLYNOMIAL, 32);
    forall e: nat
      ensures e in Add(CASTAGNOLI, {32}) <==> e in Coefficients(taps)
    {
      InCoefficients(taps, e);
    }
  }

  // ---- division ----

  function Times(c: bool, p: Polynomial): Polynomial
  {
    if c then p else {}
  }

  lemma DivideIsTimesX(taps: Bits, p: Polynomial, r: Bits, bit: bool)
    requires |taps| == |r| == 32 && forall e: nat :: e in p <==> e == 32 || e in Coefficients(taps)
    ensures Add(TimesPower(Coefficients(r), 1), Times(bit, {32}))
         == Add(Coefficients(Divide(taps, r, bit)), Times(r[0] != bit, p))
  {
    var r' := Divide(taps, r, bit);
    forall e: nat
      ensures e in Add(TimesPower(Coefficients(r), 1), Times(bit, {32}))
         <==> e in Add(Coefficients(r'), Times(r[0] != bit, p))
    {
      InPower(Coefficients(r), 1, e);
      if e >= 1 {
        InCoefficients(r, e - 1);
      }
      InCoefficients(r', e);
      InCoefficients(taps, e);
    }
  }

  /** One step multiplies by x, adds the bit times x to the power 32, and subtracts the polynomial if need be. */
  lemma FeedIsTimesX(r: Bits, bit: bool)
    requires |r| == 32
    ensures Add(TimesPower(Coefficients(r), 1), Times(bit, {32}))
         == Add(Coefficients(Feed(r, bit)), Times(r[0] != bit, CASTAGNOLI))
  {
    hide BitsOf, Coefficients, Divide;
    TapsAreCastagnoli();
    var taps := BitsOf(POLYNOMIAL, 32);
    forall e: nat
      ensures e in CASTAGNOLI <==> e == 32 || e in Coefficients(taps)
    {
      InCoefficients(taps, e);
      assert e in Add(CASTAGNOLI, {32}) <==> e in Coefficients(taps);
    }
    DivideIsTimesX(taps, CASTAGNOLI, r, bit);
  }

  /** The register `r`, followed by the bits `s` and 32 more places. */
  function Dividend(r: Bits, s: Bits): Polynomial
  {
    Add(TimesPower(Coefficients(r), |s|), TimesPower(Coefficients(s), 32))
  }

  lemma InDividend(r: Bits, s: Bits, e: nat)
    ensures e in Dividend(r, s)
       <==> (e >= |s| && e - |s| in Coefficients(r)) != (e >= 32 && e - 32 in Coefficients(s))
  {
    hide Coefficients;
    InPower(Coefficients(r), |s|, e);
    InPower(Coefficients(s), 32, e);
  }

  lemma DividendStep(r: Bits, s: Bits)
    requires |r| == 32 && s != []
    ensures Dividend(r, s)
         == Add(Dividend(Feed(r, s[0]), s[1..]), TimesPower(Times(r[0] != s[0], CASTAGNOLI), |s| - 1))
  {
    hide Feed, Coefficients, Dividend, TimesPower;
    var r1, rest, n, c := Feed(r, s[0]), s[1..], |s| - 1, Times(r[0] != s[0], CASTAGNOLI);
    FeedIsTimesX(r, s[0]);
    var left, right := Add(TimesPower(Coefficients(r), 1), Times(s[0], {32})), Add(Coefficients(r1), c);
    forall e: nat
      ensures e in Dividend(r, s) <==> e in Add(Dividend(r1, rest), TimesPower(c, n))
    {
      InDividend(r, s, e);
      InDividend(r1, rest, e);
      InPower(c, n, e);
      if e >= 32 {
        InCoefficients(s, e - 32);
        InCoefficients(rest, e - 32);
      }
      if e >= n {
        InPower(Coefficients(r), 1, e - n);
        assert e - n in left <==> e - n in right;
      }
    }
  }

  /** Feeding bits to a register is division with remainder. */
  lemma {:induction false} FeedAllDivides(r: Bits, s: Bits) returns (q: Bits)
    requires |r| == 32
    ensures |q| == |s| && Dividend(r, s) == Add(Multiple(q), Coefficients(FeedAll(r, s)))
    decreases |s|
  {
    hide Feed, Coefficients;
    if s == [] {
      q := [];
      NothingFed(r);
    } else {
      q := FeedAllDivides(Feed(r, s[0]), s[1..]);
      DividendStep(r, s);
      var c := r[0] != s[0];
      var more := TimesPower(Times(c, CASTAGNOLI), |q|);
      assert Multiple(q + [c]) == Add(Multiple(q), more) by {
        assert (q + [c])[..|q|] == q;
        assert TimesPower({}, |q|) == {};
      }
      SumSwaps(Multiple(q), Coefficients(FeedAll(r, s)), more);
      q := q + [c];
    }
  }

  lemma SumSwaps(p: Polynomial, q: Polynomial, r: Polynomial)
    ensures Add(Add(p, q), r) == Add(Add(p, r), q)
  {
  }

  lemma NothingFed(r: Bits)
    requires |r| == 32
    ensures Dividend(r, []) == Add(Multiple([]), Coefficients(FeedAll(r, [])))
  {
    forall e: nat
      ensures e in Dividend(r, []) <==> e in Coefficients(r)
    {
      InPower(Coefficients(r), 0, e);
      InPower(Coefficients([]), 32, e);
    }
  }

  // ---- the checksum ----

  /** `r` is what is left of `p` after division. */
  ghost predicate Remainder(p: Polynomial, r: Polynomial)
  {
    Below(r, 32) && exists q: Bits :: p == Add(Multiple(q), r)
  }

  lemma {:induction false} SumOfMultiples(a: Bits, b: Bits) returns (q: Bits)
    ensures |q| == (if |a| < |b| then |b| else |a|) && Multiple(q) == Add(Multiple(a), Multiple(b))
    decreases |a| + |b|, |b|
  {
    if |a| < |b| {
      q := SumOfMultiples(b, a);
    } else if a == [] {
      q := [];
    } else {
      var k := |a| - 1;
      var same := |b| == |a|;
      var q0 := SumOfMultiples(a[..k], if same then b[..k] else b);
      q := q0 + [if same then a[k] != b[k] else a[k]];
      assert q[..k] == q0;
    }
  }

  /** There is only one remainder. */
  lemma RemainderUnique(p: Polynomial, a: Polynomial, b: Polynomial)
    requires Remainder(p, a) && Remainder(p, b)
    ensures a == b
  {
    hide Multiple;
    var u: Bits :| p == Add(Multiple(u), a);
    var v: Bits :| p == Add(Multiple(v), b);
    var q := SumOfMultiples(u, v);
    MultipleIsLarge(q);
    forall e
      ensures e in Multiple(q) <==> e in Add(a, b)
    {
      assert e in Add(Multiple(u), a) <==> e in Add(Multiple(v), b);
    }
    assert Below(Multiple(q), 32);
    assert Add(a, b) == {};
    assert forall e :: e in a && e !in b ==> e in Add(a, b);
    assert forall e :: e in b && e !in a ==> e in Add(a, b);
  }

  lemma BitStreamAt(s: Bytes, i: nat)
    requires i < |BitStream(s)|
    ensures BitStream(s)[i] == Bit(s[i / 8], i % 8)
  {
  }

  /** What is divided: 32 ones, then the string, its bytes in order and each lowest bit first, then 32 zeros. */
  function Message(s: Bytes): Polynomial
  {
    Add(TimesPower(Coefficients(Constant(true)), 8 * |s|), TimesPower(Coefficients(BitStream(s)), 32))
  }

  /**
   * The checksum of a string is the complemented remainder of its message, with the lowest bit of the
   * number as the highest coefficient; and it is a number of 32 bits.
   */
  lemma CrcIsRemainder(s: Bytes)
    ensures Remainder(Message(s), Coefficients(Complement(BitsOf(Crc(s), 32))))
    ensures Crc(s) <= MAX_U32
  {
    hide BitsOf, BitStream, FeedAll, Multiple;
    var start, r := Complement(BitsOf(0, 32)), Register(0, s);
    StartIsOnes();
    var q := FeedAllDivides(start, BitStream(s));
    BitsOfNumber(Complement(r));
    assert Complement(Complement(r)) == r;
    CrcIsU32(s);
    forall e | e in Coefficients(r)
      ensures e < 32
    {
      InCoefficients(r, e);
    }
  }

  lemma StartIsOnes()
    ensures Complement(BitsOf(0, 32)) == Constant(true)
  {
    forall i: nat
      ensures !Bit(0, i)
    {
      NoBit(i);
    }
  }
}
