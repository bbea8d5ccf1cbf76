/** Numbers as sequences of bits, least significant first. */
module BinaryDigits {
  import opened Codec

  type Bits = seq<bool>

  /** Bit `i` of `n`. */
  predicate Bit(n: nat, i: nat)
    decreases i
  {
    if i == 0 then n % 2 == 1 else Bit(n / 2, i - 1)
  }

  /** The `k` low-order bits of `n`, least significant first. */
  function BitsOf(n: nat, k: nat): (s: Bits)
    ensures |s| == k
  {
    seq(k, i requires 0 <= i < k => Bit(n, i))
  }

  lemma BitsStep(n: nat, k: nat)
    requires k > 0
    ensures BitsOf(n, k) == [n % 2 == 1] + BitsOf(n / 2, k - 1)
  {
  }

  function Number(s: Bits): nat
  {
    if s == [] then 0 else (if s[0] then 1 else 0) + 2 * Number(s[1..])
  }

  function Pow2(k: nat): nat
  {
    if k == 0 then 1 else 2 * Pow2(k - 1)
  }

  lemma FourDoublings(k: nat)
    ensures Pow2(k + 4) == 16 * Pow2(k)
  {
    assert Pow2(k + 4) == 2 * Pow2(k + 3) && Pow2(k + 2) == 2 * Pow2(k + 1);
  }

  lemma PowersOf2()
    ensures Pow2(8) == 256 && Pow2(31) == 0x8000_0000 && Pow2(32) == 0x1_0000_0000
  {
    hide Pow2;
    assert Pow2(0) == 1 by { PowZero(); }
    FourDoublings(0);
    FourDoublings(4);
    FourDoublings(8);
    FourDoublings(12);
    FourDoublings(16);
    FourDoublings(20);
    FourDoublings(24);
    FourDoublings(28);
    PowDouble(31);
  }

  lemma PowZero()
    ensures Pow2(0) == 1
  {
  }

  lemma PowDouble(k: nat)
    ensures Pow2(k + 1) == 2 * Pow2(k)
  {
  }

  lemma {:induction false} BitsOfNumber(s: Bits)
    ensures BitsOf(Number(s), |s|) == s
    ensures Number(s) < Pow2(|s|)
    decreases |s|
  {
    hide BitsOf;
    if s != [] {
      BitsOfNumber(s[1..]);
      var n, b := Number(s[1..]), if s[0] then 1 else 0;
      DoubledDigits(n, b);
      BitsStep(Number(s), |s|);
      assert s == [s[0]] + s[1..];
    }
  }

  lemma DoubledDigits(n: nat, b: nat)
    requires b <= 1
    ensures (b + 2 * n) % 2 == b && (b + 2 * n) / 2 == n
  {
  }

  lemma {:induction false} NumberOfBits(n: nat, k: nat)
    requires n < Pow2(k)
    ensures Number(BitsOf(n, k)) == n
    decreases k
  {
    hide BitsOf;
    if k > 0 {
      NumberOfBits(n / 2, k - 1);
      BitsStep(n, k);
      assert BitsOf(n, k)[1..] == BitsOf(n / 2, k - 1);
    }
  }

  lemma TwoLowBits(n: nat, k: nat)
    ensures BitsOf(n, 2 + k) == [n % 2 == 1, n / 2 % 2 == 1] + BitsOf(n / 4, k)
  {
    hide BitsOf;
    assert n / 2 / 2 == n / 4;
    BitsStep(n, 2 + k);
    BitsStep(n / 2, 1 + k);
    assert [n % 2 == 1, n / 2 % 2 == 1] == [n % 2 == 1] + [n / 2 % 2 == 1];
  }

  lemma FourLowBits(n: nat, k: nat)
    ensures BitsOf(n, 4 + k)
         == [n % 2 == 1, n / 2 % 2 == 1, n / 4 % 2 == 1, n / 8 % 2 == 1] + BitsOf(n / 16, k)
  {
    hide BitsOf;
    assert n / 4 / 2 == n / 8 && n / 4 / 4 == n / 16;
    TwoLowBits(n, 2 + k);
    TwoLowBits(n / 4, k);
  }

  lemma NibbleBits(m: nat)
    requires m < 16
    ensures BitsOf(m, 4) == [m % 2 == 1, m / 2 % 2 == 1, m / 4 % 2 == 1, m / 8 % 2 == 1]
  {
    hide BitsOf;
    FourLowBits(m, 0);
    assert BitsOf(m / 16, 0) == [];
  }

  lemma ByteBits(b: byte)
    ensures BitsOf(b, 8) == [b % 2 == 1, b / 2 % 2 == 1, b / 4 % 2 == 1, b / 8 % 2 == 1,
                             b / 16 % 2 == 1, b / 32 % 2 == 1, b / 64 % 2 == 1, b / 128 % 2 == 1]
  {
    hide BitsOf;
    FourLowBits(b, 4);
    FourLowBits(b / 16, 0);
    assert BitsOf(b / 16 / 16, 0) == [];
    assert b / 16 / 2 == b / 32 && b / 16 / 4 == b / 64 && b / 16 / 8 == b / 128;
  }

  lemma HalvedDigits(q: nat, m: nat)
    ensures (2 * q + m) / 2 == q + m / 2 && (2 * q + m) % 2 == m % 2
  {
  }

  lemma NibbleDigits(q: nat, m: nat)
    requires m < 16
    ensures var n := 16 * q + m;
            && n % 2 == m % 2 && n / 2 % 2 == m / 2 % 2
            && n / 4 % 2 == m / 4 % 2 && n / 4 / 2 % 2 == m / 4 / 2 % 2
            && n / 4 / 4 == q && m / 4 / 4 == 0
  {
    HalvedDigits(8 * q, m);
    HalvedDigits(4 * q, m / 2);
    HalvedDigits(2 * q, m / 4);
    HalvedDigits(q, m / 8);
  }

  lemma NoBits(m: nat, n: nat)
    ensures BitsOf(m, 0) == BitsOf(n, 0) == []
  {
  }

  lemma LowNibbleBits(q: nat, m: nat, k: nat)
    requires m < 16
    ensures BitsOf(16 * q + m, 4 + k) == BitsOf(m, 4) + BitsOf(q, k)
  {
    hide BitsOf;
    var n := 16 * q + m;
    NibbleDigits(q, m);
    TwoLowBits(n, 2 + k);
    TwoLowBits(n / 4, k);
    TwoLowBits(m, 2);
    TwoLowBits(m / 4, 0);
    NoBits(q, m / 4 / 4);
  }

  lemma LowByteBits(q: nat, m: nat, k: nat)
    requires m < 256
    ensures BitsOf(256 * q + m, 8 + k) == BitsOf(m, 8) + BitsOf(q, k)
  {
    hide BitsOf;
    var high, low := m / 16, m % 16;
    assert m == 16 * high + low;
    assert 256 * q + m == 16 * (16 * q + high) + low;
    LowNibbleBits(16 * q + high, low, 4 + k);
    LowNibbleBits(q, high, k);
    LowNibbleBits(high, low, 4);
    Associative(BitsOf(low, 4), BitsOf(high, 4), BitsOf(q, k));
  }

  /** A number is determined by its bits. */
  lemma {:induction false} BitsDetermine(a: nat, b: nat)
    requires forall i: nat :: Bit(a, i) == Bit(b, i)
    ensures a == b
    decreases a + b
  {
    if a + b > 0 {
      assert Bit(a, 0) == Bit(b, 0);
      forall i: nat
        ensures Bit(a / 2, i) == Bit(b / 2, i)
      {
        assert Bit(a, i + 1) == Bit(b, i + 1);
      }
      BitsDetermine(a / 2, b / 2);
    }
  }

  /** The exclusive or of two numbers. */
  function Xor(a: nat, b: nat): nat
    decreases a
  {
    if a == 0 then b
    else if b == 0 then a
    else (if a % 2 == b % 2 then 0 else 1) + 2 * Xor(a / 2, b / 2)
  }

  lemma {:induction false} NoBit(i: nat)
    ensures !Bit(0, i)
  {
    if i > 0 {
      NoBit(i - 1);
    }
  }

  /** It is that, bit by bit. */
  lemma {:induction false} XorBits(a: nat, b: nat, i: nat)
    ensures Bit(Xor(a, b), i) == (Bit(a, i) != Bit(b, i))
    decreases i
  {
    if a == 0 || b == 0 {
      NoBit(i);
    } else {
      DoubledDigits(Xor(a / 2, b / 2), if a % 2 == b % 2 then 0 else 1);
      if i > 0 {
        XorBits(a / 2, b / 2, i - 1);
      }
    }
  }
}
