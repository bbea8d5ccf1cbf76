/**
 * The checksum register as a 32-bit word: shifting right and adding the reversed polynomial. This form can
 * be computed, and is proved to be the register of the division.
 */
module CrcWords {
  import opened Codec
  import opened BinaryDigits
  import opened Crc32c
  import opened Castagnoli

  type Word = bv32

  predicate Odd(r: Word)
  {
    r & 1 == 1
  }

  function Half(r: Word): Word
  {
    r >> 1
  }

  function Sum(a: Word, b: Word): Word
  {
    a ^ b
  }

  /** The `k` low-order bits of a word, lowest first. */
  function WordBits(r: Word, k: nat): (s: Bits)
    ensures |s| == k
    decreases k
  {
    if k == 0 then [] else [Odd(r)] + WordBits(Half(r), k - 1)
  }

  lemma SumParts(a: Word, b: Word)
    ensures Half(Sum(a, b)) == Sum(Half(a), Half(b))
    ensures Odd(Sum(a, b)) == (Odd(a) != Odd(b))
  {
  }

  lemma {:induction false} SumBits(a: Word, b: Word, k: nat, i: nat)
    requires i < k
    ensures WordBits(Sum(a, b), k)[i] == (WordBits(a, k)[i] != WordBits(b, k)[i])
    decreases k
  {
    hide Odd, Half, Sum;
    SumParts(a, b);
    if i > 0 {
      SumBits(Half(a), Half(b), k - 1, i - 1);
    }
  }

  /** The word has no bit at `k` or above. */
  predicate Gone(r: Word, k: nat)
    decreases k
  {
    if k == 0 then r == 0 else Gone(Half(r), k - 1)
  }

  lemma {:induction false} HalfBits(r: Word, k: nat)
    requires Gone(r, k) && k > 0
    ensures WordBits(Half(r), k) == WordBits(r, k)[1..] + [false] && WordBits(r, k)[0] == Odd(r)
    decreases k
  {
    hide Odd, Half;
    if k == 1 {
      assert Half(r) == 0 && !Odd(0) by { Zero(r); }
    } else {
      HalfBits(Half(r), k - 1);
    }
  }

  lemma Zero(r: Word)
    requires Gone(r, 1)
    ensures Half(r) == 0 && !Odd(0)
  {
  }

  function Sixteenth(r: Word): Word
  {
    Half(Half(Half(Half(r))))
  }

  lemma FourGone(r: Word, k: nat)
    requires Gone(Sixteenth(r), k)
    ensures Gone(r, k + 4)
  {
    hide Half;
    assert Gone(Half(Half(Half(r))), k + 1);
    assert Gone(Half(Half(r)), k + 2);
    assert Gone(Half(r), k + 3);
  }

  lemma AllGone(r: Word)
    ensures Gone(r, 32)
  {
    hide Gone, Sixteenth;
    var r1 := Sixteenth(r);
    var r2 := Sixteenth(r1);
    var r3 := Sixteenth(r2);
    var r4 := Sixteenth(r3);
    var r5 := Sixteenth(r4);
    var r6 := Sixteenth(r5);
    var r7 := Sixteenth(r6);
    NothingGone(Sixteenth(r7)) by { EightShifts(r); }
    FourGone(r7, 0);
    FourGone(r6, 4);
    FourGone(r5, 8);
    FourGone(r4, 12);
    FourGone(r3, 16);
    FourGone(r2, 20);
    FourGone(r1, 24);
    FourGone(r, 28);
  }

  lemma EightShifts(r: Word)
    ensures Sixteenth(Sixteenth(Sixteenth(Sixteenth(Sixteenth(Sixteenth(Sixteenth(Sixteenth(r)))))))) == 0
  {
  }

  lemma NothingGone(r: Word)
    requires r == 0
    ensures Gone(r, 0)
  {
  }

  /** One division step on a word. */
  function Step(r: Word, bit: bool): Word
  {
    if Odd(r) != bit then Sum(Half(r), 0x82F6_3B78) else Half(r)
  }

  /** The four low-order bits are the same. */
  predicate SameNibble(r: Word, n: nat)
  {
    && Odd(r) == (n % 2 == 1) && Odd(Half(r)) == (n / 2 % 2 == 1)
    && Odd(Half(Half(r))) == (n / 4 % 2 == 1) && Odd(Half(Half(Half(r)))) == (n / 8 % 2 == 1)
  }

  lemma NibbleSame(r: Word, m: nat, q: nat, k: nat)
    requires m < 16 && SameNibble(r, m) && WordBits(Sixteenth(r), k) == BitsOf(q, k)
    ensures WordBits(r, 4 + k) == BitsOf(16 * q + m, 4 + k)
  {
    hide Odd, Half, BitsOf, WordBits, Sixteenth;
    FourBits(r, k);
    NibbleBits(m);
    LowNibbleBits(q, m, k);
  }

  lemma OneBit(r: Word, k: nat)
    ensures WordBits(r, 1 + k) == [Odd(r)] + WordBits(Half(r), k)
  {
    hide Odd, Half;
  }

  lemma TwoBits(r: Word, k: nat)
    ensures WordBits(r, 2 + k) == [Odd(r), Odd(Half(r))] + WordBits(Half(Half(r)), k)
  {
    hide Odd, Half, WordBits;
    OneBit(r, 1 + k);
    OneBit(Half(r), k);
    assert [Odd(r), Odd(Half(r))] == [Odd(r)] + [Odd(Half(r))];
  }

  lemma FourBits(r: Word, k: nat)
    ensures WordBits(r, 4 + k)
         == [Odd(r), Odd(Half(r)), Odd(Half(Half(r))), Odd(Half(Half(Half(r))))] + WordBits(Sixteenth(r), k)
  {
    hide Odd, Half, WordBits;
    TwoBits(r, 2 + k);
    TwoBits(Half(Half(r)), k);
  }

  /** The word is the number with the two low-order hexadecimal digits `l` and `h` and the rest `q`. */
  lemma ByteSame(r: Word, h: nat, l: nat, q: nat, k: nat)
    requires h < 16 && l < 16 && SameNibble(r, l) && SameNibble(Sixteenth(r), h)
    requires WordBits(Sixteenth(Sixteenth(r)), k) == BitsOf(q, k)
    ensures WordBits(r, 8 + k) == BitsOf(256 * q + 16 * h + l, 8 + k)
  {
    hide SameNibble, Sixteenth, BitsOf, WordBits;
    NibbleSame(Sixteenth(r), h, q, k);
    NibbleSame(r, l, 16 * q + h, 4 + k);
  }

  type Digit = x: int | 0 <= x < 16

  /** The word has these hexadecimal digits, the highest first. */
  predicate HasDigits(r: Word,
                      h0: Digit, h1: Digit, h2: Digit, h3: Digit, h4: Digit, h5: Digit, h6: Digit, h7: Digit)
  {
    var r1 := Sixteenth(Sixteenth(r));
    var r2 := Sixteenth(Sixteenth(r1));
    var r3 := Sixteenth(Sixteenth(r2));
    && SameNibble(r, h7) && SameNibble(Sixteenth(r), h6)
    && SameNibble(r1, h5) && SameNibble(Sixteenth(r1), h4)
    && SameNibble(r2, h3) && SameNibble(Sixteenth(r2), h2)
    && SameNibble(r3, h1) && SameNibble(Sixteenth(r3), h0)
  }

  /** The number with these hexadecimal digits, the highest first. */
  function Hex(h0: Digit, h1: Digit, h2: Digit, h3: Digit, h4: Digit, h5: Digit, h6: Digit, h7: Digit): nat
  {
    256 * (256 * (256 * (16 * h0 + h1) + 16 * h2 + h3) + 16 * h4 + h5) + 16 * h6 + h7
  }

  lemma WordSame(r: Word,
                 h0: Digit, h1: Digit, h2: Digit, h3: Digit, h4: Digit, h5: Digit, h6: Digit, h7: Digit)
    requires HasDigits(r, h0, h1, h2, h3, h4, h5, h6, h7)
    ensures WordBits(r, 32) == BitsOf(Hex(h0, h1, h2, h3, h4, h5, h6, h7), 32)
  {
    hide SameNibble, Sixteenth, BitsOf;
    var r1 := Sixteenth(Sixteenth(r));
    var r2 := Sixteenth(Sixteenth(r1));
    var r3 := Sixteenth(Sixteenth(r2));
    assert WordBits(Sixteenth(Sixteenth(r3)), 0) == BitsOf(0, 0) == [] by { NoBits(0, 0); }
    ByteSame(r3, h0, h1, 0, 0);
    ByteSame(r2, h2, h3, 16 * h0 + h1, 8);
    ByteSame(r1, h4, h5, 256 * (16 * h0 + h1) + 16 * h2 + h3, 16);
    ByteSame(r, h6, h7, 256 * (256 * (16 * h0 + h1) + 16 * h2 + h3) + 16 * h4 + h5, 24);
  }

  lemma TapsWord()
    ensures WordBits(0x82F6_3B78, 32) == BitsOf(POLYNOMIAL, 32)
  {
    hide BitsOf, WordBits;
    WordSame(0x82F6_3B78, 8, 2, 0xF, 6, 3, 0xB, 7, 8);
  }

  lemma StepIsFeed(r: Word, bit: bool)
    ensures Feed(WordBits(r, 32), bit) == WordBits(Step(r, bit), 32)
  {
    hide BitsOf, Gone, Odd, Half, Sum, WordBits;
    TapsWord();
    AllGone(r);
    HalfBits(r, 32);
    forall i | 0 <= i < 32
      ensures Feed(WordBits(r, 32), bit)[i] == WordBits(Step(r, bit), 32)[i]
    {
      SumBits(Half(r), 0x82F6_3B78, 32, i);
    }
  }

  /** Eight bits, the first one first. */
  function StepEight(r: Word, b0: bool, b1: bool, b2: bool, b3: bool, b4: bool, b5: bool, b6: bool, b7: bool): Word
  {
    Step(Step(Step(Step(Step(Step(Step(Step(r, b0), b1), b2), b3), b4), b5), b6), b7)
  }

  /** One byte, lowest bit first. */
  function StepByte(r: Word, b: byte): Word
  {
    StepEight(r, b % 2 == 1, b / 2 % 2 == 1, b / 4 % 2 == 1, b / 8 % 2 == 1,
              b / 16 % 2 == 1, b / 32 % 2 == 1, b / 64 % 2 == 1, b / 128 % 2 == 1)
  }

  lemma FeedOne(r: Bits, s: Bits)
    requires |r| == 32 && s != []
    ensures FeedAll(r, s) == FeedAll(Feed(r, s[0]), s[1..])
  {
  }

  lemma FeedFour(r: Bits, s: Bits)
    requires |r| == 32 && |s| >= 4
    ensures FeedAll(r, s) == FeedAll(Feed(Feed(Feed(Feed(r, s[0]), s[1]), s[2]), s[3]), s[4..])
  {
    hide Feed, FeedAll;
    assert s[1..][1..] == s[2..] && s[2..][1..] == s[3..] && s[3..][1..] == s[4..];
    FeedOne(r, s);
    FeedOne(Feed(r, s[0]), s[1..]);
    FeedOne(Feed(Feed(r, s[0]), s[1]), s[2..]);
    FeedOne(Feed(Feed(Feed(r, s[0]), s[1]), s[2]), s[3..]);
  }

  lemma FeedEight(r: Bits, s: Bits)
    requires |r| == 32 && |s| == 8
    ensures FeedAll(r, s)
         == Feed(Feed(Feed(Feed(Feed(Feed(Feed(Feed(r, s[0]), s[1]), s[2]), s[3]), s[4]), s[5]), s[6]), s[7])
  {
    hide Feed, FeedAll;
    FeedFour(r, s);
    FeedFour(Feed(Feed(Feed(Feed(r, s[0]), s[1]), s[2]), s[3]), s[4..]);
    assert s[4..][4..] == [];
    NothingDigested(Feed(Feed(Feed(Feed(Feed(Feed(Feed(Feed(r, s[0]), s[1]), s[2]), s[3]), s[4]), s[5]), s[6]), s[7]));
  }

  lemma StepByteIsFeed(r: Word, b: byte)
    ensures FeedAll(WordBits(r, 32), BitsOf(b, 8)) == WordBits(StepByte(r, b), 32)
  {
    hide Feed, FeedAll, BitsOf, WordBits, Step;
    ByteBits(b);
    FeedEight(WordBits(r, 32), BitsOf(b, 8));
    var r1 := Step(r, b % 2 == 1);
    var r2 := Step(r1, b / 2 % 2 == 1);
    var r3 := Step(r2, b / 4 % 2 == 1);
    var r4 := Step(r3, b / 8 % 2 == 1);
    var r5 := Step(r4, b / 16 % 2 == 1);
    var r6 := Step(r5, b / 32 % 2 == 1);
    var r7 := Step(r6, b / 64 % 2 == 1);
    StepIsFeed(r, b % 2 == 1);
    StepIsFeed(r1, b / 2 % 2 == 1);
    StepIsFeed(r2, b / 4 % 2 == 1);
    StepIsFeed(r3, b / 8 % 2 == 1);
    StepIsFeed(r4, b / 16 % 2 == 1);
    StepIsFeed(r5, b / 32 % 2 == 1);
    StepIsFeed(r6, b / 64 % 2 == 1);
    StepIsFeed(r7, b / 128 % 2 == 1);
  }

  function Digest(r: Word, s: Bytes): Word
    decreases |s|
  {
    if s == [] then r else Digest(StepByte(r, s[0]), s[1..])
  }

  lemma {:induction false} DigestIsFeedAll(r: Word, s: Bytes)
    ensures FeedAll(WordBits(r, 32), BitStream(s)) == WordBits(Digest(r, s), 32)
    decreases |s|
  {
    hide BitsOf, FeedAll, StepByte, WordBits;
    if s == [] {
      NothingDigested(WordBits(r, 32));
    } else {
      StepByteIsFeed(r, s[0]);
      DigestIsFeedAll(StepByte(r, s[0]), s[1..]);
      FeedAllConcat(WordBits(r, 32), BitsOf(s[0], 8), BitStream(s[1..]));
    }
  }

  lemma NothingDigested(r: Bits)
    requires |r| == 32
    ensures FeedAll(r, []) == r
  {
  }

  /** The checksum is the complement of the word digested from all ones. */
  lemma CrcIsDigest(s: Bytes,
                    h0: Digit, h1: Digit, h2: Digit, h3: Digit, h4: Digit, h5: Digit, h6: Digit, h7: Digit)
    requires HasDigits(Sum(Digest(0xFFFF_FFFF, s), 0xFFFF_FFFF), h0, h1, h2, h3, h4, h5, h6, h7)
    ensures Crc(s) == Hex(h0, h1, h2, h3, h4, h5, h6, h7)
  {
    hide BitsOf, FeedAll, Digest, Pow2, BitStream, WordBits, SameNibble, Sixteenth, Sum;
    var n := Hex(h0, h1, h2, h3, h4, h5, h6, h7);
    var r := Digest(0xFFFF_FFFF, s);
    PowersOf2();
    StartWord();
    DigestIsFeedAll(0xFFFF_FFFF, s);
    WordSame(Sum(r, 0xFFFF_FFFF), h0, h1, h2, h3, h4, h5, h6, h7);
    forall i | 0 <= i < 32
      ensures WordBits(Sum(r, 0xFFFF_FFFF), 32)[i] == !WordBits(r, 32)[i]
    {
      SumBits(r, 0xFFFF_FFFF, 32, i);
    }
    assert Complement(WordBits(r, 32)) == BitsOf(n, 32);
    NumberOfBits(n, 32);
  }

  lemma StartWord()
    ensures WordBits(0xFFFF_FFFF, 32) == Complement(BitsOf(0, 32)) == Constant(true)
  {
    hide BitsOf, WordBits;
    WordSame(0xFFFF_FFFF, 0xF, 0xF, 0xF, 0xF, 0xF, 0xF, 0xF, 0xF);
    PowersOf2();
    AllOnes(32);
    StartIsOnes();
  }

  lemma {:induction false} AllOnes(k: nat)
    ensures Pow2(k) > 0 && BitsOf(Pow2(k) - 1, k) == seq(k, _ => true)
  {
    hide BitsOf;
    if k == 0 {
      assert BitsOf(Pow2(k) - 1, k) == [];
    } else {
      AllOnes(k - 1);
      DoubledDigits(Pow2(k - 1) - 1, 1);
      BitsStep(Pow2(k) - 1, k);
    }
  }

  /** A byte given by its bits. */
  lemma ByteAt(r: Word, b: byte,
               b0: bool, b1: bool, b2: bool, b3: bool, b4: bool, b5: bool, b6: bool, b7: bool)
    requires (b % 2 == 1) == b0 && (b / 2 % 2 == 1) == b1 && (b / 4 % 2 == 1) == b2 && (b / 8 % 2 == 1) == b3
    requires (b / 16 % 2 == 1) == b4 && (b / 32 % 2 == 1) == b5 && (b / 64 % 2 == 1) == b6 && (b / 128 % 2 == 1) == b7
    ensures StepByte(r, b) == StepEight(r, b0, b1, b2, b3, b4, b5, b6, b7)
  {
  }
}
