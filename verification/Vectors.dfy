/** Known values: what both hash functions and every byte format give on small inputs. */
module Vectors {
  import opened Codec
  import opened BinaryDigits
  import opened Crc32c
  import opened CrcWords
  import opened Records
  import opened Log
  import opened IndexImage
  import opened IndexUpdates
  import opened IndexPlans
  import opened IndexSetup

  // ---- checksums ----

  lemma CheckValueSteps()
    ensures StepEight(0xFFFF_FFFF, true, false, false, false, true, true, false, false) == 0x6F0A_661C
    ensures StepEight(0x6F0A_661C, false, true, false, false, true, true, false, false) == 0x8CAA_3B9F
    ensures StepEight(0x8CAA_3B9F, true, true, false, false, true, true, false, false) == 0xEF84_D04D
    ensures StepEight(0xEF84_D04D, false, false, true, false, true, true, false, false) == 0x09C5_0B11
    ensures StepEight(0x09C5_0B11, true, false, true, false, true, true, false, false) == 0xE72E_DCCA
    ensures StepEight(0xE72E_DCCA, false, true, true, false, true, true, false, false) == 0xBECA_8E79
    ensures StepEight(0xBECA_8E79, true, true, true, false, true, true, false, false) == 0xEDBD_6815
    ensures StepEight(0xEDBD_6815, false, false, false, true, true, true, false, false) == 0x9F78_7F65
    ensures StepEight(0x9F78_7F65, true, false, false, true, true, true, false, false) == 0x1CF9_6D7C
  {
  }

  lemma CheckValueDigest()
    ensures Digest(0xFFFF_FFFF, [0x31, 0x32, 0x33, 0x34, 0x35, 0x36, 0x37, 0x38, 0x39]) == 0x1CF9_6D7C
  {
    hide StepEight, StepByte;
    CheckValueSteps();
    ByteAt(0xFFFF_FFFF, 0x31, true, false, false, false, true, true, false, false);
    ByteAt(0x6F0A_661C, 0x32, false, true, false, false, true, true, false, false);
    ByteAt(0x8CAA_3B9F, 0x33, true, true, false, false, true, true, false, false);
    ByteAt(0xEF84_D04D, 0x34, false, false, true, false, true, true, false, false);
    ByteAt(0x09C5_0B11, 0x35, true, false, true, false, true, true, false, false);
    ByteAt(0xE72E_DCCA, 0x36, false, true, true, false, true, true, false, false);
    ByteAt(0xBECA_8E79, 0x37, true, true, true, false, true, true, false, false);
    ByteAt(0xEDBD_6815, 0x38, false, false, false, true, true, true, false, false);
    ByteAt(0x9F78_7F65, 0x39, true, false, false, true, true, true, false, false);
  }

  lemma CheckValueDigits()
    ensures HasDigits(Sum(0x1CF9_6D7C, 0xFFFF_FFFF), 0xE, 3, 0, 6, 9, 2, 8, 3)
  {
  }

  /** The check value of the catalogues: "123456789". */
  lemma CheckValue()
    ensures Crc([0x31, 0x32, 0x33, 0x34, 0x35, 0x36, 0x37, 0x38, 0x39]) == 0xE306_9283
  {
    hide Digest, Crc, Sum, HasDigits;
    CheckValueDigits();
    CheckValueDigest();
    CrcIsDigest([0x31, 0x32, 0x33, 0x34, 0x35, 0x36, 0x37, 0x38, 0x39], 0xE, 3, 0, 6, 9, 2, 8, 3);
  }

  /** One zero byte. */
  function StepZero(r: Word): Word
  {
    StepEight(r, false, false, false, false, false, false, false, false)
  }

  function NullBytes(n: nat): Bytes
  {
    seq(n, _ => 0)
  }

  lemma DigestNull(r: Word, n: nat)
    ensures Digest(r, NullBytes(n + 1)) == Digest(StepZero(r), NullBytes(n))
  {
    hide StepEight;
    assert NullBytes(n + 1)[1..] == NullBytes(n);
  }

  lemma ZeroSteps0()
    ensures StepZero(0xFFFF_FFFF) == 0xAD82_ACAE
    ensures StepZero(0xAD82_ACAE) == 0x0E9E_882D
    ensures StepZero(0x0E9E_882D) == 0x9F9B_5C85
    ensures StepZero(0x9F9B_5C85) == 0xB798_B438
    ensures StepZero(0xB798_B438) == 0xBA8D_89CA
    ensures StepZero(0xBA8D_89CA) == 0xA8D5_8375
    ensures StepZero(0xA8D5_8375) == 0x44C1_9592
    ensures StepZero(0x44C1_9592) == 0x73D7_4D75
  {
  }

  lemma ZeroSteps1()
    ensures StepZero(0x73D7_4D75) == 0x441A_975C
    ensures StepZero(0x441A_975C) == 0x1C22_0F94
    ensures StepZero(0x1C22_0F94) == 0x552E_4907
    ensures StepZero(0x552E_4907) == 0xD49F_4AA2
    ensures StepZero(0xD49F_4AA2) == 0x43A4_5A1B
    ensures StepZero(0x43A4_5A1B) == 0x8994_C80E
    ensures StepZero(0x8994_C80E) == 0xACF1_2BEF
    ensures StepZero(0xACF1_2BEF) == 0xBD8F_6515
  {
  }

  lemma ZeroSteps2()
    ensures StepZero(0xBD8F_6515) == 0x2512_5C16
    ensures StepZero(0x2512_5C16) == 0x36DA_32DB
    ensures StepZero(0x36DA_32DB) == 0x4A6C_90A2
    ensures StepZero(0x4A6C_90A2) == 0x433A_A9C1
    ensures StepZero(0x433A_A9C1) == 0x31A5_9F6E
    ensures StepZero(0x31A5_9F6E) == 0xCD8F_89DA
    ensures StepZero(0xCD8F_89DA) == 0xB8FC_461A
    ensures StepZero(0xB8FC_461A) == 0x7B04_1311
  {
  }

  lemma ZeroSteps3()
    ensures StepZero(0x7B04_1311) == 0xE24E_407F
    ensures StepZero(0xE24E_407F) == 0x2F69_2669
    ensures StepZero(0x2F69_2669) == 0x195B_2188
    ensures StepZero(0x195B_2188) == 0x0836_3896
    ensures StepZero(0x0836_3896) == 0xB401_2DC7
    ensures StepZero(0xB401_2DC7) == 0x17F3_4302
    ensures StepZero(0x17F3_4302) == 0xE12C_83B4
    ensures StepZero(0xE12C_83B4) == 0x756E_C955
  {
  }

  lemma ZeroDigest0()
    ensures Digest(0xFFFF_FFFF, NullBytes(32)) == Digest(0x73D7_4D75, NullBytes(24))
  {
    hide Digest, StepZero;
    ZeroSteps0();
    DigestNull(0xFFFF_FFFF, 31);
    DigestNull(0xAD82_ACAE, 30);
    DigestNull(0x0E9E_882D, 29);
    DigestNull(0x9F9B_5C85, 28);
    DigestNull(0xB798_B438, 27);
    DigestNull(0xBA8D_89CA, 26);
    DigestNull(0xA8D5_8375, 25);
    DigestNull(0x44C1_9592, 24);
  }

  lemma ZeroDigest1()
    ensures Digest(0x73D7_4D75, NullBytes(24)) == Digest(0xBD8F_6515, NullBytes(16))
  {
    hide Digest, StepZero;
    ZeroSteps1();
    DigestNull(0x73D7_4D75, 23);
    DigestNull(0x441A_975C, 22);
    DigestNull(0x1C22_0F94, 21);
    DigestNull(0x552E_4907, 20);
    DigestNull(0xD49F_4AA2, 19);
    DigestNull(0x43A4_5A1B, 18);
    DigestNull(0x8994_C80E, 17);
    DigestNull(0xACF1_2BEF, 16);
  }

  lemma ZeroDigest2()
    ensures Digest(0xBD8F_6515, NullBytes(16)) == Digest(0x7B04_1311, NullBytes(8))
  {
    hide Digest, StepZero;
    ZeroSteps2();
    DigestNull(0xBD8F_6515, 15);
    DigestNull(0x2512_5C16, 14);
    DigestNull(0x36DA_32DB, 13);
    DigestNull(0x4A6C_90A2, 12);
    DigestNull(0x433A_A9C1, 11);
    DigestNull(0x31A5_9F6E, 10);
    DigestNull(0xCD8F_89DA, 9);
    DigestNull(0xB8FC_461A, 8);
  }

  lemma ZeroDigest3()
    ensures Digest(0x7B04_1311, NullBytes(8)) == Digest(0x756E_C955, NullBytes(0))
  {
    hide Digest, StepZero;
    ZeroSteps3();
    DigestNull(0x7B04_1311, 7);
    DigestNull(0xE24E_407F, 6);
    DigestNull(0x2F69_2669, 5);
    DigestNull(0x195B_2188, 4);
    DigestNull(0x0836_3896, 3);
    DigestNull(0xB401_2DC7, 2);
    DigestNull(0x17F3_4302, 1);
    DigestNull(0xE12C_83B4, 0);
  }

  lemma ZerosValueDigits()
    ensures HasDigits(Sum(0x756E_C955, 0xFFFF_FFFF), 8, 0xA, 9, 1, 3, 6, 0xA, 0xA)
  {
  }

  /** The vector of appendix B.4 of RFC 3720: 32 bytes of zeroes. */
  lemma ZerosValue()
    ensures Crc(NullBytes(32)) == 0x8A91_36AA
  {
    hide Digest, Crc, Sum, HasDigits;
    ZerosValueDigits();
    ZeroDigest0();
    ZeroDigest1();
    ZeroDigest2();
    ZeroDigest3();
    NothingLeft(0x756E_C955);
    CrcIsDigest(NullBytes(32), 8, 0xA, 9, 1, 3, 6, 0xA, 0xA);
  }

  lemma NothingLeft(r: Word)
    ensures Digest(r, NullBytes(0)) == r
  {
  }

  lemma PutBodySteps()
    ensures StepEight(0xFFFF_FFFF, true, false, false, false, false, false, false, false) == 0x5FE9_2FAD
    ensures StepEight(0x5FE9_2FAD, true, false, false, false, false, false, false, false) == 0xEF57_9359
    ensures StepEight(0xEF57_9359, false, false, false, false, false, false, false, false) == 0x2978_568C
    ensures StepEight(0x2978_568C, false, false, false, false, false, false, false, false) == 0xCF9C_8CFE
    ensures StepEight(0xCF9C_8CFE, false, false, false, false, false, false, false, false) == 0x5FD9_4CDE
    ensures StepEight(0x5FD9_4CDE, true, false, false, false, false, true, true, false) == 0xEC59_97A1
    ensures StepEight(0xEC59_97A1, true, false, false, false, false, false, false, false) == 0xA2A7_EC31
    ensures StepEight(0xA2A7_EC31, false, false, false, false, false, false, false, false) == 0xC22A_6D5E
    ensures StepEight(0xC22A_6D5E, false, false, false, false, false, false, false, false) == 0xFD9F_4F99
    ensures StepEight(0xFD9F_4F99, false, false, false, false, false, false, false, false) == 0xEAE7_B894
    ensures StepEight(0xEAE7_B894, true, false, false, false, true, true, false, false) == 0x9750_4602
  {
  }

  lemma PutBodyDigest()
    ensures Digest(0xFFFF_FFFF, [0x01, 0x01, 0x00, 0x00, 0x00, 0x61, 0x01, 0x00, 0x00, 0x00, 0x31]) == 0x9750_4602
  {
    hide StepEight, StepByte;
    PutBodySteps();
    ByteAt(0xFFFF_FFFF, 0x01, true, false, false, false, false, false, false, false);
    ByteAt(0x5FE9_2FAD, 0x01, true, false, false, false, false, false, false, false);
    ByteAt(0xEF57_9359, 0x00, false, false, false, false, false, false, false, false);
    ByteAt(0x2978_568C, 0x00, false, false, false, false, false, false, false, false);
    ByteAt(0xCF9C_8CFE, 0x00, false, false, false, false, false, false, false, false);
    ByteAt(0x5FD9_4CDE, 0x61, true, false, false, false, false, true, true, false);
    ByteAt(0xEC59_97A1, 0x01, true, false, false, false, false, false, false, false);
    ByteAt(0xA2A7_EC31, 0x00, false, false, false, false, false, false, false, false);
    ByteAt(0xC22A_6D5E, 0x00, false, false, false, false, false, false, false, false);
    ByteAt(0xFD9F_4F99, 0x00, false, false, false, false, false, false, false, false);
    ByteAt(0xEAE7_B894, 0x31, true, false, false, false, true, true, false, false);
  }

  lemma PutBodyDigits()
    ensures HasDigits(Sum(0x9750_4602, 0xFFFF_FFFF), 6, 8, 0xA, 0xF, 0xB, 9, 0xF, 0xD)
  {
  }

  /** The body of a Put of "a" and "1". */
  lemma PutBody()
    ensures Crc([0x01, 0x01, 0x00, 0x00, 0x00, 0x61, 0x01, 0x00, 0x00, 0x00, 0x31]) == 0x68AF_B9FD
  {
    hide Digest, Crc, Sum, HasDigits;
    PutBodyDigits();
    PutBodyDigest();
    CrcIsDigest([0x01, 0x01, 0x00, 0x00, 0x00, 0x61, 0x01, 0x00, 0x00, 0x00, 0x31], 6, 8, 0xA, 0xF, 0xB, 9, 0xF, 0xD);
  }

  lemma DeleteBodySteps()
    ensures StepEight(0xFFFF_FFFF, false, true, false, false, false, false, false, false) == 0x4CB9_DC59
    ensures StepEight(0x4CB9_DC59, true, false, false, false, false, false, false, false) == 0xDBB0_3BC0
    ensures StepEight(0xDBB0_3BC0, false, false, false, false, false, false, false, false) == 0xC356_96FF
    ensures StepEight(0xC356_96FF, false, false, false, false, false, false, false, false) == 0xADBE_05C7
    ensures StepEight(0xADBE_05C7, false, false, false, false, false, false, false, false) == 0x17EA_FC2A
    ensures StepEight(0x17EA_FC2A, true, false, false, false, false, true, true, false) == 0xD8E5_5C7B
    ensures StepEight(0xD8E5_5C7B, false, false, false, false, false, false, false, false) == 0xE8C9_1A6A
    ensures StepEight(0xE8C9_1A6A, false, false, false, false, false, false, false, false) == 0x0ACC_7240
    ensures StepEight(0x0ACC_7240, false, false, false, false, false, false, false, false) == 0x4171_D1CE
    ensures StepEight(0x4171_D1CE, false, false, false, false, false, false, false, false) == 0x6FB4_E832
  {
  }

  lemma DeleteBodyDigest()
    ensures Digest(0xFFFF_FFFF, [0x02, 0x01, 0x00, 0x00, 0x00, 0x61, 0x00, 0x00, 0x00, 0x00]) == 0x6FB4_E832
  {
    hide StepEight, StepByte;
    DeleteBodySteps();
    ByteAt(0xFFFF_FFFF, 0x02, false, true, false, false, false, false, false, false);
    ByteAt(0x4CB9_DC59, 0x01, true, false, false, false, false, false, false, false);
    ByteAt(0xDBB0_3BC0, 0x00, false, false, false, false, false, false, false, false);
    ByteAt(0xC356_96FF, 0x00, false, false, false, false, false, false, false, false);
    ByteAt(0xADBE_05C7, 0x00, false, false, false, false, false, false, false, false);
    ByteAt(0x17EA_FC2A, 0x61, true, false, false, false, false, true, true, false);
    ByteAt(0xD8E5_5C7B, 0x00, false, false, false, false, false, false, false, false);
    ByteAt(0xE8C9_1A6A, 0x00, false, false, false, false, false, false, false, false);
    ByteAt(0x0ACC_7240, 0x00, false, false, false, false, false, false, false, false);
    ByteAt(0x4171_D1CE, 0x00, false, false, false, false, false, false, false, false);
  }

  lemma DeleteBodyDigits()
    ensures HasDigits(Sum(0x6FB4_E832, 0xFFFF_FFFF), 9, 0, 4, 0xB, 1, 7, 0xC, 0xD)
  {
  }

  /** The body of a Delete of "a". */
  lemma DeleteBody()
    ensures Crc([0x02, 0x01, 0x00, 0x00, 0x00, 0x61, 0x00, 0x00, 0x00, 0x00]) == 0x904B_17CD
  {
    hide Digest, Crc, Sum, HasDigits;
    DeleteBodyDigits();
    DeleteBodyDigest();
    CrcIsDigest([0x02, 0x01, 0x00, 0x00, 0x00, 0x61, 0x00, 0x00, 0x00, 0x00], 9, 0, 4, 0xB, 1, 7, 0xC, 0xD);
  }

  // ---- hashes ----

  lemma HashOne(c: byte)
    ensures Hash([c]) == Xor(FNV_OFFSET, c) * FNV_PRIME % 0x1_0000_0000_0000_0000
  {
    hide Xor;
    FnvFoldSnoc(FNV_OFFSET, [], c);
    assert [] + [c] == [c];
  }

  lemma BasisWithA()
    ensures Xor(FNV_OFFSET, 0x61) == 0xCBF2_9CE4_8422_2344
  {
    assert Xor(0x32FCA739210888C, 0x1) == 0x32FCA739210888D;
    assert Xor(0x65F94E724211119, 0x3) == 0x65F94E72421111A;
    assert Xor(0xCBF29CE48422232, 0x6) == 0xCBF29CE48422234;
    assert Xor(0x197E539C90844464, 0xC) == 0x197E539C90844468;
    assert Xor(0x32FCA739210888C9, 0x18) == 0x32FCA739210888D1;
    assert Xor(0x65F94E7242111192, 0x30) == 0x65F94E72421111A2;
  }

  lemma BasisWithD()
    ensures Xor(FNV_OFFSET, 0x64) == 0xCBF2_9CE4_8422_2341
  {
    assert Xor(0x32FCA739210888C, 0x1) == 0x32FCA739210888D;
    assert Xor(0x65F94E724211119, 0x3) == 0x65F94E72421111A;
    assert Xor(0xCBF29CE48422232, 0x6) == 0xCBF29CE48422234;
    assert Xor(0x197E539C90844464, 0xC) == 0x197E539C90844468;
    assert Xor(0x32FCA739210888C9, 0x19) == 0x32FCA739210888D0;
    assert Xor(0x65F94E7242111192, 0x32) == 0x65F94E72421111A0;
  }

  /** FNV-1a of "a", and its bucket of four. */
  lemma HashOfA()
    ensures Hash([0x61]) == 0xAF63_DC4C_8601_EC8C && Bucket([0x61], 4) == 0
  {
    hide Hash, Xor;
    HashOne(0x61);
    BasisWithA();
  }

  /** FNV-1a of "d", and its bucket of four. */
  lemma HashOfD()
    ensures Hash([0x64]) == 0xAF63_D94C_8601_E773 && Bucket([0x64], 4) == 3
  {
    hide Hash, Xor;
    HashOne(0x64);
    BasisWithD();
  }

  // ---- byte formats ----

  lemma U32Digits(b0: byte, b1: byte, b2: byte, b3: byte)
    ensures U32Bytes(b0 + 256 * (b1 + 256 * (b2 + 256 * b3))) == [b0, b1, b2, b3]
  {
    hide Le;
    var n2 := b2 + 256 * b3;
    var n1 := b1 + 256 * n2;
    LowDigit(b0, n1);
    LowDigit(b1, n2);
    LowDigit(b2, b3);
    LeStep(b0 + 256 * n1, 4);
    LeStep(n1, 3);
    LeStep(n2, 2);
    LeStep(b3, 1);
    assert Le(b3 / 256, 0) == [];
  }

  lemma LeStep(n: nat, w: nat)
    requires w > 0
    ensures Le(n, w) == [n % 256] + Le(n / 256, w - 1)
  {
  }

  /** The bytes that a Put of "a" and "1" and a Delete of "a" append to the log. */
  lemma RecordBytes()
    ensures Encode(Record(Put, [0x61], [0x31]))
         == [0x01, 0x01, 0x00, 0x00, 0x00, 0x61, 0x01, 0x00, 0x00, 0x00, 0x31, 0xFD, 0xB9, 0xAF, 0x68]
    ensures Encode(Record(Delete, [0x61], []))
         == [0x02, 0x01, 0x00, 0x00, 0x00, 0x61, 0x00, 0x00, 0x00, 0x00, 0xCD, 0x17, 0x4B, 0x90]
  {
    hide U32Bytes, Crc;
    U32Digits(1, 0, 0, 0);
    U32Digits(0, 0, 0, 0);
    U32Digits(0xFD, 0xB9, 0xAF, 0x68);
    U32Digits(0xCD, 0x17, 0x4B, 0x90);
    PutBody();
    DeleteBody();
    assert Body(Record(Put, [0x61], [0x31])) == [0x01, 0x01, 0x00, 0x00, 0x00, 0x61, 0x01, 0x00, 0x00, 0x00, 0x31];
    assert Body(Record(Delete, [0x61], [])) == [0x02, 0x01, 0x00, 0x00, 0x00, 0x61, 0x00, 0x00, 0x00, 0x00];
  }

  /** The header of a log: "ZIDANEDBDATABASE" after its length, and version 1. */
  lemma LogHeaderBytes()
    ensures DbHeader() == [0x10, 0x00, 0x00, 0x00, 0x5A, 0x49, 0x44, 0x41, 0x4E, 0x45, 0x44, 0x42,
                           0x44, 0x41, 0x54, 0x41, 0x42, 0x41, 0x53, 0x45, 0x01, 0x00, 0x00, 0x00]
  {
    hide U32Bytes;
    U32Digits(16, 0, 0, 0);
    U32Digits(1, 0, 0, 0);
  }

  lemma U64Digits(b: byte)
    ensures U64Bytes(b) == [b, 0, 0, 0, 0, 0, 0, 0]
  {
    hide Le, U32Bytes;
    LeStep(b, 8);
    LeStep(0, 7);
    LeStep(0, 6);
    LeStep(0, 5);
    U32Digits(0, 0, 0, 0);
    assert U32Bytes(0) == Le(0, 4) by { U32Le(0); }
  }

  lemma U32Le(n: nat)
    ensures U32Bytes(n) == Le(n, 4)
  {
  }

  /** "ZIDANEDBINDEX026" after its length, and version 1. */
  function IndexMark(): Bytes
  {
    [0x10, 0x00, 0x00, 0x00, 0x5A, 0x49, 0x44, 0x41, 0x4E, 0x45, 0x44, 0x42,
     0x49, 0x4E, 0x44, 0x45, 0x58, 0x30, 0x32, 0x36,
     0x01, 0x00, 0x00, 0x00]
  }

  lemma MarkBytes()
    ensures StringBytes(INDEX_MAGIC) + U32Bytes(INDEX_VERSION) == IndexMark()
  {
    hide U32Bytes;
    U32Digits(16, 0, 0, 0);
    U32Digits(1, 0, 0, 0);
  }

  /** The header of an index of one bucket: the mark, the bucket count, checkpoint zero, and not clean. */
  function HeaderOfOne(): Bytes
  {
    IndexMark() + [1, 0, 0, 0, 0, 0, 0, 0] + [0, 0, 0, 0, 0, 0, 0, 0] + [0]
  }

  /** A new index of one bucket. */
  lemma NewIndexBytes()
    ensures EmptyImage(1) == HeaderOfOne() + [0, 0, 0, 0, 0, 0, 0, 0] && |HeaderOfOne()| == 41
  {
    hide U32Bytes, U64Bytes, StringBytes;
    MarkBytes();
    U64Digits(1);
    U64Digits(0);
    assert Zeros(1) == Zeros(0) + U64Bytes(0);
  }

  /** The same index after the key "a" was set to 24: its head at 41, then the entry it points to at 49. */
  lemma IndexBytes()
    ensures BucketCount(EmptyImage(1)) > 0
    ensures ApplyPatches(EmptyImage(1), SetPlan(EmptyImage(1), [0x61], 24))
         == HeaderOfOne() + [49, 0, 0, 0, 0, 0, 0, 0]
            + ([24, 0, 0, 0, 0, 0, 0, 0] + [0, 0, 0, 0, 0, 0, 0, 0] + [1, 0, 0, 0] + [0x61])
  {
    hide U32Bytes, U64Bytes, EmptyImage, ChainFor, WellFormed, IndexImage.Contents, BucketCount, Bucket,
      ApplyPatches, HeaderOfOne, Position;
    var img, key := EmptyImage(1), [0x61];
    EmptyImageMeans(1);
    LookupExact(img, key);
    NewIndexBytes();
    var plan := SetPlan(img, key, 24);
    assert ChainFor(img, key) == [] by { EmptyChain(img, key); }
    AppendedFields(img, key, 24, 0, plan, 4);
    AfterOne(img, plan, 4);
    assert plan[..5] == plan;
    U64Digits(24);
    U64Digits(0);
    U64Digits(49);
    U32Digits(1, 0, 0, 0);
    var bytes := EntryBytes(24, 0, key);
    assert bytes[..FieldEnd(4, key)] == bytes;
    HeadWritten(HeaderOfOne(), [0, 0, 0, 0, 0, 0, 0, 0], bytes, U64Bytes(49));
  }

  lemma HeadWritten(header: Bytes, head: Bytes, rest: Bytes, head': Bytes)
    requires |head'| == |head|
    ensures Write(header + head + rest, |header|, head') == header + head' + rest
  {
  }

  lemma EmptyChain(img: Bytes, key: Key)
    requires WellFormed(img) && BucketCount(img) == 1 && IndexImage.Contents(img) == map[]
    ensures ChainFor(img, key) == []
  {
    hide WellFormed, IndexImage.Contents, ChainFor, Position, Bucket;
    var c := ChainFor(img, key);
    if c != [] {
      var other := c[0].key;
      PositionIs(c, other, 0);
      OnlyBucket(img, key, other);
      LookupExact(img, other);
    }
  }

  lemma OnlyBucket(img: Bytes, a: Key, b: Key)
    requires BucketCount(img) == 1
    ensures ChainFor(img, a) == ChainFor(img, b)
  {
    hide Hash;
  }
}
