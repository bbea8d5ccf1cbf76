/**
 * The log records of src/record.cpp:
 * [type:u8][key_length:u32][key][value_length:u32][value][crc32c:u32].
 */
module Records {
  import opened Codec
  import opened Crc32c

  const MAX_KEY_SIZE: nat := 1024
  const MAX_VALUE_SIZE: nat := 16 * 1024 * 1024

  type Key = Bytes

  datatype RecordType = Put | Delete

  datatype Record = Record(kind: RecordType, key: Bytes, value: Bytes)

  datatype RecordReadStatus = Success | EndOfFile | Truncated | InvalidLength | ChecksumMismatch | InvalidType

  /** A record within the size limits: one that `serialize_record` accepts. */
  predicate Serializable(r: Record)
  {
    |r.key| <= MAX_KEY_SIZE && |r.value| <= MAX_VALUE_SIZE
  }

  function TypeByte(kind: RecordType): byte
  {
    match kind
    case Put => 1
    case Delete => 2
  }

  /** The bytes the checksum covers. */
  function Body(r: Record): (s: Bytes)
    ensures |s| == 9 + |r.key| + |r.value|
  {
    [TypeByte(r.kind)] + StringBytes(r.key) + StringBytes(r.value)
  }

  function Encode(r: Record): (s: Bytes)
    ensures |s| == 13 + |r.key| + |r.value|
  {
    Body(r) + U32Bytes(Crc(Body(r)))
  }

  datatype ReadResult = ReadResult(status: RecordReadStatus, record: Record, size: nat)

  function Failed(status: RecordReadStatus): ReadResult
  {
    ReadResult(status, Record(Put, [], []), 0)
  }

  function StringFailure(status: ReadStatus): RecordReadStatus
  {
    if status == ReadStatus.InvalidLength then RecordReadStatus.InvalidLength else RecordReadStatus.Truncated
  }

  /** The checks of `read_record` from the stored checksum on, after `size` bytes of `s`. */
  function ParseChecksum(s: Bytes, record: Record, size: nat): (r: ReadResult)
    requires 9 <= size <= |s|
    ensures r.status.Success? ==> 13 <= r.size <= |s|
  {
    var rest := s[size..];
    if |rest| < 4 then Failed(RecordReadStatus.Truncated)
    else if De(rest[..4]) != Crc(s[..size]) then Failed(ChecksumMismatch)
    else ReadResult(RecordReadStatus.Success, record, size + 4)
  }

  /** From the value on, after the type and the key. */
  function ParseValue(s: Bytes, kind: RecordType, key: Bytes): (r: ReadResult)
    requires 5 + |key| <= |s|
    ensures r.status.Success? ==> 13 <= r.size <= |s|
  {
    var rest := s[5 + |key|..];
    var status := StringStatus(rest, MAX_VALUE_SIZE);
    if status != ReadStatus.Success then Failed(StringFailure(status))
    else
      var n := De(rest[..4]);
      ParseChecksum(s, Record(kind, key, rest[4..][..n]), 9 + |key| + n)
  }

  /** What `read_record` makes of the bytes `s`: the classification, and on success what was read. */
  function Parse(s: Bytes): (r: ReadResult)
    ensures r.status.Success? ==> 13 <= r.size <= |s|
  {
    if s == [] then Failed(EndOfFile)
    else if s[0] != 1 && s[0] != 2 then Failed(InvalidType)
    else
      var rest := s[1..];
      var status := StringStatus(rest, MAX_KEY_SIZE);
      if status != ReadStatus.Success then Failed(StringFailure(status))
      else
        var n := De(rest[..4]);
        ParseValue(s, if s[0] == 1 then Put else Delete, rest[4..][..n])
  }

  /** `serialize_record`: fields are written and added to the running checksum one by one. */
  method Serialize(record: Record) returns (ok: bool, bytes: Bytes)
    ensures ok == Serializable(record) == (|record.key| <= 1024 && |record.value| <= 16_777_216)
    ensures ok ==> bytes == Encode(record)
  {
    hide Le, De, Extend, U32Bytes, StringBytes;
    var stream := new OutputStream();
    stream.WriteUint8(TypeByte(record.kind));
    var checksum := Extend(0, [TypeByte(record.kind)]);
    ghost var seen := [TypeByte(record.kind)];

    ok := stream.WriteString(record.key, MAX_KEY_SIZE);
    if !ok {
      return false, [];
    }
    checksum := ExtendString(checksum, record.key, seen);
    seen := seen + StringBytes(record.key);

    ok := stream.WriteString(record.value, MAX_VALUE_SIZE);
    if !ok {
      return false, [];
    }
    checksum := ExtendString(checksum, record.value, seen);
    seen := seen + StringBytes(record.value);

    assert seen == Body(record);
    stream.WriteUint32(checksum);
    bytes := stream.bytes;
  }

  /** `extend_checksum_uint32` of the size, then `extend_checksum_string`. */
  method ExtendString(checksum: nat, piece: Bytes, ghost seen: Bytes) returns (extended: nat)
    requires checksum == Crc(seen)
    ensures extended == Crc(seen + StringBytes(piece))
  {
    hide Le, Extend;
    ExtendConcat(0, seen, U32Bytes(|piece|));
    ExtendConcat(0, seen + U32Bytes(|piece|), piece);
    assert seen + U32Bytes(|piece|) + piece == seen + StringBytes(piece);
    extended := Extend(Extend(checksum, U32Bytes(|piece|)), piece);
  }

  /** A key or value of `read_record`: the string is read and added to the running checksum. */
  method ReadField(stream: InputStream, maxLength: nat, checksum: nat, ghost seen: Bytes)
    returns (status: ReadStatus, field: Bytes, extended: nat)
    requires stream.Valid() && checksum == Crc(seen)
    modifies stream
    ensures stream.Valid()
    ensures status == StringStatus(old(stream.Rest()), maxLength)
    ensures status.Success? ==>
              && |old(stream.Rest())| >= 4 + |field| && |field| == De(old(stream.Rest())[..4])
              && field == old(stream.Rest())[4..][..|field|]
              && stream.Rest() == old(stream.Rest())[4 + |field|..]
              && extended == Crc(seen + old(stream.Rest())[..4 + |field|])
  {
    hide Le, De, Extend, Crc, U32Bytes;
    ghost var s := stream.Rest();
    extended := checksum;
    status, field := stream.ReadString([], maxLength);
    if status == ReadStatus.Success {
      StringReadBack(s, maxLength);
      extended := ExtendString(checksum, field, seen);
    }
  }

  lemma FirstExtended(s: Bytes)
    ensures Extend(0, s) == Crc(s)
  {
  }

  lemma TypeParsed(s: Bytes)
    ensures s == [] ==> Parse(s) == Failed(EndOfFile)
    ensures s != [] && s[0] != 1 && s[0] != 2 ==> Parse(s) == Failed(InvalidType)
  {
  }

  lemma KeyParsed(s: Bytes, key: Bytes)
    requires s != [] && (s[0] == 1 || s[0] == 2)
    ensures StringStatus(s[1..], MAX_KEY_SIZE) != ReadStatus.Success ==>
              Parse(s) == Failed(StringFailure(StringStatus(s[1..], MAX_KEY_SIZE)))
    ensures StringStatus(s[1..], MAX_KEY_SIZE) == ReadStatus.Success ==>
              && |s| >= 5 && De(s[1..][..4]) <= |s| - 5
              && (|key| == De(s[1..][..4]) && key == s[1..][4..][..|key|] ==>
                    Parse(s) == ParseValue(s, if s[0] == 1 then Put else Delete, key))
  {
    hide De, ParseValue;
  }

  lemma ValueParsed(s: Bytes, kind: RecordType, key: Bytes, value: Bytes)
    requires 5 + |key| <= |s|
    ensures var rest := s[5 + |key|..];
            var status := StringStatus(rest, MAX_VALUE_SIZE);
            && (status != ReadStatus.Success ==> ParseValue(s, kind, key) == Failed(StringFailure(status)))
            && (status == ReadStatus.Success ==>
                  && |rest| >= 4 && De(rest[..4]) <= |rest| - 4
                  && (|value| == De(rest[..4]) && value == rest[4..][..|value|] ==>
                        ParseValue(s, kind, key)
                        == ParseChecksum(s, Record(kind, key, value), 9 + |key| + |value|)))
  {
    hide De, ParseChecksum;
  }

  /** `read_record`: one pass over the stream, filling a candidate that is kept only on success. */
  method Read(stream: InputStream, record: Record) returns (status: RecordReadStatus, result: Record)
    requires stream.Valid()
    modifies stream
    ensures stream.Valid()
    ensures var parsed := Parse(old(stream.Rest()));
            && status == parsed.status
            && (status.Success? ==> result == parsed.record && stream.pos == old(stream.pos) + parsed.size)
            && (!status.Success? ==> result == record)
  {
    hide Le, De, Extend, Crc, U32Bytes, StringStatus, StringBytes, Parse, ParseValue, StringFailure;
    ghost var s := stream.Rest();
    var readStatus, kind := stream.ReadUint8();
    TypeParsed(s);
    if readStatus != ReadStatus.Success {
      return EndOfFile, record;
    }
    if kind != 1 && kind != 2 {
      return InvalidType, record;
    }
    var checksum := Extend(0, [kind]);
    assert checksum == Crc([kind]) by { FirstExtended([kind]); }

    var key;
    readStatus, key, checksum := ReadField(stream, MAX_KEY_SIZE, checksum, [kind]);
    KeyParsed(s, key);
    if readStatus != ReadStatus.Success {
      return StringFailure(readStatus), record;
    }
    ghost var afterKey := stream.Rest();
    assert [kind] + s[1..][..4 + |key|] == s[..5 + |key|];
    assert afterKey == s[5 + |key|..];

    var value;
    readStatus, value, checksum := ReadField(stream, MAX_VALUE_SIZE, checksum, s[..5 + |key|]);
    ValueParsed(s, if kind == 1 then Put else Delete, key, value);
    if readStatus != ReadStatus.Success {
      return StringFailure(readStatus), record;
    }
    assert s[..5 + |key|] + afterKey[..4 + |value|] == s[..9 + |key| + |value|];
    assert stream.Rest() == s[9 + |key| + |value|..];

    var storedChecksum;
    readStatus, storedChecksum := stream.ReadUint32();
    if readStatus != ReadStatus.Success {
      return RecordReadStatus.Truncated, record;
    }
    if checksum != storedChecksum {
      return ChecksumMismatch, record;
    }
    status := RecordReadStatus.Success;
    result := Record(if kind == 1 then Put else Delete, key, value);
  }

  /** A string that was read is, re-encoded, the bytes it was read from. */
  lemma StringReadBack(s: Bytes, maxLength: nat)
    requires StringStatus(s, maxLength) == ReadStatus.Success
    ensures |s| >= 4
    ensures var n := De(s[..4]);
            n <= maxLength && 4 + n <= |s| && StringBytes(s[4..][..n]) == s[..4 + n]
  {
    hide Le, De, Extend, Crc, U32Bytes;
    U32Decoded(s[..4]);
    var n := De(s[..4]);
    assert s[..4] + s[4..][..n] == s[..4 + n];
  }

  // ---- what a successful read means ----

  lemma ChecksumSound(s: Bytes, record: Record, size: nat)
    requires 9 <= size <= |s| && ParseChecksum(s, record, size).status.Success? && Body(record) == s[..size]
    ensures var p := ParseChecksum(s, record, size);
            && p.record == record && p.size == size + 4 == |Encode(record)| && Encode(record) == s[..size + 4]
  {
    hide Le, De, Crc, U32Bytes, Body;
    var stored := s[size..][..4];
    U32Decoded(stored);
    assert s[..size] + stored == s[..size + 4];
  }

  lemma ValueSound(s: Bytes, kind: RecordType, key: Bytes)
    requires 5 + |key| <= |s| && ParseValue(s, kind, key).status.Success?
    requires s[..5 + |key|] == [TypeByte(kind)] + StringBytes(key)
    ensures var p := ParseValue(s, kind, key);
            && p.record.kind == kind && p.record.key == key && |p.record.value| <= MAX_VALUE_SIZE
            && p.size == |Encode(p.record)| <= |s| && Encode(p.record) == s[..p.size]
  {
    hide Le, De, Crc, U32Bytes, StringBytes, ParseChecksum, Encode, StringStatus;
    var rest := s[5 + |key|..];
    StringReadBack(rest, MAX_VALUE_SIZE);
    var n := De(rest[..4]);
    var record, size := Record(kind, key, rest[4..][..n]), 9 + |key| + n;
    assert s[..5 + |key|] + rest[..4 + n] == s[..size];
    ChecksumSound(s, record, size);
  }

  lemma ParseSound(s: Bytes)
    requires Parse(s).status.Success?
    ensures var p := Parse(s);
            && Serializable(p.record) && p.size == |Encode(p.record)| <= |s|
            && Encode(p.record) == s[..p.size]
  {
    hide Le, De, Crc, U32Bytes, StringBytes, ParseValue, Encode, StringStatus;
    var rest := s[1..];
    StringReadBack(rest, MAX_KEY_SIZE);
    var n := De(rest[..4]);
    assert [s[0]] + rest[..4 + n] == s[..5 + n];
    ValueSound(s, if s[0] == 1 then Put else Delete, rest[4..][..n]);
  }

  // ---- every verdict, over the bytes ----

  /** The bytes start with a type that exists. */
  predicate Typed(s: Bytes)
  {
    s != [] && (s[0] == 1 || s[0] == 2)
  }

  /** The number in the four bytes at `p`, if they are there. */
  function FieldAt(s: Bytes, p: nat): nat
  {
    if p + 4 <= |s| then De(s[p..p + 4]) else 0
  }

  /** Type and key are there in full, and the key is within its limit. */
  predicate KeyThere(s: Bytes)
  {
    Typed(s) && |s| >= 5 && FieldAt(s, 1) <= 1024 && 5 + FieldAt(s, 1) <= |s|
  }

  /** So is the value. */
  predicate ValueThere(s: Bytes)
  {
    var v := 5 + FieldAt(s, 1);
    KeyThere(s) && v + 4 <= |s| && FieldAt(s, v) <= 16_777_216 && v + 4 + FieldAt(s, v) <= |s|
  }

  /** Where the stored checksum is. */
  function ChecksumAt(s: Bytes): nat
  {
    9 + FieldAt(s, 1) + FieldAt(s, 5 + FieldAt(s, 1))
  }

  /**
   * `read_record` on any bytes: exactly when it gives each verdict. A length beyond its limit counts as soon
   * as its four bytes are there, before the bytes it announces are looked for; the first fault decides.
   */
  lemma ParseVerdicts(s: Bytes)
    ensures Parse(s).status == EndOfFile <==> s == []
    ensures Parse(s).status == InvalidType <==> s != [] && !Typed(s)
    ensures Parse(s).status == RecordReadStatus.InvalidLength <==>
              || (Typed(s) && |s| >= 5 && FieldAt(s, 1) > 1024)
              || (KeyThere(s) && |s| >= 9 + FieldAt(s, 1) && FieldAt(s, 5 + FieldAt(s, 1)) > 16_777_216)
    ensures Parse(s).status == ChecksumMismatch <==>
              ValueThere(s) && |s| >= ChecksumAt(s) + 4 && FieldAt(s, ChecksumAt(s)) != Crc(s[..ChecksumAt(s)])
    ensures Parse(s).status == RecordReadStatus.Success <==>
              ValueThere(s) && |s| >= ChecksumAt(s) + 4 && FieldAt(s, ChecksumAt(s)) == Crc(s[..ChecksumAt(s)])
    ensures Parse(s).status == RecordReadStatus.Truncated <==>
              && Typed(s)
              && (|| |s| < 5
                  || (FieldAt(s, 1) <= 1024 && |s| < 9 + FieldAt(s, 1))
                  || (KeyThere(s) && FieldAt(s, 5 + FieldAt(s, 1)) <= 16_777_216 && |s| < ChecksumAt(s) + 4))
  {
    hide De, Crc, ParseValue;
    if Typed(s) {
      var rest := s[1..];
      if |s| >= 5 {
        assert rest[..4] == s[1..5];
        if KeyThere(s) {
          ValueVerdicts(s, if s[0] == 1 then Put else Delete, rest[4..][..FieldAt(s, 1)]);
        }
      }
    }
  }

  /** The same from the value on. */
  lemma ValueVerdicts(s: Bytes, kind: RecordType, key: Bytes)
    requires KeyThere(s) && |key| == FieldAt(s, 1)
    ensures var v, status := 5 + |key|, ParseValue(s, kind, key).status;
            && status != EndOfFile && status != InvalidType
            && (status == RecordReadStatus.InvalidLength <==> v + 4 <= |s| && FieldAt(s, v) > 16_777_216)
            && (status == RecordReadStatus.Truncated <==>
                  v + 4 > |s| || (FieldAt(s, v) <= 16_777_216 && |s| < ChecksumAt(s) + 4))
            && (status == ChecksumMismatch <==>
                  && ValueThere(s) && |s| >= ChecksumAt(s) + 4
                  && FieldAt(s, ChecksumAt(s)) != Crc(s[..ChecksumAt(s)]))
  {
    hide De, Crc;
    var v := 5 + |key|;
    var rest := s[v..];
    if v + 4 <= |s| {
      assert rest[..4] == s[v..v + 4];
      if ValueThere(s) {
        var c := ChecksumAt(s);
        if c + 4 <= |s| {
          assert s[c..][..4] == s[c..c + 4];
        }
      }
    }
  }

  /** Every serializable record reads back as itself, whatever bytes follow it. */
  lemma ParseEncoded(r: Record, rest: Bytes)
    requires Serializable(r)
    ensures Parse(Encode(r) + rest) == ReadResult(RecordReadStatus.Success, r, |Encode(r)|)
  {
    hide Le, De, Crc, U32Bytes, StringStatus, StringBytes;
    var s := Encode(r) + rest;
    var crc := Crc(Body(r));
    var tail := U32Bytes(crc) + rest;
    var afterKey := StringBytes(r.value) + tail;
    var afterType := StringBytes(r.key) + afterKey;
    assert s[0] == TypeByte(r.kind) && s[1..] == afterType;
    assert s[5 + |r.key|..] == afterKey && s[9 + |r.key| + |r.value|..] == tail;
    StringRoundTrip(r.key, afterKey, MAX_KEY_SIZE);
    StringRoundTrip(r.value, tail, MAX_VALUE_SIZE);
    assert s[..9 + |r.key| + |r.value|] == Body(r);
    assert tail[..4] == U32Bytes(crc);
    CrcIsU32(Body(r));
    U32RoundTrip(crc);
  }

  /**
   * `read_record` succeeds exactly on the byte strings that begin with the encoding of a record
   * within the limits, and then returns that record and consumes that encoding.
   */
  lemma ParseExact(s: Bytes, r: Record)
    ensures Parse(s) == ReadResult(RecordReadStatus.Success, r, |Encode(r)|) <==> Serializable(r) && Encode(r) <= s
  {
    if Parse(s) == ReadResult(RecordReadStatus.Success, r, |Encode(r)|) {
      ParseSound(s);
    }
    if Serializable(r) && Encode(r) <= s {
      assert s == Encode(r) + s[|Encode(r)|..];
      ParseEncoded(r, s[|Encode(r)|..]);
    }
  }

  /** Reading a strict prefix of a record: nothing there is end of file, anything else is truncation. */
  lemma ParsePrefix(r: Record, k: nat)
    requires Serializable(r) && k < |Encode(r)|
    ensures Parse(Encode(r)[..k]).status == if k == 0 then EndOfFile else RecordReadStatus.Truncated
  {
    hide Le, De, Extend, Crc, U32Bytes;
    var s := Encode(r)[..k];
    if k > 0 {
      assert s[0] == TypeByte(r.kind);
      var afterType := s[1..];
      var keyPart, valuePart := StringBytes(r.key), StringBytes(r.value);
      var whole := keyPart + valuePart + U32Bytes(Crc(Body(r)));
      assert Encode(r) == [TypeByte(r.kind)] + whole;
      assert afterType == whole[..k - 1];
      PrefixOfString(r.key, valuePart + U32Bytes(Crc(Body(r))), k - 1, MAX_KEY_SIZE);
      assert whole == keyPart + (valuePart + U32Bytes(Crc(Body(r))));
      if k - 1 >= |keyPart| {
        var afterKey := s[5 + |r.key|..];
        assert afterKey == (valuePart + U32Bytes(Crc(Body(r))))[..k - 1 - |keyPart|];
        PrefixOfString(r.value, U32Bytes(Crc(Body(r))), k - 1 - |keyPart|, MAX_VALUE_SIZE);
      }
    }
  }

  /** Reading a string from the first `k` bytes of its encoding and what follows it. */
  lemma PrefixOfString(s: Bytes, rest: Bytes, k: nat, maxLength: nat)
    requires |s| <= maxLength <= MAX_U32 && k <= 4 + |s| + |rest|
    ensures var p := (StringBytes(s) + rest)[..k];
            && StringStatus(p, maxLength)
               == (if k == 0 then ReadStatus.EndOfInput
                   else if k < 4 + |s| then ReadStatus.Truncated else ReadStatus.Success)
            && (k >= 4 ==> De(p[..4]) == |s|)
  {
    hide Le, De, Extend, Crc, U32Bytes;
    var p := (StringBytes(s) + rest)[..k];
    if k >= 4 {
      assert p[..4] == U32Bytes(|s|);
      U32RoundTrip(|s|);
    }
  }

  lemma StringVerdictFinal(s: Bytes, more: Bytes, maxLength: nat)
    requires StringStatus(s, maxLength) in {ReadStatus.Success, ReadStatus.InvalidLength}
    ensures |s| >= 4 && (s + more)[..4] == s[..4]
    ensures StringStatus(s + more, maxLength) == StringStatus(s, maxLength)
  {
    hide De;
    assert (s + more)[..4] == s[..4];
  }

  lemma SlicesKept(s: Bytes, more: Bytes, n: nat)
    requires n <= |s|
    ensures (s + more)[..n] == s[..n] && (s + more)[n..] == s[n..] + more
  {
  }

  lemma ChecksumVerdictFinal(s: Bytes, more: Bytes, record: Record, size: nat)
    requires 9 <= size <= |s| && !ParseChecksum(s, record, size).status.Truncated?
    ensures ParseChecksum(s + more, record, size) == ParseChecksum(s, record, size)
  {
    hide De, Crc;
    SlicesKept(s, more, size);
    SlicesKept(s[size..], more, 4);
  }

  lemma ValueVerdictFinal(s: Bytes, more: Bytes, kind: RecordType, key: Bytes)
    requires 5 + |key| <= |s| && !ParseValue(s, kind, key).status.Truncated?
    ensures ParseValue(s + more, kind, key) == ParseValue(s, kind, key)
  {
    hide De, StringStatus, ParseChecksum;
    var rest := s[5 + |key|..];
    SlicesKept(s, more, 5 + |key|);
    StringVerdictFinal(rest, more, MAX_VALUE_SIZE);
    if StringStatus(rest, MAX_VALUE_SIZE) == ReadStatus.Success {
      var n := De(rest[..4]);
      StringReadBack(rest, MAX_VALUE_SIZE);
      SlicesKept(rest, more, 4);
      SlicesKept(rest[4..], more, n);
      ChecksumVerdictFinal(s, more, Record(kind, key, rest[4..][..n]), 9 + |key| + n);
    }
  }

  /** Only a read that ran out of bytes can change when bytes are appended: other verdicts are final. */
  lemma VerdictFinal(s: Bytes, more: Bytes)
    requires !Parse(s).status.EndOfFile? && !Parse(s).status.Truncated?
    ensures Parse(s + more) == Parse(s)
  {
    hide De, StringStatus, ParseValue;
    SlicesKept(s, more, 1);
    if s[0] == 1 || s[0] == 2 {
      var rest := s[1..];
      StringVerdictFinal(rest, more, MAX_KEY_SIZE);
      if StringStatus(rest, MAX_KEY_SIZE) == ReadStatus.Success {
        var n := De(rest[..4]);
        StringReadBack(rest, MAX_KEY_SIZE);
        SlicesKept(rest, more, 4);
        SlicesKept(rest[4..], more, n);
        ValueVerdictFinal(s, more, if s[0] == 1 then Put else Delete, rest[4..][..n]);
      }
    }
  }

  /** A read that runs out of bytes had fewer of them than the longest record has. */
  lemma TruncatedIsShort(s: Bytes)
    requires Parse(s).status.Truncated?
    ensures 0 < |s| < 13 + MAX_KEY_SIZE + MAX_VALUE_SIZE
  {
  }

  /** No encoding is a proper prefix of another: the log needs no separators. */
  lemma PrefixFree(a: Record, b: Record)
    requires Serializable(a) && Serializable(b) && Encode(a) <= Encode(b)
    ensures a == b
  {
    ParseExact(Encode(b), a);
    ParseExact(Encode(b), b);
  }

  // ---- error detection ----

  /** `t` is the encoding of `r` with its eight length bytes intact. */
  predicate SameLengthFields(r: Record, t: Bytes)
  {
    var e := Encode(r);
    && |t| == |e|
    && t[1..5] == e[1..5]
    && t[5 + |r.key|..9 + |r.key|] == e[5 + |r.key|..9 + |r.key|]
  }

  /** With its length fields intact, a record reads to its end, whatever else happened to it. */
  lemma LengthFieldsDecide(r: Record, t: Bytes, rest: Bytes)
    requires Serializable(r) && SameLengthFields(r, t)
    ensures Parse(t + rest).status in {RecordReadStatus.Success, ChecksumMismatch, InvalidType}
    ensures Parse(t + rest).status.Success? ==> Parse(t + rest).size == |t|
  {
    hide Le, De, Extend, Crc, U32Bytes;
    var e, s := Encode(r), t + rest;
    var afterType := s[1..];
    assert afterType[..4] == t[1..5] == e[1..5] == U32Bytes(|r.key|);
    U32RoundTrip(|r.key|);
    var afterKey := s[5 + |r.key|..];
    assert afterKey[..4] == t[5 + |r.key|..9 + |r.key|] == e[5 + |r.key|..9 + |r.key|];
    assert e[5 + |r.key|..9 + |r.key|] == U32Bytes(|r.value|);
    U32RoundTrip(|r.value|);
  }

  /**
   * Any damage confined to four consecutive bytes of a record and sparing its length fields (the
   * type byte, key bytes, value bytes, checksum bytes, or value and checksum bytes together) is
   * noticed, and told apart from a record that was cut short.
   */
  lemma DamageDetected(r: Record, t: Bytes, i: nat, rest: Bytes)
    requires Serializable(r) && SameLengthFields(r, t) && t != Encode(r)
    requires i + 4 <= |t| && t[..i] == Encode(r)[..i] && t[i + 4..] == Encode(r)[i + 4..]
    ensures Parse(t + rest).status in {ChecksumMismatch, InvalidType}
  {
    hide Le, De, Extend, Crc, U32Bytes, Parse;
    var s := t + rest;
    LengthFieldsDecide(r, t, rest);
    if Parse(s).status.Success? {
      var q := Parse(s).record;
      ParseSound(s);
      assert Encode(q) == t;
      SealedResidue(Body(r));
      SealedResidue(Body(q));
      WindowChangesSeal(Encode(r), t, i);
    }
  }
}
