/** The byte codecs of src/utils.cpp: little-endian integers and length-prefixed strings. */
module Codec {

  type byte = x: int | 0 <= x < 256

  type Bytes = seq<byte>

  const MAX_U32: nat := 0xFFFF_FFFF
  const MAX_U64: nat := 0xFFFF_FFFF_FFFF_FFFF

  lemma Associative<T>(a: seq<T>, b: seq<T>, c: seq<T>)
    ensures a + (b + c) == (a + b) + c
  {
  }

  lemma SliceOfSlice<T>(s: seq<T>, a: nat, b: nat, c: nat, d: nat)
    requires a <= b <= |s| && c <= d <= b - a
    ensures s[a..b][c..d] == s[a + c..a + d]
  {
    var inner := s[a..b];
    assert forall i | 0 <= i < d - c :: inner[c..d][i] == inner[c + i] == s[a + c + i];
  }

  /** 256 to the power `w`: the number of values `w` bytes can hold. */
  function Pow256(w: nat): (p: nat)
    ensures p > 0
  {
    if w == 0 then 1 else 256 * Pow256(w - 1)
  }

  /** The `w` low-order bytes of `n`, least significant first. */
  function Le(n: nat, w: nat): (s: Bytes)
    ensures |s| == w
    decreases w, n
  {
    if w == 0 then [] else [n % 256] + Le(n / 256, w - 1)
  }

  /** The number whose little-endian digits are `s`. */
  function De(s: Bytes): nat
  {
    if s == [] then 0 else s[0] + 256 * De(s[1..])
  }

  function U32Bytes(n: nat): (s: Bytes)
    ensures |s| == 4
  {
    Le(n, 4)
  }

  function U64Bytes(n: nat): (s: Bytes)
    ensures |s| == 8
  {
    Le(n, 8)
  }

  lemma {:induction false} DecodeEncoded(n: nat, w: nat)
    requires n < Pow256(w)
    ensures De(Le(n, w)) == n
    decreases w
  {
    if w > 0 {
      DecodeEncoded(n / 256, w - 1);
      assert Le(n, w)[1..] == Le(n / 256, w - 1);
    }
  }

  lemma {:induction false} EncodeDecoded(s: Bytes)
    ensures De(s) < Pow256(|s|)
    ensures Le(De(s), |s|) == s
  {
    if s != [] {
      EncodeDecoded(s[1..]);
      var d := De(s[1..]);
      LowDigit(s[0], d);
      assert Le(De(s), |s|) == [De(s) % 256] + Le(De(s) / 256, |s| - 1);
    }
  }

  lemma LowDigit(b: byte, d: nat)
    ensures (b + 256 * d) % 256 == b && (b + 256 * d) / 256 == d
  {
  }

  lemma PowersOf256()
    ensures Pow256(4) == MAX_U32 + 1
    ensures Pow256(8) == MAX_U64 + 1
  {
    var two, four, six := 2, 4, 6;
    assert Pow256(two) == 256 * (256 * Pow256(two - 2));
    assert Pow256(four) == 256 * (256 * Pow256(four - 2));
    assert Pow256(six) == 256 * (256 * Pow256(six - 2));
    assert Pow256(six + 2) == 256 * (256 * Pow256(six));
  }

  lemma U32RoundTrip(n: nat)
    requires n <= MAX_U32
    ensures De(U32Bytes(n)) == n
  {
    PowersOf256();
    DecodeEncoded(n, 4);
  }

  lemma U64RoundTrip(n: nat)
    requires n <= MAX_U64
    ensures De(U64Bytes(n)) == n
  {
    PowersOf256();
    DecodeEncoded(n, 8);
  }

  lemma U32Decoded(s: Bytes)
    requires |s| == 4
    ensures De(s) <= MAX_U32 && U32Bytes(De(s)) == s
  {
    PowersOf256();
    EncodeDecoded(s);
  }

  lemma U64Decoded(s: Bytes)
    requires |s| == 8
    ensures De(s) <= MAX_U64 && U64Bytes(De(s)) == s
  {
    PowersOf256();
    EncodeDecoded(s);
  }

  /** Appending a more significant digit, as the reading loops do. */
  lemma {:induction false} DecodeSnoc(s: Bytes, b: byte)
    ensures De(s + [b]) == De(s) + b * Pow256(|s|)
  {
    if s == [] {
    } else {
      DecodeSnoc(s[1..], b);
      assert (s + [b])[1..] == s[1..] + [b];
      calc {
        De(s + [b]);
        s[0] + 256 * (De(s[1..]) + b * Pow256(|s| - 1));
        s[0] + 256 * De(s[1..]) + b * (256 * Pow256(|s| - 1));
      }
    }
  }

  /** What `write_string` emits for a string within its limit. */
  function StringBytes(s: Bytes): (r: Bytes)
    ensures |r| == 4 + |s|
  {
    U32Bytes(|s|) + s
  }

  datatype ReadStatus = Success | EndOfInput | Truncated | InvalidLength

  /** A binary input stream over a byte sequence: `std::istream` as this program uses it. */
  class InputStream {
    const bytes: Bytes
    var pos: nat

    constructor (bytes: Bytes)
      ensures this.bytes == bytes && pos == 0
    {
      this.bytes := bytes;
      pos := 0;
    }

    ghost predicate Valid()
      reads this
    {
      pos <= |bytes|
    }

    /** The bytes not yet consumed. */
    ghost function Rest(): Bytes
      reads this
      requires Valid()
    {
      bytes[pos..]
    }

    method Seek(p: nat)
      requires p <= |bytes|
      modifies this
      ensures pos == p && Valid()
    {
      pos := p;
    }

    /** `stream.read` of one byte: at the end it fails and consumes nothing. */
    method ReadUint8() returns (status: ReadStatus, n: byte)
      requires Valid()
      modifies this
      ensures Valid()
      ensures status == if old(Rest()) == [] then EndOfInput else Success
      ensures status.Success? ==> n == old(Rest())[0] && Rest() == old(Rest())[1..] && pos == old(pos) + 1
      ensures status.EndOfInput? ==> Rest() == []
    {
      if pos == |bytes| {
        return EndOfInput, 0;
      }
      n := bytes[pos];
      pos := pos + 1;
      status := Success;
    }

    /**
     * The loop shared by `read_uint32` (`w == 4`) and `read_uint64` (`w == 8`): the status is fixed
     * by the number of bytes available, and on success the value is the number they encode. Adding
     * `b * scale` is the source's `|= n << (i * 8)`, whose operands share no bit.
     */
    method ReadUint(w: nat) returns (status: ReadStatus, n: nat)
      requires Valid() && w > 0
      modifies this
      ensures Valid()
      ensures status == if old(|Rest()|) >= w then Success
                        else if old(|Rest()|) == 0 then EndOfInput else Truncated
      ensures status.Success? ==> n == De(old(Rest())[..w]) && Rest() == old(Rest())[w..] && pos == old(pos) + w
      ensures !status.Success? ==> Rest() == []
    {
      n := 0;
      var scale: nat := 1;
      ghost var rest := Rest();
      for i := 0 to w
        invariant Valid() && i <= |rest| && Rest() == rest[i..] && pos == old(pos) + i
        invariant n == De(rest[..i])
        invariant scale == Pow256(i)
      {
        var s, b := ReadUint8();
        if s != Success {
          return if i == 0 then EndOfInput else Truncated, n;
        }
        DecodeSnoc(rest[..i], b);
        assert rest[..i + 1] == rest[..i] + [b];
        n := n + b * scale;
        scale := 256 * scale;
      }
      status := Success;
    }

    method ReadUint32() returns (status: ReadStatus, n: nat)
      requires Valid()
      modifies this
      ensures Valid()
      ensures status == if old(|Rest()|) >= 4 then Success
                        else if old(|Rest()|) == 0 then EndOfInput else Truncated
      ensures status.Success? ==> n == De(old(Rest())[..4]) && Rest() == old(Rest())[4..] && pos == old(pos) + 4
      ensures !status.Success? ==> Rest() == []
    {
      status, n := ReadUint(4);
    }

    method ReadUint64() returns (status: ReadStatus, n: nat)
      requires Valid()
      modifies this
      ensures Valid()
      ensures status == if old(|Rest()|) >= 8 then Success
                        else if old(|Rest()|) == 0 then EndOfInput else Truncated
      ensures status.Success? ==> n == De(old(Rest())[..8]) && Rest() == old(Rest())[8..] && pos == old(pos) + 8
      ensures !status.Success? ==> Rest() == []
    {
      status, n := ReadUint(8);
    }

    /**
     * `read_string`. A length above the limit is rejected with only the prefix consumed and the
     * caller's buffer `before` unchanged; a short payload consumes everything that was left.
     */
    method ReadString(before: Bytes, maxLength: nat) returns (status: ReadStatus, result: Bytes)
      requires Valid()
      modifies this
      ensures Valid()
      ensures status == StringStatus(old(Rest()), maxLength)
      ensures status.EndOfInput? <==> old(|Rest()|) == 0
      ensures status.InvalidLength? <==> old(|Rest()|) >= 4 && De(old(Rest())[..4]) > maxLength
      ensures status.Truncated? <==>
                || 0 < old(|Rest()|) < 4
                || (old(|Rest()|) >= 4 && old(|Rest()|) - 4 < De(old(Rest())[..4]) <= maxLength)
      ensures status.Success? ==>
                && result == old(Rest())[4..][..De(old(Rest())[..4])]
                && Rest() == old(Rest())[4 + |result|..] && pos == old(pos) + 4 + |result|
      ensures status.InvalidLength? ==> result == before && Rest() == old(Rest())[4..]
      ensures status.Truncated? || status.EndOfInput? ==> Rest() == []
    {
      result := before;
      ghost var rest := Rest();
      var length;
      status, length := ReadUint32();
      if status != Success {
        return;
      }
      if length > maxLength {
        status := InvalidLength;
        return;
      }
      if |bytes| - pos < length {
        pos := |bytes|;
        status := Truncated;
        return;
      }
      assert Rest() == rest[4..];
      result := bytes[pos..pos + length];
      pos := pos + length;
    }
  }

  /** The status of reading a string from `s`, by what `s` holds. */
  function StringStatus(s: Bytes, maxLength: nat): ReadStatus
  {
    if |s| == 0 then EndOfInput
    else if |s| < 4 then Truncated
    else if De(s[..4]) > maxLength then InvalidLength
    else if |s| - 4 < De(s[..4]) then Truncated
    else Success
  }

  /** A binary output stream that collects what is written to it. */
  class OutputStream {
    var bytes: Bytes

    constructor ()
      ensures bytes == []
    {
      bytes := [];
    }

    method WriteUint8(n: byte)
      modifies this
      ensures bytes == old(bytes) + [n]
    {
      bytes := bytes + [n];
    }

    /** The four bytes of `write_uint32`, each one shifted down and masked. */
    method WriteUint32(n: nat)
      modifies this
      ensures bytes == old(bytes) + U32Bytes(n)
    {
      bytes := bytes + [n % 256, n / 0x100 % 256, n / 0x1_0000 % 256, n / 0x100_0000 % 256];
      FourDigits(n);
    }

    /** The eight bytes of `write_uint64`. */
    method WriteUint64(n: nat)
      modifies this
      ensures bytes == old(bytes) + U64Bytes(n)
    {
      var high := n / 0x1_0000_0000;
      bytes := bytes + [n % 256, n / 0x100 % 256, n / 0x1_0000 % 256, n / 0x100_0000 % 256,
                        high % 256, high / 0x100 % 256, high / 0x1_0000 % 256, high / 0x100_0000 % 256];
      FourDigits(n);
      FourDigits(high);
      LowAndHighHalves(n, 4);
    }

    /** `write_string`: an oversized string is refused before anything is written. */
    method WriteString(s: Bytes, maxLength: nat) returns (ok: bool)
      requires maxLength <= MAX_U32
      modifies this
      ensures ok == (|s| <= maxLength)
      ensures bytes == if ok then old(bytes) + StringBytes(s) else old(bytes)
    {
      if |s| > maxLength {
        return false;
      }
      WriteUint32(|s|);
      bytes := bytes + s;
      ok := true;
    }
  }

  lemma FourDigits(n: nat)
    ensures U32Bytes(n) == [n % 256, n / 0x100 % 256, n / 0x1_0000 % 256, n / 0x100_0000 % 256]
  {
    var n1, n2, n3 := n / 256, n / 256 / 256, n / 256 / 256 / 256;
    assert n2 == n / 0x1_0000 && n3 == n / 0x100_0000;
    assert Le(n3, 1) == [n3 % 256];
    assert Le(n2, 2) == [n2 % 256, n3 % 256];
    assert Le(n1, 3) == [n1 % 256, n2 % 256, n3 % 256];
  }

  lemma TwoLowDigits(n: nat, w: nat)
    ensures Le(n, w + 2) == [n % 256, n / 0x100 % 256] + Le(n / 0x1_0000, w)
  {
    assert n / 256 / 256 == n / 0x1_0000;
    assert Le(n / 256, w + 1) == [n / 256 % 256] + Le(n / 256 / 256, w);
  }

  lemma LowAndHighHalves(n: nat, w: nat)
    requires w == 4
    ensures Le(n, w + 4) == Le(n, w) + Le(n / 0x1_0000_0000, w)
  {
    TwoLowDigits(n, w + 2);
    TwoLowDigits(n / 0x1_0000, w);
    TwoLowDigits(n, w - 2);
    TwoLowDigits(n / 0x1_0000, w - 4);
    assert n / 0x1_0000 / 0x1_0000 == n / 0x1_0000_0000;
  }

  /** Reading back a written string gives the string, whatever follows it. */
  lemma StringRoundTrip(s: Bytes, rest: Bytes, maxLength: nat)
    requires |s| <= maxLength <= MAX_U32
    ensures StringStatus(StringBytes(s) + rest, maxLength) == Success
    ensures De((StringBytes(s) + rest)[..4]) == |s|
    ensures (StringBytes(s) + rest)[4..][..|s|] == s
    ensures (StringBytes(s) + rest)[4 + |s|..] == rest
  {
    U32RoundTrip(|s|);
    assert (StringBytes(s) + rest)[..4] == U32Bytes(|s|);
  }
}
