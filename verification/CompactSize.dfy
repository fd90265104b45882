/** The variable-length integer of the consensus encoding, and the two loops that
    decode it from a reader that may deliver its bytes in any pieces. */
module CompactSize {
  import opened Words
  import opened Wrappers

  const PREFIX_U16: u8 := 0xFD
  const PREFIX_U32: u8 := 0xFE
  const PREFIX_U64: u8 := 0xFF

  datatype Error = UnexpectedEof(required: nat, received: nat) | NonMinimal(value: u64)

  function Encode(value: u64): (s: seq<u8>) {
    if value <= 0xFC then [value]
    else if value <= 0xFFFF then [PREFIX_U16] + LeBytes(value, 2)
    else if value <= 0xFFFF_FFFF then [PREFIX_U32] + LeBytes(value, 4)
    else [PREFIX_U64] + LeBytes(value, 8)
  }

  /** Total length of an encoding that starts with `first`. */
  function EncodedLen(first: u8): nat {
    if first == PREFIX_U64 then 9 else if first == PREFIX_U32 then 5 else if first == PREFIX_U16 then 3 else 1
  }

  function Payload(buf: seq<u8>, n: nat): (r: Result<u64, Error>)
    requires buf != [] && n <= 8
  {
    if |buf| - 1 != n then Err(UnexpectedEof(n, |buf| - 1))
    else PayloadBound(buf[1..]); Ok(LeNat(buf[1..]))
  }

  lemma PayloadBound(s: seq<u8>)
    requires |s| <= 8
    ensures LeNat(s) < 0x1_0000_0000_0000_0000
  {
    LeNatBound(s);
    PowMono(0x100, |s|, 8);
    Pow256Values();
  }

  function AtLeast(r: Result<u64, Error>, least: u64): Result<u64, Error> {
    match r
    case Ok(x) => if x < least then Err(NonMinimal(x)) else Ok(x)
    case Err(e) => Err(e)
  }

  /** Interprets a complete or cut-off buffer, refusing encodings that are longer than needed. */
  function DecodeU64(buf: seq<u8>): (r: Result<u64, Error>) {
    if buf == [] then Err(UnexpectedEof(1, 0))
    else if buf[0] == PREFIX_U64 then AtLeast(Payload(buf, 8), 0x1_0000_0000)
    else if buf[0] == PREFIX_U32 then AtLeast(Payload(buf, 4), 0x1_0000)
    else if buf[0] == PREFIX_U16 then AtLeast(Payload(buf, 2), 0xFD)
    else Ok(buf[0])
  }

  /** What decoding the front of `data` yields and what it leaves. */
  datatype Decoding = Decoding(result: Result<u64, Error>, rest: seq<u8>)

  function DecodeStream(data: seq<u8>): (d: Decoding)
    ensures |d.rest| <= |data|
  {
    var n := if data == [] then 0 else Min(EncodedLen(data[0]), |data|);
    Decoding(DecodeU64(data[..n]), data[n..])
  }

  /** An encoding followed by anything decodes to its value and leaves the rest. */
  lemma DecodeEncoded(value: u64, rest: seq<u8>)
    ensures DecodeStream(Encode(value) + rest) == Decoding(Ok(value), rest)
  {
    var s := Encode(value);
    EncodedValue(value);
    assert (s + rest)[..|s|] == s && (s + rest)[|s|..] == rest && (s + rest)[0] == s[0];
  }

  lemma EncodedValue(value: u64)
    ensures |Encode(value)| == EncodedLen(Encode(value)[0]) && DecodeU64(Encode(value)) == Ok(value)
  {
    hide LeBytes, LeNat, Pow;
    var s := Encode(value);
    if value > 0xFC {
      assert s[1..] == LeBytes(value, |s| - 1);
      LeNatOfBytes(value, |s| - 1);
      Pow256Values();
    }
  }

  /** Nothing but an encoding decodes: the code is minimal and self-delimiting. */
  lemma DecodedIsEncoding(data: seq<u8>, value: u64, rest: seq<u8>)
    ensures DecodeStream(data) == Decoding(Ok(value), rest) <==> data == Encode(value) + rest
  {
    if DecodeStream(data) == Decoding(Ok(value), rest) {
      var n := EncodedLen(data[0]);
      var s := data[..n];
      assert data == s + rest;
      Pow256Values();
      if n > 1 {
        LeBytesOfNat(s[1..]);
        LeNatBound(s[1..]);
        assert s == [s[0]] + s[1..];
      }
      assert s == Encode(value);
    } else if data == Encode(value) + rest {
      DecodeEncoded(value, rest);
    }
  }

  /** A cut-off encoding says how many bytes should follow its first one and how many do. */
  lemma CutOff(value: u64, n: nat)
    requires n < |Encode(value)|
    ensures DecodeU64(Encode(value)[..n])
      == Err(if n == 0 then UnexpectedEof(1, 0) else UnexpectedEof(|Encode(value)| - 1, n - 1))
  {
    hide LeBytes, LeNat;
    EncodedValue(value);
  }

  /** The wire form in numbers: one byte below 0xFD, and otherwise a prefix byte for the width and
      the number least significant byte first, refused when a shorter form would do. */
  lemma WireForm16(a: u8, b: u8)
    ensures a < 0xFD ==> DecodeU64([a]) == Ok(a)
    ensures DecodeU64([0xFD, a, b]) == if Le16(a, b) < 0xFD then Err(NonMinimal(Le16(a, b))) else Ok(Le16(a, b))
  {
    hide LeNat;
    TwoBytes([a, b]);
    assert [0xFD, a, b][1..] == [a, b];
  }

  lemma WireForm32(low: seq<u8>)
    requires |low| == 4
    ensures var x := Le32(low[0], low[1], low[2], low[3]);
      DecodeU64([0xFE] + low) == if x < 0x1_0000 then Err(NonMinimal(x)) else Ok(x)
  {
    hide LeNat;
    FourBytes(low);
    assert ([0xFE] + low)[1..] == low;
  }

  lemma WireForm64(low: seq<u8>, high: seq<u8>)
    requires |low| == |high| == 4
    ensures var x := Le64(Le32(low[0], low[1], low[2], low[3]), Le32(high[0], high[1], high[2], high[3]));
      DecodeU64([0xFF] + low + high) == if x < 0x1_0000_0000 then Err(NonMinimal(x)) else Ok(x)
  {
    hide LeNat, Le32, Pow;
    FourBytes(low);
    FourBytes(high);
    LeNatConcat(low, high);
    Pow256Values();
    assert ([0xFF] + low + high)[1..] == low + high;
  }

  function Le16(a: int, b: int): u64
    requires 0 <= a < 0x100 && 0 <= b < 0x100
  {
    a + 0x100 * b
  }

  function Le32(a: int, b: int, c: int, d: int): u64
    requires 0 <= a < 0x100 && 0 <= b < 0x100 && 0 <= c < 0x100 && 0 <= d < 0x100
    ensures Le32(a, b, c, d) < 0x1_0000_0000
  {
    a + 0x100 * b + 0x1_0000 * c + 0x100_0000 * d
  }

  function Le64(low: int, high: int): u64
    requires 0 <= low < 0x1_0000_0000 && 0 <= high < 0x1_0000_0000
  {
    low + 0x1_0000_0000 * high
  }

  lemma TwoBytes(s: seq<u8>)
    requires |s| == 2
    ensures LeNat(s) == Le16(s[0], s[1])
  {
    assert s[1..][1..] == [];
    assert LeNat(s[1..]) == s[1] + 0x100 * LeNat([]);
  }

  lemma FourBytes(s: seq<u8>)
    requires |s| == 4
    ensures LeNat(s) == Le32(s[0], s[1], s[2], s[3])
  {
    assert s[1..][1..] == s[2..];
    assert LeNat(s[1..]) == s[1] + 0x100 * LeNat(s[2..]);
    TwoBytes(s[2..]);
  }

  class Decoder {
    var buf: seq<u8>

    ghost predicate Valid()
      reads this
    {
      buf != [] ==> |buf| <= EncodedLen(buf[0])
    }

    constructor ()
      ensures Valid() && buf == []
    {
      buf := [];
    }

    /** Takes what the encoding still needs from the front of `bytes`. */
    method PushBytes(bytes: seq<u8>) returns (rest: seq<u8>, ready: bool)
      requires Valid()
      modifies this
      ensures Valid() && buf + rest == old(buf) + bytes && old(buf) <= buf
      ensures bytes == [] ==> !ready
      ensures bytes != [] ==> buf != [] && (ready <==> |buf| == EncodedLen(buf[0])) && (rest != [] ==> ready)
      ensures |old(buf)| == 0 && bytes != [] ==> |rest| < |bytes|
    {
      rest := bytes;
      if |bytes| == 0 {
        return rest, false;
      }
      if |buf| == 0 {
        buf := [bytes[0]];
        rest := bytes[1..];
      }
      var len := EncodedLen(buf[0]);
      var toCopy := Min(|rest|, len - |buf|);
      assert buf + rest == old(buf) + bytes;
      buf := buf + rest[..toCopy];
      rest := rest[toCopy..];
      ready := |buf| == len;
    }

    function ReadLimit(): (n: nat)
      reads this
    {
      if |buf| == 0 then 1
      else if EncodedLen(buf[0]) > |buf| then EncodedLen(buf[0]) - |buf|
      else 0
    }

    /** On the way through an encoding the limit is what is missing of it, and before its first byte
        it is one, so a reader that keeps to it never takes a byte that belongs to what follows. */
    lemma LimitIsMissing(value: u64)
      requires buf <= Encode(value)
      ensures buf == [] ==> ReadLimit() == 1 <= |Encode(value)|
      ensures buf != [] ==> |buf| + ReadLimit() == |Encode(value)|
    {
      hide DecodeU64;
      EncodedValue(value);
    }

    /** Pushes bytes until none are left or the encoding is complete. */
    method PushAll(bytes: seq<u8>) returns (ready: bool)
      requires Valid() && bytes != [] && |bytes| <= ReadLimit()
      modifies this
      ensures Valid() && buf == old(buf) + bytes
      ensures ready <==> ReadLimit() == 0
    {
      var toPush := bytes;
      ready := false;
      while |toPush| > 0
        invariant Valid() && buf + toPush == old(buf) + bytes && |toPush| <= ReadLimit()
        invariant toPush == [] ==> buf != [] && (ready <==> |buf| == EncodedLen(buf[0]))
        decreases |toPush|
      {
        ghost var had := buf;
        toPush, ready := PushBytes(toPush);
        assert had != [] ==> buf[0] == had[0];
        if ready { return; }
      }
    }
  }

  /** A reader: the bytes it will still deliver. How many come at once is its own affair. */
  class Reader {
    var data: seq<u8>

    constructor (data: seq<u8>)
      ensures this.data == data
    {
      this.data := data;
    }

    /** Some non-empty part of what is left, or nothing at the end. */
    method FillBuf() returns (chunk: seq<u8>)
      ensures chunk <= data && (chunk == [] <==> data == [])
    {
      if data == [] {
        return [];
      }
      var n :| 0 < n <= |data|;
      chunk := data[..n];
    }

    method Consume(n: nat)
      requires n <= |data|
      modifies this
      ensures data == old(data)[n..]
    {
      data := data[n..];
    }

    /** At least one and at most `limit` bytes, or none at the end or for no room. */
    method Read(limit: nat) returns (chunk: seq<u8>)
      modifies this
      ensures chunk + data == old(data) && |chunk| <= limit
      ensures chunk == [] <==> old(data) == [] || limit == 0
    {
      if data == [] || limit == 0 {
        return [];
      }
      var room := if limit <= |data| then limit else |data|;
      var n :| 0 < n <= room;
      chunk := data[..n];
      data := data[n..];
    }
  }

  /** The buffered loop. Whatever the fragmentation, it yields what decoding the
      whole input yields and leaves the rest unread. */
  method DecodeFromRead(reader: Reader) returns (r: Result<u64, Error>)
    modifies reader
    ensures Decoding(r, reader.data) == DecodeStream(old(reader.data))
  {
    hide DecodeU64, DecodeStream;
    var decoder := new Decoder();
    while true
      invariant decoder.Valid() && fresh(decoder)
      invariant decoder.buf + reader.data == old(reader.data)
      invariant decoder.buf != [] ==> |decoder.buf| < EncodedLen(decoder.buf[0])
      decreases |reader.data|
    {
      var buffer := reader.FillBuf();
      if |buffer| == 0 {
        Gathered(decoder.buf, reader.data, old(reader.data));
        return DecodeU64(decoder.buf);
      }
      ghost var had := decoder.buf;
      var rest, ready := decoder.PushBytes(buffer);
      Carve(had, decoder.buf, buffer, rest, reader.data);
      reader.Consume(|buffer| - |rest|);
      if ready {
        Gathered(decoder.buf, reader.data, old(reader.data));
        return DecodeU64(decoder.buf);
      }
    }
  }

  /** Moving a prefix of the pending bytes into the buffer keeps their concatenation. */
  lemma Carve(had: seq<u8>, buf: seq<u8>, chunk: seq<u8>, rest: seq<u8>, data: seq<u8>)
    requires had <= buf && buf + rest == had + chunk && chunk <= data
    ensures |rest| <= |chunk| && buf + data[|chunk| - |rest|..] == had + data
  {
    var k := |chunk| - |rest|;
    assert |buf| == |had| + k;
    assert buf == (had + chunk)[..|buf|] == had + chunk[..k];
    assert data == data[..k] + data[k..] && chunk[..k] == data[..k];
  }

  /** A complete encoding, or all there is of it, decodes as the whole input does. */
  lemma Gathered(buf: seq<u8>, rest: seq<u8>, data: seq<u8>)
    requires buf + rest == data && (buf != [] ==> |buf| <= EncodedLen(buf[0]))
    requires rest == [] || (buf != [] && |buf| == EncodedLen(buf[0]))
    ensures Decoding(DecodeU64(buf), rest) == DecodeStream(data)
  {
    hide DecodeU64;
    assert data[..|buf|] == buf && data[|buf|..] == rest;
  }

  lemma NothingRead()
    ensures DecodeU64([]) == Err(UnexpectedEof(1, 0))
  {}

  /** The loop over a fixed-size buffer never asks the reader for more than the encoding lacks. */
  method DecodeFromReadUnbuffered(reader: Reader, bufferSize: nat) returns (r: Result<u64, Error>)
    modifies reader
    ensures bufferSize > 0 ==> Decoding(r, reader.data) == DecodeStream(old(reader.data))
    ensures bufferSize == 0 ==> r == Err(UnexpectedEof(1, 0)) && reader.data == old(reader.data)
  {
    hide DecodeU64, DecodeStream;
    var decoder := new Decoder();
    NothingRead();
    while decoder.ReadLimit() > 0
      invariant decoder.Valid() && fresh(decoder)
      invariant decoder.buf + reader.data == old(reader.data)
      invariant bufferSize == 0 ==> decoder.buf == []
      decreases |reader.data|
    {
      var toPush := reader.Read(Min(decoder.ReadLimit(), bufferSize));
      if |toPush| == 0 {
        if bufferSize > 0 { Gathered(decoder.buf, reader.data, old(reader.data)); }
        return DecodeU64(decoder.buf);
      }
      var ready := decoder.PushAll(toPush);
      if ready {
        Gathered(decoder.buf, reader.data, old(reader.data));
        return DecodeU64(decoder.buf);
      }
    }
    Gathered(decoder.buf, reader.data, old(reader.data));
    r := DecodeU64(decoder.buf);
  }
}
