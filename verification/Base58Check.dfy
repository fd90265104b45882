/** Encoding into bounded and unbounded buffers, and the checksummed form. */
module Base58Check {
  import opened Words
  import opened Wrappers
  import opened Radix
  import opened Base58

  const SHORT_OPT_BUFFER_LEN: nat := 128

  /** A growing vector, or an array vector that holds at most `capacity` bytes. */
  class Buffer {
    var data: seq<u8>
    const capacity: Option<nat>

    constructor (capacity: Option<nat>)
      ensures data == [] && this.capacity == capacity
    {
      data, this.capacity := [], capacity;
    }

    predicate Holds(n: nat) { capacity.Some? ==> n <= capacity.value }

    method TryPush(val: u8) returns (ok: bool)
      modifies this
      ensures ok <==> Holds(old(|data|) + 1)
      ensures data == if ok then old(data) + [val] else old(data)
    {
      ok := capacity.None? || |data| < capacity.value;
      if ok { data := data + [val]; }
    }

    /** X = X * 256 + d256 over the little-endian digits. */
    method Absorb(d256: u8, ghost n: nat) returns (ok: bool)
      requires data == LeDigits(58, n) && Holds(|data|)
      modifies this
      ensures ok ==> data == LeDigits(58, 256 * n + d256)
      ensures ok <==> Holds(|LeDigits(58, 256 * n + d256)|)
    {
      hide LeDigits;
      var carry: nat := d256;
      ghost var total: nat, m: nat := 256 * n + d256, n;
      assert data[..0] == [] && data[0..] == data;
      for j := 0 to |data|
        invariant |data| == |old(data)|
        invariant carry <= 255
        invariant data[j..] == LeDigits(58, m)
        invariant LeDigits(58, total) == data[..j] + LeDigits(58, 256 * m + carry)
      {
        ghost var before, rest := data[..j], data[j..];
        LeDigitsSome(58, m);
        DigitCarried(m, carry);
        assert data[j] == rest[0];
        var newCh: nat := (data[j] as int) * 256 + carry;
        data := data[j := newCh % 58];
        carry := newCh / 58;
        m := m / 58;
        assert data[..j + 1] == before + [newCh % 58];
        assert data[j + 1..] == rest[1..];
      }
      assert data[..|data|] == data && data[|data|..] == [];
      LeDigitsSome(58, m);
      ok := PushCarry(carry);
    }

    /** One more digit for each carry left, as long as there is room. */
    method PushCarry(from: nat) returns (ok: bool)
      requires Holds(|data|)
      modifies this
      ensures ok ==> data == old(data) + LeDigits(58, from)
      ensures ok <==> Holds(|old(data)| + |LeDigits(58, from)|)
    {
      hide LeDigits;
      var carry := from;
      while carry > 0
        invariant Holds(|data|)
        invariant old(data) + LeDigits(58, from) == data + LeDigits(58, carry)
      {
        LeDigitsStep(58, carry);
        ok := TryPush(carry % 58);
        if !ok { return; }
        carry := carry / 58;
      }
      NoDigits(58);
      return true;
    }
  }

  lemma LeDigitsSome(base: nat, v: nat)
    requires 2 <= base <= 256
    ensures v == 0 <==> LeDigits(base, v) == []
    ensures v > 0 ==> LeDigits(base, v)[0] == v % base && LeDigits(base, v)[1..] == LeDigits(base, v / base)
  {}

  lemma DigitCarried(m: nat, carry: nat)
    requires m > 0 && carry <= 255
    ensures var x, sum := 256 * m + carry, (m % 58) * 256 + carry;
      && sum / 58 <= 255
      && LeDigits(58, x) == [sum % 58] + LeDigits(58, 256 * (m / 58) + sum / 58)
  {
    hide LeDigits;
    var x, sum := 256 * m + carry, (m % 58) * 256 + carry;
    LeDigitsStep(58, x);
    DivModUnique(x, 58, 256 * (m / 58) + sum / 58, sum % 58);
  }

  /** The digits of the number so far, and how many zero bytes came before it. */
  lemma ByteAppended(data: seq<u8>, i: nat)
    requires i < |data|
    ensures BeNum(256, data[..i + 1]) == 256 * BeNum(256, data[..i]) + data[i]
    ensures LeadingZeros(data[..i + 1])
      == if LeadingZeros(data[..i]) == i && data[i] == 0 then i + 1 else LeadingZeros(data[..i])
  {
    assert data[..i + 1][..i] == data[..i];
    assert data[..i + 1] == data[..i] + [data[i]];
    LeadingZerosAppend(data[..i], data[i]);
  }

  lemma {:induction false} LeadingZerosAppend(s: seq<u8>, d: u8)
    ensures LeadingZeros(s + [d]) == if LeadingZeros(s) == |s| && d == 0 then |s| + 1 else LeadingZeros(s)
  {
    if s == [] {
      assert s + [d] == [d] && [d][1..] == [];
    } else {
      assert (s + [d])[1..] == s[1..] + [d];
      LeadingZerosAppend(s[1..], d);
    }
  }

  lemma {:induction false} PrefixAtMost(data: seq<u8>, i: nat)
    requires i <= |data|
    ensures BeNum(256, data[..i]) <= BeNum(256, data)
    decreases |data|
  {
    if i == |data| {
      assert data[..i] == data;
    } else {
      assert data[..|data| - 1][..i] == data[..i];
      PrefixAtMost(data[..|data| - 1], i);
    }
  }

  function DigitCountOf(data: seq<u8>): nat { |LeDigits(58, BeNum(256, data))| }

  lemma EncodingLength(data: seq<u8>)
    ensures |Encoding(data)| == LeadingZeros(data) + DigitCountOf(data)
    ensures DigitCountOf(data) == |BeDigits(58, BeNum(256, data))|
  {
    hide BeNum, BeDigits, LeDigits, Reverse;
    LeDigitsReversed(58, BeNum(256, data));
  }

  lemma PrefixLength(data: seq<u8>, i: nat)
    requires i <= |data|
    ensures |LeDigits(58, BeNum(256, data[..i]))| <= |Encoding(data)|
  {
    hide BeNum, LeDigits;
    EncodingLength(data);
    PrefixAtMost(data, i);
    LeDigitsMono(58, BeNum(256, data[..i]), BeNum(256, data));
  }

  lemma ReversedBuffer(n: nat, z: nat)
    ensures Reverse(LeDigits(58, n) + ZeroBytes(z)) == ZeroBytes(z) + BeDigits(58, n)
  {
    hide LeDigits, BeDigits, Reverse;
    ReverseAppend(LeDigits(58, n), ZeroBytes(z));
    ReverseZeros(z);
    LeDigitsReversed(58, n);
  }

  /** Encodes into an empty buffer. It fails exactly when the buffer cannot hold the encoding. */
  method EncodeToBuffer(data: seq<u8>, buf: Buffer) returns (ok: bool)
    requires buf.data == []
    modifies buf
    ensures ok <==> buf.Holds(|Encoding(data)|)
    ensures ok ==> buf.data == Encoding(data)
  {
    hide BeNum, LeDigits, BeDigits, Encoding, Reverse, LeadingZeros;
    var leadingZeroCount, leadingZeroes := 0, true;
    StartDigits(data);
    for i := 0 to |data|
      invariant buf.data == LeDigits(58, BeNum(256, data[..i])) && buf.Holds(|buf.data|)
      invariant leadingZeroCount == LeadingZeros(data[..i])
      invariant leadingZeroes <==> leadingZeroCount == i
    {
      if leadingZeroes && data[i] == 0 {
        leadingZeroCount := leadingZeroCount + 1;
      } else {
        leadingZeroes := false;
      }
      ByteAppended(data, i);
      PrefixLength(data, i + 1);
      ok := buf.Absorb(data[i], BeNum(256, data[..i]));
      if !ok { return; }
    }
    assert data[..|data|] == data;
    EncodingLength(data);
    ghost var n := BeNum(256, data);
    for k := 0 to leadingZeroCount
      invariant buf.data == LeDigits(58, n) + ZeroBytes(k) && buf.Holds(|buf.data|)
    {
      ok := buf.TryPush(0);
      if !ok { return; }
      assert ZeroBytes(k) + [0] == ZeroBytes(k + 1);
    }
    ReversedBuffer(n, leadingZeroCount);
    buf.data := Reverse(buf.data);
    ToAscii(data, buf);
    return true;
  }

  lemma StartDigits(data: seq<u8>)
    ensures LeDigits(58, BeNum(256, data[..0])) == [] && LeadingZeros(data[..0]) == 0
  {}

  /** Replaces every digit by its character in place. */
  method ToAscii(ghost data: seq<u8>, buf: Buffer)
    requires buf.data == Convert(256, 58, data)
    modifies buf
    ensures buf.data == Encoding(data)
  {
    hide Convert;
    ConvertInverse(256, 58, data);
    ghost var digits := buf.data;
    for k := 0 to |buf.data|
      invariant |buf.data| == |digits| && buf.data[k..] == digits[k..]
      invariant buf.data[..k] == CharsOf(digits)[..k]
    {
      assert buf.data[k] == buf.data[k..][0] == digits[k];
      ghost var before, rest := buf.data[..k], buf.data[k..];
      buf.data := buf.data[k := CharOf(buf.data[k])];
      assert buf.data[..k + 1] == before + [buf.data[k]];
      assert buf.data[k + 1..] == rest[1..] == digits[k + 1..];
    }
    assert buf.data[..|buf.data|] == buf.data && CharsOf(digits)[..|digits|] == CharsOf(digits);
  }

  // --- the checksummed form ---

  type Hash32 = s: seq<u8> | |s| == 32 witness ZeroBytes(32)

  type Sha256d = seq<u8> -> Hash32

  function Payload(data: seq<u8>, sha256d: Sha256d): (p: seq<u8>)
    ensures |p| == |data| + 4
  {
    data + sha256d(data)[..4]
  }

  datatype Base58CkString = Small(text: seq<u8>) | Large(text: seq<u8>)

  function EncodedReserveLen(unencodedLen: nat): nat { unencodedLen * 137 / 100 }

  function EncodedCheckReserveLen(unencodedLen: nat): nat { EncodedReserveLen(unencodedLen + 4) }

  /** Payloads whose encoding needs more than the 128 places reserved for them. */
  predicate Overlong(payload: seq<u8>) {
    |payload| == 94 && BeNum(256, payload) >= Pow(58, 128 - LeadingZeros(payload))
  }

  /** Encodes without failing, its documentation says; the model returns None where it panics. */
  method EncodeUnbounded(data: seq<u8>, sha256d: Sha256d) returns (r: Option<Base58CkString>)
    ensures r.None? <==> Overlong(Payload(data, sha256d))
    ensures r.Some? ==> r.value.text == Encoding(Payload(data, sha256d))
    ensures r.Some? ==> (r.value.Small? <==> |data| <= 90)
  {
    hide Overlong, Encoding;
    var payload := Payload(data, sha256d);
    var reserveLen := EncodedCheckReserveLen(|data|);
    if reserveLen <= SHORT_OPT_BUFFER_LEN {
      var buf := new Buffer(Some(SHORT_OPT_BUFFER_LEN));
      var ok := EncodeToBuffer(payload, buf);
      ShortEncoding(payload);
      if !ok { return None; }
      return Some(Small(buf.data));
    } else {
      var buf := new Buffer(None);
      var ok := EncodeToBuffer(payload, buf);
      NotOverlong(payload);
      if !ok { return None; }
      return Some(Large(buf.data));
    }
  }

  lemma NotOverlong(payload: seq<u8>)
    requires |payload| != 94
    ensures !Overlong(payload)
  {}

  /** Without an allocator the 128 places are all there is. */
  method EncodeWithoutAlloc(data: seq<u8>, sha256d: Sha256d) returns (r: Result<Base58CkString, nat>)
    ensures r == if |Encoding(Payload(data, sha256d))| <= 128
      then Ok(Small(Encoding(Payload(data, sha256d)))) else Err(|data|)
  {
    var buf := new Buffer(Some(SHORT_OPT_BUFFER_LEN));
    var ok := EncodeToBuffer(Payload(data, sha256d), buf);
    return if ok then Ok(Small(buf.data)) else Err(|data|);
  }

  // --- how long an encoding can be ---

  lemma PowersOf58()
    ensures Pow(58, 126) == 0x44dc4bb6aa87bbdaa2d4f4ce1d9de3a985f14fb1a7d4a3fce93e45a07bf2db5a202f1472cc959a8aaa2e92cf80cde4d2beea6f1c067945b28d600be937cbbdae6bac5a488bba66fd525dab63e40000000000000000000000000000000
    ensures Pow(58, 127) == 0xf99e92762a2c08f88e43f76b2b5c5946858ac0e40062d274cd81bc65c1505b26b4aaaa20259e5036a8e8d43032ea5d7bf411d2c597779ca7407c2b2d6a428f984650c746fa83b5564a938d4a1a80000000000000000000000000000000
    ensures Pow(58, 128) == 0x388ded2ec58dfa08503b660e47d2ec39fa416fb3a81663ae768f64af0dcc34a6c4eeaa8b4885de2c6244c012eb89192e154c09c0c451197de49c21c84a1314887fee4d2614c1d7158ce56e02ca0100000000000000000000000000000000
  {
    hide Pow;
    SmallPowers();
    PowAdd(58, 8, 8);
    PowAdd(58, 16, 16);
    PowAdd(58, 32, 32);
    PowAdd(58, 64, 32);
    PowAdd(58, 96, 16);
    PowAdd(58, 112, 8);
    PowAdd(58, 120, 6);
    PowNext(58, 126);
    PowNext(58, 127);
  }

  lemma PowersOf256()
    ensures Pow(256, 92) == 0x10000000000000000000000000000000000000000000000000000000000000000000000000000000000000000000000000000000000000000000000000000000000000000000000000000000000000000000000000000000000000000
    ensures Pow(256, 93) == 256 * Pow(256, 92)
  {
    hide Pow;
    SmallBytes();
    PowAdd(256, 7, 6);
    PowAdd(256, 13, 13);
    PowAdd(256, 26, 26);
    PowAdd(256, 52, 26);
    PowAdd(256, 78, 13);
    PowAdd(256, 91, 1);
    PowNext(256, 92);
  }

  lemma Boundary()
    ensures 56 * Pow(256, 93) <= Pow(58, 128) < 57 * Pow(256, 93)
    ensures 249 * Pow(256, 92) <= Pow(58, 127) < 250 * Pow(256, 92)
    ensures Pow(256, 92) <= Pow(58, 126)
  {
    hide Pow;
    PowersOf58();
    PowersOf256();
  }

  lemma {:induction false} SlideDown(m: nat, k: nat, z: nat)
    requires Pow(256, m) <= Pow(58, k) && z <= m && z <= k
    ensures Pow(256, m - z) <= Pow(58, k - z)
  {
    if z > 0 {
      PowNext(256, m - 1);
      PowNext(58, k - 1);
      SlideDown(m - 1, k - 1, z - 1);
    }
  }

  lemma BytesBelow(s: seq<u8>)
    ensures AllBelow(256, s)
  {}

  /** The number is below what the bytes after the leading zeros can hold. */
  lemma NumberBound(payload: seq<u8>)
    ensures BeNum(256, payload) == BeNum(256, payload[LeadingZeros(payload)..])
    ensures BeNum(256, payload) < Pow(256, |payload| - LeadingZeros(payload))
  {
    hide BeNum, Pow, ZeroBytes, AllBelow, LeadingZeros;
    var z := LeadingZeros(payload);
    ZerosAndRest(payload);
    ZerosValue(256, z, payload[z..]);
    BytesBelow(payload[z..]);
    BeNumBound(256, payload[z..]);
  }

  /** 93 bytes always fit in 128 places; 94 bytes do unless the number is too large. */
  lemma ShortEncoding(payload: seq<u8>)
    requires |payload| <= 94
    ensures |Encoding(payload)| > 128 <==> Overlong(payload)
  {
    hide BeNum, BeDigits, LeDigits, Encoding, Pow;
    var z := LeadingZeros(payload);
    EncodingLength(payload);
    NumberBound(payload);
    DigitCount(58, BeNum(256, payload), 128 - z);
    if |payload| <= 93 {
      Boundary();
      PowPos(256, 93);
      SlideDown(93, 128, z);
      PowMono(256, |payload| - z, 93 - z);
    }
  }

  lemma {:induction false} TopByte(s: seq<u8>)
    requires s != []
    ensures Mul(s[0], Pow(256, |s| - 1)) <= BeNum(256, s) < Mul((s[0] as int) + 1, Pow(256, |s| - 1))
  {
    hide BeNum, Pow, Mul;
    var front, last := s[..|s| - 1], s[|s| - 1];
    LastByte(s);
    PowNext(256, 0);
    if |s| == 1 {
      TopStart(s[0]);
    } else {
      TopByte(front);
      PowNext(256, |s| - 2);
      TopStep(s[0], Pow(256, |s| - 2), BeNum(256, front), last);
    }
  }

  lemma LastByte(s: seq<u8>)
    requires s != []
    ensures BeNum(256, s) == 256 * BeNum(256, s[..|s| - 1]) + s[|s| - 1]
    ensures |s| == 1 ==> BeNum(256, s[..|s| - 1]) == 0
  {}

  lemma TopStart(a: nat)
    ensures Mul(a, 1) == a && Mul(a + 1, 1) == a + 1
  {}

  lemma TopStep(a: nat, p: nat, n: nat, last: u8)
    requires Mul(a, p) <= n < Mul(a + 1, p)
    ensures Mul(a, 256 * p) <= 256 * n + last < Mul(a + 1, 256 * p)
  {
    assert a * (256 * p) == 256 * (a * p) && (a + 1) * (256 * p) == 256 * ((a + 1) * p);
  }

  /** What a caller can see before the call: of a 90-byte input, the first bytes decide
      whether encoding panics, except on two byte values where the later ones matter. */
  lemma OverlongByFirstBytes(payload: seq<u8>)
    requires |payload| == 94
    ensures payload[0] >= 57 ==> Overlong(payload)
    ensures 1 <= payload[0] <= 55 ==> !Overlong(payload)
    ensures payload[0] == 0 && payload[1] >= 250 ==> Overlong(payload)
    ensures payload[0] == 0 && 1 <= payload[1] <= 248 ==> !Overlong(payload)
    ensures payload[0] == 0 && payload[1] == 0 ==> !Overlong(payload)
  {
    hide BeNum, Pow, Mul;
    var z := LeadingZeros(payload);
    FirstTwo(payload);
    NumberBound(payload);
    Boundary();
    if z >= 2 {
      SlideDown(92, 126, z - 2);
    } else {
      var t := payload[z..];
      TopByte(t);
      assert t[0] == payload[z];
      TopByteBound(t[0], Pow(256, 93 - z), if z == 0 then 56 else 249);
    }
  }

  lemma FirstTwo(s: seq<u8>)
    requires |s| >= 2
    ensures s[0] != 0 ==> LeadingZeros(s) == 0
    ensures s[0] == 0 && s[1] != 0 ==> LeadingZeros(s) == 1
    ensures s[0] == 0 && s[1] == 0 ==> LeadingZeros(s) >= 2
  {}

  lemma TopByteBound(b: nat, p: nat, limit: nat)
    ensures b > limit ==> Mul(b, p) >= (limit + 1) * p
    ensures b < limit ==> Mul(b + 1, p) <= limit * p
  {
    if b > limit { MulMono(p, limit + 1, b); }
    if b < limit { MulMono(p, b + 1, limit); }
  }

  // --- decoding with checksum ---

  datatype Error = InvalidCharacter(invalid: u8) | TooShort(length: nat) | IncorrectChecksum(incorrect: nat, expected: nat)

  /** Checks and strips the last four bytes. */
  method DecodeCheck(data: seq<u8>, sha256d: Sha256d) returns (r: Result<seq<u8>, Error>)
    ensures r == Checked(data, sha256d)
  {
    hide LeNat, LeBytes, Decoding;
    var decoded := Decode(data);
    match decoded
    case Err(b) => return Err(InvalidCharacter(b));
    case Ok(ret) =>
      if |ret| < 4 { return Err(TooShort(|ret|)); }
      var remaining, dataCheck := ret[..|ret| - 4], ret[|ret| - 4..];
      var hashCheck := sha256d(remaining)[..4];
      var expected, actual := LeNat(hashCheck), LeNat(dataCheck);
      LeBytesOfNat(hashCheck);
      LeBytesOfNat(dataCheck);
      if actual != expected { return Err(IncorrectChecksum(actual, expected)); }
      assert ret == Payload(remaining, sha256d);
      return Ok(remaining);
  }

  /** What stands behind the text: the data and the first four bytes of its double hash. */
  lemma EncodesDataAndHash(data: seq<u8>, sha256d: Sha256d)
    ensures Decoding(Encoding(Payload(data, sha256d))) == Ok(data + sha256d(data)[..4])
  {
    DecodeEncode(Payload(data, sha256d));
  }

  function Checked(data: seq<u8>, sha256d: Sha256d): Result<seq<u8>, Error> {
    match Decoding(data)
    case Err(b) => Err(InvalidCharacter(b))
    case Ok(ret) =>
      if |ret| < 4 then Err(TooShort(|ret|))
      else
        var body, check := ret[..|ret| - 4], ret[|ret| - 4..];
        if ret == Payload(body, sha256d) then Ok(body)
        else Err(IncorrectChecksum(LeNat(check), LeNat(sha256d(body)[..4])))
  }

  /** A string decodes to some data exactly when it is the checksummed encoding of that data. */
  lemma CheckedIff(data: seq<u8>, d: seq<u8>, sha256d: Sha256d)
    ensures Checked(data, sha256d) == Ok(d) <==> data == Encoding(Payload(d, sha256d))
  {
    var p := Payload(d, sha256d);
    DecodeEncode(p);
    EncodeDecode(data);
    assert p[..|p| - 4] == d;
    hide Encoding, Decoding;
    if Checked(data, sha256d) == Ok(d) {
      var ret := Decoding(data).value;
      assert ret == Payload(ret[..|ret| - 4], sha256d) == p;
    }
  }
}
