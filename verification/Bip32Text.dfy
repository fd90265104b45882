/** Extended keys as base58check text. */
module Bip32Text {
  import opened Words
  import opened Wrappers
  import opened Radix
  import opened Base58
  import opened Base58Check
  import opened Bip32

  datatype ParseKeyError =
    | Base58Error(inner: Base58Check.Error)
    | InvalidBase58PayloadLength(length: nat)
    | DecodeFailed(cause: DecodeError)

  /** The 78 bytes of a key, with its checksum. Printing never reaches the length that panics. */
  method Print(encoded: seq<u8>, sha256d: Sha256d) returns (text: seq<u8>)
    requires |encoded| == 78
    ensures text == Encoding(Payload(encoded, sha256d))
  {
    hide Encoding;
    var r := EncodeUnbounded(encoded, sha256d);
    NotOverlong(Payload(encoded, sha256d));
    text := r.value.text;
  }

  function CheckedKey(text: seq<u8>, sha256d: Sha256d): Result<seq<u8>, ParseKeyError> {
    match Checked(text, sha256d)
    case Err(e) => Err(Base58Error(e))
    case Ok(data) => if |data| != 78 then Err(InvalidBase58PayloadLength(|data|)) else Ok(data)
  }

  method ParseXpriv<S, P>(c: Crypto<S, P>, text: seq<u8>, sha256d: Sha256d) returns (r: Result<Xpriv<S>, ParseKeyError>)
    ensures r == ParsedXpriv(c, text, sha256d)
  {
    var decoded := DecodeCheck(text, sha256d);
    match decoded
    case Err(e) => return Err(Base58Error(e));
    case Ok(data) =>
      if |data| != 78 { return Err(InvalidBase58PayloadLength(|data|)); }
      var k := DecodePriv(c, data);
      return if k.Ok? then Ok(k.value) else Err(DecodeFailed(k.error));
  }

  function ParsedXpriv<S, P>(c: Crypto<S, P>, text: seq<u8>, sha256d: Sha256d): Result<Xpriv<S>, ParseKeyError> {
    var data :- CheckedKey(text, sha256d);
    match DecodePriv(c, data)
    case Err(e) => Err(DecodeFailed(e))
    case Ok(k) => Ok(k)
  }

  method ParseXpub<S, P>(c: Crypto<S, P>, text: seq<u8>, sha256d: Sha256d) returns (r: Result<Xpub<P>, ParseKeyError>)
    ensures r == ParsedXpub(c, text, sha256d)
  {
    var decoded := DecodeCheck(text, sha256d);
    match decoded
    case Err(e) => return Err(Base58Error(e));
    case Ok(data) =>
      if |data| != 78 { return Err(InvalidBase58PayloadLength(|data|)); }
      var k := DecodePub(c, data);
      return if k.Ok? then Ok(k.value) else Err(DecodeFailed(k.error));
  }

  function ParsedXpub<S, P>(c: Crypto<S, P>, text: seq<u8>, sha256d: Sha256d): Result<Xpub<P>, ParseKeyError> {
    var data :- CheckedKey(text, sha256d);
    match DecodePub(c, data)
    case Err(e) => Err(DecodeFailed(e))
    case Ok(k) => Ok(k)
  }

  /** A printed key parses back, if it is one that encoding and decoding keep. */
  lemma KeyTextRoundTrip<S(!new), P(!new)>(c: Crypto<S, P>, k: Xpriv<S>, pub: Xpub<P>, sha256d: Sha256d)
    requires Readable(c) && MasterIsPlain(k.depth, k.parentFingerprint, k.childNumber)
    requires MasterIsPlain(pub.depth, pub.parentFingerprint, pub.childNumber)
    ensures ParsedXpriv(c, Encoding(Payload(EncodePriv(c, k), sha256d)), sha256d) == Ok(k)
    ensures ParsedXpub(c, Encoding(Payload(EncodePub(c, pub), sha256d)), sha256d) == Ok(pub)
  {
    hide Encoding, Checked, DecodePriv, DecodePub, Joined, Payload;
    CheckedIff(Encoding(Payload(EncodePriv(c, k), sha256d)), EncodePriv(c, k), sha256d);
    CheckedIff(Encoding(Payload(EncodePub(c, pub), sha256d)), EncodePub(c, pub), sha256d);
    PrivRoundTrip(c, k);
    PubRoundTrip(c, pub);
  }

  /** Text that parses is the one printed form of the key it parses to. */
  lemma KeyTextUnique<S(!new), P(!new)>(c: Crypto<S, P>, text: seq<u8>, sha256d: Sha256d)
    requires UniquelySerialized(c)
    ensures var r := ParsedXpriv(c, text, sha256d);
      r.Ok? ==> text == Encoding(Payload(EncodePriv(c, r.value), sha256d))
    ensures var r := ParsedXpub(c, text, sha256d);
      r.Ok? ==> text == Encoding(Payload(EncodePub(c, r.value), sha256d))
  {
    hide Encoding, Checked, DecodePriv, DecodePub, EncodePriv, EncodePub, Payload;
    var checked := Checked(text, sha256d);
    if checked.Ok? {
      CheckedIff(text, checked.value, sha256d);
      DecodedIsEncoding(c, checked.value);
    }
  }

  // --- what key text starts with ---

  lemma LargePowers()
    ensures Pow(58, 107) == 0x6fbcbcc4ff06edd42d2e4a4f3aa1b6129d2c5622f9f43c743481899f6648fa20cac87908e4ce82171a640f2caaf30f6a5ed53c270db22c46616c15763daeb122f2800000000000000000000000000
    ensures Pow(256, 78) == 0x1000000000000000000000000000000000000000000000000000000000000000000000000000000000000000000000000000000000000000000000000000000000000000000000000000000000000
  {
    hide Pow;
    SmallPowers();
    SmallBytes();
    PowAdd(58, 8, 8);
    PowAdd(58, 16, 16);
    PowAdd(58, 32, 32);
    PowAdd(58, 64, 32);
    PowAdd(58, 96, 8);
    PowAdd(58, 104, 3);
    PowAdd(256, 7, 6);
    PowAdd(256, 13, 13);
    PowAdd(256, 26, 26);
    PowAdd(256, 52, 26);
  }

  /** Every number that starts with the four bytes of `version` has `front` before its last 107 digits. */
  lemma FrontDigits(payload: seq<u8>, version: nat, front: nat)
    requires |payload| == 82 && BeNum(256, payload[..4]) == version && payload[0] != 0 && front > 0
    requires Mul(front, Pow(58, 107)) <= Mul(version, Pow(256, 78))
    requires Mul(version + 1, Pow(256, 78)) <= Mul(front + 1, Pow(58, 107))
    ensures var d := Convert(256, 58, payload); |d| >= 107 && d[..|d| - 107] == BeDigits(58, front)
  {
    hide BeNum, BeDigits, Pow;
    var n, p, q := BeNum(256, payload), Pow(58, 107), Pow(256, 78);
    assert payload == payload[..4] + payload[4..];
    BeNumConcat(256, payload[..4], payload[4..]);
    BytesBelow(payload[4..]);
    BeNumBound(256, payload[4..]);
    Between(n, version, front, p, q);
    PowMono(58, 106, 107);
    DigitCount(58, n, 106);
    DigitsPrefix(58, n, 107);
    assert LeadingZeros(payload) == 0;
    assert ZeroBytes(0) + BeDigits(58, n) == BeDigits(58, n);
  }

  lemma Between(n: nat, version: nat, front: nat, p: nat, q: nat)
    requires Mul(version, q) <= n < Mul(version, q) + q && p > 0 && front > 0
    requires Mul(front, p) <= Mul(version, q) && Mul(version + 1, q) <= Mul(front + 1, p)
    ensures n / p == front && n >= p
  {
    assert (version + 1) * q == version * q + q && (front + 1) * p == front * p + p;
    DivModUnique(n, p, front, n - front * p);
    MulMono(p, 1, front);
  }

  lemma FourBase58Digits(front: nat, a: u8, b: u8, c: u8, d: u8)
    requires a < 58 && b < 58 && c < 58 && d < 58 && a > 0
    requires front == Horner(Horner(Horner(a, b), c), d)
    ensures BeDigits(58, front) == [a, b, c, d]
  {
    hide BeDigits;
    OneDigit(Horner(Horner(a, b), c), d);
    OneDigit(Horner(a, b), c);
    OneDigit(a, b);
    OneDigit(0, a);
    NoDigits(58);
  }

  function Horner(v: int, d: int): int { 58 * v + d }

  lemma OneDigit(v: nat, d: u8)
    requires d < 58 && Horner(v, d) > 0
    ensures BeDigits(58, Horner(v, d)) == BeDigits(58, v) + [d]
  {}

  lemma TextFront(payload: seq<u8>, version: nat, front: nat, a: u8, b: u8, c: u8, d: u8)
    requires |payload| == 82 && BeNum(256, payload[..4]) == version && payload[0] != 0
    requires a < 58 && b < 58 && c < 58 && d < 58 && a > 0
    requires front == Horner(Horner(Horner(a, b), c), d)
    requires Mul(front, Pow(58, 107)) <= Mul(version, Pow(256, 78))
    requires Mul(version + 1, Pow(256, 78)) <= Mul(front + 1, Pow(58, 107))
    ensures |Encoding(payload)| == 111 && Encoding(payload)[..4] == [CharOf(a), CharOf(b), CharOf(c), CharOf(d)]
  {
    hide BeNum, BeDigits, Pow, Convert, CharOf;
    ConvertInverse(256, 58, payload);
    FrontDigits(payload, version, front);
    FourBase58Digits(front, a, b, c, d);
    var digits := Convert(256, 58, payload);
    assert digits[..4][0] == a && digits[..4][1] == b && digits[..4][2] == c && digits[..4][3] == d;
  }

  lemma VersionNumber(s: seq<u8>)
    requires |s| == 4
    ensures BeNum(256, s) == FromBe(s[0], s[1], s[2], s[3])
  {
    hide BeNum;
    BeNumLast(256, s);
    BeNumLast(256, s[..3]);
    BeNumLast(256, s[..2]);
    BeNumLast(256, s[..1]);
    BeNumLast(256, []);
    assert s[..3][..2] == s[..2] && s[..2][..1] == s[..1] && s[..1][..0] == [];
  }

  function Text(s: string): seq<u8>
    requires forall k :: 0 <= k < |s| ==> s[k] as int < 0x80
  {
    seq(|s|, i requires 0 <= i < |s| => s[i] as int)
  }

  /** The text of a private key has 111 characters and starts with xprv on the main network and with
      tprv elsewhere. */
  lemma XprivPrefix<S, P>(c: Crypto<S, P>, k: Xpriv<S>, sha256d: Sha256d)
    ensures var text := Encoding(Payload(EncodePriv(c, k), sha256d));
      |text| == 111 && text[..4] == Text(if k.network == Main then "xprv" else "tprv")
  {
    hide BeNum, Encoding, Pow;
    var payload := Payload(EncodePriv(c, k), sha256d);
    assert payload[..4] == PrivateVersion(k.network);
    VersionNumber(payload[..4]);
    LargePowers();
    if k.network == Main {
      TextFront(payload, 0x0488_ADE4, 10892163, 55, 47, 49, 53);
    } else {
      TextFront(payload, 0x0435_8394, 10111715, 51, 47, 49, 53);
    }
  }

  lemma XpubPrefix<S, P>(c: Crypto<S, P>, k: Xpub<P>, sha256d: Sha256d)
    ensures var text := Encoding(Payload(EncodePub(c, k), sha256d));
      |text| == 111 && text[..4] == Text(if k.network == Main then "xpub" else "tpub")
  {
    hide BeNum, Encoding, Pow;
    var payload := Payload(EncodePub(c, k), sha256d);
    assert payload[..4] == PublicVersion(k.network);
    VersionNumber(payload[..4]);
    LargePowers();
    if k.network == Main {
      TextFront(payload, 0x0488_B21E, 10892318, 55, 47, 52, 34);
    } else {
      TextFront(payload, 0x0435_87CF, 10111870, 51, 47, 52, 34);
    }
  }
}
