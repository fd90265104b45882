/** Base58 and base58check. Text is a sequence of bytes. */
module Base58 {
  import opened Words
  import opened Wrappers
  import opened Radix

  /** The alphabet: digits, upper and lower case letters without 0, I, O and l. */
  function CharOf(d: u8): u8
    requires d < 58
  {
    if d < 9 then 49 + d else if d < 17 then 56 + d else if d < 22 then 57 + d
    else if d < 33 then 58 + d else if d < 44 then 64 + d else 65 + d
  }

  function DigitOf(b: u8): Option<u8> {
    if 49 <= b <= 57 then Some(b - 49) else if 65 <= b <= 72 then Some(b - 56)
    else if 74 <= b <= 78 then Some(b - 57) else if 80 <= b <= 90 then Some(b - 58)
    else if 97 <= b <= 107 then Some(b - 64) else if 109 <= b <= 122 then Some(b - 65) else None
  }

  lemma Alphabet(b: u8, d: u8)
    ensures DigitOf(b) == Some(d) <==> d < 58 && CharOf(d) == b
  {}

  /** The alphabet in order: every ASCII digit and letter except 0, O, I and l. With the digits
      counted in increasing order this leaves one possible table. */
  lemma AlphabetExact(b: u8, d: u8)
    ensures DigitOf(b).Some? <==>
      var c := b as char;
      ('0' <= c <= '9' || 'A' <= c <= 'Z' || 'a' <= c <= 'z') && c != '0' && c != 'O' && c != 'I' && c != 'l'
    ensures d < 57 ==> CharOf(d) < CharOf(Next(d))
  {}

  function Next(d: int): u8
    requires 0 <= d < 255
  {
    d + 1
  }

  predicate Valid(s: seq<u8>) { forall k :: 0 <= k < |s| ==> DigitOf(s[k]).Some? }

  function DigitsOf(s: seq<u8>): seq<u8>
    requires Valid(s)
  {
    seq(|s|, i requires 0 <= i < |s| => DigitOf(s[i]).value)
  }

  function CharsOf(s: seq<u8>): seq<u8>
    requires AllBelow(58, s)
  {
    seq(|s|, i requires 0 <= i < |s| => CharOf(s[i]))
  }

  // --- specification ---

  function Encoding(data: seq<u8>): seq<u8> {
    ConvertInverse(256, 58, data);
    CharsOf(Convert(256, 58, data))
  }

  function FirstInvalid(s: seq<u8>): u8
    requires !Valid(s)
  {
    if DigitOf(s[0]).None? then s[0] else FirstInvalid(s[1..])
  }

  function Decoding(s: seq<u8>): Result<seq<u8>, u8> {
    if Valid(s) then Ok(Convert(58, 256, DigitsOf(s))) else Err(FirstInvalid(s))
  }

  lemma DigitsOfChars(d: seq<u8>)
    requires AllBelow(58, d)
    ensures Valid(CharsOf(d)) && DigitsOf(CharsOf(d)) == d
  {
    forall k | 0 <= k < |d| ensures DigitOf(CharsOf(d)[k]) == Some(d[k]) { Alphabet(CharOf(d[k]), d[k]); }
  }

  lemma CharsOfDigits(s: seq<u8>)
    requires Valid(s)
    ensures AllBelow(58, DigitsOf(s)) && CharsOf(DigitsOf(s)) == s
  {
    forall k | 0 <= k < |s| ensures DigitsOf(s)[k] < 58 && CharOf(DigitsOf(s)[k]) == s[k] {
      Alphabet(s[k], DigitOf(s[k]).value);
    }
  }

  /** Decoding undoes encoding on every byte string. */
  lemma DecodeEncode(data: seq<u8>)
    ensures Decoding(Encoding(data)) == Ok(data)
  {
    ConvertInverse(256, 58, data);
    DigitsOfChars(Convert(256, 58, data));
  }

  /** Encoding undoes decoding on every string over the alphabet, and no other string decodes. */
  lemma EncodeDecode(s: seq<u8>)
    ensures Decoding(s).Ok? <==> Valid(s)
    ensures Valid(s) ==> Encoding(Decoding(s).value) == s
  {
    if Valid(s) {
      CharsOfDigits(s);
      ConvertInverse(58, 256, DigitsOf(s));
    }
  }

  /** Leading zero bytes and leading '1's match one to one, and then comes a digit that is not '1'. */
  lemma LeadingOnes(data: seq<u8>)
    ensures var z, e := LeadingZeros(data), Encoding(data);
      && z <= |e| && (forall k :: 0 <= k < z ==> e[k] == CharOf(0)) && (z < |e| ==> e[z] != CharOf(0))
  {
    hide BeNum, BeDigits, LeadingZeros;
    ConvertInverse(256, 58, data);
    var c, z := Convert(256, 58, data), LeadingZeros(data);
    assert forall k :: 0 <= k < z ==> c[..z][k] == 0;
    assert c[z..] != [] ==> c[z..][0] != 0;
  }

  // --- decoding ---

  /** Eleven bytes hold fifteen base58 digits, so 1 + 11k/15 bytes hold k. */
  lemma {:induction false} CapacitySuffices(k: nat)
    ensures Pow(58, k) <= Pow(256, 1 + k * 11 / 15)
  {
    hide Pow;
    if k < 15 {
      SmallCapacity(k);
    } else {
      CapacitySuffices(k - 15);
      var c := 1 + (k - 15) * 11 / 15;
      CapacityStep(k);
      FifteenDigits();
      PowAdd(58, 15, k - 15);
      PowAdd(256, 11, c);
      ProductMono(Pow(58, 15), Pow(256, 11), Pow(58, k - 15), Pow(256, c));
    }
  }

  lemma CapacityStep(k: nat)
    requires k >= 15
    ensures 1 + k * 11 / 15 == 11 + (1 + (k - 15) * 11 / 15)
  {}

  lemma ProductMono(a: nat, b: nat, c: nat, d: nat)
    requires a <= b && c <= d
    ensures a * c <= b * d
  {
    MulMono(a, c, d);
    MulMono(d, a, b);
  }

  lemma SmallPowers()
    ensures Pow(58, 0) == 1 && Pow(58, 1) == 58 && Pow(58, 2) == 3364 && Pow(58, 3) == 195112
    ensures Pow(58, 4) == 11316496 && Pow(58, 5) == 656356768 && Pow(58, 6) == 38068692544
    ensures Pow(58, 7) == 2207984167552 && Pow(58, 8) == 128063081718016
  {
    hide Pow;
    PowNext(58, 0); PowNext(58, 1); PowNext(58, 2); PowNext(58, 3);
    PowNext(58, 4); PowNext(58, 5); PowNext(58, 6); PowNext(58, 7);
  }

  lemma SmallBytes()
    ensures Pow(256, 1) == 0x100 && Pow(256, 2) == 0x1_0000 && Pow(256, 3) == 0x100_0000
    ensures Pow(256, 4) == 0x1_0000_0000 && Pow(256, 5) == 0x100_0000_0000
    ensures Pow(256, 6) == 0x1_0000_0000_0000 && Pow(256, 7) == 0x100_0000_0000_0000
  {
    hide Pow;
    PowNext(256, 0); PowNext(256, 1); PowNext(256, 2); PowNext(256, 3);
    PowNext(256, 4); PowNext(256, 5); PowNext(256, 6);
  }

  lemma SmallCapacity(k: nat)
    requires k < 15
    ensures Pow(58, k) <= Pow(256, 1 + k * 11 / 15)
  {
    hide Pow;
    SmallPowers();
    SmallBytes();
    if k > 8 {
      PowAdd(58, 8, k - 8);
      PowAdd(256, 6, 1 + k * 11 / 15 - 6);
    }
  }

  lemma FifteenDigits()
    ensures Pow(58, 15) <= Pow(256, 11)
  {
    hide Pow;
    SmallPowers();
    SmallBytes();
    PowAdd(58, 8, 7);
    PowAdd(256, 6, 5);
  }

  /** The number so far stays below what the scratch space holds. */
  lemma DigitFits(s: seq<u8>, k: nat, capacity: nat)
    requires AllBelow(58, s) && k <= |s| && capacity >= 1 + |s| * 11 / 15
    ensures BeNum(58, s[..k]) < Pow(256, capacity)
  {
    BeNumBound(58, s[..k]);
    PowMono(58, k, |s|);
    CapacitySuffices(|s|);
    PowMono(256, 1 + |s| * 11 / 15, capacity);
  }

  /** X = X * 58 + carry, byte by byte in place. Nothing is carried out when the result fits. */
  method MulAdd(scratch: array<u8>, digit: u8) returns (carry: nat)
    requires digit < 58
    requires LeNat(scratch[..]) * 58 + digit < Pow(256, scratch.Length)
    modifies scratch
    ensures LeNat(scratch[..]) == LeNat(old(scratch[..])) * 58 + digit
    ensures carry == 0
  {
    hide LeNat, Pow;
    ghost var was, n := scratch[..], LeNat(scratch[..]) * 58 + digit;
    carry := digit;
    MulAddStart(was, digit);
    for j := 0 to scratch.Length
      invariant carry < 58
      invariant scratch[j..] == was[j..]
      invariant LeNat(scratch[..j]) + Mul(Pow(256, j), 58 * LeNat(was[j..]) + carry) == n
    {
      assert scratch[j] == was[j] by { assert scratch[j] == scratch[j..][0]; }
      ghost var before, carryIn := scratch[..j], carry;
      carry := carry + (scratch[j] as int) * 58;
      MulAddStep(before, was[j..], carryIn, j, n);
      scratch[j] := carry % 256;
      assert scratch[..j + 1] == before + [carry % 256];
      assert scratch[j + 1..] == was[j..][1..] == was[j + 1..];
      carry := carry / 256;
    }
    assert scratch[..] == scratch[..scratch.Length];
    MulAddEnd(was[scratch.Length..], LeNat(scratch[..]), Pow(256, scratch.Length), carry, n);
  }

  lemma MulAddStart(was: seq<u8>, digit: u8)
    ensures LeNat(was[..0]) + Mul(Pow(256, 0), 58 * LeNat(was[0..]) + digit) == LeNat(was) * 58 + digit
  {
    assert was[0..] == was;
  }

  lemma MulAddStep(before: seq<u8>, rest: seq<u8>, carry: nat, j: nat, n: nat)
    requires rest != [] && |before| == j
    requires LeNat(before) + Mul(Pow(256, j), 58 * LeNat(rest) + carry) == n
    ensures var c := carry + (rest[0] as int) * 58;
      LeNat(before + [c % 256]) + Mul(Pow(256, j + 1), 58 * LeNat(rest[1..]) + c / 256) == n
  {
    var c := carry + (rest[0] as int) * 58;
    hide LeNat, Pow;
    LeNatConcat(before, [c % 256]);
    OneByte(c % 256);
    LeNatCons(rest);
    PowNext(256, j);
    StepValue(Pow(256, j), LeNat(rest[1..]), c, 58 * LeNat(rest) + carry);
  }

  lemma LeNatCons(s: seq<u8>)
    requires s != []
    ensures LeNat(s) == s[0] + 256 * LeNat(s[1..])
  {}

  lemma OneByte(b: u8)
    ensures LeNat([b]) == b
  {
    assert [b][1..] == [];
  }

  lemma StepValue(p: nat, r: nat, c: nat, whole: nat)
    requires whole == 58 * 256 * r + c
    ensures Mul(p, c % 256) + Mul(256 * p, 58 * r + c / 256) == Mul(p, whole)
  {
    assert whole == 256 * (58 * r + c / 256) + c % 256;
    assert p * (256 * (58 * r + c / 256) + c % 256) == 256 * p * (58 * r + c / 256) + p * (c % 256);
  }

  lemma MulAddEnd(rest: seq<u8>, value: nat, p: nat, carry: nat, n: nat)
    requires rest == [] && value + Mul(p, 58 * LeNat(rest) + carry) == n && n < p
    ensures carry == 0 && value == n
  {
    if carry > 0 { MulMono(p, 1, carry); }
  }

  /** A fresh number of the given width holding one digit. */
  method FirstDigit(digit: u8, capacity: nat) returns (scratch: array<u8>, carry: nat)
    requires digit < 58 && capacity > 0
    ensures fresh(scratch) && scratch.Length == capacity
    ensures LeNat(scratch[..]) == digit && carry == 0
  {
    scratch := new u8[capacity](_ => 0);
    carry := digit;
    for j := 0 to capacity
      invariant carry == if j == 0 then digit else 0
      invariant scratch[..j] == if j == 0 then [] else [digit] + ZeroBytes(j - 1)
    {
      ghost var before := scratch[..j];
      scratch[j] := carry % 256;
      assert scratch[..j + 1] == before + [carry % 256];
      carry := carry / 256;
    }
    assert scratch[..] == scratch[..capacity];
    assert ([digit] + ZeroBytes(capacity - 1))[1..] == ZeroBytes(capacity - 1);
    LeNatZeros(capacity - 1);
  }

  lemma {:induction false} LeNatIsLeNum(s: seq<u8>)
    ensures LeNat(s) == LeNum(256, s)
  {
    if s != [] { LeNatIsLeNum(s[1..]); }
  }

  /** How many characters at the front are the digit zero. */
  function LeadingOneCount(s: seq<u8>): nat {
    if s == [] || s[0] != CharOf(0) then 0 else 1 + LeadingOneCount(s[1..])
  }

  lemma {:induction false} LeadingOneCountIs(s: seq<u8>)
    requires Valid(s)
    ensures LeadingOneCount(s) == LeadingZeros(DigitsOf(s))
  {
    if s != [] {
      Alphabet(s[0], 0);
      assert DigitsOf(s)[1..] == DigitsOf(s[1..]);
      LeadingOneCountIs(s[1..]);
    }
  }

  method Decode(data: seq<u8>) returns (r: Result<seq<u8>, u8>)
    ensures r == Decoding(data)
  {
    hide LeNat, BeNum, Pow;
    var capacity: nat :| capacity >= 1 + |data| * 11 / 15;
    var scratch := new u8[0];
    EmptyNumbers(scratch[..], data[..0]);
    for i := 0 to |data|
      invariant fresh(scratch)
      invariant forall k :: 0 <= k < i ==> DigitOf(data[k]).Some?
      invariant scratch.Length == if i == 0 then 0 else capacity
      invariant LeNat(scratch[..]) == BeNum(58, DigitsOf(data[..i]))
    {
      match DigitOf(data[i])
      case None =>
        FirstInvalidAt(data, i);
        return Err(data[i]);
      case Some(digit) =>
        DigitAppended(data, i, digit, capacity);
        var carry;
        if scratch.Length == 0 {
          scratch, carry := FirstDigit(digit, capacity);
        } else {
          carry := MulAdd(scratch, digit);
        }
        assert carry == 0;
    }
    assert data[..|data|] == data;
    LeadingOneCountIs(data);
    LeNatIsLeNum(scratch[..]);
    StrippedDigits(256, scratch[..]);
    return Ok(ZeroBytes(LeadingOneCount(data)) + SkipZeros(Reverse(scratch[..])));
  }

  lemma EmptyNumbers(s: seq<u8>, t: seq<u8>)
    requires s == [] && t == []
    ensures LeNat(s) == BeNum(58, DigitsOf(t)) == 0
  {}

  lemma {:induction false} FirstInvalidAt(s: seq<u8>, i: nat)
    requires i < |s| && DigitOf(s[i]).None? && forall k :: 0 <= k < i ==> DigitOf(s[k]).Some?
    ensures !Valid(s) && FirstInvalid(s) == s[i]
  {
    if i > 0 { FirstInvalidAt(s[1..], i - 1); }
  }

  lemma DigitAppended(data: seq<u8>, i: nat, digit: u8, capacity: nat)
    requires i < |data| && Valid(data[..i]) && DigitOf(data[i]) == Some(digit) && capacity >= 1 + |data| * 11 / 15
    ensures digit < 58 && Valid(data[..i + 1])
    ensures BeNum(58, DigitsOf(data[..i + 1])) == BeNum(58, DigitsOf(data[..i])) * 58 + digit < Pow(256, capacity)
    ensures i == 0 ==> BeNum(58, DigitsOf(data[..i])) == 0
  {
    var d := DigitsOf(data[..i + 1]);
    assert d[..i] == DigitsOf(data[..i]) && d[i] == digit;
    CharsOfDigits(data[..i + 1]);
    assert d[..i + 1] == d;
    MulAppend(d, i);
    DigitFitsShort(d, i + 1, |data|, capacity);
  }

  lemma MulAppend(d: seq<u8>, i: nat)
    requires |d| == i + 1
    ensures BeNum(58, d) == BeNum(58, d[..i]) * 58 + d[i]
  {}

  lemma DigitFitsShort(d: seq<u8>, k: nat, len: nat, capacity: nat)
    requires AllBelow(58, d) && |d| == k <= len && capacity >= 1 + len * 11 / 15
    ensures BeNum(58, d) < Pow(256, capacity)
  {
    assert d[..k] == d;
    DigitFits(d, k, capacity);
  }
}
