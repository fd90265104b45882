/** Decimal text. Text is a sequence of bytes. */
module DecimalText {
  import opened Words

  const PLUS: u8 := 0x2b

  predicate IsDigit(b: u8) { 0x30 <= b <= 0x39 }

  predicate AllDigits(s: seq<u8>) { forall k :: 0 <= k < |s| ==> IsDigit(s[k]) }

  function DigitOf(b: u8): nat { if IsDigit(b) then b - 0x30 else 0 }

  /** The decimal number, a byte that is no digit counting as a zero. */
  function DecNat(s: seq<u8>): nat {
    if s == [] then 0 else 10 * DecNat(s[..|s| - 1]) + DigitOf(s[|s| - 1])
  }

  /** The digits and the plus sign are those of ASCII, and each digit has its own value. */
  lemma Ascii(b: u8)
    ensures IsDigit(b) <==> '0' <= b as char <= '9'
    ensures IsDigit(b) ==> DigitOf(b) == (b as char) as int - '0' as int
    ensures PLUS as char == '+'
  {}

  /** What parsing an unsigned integer accepts: one optional plus sign and at least one digit. */
  predicate ParsesUnsigned(c: seq<u8>) {
    c != [] && AllDigits(c[1..]) && (IsDigit(c[0]) || (c[0] == PLUS && |c| > 1))
  }

  /** Decimal digits without leading zeros. */
  function Decimal(v: nat): seq<u8> {
    if v < 10 then [0x30 + v] else Decimal(v / 10) + [0x30 + v % 10]
  }

  lemma {:induction false} DecNatConcat(a: seq<u8>, b: seq<u8>)
    ensures DecNat(a + b) == Mul(DecNat(a), Pow(10, |b|)) + DecNat(b)
  {
    if b == [] {
      assert a + b == a;
    } else {
      var c := b[..|b| - 1];
      DecNatConcat(a, c);
      assert (a + b)[..|a + b| - 1] == a + c;
      assert 10 * (DecNat(a) * Pow(10, |c|)) == DecNat(a) * Pow(10, |b|);
    }
  }

  lemma {:induction false} DecNatBound(s: seq<u8>)
    ensures DecNat(s) < Pow(10, |s|)
  {
    if s != [] { DecNatBound(s[..|s| - 1]); }
  }

  lemma {:induction false} DecimalLength(v: nat, n: nat)
    requires n > 0 && v < Pow(10, n)
    ensures 0 < |Decimal(v)| <= n
  {
    if v >= 10 { DecimalLength(v / 10, n - 1); }
  }

  lemma {:induction false} DecNatOfDecimal(v: nat)
    ensures DecNat(Decimal(v)) == v && AllDigits(Decimal(v)) && Decimal(v) != []
    ensures v > 0 ==> Decimal(v)[0] != 0x30
  {
    if v >= 10 {
      DecNatOfDecimal(v / 10);
      assert Decimal(v)[..|Decimal(v)| - 1] == Decimal(v / 10);
    } else {
      assert Decimal(v)[..0] == [];
    }
  }
}
