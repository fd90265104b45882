/** A 256-bit unsigned integer in two 128-bit words. */
module U256 {
  import opened Words

  const B128: nat := 0x1_0000_0000_0000_0000_0000_0000_0000_0000
  const B256: nat := 0x1_0000_0000_0000_0000_0000_0000_0000_0000_0000_0000_0000_0000_0000_0000_0000_0000

  datatype U256 = U256(hi: u128, lo: u128)

  const MAX: U256 := U256(0xffff_ffff_ffff_ffff_ffff_ffff_ffff_ffff, 0xffff_ffff_ffff_ffff_ffff_ffff_ffff_ffff)
  const ZERO: U256 := U256(0, 0)
  const ONE: U256 := U256(0, 1)

  function Val(x: U256): nat {
    x.hi * 0x1_0000_0000_0000_0000_0000_0000_0000_0000 + x.lo
  }

  function FromNat(v: nat): (x: U256)
    requires v < B256
    ensures Val(x) == v
  {
    U256(v / 0x1_0000_0000_0000_0000_0000_0000_0000_0000, v % 0x1_0000_0000_0000_0000_0000_0000_0000_0000)
  }

  lemma ValInjective(x: U256, y: U256)
    requires Val(x) == Val(y)
    ensures x == y
  {}

  lemma WordValue(v: u128)
    ensures Val(U256(0, v)) == v
  {}

  lemma ValBound(x: U256)
    ensures Val(x) < B256
  {}

  /** The derived order compares the high words first. */
  predicate Less(x: U256, y: U256) {
    x.hi < y.hi || (x.hi == y.hi && x.lo < y.lo)
  }

  lemma LessCorrect(x: U256, y: U256)
    ensures Less(x, y) <==> Val(x) < Val(y)
  {}

  function IsZero(x: U256): bool { x.hi == 0 && x.lo == 0 }

  function Not(x: U256): U256 {
    U256(0xffff_ffff_ffff_ffff_ffff_ffff_ffff_ffff - x.hi, 0xffff_ffff_ffff_ffff_ffff_ffff_ffff_ffff - x.lo)
  }

  function WrappingAdd128(a: int, b: int): u128 { (a + b) % 0x1_0000_0000_0000_0000_0000_0000_0000_0000 }

  function OverflowingAdd(x: U256, y: U256): (U256, bool) {
    var hi := WrappingAdd128(x.hi, y.hi);
    var lo := WrappingAdd128(x.lo, y.lo);
    var over := x.hi + y.hi >= B128;
    if x.lo + y.lo >= B128 then (U256(WrappingAdd128(hi, 1), lo), over || hi + 1 >= B128)
    else (U256(hi, lo), over)
  }

  /** The words add up modulo 2^256, and the flag says exactly when that wraps. */
  lemma OverflowingAddCorrect(x: U256, y: U256)
    ensures var (r, over) := OverflowingAdd(x, y);
      Val(r) + (if over then B256 else 0) == Val(x) + Val(y) && (over <==> Val(x) + Val(y) >= B256)
  {
    var (r, over) := OverflowingAdd(x, y);
    var carry := if x.lo + y.lo >= B128 then 1 else 0;
    assert r.lo == x.lo + y.lo - carry * B128;
    assert r.hi + (if over then B128 else 0) == x.hi + y.hi + carry;
  }

  function WrappingAdd(x: U256, y: U256): U256 { OverflowingAdd(x, y).0 }

  function OverflowingSub(x: U256, y: U256): (U256, bool) {
    (WrappingAdd(WrappingAdd(x, Not(y)), ONE), Less(x, y))
  }

  lemma OverflowingSubCorrect(x: U256, y: U256)
    ensures var (r, over) := OverflowingSub(x, y);
      Val(r) == Val(x) - Val(y) + (if over then B256 else 0) && (over <==> Val(x) < Val(y))
  {
    OverflowingAddCorrect(x, Not(y));
    OverflowingAddCorrect(WrappingAdd(x, Not(y)), ONE);
    NotValue(y);
    LessCorrect(x, y);
    ValBound(OverflowingSub(x, y).0);
  }

  lemma NotValue(x: U256)
    ensures Val(Not(x)) == B256 - 1 - Val(x)
  {}

  function WrappingInc(x: U256): U256 {
    var lo := WrappingAdd128(x.lo, 1);
    U256(if lo == 0 then WrappingAdd128(x.hi, 1) else x.hi, lo)
  }

  lemma WrappingIncCorrect(x: U256)
    ensures Val(WrappingInc(x)) == if Val(x) == B256 - 1 then 0 else Val(x) + 1
  {}

  // --- shifts ---

  /** A 128-bit shift left, dropping the bits that leave the word. */
  function Shl128(x: u128, k: nat): u128 {
    Mul(x, Pow2(k)) % 0x1_0000_0000_0000_0000_0000_0000_0000_0000
  }

  function Shr128(x: u128, k: nat): u128 {
    ShrLeq(x, k);
    Shr(x, k)
  }

  lemma ShrLeq(x: nat, k: nat)
    ensures Shr(x, k) <= x
  {
    Pow2IsPow(k);
    DivMod(x, Pow2(k));
    MulMono(Shr(x, k), 1, Pow2(k));
  }

  function WrappingShl(x: U256, rhs: u32): U256 {
    var shift := rhs % 0x100;
    var bits := shift % 128;
    if shift >= 128 then U256(Shl128(x.lo, bits), 0)
    else
      ShlParts(x.hi, x.lo, bits);
      U256(Shl128(x.hi, bits) + (if bits > 0 then Shr128(x.lo, 128 - bits) else 0), Shl128(x.lo, bits))
  }

  function WrappingShr(x: U256, rhs: u32): U256 {
    var shift := rhs % 0x100;
    var bits := shift % 128;
    if shift >= 128 then U256(0, Shr128(x.hi, bits))
    else
      ShrParts(x.hi, x.lo, bits);
      U256(Shr128(x.hi, bits), Shr128(x.lo, bits) + (if bits > 0 then Shl128(x.hi, 128 - bits) else 0))
  }

  /** A word shifted left by k: what stays and what leaves. */
  lemma Shl128Parts(x: u128, k: nat)
    requires k <= 128
    ensures Pow2(128 - k) > 0 && Pow2(k) > 0
    ensures Shl128(x, k) == Mul(Pow2(k), x % Pow2(128 - k)) <= B128 - Pow2(k)
    ensures x == Mul(Shr(x, 128 - k), Pow2(128 - k)) + x % Pow2(128 - k)
    ensures Shr(x, 128 - k) < Pow2(k)
  {
    var p, room := Pow2(k), Pow2(128 - k);
    assert p * room == B128 && p > 0 && room > 0 by { Pow2Add(k, 128 - k); Pow2Values(); }
    ShiftTruncated(x, p, room);
    MulUnder(p, x % room, room);
    DivMod(x, room);
    if Shr(x, 128 - k) >= p { MulMono(room, p, Shr(x, 128 - k)); }
  }

  lemma ShlParts(hi: u128, lo: u128, k: nat)
    requires k < 128
    ensures Shl128(hi, k) + (if k > 0 then Shr(lo, 128 - k) else 0) < B128
  {
    Shl128Parts(hi, k);
    Shl128Parts(lo, k);
  }

  lemma ShrParts(hi: u128, lo: u128, k: nat)
    requires k < 128
    ensures Shr(lo, k) + (if k > 0 then Shl128(hi, 128 - k) else 0) < B128
  {
    ShrLeq(lo, k);
    if k > 0 {
      Shl128Parts(hi, 128 - k);
      Shl128Parts(lo, 128 - k);
    }
  }

  /** Shifting left multiplies by a power of two modulo 2^256. */
  lemma WrappingShlCorrect(x: U256, s: u32)
    requires s < 256
    ensures Val(WrappingShl(x, s)) == Mul(Val(x), Pow2(s)) % B256
  {
    if s < 128 {
      ShlLow(x, s);
    } else {
      ShlHigh(x, s);
    }
  }

  lemma ShlLow(x: U256, k: nat)
    requires k < 128
    ensures Val(WrappingShl(x, k)) == Mul(Val(x), Pow2(k)) % B256
  {
    hide Pow2, WrappingShl, Shr, Shl128, Mul;
    var out, h, low, l := Shr(x.hi, 128 - k), Shl128(x.hi, k), Shr(x.lo, 128 - k), Shl128(x.lo, k);
    var r := WrappingShl(x, k);
    ShlShape(x, k);
    ShiftedWord(x.hi, k);
    ShiftedWord(x.lo, k);
    ShlSum(x.hi, x.lo, Pow2(k), out, h, low, l);
    ValBound(r);
    DivModUnique(Mul(Val(x), Pow2(k)), B256, out, Val(r));
  }

  lemma ShlShape(x: U256, k: nat)
    requires k < 128
    ensures WrappingShl(x, k).hi == Shl128(x.hi, k) + Shr(x.lo, 128 - k)
    ensures WrappingShl(x, k).lo == Shl128(x.lo, k)
  {
    hide Pow2, Shl128, Shr, Mul;
    ShiftBelow128(k);
    if k == 0 { ShrAll(x.lo); }
  }

  lemma ShiftBelow128(k: nat)
    requires k < 128
    ensures k % 0x100 == k && k % 128 == k
  {}

  lemma ShrAll(x: u128)
    ensures Shr(x, 128) == 0
  {
    Pow2Values();
  }

  lemma ShlSum(hi: nat, lo: nat, p: nat, out: nat, h: nat, low: nat, l: nat)
    requires Mul(hi, p) == out * 0x1_0000_0000_0000_0000_0000_0000_0000_0000 + h
    requires Mul(lo, p) == low * 0x1_0000_0000_0000_0000_0000_0000_0000_0000 + l
    ensures Mul(hi * 0x1_0000_0000_0000_0000_0000_0000_0000_0000 + lo, p)
         == out * B256 + ((h + low) * 0x1_0000_0000_0000_0000_0000_0000_0000_0000 + l)
  {
    Spread(hi, lo, p);
  }

  lemma Spread(hi: int, lo: int, p: int)
    ensures (hi * 0x1_0000_0000_0000_0000_0000_0000_0000_0000 + lo) * p
         == hi * p * 0x1_0000_0000_0000_0000_0000_0000_0000_0000 + lo * p
  {}

  lemma ShiftedWord(x: u128, k: nat)
    requires k <= 128
    ensures Mul(x, Pow2(k)) == Shr(x, 128 - k) * 0x1_0000_0000_0000_0000_0000_0000_0000_0000 + Shl128(x, k)
  {
    Pow2Add(k, 128 - k);
    Pow2Values();
    Shl128Parts(x, k);
    DivMod(x * Pow2(k), B128);
    var room := Pow2(128 - k);
    Distribute(Shr(x, 128 - k), room, x % room, Pow2(k));
  }

  lemma ShlHigh(x: U256, s: nat)
    requires 128 <= s < 256
    ensures Val(WrappingShl(x, s)) == Mul(Val(x), Pow2(s)) % B256
  {
    hide Pow2, WrappingShl, Shr, Shl128, Mul;
    var k := s - 128;
    var p, low, l := Pow2(k), Shr(x.lo, 128 - k), Shl128(x.lo, k);
    var r := WrappingShl(x, s);
    ShlShapeHigh(x, s);
    ShiftedWord(x.lo, k);
    HighSum(x.hi, x.lo, p, low, l);
    DivModUnique(Mul(Val(x), Pow2(s)), B256, Mul(x.hi, p) + low, Val(r));
  }

  lemma ShlShapeHigh(x: U256, s: nat)
    requires 128 <= s < 256
    ensures WrappingShl(x, s) == U256(Shl128(x.lo, s - 128), 0)
    ensures Pow2(s) == Pow2(s - 128) * 0x1_0000_0000_0000_0000_0000_0000_0000_0000
  {
    assert s % 0x100 == s && s % 128 == s - 128;
    Pow2Add(s - 128, 128);
    Pow2Values();
  }

  lemma HighSum(hi: nat, lo: nat, p: nat, low: nat, l: nat)
    requires Mul(lo, p) == low * 0x1_0000_0000_0000_0000_0000_0000_0000_0000 + l
    ensures Mul(hi * 0x1_0000_0000_0000_0000_0000_0000_0000_0000 + lo, p * 0x1_0000_0000_0000_0000_0000_0000_0000_0000)
         == (Mul(hi, p) + low) * B256 + l * B128
  {
    Spread(hi, lo, p);
    var v := hi * 0x1_0000_0000_0000_0000_0000_0000_0000_0000 + lo;
    assert v * (p * 0x1_0000_0000_0000_0000_0000_0000_0000_0000) == v * p * 0x1_0000_0000_0000_0000_0000_0000_0000_0000;
  }

  /** Shifting right divides by a power of two. */
  lemma WrappingShrCorrect(x: U256, s: u32)
    requires s < 256
    ensures Val(WrappingShr(x, s)) == Shr(Val(x), s)
  {
    hide Pow2, Shr, Shl128, Val;
    if s >= 128 {
      ShrHigh(x, s);
      ShrShapeHigh(x, s);
      WordValue(Shr(x.hi, s - 128));
    } else if s > 0 {
      ShrLow(x, s);
    } else {
      ShrNone(x.hi);
      ShrNone(x.lo);
      ShrNone(Val(x));
      ShrShapeNone(x);
    }
  }

  lemma ShrShapeHigh(x: U256, s: nat)
    requires 128 <= s < 256
    ensures WrappingShr(x, s).hi == 0 && WrappingShr(x, s).lo == Shr(x.hi, s - 128)
  {
    hide Pow2, Shr;
    assert s % 0x100 == s && s % 128 == s - 128;
  }

  lemma ShrShapeNone(x: U256)
    ensures WrappingShr(x, 0).hi == Shr(x.hi, 0) && WrappingShr(x, 0).lo == Shr(x.lo, 0)
  {
    hide Pow2, Shr;
  }

  lemma ShrNone(x: nat)
    ensures Shr(x, 0) == x
  {}

  lemma ShrHigh(x: U256, s: nat)
    requires 128 <= s < 256
    ensures Shr(x.hi, s - 128) == Shr(Val(x), s)
  {
    Pow2Add(128, s - 128);
    Pow2Values();
    hide Pow2;
    DivDiv(Val(x), B128, Pow2(s - 128));
    DivModUnique(Val(x), B128, x.hi, x.lo);
  }

  lemma ShrLow(x: U256, k: nat)
    requires 0 < k < 128
    ensures Val(WrappingShr(x, k)) == Shr(Val(x), k)
  {
    hide Pow2, WrappingShr, Shl128;
    var p := Pow2(k);
    var r := WrappingShr(x, k);
    ShrShape(x, k);
    Shl128Parts(x.hi, 128 - k);
    ShrQuotient(x, p, Pow2(128 - k), Val(r));
    DivMod(x.lo, p);
    DivModUnique(Val(x), p, Val(r), x.lo % p);
  }

  lemma ShrShape(x: U256, k: nat)
    requires 0 < k < 128
    ensures WrappingShr(x, k).hi == Shr(x.hi, k) && WrappingShr(x, k).lo == Shr(x.lo, k) + Shl128(x.hi, 128 - k)
    ensures Pow2(k) > 0 && Pow2(k) * Pow2(128 - k) == 0x1_0000_0000_0000_0000_0000_0000_0000_0000
  {
    assert k % 0x100 == k && k % 128 == k;
    Pow2Add(k, 128 - k);
    Pow2Values();
  }

  lemma ShrQuotient(x: U256, p: nat, room: nat, q: nat)
    requires p > 0 && p * room == 0x1_0000_0000_0000_0000_0000_0000_0000_0000
    requires q == x.hi / p * 0x1_0000_0000_0000_0000_0000_0000_0000_0000 + x.lo / p + room * (x.hi % p)
    ensures Val(x) == q * p + x.lo % p
  {
    DivMod(x.hi, p);
    DivMod(x.lo, p);
    assert room * (x.hi % p) * p == p * room * (x.hi % p);
    assert x.hi / p * 0x1_0000_0000_0000_0000_0000_0000_0000_0000 * p
        == x.hi / p * p * 0x1_0000_0000_0000_0000_0000_0000_0000_0000;
  }

  // --- bit length ---

  function BitLength(x: nat): nat {
    if x == 0 then 0 else 1 + BitLength(x / 2)
  }

  lemma {:induction false} BitLengthBounds(x: nat)
    ensures x < Pow2(BitLength(x))
    ensures x > 0 ==> Pow2(BitLength(x) - 1) <= x
  {
    hide Pow2, BitLength;
    Pow2Small();
    BitLengthStep(x);
    if x > 0 {
      BitLengthBounds(x / 2);
      Pow2Step(BitLength(x));
      BitLengthStep(x / 2);
      if x > 1 { Pow2Step(BitLength(x) - 1); }
    }
  }

  lemma BitLengthStep(x: nat)
    ensures BitLength(x) == if x == 0 then 0 else 1 + BitLength(x / 2)
  {}

  lemma BitLengthUnique(x: nat, n: nat)
    requires x < Pow2(n) && (n > 0 ==> Pow2(n - 1) <= x)
    ensures BitLength(x) == n
  {
    BitLengthBounds(x);
    var b := BitLength(x);
    if b < n { Pow2Mono(b, n - 1); }
    if n < b { Pow2Mono(n, b - 1); }
  }

  function LeadingZeros(x: u128): (z: u32) {
    AtMost128(x);
    128 - BitLength(x)
  }

  lemma AtMost128(x: u128)
    ensures BitLength(x) <= 128
  {
    Pow2Values();
    BitLengthBounds(x);
    if BitLength(x) > 128 { Pow2Mono(128, BitLength(x) - 1); }
  }

  function Bits(x: U256): u32 {
    if x.hi > 0 then 256 - LeadingZeros(x.hi) else 128 - LeadingZeros(x.lo)
  }

  lemma BitsCorrect(x: U256)
    ensures Bits(x) == BitLength(Val(x)) <= 256
  {
    hide Pow2, BitLength;
    AtMost128(x.hi);
    AtMost128(x.lo);
    BitLengthStep(x.hi);
    if x.hi > 0 {
      var n := BitLength(x.hi);
      BitLengthBounds(x.hi);
      HighBits(x, n);
      BitLengthUnique(Val(x), n + 128);
    }
  }

  lemma HighBits(x: U256, n: nat)
    requires n > 0 && Pow2(n - 1) <= x.hi < Pow2(n)
    ensures Pow2(n + 127) <= Val(x) < Pow2(n + 128)
  {
    hide Pow2;
    var a, b := Pow2(n - 1), Pow2(n);
    assert Pow2(n + 128) == b * B128 by { Pow2Add(n, 128); Pow2Values(); }
    assert Pow2(n + 127) == a * B128 by { Pow2Add(n - 1, 128); Pow2Values(); }
  }
}
