/** Conversion of 256-bit integers to binary64, on the bits of the result. */
module U256Float {
  import opened Words
  import opened U256
  import opened U256Arith

  /** Bit patterns of the finite doubles that are not negative. */
  predicate Finite(b: nat) { b < 2047 * 0x10_0000_0000_0000 }

  /** The double with bits `b`, times 2^1074. Subnormals have exponent field 0. */
  function Scaled(b: nat): nat {
    var e, frac := b / 0x10_0000_0000_0000, b % 0x10_0000_0000_0000;
    if e == 0 then frac else Mul(0x10_0000_0000_0000 + frac, Pow2(e - 1))
  }

  function Distance(a: nat, b: nat): nat { if a <= b then b - a else a - b }

  /** No finite double is nearer to t / 2^1074, and another equally near one leaves `b` even. */
  ghost predicate NearestEven(b: nat, t: nat) {
    Finite(b) && forall c :: Finite(c) && c != b ==>
      Distance(Scaled(b), t) < Distance(Scaled(c), t) || (Distance(Scaled(b), t) == Distance(Scaled(c), t) && b % 2 == 0)
  }

  // --- the conversion ---

  function Not128(x: u128): u128 { 0xffff_ffff_ffff_ffff_ffff_ffff_ffff_ffff - x }

  function LeadingZeros256(x: U256): (z: u32)
    ensures z <= 256
  {
    BitsCorrect(x);
    256 - Bits(x)
  }

  function LeftAligned(x: U256): U256 { WrappingShl(x, LeadingZeros256(x)) }

  function Mantissa(left: U256): u128 { WrappingShr(left, 75).hi }

  /** The bits below the mantissa, with the lowest 75 folded into the others. */
  function Dropped(left: U256): u128 {
    DroppedFits(left);
    Or(WrappingShr(left, 75).lo, And(left.lo, 0x7FF_FFFF_FFFF_FFFF_FFFF))
  }

  /** Adds one unless what is dropped is below half, or half with an even mantissa. */
  function Rounded(mantissa: u128, dropped: u128): u64 {
    TieFits(mantissa, dropped);
    (mantissa + Shr(dropped - And(Shr(dropped, 127), Not128(mantissa)), 127)) % 0x1_0000_0000_0000_0000
  }

  function ToF64(x: U256): u64 {
    var left := LeftAligned(x);
    var exponent := if x == ZERO then 0 else 1277 - LeadingZeros256(x);
    ToF64Parts(x);
    exponent * 0x10_0000_0000_0000 + Rounded(Mantissa(left), Dropped(left))
  }

  // --- the bits that are dropped ---

  lemma Powers()
    ensures Pow2(52) == 0x10_0000_0000_0000 && Pow2(53) == 0x20_0000_0000_0000
    ensures Pow2(75) == 0x800_0000_0000_0000_0000 && Pow2(128) == B128
    ensures Pow2(127) == 0x8000_0000_0000_0000_0000_0000_0000_0000
    ensures Pow2(256) == B256
  {
    Pow2Values();
    PowersOf3And1();
    hide Pow2;
    Pow2Add(26, 26);
    Pow2Add(52, 1);
    Pow2Add(64, 8);
    Pow2Add(72, 3);
    Pow2Add(1, 127);
    Pow2Add(128, 128);
  }

  lemma PowersOf3And1()
    ensures Pow2(1) == 2 && Pow2(3) == 8
  {}

  lemma LowMask(x: nat)
    ensures Pow2(75) > 0 && And(x, 0x7FF_FFFF_FFFF_FFFF_FFFF) == x % Pow2(75) < Pow2(75)
  {
    hide And, Pow2;
    AndOnes(x, 75);
    Powers();
  }

  lemma DroppedFits(left: U256)
    ensures Or(WrappingShr(left, 75).lo, And(left.lo, 0x7FF_FFFF_FFFF_FFFF_FFFF)) < B128
  {
    hide And, Or, Pow2, WrappingShr;
    LowMask(left.lo);
    Powers();
    OrBound(WrappingShr(left, 75).lo, And(left.lo, 0x7FF_FFFF_FFFF_FFFF_FFFF), 128);
  }

  /** Folding low bits into a word keeps its top bit, and keeps whether the others are all zero. */
  lemma OrTop(h: u128, l: nat)
    requires l < Pow2(127)
    ensures Or(h, l) >= Pow2(127) <==> h >= Pow2(127)
    ensures Or(h, l) == Pow2(127) <==> h == Pow2(127) && l == 0
  {
    hide Or, Pow2;
    var p := Pow2(127);
    Powers();
    var t := h / p;
    var h' := h % p;
    assert t == 0 || t == 1;
    OrSplit(127, h', t, l, 0);
    OrIdentity(t);
    OrBound(h', l, 127);
    OrZero(h', l);
  }

  lemma OrIdentity(t: nat)
    ensures Or(t, 0) == t
  {}

  lemma AndBit(t: nat, y: nat)
    requires t <= 1
    ensures And(t, y) == if y % 2 == 1 then t else 0
  {
    if t == 1 {
      AndStep(1, y);
      assert And(0, y / 2) == 0;
    }
  }

  lemma TopBit(dropped: u128)
    ensures Shr(dropped, 127) == if dropped >= Pow2(127) then 1 else 0
  {
    hide Pow2;
    Powers();
    DivModUnique(dropped, Pow2(127), if dropped >= Pow2(127) then 1 else 0,
                 if dropped >= Pow2(127) then dropped - Pow2(127) else dropped);
  }

  lemma TieFits(mantissa: u128, dropped: u128)
    ensures And(Shr(dropped, 127), Not128(mantissa)) <= dropped
    ensures And(Shr(dropped, 127), Not128(mantissa)) == if dropped >= Pow2(127) && mantissa % 2 == 0 then 1 else 0
  {
    hide Pow2, Shr, And;
    TopBit(dropped);
    AndBit(Shr(dropped, 127), Not128(mantissa));
    Powers();
  }

  function RoundUp(mantissa: nat, over: bool, tie: bool): nat {
    if over || (tie && mantissa % 2 == 1) then 1 else 0
  }

  lemma RoundedValue(mantissa: u128, dropped: u128)
    requires mantissa < Pow2(53)
    ensures Rounded(mantissa, dropped) == mantissa + RoundUp(mantissa, dropped > Pow2(127), dropped == Pow2(127))
  {
    hide Pow2, Shr, And;
    TieFits(mantissa, dropped);
    Powers();
    TopBit(dropped - And(Shr(dropped, 127), Not128(mantissa)));
  }

  /** The mantissa is the top 53 bits, and what is dropped compares with one half as the low 203 bits do. */
  lemma SplitAt203(left: U256)
    ensures Pow2(203) > 0
    ensures Mantissa(left) == Val(left) / Pow2(203) < Pow2(53)
    ensures Dropped(left) > Pow2(127) <==> Val(left) % Pow2(203) > Pow2(202)
    ensures Dropped(left) == Pow2(127) <==> Val(left) % Pow2(203) == Pow2(202)
  {
    hide Pow2, WrappingShr, Or, And, Val;
    var v, h := Val(left), WrappingShr(left, 75).lo;
    WrappingShrCorrect(left, 75);
    WordsOf(WrappingShr(left, 75));
    WordsOf(left);
    Powers();
    Pow2Add(75, 128);
    Pow2Add(75, 127);
    DivDiv(v, Pow2(75), Pow2(128));
    LowMask(left.lo);
    Pow2Add(75, 53);
    ModMod(v, Pow2(75), Pow2(53));
    OrTop(h, left.lo % Pow2(75));
    HalfCompare(v % Pow2(75), h, Pow2(75), Pow2(127));
    ValBound(left);
    Pow2Add(203, 53);
    TopQuotient(v, Pow2(203), Pow2(53));
  }

  lemma WordsOf(x: U256)
    ensures x.hi == Val(x) / B128 && x.lo == Val(x) % B128
  {}

  lemma HalfCompare(l: nat, h: nat, p: nat, half: nat)
    requires l < p
    ensures l + p * h > p * half <==> h > half || (h == half && l > 0)
    ensures l + p * h == p * half <==> h == half && l == 0
  {
    if h > half { MulMono(p, half + 1, h); assert p * (half + 1) == p * half + p; }
    if h < half { MulMono(p, h + 1, half); assert p * (h + 1) == p * h + p; }
  }

  lemma TopQuotient(v: nat, p: nat, q: nat)
    requires p > 0 && v < p * q
    ensures v / p < q
  {
    DivAtLeast(v, p, q);
    assert q * p == p * q;
  }

  // --- the exponent ---

  /** A number with n bits, shifted so that bit 255 is its highest. */
  lemma LeftAlignedValue(x: U256)
    requires Val(x) != 0
    ensures var lz := LeadingZeros256(x); lz < 256 && Val(LeftAligned(x)) == Mul(Val(x), Pow2(lz)) >= Pow2(255)
  {
    hide Pow2, WrappingShl, Mul, Val, BitLength, Bits;
    var n, lz := BitLength(Val(x)), LeadingZeros256(x);
    BitsCorrect(x);
    BitsPositive(x);
    BitLengthBounds(Val(x));
    ShiftFits(Val(x), n, lz);
    WrappingShlCorrect(x, lz);
    Pow2Add(n - 1, lz);
    ShiftAtLeast(Val(x), Pow2(n - 1), Pow2(lz));
  }

  lemma ShiftAtLeast(v: nat, a: nat, p: nat)
    requires a <= v
    ensures Mul(v, p) >= a * p
  {
    MulMono(p, a, v);
  }

  /** For a number that is not zero: the mantissa has its top bit, and the pieces make up the result. */
  lemma NonZeroParts(x: U256)
    requires Val(x) != 0
    ensures LeadingZeros256(x) < 256
    ensures Pow2(52) <= Mantissa(LeftAligned(x)) < Pow2(53)
  {
    hide Pow2, Val, Bits, WrappingShl, WrappingShr;
    var left := LeftAligned(x);
    LeftAlignedValue(x);
    SplitAt203(left);
    Pow2Add(52, 203);
    DivAtLeast(Val(left), Pow2(203), Pow2(52));
  }

  lemma ZeroParts()
    ensures LeftAligned(ZERO) == ZERO && Mantissa(ZERO) == 0 && Dropped(ZERO) == 0
  {
    hide Pow2, WrappingShl, WrappingShr, Or, And;
    ZeroShifts();
    LowMask(0);
    Powers();
    OrIdentity(0);
  }

  lemma ZeroShifts()
    ensures LeadingZeros256(ZERO) == 256 && WrappingShl(ZERO, 256) == ZERO && WrappingShr(ZERO, 75) == ZERO
  {
    hide Pow2, Bits, Shl128, WrappingShr, Val;
    Shl128Zero();
    ZeroValue();
    BitsCorrect(ZERO);
    WrappingShrCorrect(ZERO, 75);
    ShrOfZero(75);
    ValInjective(WrappingShr(ZERO, 75), ZERO);
  }

  lemma ShrOfZero(n: nat)
    ensures Shr(0, n) == 0
  {
    Pow2IsPow(n);
  }

  lemma Shl128Zero()
    ensures Shl128(0, 0) == 0
  {}

  lemma ToF64Parts(x: U256)
    ensures LeadingZeros256(x) <= 1277
    ensures var m := Mantissa(LeftAligned(x)); Rounded(m, Dropped(LeftAligned(x))) <= 0x20_0000_0000_0000
  {
    hide Pow2, LeftAligned, Mantissa, Dropped, Rounded, Val;
    Powers();
    var left := LeftAligned(x);
    SplitAt203(left);
    RoundedValue(Mantissa(left), Dropped(left));
  }

  // --- the doubles are ordered by their bits ---

  lemma ScaledStep(b: nat)
    ensures Scaled(b) < Scaled(b + 1)
  {
    hide Pow2;
    var e, frac := b / 0x10_0000_0000_0000, b % 0x10_0000_0000_0000;
    if frac + 1 < 0x10_0000_0000_0000 {
      DivModUnique(b + 1, 0x10_0000_0000_0000, e, frac + 1);
      if e > 0 { NextProduct(0x10_0000_0000_0000 + frac, Pow2(e - 1), e - 1); }
    } else {
      DivModUnique(b + 1, 0x10_0000_0000_0000, e + 1, 0);
      if e > 0 { NextBinade(e); } else { PowZero(); }
    }
  }

  lemma PowZero()
    ensures Pow2(0) == 1 && Mul(0x10_0000_0000_0000, 1) == 0x10_0000_0000_0000
  {}

  lemma NextProduct(a: nat, p: nat, n: nat)
    requires p == Pow2(n)
    ensures Mul(a + 1, p) == Mul(a, p) + p > Mul(a, p)
  {
    Pow2IsPow(n);
    assert (a + 1) * p == a * p + p;
  }

  lemma NextBinade(e: nat)
    requires e > 0
    ensures Mul(0x10_0000_0000_0000, Pow2(e)) == Mul(0x20_0000_0000_0000, Pow2(e - 1))
    ensures Mul(0x20_0000_0000_0000, Pow2(e - 1)) > Mul(0x1f_ffff_ffff_ffff, Pow2(e - 1))
  {
    NextProduct(0x1f_ffff_ffff_ffff, Pow2(e - 1), e - 1);
    assert Pow2(e) == 2 * Pow2(e - 1);
  }

  lemma {:induction false} ScaledMono(a: nat, b: nat)
    requires a < b
    ensures Scaled(a) < Scaled(b)
    decreases b
  {
    hide Scaled;
    ScaledStep(b - 1);
    if a < b - 1 { ScaledMono(a, b - 1); }
  }

  /** A number between two adjacent doubles rounds to the nearer, or to the even one. */
  lemma RoundBetween(b: nat, t: nat, up: nat)
    requires Finite(b + 1) && Scaled(b) <= t < Scaled(b + 1)
    requires var half := Scaled(b) + Scaled(b + 1); up == RoundUp(b, 2 * t > half, 2 * t == half)
    ensures NearestEven(b + up, t)
  {
    hide Scaled;
    forall c: nat | Finite(c) && c != b + up
      ensures Distance(Scaled(b + up), t) < Distance(Scaled(c), t)
        || (Distance(Scaled(b + up), t) == Distance(Scaled(c), t) && (b + up) % 2 == 0)
    {
      if c < b { ScaledMono(c, b); }
      if c > b + 1 { ScaledMono(b + 1, c); }
    }
  }

  /** Rounding keeps the order, so a nearest double is the only one. */
  lemma NearestMono(a: nat, b: nat, t: nat, u: nat)
    requires t <= u && NearestEven(a, t) && NearestEven(b, u)
    ensures a <= b
  {
    hide Scaled;
    if b < a {
      ScaledMono(b, a);
      ScaledMono(b, b + 1);
      if b + 1 < a { ScaledMono(b + 1, a); }
    }
  }

  // --- the theorem ---

  lemma ScaledAt(e: nat, frac: nat)
    requires e > 0 && frac < 0x10_0000_0000_0000
    ensures Scaled(e * 0x10_0000_0000_0000 + frac) == Mul(0x10_0000_0000_0000 + frac, Pow2(e - 1))
  {
    hide Pow2, Mul;
    DivModUnique(e * 0x10_0000_0000_0000 + frac, 0x10_0000_0000_0000, e, frac);
  }

  /** The double just below: mantissa times the unit, and the next one. */
  lemma MantissaScaled(m: nat, e: nat)
    requires 0x10_0000_0000_0000 <= m < 0x20_0000_0000_0000
    ensures Scaled(e * 0x10_0000_0000_0000 + m) == Mul(m, Pow2(e))
    ensures Scaled(e * 0x10_0000_0000_0000 + m + 1) == Mul(m + 1, Pow2(e))
  {
    hide Pow2, Scaled, Mul;
    ScaledAt(e + 1, m - 0x10_0000_0000_0000);
    if m + 1 < 0x20_0000_0000_0000 {
      ScaledAt(e + 1, m + 1 - 0x10_0000_0000_0000);
    } else {
      ScaledAt(e + 2, 0);
      NextBinade(e + 1);
    }
  }

  /** Scaling by 2^1074 puts the number between the two doubles as its low bits say. */
  lemma Placement(v: nat, lz: nat, left: nat, m: nat, d: nat)
    requires lz < 256 && left == Mul(v, Pow2(lz)) && left == m * Pow2(203) + d
    ensures var t := Mul(v, Pow2(1074));
      && t == Mul(m, Pow2(1277 - lz)) + Mul(d, Pow2(1074 - lz))
      && Mul(m + 1, Pow2(1277 - lz)) == Mul(m, Pow2(1277 - lz)) + Mul(Pow2(203), Pow2(1074 - lz))
  {
    hide Pow2;
    Pow2Add(lz, 1074 - lz);
    Pow2Add(203, 1074 - lz);
    PlacementSums(v, Pow2(lz), Pow2(1074 - lz), m, d, Pow2(203));
  }

  lemma PlacementSums(v: nat, a: nat, k: nat, m: nat, d: nat, p: nat)
    requires v * a == m * p + d
    ensures v * (a * k) == m * (p * k) + d * k
    ensures (m + 1) * (p * k) == m * (p * k) + p * k
  {
    assert v * (a * k) == v * a * k;
    assert (m * p + d) * k == m * p * k + d * k;
    assert m * p * k == m * (p * k);
  }

  lemma ScaleCompare(d: nat, k: nat, h: nat)
    requires k > 0
    ensures Mul(d, k) > Mul(h, k) <==> d > h
    ensures Mul(d, k) == Mul(h, k) <==> d == h
    ensures Mul(2 * h, k) == 2 * Mul(h, k)
  {
    if d > h { NextMul(h, d, k); }
    if d < h { NextMul(d, h, k); }
    assert 2 * h * k == 2 * (h * k);
  }

  lemma NextMul(a: nat, b: nat, k: nat)
    requires a < b && k > 0
    ensures a * k < b * k
  {
    MulMono(k, a + 1, b);
    assert k * (a + 1) == k * a + k;
  }

  /** The result is the nearest double to every 256-bit integer, ties going to even. */
  lemma ToF64IsNearest(x: U256)
    ensures NearestEven(ToF64(x), Mul(Val(x), Pow2(1074)))
  {
    hide Pow2, Val, Mul, LeftAligned, Mantissa, Dropped, Rounded, Scaled;
    ZeroValue();
    if Val(x) == 0 {
      ValInjective(x, ZERO);
      ToF64Zero();
    } else {
      ToF64NonZero(x);
    }
  }

  lemma ToF64Zero()
    ensures ToF64(ZERO) == 0 && NearestEven(0, Mul(0, Pow2(1074)))
  {
    hide Pow2, LeftAligned, Mantissa, Dropped, Rounded;
    ZeroParts();
    Powers();
    RoundedValue(0, 0);
    assert Scaled(0) == 0;
    hide Scaled;
    forall c: nat | Finite(c) && c != 0 ensures Scaled(c) > 0 { ScaledMono(0, c); }
  }

  /** The mantissa m and the dropped bits d of a number, and the result they round to. */
  lemma ToF64Shape(x: U256) returns (lz: nat, m: nat, d: nat)
    requires Val(x) != 0
    ensures lz == LeadingZeros256(x) < 256
    ensures Pow2(52) <= m < Pow2(53) && d < Pow2(203)
    ensures Mul(Val(x), Pow2(lz)) == m * Pow2(203) + d
    ensures ToF64(x) == (1277 - lz) * 0x10_0000_0000_0000 + m + RoundUp(m, d > Pow2(202), d == Pow2(202))
  {
    hide Pow2, Val, Mul, LeftAligned, Mantissa, Dropped, Rounded, LeadingZeros256;
    var left := LeftAligned(x);
    lz := LeadingZeros256(x);
    ZeroValue();
    NonZeroParts(x);
    SplitAt203(left);
    m, d := Mantissa(left), Val(left) % Pow2(203);
    RoundedValue(Mantissa(left), Dropped(left));
    DivMod(Val(left), Pow2(203));
    LeftAlignedValue(x);
  }

  lemma ToF64NonZero(x: U256)
    requires Val(x) != 0
    ensures NearestEven(ToF64(x), Mul(Val(x), Pow2(1074)))
  {
    hide Pow2, Val, Mul, Scaled, ToF64, LeadingZeros256, NearestEven, RoundUp;
    var lz, m, d := ToF64Shape(x);
    var k := Pow2(1074 - lz);
    Powers();
    var b: nat := (1277 - lz) * 0x10_0000_0000_0000 + m;
    MantissaScaled(m, 1277 - lz);
    Placement(Val(x), lz, Mul(Val(x), Pow2(lz)), m, d);
    Pow2IsPow(1074 - lz);
    ScaleCompare(d, k, Pow2(202));
    ScaleCompare(Pow2(203), k, d);
    DoublePower(202);
    RoundParity(1277 - lz, m, d > Pow2(202), d == Pow2(202));
    RoundBetween(b, Mul(Val(x), Pow2(1074)), RoundUp(m, d > Pow2(202), d == Pow2(202)));
  }

  lemma RoundParity(e: nat, m: nat, over: bool, tie: bool)
    ensures RoundUp(e * 0x10_0000_0000_0000 + m, over, tie) == RoundUp(m, over, tie)
  {}

  lemma DoublePower(n: nat)
    ensures Pow2(n + 1) == 2 * Pow2(n)
  {}

  lemma ToF64Monotone(x: U256, y: U256)
    requires Val(x) <= Val(y)
    ensures ToF64(x) <= ToF64(y)
    ensures Scaled(ToF64(x)) <= Scaled(ToF64(y))
  {
    hide Pow2, ToF64, Scaled, NearestEven;
    ToF64IsNearest(x);
    ToF64IsNearest(y);
    MulMono(Pow2(1074), Val(x), Val(y));
    NearestMono(ToF64(x), ToF64(y), Mul(Val(x), Pow2(1074)), Mul(Val(y), Pow2(1074)));
    if ToF64(x) < ToF64(y) { ScaledMono(ToF64(x), ToF64(y)); }
  }

  /** An integer that is a double converts to exactly that double. */
  lemma ToF64Exact(x: U256, b: nat)
    requires Finite(b) && Scaled(b) == Mul(Val(x), Pow2(1074))
    ensures ToF64(x) == b
  {
    hide Pow2, ToF64, Scaled, Mul;
    ToF64IsNearest(x);
    if ToF64(x) < b { ScaledMono(ToF64(x), b); }
    if b < ToF64(x) { ScaledMono(b, ToF64(x)); }
  }

  /** The mantissa overflows into the exponent exactly from 2^256 - 2^202 on, giving 2^256. */
  lemma ToF64RoundsTo2To256(x: U256)
    ensures ToF64(x) == 1279 * 0x10_0000_0000_0000 <==> Val(x) >= B256 - Pow2(202)
    ensures Scaled(1279 * 0x10_0000_0000_0000) == Mul(B256, Pow2(1074))
  {
    hide Pow2, Val, Mul, ToF64, LeadingZeros256, Scaled;
    ScaledOf2To256();
    Powers();
    Pow2Add(53, 203);
    DoublePower(202);
    Pow2Mono(202, 255);
    DoublePower(255);
    if Val(x) == 0 {
      ZeroValue();
      ValInjective(x, ZERO);
      ToF64Zero();
    } else {
      var lz, m, d := ToF64Shape(x);
      if lz == 0 {
        Unshifted(Val(x));
        TopBinade(Val(x), m, d, Pow2(202));
      } else {
        LeadingZeroBound(x);
      }
    }
  }

  lemma ScaledOf2To256()
    ensures Scaled(1279 * 0x10_0000_0000_0000) == Mul(B256, Pow2(1074))
  {
    hide Pow2;
    DivModUnique(1279 * 0x10_0000_0000_0000, 0x10_0000_0000_0000, 1279, 0);
    Powers();
    Pow2Add(256, 1074);
    Pow2Add(52, 1278);
  }

  lemma Unshifted(v: nat)
    ensures Mul(v, Pow2(0)) == v
  {}

  lemma TopBinade(v: nat, m: nat, d: nat, h: nat)
    requires v == m * (2 * h) + d && d < 2 * h && m < 0x20_0000_0000_0000
    requires B256 == 0x20_0000_0000_0000 * (2 * h)
    ensures v >= B256 - h <==> m == 0x1f_ffff_ffff_ffff && d >= h
  {
    if m < 0x1f_ffff_ffff_ffff {
      MulMono(2 * h, m, 0x1f_ffff_ffff_fffe);
      assert 2 * h * m == m * (2 * h);
    }
  }

  lemma LeadingZeroBound(x: U256)
    requires Val(x) != 0 && LeadingZeros256(x) > 0
    ensures Val(x) < Pow2(255)
  {
    hide Pow2, Val, Bits;
    BitsCorrect(x);
    BitLengthBounds(Val(x));
    Pow2Mono(BitLength(Val(x)), 255);
  }
}
