/** Multiplication, division and inversion of 256-bit integers. */
module U256Arith {
  import opened Words
  import opened U256

  // --- multiplication by a word ---

  /** Four 64-bit words, least significant first. */
  function SplitLe(x: U256): (w: seq<nat>)
    ensures |w| == 4 && forall k :: 0 <= k < 4 ==> w[k] < 0x1_0000_0000_0000_0000
  {
    [x.lo % 0x1_0000_0000_0000_0000, x.lo / 0x1_0000_0000_0000_0000, x.hi % 0x1_0000_0000_0000_0000, x.hi / 0x1_0000_0000_0000_0000]
  }

  /** The number the first n words stand for. */
  function Partial(w: seq<nat>, n: nat): nat
    requires n <= |w|
  {
    if n == 0 then 0 else Partial(w, n - 1) + Mul(w[n - 1], Pow2(64 * (n - 1)))
  }

  lemma PartialAll(w: seq<nat>)
    requires |w| == 4
    ensures Partial(w, 4) == w[0] + 0x1_0000_0000_0000_0000 * w[1] + 0x1_0000_0000_0000_0000_0000_0000_0000_0000 * w[2]
      + 0x1_0000_0000_0000_0000_0000_0000_0000_0000_0000_0000_0000_0000 * w[3]
    ensures Pow2(256) == B256
  {
    Pow2Values();
    Pow2Add(128, 64);
    Pow2Add(128, 128);
    assert Partial(w, 1) == w[0] by { assert Partial(w, 0) == 0; }
    assert Partial(w, 2) == Partial(w, 1) + Mul(w[1], Pow2(64));
    assert Partial(w, 3) == Partial(w, 2) + Mul(w[2], Pow2(128));
  }

  lemma SplitLeValue(x: U256)
    ensures Partial(SplitLe(x), 4) == Val(x)
  {
    PartialAll(SplitLe(x));
  }

  lemma {:induction false} PartialSame(a: seq<nat>, b: seq<nat>, n: nat)
    requires n <= |a| && n <= |b| && forall k :: 0 <= k < n ==> a[k] == b[k]
    ensures Partial(a, n) == Partial(b, n)
  {
    if n > 0 { PartialSame(a, b, n - 1); }
  }

  lemma WordProduct(rhs: u64, word: u64, carry: u64)
    ensures 0 <= carry + rhs * word < 0x1_0000_0000_0000_0000_0000_0000_0000_0000
  {
    MulMono(rhs, 0, word);
    MulMono(rhs, word, 0xffff_ffff_ffff_ffff);
  }

  /** Multiplies by a 64-bit word. The flag says exactly when 256 bits do not hold the product. */
  method MulU64(x: U256, rhs: u64) returns (r: U256, overflow: bool)
    ensures Val(r) == Val(x) * rhs % B256
    ensures overflow <==> Val(x) * rhs >= B256
  {
    ghost var w := SplitLe(x);
    var carry: u128 := 0;
    var splitLe := new u64[4][x.lo % 0x1_0000_0000_0000_0000, x.lo / 0x1_0000_0000_0000_0000,
                              x.hi % 0x1_0000_0000_0000_0000, x.hi / 0x1_0000_0000_0000_0000];
    ProductStart(rhs, splitLe[..], w);
    for i := 0 to 4
      invariant carry < 0x1_0000_0000_0000_0000
      invariant forall k :: i <= k < 4 ==> splitLe[k] == w[k]
      invariant Partial(splitLe[..], i) + Mul(carry, Pow2(64 * i)) == Mul(rhs, Partial(w, i))
    {
      WordProduct(rhs, splitLe[i], carry);
      var n: u128 := carry + rhs * splitLe[i];
      ghost var before := splitLe[..];
      splitLe[i] := n % 0x1_0000_0000_0000_0000;
      ProductStep(rhs, before, splitLe[..], w, i, carry, n);
      carry := n / 0x1_0000_0000_0000_0000;
    }
    var low := Or(splitLe[0], Shl128(splitLe[1], 64));
    var high := Or(splitLe[2], Shl128(splitLe[3], 64));
    JoinWords(splitLe[0], splitLe[1]);
    JoinWords(splitLe[2], splitLe[3]);
    r := U256(high, low);
    overflow := carry != 0;
    PartialAll(splitLe[..]);
    SplitLeValue(x);
    ProductEnd(Val(x), rhs, Val(r), carry);
  }

  lemma ProductStart(rhs: u64, s: seq<nat>, w: seq<nat>)
    requires |s| == |w| == 4 && s == w
    ensures Partial(s, 0) + Mul(0, Pow2(64 * 0)) == Mul(rhs, Partial(w, 0))
  {}

  lemma ProductStep(rhs: u64, before: seq<nat>, after: seq<nat>, w: seq<nat>, i: nat, carry: u64, n: nat)
    requires |before| == |after| == |w| == 4 && i < 4
    requires before[i] == w[i] && after == before[i := n % 0x1_0000_0000_0000_0000]
    requires w[i] < 0x1_0000_0000_0000_0000 && n == carry + rhs * w[i]
    requires Partial(before, i) + Mul(carry, Pow2(64 * i)) == Mul(rhs, Partial(w, i))
    ensures Partial(after, i + 1) + Mul(n / 0x1_0000_0000_0000_0000, Pow2(64 * (i + 1))) == Mul(rhs, Partial(w, i + 1))
  {
    hide Pow2;
    PartialSame(before, after, i);
    var p := Pow2(64 * i);
    assert Pow2(64 * (i + 1)) == 0x1_0000_0000_0000_0000 * p by { Pow2Add(64, 64 * i); Pow2Values(); }
    StepSum(rhs, Partial(w, i), w[i], p, Partial(before, i), carry, n);
  }

  lemma StepSum(rhs: nat, lower: nat, word: nat, p: nat, done: nat, carry: nat, n: nat)
    requires done + Mul(carry, p) == Mul(rhs, lower) && n == carry + rhs * word
    ensures done + Mul(n % 0x1_0000_0000_0000_0000, p) + Mul(n / 0x1_0000_0000_0000_0000, 0x1_0000_0000_0000_0000 * p)
      == Mul(rhs, lower + Mul(word, p))
  {
    var q, r := n / 0x1_0000_0000_0000_0000, n % 0x1_0000_0000_0000_0000;
    assert r * p + q * (0x1_0000_0000_0000_0000 * p) == n * p by {
      assert (q * 0x1_0000_0000_0000_0000 + r) * p == q * (0x1_0000_0000_0000_0000 * p) + r * p;
    }
    assert n * p == carry * p + rhs * (word * p) by {
      assert (carry + rhs * word) * p == carry * p + rhs * word * p;
      assert rhs * word * p == rhs * (word * p);
    }
    assert rhs * (lower + word * p) == rhs * lower + rhs * (word * p);
  }

  lemma JoinWords(a: u64, b: u64)
    ensures Or(a, Shl128(b, 64)) == a + b * 0x1_0000_0000_0000_0000
  {
    hide Or, Pow2, Shl128;
    Pow2Values();
    OrFields(a, b, 64);
    ShiftedHalf(b);
  }

  lemma ShiftedHalf(b: u64)
    ensures Shl128(b, 64) == b * 0x1_0000_0000_0000_0000
  {
    Pow2Values();
    hide Pow2;
  }

  lemma ProductEnd(v: nat, rhs: u64, r: nat, carry: nat)
    requires r < B256 && r + Mul(carry, B256) == Mul(rhs, v)
    ensures r == v * rhs % B256 && (carry != 0 <==> v * rhs >= B256)
  {
    DivModUnique(v * rhs, B256, carry, r);
  }

  // --- multiplication ---

  function LowU64(x: U256): u64 { x.lo % 0x1_0000_0000_0000_0000 }

  /** Multiplies two 256-bit integers. The flag says exactly when 256 bits do not hold the product. */
  method OverflowingMul(x: U256, rhs: U256) returns (ret: U256, overflow: bool)
    ensures Val(ret) == Val(x) * Val(rhs) % B256
    ensures overflow <==> Val(x) * Val(rhs) >= B256
  {
    hide Pow2, WrappingShl, WrappingShr, OverflowingAdd, Val, Mul, Less, LowU64, SplitLe, Partial;
    ghost var w := SplitLe(rhs);
    ret, overflow := ZERO, false;
    PartialNone(w);
    ZeroValue();
    MulZero(Val(x));
    Commutes(0, Val(x));
    for i := 0 to 4
      invariant Val(ret) == Mul(Val(x), Partial(w, i)) % B256
      invariant overflow <==> Mul(Val(x), Partial(w, i)) >= B256
    {
      var toMul := LowU64(WrappingShr(rhs, 64 * i));
      ShiftedToWord(rhs, i);
      var mulRes, overflow1 := MulU64(x, toMul);
      var overflowBits := if i > 0 then WrappingShr(mulRes, 256 - 64 * i) else ZERO;
      ShiftedOut(mulRes, i);
      var (sum, overflow2) := OverflowingAdd(ret, WrappingShl(mulRes, 64 * i));
      OverflowingAddCorrect(ret, WrappingShl(mulRes, 64 * i));
      WrappingShlCorrect(mulRes, 64 * i);
      ValBound(sum);
      Pow2IsPow(64 * i);
      MulStep(Val(x), Partial(w, i), w[i], Pow2(64 * i), Val(mulRes), Val(ret), Val(sum));
      PartialStep(w, i);
      ret := sum;
      overflow := overflow || overflow1 || Less(ZERO, overflowBits) || overflow2;
    }
    SplitLeValue(rhs);
    MulValue(Val(x), Val(rhs));
  }

  lemma MulValue(a: nat, b: nat)
    ensures Mul(a, b) == a * b
  {}

  lemma ZeroValue()
    ensures Val(ZERO) == 0 && Val(U256(0, 0)) == 0
  {}

  lemma PartialNone(w: seq<nat>)
    ensures Partial(w, 0) == 0
  {}

  lemma PartialStep(w: seq<nat>, i: nat)
    requires i < |w|
    ensures Partial(w, i + 1) == Partial(w, i) + Mul(w[i], Pow2(64 * i))
  {
    hide Pow2, Mul;
  }

  /** The i-th 64-bit word is what is left in the low word after shifting right. */
  lemma ShiftedToWord(x: U256, i: nat)
    requires i < 4
    ensures LowU64(WrappingShr(x, 64 * i)) == SplitLe(x)[i]
  {
    hide Pow2, WrappingShr;
    var w := SplitLe(x);
    WrappingShrCorrect(x, 64 * i);
    SplitPowers();
    WordQuotient(w[0], w[1], w[2], w[3], Val(x));
    LowOfVal(WrappingShr(x, 64 * i));
  }

  lemma SplitPowers()
    ensures Pow2(0) == 1 && Pow2(64) == 0x1_0000_0000_0000_0000 && Pow2(128) == B128
    ensures Pow2(192) == 0x1_0000_0000_0000_0000_0000_0000_0000_0000_0000_0000_0000_0000
  {
    Pow2Values();
    Pow2Add(64, 128);
  }

  lemma LowOfVal(x: U256)
    ensures LowU64(x) == Val(x) % 0x1_0000_0000_0000_0000
  {}

  lemma WordQuotient(a: nat, b: nat, c: nat, d: nat, v: nat)
    requires a < 0x1_0000_0000_0000_0000 && b < 0x1_0000_0000_0000_0000 && c < 0x1_0000_0000_0000_0000
    requires d < 0x1_0000_0000_0000_0000
    requires v == a + 0x1_0000_0000_0000_0000 * b + 0x1_0000_0000_0000_0000_0000_0000_0000_0000 * c
      + 0x1_0000_0000_0000_0000_0000_0000_0000_0000_0000_0000_0000_0000 * d
    ensures v % 0x1_0000_0000_0000_0000 == a
    ensures v / 0x1_0000_0000_0000_0000 % 0x1_0000_0000_0000_0000 == b
    ensures v / 0x1_0000_0000_0000_0000_0000_0000_0000_0000 % 0x1_0000_0000_0000_0000 == c
    ensures v / 0x1_0000_0000_0000_0000_0000_0000_0000_0000_0000_0000_0000_0000 % 0x1_0000_0000_0000_0000 == d
  {
    var W := 0x1_0000_0000_0000_0000;
    DivModUnique(v, W, b + W * c + W * W * d, a);
    DivModUnique(b + W * c + W * W * d, W, c + W * d, b);
    DivModUnique(v, W * W, c + W * d, a + W * b);
    DivModUnique(c + W * d, W, d, c);
    DivModUnique(v, W * W * W, d, a + W * b + W * W * c);
  }

  /** Shifting right by the complement shows exactly whether shifting left loses bits. */
  lemma ShiftedOut(m: U256, i: nat)
    requires i < 4
    ensures Less(ZERO, if i > 0 then WrappingShr(m, 256 - 64 * i) else ZERO) <==> Mul(Val(m), Pow2(64 * i)) >= B256
  {
    hide Pow2, WrappingShr, Val, Less, Mul;
    ValBound(m);
    ZeroValue();
    if i > 0 {
      var k := 256 - 64 * i;
      LessCorrect(ZERO, WrappingShr(m, k));
      WrappingShrCorrect(m, k);
      Pow2Add(k, 64 * i);
      PartialAll([0, 0, 0, 0]);
      MulValue(Pow2(k), Pow2(64 * i));
      QuotientPositive(Val(m), Pow2(k), Pow2(64 * i));
    } else {
      LessCorrect(ZERO, ZERO);
      SplitPowers();
      TimesOne(Val(m));
    }
  }

  lemma TimesOne(a: nat)
    ensures Mul(a, 1) == a
  {}

  lemma QuotientPositive(v: nat, room: nat, p: nat)
    requires room > 0 && p > 0
    ensures v / room > 0 <==> Mul(v, p) >= Mul(room, p)
  {
    DivAtLeast(v, room, 1);
    if v >= room { MulMono(p, room, v); }
    if v < room {
      MulMono(p, v, room - 1);
      assert p * (room - 1) == p * room - p;
    }
  }

  lemma MulStep(x: nat, lower: nat, word: nat, p: nat, mulRes: nat, ret: nat, sum: nat)
    requires p > 0 && mulRes == x * word % B256 && ret == Mul(x, lower) % B256 && sum < B256
    requires sum == ret + Mul(mulRes, p) % B256 || sum + B256 == ret + Mul(mulRes, p) % B256
    ensures var total := Mul(x, lower + Mul(word, p));
      && sum == total % B256
      && (total >= B256 <==>
          Mul(x, lower) >= B256 || x * word >= B256 || Mul(mulRes, p) >= B256 || sum != ret + Mul(mulRes, p) % B256)
  {
    hide Mul;
    var m := x * word;
    var total := Mul(x, lower + Mul(word, p));
    TotalSplit(x, lower, word, p);
    SumResidue(Mul(x, lower), m, p, sum);
    ProductGrows(m, p);
    SmallResidue(m);
    OverflowIff(Mul(x, lower), Mul(m, p), m, Mul(mulRes, p), sum);
  }

  lemma SmallResidue(m: nat)
    ensures m < B256 ==> m % B256 == m
  {}

  lemma OverflowIff(low: nat, product: nat, m: nat, kept: nat, sum: nat)
    requires product >= m && (m < B256 ==> kept == product) && sum < B256
    requires sum == low % B256 + kept % B256 || sum + B256 == low % B256 + kept % B256
    ensures low + product >= B256 <==>
      low >= B256 || m >= B256 || kept >= B256 || sum != low % B256 + kept % B256
  {
    SmallResidue(low);
    SmallResidue(kept);
  }

  lemma TotalSplit(x: nat, lower: nat, word: nat, p: nat)
    ensures Mul(x, lower + Mul(word, p)) == Mul(x, lower) + Mul(x * word, p)
  {
    assert x * (lower + word * p) == x * lower + x * (word * p);
    assert x * (word * p) == x * word * p;
  }

  lemma ProductGrows(m: nat, p: nat)
    requires p > 0
    ensures Mul(m, p) >= m
  {
    MulMono(m, 1, p);
  }

  lemma SumResidue(low: nat, m: nat, p: nat, sum: nat)
    requires sum < B256
    requires var shifted := Mul(m % B256, p) % B256; sum == low % B256 + shifted || sum + B256 == low % B256 + shifted
    ensures sum == (low + Mul(m, p)) % B256
  {
    ModMul(m, p, B256);
    var shifted := Mul(m, p) % B256;
    ModAdd(low, shifted, B256);
    ModAdd(Mul(m, p), low, B256);
    DivModUnique(low % B256 + shifted, B256, if sum == low % B256 + shifted then 0 else 1, sum);
  }

  // --- division ---

  /** Or-ing bit k into a word that is a multiple of 2^(k+1) adds 2^k. */
  lemma SetBit(word: u128, k: nat)
    requires k < 128 && Pow2(k + 1) > 0 && word % Pow2(k + 1) == 0
    ensures Or(word, Shl128(1, k)) == word + Pow2(k) < B128
  {
    hide Or, Pow2, Shl128;
    var p, q := Pow2(k + 1), word / Pow2(k + 1);
    Pow2Add(k + 1, 127 - k);
    Pow2Step(k + 1);
    Pow2Values();
    OneShifted(k);
    DivMod(word, p);
    OrFields(Pow2(k), q, k + 1);
    if q >= Pow2(127 - k) { MulMono(p, Pow2(127 - k), q); }
    MulUnder(p, q, Pow2(127 - k));
  }

  lemma OneShifted(k: nat)
    requires k < 128
    ensures Shl128(1, k) == Pow2(k)
  {
    hide Pow2;
    Pow2Mono(k, 128);
    Pow2Values();
  }

  lemma Multiple(a: nat, k: nat, m: nat)
    requires k <= m && Pow2(k) > 0
    ensures (a * Pow2(m)) % Pow2(k) == 0
  {
    hide Pow2;
    Pow2Add(k, m - k);
    MultipleOf(a, Pow2(k), Pow2(m - k));
  }

  lemma MultipleOf(a: nat, p: nat, q: nat)
    requires p > 0
    ensures (a * (p * q)) % p == 0
  {
    assert a * (p * q) == a * q * p;
    DivModUnique(a * (p * q), p, a * q, 0);
  }

  /** The word that `shift` points into, for a quotient that is so far a multiple of 2^(shift+1). */
  lemma QuotientWords(q: U256, shift: nat, c: nat)
    requires shift < 256 && Val(q) == Mul(c, Pow2(shift + 1))
    ensures var k := shift % 128; Pow2(k + 1) > 0 && (if shift < 128 then q.lo else q.hi) % Pow2(k + 1) == 0
    ensures Pow2(shift) == if shift < 128 then Pow2(shift % 128) else B128 * Pow2(shift % 128)
  {
    hide Pow2, Mul;
    var k := shift % 128;
    Pow2IsPow(k + 1);
    MulValue(c, Pow2(shift + 1));
    Multiple(c, k + 1, shift + 1);
    Pow2Add(k + 1, 127 - k);
    Pow2Values();
    if shift < 128 {
      MulIsMultiple(q.hi, Pow2(k + 1), Pow2(127 - k), q.lo);
    } else {
      Pow2Add(128, k);
      Pow2Add(128, k + 1);
      HighMultiple(q, c, Pow2(k + 1));
    }
  }

  lemma MulIsMultiple(hi: nat, p: nat, r: nat, lo: nat)
    requires p > 0 && p * r == 0x1_0000_0000_0000_0000_0000_0000_0000_0000
    requires (hi * 0x1_0000_0000_0000_0000_0000_0000_0000_0000 + lo) % p == 0
    ensures lo % p == 0
  {
    assert hi * 0x1_0000_0000_0000_0000_0000_0000_0000_0000 == hi * r * p by {
      assert hi * r * p == hi * (r * p);
    }
    ModAddMultiple(lo, hi * r, p);
  }

  lemma HighMultiple(q: U256, c: nat, p: nat)
    requires p > 0 && Val(q) == Mul(c, 0x1_0000_0000_0000_0000_0000_0000_0000_0000 * p)
    ensures q.hi % p == 0
  {
    assert Val(q) == c * p * 0x1_0000_0000_0000_0000_0000_0000_0000_0000;
    DivModUnique(Val(q), 0x1_0000_0000_0000_0000_0000_0000_0000_0000, c * p, 0);
    DivModUnique(q.hi, p, c, 0);
  }

  /** Quotient and remainder by shifting, comparing and subtracting. The source panics on zero. */
  method DivRem(x: U256, rhs: U256) returns (quotient: U256, remainder: U256)
    requires Val(rhs) != 0
    ensures Val(x) == Val(quotient) * Val(rhs) + Val(remainder) && Val(remainder) < Val(rhs)
  {
    hide Pow2, WrappingShl, WrappingShr, OverflowingSub, Val, Mul, Shl128, Or, Bits;
    var subCopy, shiftCopy := x, rhs;
    var ret := new u128[2](_ => 0);
    var myBits, yourBits := Bits(x), Bits(rhs);
    if myBits < yourBits {
      FewerBits(x, rhs);
      return ZERO, subCopy;
    }
    var shift: u32 := myBits - yourBits;
    StartShift(x, rhs, shift);
    shiftCopy := WrappingShl(shiftCopy, shift);
    ghost var c: nat := 0;
    while true
      invariant shift < 256
      invariant Aligned(x, rhs, subCopy, shiftCopy, U256(ret[0], ret[1]), shift, c)
      decreases shift
    {
      ghost var before := U256(ret[0], ret[1]);
      if !Less(subCopy, shiftCopy) {
        SubtractStep(x, rhs, subCopy, shiftCopy, before, shift, c);
        ret[1 - shift / 128] := Or(ret[1 - shift / 128], Shl128(1, shift % 128));
        subCopy := OverflowingSub(subCopy, shiftCopy).0;
        c := 2 * c + 1;
      } else {
        KeepStep(x, rhs, subCopy, shiftCopy, before, shift, c);
        c := 2 * c;
      }
      assert Remaining(x, rhs, subCopy, U256(ret[0], ret[1]), shift, c);
      if shift > 0 { HalveShift(rhs, shift, shiftCopy); }
      shiftCopy := WrappingShr(shiftCopy, 1);
      if shift == 0 {
        Finished(x, rhs, subCopy, U256(ret[0], ret[1]), c);
        break;
      }
      shift := shift - 1;
    }
    return U256(ret[0], ret[1]), subCopy;
  }

  /** Between steps: the quotient so far is c copies of 2^(shift+1), and what is left
      is below the divisor shifted by one place more. */
  ghost predicate Aligned(x: U256, d: U256, sub: U256, shifted: U256, q: U256, shift: nat, c: nat) {
    && Val(shifted) == Mul(Val(d), Pow2(shift))
    && Remaining(x, d, sub, q, shift + 1, c)
  }

  ghost predicate Remaining(x: U256, d: U256, sub: U256, q: U256, shift: nat, c: nat) {
    && Val(q) == Mul(c, Pow2(shift))
    && Val(x) == Mul(Val(q), Val(d)) + Val(sub)
    && Val(sub) < Mul(Val(d), Pow2(shift))
  }

  lemma FewerBits(x: U256, d: U256)
    requires Bits(x) < Bits(d)
    ensures Val(x) < Val(d) && Val(x) == Val(ZERO) * Val(d) + Val(x)
  {
    hide Pow2, Bits, Val;
    ZeroValue();
    BitsCorrect(x);
    BitsCorrect(d);
    BitLengthBounds(Val(x));
    BitLengthBounds(Val(d));
    Pow2Mono(Bits(x), Bits(d) - 1);
  }

  lemma StartShift(x: U256, d: U256, shift: nat)
    requires Val(d) != 0 && Bits(d) <= Bits(x) && shift == Bits(x) - Bits(d)
    ensures shift < 256 && Aligned(x, d, x, WrappingShl(d, shift), U256(0, 0), shift, 0)
  {
    hide Pow2, WrappingShl, Bits, BitLength, Mul, Val;
    var mine, yours := Bits(x), Bits(d);
    BitsCorrect(x);
    BitsCorrect(d);
    BitLengthBounds(Val(x));
    BitLengthBounds(Val(d));
    BitsPositive(d);
    ZeroValue();
    ShiftFits(Val(d), yours, shift);
    ShiftCovers(Val(x), Val(d), yours, shift);
    WrappingShlCorrect(d, shift);
    MulZero(Pow2(shift + 1));
    MulZero(Val(d));
  }

  lemma BitsPositive(d: U256)
    requires Val(d) != 0
    ensures BitLength(Val(d)) > 0
  {}

  lemma MulZero(p: nat)
    ensures Mul(0, p) == 0
  {}

  lemma ShiftFits(v: nat, yours: nat, shift: nat)
    requires v < Pow2(yours) && yours + shift <= 256
    ensures Mul(v, Pow2(shift)) < B256 && Mul(v, Pow2(shift)) % B256 == Mul(v, Pow2(shift))
  {
    hide Pow2;
    Pow2Add(yours, shift);
    Pow2Mono(yours + shift, 256);
    PartialAll([0, 0, 0, 0]);
    MulUnder(Pow2(shift), v, Pow2(yours));
    Commutes(v, Pow2(shift));
    Commutes(Pow2(yours), Pow2(shift));
  }

  lemma Commutes(a: nat, b: nat)
    ensures Mul(a, b) == Mul(b, a)
  {}

  lemma ShiftCovers(x: nat, v: nat, yours: nat, shift: nat)
    requires yours > 0 && Pow2(yours - 1) <= v && x < Pow2(yours + shift)
    ensures x < Mul(v, Pow2(shift + 1))
  {
    hide Pow2;
    Pow2Add(yours - 1, shift + 1);
    MulMono(Pow2(shift + 1), Pow2(yours - 1), v);
    Commutes(v, Pow2(shift + 1));
    Commutes(Pow2(yours - 1), Pow2(shift + 1));
  }

  lemma KeepStep(x: U256, d: U256, sub: U256, shifted: U256, q: U256, shift: nat, c: nat)
    requires Aligned(x, d, sub, shifted, q, shift, c) && Less(sub, shifted)
    ensures Remaining(x, d, sub, q, shift, 2 * c)
  {
    LessCorrect(sub, shifted);
    assert Mul(c, Pow2(shift + 1)) == Mul(2 * c, Pow2(shift)) by { assert c * (2 * Pow2(shift)) == 2 * c * Pow2(shift); }
  }

  function WithBit(q: U256, shift: nat): U256
    requires shift < 256 && Or(if shift < 128 then q.lo else q.hi, Shl128(1, shift % 128)) < B128
  {
    if shift < 128 then U256(q.hi, Or(q.lo, Shl128(1, shift % 128)))
    else U256(Or(q.hi, Shl128(1, shift % 128)), q.lo)
  }

  lemma SubtractStep(x: U256, d: U256, sub: U256, shifted: U256, q: U256, shift: nat, c: nat)
    requires shift < 256 && Aligned(x, d, sub, shifted, q, shift, c) && !Less(sub, shifted)
    ensures Or(if shift < 128 then q.lo else q.hi, Shl128(1, shift % 128)) < B128
    ensures Remaining(x, d, OverflowingSub(sub, shifted).0, WithBit(q, shift), shift, 2 * c + 1)
  {
    hide Pow2, Or, Shl128, OverflowingSub, Less, Mul;
    LessCorrect(sub, shifted);
    OverflowingSubCorrect(sub, shifted);
    QuotientWords(q, shift, c);
    SetBit(if shift < 128 then q.lo else q.hi, shift % 128);
    var q' := WithBit(q, shift);
    WithBitValue(q, shift, Pow2(shift % 128), Pow2(shift));
    Pow2Add(1, shift);
    OnlyTwo();
    SubtractSums(c, Pow2(shift), Val(q), Val(q'), Val(d), Pow2(1));
  }

  lemma WithBitValue(q: U256, shift: nat, k: nat, p: nat)
    requires shift < 256
    requires var word := if shift < 128 then q.lo else q.hi; Or(word, Shl128(1, shift % 128)) == word + k < B128
    requires p == if shift < 128 then k else B128 * k
    ensures Val(WithBit(q, shift)) == Val(q) + p
  {
    hide Or, Shl128;
  }

  lemma OnlyTwo()
    ensures Pow2(1) == 2
  {}

  lemma SubtractSums(c: nat, p: nat, q: nat, q': nat, d: nat, two: nat)
    requires q == Mul(c, two * p) && q' == q + p && two == 2
    ensures q' == Mul(2 * c + 1, p)
    ensures Mul(q', d) == Mul(q, d) + Mul(d, p)
    ensures Mul(d, two * p) == Mul(d, p) + Mul(d, p)
  {
    assert c * (2 * p) + p == (2 * c + 1) * p;
    assert (q + p) * d == q * d + d * p;
  }

  lemma HalveShift(d: U256, shift: nat, shifted: U256)
    requires shift > 0 && Val(shifted) == Mul(Val(d), Pow2(shift))
    ensures Val(WrappingShr(shifted, 1)) == Mul(Val(d), Pow2(shift - 1))
  {
    hide Pow2, WrappingShr, Val;
    WrappingShrCorrect(shifted, 1);
    OnlyTwo();
    Pow2Add(1, shift - 1);
    HalfProduct(Val(d), Pow2(1), Pow2(shift - 1));
  }

  lemma HalfProduct(d: nat, two: nat, p: nat)
    requires two == 2
    ensures Mul(d, two * p) / two == Mul(d, p)
  {
    assert d * (2 * p) == d * p * 2;
  }

  lemma Finished(x: U256, d: U256, sub: U256, q: U256, c: nat)
    requires Remaining(x, d, sub, q, 0, c)
    ensures Val(x) == Val(q) * Val(d) + Val(sub) && Val(sub) < Val(d)
  {
    assert Pow2(0) == 1;
  }

  // --- inversion ---

  /** Floor of 2^256 / (v + 1), with the two smallest arguments sent to the largest result. */
  function InverseNat(v: nat): nat {
    if v <= 1 then B256 - 1 else B256 / (v + 1)
  }

  predicate IsOne(x: U256) { x.hi == 0 && x.lo == 1 }

  predicate IsMax(x: U256) { x == MAX }

  /** 2^256 / (x + 1), computed as ~x / (x + 1) + 1 because 2^256 does not fit. */
  method Inverse(x: U256) returns (r: U256)
    ensures Val(r) == InverseNat(Val(x))
  {
    if IsZero(x) { return MAX; }
    if IsOne(x) { return MAX; }
    if IsMax(x) {
      return ONE;
    }
    WrappingIncCorrect(x);
    NotValue(x);
    var ret, rest := DivRem(Not(x), WrappingInc(x));
    InverseQuotient(Val(x), Val(ret), Val(rest));
    WrappingIncCorrect(ret);
    return WrappingInc(ret);
  }

  lemma InverseQuotient(v: nat, q: nat, r: nat)
    requires 2 <= v && v + 1 < B256 && B256 - 1 - v == q * (v + 1) + r && r < v + 1
    ensures q + 1 == B256 / (v + 1) < B256 - 1
  {
    assert (q + 1) * (v + 1) == q * (v + 1) + (v + 1);
    DivModUnique(B256, v + 1, q + 1, r);
    DivAtLeast(B256, v + 1, B256 - 1);
    MulMono(B256 - 1, 3, v + 1);
  }

  /** A larger target never has the larger inverse. */
  lemma InverseAntitone(v: nat, w: nat)
    requires v <= w
    ensures InverseNat(w) <= InverseNat(v)
  {
    if w >= 2 {
      var q := B256 / (w + 1);
      DivAtLeast(B256, w + 1, q);
      MulMono(q, Max(v, 2) + 1, w + 1);
      if v >= 2 {
        DivAtLeast(B256, v + 1, q);
      } else {
        assert q * 3 <= B256;
      }
    }
  }

  /** Inverting twice gives back every target from 2 up to 128 bits. */
  lemma InverseInvolution(v: nat)
    requires 2 <= v < B128
    ensures InverseNat(InverseNat(v)) == v
  {
    var i := B256 / (v + 1);
    DivAtLeast(B256, v + 1, B128);
    MulMono(B128, v + 1, B128);
    assert B128 * B128 == B256;
    assert i >= B128;
    DivMod(B256, v + 1);
    DivModUnique(B256, i + 1, v, B256 - v * (i + 1)) by {
      assert v * (i + 1) == v * i + v;
      assert i * (v + 1) == v * i + i;
    }
  }
}
