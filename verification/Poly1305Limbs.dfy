/** Arithmetic on five 26-bit limbs, as plain integer facts about the values the
    authenticator's loops compute. */
module Poly1305Limbs {
  import opened Words
  import opened Poly1305Spec

  const BITMASK: u32 := 0x3ff_ffff

  function Limbs(a: seq<nat>): nat
    requires |a| == 5
  {
    a[0] + 0x400_0000 * a[1] + 0x10_0000_0000_0000 * a[2] + 0x4000_0000_0000_0000_0000 * a[3]
      + 0x100_0000_0000_0000_0000_0000_0000 * a[4]
  }

  predicate Below(a: seq<nat>, bound: nat) {
    forall i :: 0 <= i < |a| ==> a[i] < bound
  }

  /** What every multiplication leaves: each limb fits 26 bits, except that the
      second may exceed them by less than 64. */
  predicate Reduced(a: seq<nat>) {
    |a| == 5 && a[0] < 0x400_0000 && a[1] < 0x400_0040 && a[2] < 0x400_0000 && a[3] < 0x400_0000 && a[4] < 0x400_0000
  }

  lemma Mask26(x: nat)
    ensures And(x, BITMASK) == x % 0x400_0000
  {
    AndOnes(x, 26);
    Pow2Values();
  }

  lemma MaskTruncated(x: nat)
    ensures And(x % 0x1_0000_0000, BITMASK) == x % 0x400_0000
  {
    Mask26(x % 0x1_0000_0000);
    ModMod(x, 0x400_0000, 0x40);
  }

  // --- message blocks ---

  function Le32(b0: u8, b1: u8, b2: u8, b3: u8): u32 {
    b0 + 0x100 * b1 + 0x1_0000 * b2 + 0x100_0000 * b3
  }

  /** The block, a one byte and zeros up to 17 bytes, read at the four overlapping offsets. */
  function PreparePaddedMessageSlice(msg: seq<u8>, isLast: bool): (m: seq<u32>)
    requires |msg| <= 16
    ensures |m| == 5
  {
    hide And, Or, Le32;
    var hiBit := if isLast then 0 else 0x100_0000;
    var f := msg + [1] + ZeroBytes(16 - |msg|);
    PackBound(f[12], f[13], f[14], f[15], hiBit);
    AndBound(Le32(f[0], f[1], f[2], f[3]));
    AndBound(Le32(f[3], f[4], f[5], f[6]) / 4);
    AndBound(Le32(f[6], f[7], f[8], f[9]) / 16);
    AndBound(Le32(f[9], f[10], f[11], f[12]) / 64);
    [And(Le32(f[0], f[1], f[2], f[3]), BITMASK),
     And(Le32(f[3], f[4], f[5], f[6]) / 4, BITMASK),
     And(Le32(f[6], f[7], f[8], f[9]) / 16, BITMASK),
     And(Le32(f[9], f[10], f[11], f[12]) / 64, BITMASK),
     Or(Le32(f[12], f[13], f[14], f[15]) / 0x100, hiBit)]
  }

  lemma AndBound(x: nat)
    ensures And(x, BITMASK) < 0x400_0000
  {
    Mask26(x);
  }

  lemma PackBound(b0: u8, b1: u8, b2: u8, b3: u8, hiBit: nat)
    requires hiBit == 0 || hiBit == 0x100_0000
    ensures Or(Le32(b0, b1, b2, b3) / 0x100, hiBit) == b1 + 0x100 * b2 + 0x1_0000 * b3 + hiBit < 0x200_0000
  {
    Pow2Values();
    assert Le32(b0, b1, b2, b3) / 0x100 == b1 + 0x100 * b2 + 0x1_0000 * b3;
    OrFields(b1 + 0x100 * b2 + 0x1_0000 * b3, hiBit / 0x100_0000, 24);
  }

  lemma Le16(f: seq<u8>)
    requires |f| == 16
    ensures LeNat(f) == Le32(f[0], f[1], f[2], f[3]) + 0x1_0000_0000 * Le32(f[4], f[5], f[6], f[7])
      + 0x1_0000_0000_0000_0000 * Le32(f[8], f[9], f[10], f[11])
      + 0x1_0000_0000_0000_0000_0000_0000 * Le32(f[12], f[13], f[14], f[15])
  {
    hide LeNat, Le32, Pow;
    var lo, hi := f[..8], f[8..];
    assert f == lo + hi;
    LeNatConcat(lo, hi);
    Pow256Values();
    Le8(lo);
    Le8(hi);
    assert hi[0] == f[8] && hi[1] == f[9] && hi[2] == f[10] && hi[3] == f[11];
  }

  lemma Le8(f: seq<u8>)
    requires |f| == 8
    ensures LeNat(f) == Le32(f[0], f[1], f[2], f[3]) + 0x1_0000_0000 * Le32(f[4], f[5], f[6], f[7])
  {
    hide LeNat, Le32, Pow;
    Le4(f[..4]);
    Le4(f[4..]);
    assert f == f[..4] + f[4..];
    LeNatConcat(f[..4], f[4..]);
    Pow256Values();
  }

  lemma Le4(b: seq<u8>)
    requires |b| == 4
    ensures LeNat(b) == Le32(b[0], b[1], b[2], b[3])
  {
    assert LeNat(b[3..]) == b[3];
    assert LeNat(b[2..]) == b[2] + 0x100 * LeNat(b[3..]) by { assert b[2..][1..] == b[3..]; }
    assert LeNat(b[1..]) == b[1] + 0x100 * LeNat(b[2..]) by { assert b[1..][1..] == b[2..]; }
  }

  /** A byte shared by two limbs: its low bits end one and its high bits start the next. */
  lemma LimbsOfBytes(f: seq<u8>)
    requires |f| == 16
    ensures Le32(f[0], f[1], f[2], f[3]) % 0x400_0000
      + 0x400_0000 * (Le32(f[3], f[4], f[5], f[6]) / 4 % 0x400_0000)
      + 0x10_0000_0000_0000 * (Le32(f[6], f[7], f[8], f[9]) / 16 % 0x400_0000)
      + 0x4000_0000_0000_0000_0000 * (Le32(f[9], f[10], f[11], f[12]) / 64 % 0x400_0000)
      + 0x100_0000_0000_0000_0000_0000_0000 * Le32(f[13], f[14], f[15], 0) == LeNat(f)
  {
    Le16(f);
    Limb0(f[0], f[1], f[2], f[3]);
    Limb1(f[3], f[4], f[5], f[6]);
    Limb2(f[6], f[7], f[8], f[9]);
    Limb3(f[9], f[10], f[11], f[12]);
  }

  lemma Limb0(b0: u8, b1: u8, b2: u8, b3: u8)
    ensures Le32(b0, b1, b2, b3) % 0x400_0000 == b0 + 0x100 * b1 + 0x1_0000 * b2 + 0x100_0000 * (b3 - 4 * (b3 / 4))
  {
    assert Le32(b0, b1, b2, b3) == 0x400_0000 * (b3 / 4) + (b0 + 0x100 * b1 + 0x1_0000 * b2 + 0x100_0000 * (b3 % 4));
  }

  lemma Limb1(b0: u8, b1: u8, b2: u8, b3: u8)
    ensures Le32(b0, b1, b2, b3) / 4 % 0x400_0000 == b0 / 4 + 0x40 * b1 + 0x4000 * b2 + 0x40_0000 * (b3 - 16 * (b3 / 16))
  {
    assert Le32(b0, b1, b2, b3) / 4 == b0 / 4 + 0x40 * b1 + 0x4000 * b2 + 0x40_0000 * b3;
    assert b3 == 16 * (b3 / 16) + b3 % 16;
  }

  lemma Limb2(b0: u8, b1: u8, b2: u8, b3: u8)
    ensures Le32(b0, b1, b2, b3) / 16 % 0x400_0000 == b0 / 16 + 0x10 * b1 + 0x1000 * b2 + 0x10_0000 * (b3 - 64 * (b3 / 64))
  {
    assert Le32(b0, b1, b2, b3) / 16 == b0 / 16 + 0x10 * b1 + 0x1000 * b2 + 0x10_0000 * b3;
    assert b3 == 64 * (b3 / 64) + b3 % 64;
  }

  lemma Limb3(b0: u8, b1: u8, b2: u8, b3: u8)
    ensures Le32(b0, b1, b2, b3) / 64 % 0x400_0000 == b0 / 64 + 4 * b1 + 0x400 * b2 + 0x4_0000 * b3
  {
    assert Le32(b0, b1, b2, b3) / 64 == b0 / 64 + 4 * b1 + 0x400 * b2 + 0x4_0000 * b3;
  }

  /** The five limbs of a prepared block are the block's value with its terminating one. */
  lemma PreparedBlock(msg: seq<u8>, isLast: bool)
    requires if isLast then |msg| < 16 else |msg| == 16
    ensures var m := PreparePaddedMessageSlice(msg, isLast); Limbs(m) == BlockNat(msg) && Below(m, 0x400_0000)
  {
    var f := msg + [1] + ZeroBytes(16 - |msg|);
    PreparedLimbs(msg, isLast, f);
    if isLast {
      PaddedValue(msg, f);
    } else {
      Pow256Values();
      assert f[..16] == msg;
    }
  }

  lemma PaddedValue(msg: seq<u8>, f: seq<u8>)
    requires |msg| < 16 && f == msg + [1] + ZeroBytes(16 - |msg|)
    ensures LeNat(f[..16]) == BlockNat(msg)
  {
    var pad := [1] + ZeroBytes(15 - |msg|);
    assert f[..16] == msg + pad;
    LeNatConcat(msg, pad);
    assert LeNat(pad) == 1 by {
      assert pad[1..] == ZeroBytes(15 - |msg|);
      LeNatZeros(15 - |msg|);
    }
  }

  lemma PreparedLimbs(msg: seq<u8>, isLast: bool, f: seq<u8>)
    requires |msg| <= 16 && f == msg + [1] + ZeroBytes(16 - |msg|)
    ensures var m := PreparePaddedMessageSlice(msg, isLast);
      Limbs(m) == LeNat(f[..16]) + (if isLast then 0 else 0x1_0000_0000_0000_0000_0000_0000_0000_0000) && Below(m, 0x400_0000)
  {
    PreparedParts(msg, isLast, f);
    LimbsOfBytes(f[..16]);
  }

  lemma PreparedParts(msg: seq<u8>, isLast: bool, f: seq<u8>)
    requires |msg| <= 16 && f == msg + [1] + ZeroBytes(16 - |msg|)
    ensures var m := PreparePaddedMessageSlice(msg, isLast);
      && m[0] == Le32(f[0], f[1], f[2], f[3]) % 0x400_0000
      && m[1] == Le32(f[3], f[4], f[5], f[6]) / 4 % 0x400_0000
      && m[2] == Le32(f[6], f[7], f[8], f[9]) / 16 % 0x400_0000
      && m[3] == Le32(f[9], f[10], f[11], f[12]) / 64 % 0x400_0000
      && m[4] == Le32(f[13], f[14], f[15], 0) + (if isLast then 0 else 0x100_0000) < 0x200_0000
  {
    Mask26(Le32(f[0], f[1], f[2], f[3]));
    Mask26(Le32(f[3], f[4], f[5], f[6]) / 4);
    Mask26(Le32(f[6], f[7], f[8], f[9]) / 16);
    Mask26(Le32(f[9], f[10], f[11], f[12]) / 64);
    PackBound(f[12], f[13], f[14], f[15], if isLast then 0 else 0x100_0000);
  }

  // --- carries ---

  /** Limb k once the carries out of limbs `from` .. k-1 have moved up. */
  function Carried(t: seq<nat>, width: nat, from: nat, k: nat): nat
    requires k < |t| && width > 0
  {
    if k <= from then t[k] else t[k] + Carried(t, width, from, k - 1) / width
  }

  lemma CarriedNext(t: seq<nat>, width: nat, from: nat, k: nat)
    requires k < |t| && width > 0
    ensures Carried(t, width, from, k) == if k <= from then t[k] else t[k] + Carried(t, width, from, k - 1) / width
  {}

  lemma CarriedBound(t: seq<nat>, width: nat, from: nat, k: nat, bound: nat)
    requires k < |t| && width > 1 && Below(t, bound)
    ensures Carried(t, width, from, k) <= 2 * bound
  {
    if k > from { CarriedBound(t, width, from, k - 1, bound); HalfBound(Carried(t, width, from, k - 1), width, bound); }
  }

  lemma HalfBound(c: nat, width: nat, bound: nat)
    requires width > 1 && c <= 2 * bound
    ensures c / width <= bound
  {
    MulMono(c / width, 2, width);
    DivMod(c, width);
  }

  /** The limbs after carrying represent the number they came from. */
  lemma CarryKeepsValue(t: seq<nat>)
    requires |t| == 5
    ensures var c := (k: nat) requires k < 5 => Carried(t, 0x400_0000, 0, k);
      Limbs(t) == Limbs([c(0) % 0x400_0000, c(1) % 0x400_0000, c(2) % 0x400_0000, c(3) % 0x400_0000, c(4)])
  {}

  // --- multiplication ---

  /** Term i of limb j of the product: limbs that wrap past 2^130 come back times 5. */
  function Term(r: seq<nat>, a: seq<nat>, i: nat, j: nat): nat
    requires |r| == |a| == 5 && i < 5 && j < 5
  {
    (if i > j then 5 else 1) * Mul(r[i], a[((5 - i) % 5 + j) % 5])
  }

  function Column(r: seq<nat>, a: seq<nat>, n: nat, j: nat): nat
    requires |r| == |a| == 5 && n <= 5 && j < 5
  {
    if n == 0 then 0 else Column(r, a, n - 1, j) + Term(r, a, n - 1, j)
  }

  lemma ColumnStart(r: seq<nat>, a: seq<nat>)
    requires |r| == |a| == 5
    ensures forall j :: 0 <= j < 5 ==> Column(r, a, 0, j) == 0
  {}

  lemma ColumnNext(r: seq<nat>, a: seq<nat>, i: nat, j: nat)
    requires |r| == |a| == 5 && i < 5 && j < 5
    ensures Column(r, a, i + 1, j) == Column(r, a, i, j) + Term(r, a, i, j)
    ensures Term(r, a, i, j) == (if i > j then 5 else 1) * Mul(r[i], a[((5 - i) % 5 + j) % 5])
  {}

  lemma TermBound(r: seq<nat>, a: seq<nat>, i: nat, j: nat)
    requires |r| == |a| == 5 && i < 5 && j < 5
    requires Below(r, 0x400_0000) && Below(a, 0x800_0040)
    ensures Term(r, a, i, j) <= (if i > j then 5 else 1) * 0x20_0001_0000_0000
  {
    var x, y := r[i], a[((5 - i) % 5 + j) % 5];
    MulMono(x, y, 0x800_0040);
    assert x * 0x800_0040 <= 0x400_0000 * 0x800_0040 == 0x20_0001_0000_0000;
  }

  lemma {:induction false} ColumnBound(r: seq<nat>, a: seq<nat>, n: nat, j: nat)
    requires |r| == |a| == 5 && n <= 5 && j < 5
    requires Below(r, 0x400_0000) && Below(a, 0x800_0040)
    ensures Column(r, a, n, j) <= (n + (if n > j + 1 then 4 * (n - j - 1) else 0)) * 0x20_0001_0000_0000
  {
    if n > 0 {
      ColumnBound(r, a, n - 1, j);
      TermBound(r, a, n - 1, j);
    }
  }

  lemma ColumnsBound(r: seq<nat>, a: seq<nat>, t: seq<nat>)
    requires |r| == |a| == |t| == 5 && forall j :: 0 <= j < 5 ==> t[j] == Column(r, a, 5, j)
    requires Below(r, 0x400_0000) && Below(a, 0x800_0040)
    ensures Below(t, 0x300_0000_0000_0000)
    ensures t[3] <= 9 * 0x20_0001_0000_0000 && t[4] <= 5 * 0x20_0001_0000_0000
  {
    forall j: nat | j < 5 ensures t[j] <= (if j == 4 then 5 else if j == 3 then 9 else 21) * 0x20_0001_0000_0000 {
      ColumnBound(r, a, 5, j);
    }
  }

  /** The product of the two numbers, less a multiple of 2^130 - 5. */
  lemma FieldProduct(r: seq<nat>, a: seq<nat>, t: seq<nat>)
    requires |r| == |a| == |t| == 5 && forall j :: 0 <= j < 5 ==> t[j] == Column(r, a, 5, j)
    ensures Limbs(t) % P == Limbs(r) * Limbs(a) % P
  {
    var x := Products(r, a);
    var q := Wrapped(x);
    assert Limbs(t) + q * P == Limbs(r) * Limbs(a) by {
      Columns(r, a);
      Regroup(x);
      ProductRows(r, a);
    }
    ModAddMultiple(Limbs(t), q, P);
  }

  function Products(r: seq<nat>, a: seq<nat>): (x: seq<seq<nat>>)
    requires |r| == |a| == 5
    ensures |x| == 5 && forall i :: 0 <= i < 5 ==> |x[i]| == 5
  {
    seq(5, i requires 0 <= i < 5 => seq(5, k requires 0 <= k < 5 => Mul(r[i], a[k])))
  }

  ghost predicate Square(x: seq<seq<nat>>) {
    |x| == 5 && forall i :: 0 <= i < 5 ==> |x[i]| == 5
  }

  /** The part of the schoolbook product at 2^130 and above, divided by 2^130. */
  ghost function Wrapped(x: seq<seq<nat>>): nat
    requires Square(x)
  {
    (x[1][4] + x[2][3] + x[3][2] + x[4][1]) + 0x400_0000 * (x[2][4] + x[3][3] + x[4][2])
      + 0x10_0000_0000_0000 * (x[3][4] + x[4][3]) + 0x4000_0000_0000_0000_0000 * x[4][4]
  }

  ghost function Folded(x: seq<seq<nat>>): seq<nat>
    requires Square(x)
  {
    [x[0][0] + 5 * (x[1][4] + x[2][3] + x[3][2] + x[4][1]),
     x[0][1] + x[1][0] + 5 * (x[2][4] + x[3][3] + x[4][2]),
     x[0][2] + x[1][1] + x[2][0] + 5 * (x[3][4] + x[4][3]),
     x[0][3] + x[1][2] + x[2][1] + x[3][0] + 5 * x[4][4],
     x[0][4] + x[1][3] + x[2][2] + x[3][1] + x[4][0]]
  }

  lemma Regroup(x: seq<seq<nat>>)
    requires Square(x)
    ensures Limbs(Folded(x)) + Wrapped(x) * P == Limbs([Limbs(x[0]), Limbs(x[1]), Limbs(x[2]), Limbs(x[3]), Limbs(x[4])])
  {}

  lemma Row(x: nat, a: seq<nat>)
    requires |a| == 5
    ensures x * Limbs(a) == Limbs([Mul(x, a[0]), Mul(x, a[1]), Mul(x, a[2]), Mul(x, a[3]), Mul(x, a[4])])
  {}

  lemma ProductRows(r: seq<nat>, a: seq<nat>)
    requires |r| == |a| == 5
    ensures var x := Products(r, a);
      Limbs(r) * Limbs(a) == Limbs([Limbs(x[0]), Limbs(x[1]), Limbs(x[2]), Limbs(x[3]), Limbs(x[4])])
  {
    var x, l := Products(r, a), Limbs(a);
    Row(l, r);
    forall i | 0 <= i < 5 ensures Limbs(x[i]) == Mul(l, r[i]) {
      Row(r[i], a);
      assert x[i] == [Mul(r[i], a[0]), Mul(r[i], a[1]), Mul(r[i], a[2]), Mul(r[i], a[3]), Mul(r[i], a[4])];
    }
  }

  lemma Columns(r: seq<nat>, a: seq<nat>)
    requires |r| == |a| == 5
    ensures forall j :: 0 <= j < 5 ==> Column(r, a, 5, j) == Folded(Products(r, a))[j]
  {
    forall j: nat | j < 5 ensures Column(r, a, 5, j) == Folded(Products(r, a))[j] {
      ColumnSum(r, a, j);
      FoldedAt(Products(r, a), j);
    }
  }

  ghost function Entry(x: seq<seq<nat>>, i: nat, j: nat): nat
    requires Square(x) && i < 5 && j < 5
  {
    (if i > j then 5 else 1) * x[i][((5 - i) % 5 + j) % 5]
  }

  lemma FoldedAt(x: seq<seq<nat>>, j: nat)
    requires Square(x) && j < 5
    ensures Folded(x)[j] == Entry(x, 0, j) + Entry(x, 1, j) + Entry(x, 2, j) + Entry(x, 3, j) + Entry(x, 4, j)
  {
    assert j == 0 || j == 1 || j == 2 || j == 3 || j == 4;
  }

  lemma ColumnSum(r: seq<nat>, a: seq<nat>, j: nat)
    requires |r| == |a| == 5 && j < 5
    ensures Column(r, a, 5, j) == Term(r, a, 0, j) + Term(r, a, 1, j) + Term(r, a, 2, j) + Term(r, a, 3, j) + Term(r, a, 4, j)
  {
    assert Column(r, a, 1, j) == Term(r, a, 0, j);
    assert Column(r, a, 2, j) == Column(r, a, 1, j) + Term(r, a, 1, j);
    assert Column(r, a, 3, j) == Column(r, a, 2, j) + Term(r, a, 2, j);
    assert Column(r, a, 4, j) == Column(r, a, 3, j) + Term(r, a, 3, j);
  }
}
