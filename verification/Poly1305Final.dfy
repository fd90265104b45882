/** The steps that turn the lazily carried accumulator into the tag. */
module Poly1305Final {
  import opened Words
  import opened Poly1305Spec
  import opened Poly1305Limbs

  const TOP: nat := 0x4_0000_0000_0000_0000_0000_0000_0000_0000

  // --- the last carry ---

  /** Carries limbs 1 to 4, folds the top carry back, carries limb 0 and masks everything. */
  function FullyCarried(a: seq<nat>): (b: seq<nat>)
    requires |a| == 5
    ensures |b| == 5
  {
    var c2 := a[2] + a[1] / 0x400_0000;
    var c3 := a[3] + c2 / 0x400_0000;
    var c4 := a[4] + c3 / 0x400_0000;
    var e0 := a[0] + c4 / 0x400_0000 * 5;
    var e1 := a[1] + e0 / 0x400_0000;
    [e0 % 0x400_0000, e1 % 0x400_0000, c2 % 0x400_0000, c3 % 0x400_0000, c4 % 0x400_0000]
  }

  /** Masking every limb at once drops no carry, because only a second limb that
      overflowed by less than 64 can have started one. */
  lemma FullyCarriedKeepsValue(a: seq<nat>)
    requires Reduced(a)
    ensures Below(FullyCarried(a), 0x400_0000)
    ensures Limbs(FullyCarried(a)) % P == Limbs(a) % P
  {
    if a[1] < 0x400_0000 {
      assert FullyCarried(a) == a;
    } else {
      Overflowed(a);
    }
  }

  lemma Overflowed(a: seq<nat>)
    requires Reduced(a) && a[1] >= 0x400_0000
    ensures Limbs(FullyCarried(a)) % P == Limbs(a) % P
  {
    var c2 := a[2] + 1;
    var c3 := a[3] + c2 / 0x400_0000;
    var c4 := a[4] + c3 / 0x400_0000;
    var k := c4 / 0x400_0000;
    var e0 := a[0] + 5 * k;
    var x := a[1] - 0x400_0000;
    assert a[1] / 0x400_0000 == 1;
    assert (a[1] + e0 / 0x400_0000) % 0x400_0000 == x + e0 / 0x400_0000;
    var b := FullyCarried(a);
    assert b == [e0 % 0x400_0000, x + e0 / 0x400_0000, c2 % 0x400_0000, c3 % 0x400_0000, c4 % 0x400_0000];
    CarriedOut(a, b, x, c2, c3, c4, e0, k);
    ModAddMultiple(Limbs(b), k, P);
  }

  lemma CarriedOut(a: seq<nat>, b: seq<nat>, x: nat, c2: nat, c3: nat, c4: nat, e0: nat, k: nat)
    requires |a| == |b| == 5 && a[1] == 0x400_0000 + x && c2 == a[2] + 1
    requires c3 == a[3] + c2 / 0x400_0000 && c4 == a[4] + c3 / 0x400_0000 && k == c4 / 0x400_0000 && e0 == a[0] + 5 * k
    requires b == [e0 % 0x400_0000, x + e0 / 0x400_0000, c2 % 0x400_0000, c3 % 0x400_0000, c4 % 0x400_0000]
    ensures Limbs(a) == Limbs(b) + k * P
  {
    assert b[0] + 0x400_0000 * b[1] == e0 + 0x400_0000 * x;
    assert c2 == 0x400_0000 * (c2 / 0x400_0000) + b[2];
    assert c3 == 0x400_0000 * (c3 / 0x400_0000) + b[3];
    assert c4 == 0x400_0000 * k + b[4];
  }

  // --- the conditional subtraction ---

  /** The accumulator plus 5, less 2^130, with its top limb wrapping below zero. */
  function MinusP(a: seq<nat>): (t: seq<nat>)
    requires |a| == 5
    ensures |t| == 5
  {
    var t0 := a[0] + 5;
    var t1 := a[1] + t0 / 0x400_0000;
    var t2 := a[2] + t1 / 0x400_0000;
    var t3 := a[3] + t2 / 0x400_0000;
    [t0 % 0x400_0000, t1 % 0x400_0000, t2 % 0x400_0000, t3 % 0x400_0000,
     (WrappingSub32(a[4], 0x400_0000) + t3 / 0x400_0000) % 0x1_0000_0000]
  }

  lemma MinusPSteps(a: seq<nat>, s: seq<nat>, t: seq<nat>)
    requires |a| == |s| == |t| == 5 && s == [a[0] + 5, a[1], a[2], a[3], WrappingSub32(a[4], 0x400_0000)]
    requires forall k :: 0 <= k < 4 ==> t[k] == Carried(s, 0x400_0000, 0, k) % 0x400_0000
    requires t[4] == WrappingAdd32(s[4], Carried(s, 0x400_0000, 0, 3) / 0x400_0000)
    ensures t == MinusP(a)
  {
    hide Carried;
    CarriedNext(s, 0x400_0000, 0, 0);
    CarriedNext(s, 0x400_0000, 0, 1);
    CarriedNext(s, 0x400_0000, 0, 2);
    CarriedNext(s, 0x400_0000, 0, 3);
    var m := MinusP(a);
    assert t[0] == m[0] && t[1] == m[1] && t[2] == m[2] && t[3] == m[3] && t[4] == m[4];
  }

  /** The sign bit of the top limb tells whether the accumulator was at least 2^130 - 5. */
  lemma MinusPCorrect(a: seq<nat>)
    requires |a| == 5 && Below(a, 0x400_0000)
    ensures var t := MinusP(a);
      if t[4] < 0x8000_0000 then Below(t, 0x400_0000) && Limbs(t) == Limbs(a) % P
      else Limbs(a) == Limbs(a) % P
    ensures MinusP(a)[4] < 0x1_0000_0000
  {
    var t := MinusP(a);
    var t0 := a[0] + 5;
    var t1 := a[1] + t0 / 0x400_0000;
    var t2 := a[2] + t1 / 0x400_0000;
    var t3 := a[3] + t2 / 0x400_0000;
    var top := a[4] + t3 / 0x400_0000;
    assert t3 / 0x400_0000 <= 1;
    assert WrappingSub32(a[4], 0x400_0000) == a[4] + 0xfc00_0000;
    SubtractValue(a, t, top, t0, t1, t2, t3);
  }

  lemma SubtractValue(a: seq<nat>, t: seq<nat>, top: nat, t0: nat, t1: nat, t2: nat, t3: nat)
    requires |a| == |t| == 5 && Below(a, 0x400_0000)
    requires t0 == a[0] + 5 && t1 == a[1] + t0 / 0x400_0000 && t2 == a[2] + t1 / 0x400_0000 && t3 == a[3] + t2 / 0x400_0000
    requires top == a[4] + t3 / 0x400_0000 <= 0x400_0000
    requires t == [t0 % 0x400_0000, t1 % 0x400_0000, t2 % 0x400_0000, t3 % 0x400_0000, (0xfc00_0000 + top) % 0x1_0000_0000]
    ensures if t[4] < 0x8000_0000 then Below(t, 0x400_0000) && Limbs(t) == Limbs(a) % P
      else Limbs(a) == Limbs(a) % P
  {
    hide Limbs;
    SumWithFive(a, top, t0, t1, t2, t3);
    TopLimb(t, top);
    BelowTop(a);
    if top == 0x400_0000 {
      assert t[4] == 0;
      assert Limbs(t) == Limbs(a) - P;
    } else {
      assert t[4] == 0xfc00_0000 + top;
    }
  }

  lemma SumWithFive(a: seq<nat>, top: nat, t0: nat, t1: nat, t2: nat, t3: nat)
    requires |a| == 5 && t0 == a[0] + 5 && t1 == a[1] + t0 / 0x400_0000
    requires t2 == a[2] + t1 / 0x400_0000 && t3 == a[3] + t2 / 0x400_0000 && top == a[4] + t3 / 0x400_0000
    ensures Limbs([t0 % 0x400_0000, t1 % 0x400_0000, t2 % 0x400_0000, t3 % 0x400_0000, top]) == Limbs(a) + 5
  {
    DivMod(t0, 0x400_0000);
    DivMod(t1, 0x400_0000);
    DivMod(t2, 0x400_0000);
    DivMod(t3, 0x400_0000);
  }

  lemma TopLimb(t: seq<nat>, top: nat)
    requires |t| == 5
    ensures Limbs(t) == Limbs([t[0], t[1], t[2], t[3], top]) + 0x100_0000_0000_0000_0000_0000_0000 * (t[4] - top)
    ensures Below([t[0], t[1], t[2], t[3]], 0x400_0000) && top < 0x400_0000 ==>
      Limbs([t[0], t[1], t[2], t[3], top]) < TOP
  {
    var u := [t[0], t[1], t[2], t[3]];
    assert u[0] == t[0] && u[1] == t[1] && u[2] == t[2] && u[3] == t[3];
  }

  lemma BelowTop(a: seq<nat>)
    requires |a| == 5 && Below(a, 0x400_0000)
    ensures Limbs(a) < TOP
  {}

  /** Choosing between two words with a mask of all ones or all zeros. */
  lemma Select(x: u32, y: u32, mask: u32)
    requires mask == 0 || mask == 0xffff_ffff
    ensures Or(And(x, mask), And(y, 0xffff_ffff - mask)) == if mask == 0 then y else x
  {
    AllOnes(x);
    AllOnes(y);
    if mask == 0 {
      assert And(x, mask) == 0;
    } else {
      assert And(y, 0) == 0;
    }
  }

  lemma AllOnes(x: u32)
    ensures And(x, 0xffff_ffff) == x
  {
    hide And, Pow2;
    Pow2Values();
    AndOnes(x, 32);
  }

  // --- repacking and the second half of the key ---

  function PackWords(a: seq<nat>): (w: seq<nat>)
    requires |a| == 5
    ensures |w| == 4
  {
    [Or(a[0], a[1] * 0x400_0000 % 0x1_0000_0000),
     Or(a[1] / 0x40, a[2] * 0x10_0000 % 0x1_0000_0000),
     Or(a[2] / 0x1000, a[3] * 0x4000 % 0x1_0000_0000),
     Or(a[3] / 0x4_0000, a[4] * 0x100 % 0x1_0000_0000)]
  }

  function WordsNat(w: seq<nat>): nat
    requires |w| == 4
  {
    w[0] + 0x1_0000_0000 * w[1] + 0x1_0000_0000_0000_0000 * w[2] + 0x1_0000_0000_0000_0000_0000_0000 * w[3]
  }

  lemma JoinFields(low: nat, high: nat, k: nat, room: nat)
    requires low < Pow2(k) && room > 0 && Pow2(k) * room == 0x1_0000_0000
    ensures Or(low, high * Pow2(k) % 0x1_0000_0000) == low + Pow2(k) * (high % room) < 0x1_0000_0000
  {
    ShiftTruncated(high, Pow2(k), room);
    OrFields(low, high % room, k);
    MulUnder(Pow2(k), high % room, room);
  }

  /** The four words are the accumulator modulo 2^128. */
  lemma PackWordsCorrect(a: seq<nat>)
    requires |a| == 5 && Below(a, 0x400_0000)
    ensures Below(PackWords(a), 0x1_0000_0000)
    ensures WordsNat(PackWords(a)) == Limbs(a) % 0x1_0000_0000_0000_0000_0000_0000_0000_0000
  {
    hide Pow2, Or, Limbs, WordsNat;
    Pow2Values();
    JoinFields(a[0], a[1], 26, 0x40);
    JoinFields(a[1] / 0x40, a[2], 20, 0x1000);
    JoinFields(a[2] / 0x1000, a[3], 14, 0x4_0000);
    JoinFields(a[3] / 0x4_0000, a[4], 8, 0x100_0000);
    PackedSum(a, PackWords(a));
  }

  lemma PackedSum(a: seq<nat>, w: seq<nat>)
    requires |a| == 5 && Below(a, 0x400_0000) && |w| == 4
    requires w[0] == a[0] + 0x400_0000 * (a[1] % 0x40) && w[1] == a[1] / 0x40 + 0x10_0000 * (a[2] % 0x1000)
    requires w[2] == a[2] / 0x1000 + 0x4000 * (a[3] % 0x4_0000) && w[3] == a[3] / 0x4_0000 + 0x100 * (a[4] % 0x100_0000)
    requires Below(w, 0x1_0000_0000)
    ensures WordsNat(w) == Limbs(a) % 0x1_0000_0000_0000_0000_0000_0000_0000_0000
  {
    assert a[1] == 0x40 * (a[1] / 0x40) + a[1] % 0x40;
    assert a[2] == 0x1000 * (a[2] / 0x1000) + a[2] % 0x1000;
    assert a[3] == 0x4_0000 * (a[3] / 0x4_0000) + a[3] % 0x4_0000;
    assert a[4] == 0x100_0000 * (a[4] / 0x100_0000) + a[4] % 0x100_0000;
    var m := 0x1_0000_0000_0000_0000_0000_0000_0000_0000;
    assert Limbs(a) == (a[4] / 0x100_0000) * m + WordsNat(w);
    DivModUnique(Limbs(a), m, a[4] / 0x100_0000, WordsNat(w));
  }

  /** Low words of a four-word sum after its carries. */
  function LowWords(t: seq<nat>): (w: seq<u32>)
    requires |t| == 4
    ensures |w| == 4
  {
    [t[0] % 0x1_0000_0000, Carried(t, 0x1_0000_0000, 0, 1) % 0x1_0000_0000,
     Carried(t, 0x1_0000_0000, 0, 2) % 0x1_0000_0000, Carried(t, 0x1_0000_0000, 0, 3) % 0x1_0000_0000]
  }

  lemma LowWordsCorrect(t: seq<nat>)
    requires |t| == 4
    ensures WordsNat(LowWords(t)) == WordsNat(t) % 0x1_0000_0000_0000_0000_0000_0000_0000_0000
  {
    var c1 := Carried(t, 0x1_0000_0000, 0, 1);
    var c2 := Carried(t, 0x1_0000_0000, 0, 2);
    var c3 := Carried(t, 0x1_0000_0000, 0, 3);
    hide Carried;
    CarriedNext(t, 0x1_0000_0000, 0, 0);
    CarriedNext(t, 0x1_0000_0000, 0, 1);
    CarriedNext(t, 0x1_0000_0000, 0, 2);
    CarriedNext(t, 0x1_0000_0000, 0, 3);
    var m := 0x1_0000_0000_0000_0000_0000_0000_0000_0000;
    assert WordsNat(t) == c3 / 0x1_0000_0000 * m + WordsNat(LowWords(t));
    DivModUnique(WordsNat(t), m, c3 / 0x1_0000_0000, WordsNat(LowWords(t)));
  }

  function WordBytes(w: seq<nat>): (b: seq<u8>)
    requires |w| == 4
    ensures |b| == 16
  {
    LeBytes(w[0], 4) + LeBytes(w[1], 4) + LeBytes(w[2], 4) + LeBytes(w[3], 4)
  }

  /** Writing four words in turn writes their number. */
  lemma WordBytesCorrect(w: seq<nat>)
    requires |w| == 4 && Below(w, 0x1_0000_0000)
    ensures WordBytes(w) == LeBytes(WordsNat(w), 16)
  {
    var lo := LeBytes(w[0], 4) + LeBytes(w[1], 4);
    var hi := LeBytes(w[2], 4) + LeBytes(w[3], 4);
    TwoWords(w[0], w[1]);
    TwoWords(w[2], w[3]);
    LeNatConcat(lo, hi);
    Pow256Values();
    assert WordBytes(w) == lo + hi;
    LeBytesOfNat(WordBytes(w));
  }

  lemma TwoWords(a: u32, b: u32)
    ensures LeNat(LeBytes(a, 4) + LeBytes(b, 4)) == a + 0x1_0000_0000 * b
  {
    hide LeNat, LeBytes, Pow;
    var x, y := LeBytes(a, 4), LeBytes(b, 4);
    assert LeNat(x) == a by { LeNatOfBytes(a, 4); Pow256Values(); }
    assert LeNat(y) == b by { LeNatOfBytes(b, 4); Pow256Values(); }
    LeNatConcat(x, y);
    Pow256Values();
  }
}
