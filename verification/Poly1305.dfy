/** The one-time authenticator as the source keeps it: five 26-bit limbs carried
    lazily, and up to fifteen bytes held back between calls. */
module Poly1305 {
  import opened Words
  import opened Poly1305Spec
  import opened Poly1305Limbs
  import opened Poly1305Final

  /** The masks that clamp r while cutting it into limbs. */
  function ClampLimbs(key: seq<u8>): (r: seq<nat>)
    requires |key| == 32
    ensures |r| == 5
  {
    [And(Le32(key[0], key[1], key[2], key[3]), 0x03ff_ffff),
     And(Le32(key[3], key[4], key[5], key[6]) / 4, 0x03ff_ff03),
     And(Le32(key[6], key[7], key[8], key[9]) / 16, 0x03ff_c0ff),
     And(Le32(key[9], key[10], key[11], key[12]) / 64, 0x03f0_3fff),
     And(Le32(key[12], key[13], key[14], key[15]) / 0x100, 0x000f_ffff)]
  }

  lemma MaskLow(x: nat)
    ensures And(x, 0x03ff_ffff) == x % 0x400_0000 && And(x, 0x000f_ffff) == x % 0x10_0000
  {
    Pow2Values();
    AndOnes(x, 26);
    AndOnes(x, 20);
  }

  lemma MaskR1(x: nat)
    ensures And(x, 0x03ff_ff03) == x % 4 + 0x100 * (x / 0x100 % 0x4_0000)
  {
    Pow2Values();
    AndTwoFields(x, 2, 8, 18);
  }

  lemma MaskR2(x: nat)
    ensures And(x, 0x03ff_c0ff) == x % 0x100 + 0x4000 * (x / 0x4000 % 0x1000)
  {
    Pow2Values();
    AndTwoFields(x, 8, 14, 12);
  }

  lemma MaskR3(x: nat)
    ensures And(x, 0x03f0_3fff) == x % 0x4000 + 0x10_0000 * (x / 0x10_0000 % 0x40)
  {
    Pow2Values();
    AndTwoFields(x, 14, 20, 6);
  }

  /** Masking the limbs clears exactly the bits that clamping the bytes clears. */
  lemma ClampLimbsCorrect(key: seq<u8>)
    requires |key| == 32
    ensures Below(ClampLimbs(key), 0x400_0000) && Limbs(ClampLimbs(key)) == ClampedR(key)
  {
    MaskLow(Le32(key[0], key[1], key[2], key[3]));
    MaskR1(Le32(key[3], key[4], key[5], key[6]) / 4);
    MaskR2(Le32(key[6], key[7], key[8], key[9]) / 16);
    MaskR3(Le32(key[9], key[10], key[11], key[12]) / 64);
    MaskLow(Le32(key[12], key[13], key[14], key[15]) / 0x100);
    ClampCut(ClampLimbs(key), key[..16]);
  }

  // The clamped limbs in terms of the key bytes they are cut from.

  function R0(b0: int, b1: int, b2: int, b3: int): int {
    b0 + 0x100 * b1 + 0x1_0000 * b2 + 0x100_0000 * (b3 - 4 * (b3 / 4))
  }

  function R1(b0: int, b1: int, b2: int, b3: int): int {
    b0 % 16 / 4 + 0x100 * (b1 / 4) + 0x4000 * b2 + 0x40_0000 * (b3 % 16)
  }

  function R2(b0: int, b1: int, b2: int, b3: int): int {
    b0 / 16 + 0x10 * (b1 % 16) + 0x4000 * (b2 / 4) + 0x10_0000 * (b3 % 64)
  }

  function R3(b0: int, b1: int, b2: int, b3: int): int {
    b0 / 64 + 4 * b1 + 0x400 * (b2 % 16) + 0x10_0000 * (b3 / 4)
  }

  function R4(b1: int, b2: int, b3: int): int {
    b1 + 0x100 * b2 + 0x1_0000 * (b3 % 16)
  }

  lemma ClampCut(r: seq<nat>, k: seq<u8>)
    requires |k| == 16 && |r| == 5
    requires r[0] == Le32(k[0], k[1], k[2], k[3]) % 0x400_0000
    requires var x := Le32(k[3], k[4], k[5], k[6]) / 4; r[1] == x % 4 + 0x100 * (x / 0x100 % 0x4_0000)
    requires var x := Le32(k[6], k[7], k[8], k[9]) / 16; r[2] == x % 0x100 + 0x4000 * (x / 0x4000 % 0x1000)
    requires var x := Le32(k[9], k[10], k[11], k[12]) / 64; r[3] == x % 0x4000 + 0x10_0000 * (x / 0x10_0000 % 0x40)
    requires r[4] == Le32(k[12], k[13], k[14], k[15]) / 0x100 % 0x10_0000
    ensures Below(r, 0x400_0000) && Limbs(r) == LeNat(Clamp(k))
  {
    Limb0(k[0], k[1], k[2], k[3]);
    ClampLimb1(k[3], k[4], k[5], k[6]);
    ClampLimb2(k[6], k[7], k[8], k[9]);
    ClampLimb3(k[9], k[10], k[11], k[12]);
    ClampLimb4(k[12], k[13], k[14], k[15]);
    ClampJoin(r, k);
  }

  lemma ClampJoin(r: seq<nat>, k: seq<u8>)
    requires |k| == 16 && |r| == 5
    requires r[0] == R0(k[0], k[1], k[2], k[3])
    requires r[1] == R1(k[3], k[4], k[5], k[6])
    requires r[2] == R2(k[6], k[7], k[8], k[9])
    requires r[3] == R3(k[9], k[10], k[11], k[12])
    requires r[4] == R4(k[13], k[14], k[15])
    ensures Below(r, 0x400_0000) && Limbs(r) == LeNat(Clamp(k))
  {
    LimbBounds(r, k);
    LimbSum(r, k[3] - 4 * (k[3] / 4), k[3] % 16 / 4, k[6] % 16, k[6] / 16, k[9] % 64, k[9] / 64,
      [k[0], k[1], k[2], k[4] / 4, k[5], k[7] % 16, k[8] / 4, k[10], k[11] % 16, k[12] / 4, k[13], k[14], k[15] % 16]);
    ClampedValue(k);
  }

  lemma LimbBounds(r: seq<nat>, k: seq<u8>)
    requires |k| == 16 && |r| == 5
    requires r[0] == R0(k[0], k[1], k[2], k[3])
    requires r[1] == R1(k[3], k[4], k[5], k[6])
    requires r[2] == R2(k[6], k[7], k[8], k[9])
    requires r[3] == R3(k[9], k[10], k[11], k[12])
    requires r[4] == R4(k[13], k[14], k[15])
    ensures Below(r, 0x400_0000)
  {
    assert r[0] < 0x400_0000 && r[1] < 0x400_0000 && r[2] < 0x400_0000 && r[3] < 0x400_0000 && r[4] < 0x400_0000;
  }

  lemma ClampedValue(k: seq<u8>)
    requires |k| == 16
    ensures LeNat(Clamp(k)) == Le32(k[0], k[1], k[2], k[3] - 4 * (k[3] / 4) + 4 * (k[3] % 16 / 4))
      + 0x1_0000_0000 * Le32(4 * (k[4] / 4), k[5], k[6] % 16 + 16 * (k[6] / 16), k[7] % 16)
      + 0x1_0000_0000_0000_0000 * Le32(4 * (k[8] / 4), k[9] % 64 + 64 * (k[9] / 64), k[10], k[11] % 16)
      + 0x1_0000_0000_0000_0000_0000_0000 * Le32(4 * (k[12] / 4), k[13], k[14], k[15] % 16)
  {
    var c := Clamp(k);
    Le16(c);
    Nibbles(k[3]);
    Nibbles(k[6]);
    Nibbles(k[9]);
    assert c[4] == 4 * (k[4] / 4) && c[8] == 4 * (k[8] / 4) && c[12] == 4 * (k[12] / 4);
  }

  /** The bytes cut between two limbs are given by their two parts, the others by b. */
  lemma LimbSum(r: seq<nat>, l3: int, h3: int, l6: int, h6: int, l9: int, h9: int, b: seq<int>)
    requires |r| == 5 && |b| == 13
    requires r[0] == b[0] + 0x100 * b[1] + 0x1_0000 * b[2] + 0x100_0000 * l3
    requires r[1] == h3 + 0x100 * b[3] + 0x4000 * b[4] + 0x40_0000 * l6
    requires r[2] == h6 + 0x10 * b[5] + 0x4000 * b[6] + 0x10_0000 * l9
    requires r[3] == h9 + 4 * b[7] + 0x400 * b[8] + 0x10_0000 * b[9]
    requires r[4] == b[10] + 0x100 * b[11] + 0x1_0000 * b[12]
    ensures Limbs(r) == (b[0] + 0x100 * b[1] + 0x1_0000 * b[2] + 0x100_0000 * (l3 + 4 * h3))
      + 0x1_0000_0000 * (4 * b[3] + 0x100 * b[4] + 0x1_0000 * (l6 + 16 * h6) + 0x100_0000 * b[5])
      + 0x1_0000_0000_0000_0000 * (4 * b[6] + 0x100 * (l9 + 64 * h9) + 0x1_0000 * b[7] + 0x100_0000 * b[8])
      + 0x1_0000_0000_0000_0000_0000_0000 * (4 * b[9] + 0x100 * b[10] + 0x1_0000 * b[11] + 0x100_0000 * b[12])
  {}

  lemma Nibbles(b: u8)
    ensures b % 16 == 4 * (b % 16 / 4) + (b - 4 * (b / 4))
    ensures b == 16 * (b / 16) + b % 16 && b == 64 * (b / 64) + b % 64
    ensures b % 16 / 4 == b / 4 % 4
  {}

  lemma ClampLimb1(b0: u8, b1: u8, b2: u8, b3: u8)
    ensures var x := Le32(b0, b1, b2, b3) / 4; x % 4 + 0x100 * (x / 0x100 % 0x4_0000) == R1(b0, b1, b2, b3)
  {
    Nibbles(b0);
    Fields1(Le32(b0, b1, b2, b3) / 4, b0 / 4, b1, b2, b3);
  }

  lemma Fields1(x: nat, c: nat, b1: nat, b2: nat, b3: nat)
    requires b1 < 0x100 && b2 < 0x100 && b3 < 0x100
    requires c < 0x40 && x == c + 0x40 * b1 + 0x4000 * b2 + 0x40_0000 * b3
    ensures x % 4 == c % 4 && x / 0x100 % 0x4_0000 == b1 / 4 + 0x40 * b2 + 0x4000 * (b3 % 16)
  {
    DivModUnique(x, 4, c / 4 + 0x10 * b1 + 0x1000 * b2 + 0x10_0000 * b3, c % 4);
    DivModUnique(x, 0x100, b1 / 4 + 0x40 * b2 + 0x4000 * b3, c + 0x40 * (b1 % 4));
    DivModUnique(x / 0x100, 0x4_0000, b3 / 16, b1 / 4 + 0x40 * b2 + 0x4000 * (b3 % 16));
  }

  lemma ClampLimb2(b0: u8, b1: u8, b2: u8, b3: u8)
    ensures var x := Le32(b0, b1, b2, b3) / 16; x % 0x100 + 0x4000 * (x / 0x4000 % 0x1000) == R2(b0, b1, b2, b3)
  {
    Fields2(Le32(b0, b1, b2, b3) / 16, b0 / 16, b1, b2, b3);
  }

  lemma Fields2(x: nat, c: nat, b1: nat, b2: nat, b3: nat)
    requires b1 < 0x100 && b2 < 0x100 && b3 < 0x100
    requires c < 0x10 && x == c + 0x10 * b1 + 0x1000 * b2 + 0x10_0000 * b3
    ensures x % 0x100 == c + 0x10 * (b1 % 16) && x / 0x4000 % 0x1000 == b2 / 4 + 0x40 * (b3 % 64)
  {
    DivModUnique(x, 0x100, b1 / 16 + 0x10 * b2 + 0x1000 * b3, c + 0x10 * (b1 % 16));
    DivModUnique(x, 0x4000, b2 / 4 + 0x40 * b3, c + 0x10 * b1 + 0x1000 * (b2 % 4));
    DivModUnique(x / 0x4000, 0x1000, b3 / 64, b2 / 4 + 0x40 * (b3 % 64));
  }

  lemma ClampLimb3(b0: u8, b1: u8, b2: u8, b3: u8)
    ensures var x := Le32(b0, b1, b2, b3) / 64; x % 0x4000 + 0x10_0000 * (x / 0x10_0000 % 0x40) == R3(b0, b1, b2, b3)
  {
    Fields3(Le32(b0, b1, b2, b3) / 64, b0 / 64, b1, b2, b3);
  }

  lemma Fields3(x: nat, c: nat, b1: nat, b2: nat, b3: nat)
    requires b1 < 0x100 && b2 < 0x100 && b3 < 0x100
    requires c < 4 && x == c + 4 * b1 + 0x400 * b2 + 0x4_0000 * b3
    ensures x % 0x4000 == c + 4 * b1 + 0x400 * (b2 % 16) && x / 0x10_0000 % 0x40 == b3 / 4
  {
    DivModUnique(x, 0x4000, b2 / 16 + 0x10 * b3, c + 4 * b1 + 0x400 * (b2 % 16));
    DivModUnique(x, 0x10_0000, b3 / 4, c + 4 * b1 + 0x400 * b2 + 0x4_0000 * (b3 % 4));
    DivModUnique(x / 0x10_0000, 0x40, 0, b3 / 4);
  }

  lemma ClampLimb4(b0: u8, b1: u8, b2: u8, b3: u8)
    ensures Le32(b0, b1, b2, b3) / 0x100 % 0x10_0000 == R4(b1, b2, b3)
  {
    assert Le32(b0, b1, b2, b3) / 0x100 == b1 + 0x100 * b2 + 0x1_0000 * b3;
    Nibbles(b3);
  }

  class Poly1305 {
    const key: seq<u8>
    const r: seq<nat>
    const acc: array<u32>
    const leftovers: array<u8>
    var leftoversLen: nat
    /** The whole blocks already folded into the accumulator. */
    ghost var done: seq<u8>

    /** The limbs are reduced and stand for h modulo 2^130 - 5. */
    ghost predicate Holds(h: nat)
      reads acc
    {
      acc.Length == 5 && Reduced(acc[..]) && Limbs(acc[..]) % P == h
    }

    ghost predicate Valid()
      reads this, acc, leftovers
      ensures Valid() ==> leftovers.Length == 16 && leftoversLen < 16
    {
      && |key| == 32 && r == ClampLimbs(key)
      && acc as object != leftovers && leftovers.Length == 16 && leftoversLen < 16
      && |done| % 16 == 0
      && Holds(Accumulate(ClampedR(key), 0, done))
    }

    /** Everything input so far. */
    ghost function Absorbed(): seq<u8>
      reads this, leftovers
      requires leftovers.Length == 16 && leftoversLen < 16
    {
      done + leftovers[..leftoversLen]
    }

    constructor (key: seq<u8>)
      requires |key| == 32
      ensures Valid() && Absorbed() == [] && this.key == key
      ensures fresh(acc) && fresh(leftovers)
    {
      this.key := key;
      r := ClampLimbs(key);
      acc := new u32[5](_ => 0);
      leftovers := new u8[16](_ => 0);
      leftoversLen := 0;
      done := [];
      new;
      assert acc[..] == [0, 0, 0, 0, 0];
      assert leftovers[..0] == [];
    }

    /** Multiplies the accumulator by r modulo 2^130 - 5 and carries once. */
    method RTimesA()
      requires acc.Length == 5 && |r| == 5 && Below(r, 0x400_0000) && Below(acc[..], 0x800_0040)
      modifies acc
      ensures Reduced(acc[..])
      ensures Limbs(acc[..]) % P == Limbs(old(acc[..])) * Limbs(r) % P
    {
      ghost var a := acc[..];
      var t := Multiply();
      ghost var columns: seq<nat> := t[..];
      FieldProduct(r, a, columns);
      ColumnsBound(r, a, columns);
      hide Limbs, Column;
      CarryWide(t);
      MaskWide(t[..], columns);
      assert Limbs(a) * Limbs(r) == Limbs(r) * Limbs(a);
    }

    /** Schoolbook multiplication, one column of products for each limb. */
    method Multiply() returns (t: array<u64>)
      requires acc.Length == 5 && |r| == 5 && Below(r, 0x400_0000) && Below(acc[..], 0x800_0040)
      ensures fresh(t) && t.Length == 5 && forall j :: 0 <= j < 5 ==> t[j] == Column(r, acc[..], 5, j)
    {
      hide Column, Term, Mul;
      ghost var a := acc[..];
      t := new u64[5](_ => 0);
      ColumnStart(r, a);
      for i := 0 to 5
        invariant forall j :: 0 <= j < 5 ==> t[j] == Column(r, a, i, j)
      {
        for j := 0 to 5
          invariant forall k :: 0 <= k < j ==> t[k] == Column(r, a, i + 1, k)
          invariant forall k :: j <= k < 5 ==> t[k] == Column(r, a, i, k)
        {
          TermBound(r, a, i, j);
          ColumnBound(r, a, i + 1, j);
          ColumnNext(r, a, i, j);
          var modulus: u64 := if i > j then 5 else 1;
          var start := (5 - i) % 5;
          var product: u64 := modulus * Mul(r[i], acc[(start + j) % 5]);
          t[j] := t[j] + product;
        }
      }
    }

    method CarryWide(t: array<u64>)
      requires t.Length == 5 && Below(t[..], 0x300_0000_0000_0000)
      modifies t
      ensures forall k :: 0 <= k < 5 ==> t[k] == Carried(old(t[..]), 0x400_0000, 0, k)
    {
      ghost var columns: seq<nat> := t[..];
      for i := 0 to 4
        invariant forall k :: 0 <= k <= i ==> t[k] == Carried(columns, 0x400_0000, 0, k)
        invariant forall k :: i < k < 5 ==> t[k] == columns[k]
      {
        CarriedBound(columns, 0x400_0000, 0, i + 1, 0x300_0000_0000_0000);
        t[i + 1] := t[i + 1] + t[i] / 0x400_0000;
      }
    }

    method MaskWide(t: seq<u64>, ghost columns: seq<nat>)
      requires acc.Length == 5 && |t| == 5 && |columns| == 5
      requires forall k :: 0 <= k < 5 ==> t[k] == Carried(columns, 0x400_0000, 0, k)
      requires Below(columns, 0x300_0000_0000_0000)
      requires columns[3] <= 9 * 0x20_0001_0000_0000 && columns[4] <= 5 * 0x20_0001_0000_0000
      modifies acc
      ensures Reduced(acc[..]) && Limbs(acc[..]) % P == Limbs(columns) % P
    {
      StoreMasked(t);
      ghost var masked: seq<nat> := acc[..];
      TopCarryBound(columns);
      FoldCarry(t[4] / 0x400_0000);
      FoldTopCarry(columns, masked, acc[..]);
    }

    /** Keeps the low 26 bits of each wide limb. */
    method StoreMasked(t: seq<u64>)
      requires acc.Length == 5 && |t| == 5
      modifies acc
      ensures forall k :: 0 <= k < 5 ==> acc[k] == t[k] % 0x400_0000
    {
      for i := 0 to 5
        invariant forall k :: 0 <= k < i ==> acc[k] == t[k] % 0x400_0000
      {
        MaskTruncated(t[i]);
        acc[i] := And(t[i] % 0x1_0000_0000, BITMASK);
      }
    }

    /** Brings the carry out of the top limb back into the bottom one, then carries that once. */
    method FoldCarry(carry: u64)
      requires acc.Length == 5 && Below(acc[..], 0x400_0000) && carry < 0x3000_0000
      modifies acc
      ensures var low := old(acc[0]) + carry * 5;
        acc[..] == old(acc[..])[0 := low % 0x400_0000][1 := old(acc[1]) + low / 0x400_0000]
      ensures Reduced(acc[..])
    {
      hide And, Mul, Limbs;
      acc[0] := acc[0] + carry % 0x1_0000_0000 * 5;
      ghost var low := acc[0];
      acc[1] := acc[1] + acc[0] / 0x400_0000;
      Mask26(low);
      acc[0] := And(acc[0], BITMASK);
      assert acc[0] == low % 0x400_0000 && low / 0x400_0000 < 0x40;
    }

    /** Adds a prepared block to the accumulator and multiplies. */
    method AddBlock(m: seq<u32>, ghost block: seq<u8>, ghost h: nat)
      requires |key| == 32 && r == ClampLimbs(key) && Holds(h)
      requires |m| == 5 && Below(m, 0x400_0000) && Limbs(m) == BlockNat(block)
      modifies acc
      ensures Holds((h + BlockNat(block)) * ClampedR(key) % P)
    {
      ghost var a: seq<nat> := acc[..];
      AddLimbs(m);
      ClampLimbsCorrect(key);
      hide Limbs, ClampLimbs, BlockNat, ClampedR;
      RTimesA();
      SumModP(Limbs(a), BlockNat(block), ClampedR(key));
    }

    method AddLimbs(m: seq<u32>)
      requires acc.Length == 5 && Reduced(acc[..]) && |m| == 5 && Below(m, 0x400_0000)
      modifies acc
      ensures Below(acc[..], 0x800_0040) && Limbs(acc[..]) == Limbs(old(acc[..])) + Limbs(m)
    {
      for i := 0 to 5
        invariant forall k :: 0 <= k < i ==> acc[k] == old(acc[k]) + m[k]
        invariant forall k :: i <= k < 5 ==> acc[k] == old(acc[k])
      {
        acc[i] := acc[i] + m[i];
      }
    }

    /** Absorbs a message; may be called any number of times. */
    method Input(message: seq<u8>)
      requires Valid()
      modifies this, acc, leftovers
      ensures Valid() && Absorbed() == old(Absorbed()) + message
    {
      hide Holds, Accumulate, ClampLimbs, ClampedR, WholeBlocks, Rest;
      var fill := if leftoversLen + |message| >= 16 then 16 - leftoversLen else 0;
      if fill > 0 {
        FillLeftovers(message[..fill]);
      }
      assert Absorbed() + message[fill..] == old(Absorbed()) + message;
      InputAligned(message[fill..]);
    }

    /** The rest of a message: its whole blocks, then what is left of it. */
    method InputAligned(remaining: seq<u8>)
      requires Valid() && (leftoversLen == 0 || leftoversLen + |remaining| < 16)
      modifies this, acc, leftovers
      ensures Valid() && Absorbed() == old(Absorbed()) + remaining
    {
      hide Holds, Accumulate, ClampLimbs, ClampedR, WholeBlocks, Rest;
      SplitBlocks(remaining);
      AddWholeBlocks(remaining);
      SaveLeftovers(Rest(remaining));
      assert old(Absorbed()) + remaining == (old(done) + old(leftovers[..leftoversLen])) + (WholeBlocks(remaining) + Rest(remaining));
    }

    /** Completes the held-back bytes to a block and absorbs it. */
    method FillLeftovers(bytes: seq<u8>)
      requires Valid() && |bytes| == 16 - leftoversLen
      modifies this, acc, leftovers
      ensures Valid() && leftoversLen == 0 && Absorbed() == old(Absorbed()) + bytes
    {
      hide Holds, Accumulate, PreparePaddedMessageSlice, ClampLimbs, ClampedR;
      forall k | 0 <= k < |bytes| { leftovers[leftoversLen + k] := bytes[k]; }
      var block := leftovers[..];
      assert block == old(leftovers[..leftoversLen]) + bytes;
      AbsorbBlock(block);
      leftoversLen := 0;
    }

    /** Absorbs one whole block, leaving the held-back bytes alone. */
    method AbsorbBlock(block: seq<u8>)
      requires Valid() && |block| == 16
      modifies this`done, acc
      ensures Valid() && done == old(done) + block
    {
      hide Holds, Accumulate, Limbs, BlockNat, PreparePaddedMessageSlice, ClampLimbs, ClampedR;
      var m := PreparePaddedMessageSlice(block, false);
      PreparedBlock(block, false);
      AddBlock(m, block, Accumulate(ClampedR(key), 0, done));
      AccumulateBlock(ClampedR(key), done, block);
      done := done + block;
    }

    method AddWholeBlocks(remaining: seq<u8>)
      requires Valid() && (|remaining| >= 16 ==> leftoversLen == 0)
      modifies this`done, acc
      ensures Valid()
      ensures done == old(done) + WholeBlocks(remaining)
      ensures |remaining| < 16 ==> done == old(done)
    {
      hide Holds, Accumulate, ClampLimbs, ClampedR;
      var i := 0;
      while i < |remaining| / 16
        invariant i <= |remaining| / 16
        invariant Valid() && done == old(done) + remaining[..16 * i]
      {
        AbsorbBlock(remaining[i * 16..(i + 1) * 16]);
        assert remaining[..16 * (i + 1)] == remaining[..16 * i] + remaining[i * 16..(i + 1) * 16];
        i := i + 1;
      }
      assert 16 * i == |remaining| - |remaining| % 16;
    }

    /** Holds back what is left after the last whole block. */
    method SaveLeftovers(rest: seq<u8>)
      requires Valid() && leftoversLen + |rest| < 16
      modifies this`leftoversLen, leftovers
      ensures Valid() && Absorbed() == old(Absorbed()) + rest
    {
      hide Holds, Accumulate, ClampLimbs, ClampedR;
      if |rest| > 0 {
        var newLen := leftoversLen + |rest|;
        forall k | 0 <= k < |rest| { leftovers[leftoversLen + k] := rest[k]; }
        assert leftovers[..newLen] == old(leftovers[..leftoversLen]) + rest;
        leftoversLen := newLen;
      }
    }

    /** The tag of everything input. The source passes the authenticator by value, so it is spent. */
    method Tag() returns (tag: array<u8>)
      requires Valid()
      modifies this, acc
      ensures fresh(tag) && tag[..] == Mac(key, old(Absorbed()))
    {
      hide Holds, Accumulate, ClampLimbs, ClampedR, LeNat, LeBytes;
      ghost var msg := Absorbed();
      AddLastBlock();
      AccumulateIsPolynomial(ClampedR(key), 0, msg);
      tag := FinishTag(Accumulate(ClampedR(key), 0, msg));
    }

    method AddLastBlock()
      requires Valid()
      modifies acc
      ensures Holds(Accumulate(ClampedR(key), 0, Absorbed()))
    {
      hide Holds, Accumulate, Limbs, BlockNat, PreparePaddedMessageSlice, ClampLimbs, ClampedR;
      if leftoversLen > 0 {
        var m := PreparePaddedMessageSlice(leftovers[..leftoversLen], true);
        PreparedBlock(leftovers[..leftoversLen], true);
        AddBlock(m, leftovers[..leftoversLen], Accumulate(ClampedR(key), 0, done));
        AccumulateBlock(ClampedR(key), done, leftovers[..leftoversLen]);
      } else {
        assert Absorbed() == done;
      }
    }

    method FinishTag(ghost h: nat) returns (tag: array<u8>)
      requires |key| == 32 && Holds(h) && h < P
      modifies acc
      ensures fresh(tag) && tag[..] == LeBytes(h + LeNat(key[16..]), 16)
    {
      CarryAndMask();
      SubtractP();
      tag := AddKeyHalf();
    }

    /** Moves the carries of limbs 1 to 3 up. */
    method CarryToTop()
      requires acc.Length == 5 && Reduced(acc[..])
      modifies acc
      ensures acc[0] == old(acc[0]) && acc[1] == old(acc[1]) && acc[2] == old(acc[2]) + acc[1] / 0x400_0000
      ensures acc[3] == old(acc[3]) + acc[2] / 0x400_0000 && acc[4] == old(acc[4]) + acc[3] / 0x400_0000
      ensures forall k :: 0 <= k < 5 ==> acc[k] < 0x800_0000
    {
      hide Carried;
      ghost var a: seq<nat> := acc[..];
      CarryFrom(acc, 1, 4);
      LastCarries(a);
    }

    method CarryAndMask()
      requires acc.Length == 5 && Reduced(acc[..])
      modifies acc
      ensures Below(acc[..], 0x400_0000) && Limbs(acc[..]) % P == Limbs(old(acc[..])) % P
    {
      hide Limbs, FullyCarried;
      ghost var a: seq<nat> := acc[..];
      CarryToTop();
      ghost var c: seq<nat> := acc[..];
      acc[0] := acc[0] + acc[4] / 0x400_0000 * 5;
      acc[1] := acc[1] + acc[0] / 0x400_0000;
      ghost var e0, e1 := acc[0], acc[1];
      MaskLimbs(acc, 5);
      FullyCarriedIs(a, c, e0, e1, acc[..]);
      FullyCarriedKeepsValue(a);
    }

    method SubtractP()
      requires acc.Length == 5 && Below(acc[..], 0x400_0000)
      modifies acc
      ensures Below(acc[..], 0x400_0000) && Limbs(acc[..]) == Limbs(old(acc[..])) % P
    {
      ghost var a: seq<nat> := acc[..];
      var t := new u32[5](i requires 0 <= i < 5 reads acc => acc[i]);
      t[0] := t[0] + 5;
      t[4] := WrappingSub32(t[4], 0x400_0000);
      ghost var s: seq<nat> := t[..];
      CarryFrom(t, 0, 3);
      t[4] := WrappingAdd32(t[4], t[3] / 0x400_0000);
      MaskLimbs(t, 4);
      MinusPSteps(a, s, t[..]);
      MinusPCorrect(a);
      hide MinusP, Limbs;
      ChooseByMask(t[..]);
    }

    /** Keeps t where its top limb is not negative, the accumulator otherwise. */
    method ChooseByMask(t: seq<u32>)
      requires acc.Length == 5 && |t| == 5
      modifies acc
      ensures acc[..] == if t[4] < 0x8000_0000 then t else old(acc[..])
    {
      var mask := WrappingSub32(t[4] / 0x8000_0000, 1);
      for i := 0 to 5
        invariant forall k :: 0 <= k < i ==> acc[k] == if mask == 0 then old(acc[k]) else t[k]
        invariant forall k :: i <= k < 5 ==> acc[k] == old(acc[k])
      {
        Select(t[i], acc[i], mask);
        acc[i] := Or(And(t[i], mask), And(acc[i], 0xffff_ffff - mask));
      }
    }

    /** Adds the second half of the key and writes the low 128 bits. */
    method AddKeyHalf() returns (ret: array<u8>)
      requires |key| == 32 && acc.Length == 5 && Below(acc[..], 0x400_0000)
      ensures fresh(ret) && ret[..] == LeBytes(Limbs(acc[..]) + LeNat(key[16..]), 16)
    {
      hide WordBytes, LeBytes, LeNat, PackWords, Limbs, WordsNat, KeyWords;
      var a := PackWords(acc[..]);
      PackWordsCorrect(acc[..]);
      KeyWordsCorrect(key);
      var tag := AddWords(a, KeyWords(key));
      ghost var w := LowWords(Sums(a, KeyWords(key)));
      ret := WriteLowWords(tag);
      LowWordsCorrect(Sums(a, KeyWords(key)));
      WordBytesCorrect(w);
      SumsNat(a, KeyWords(key));
      TagNumber(Limbs(acc[..]), LeNat(key[16..]), WordsNat(a), WordsNat(Sums(a, KeyWords(key))), WordsNat(w));
    }
  }

  lemma FullyCarriedIs(a: seq<nat>, c: seq<nat>, e0: nat, e1: nat, b: seq<nat>)
    requires |a| == |c| == |b| == 5
    requires c[0] == a[0] && c[1] == a[1] && c[2] == a[2] + c[1] / 0x400_0000
    requires c[3] == a[3] + c[2] / 0x400_0000 && c[4] == a[4] + c[3] / 0x400_0000
    requires e0 == c[0] + c[4] / 0x400_0000 * 5 && e1 == c[1] + e0 / 0x400_0000
    requires b[0] == e0 % 0x400_0000 && b[1] == e1 % 0x400_0000 && b[2] == c[2] % 0x400_0000
    requires b[3] == c[3] % 0x400_0000 && b[4] == c[4] % 0x400_0000
    ensures b == FullyCarried(a)
  {}

  lemma LastCarries(a: seq<nat>)
    requires Reduced(a)
    ensures forall k :: 0 <= k <= 1 ==> Carried(a, 0x400_0000, 1, k) == a[k]
    ensures forall k :: 2 <= k < 5 ==>
      Carried(a, 0x400_0000, 1, k) == a[k] + Carried(a, 0x400_0000, 1, k - 1) / 0x400_0000 < 0x800_0000
  {
    hide Carried;
    CarriedNext(a, 0x400_0000, 1, 0);
    CarriedNext(a, 0x400_0000, 1, 1);
    CarriedNext(a, 0x400_0000, 1, 2);
    CarriedNext(a, 0x400_0000, 1, 3);
    CarriedNext(a, 0x400_0000, 1, 4);
  }

  /** Adds the carry out of each limb from `from` to `to` - 1 to the next. */
  method CarryFrom(t: array<u32>, from: nat, to: nat)
    requires from <= to < t.Length
    requires forall k :: from <= k < to ==> t[k] < 0x800_0000
    requires forall k :: from < k <= to ==> t[k] < 0xffff_ff00
    modifies t
    ensures forall k :: 0 <= k <= to ==> t[k] == Carried(old(t[..]), 0x400_0000, from, k)
    ensures forall k :: to < k < t.Length ==> t[k] == old(t[k])
    ensures forall k :: from < k <= to ==> t[k] <= old(t[k]) + 2
  {
    ghost var s: seq<nat> := t[..];
    for i := from to to
      invariant forall k :: 0 <= k <= i ==> t[k] == Carried(s, 0x400_0000, from, k)
      invariant forall k :: i < k < t.Length ==> t[k] == s[k]
      invariant forall k :: from < k <= i ==> t[k] <= s[k] + 2
    {
      t[i + 1] := t[i + 1] + t[i] / 0x400_0000;
    }
  }

  method MaskLimbs(t: array<u32>, n: nat)
    requires n <= t.Length
    modifies t
    ensures forall k :: 0 <= k < n ==> t[k] == old(t[k]) % 0x400_0000
    ensures forall k :: n <= k < t.Length ==> t[k] == old(t[k])
  {
    for i := 0 to n
      invariant forall k :: 0 <= k < i ==> t[k] == old(t[k]) % 0x400_0000
      invariant forall k :: i <= k < t.Length ==> t[k] == old(t[k])
    {
      Mask26(t[i]);
      t[i] := And(t[i], BITMASK);
    }
  }

  function Sums(a: seq<nat>, s: seq<nat>): (t: seq<nat>)
    requires |a| == |s| == 4
    ensures |t| == 4
  {
    [a[0] + s[0], a[1] + s[1], a[2] + s[2], a[3] + s[3]]
  }

  lemma SumsNat(a: seq<nat>, s: seq<nat>)
    requires |a| == |s| == 4
    ensures WordsNat(Sums(a, s)) == WordsNat(a) + WordsNat(s)
  {}

  /** Adds word by word in 64 bits, then moves the carries up. */
  method AddWords(a: seq<nat>, s: seq<nat>) returns (tag: array<u64>)
    requires |a| == |s| == 4 && Below(a, 0x1_0000_0000) && Below(s, 0x1_0000_0000)
    ensures fresh(tag) && tag.Length == 4
    ensures forall k :: 0 <= k < 4 ==> tag[k] == Carried(Sums(a, s), 0x1_0000_0000, 0, k)
  {
    tag := new u64[4](_ => 0);
    for i := 0 to 4
      invariant forall k :: 0 <= k < i ==> tag[k] == a[k] + s[k]
    {
      tag[i] := a[i] + s[i];
    }
    assert tag[..] == Sums(a, s);
    CarryWords(tag);
  }

  method CarryWords(tag: array<u64>)
    requires tag.Length == 4 && Below(tag[..], 0x2_0000_0000)
    modifies tag
    ensures forall k :: 0 <= k < 4 ==> tag[k] == Carried(old(tag[..]), 0x1_0000_0000, 0, k)
  {
    ghost var sum: seq<nat> := tag[..];
    for i := 0 to 3
      invariant forall k :: 0 <= k <= i ==> tag[k] == Carried(sum, 0x1_0000_0000, 0, k)
      invariant forall k :: i < k < 4 ==> tag[k] == sum[k]
      invariant forall k :: 0 <= k < 4 ==> tag[k] < 0x4_0000_0000
    {
      tag[i + 1] := tag[i + 1] + tag[i] / 0x1_0000_0000;
    }
  }

  method PutFour(ret: array<u8>, at: nat, bytes: seq<u8>)
    requires at + 4 <= ret.Length && |bytes| == 4
    modifies ret
    ensures ret[..at + 4] == old(ret[..at]) + bytes
  {
    ghost var before := ret[..at];
    forall k | 0 <= k < 4 { ret[at + k] := bytes[k]; }
    assert ret[..at] == before;
    assert ret[at..at + 4] == bytes;
    assert ret[..at + 4] == ret[..at] + ret[at..at + 4];
  }

  /** The little-endian bytes of the low half of each word. */
  method WriteLowWords(tag: array<u64>) returns (ret: array<u8>)
    requires tag.Length == 4
    ensures fresh(ret)
    ensures ret[..] == WordBytes([tag[0] % 0x1_0000_0000, tag[1] % 0x1_0000_0000, tag[2] % 0x1_0000_0000, tag[3] % 0x1_0000_0000])
  {
    hide WordBytes, LeBytes;
    ghost var w := [tag[0] % 0x1_0000_0000, tag[1] % 0x1_0000_0000, tag[2] % 0x1_0000_0000, tag[3] % 0x1_0000_0000];
    ret := new u8[16](_ => 0);
    for i := 0 to 4
      invariant ret[..4 * i] == WordBytes(w)[..4 * i]
    {
      var bytes := LeBytes(tag[i] % 0x1_0000_0000, 4);
      WordBytesAt(w, i);
      PutFour(ret, 4 * i, bytes);
      assert WordBytes(w)[..4 * i + 4] == WordBytes(w)[..4 * i] + WordBytes(w)[4 * i..4 * i + 4];
    }
    assert ret[..16] == ret[..] && WordBytes(w)[..16] == WordBytes(w);
  }

  lemma TopCarryBound(t: seq<nat>)
    requires |t| == 5 && Below(t, 0x300_0000_0000_0000)
    requires t[3] <= 9 * 0x20_0001_0000_0000 && t[4] <= 5 * 0x20_0001_0000_0000
    ensures Carried(t, 0x400_0000, 0, 4) / 0x400_0000 < 0x3000_0000
  {
    CarriedBound(t, 0x400_0000, 0, 2, 0x300_0000_0000_0000);
  }

  /** The carry out of the top limb comes back into the bottom one times 5. */
  lemma FoldTopCarry(t: seq<nat>, masked: seq<nat>, a: seq<nat>)
    requires |t| == |masked| == |a| == 5
    requires forall k :: 0 <= k < 5 ==> masked[k] == Carried(t, 0x400_0000, 0, k) % 0x400_0000
    requires var low := masked[0] + Carried(t, 0x400_0000, 0, 4) / 0x400_0000 * 5;
      a == [low % 0x400_0000, masked[1] + low / 0x400_0000, masked[2], masked[3], masked[4]]
    ensures Limbs(a) % P == Limbs(t) % P
  {
    hide Limbs, Carried;
    var carry := Carried(t, 0x400_0000, 0, 4) / 0x400_0000;
    FoldSum(masked, a, carry);
    CarryKeepsValue(t);
    var c4 := Carried(t, 0x400_0000, 0, 4);
    TopLimb([masked[0], masked[1], masked[2], masked[3], c4], masked[4]);
    assert masked == [masked[0], masked[1], masked[2], masked[3], masked[4]];
    DivMod(c4, 0x400_0000);
    ModAddMultiple(Limbs(a), carry, P);
  }

  lemma FoldSum(masked: seq<nat>, a: seq<nat>, carry: nat)
    requires |masked| == |a| == 5
    requires var low := masked[0] + carry * 5;
      a == [low % 0x400_0000, masked[1] + low / 0x400_0000, masked[2], masked[3], masked[4]]
    ensures Limbs(a) == Limbs(masked) + 5 * carry
  {
    DivMod(masked[0] + carry * 5, 0x400_0000);
  }

  lemma AccumulateBlock(r: nat, done: seq<u8>, block: seq<u8>)
    requires |done| % 16 == 0 && 0 < |block| <= 16
    ensures Accumulate(r, 0, done + block) == (Accumulate(r, 0, done) + BlockNat(block)) * r % P
  {
    AccumulateConcat(r, 0, done, block);
    assert FirstBlock(block) == block && block[|block|..] == [];
  }

  lemma SumModP(a: nat, b: nat, r: nat)
    ensures (a + b) * r % P == (a % P + b) * r % P
  {
    ModAdd(a, b, P);
    ModMul(a % P + b, r, P);
    ModMul(a + b, r, P);
  }

  function KeyWords(key: seq<u8>): (s: seq<u32>)
    requires |key| == 32
    ensures |s| == 4
  {
    [Le32(key[16], key[17], key[18], key[19]), Le32(key[20], key[21], key[22], key[23]),
     Le32(key[24], key[25], key[26], key[27]), Le32(key[28], key[29], key[30], key[31])]
  }

  lemma KeyWordsCorrect(key: seq<u8>)
    requires |key| == 32
    ensures WordsNat(KeyWords(key)) == LeNat(key[16..])
  {
    Le16(key[16..]);
  }

  lemma WordBytesAt(w: seq<nat>, i: nat)
    requires |w| == 4 && i < 4
    ensures WordBytes(w)[4 * i..4 * i + 4] == LeBytes(w[i], 4)
  {}

  lemma TagNumber(h: nat, s: nat, a: nat, sum: nat, w: nat)
    requires a == h % 0x1_0000_0000_0000_0000_0000_0000_0000_0000 && sum == a + s
    requires w == sum % 0x1_0000_0000_0000_0000_0000_0000_0000_0000
    ensures LeBytes(w, 16) == LeBytes(h + s, 16)
  {
    ModAdd(h, s, 0x1_0000_0000_0000_0000_0000_0000_0000_0000);
    Pow256Values();
    LeBytesMod(h + s, 16);
  }
}
