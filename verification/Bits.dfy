/** Bit strings, most significant bit first, and the numbers and bytes they stand for. */
module Bits {
  import opened Words

  /** The low n bits of x. */
  function Low(x: nat, n: nat): (b: seq<bool>)
    ensures |b| == n
  {
    if n == 0 then [] else Low(x / 2, n - 1) + [x % 2 == 1]
  }

  function Num(b: seq<bool>): nat {
    if b == [] then 0 else 2 * Num(b[..|b| - 1]) + (if b[|b| - 1] then 1 else 0)
  }

  function Bytes(s: seq<u8>): seq<bool> {
    if s == [] then [] else Bytes(s[..|s| - 1]) + Low(s[|s| - 1], 8)
  }

  function Ones(n: nat): seq<bool> { seq(n, i => true) }

  function Zeros(n: nat): seq<bool> { seq(n, i => false) }

  lemma {:induction false} NumLow(x: nat, n: nat)
    ensures Pow2(n) > 0 && Num(Low(x, n)) == x % Pow2(n)
  {
    Pow2IsPow(n);
    if n > 0 {
      NumLow(x / 2, n - 1);
      assert Low(x, n)[..n - 1] == Low(x / 2, n - 1);
      DivDiv(x, 2, Pow2(n - 1));
    }
  }

  lemma {:induction false} NumBound(b: seq<bool>)
    ensures Num(b) < Pow2(|b|)
  {
    if b != [] { NumBound(b[..|b| - 1]); }
  }

  lemma {:induction false} LowNum(b: seq<bool>)
    ensures Low(Num(b), |b|) == b
  {
    if b != [] {
      LowNum(b[..|b| - 1]);
      assert b == b[..|b| - 1] + [b[|b| - 1]];
    }
  }

  lemma {:induction false} NumConcat(a: seq<bool>, b: seq<bool>)
    ensures Num(a + b) == Num(a) * Pow2(|b|) + Num(b)
  {
    if b == [] {
      assert a + b == a;
    } else {
      var c := b[..|b| - 1];
      NumConcat(a, c);
      assert (a + b)[..|a + b| - 1] == a + c;
      assert Num(a) * Pow2(|b|) == 2 * (Num(a) * Pow2(|c|));
    }
  }

  /** The low m + n bits are the m bits above the lowest n, then those. */
  lemma {:induction false} LowSplit(x: nat, m: nat, n: nat)
    ensures Low(x, m + n) == Low(Shr(x, n), m) + Low(x, n)
  {
    if n > 0 {
      LowSplit(x / 2, m, n - 1);
      ShrShr(x, 1, n - 1);
      assert Low(x, m + n) == Low(x / 2, m + (n - 1)) + [x % 2 == 1];
    }
  }

  lemma ShrShr(x: nat, m: nat, n: nat)
    ensures Shr(Shr(x, m), n) == Shr(x, m + n)
  {
    Pow2Add(m, n);
    DivDiv(x, Pow2(m), Pow2(n));
  }

  lemma {:induction false} LowMod(x: nat, n: nat)
    ensures Pow2(n) > 0 && Low(x % Pow2(n), n) == Low(x, n)
  {
    NumLow(x, n);
    LowNum(Low(x, n));
  }

  lemma {:induction false} LowZero(n: nat)
    ensures Low(0, n) == Zeros(n)
  {
    if n > 0 { LowZero(n - 1); }
  }

  lemma {:induction false} LowOnes(n: nat)
    ensures Pow2(n) > 0 && Low(Pow2(n) - 1, n) == Ones(n)
  {
    Pow2IsPow(n);
    if n > 0 { LowOnes(n - 1); }
  }

  lemma {:induction false} BytesConcat(a: seq<u8>, b: seq<u8>)
    ensures Bytes(a + b) == Bytes(a) + Bytes(b)
  {
    hide Low;
    if b == [] {
      assert a + b == a;
    } else {
      BytesConcat(a, b[..|b| - 1]);
      assert (a + b)[..|a + b| - 1] == a + b[..|b| - 1];
    }
  }

  lemma {:induction false} BytesLength(s: seq<u8>)
    ensures |Bytes(s)| == 8 * |s|
  {
    if s != [] { BytesLength(s[..|s| - 1]); }
  }

  lemma BytesCons(s: seq<u8>)
    requires s != []
    ensures Bytes(s) == Low(s[0], 8) + Bytes(s[1..])
  {
    hide Low;
    assert s == [s[0]] + s[1..];
    BytesConcat([s[0]], s[1..]);
    assert [s[0]][..0] == [];
  }
}
