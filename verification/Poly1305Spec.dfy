/** Poly1305 as section 2.5 of RFC 8439 defines it: a polynomial over the field of
    integers modulo 2^130 - 5, evaluated at the clamped half of the key. */
module Poly1305Spec {
  import opened Words

  const P: nat := 0x3_ffff_ffff_ffff_ffff_ffff_ffff_ffff_fffb

  /** A block is its little-endian value with a one byte put after its last byte. */
  function BlockNat(block: seq<u8>): nat {
    LeNat(block) + Pow(0x100, |block|)
  }

  function FirstBlock(msg: seq<u8>): (block: seq<u8>) {
    msg[..Min(16, |msg|)]
  }

  function WholeBlocks(msg: seq<u8>): (b: seq<u8>) { msg[..|msg| - |msg| % 16] }

  function Rest(msg: seq<u8>): (b: seq<u8>)
    ensures |b| < 16
  {
    msg[|msg| - |msg| % 16..]
  }

  lemma SplitBlocks(msg: seq<u8>)
    ensures WholeBlocks(msg) + Rest(msg) == msg
    ensures |msg| < 16 ==> Rest(msg) == msg
  {}

  /** The accumulator after the blocks of `msg`, the last of which may be short. */
  function Accumulate(r: nat, h: nat, msg: seq<u8>): nat
    decreases |msg|
  {
    if msg == [] then h
    else Accumulate(r, (h + BlockNat(FirstBlock(msg))) * r % P, msg[Min(16, |msg|)..])
  }

  /** Clearing of the top four bits of bytes 3, 7, 11 and 15 and of the bottom two
      bits of bytes 4, 8 and 12 (section 2.5.1 of RFC 8439). */
  function Clamp(k: seq<u8>): (r: seq<u8>)
    requires |k| == 16
  {
    [k[0], k[1], k[2], k[3] % 16, k[4] - k[4] % 4, k[5], k[6], k[7] % 16,
     k[8] - k[8] % 4, k[9], k[10], k[11] % 16, k[12] - k[12] % 4, k[13], k[14], k[15] % 16]
  }

  function ClampedR(key: seq<u8>): nat
    requires |key| == 32
  {
    LeNat(Clamp(key[..16]))
  }

  /** The tag of `msg` under a 32-byte one-time key. */
  function Mac(key: seq<u8>, msg: seq<u8>): (tag: seq<u8>)
    requires |key| == 32
    ensures |tag| == 16
  {
    LeBytes(Accumulate(ClampedR(key), 0, msg) + LeNat(key[16..]), 16)
  }

  function BlockCount(n: nat): nat { (n + 15) / 16 }

  /** The polynomial itself: block i of b blocks is the coefficient of r^(b-i). */
  function Polynomial(r: nat, msg: seq<u8>): nat
    decreases |msg|
  {
    if msg == [] then 0
    else Mul(BlockNat(FirstBlock(msg)), Pow(r, BlockCount(|msg|))) + Polynomial(r, msg[Min(16, |msg|)..])
  }

  /** The iterated form of the standard evaluates that polynomial. */
  lemma {:induction false} AccumulateIsPolynomial(r: nat, h: nat, msg: seq<u8>)
    requires h < P
    ensures Accumulate(r, h, msg) == (h * Pow(r, BlockCount(|msg|)) + Polynomial(r, msg)) % P
    decreases |msg|
  {
    hide Accumulate, Polynomial, BlockNat, Pow;
    Unfolded(r, h, msg);
    if msg == [] {
      assert h * Pow(r, 0) == h;
    } else {
      var b, rest := BlockNat(FirstBlock(msg)), msg[Min(16, |msg|)..];
      AccumulateIsPolynomial(r, (h + b) * r % P, rest);
      var n := BlockCount(|rest|);
      assert BlockCount(|msg|) == n + 1;
      assert Pow(r, n + 1) == r * Pow(r, n);
      HornerStep(h, b, r, Pow(r, n), Polynomial(r, rest));
    }
  }

  lemma Unfolded(r: nat, h: nat, msg: seq<u8>)
    ensures Pow(r, 0) == 1
    ensures msg == [] ==> Accumulate(r, h, msg) == h && Polynomial(r, msg) == 0
    ensures msg != [] ==>
      var rest := msg[Min(16, |msg|)..];
      && Accumulate(r, h, msg) == Accumulate(r, (h + BlockNat(FirstBlock(msg))) * r % P, rest)
      && Polynomial(r, msg) == Mul(BlockNat(FirstBlock(msg)), Pow(r, BlockCount(|msg|))) + Polynomial(r, rest)
      && BlockCount(|msg|) == BlockCount(|rest|) + 1
      && Pow(r, BlockCount(|msg|)) == r * Pow(r, BlockCount(|rest|))
  {
    hide BlockNat;
  }

  lemma HornerStep(h: nat, b: nat, r: nat, e: nat, t: nat)
    ensures ((h + b) * r % P * e + t) % P == (h * (r * e) + (b * (r * e) + t)) % P
  {
    var x := (h + b) * r;
    ModMul(x, e, P);
    ModAdd(x % P * e, t, P);
    ModAdd(x * e, t, P);
    assert x * e == h * (r * e) + b * (r * e);
  }

  /** The tag is the polynomial modulo 2^130 - 5, plus the second half of the key, modulo 2^128. */
  lemma MacIsPolynomial(key: seq<u8>, msg: seq<u8>)
    requires |key| == 32
    ensures LeNat(Mac(key, msg)) ==
            (Polynomial(ClampedR(key), msg) % P + LeNat(key[16..])) % 0x1_0000_0000_0000_0000_0000_0000_0000_0000
  {
    AccumulateIsPolynomial(ClampedR(key), 0, msg);
    LeNatOfBytes(Accumulate(ClampedR(key), 0, msg) + LeNat(key[16..]), 16);
    Pow256Values();
  }

  /** Whole blocks can be absorbed ahead of the rest. */
  lemma {:induction false} AccumulateConcat(r: nat, h: nat, a: seq<u8>, b: seq<u8>)
    requires |a| % 16 == 0
    ensures Accumulate(r, h, a + b) == Accumulate(r, Accumulate(r, h, a), b)
    decreases |a|
  {
    if a == [] {
      assert a + b == b;
    } else {
      assert (a + b)[..16] == a[..16] && (a + b)[16..] == a[16..] + b;
      AccumulateConcat(r, (h + BlockNat(FirstBlock(a))) * r % P, a[16..], b);
    }
  }
}
