/** ChaCha20 as sections 2.1 to 2.4 of RFC 8439 define it, on single 32-bit words. */
module ChaCha20Spec {
  import opened Words

  function Add32(a: u32, b: u32): u32 { WrappingAdd32(a, b) }

  function Xor32(a: u32, b: u32): u32 {
    XorFits(a, b);
    Xor(a, b)
  }

  lemma XorFits(a: u32, b: u32)
    ensures Xor(a, b) < 0x1_0000_0000
  {
    Pow2Values();
    XorBound(a, b, 32);
  }

  /** Rotation left by n bits. */
  function RotL(x: u32, n: nat): u32
    requires n <= 32
  {
    RotParts(x, n);
    Mul(x, Pow2(n)) % 0x1_0000_0000 + Shr(x, 32 - n)
  }

  lemma RotParts(x: u32, n: nat)
    requires n <= 32
    ensures Mul(x, Pow2(n)) % 0x1_0000_0000 + Shr(x, 32 - n) < 0x1_0000_0000
  {
    var p, room := Pow2(n), Pow2(32 - n);
    assert p * room == 0x1_0000_0000 && p > 0 && room > 0 by { Pow2Add(n, 32 - n); Pow2Values(); }
    ShiftTruncated(x, p, room);
    MulUnder(p, x % room, room);
    DivMod(x, room);
    if x / room >= p { MulMono(room, p, x / room); }
  }

  /** Rotation is multiplication by a power of two modulo 2^32 - 1. */
  lemma RotLIsMultiplication(x: u32, n: nat)
    requires n <= 32
    ensures (Mul(x, Pow2(n)) - RotL(x, n)) % 0xffff_ffff == 0
  {
    hide Mul, Pow2;
    var q := Mul(x, Pow2(n)) / 0x1_0000_0000;
    assert Shr(x, 32 - n) == q by {
      Pow2Add(n, 32 - n);
      Pow2Values();
      HighPart(x, Pow2(n), Pow2(32 - n));
    }
    DivMod(Mul(x, Pow2(n)), 0x1_0000_0000);
    DivModUnique(q * 0xffff_ffff, 0xffff_ffff, q, 0);
  }

  lemma HighPart(x: nat, p: nat, room: nat)
    requires p > 0 && room > 0 && p * room == 0x1_0000_0000
    ensures Mul(x, p) / 0x1_0000_0000 == x / room
  {
    MulDivCommon(x, p, room);
    assert x * p == p * x;
  }

  datatype Quad = Quad(a: u32, b: u32, c: u32, d: u32)

  /** The quarter round of section 2.1. */
  function Quarter(a: u32, b: u32, c: u32, d: u32): Quad {
    var a1 := Add32(a, b);
    var d1 := RotL(Xor32(d, a1), 16);
    var c1 := Add32(c, d1);
    var b1 := RotL(Xor32(b, c1), 12);
    var a2 := Add32(a1, b1);
    var d2 := RotL(Xor32(d1, a2), 8);
    var c2 := Add32(c1, d2);
    var b2 := RotL(Xor32(b1, c2), 7);
    Quad(a2, b2, c2, d2)
  }

  type Words16 = s: seq<u32> | |s| == 16 witness seq(16, i => 0)

  /** The quarter round on four words of the state. */
  function QuarterRound(s: Words16, i: nat, j: nat, k: nat, l: nat): Words16
    requires i < 16 && j < 16 && k < 16 && l < 16
  {
    var q := Quarter(s[i], s[j], s[k], s[l]);
    s[i := q.a][j := q.b][k := q.c][l := q.d]
  }

  function ColumnRound(s: Words16): Words16 {
    QuarterRound(QuarterRound(QuarterRound(QuarterRound(s, 0, 4, 8, 12), 1, 5, 9, 13), 2, 6, 10, 14), 3, 7, 11, 15)
  }

  function DiagonalRound(s: Words16): Words16 {
    QuarterRound(QuarterRound(QuarterRound(QuarterRound(s, 0, 5, 10, 15), 1, 6, 11, 12), 2, 7, 8, 13), 3, 4, 9, 14)
  }

  function InnerBlocks(s: Words16, n: nat): Words16 {
    if n == 0 then s else DiagonalRound(ColumnRound(InnerBlocks(s, n - 1)))
  }

  /** Constants, eight key words, the block counter and three nonce words (section 2.3). */
  function Initial(key: seq<u8>, nonce: seq<u8>, count: u32): Words16
    requires |key| == 32 && |nonce| == 12
  {
    [0x6170_7865, 0x3320_646e, 0x7962_2d32, 0x6b20_6574]
    + seq(8, i requires 0 <= i < 8 => WordAt(key, i))
    + [count]
    + seq(3, i requires 0 <= i < 3 => WordAt(nonce, i))
  }

  /** The i-th little-endian word. */
  function WordAt(s: seq<u8>, i: nat): u32
    requires 4 * i + 4 <= |s|
  {
    LeNatBound(s[4 * i..4 * i + 4]);
    Pow256Values();
    LeNat(s[4 * i..4 * i + 4])
  }

  lemma WordAtBytes(s: seq<u8>, i: nat)
    requires 4 * i + 4 <= |s|
    ensures WordAt(s, i)
      == FromLe(s[4 * i], s[4 * i + 1], s[4 * i + 2], s[4 * i + 3])
  {
    var w := s[4 * i..4 * i + 4];
    assert w[1..][1..] == w[2..] && w[2..][1..] == w[3..] && w[3..][1..] == [];
    assert LeNat(w[3..]) == w[3];
    assert LeNat(w[2..]) == w[2] + 0x100 * LeNat(w[3..]);
    assert LeNat(w[1..]) == w[1] + 0x100 * LeNat(w[2..]);
  }

  function FromLe(a: int, b: int, c: int, d: int): int { a + 0x100 * b + 0x1_0000 * c + 0x100_0000 * d }

  function Serialize(s: seq<u32>): (b: seq<u8>)
    ensures |b| == 4 * |s|
  {
    if s == [] then [] else Serialize(s[..|s| - 1]) + LeBytes(s[|s| - 1], 4)
  }

  /** The 64 bytes of one block of keystream. */
  function Block(key: seq<u8>, nonce: seq<u8>, count: u32): (b: seq<u8>)
    requires |key| == 32 && |nonce| == 12
    ensures |b| == 64
  {
    var s := Initial(key, nonce, count);
    var w := InnerBlocks(s, 10);
    Serialize(seq(16, i requires 0 <= i < 16 => Add32(w[i], s[i])))
  }

  /** Bytes of keystream that the 32-bit block counter reaches. */
  const STREAM_LENGTH: nat := 0x40_0000_0000

  function StreamByte(key: seq<u8>, nonce: seq<u8>, pos: nat): u8
    requires |key| == 32 && |nonce| == 12 && pos < STREAM_LENGTH
  {
    Block(key, nonce, pos / 64)[pos % 64]
  }

  function Xor8(a: u8, b: u8): u8 {
    Pow2Values();
    XorBound(a, b, 8);
    Xor(a, b)
  }

  /** `data` combined with the keystream from byte `pos` on. */
  function XorStream(key: seq<u8>, nonce: seq<u8>, pos: nat, data: seq<u8>): (r: seq<u8>)
    requires |key| == 32 && |nonce| == 12 && pos + |data| <= STREAM_LENGTH
    ensures |r| == |data|
  {
    hide StreamByte, Xor8;
    seq(|data|, i requires 0 <= i < |data| => Xor8(data[i], StreamByte(key, nonce, pos + i)))
  }

  /** A stream applied in pieces is the stream applied at once. */
  lemma XorStreamConcat(key: seq<u8>, nonce: seq<u8>, pos: nat, a: seq<u8>, b: seq<u8>)
    requires |key| == 32 && |nonce| == 12 && pos + |a| + |b| <= STREAM_LENGTH
    ensures XorStream(key, nonce, pos, a + b) == XorStream(key, nonce, pos, a) + XorStream(key, nonce, pos + |a|, b)
  {
    hide Xor8, StreamByte;
  }

  /** Applying the stream twice gives the data back. */
  lemma XorStreamTwice(key: seq<u8>, nonce: seq<u8>, pos: nat, data: seq<u8>)
    requires |key| == 32 && |nonce| == 12 && pos + |data| <= STREAM_LENGTH
    ensures XorStream(key, nonce, pos, XorStream(key, nonce, pos, data)) == data
  {
    hide StreamByte, Xor8;
    var once := XorStream(key, nonce, pos, data);
    forall i | 0 <= i < |data| ensures Xor8(once[i], StreamByte(key, nonce, pos + i)) == data[i] {
      Xor8Cancel(data[i], StreamByte(key, nonce, pos + i));
    }
    assert forall i :: 0 <= i < |data| ==> XorStream(key, nonce, pos, once)[i] == data[i];
  }

  lemma Xor8Cancel(a: u8, b: u8)
    ensures Xor8(Xor8(a, b), b) == a
  {
    XorCancel(a, b);
  }
}
