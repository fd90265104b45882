/** Golomb-Rice codes: the quotient by 2^p in unary, the remainder in p bits. */
module GolombRice {
  import opened Words
  import opened Wrappers
  import opened Bits
  import opened BitStream

  function Code(n: nat, p: nat): (b: seq<bool>) {
    Ones(Shr(n, p)) + [false] + Low(n, p)
  }

  function LeadingOnes(b: seq<bool>): (k: nat)
    ensures k <= |b|
  {
    if b == [] || !b[0] then 0 else 1 + LeadingOnes(b[1..])
  }

  /** What the front of a bit string decodes to, and what is left of it. */
  function DecodeBits(b: seq<bool>, p: nat): Option<(nat, seq<bool>)> {
    var k := LeadingOnes(b);
    if |b| < k + 1 + p then None
    else Some((k * Pow2(p) % 0x1_0000_0000_0000_0000 + Num(b[k + 1..k + 1 + p]), b[k + 1 + p..]))
  }

  lemma {:induction false} LeadingOnesOf(k: nat, rest: seq<bool>)
    ensures LeadingOnes(Ones(k) + [false] + rest) == k
  {
    if k > 0 {
      LeadingOnesOf(k - 1, rest);
      assert (Ones(k) + [false] + rest)[1..] == Ones(k - 1) + [false] + rest;
    }
  }

  /** A coded number at the front of a stream decodes to itself and leaves the rest. */
  lemma DecodeCode(n: u64, p: nat, rest: seq<bool>)
    requires p <= 63
    ensures DecodeBits(Code(n, p) + rest, p) == Some((n, rest))
  {
    hide Low, LeadingOnes, Num;
    var k, low := Shr(n, p), Low(n, p);
    var b := Code(n, p) + rest;
    assert b == Ones(k) + [false] + (low + rest);
    LeadingOnesOf(k, low + rest);
    assert b[k + 1..k + 1 + p] == low && b[k + 1 + p..] == rest;
    NumLow(n, p);
    Recombine(n, Pow2(p));
  }

  lemma Recombine(n: u64, d: nat)
    requires d > 0
    ensures n / d * d % 0x1_0000_0000_0000_0000 + n % d == n
  {
    DivMod(n, d);
    assert 0 <= n / d * d <= n by { DivMono(0, n, d); MulMono(d, 0, n / d); }
  }

  /** The quotient's bits shifted back leave room for the remainder. */
  lemma DecodedFits(k: nat, p: nat, r: nat)
    requires p <= 63 && r < Pow2(p)
    ensures k * Pow2(p) % 0x1_0000_0000_0000_0000 + r < 0x1_0000_0000_0000_0000
  {
    Pow2Add(p, 64 - p);
    Pow2Values();
    ShiftTruncated(k, Pow2(p), Pow2(64 - p));
    MulUnder(Pow2(p), k % Pow2(64 - p), Pow2(64 - p));
  }

  lemma AllOnes(n: nat)
    requires n <= 64
    ensures Low(0xffff_ffff_ffff_ffff, n) == Ones(n)
  {
    var x := 0xffff_ffff_ffff_ffff;
    assert Low(x, 64) == Ones(64) by { LowOnes(64); Pow2Values(); }
    hide Low;
    LowSplit(x, 64 - n, n);
    assert Low(x, n) == Low(x, 64)[64 - n..];
  }

  lemma QuotientFits(n: nat, p: nat)
    ensures Shr(n, p) <= n
  {
    Pow2IsPow(p);
    DivMod(n, Pow2(p));
    MulMono(Shr(n, p), 1, Pow2(p));
  }

  method Encode(writer: BitStreamWriter, n: u64, p: u8) returns (wrote: nat)
    requires writer.Valid() && writer.offset < 8 && p <= 63
    modifies writer
    ensures writer.Valid() && writer.offset < 8 && old(writer.out) <= writer.out
    ensures writer.Written() == old(writer.Written()) + Code(n, p)
    ensures wrote == |writer.out| - |old(writer.out)|
  {
    hide Low;
    QuotientFits(n, p);
    wrote := WriteOnes(writer, Shr(n, p));
    assert Low(0, 1) == [false] by { LowZero(1); }
    var w := writer.Write(0, 1);
    wrote := wrote + w.value;
    w := writer.Write(n, p);
    wrote := wrote + w.value;
  }

  /** The unary part, at most 64 bits at a time. */
  method WriteOnes(writer: BitStreamWriter, count: u64) returns (wrote: nat)
    requires writer.Valid() && writer.offset < 8
    modifies writer
    ensures writer.Valid() && writer.offset < 8 && old(writer.out) <= writer.out
    ensures writer.Written() == old(writer.Written()) + Ones(count)
    ensures wrote == |writer.out| - |old(writer.out)|
  {
    hide Low;
    wrote := 0;
    var q := count;
    while q > 0
      invariant writer.Valid() && writer.offset < 8 && old(writer.out) <= writer.out
      invariant 0 <= q <= count && writer.Written() == old(writer.Written()) + Ones(count - q)
      invariant wrote == |writer.out| - |old(writer.out)|
    {
      var nbits := Min(q, 64);
      AllOnes(nbits);
      var w := writer.Write(0xffff_ffff_ffff_ffff, nbits);
      wrote := wrote + w.value;
      assert Ones(count - q) + Ones(nbits) == Ones(count - (q - nbits));
      q := q - nbits;
    }
  }

  method Decode(reader: BitStreamReader, p: u8) returns (r: Result<u64, IoError>)
    requires reader.Valid() && p <= 63 && |reader.Pending()| < 0x1_0000_0000_0000_0000
    modifies reader
    ensures reader.Valid()
    ensures match DecodeBits(old(reader.Pending()), p)
      case None => r == Err(UnexpectedEof)
      case Some((v, rest)) => r == Ok(v) && reader.Pending() == rest
  {
    hide Num, Pow2, Low, LeadingOnes;
    ghost var all := reader.Pending();
    var q := ReadOnes(reader);
    if q.Err? {
      return q;
    }
    var low := reader.Read(p);
    if low.Err? {
      return low;
    }
    ghost var tail := all[q.value + 1..];
    assert tail[..p] == all[q.value + 1..q.value + 1 + p] && tail[p..] == all[q.value + 1 + p..];
    NumBound(tail[..p]);
    DecodedFits(q.value, p, low.value);
    r := Ok(q.value * Pow2(p) % 0x1_0000_0000_0000_0000 + low.value);
  }

  /** Counts one bits up to and including the zero that ends them. */
  method ReadOnes(reader: BitStreamReader) returns (r: Result<u64, IoError>)
    requires reader.Valid() && |reader.Pending()| < 0x1_0000_0000_0000_0000
    modifies reader
    ensures reader.Valid()
    ensures var k := LeadingOnes(old(reader.Pending()));
      if k < |old(reader.Pending())| then r == Ok(k) && reader.Pending() == old(reader.Pending())[k + 1..]
      else r == Err(UnexpectedEof)
  {
    hide Num, Low, Bytes;
    ghost var all := reader.Pending();
    var q: u64 := 0;
    var bit := reader.Read(1);
    BitValue(all);
    assert all[0..] == all;
    while bit.Ok? && bit.value == 1
      invariant reader.Valid() && q <= |all|
      invariant LeadingOnes(all) == q + LeadingOnes(all[q..])
      invariant if q == |all| then bit == Err(UnexpectedEof)
        else bit.Ok? && bit.value == (if all[q] then 1 else 0) && reader.Pending() == all[q..][1..]
      decreases |all| - q
    {
      assert all[q..][1..] == all[q + 1..];
      q := q + 1;
      bit := reader.Read(1);
      BitValue(all[q..]);
    }
    if bit.Err? {
      return bit;
    }
    assert all[q..][1..] == all[q + 1..];
    r := Ok(q);
  }

  lemma BitValue(b: seq<bool>)
    ensures b != [] ==> Num(b[..1]) == if b[0] then 1 else 0
  {
    if b != [] { assert b[..1][..0] == []; }
  }

  function Codes(ns: seq<u64>, p: nat): seq<bool> {
    if ns == [] then [] else Code(ns[0], p) + Codes(ns[1..], p)
  }

  function DecodeRun(count: nat, bits: seq<bool>, p: nat): Option<(seq<nat>, seq<bool>)> {
    if count == 0 then Some(([], bits))
    else
      match DecodeBits(bits, p)
      case None => None
      case Some((n, rest)) =>
        match DecodeRun(count - 1, rest, p)
        case None => None
        case Some((ns, left)) => Some(([n] + ns, left))
  }

  /** Any run of coded numbers decodes to itself and leaves what follows. */
  lemma {:induction false} CodesDecode(ns: seq<u64>, p: nat, rest: seq<bool>)
    requires p <= 63
    ensures DecodeRun(|ns|, Codes(ns, p) + rest, p) == Some((ns, rest))
  {
    hide Code, DecodeBits;
    if ns == [] {
      assert Codes(ns, p) + rest == rest;
    } else {
      assert Codes(ns, p) + rest == Code(ns[0], p) + (Codes(ns[1..], p) + rest);
      DecodeCode(ns[0], p, Codes(ns[1..], p) + rest);
      CodesDecode(ns[1..], p, rest);
      assert [ns[0]] + ns[1..] == ns;
    }
  }
}
