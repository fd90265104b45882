/** Writing and reading a byte stream bit by bit. */
module BitStream {
  import opened Words
  import opened Wrappers
  import opened Bits

  datatype IoError = TooManyBits | UnexpectedEof

  // --- arithmetic of one step ---

  /** The piece of data a step of `Write` moves into the buffer: the top `bits` of the
      `left` low bits, aligned just below the bits already there. */
  lemma PieceValue(data: nat, left: nat, offset: nat, bits: nat)
    requires offset < 8 && 0 < left <= 64 && bits == Min(8 - offset, left)
    ensures Shr(data * Pow2(64 - left) % 0x1_0000_0000_0000_0000, 56 + offset)
         == Mul(PieceChunk(data, left, bits), Pow2(8 - offset - bits))
  {
    TopAligned(data, left);
    if bits == left {
      LastPiece(data % Pow2(left), left, offset);
      assert Shr(data, 0) == data;
    } else {
      FullPiece(data, left, offset);
      assert Mul(PieceChunk(data, left, bits), 1) == PieceChunk(data, left, bits);
    }
  }

  lemma TopAligned(data: nat, left: nat)
    requires left <= 64
    ensures Pow2(left) > 0
    ensures data * Pow2(64 - left) % 0x1_0000_0000_0000_0000 == Mul(Pow2(64 - left), data % Pow2(left))
  {
    Pow2Add(64 - left, left);
    Pow2Values();
    ShiftTruncated(data, Pow2(64 - left), Pow2(left));
  }

  lemma LastPiece(d: nat, left: nat, offset: nat)
    requires offset < 8 && left <= 8 - offset
    ensures Shr(Mul(Pow2(64 - left), d), 56 + offset) == Mul(d, Pow2(8 - offset - left))
  {
    var a, e := Pow2(56 + offset), Pow2(8 - offset - left);
    Pow2Add(56 + offset, 8 - offset - left);
    MulDivExact(d, a, e);
    assert Mul(Pow2(64 - left), d) == d * (a * e);
  }

  lemma FullPiece(data: nat, left: nat, offset: nat)
    requires offset < 8 && 8 - offset <= left <= 64
    ensures Pow2(left) > 0 && Pow2(56 + offset) > 0 && Pow2(8 - offset) > 0
    ensures Shr(Mul(Pow2(64 - left), data % Pow2(left)), 56 + offset) == Shr(data, left - (8 - offset)) % Pow2(8 - offset)
  {
    var bits := 8 - offset;
    Pow2Add(64 - left, left - bits);
    Pow2Add(left - bits, bits);
    MulDivCommon(data % Pow2(left), Pow2(64 - left), Pow2(left - bits));
    MidField(data, Pow2(left - bits), Pow2(bits));
  }

  ghost function PieceChunk(data: nat, left: nat, bits: nat): (c: nat)
    requires bits <= left
    ensures c < Pow2(bits) && Low(c, bits) == Low(Shr(data, left - bits), bits)
  {
    LowMod(Shr(data, left - bits), bits);
    Shr(data, left - bits) % Pow2(bits)
  }

  lemma MidField(x: nat, q: nat, m: nat)
    requires q > 0 && m > 0
    ensures q * m > 0 && x % (q * m) / q == x / q % m
  {
    DivDiv(x, q, m);
    DivModUnique(x % (q * m), q, x / q % m, x % q);
  }

  /** The bits of a buffer whose lower 8 - offset bits are still free. */
  function Used(buffer: nat, offset: nat): (b: seq<bool>)
    requires offset <= 8
    ensures |b| == offset
  {
    Low(Shr(buffer, 8 - offset), offset)
  }

  ghost predicate FreeBelow(buffer: nat, offset: nat) {
    offset <= 8 && Pow2(8 - offset) > 0 && buffer % Pow2(8 - offset) == 0
  }

  /** Or-ing a piece of `bits` bits into the free part appends them to the used part. */
  lemma AppendPiece(buffer: u8, offset: nat, bits: nat, chunk: nat)
    requires FreeBelow(buffer, offset) && offset + bits <= 8 && chunk < Pow2(bits)
    ensures var b := Or(buffer, Mul(chunk, Pow2(8 - offset - bits)));
      b < 0x100 && FreeBelow(b, offset + bits) && Used(b, offset + bits) == Used(buffer, offset) + Low(chunk, bits)
  {
    hide Pow2, Or, Low, Mul;
    var k, e := 8 - offset, 8 - offset - bits;
    var piece, high := Mul(chunk, Pow2(e)), Shr(buffer, k);
    PieceBelow(chunk, bits, e);
    Pow2Mono(bits + e, k);
    ExactMultiple(buffer, Pow2(k));
    OrFields(piece, high, k);
    var b := buffer + piece;
    var joined := Mul(high, Pow2(bits)) + chunk;
    Joined(buffer, high, piece, chunk, k, bits, e);
    LowSplit(joined, offset, bits);
    LowMod(joined, bits);
    InByte(buffer, piece, offset, k);
  }

  lemma ExactMultiple(x: nat, p: nat)
    requires p > 0 && x % p == 0
    ensures x == p * (x / p)
  {
    DivMod(x, p);
  }

  lemma PieceBelow(chunk: nat, bits: nat, e: nat)
    requires chunk < Pow2(bits)
    ensures Mul(chunk, Pow2(e)) < Pow2(bits + e)
  {
    Pow2Add(bits, e);
    MulUnder(Pow2(e), chunk, Pow2(bits));
  }

  lemma Joined(buffer: nat, high: nat, piece: nat, chunk: nat, k: nat, bits: nat, e: nat)
    requires k == bits + e && buffer == Pow2(k) * high && piece == Mul(chunk, Pow2(e)) && chunk < Pow2(bits)
    ensures Pow2(e) > 0 && (buffer + piece) / Pow2(e) == Mul(high, Pow2(bits)) + chunk && (buffer + piece) % Pow2(e) == 0
    ensures Shr(Mul(high, Pow2(bits)) + chunk, bits) == high && (Mul(high, Pow2(bits)) + chunk) % Pow2(bits) == chunk
  {
    Pow2Add(bits, e);
    var joined := Mul(high, Pow2(bits)) + chunk;
    assert buffer + piece == joined * Pow2(e) by { Regroup(high, Pow2(bits), Pow2(e), chunk); }
    DivModUnique(buffer + piece, Pow2(e), joined, 0);
    DivModUnique(joined, Pow2(bits), high, chunk);
  }

  lemma Regroup(h: int, b: int, e: int, c: int)
    ensures b * e * h + c * e == (h * b + c) * e
  {
    assert b * e * h == h * b * e;
  }

  lemma InByte(buffer: u8, piece: nat, offset: nat, k: nat)
    requires offset + k == 8 && piece < Pow2(k) && buffer % Pow2(k) == 0
    ensures buffer + piece < 0x100
  {
    Pow2Add(k, offset);
    Pow2Values();
    var high := buffer / Pow2(k);
    DivMod(buffer, Pow2(k));
    if high >= Pow2(offset) {
      MulMono(Pow2(k), Pow2(offset), high);
    } else {
      MulUnder(Pow2(k), high, Pow2(offset));
    }
  }

  // --- the writer ---

  class BitStreamWriter {
    var buffer: u8
    var offset: nat
    /** What the underlying writer has received. */
    var out: seq<u8>

    ghost predicate Valid()
      reads this
    {
      FreeBelow(buffer, offset)
    }

    /** All bits written, those in the buffer included. */
    ghost function Written(): seq<bool>
      reads this
      requires Valid()
    {
      Bytes(out) + Used(buffer, offset)
    }

    constructor (out: seq<u8>)
      ensures Valid() && Written() == Bytes(out) && this.out == out && offset == 0
    {
      buffer := 0;
      offset := 0;
      this.out := out;
      new;
      Pow2Values();
    }

    /** Appends the low `nbits` bits of `data`, most significant first. */
    method Write(data: u64, nbits: u8) returns (r: Result<nat, IoError>)
      requires Valid() && offset < 8
      modifies this
      ensures Valid() && offset < 8 && old(out) <= out
      ensures nbits > 64 ==> r == Err(TooManyBits) && Written() == old(Written()) && out == old(out)
      ensures nbits <= 64 ==> r == Ok(|out| - |old(out)|) && Written() == old(Written()) + Low(data, nbits)
    {
      hide FreeBelow, Low, Used, Bytes;
      if nbits > 64 {
        return Err(TooManyBits);
      }
      var wrote := 0;
      var left := nbits;
      while left > 0
        invariant 0 <= left <= nbits && Valid() && offset < 8
        invariant old(out) <= out && wrote == |out| - |old(out)|
        invariant Written() == old(Written()) + Low(Shr(data, left), nbits - left)
      {
        ghost var before := Written();
        var bits := Min(8 - offset, left);
        PutPiece(data, left, bits);
        ghost var k := nbits - left;
        left := left - bits;
        LowSplit(Shr(data, left), k, bits);
        ShrShr(data, left, bits);
        if offset == 8 {
          var n := Flush();
          wrote := wrote + n;
          assert Written() == before + Low(Shr(data, left), bits);
        }
      }
      assert Shr(data, 0) == data;
      r := Ok(wrote);
    }

    /** One step: fills the buffer as far as it or the remaining `left` bits go. */
    method PutPiece(data: u64, left: nat, bits: nat)
      requires Valid() && offset < 8 && 0 < left <= 64 && bits == Min(8 - offset, left)
      modifies this`buffer, this`offset
      ensures Valid() && offset == old(offset) + bits
      ensures Written() == old(Written()) + Low(Shr(data, left - bits), bits)
    {
      hide FreeBelow, Low, Used, Bytes, Or, Pow2, Mul, Shr, PieceChunk;
      ghost var chunk := PieceChunk(data, left, bits);
      PieceValue(data, left, offset, bits);
      AppendPiece(buffer, offset, bits, chunk);
      var piece := Shr(data * Pow2(64 - left) % 0x1_0000_0000_0000_0000, 56 + offset);
      PieceFits(chunk, offset, bits, piece);
      buffer := Or(buffer, piece % 0x100);
      offset := offset + bits;
    }

    /** Writes the buffer, its free bits zero, unless it is empty. */
    method Flush() returns (n: nat)
      requires Valid()
      modifies this
      ensures Valid() && offset == 0 && old(out) <= out && n == |out| - |old(out)|
      ensures Written() == old(Written()) + Zeros(if old(offset) > 0 then 8 - old(offset) else 0)
    {
      hide Low, Pow2, Bytes;
      EmptyBuffer();
      if offset > 0 {
        LowSplit(buffer, offset, 8 - offset);
        LowMod(buffer, 8 - offset);
        LowZero(8 - offset);
        OneMoreByte(out, buffer);
        out := out + [buffer];
        buffer := 0;
        offset := 0;
        n := 1;
      } else {
        n := 0;
      }
    }
  }

  lemma EmptyBuffer()
    ensures FreeBelow(0, 0) && forall b :: Used(b, 0) == []
  {
    Pow2Values();
    hide Pow2;
  }

  lemma OneMoreByte(out: seq<u8>, b: u8)
    ensures Bytes(out + [b]) == Bytes(out) + Low(b, 8)
  {
    hide Low;
    assert (out + [b])[..|out|] == out;
  }

  lemma PieceFits(chunk: nat, offset: nat, bits: nat, piece: nat)
    requires offset + bits <= 8 && chunk < Pow2(bits) && piece == Mul(chunk, Pow2(8 - offset - bits))
    ensures piece < 0x100
  {
    var e := 8 - offset - bits;
    PieceBelow(chunk, bits, e);
    Pow2Mono(bits + e, 8);
    Pow2Values();
  }

  // --- the reader ---

  /** The next `bits` of a byte whose first `offset` bits have been read. */
  ghost function NextChunk(buffer: nat, offset: nat, bits: nat): (c: nat)
    requires offset + bits <= 8
    ensures c < Pow2(bits) && Low(buffer, 8 - offset) == Low(c, bits) + Low(buffer, 8 - offset - bits)
  {
    LowSplit(buffer, bits, 8 - offset - bits);
    LowMod(Shr(buffer, 8 - offset - bits), bits);
    Shr(buffer, 8 - offset - bits) % Pow2(bits)
  }

  lemma ReadPiece(buffer: u8, offset: nat, bits: nat)
    requires offset + bits <= 8
    ensures Shr(buffer * Pow2(offset) % 0x100, 8 - bits) == NextChunk(buffer, offset, bits)
  {
    hide Pow2, Low;
    var e := 8 - offset - bits;
    Pow2Add(offset, 8 - offset);
    Pow2Values();
    ShiftTruncated(buffer, Pow2(offset), Pow2(8 - offset));
    Pow2Add(offset, e);
    Pow2Add(e, bits);
    MulDivCommon(buffer % Pow2(8 - offset), Pow2(offset), Pow2(e));
    MidField(buffer, Pow2(e), Pow2(bits));
  }

  /** Shifting the bits read so far and or-ing in the next ones continues the number. */
  lemma ShiftIn(data: u64, bits: nat, chunk: nat, got: seq<bool>)
    requires data == Num(got) && chunk < Pow2(bits) && |got| + bits <= 64
    ensures var d := Or(data * Pow2(bits) % 0x1_0000_0000_0000_0000, chunk);
      d == Num(got + Low(chunk, bits)) < 0x1_0000_0000_0000_0000
  {
    hide Low, Or, Num;
    var all := got + Low(chunk, bits);
    NumConcat(got, Low(chunk, bits));
    NumSmall(chunk, bits);
    NumBound(all);
    assert Num(all) < 0x1_0000_0000_0000_0000 by {
      Pow2Mono(|got| + bits, 64);
      Pow2Values();
    }
    NoOverflow(data, Pow2(bits), chunk);
    OrFields(chunk, data, bits);
  }

  lemma NumSmall(x: nat, n: nat)
    requires x < Pow2(n)
    ensures Num(Low(x, n)) == x
  {
    NumLow(x, n);
    DivModUnique(x, Pow2(n), 0, x);
  }

  lemma NoOverflow(data: nat, p: nat, chunk: nat)
    requires data * p + chunk < 0x1_0000_0000_0000_0000
    ensures data * p % 0x1_0000_0000_0000_0000 == p * data
  {
    MulMono(p, 0, data);
  }

  class BitStreamReader {
    var buffer: u8
    var offset: nat
    /** What the underlying reader still holds. */
    var input: seq<u8>

    ghost predicate Valid()
      reads this
    {
      offset <= 8
    }

    /** The bits not yet read. */
    ghost function Pending(): seq<bool>
      reads this
      requires Valid()
    {
      Low(buffer, 8 - offset) + Bytes(input)
    }

    constructor (input: seq<u8>)
      ensures Valid() && Pending() == Bytes(input)
    {
      buffer := 0;
      this.input := input;
      offset := 8;
    }

    /** The next `n` bits as a number, or an error if the stream ends before them. */
    method Read(nbits: u8) returns (r: Result<u64, IoError>)
      requires Valid()
      modifies this
      ensures Valid()
      ensures nbits > 64 ==> r == Err(TooManyBits) && Pending() == old(Pending())
      ensures nbits <= 64 ==>
        if |old(Pending())| < nbits then r == Err(UnexpectedEof)
        else r.Ok? && r.value == Num(old(Pending())[..nbits]) && Pending() == old(Pending())[nbits..]
    {
      hide Low, Bytes, Num, Or, Pow2, Pending;
      if nbits > 64 {
        return Err(TooManyBits);
      }
      var data: u64 := 0;
      var left := nbits;
      ghost var all, got: seq<bool> := Pending(), [];
      assert Num(got) == 0 by { NumEmpty(); }
      while left > 0
        invariant 0 <= left <= nbits && Valid()
        invariant |got| == nbits - left && data == Num(got) && all == got + Pending()
      {
        if offset == 8 {
          var ok := Refill();
          if !ok {
            return Err(UnexpectedEof);
          }
        }
        var bits := Min(8 - offset, left);
        var piece := NextPiece(bits);
        ShiftIn(data, bits, piece, got);
        data := Or(data * Pow2(bits) % 0x1_0000_0000_0000_0000, piece);
        left := left - bits;
        got := got + Low(piece, bits);
      }
      assert all[..nbits] == got && all[nbits..] == Pending();
      r := Ok(data);
    }

    /** The next bits of the buffered byte. */
    method NextPiece(bits: nat) returns (piece: nat)
      requires Valid() && offset + bits <= 8
      modifies this`offset
      ensures Valid() && piece < Pow2(bits) && old(Pending()) == Low(piece, bits) + Pending()
    {
      hide Low, Bytes;
      ReadPiece(buffer, offset, bits);
      piece := Shr(buffer * Pow2(offset) % 0x100, 8 - bits);
      assert piece == NextChunk(buffer, offset, bits);
      offset := offset + bits;
    }

    /** Fetches the next byte, if there is one. */
    method Refill() returns (ok: bool)
      requires offset == 8
      modifies this
      ensures Valid() && Pending() == old(Pending())
      ensures if ok then offset == 0 else Pending() == []
    {
      hide Bytes;
      if input == [] {
        assert Bytes(input) == [] by { BytesLength(input); }
        return false;
      }
      BytesCons(input);
      buffer := input[0];
      input := input[1..];
      offset := 0;
      ok := true;
    }
  }

  lemma NumEmpty()
    ensures Num([]) == 0
  {}

  /** Reading back the bits of a value under the same width gives the value's low bits. */
  lemma ReadBack(data: nat, n: nat, rest: seq<bool>)
    ensures Pow2(n) > 0 && Num((Low(data, n) + rest)[..n]) == data % Pow2(n)
    ensures (Low(data, n) + rest)[n..] == rest
  {
    assert (Low(data, n) + rest)[..n] == Low(data, n);
    NumLow(data, n);
  }

  datatype Field = Field(data: nat, nbits: nat)

  /** The bits that a run of writes puts into the stream. */
  function WrittenBits(fields: seq<Field>): seq<bool> {
    if fields == [] then [] else Low(fields[0].data, fields[0].nbits) + WrittenBits(fields[1..])
  }

  /** What a run of reads with the widths of `fields` finds at the front of a stream. */
  function ReadRun(fields: seq<Field>, bits: seq<bool>): Option<seq<nat>> {
    if fields == [] then Some([])
    else if |bits| < fields[0].nbits then None
    else
      match ReadRun(fields[1..], bits[fields[0].nbits..])
      case None => None
      case Some(rest) => Some([Num(bits[..fields[0].nbits])] + rest)
  }

  function LowBits(f: Field): nat {
    Pow2IsPow(f.nbits);
    f.data % Pow2(f.nbits)
  }

  function LowBitsOfAll(fields: seq<Field>): seq<nat> {
    if fields == [] then [] else [LowBits(fields[0])] + LowBitsOfAll(fields[1..])
  }

  /** Any run of writes reads back, under the same widths, as the low bits of each value,
      whatever padding comes after it. */
  lemma {:induction false} RunReadsBack(fields: seq<Field>, padding: seq<bool>)
    ensures ReadRun(fields, WrittenBits(fields) + padding) == Some(LowBitsOfAll(fields))
  {
    hide Low, Num, Pow2, LowBits;
    if fields != [] {
      var f, tail := fields[0], WrittenBits(fields[1..]) + padding;
      assert WrittenBits(fields) + padding == Low(f.data, f.nbits) + tail;
      ReadBackField(f, tail);
      RunReadsBack(fields[1..], padding);
    }
  }

  lemma ReadBackField(f: Field, rest: seq<bool>)
    ensures Num((Low(f.data, f.nbits) + rest)[..f.nbits]) == LowBits(f)
    ensures (Low(f.data, f.nbits) + rest)[f.nbits..] == rest
  {
    hide Low, Num, Pow2;
    ReadBack(f.data, f.nbits, rest);
  }
}
