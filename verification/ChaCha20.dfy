/** The ChaCha20 cipher: a block function on four words at a time, and a keystream with a position. */
module ChaCha20 {
  import opened Words
  import opened ChaCha20Spec

  datatype U32x4 = U32x4(e0: u32, e1: u32, e2: u32, e3: u32) {
    function WrappingAdd(rhs: U32x4): U32x4 {
      U32x4(Add32(e0, rhs.e0), Add32(e1, rhs.e1), Add32(e2, rhs.e2), Add32(e3, rhs.e3))
    }

    function BitXor(rhs: U32x4): U32x4 {
      U32x4(Xor32(e0, rhs.e0), Xor32(e1, rhs.e1), Xor32(e2, rhs.e2), Xor32(e3, rhs.e3))
    }

    function RotateLeft(n: nat): U32x4
      requires n <= 32
    {
      U32x4(RotL(e0, n), RotL(e1, n), RotL(e2, n), RotL(e3, n))
    }

    function RotateElementsLeft(n: nat): U32x4 {
      if n == 1 then U32x4(e1, e2, e3, e0) else if n == 2 then U32x4(e2, e3, e0, e1)
      else if n == 3 then U32x4(e3, e0, e1, e2) else this
    }

    function RotateElementsRight(n: nat): U32x4 {
      if n == 1 then U32x4(e3, e0, e1, e2) else if n == 2 then U32x4(e2, e3, e0, e1)
      else if n == 3 then U32x4(e1, e2, e3, e0) else this
    }

    function Elements(): seq<u32> { [e0, e1, e2, e3] }

    function ToLeBytes(): seq<u8> { LeBytes(e0, 4) + LeBytes(e1, 4) + LeBytes(e2, 4) + LeBytes(e3, 4) }
  }

  datatype Rows = Rows(a: U32x4, b: U32x4, c: U32x4, d: U32x4)

  function Flat(m: Rows): Words16 { m.a.Elements() + m.b.Elements() + m.c.Elements() + m.d.Elements() }

  /** Four quarter rounds at once, one in each lane. */
  function VectorQuarter(m: Rows): Rows {
    var a := m.a.WrappingAdd(m.b);
    var d := m.d.BitXor(a).RotateLeft(16);
    var c := m.c.WrappingAdd(d);
    var b := m.b.BitXor(c).RotateLeft(12);
    var a' := a.WrappingAdd(b);
    var d' := d.BitXor(a').RotateLeft(8);
    var c' := c.WrappingAdd(d');
    var b' := b.BitXor(c').RotateLeft(7);
    Rows(a', b', c', d')
  }

  function DoubleRound(m: Rows): Rows {
    var col := VectorQuarter(m);
    var diag := VectorQuarter(
      Rows(col.a, col.b.RotateElementsLeft(1), col.c.RotateElementsLeft(2), col.d.RotateElementsLeft(3)));
    Rows(diag.a, diag.b.RotateElementsRight(1), diag.c.RotateElementsRight(2), diag.d.RotateElementsRight(3))
  }

  lemma LaneIsQuarter(m: Rows)
    ensures var r := VectorQuarter(m);
      && Quad(r.a.e0, r.b.e0, r.c.e0, r.d.e0) == Quarter(m.a.e0, m.b.e0, m.c.e0, m.d.e0)
      && Quad(r.a.e1, r.b.e1, r.c.e1, r.d.e1) == Quarter(m.a.e1, m.b.e1, m.c.e1, m.d.e1)
      && Quad(r.a.e2, r.b.e2, r.c.e2, r.d.e2) == Quarter(m.a.e2, m.b.e2, m.c.e2, m.d.e2)
      && Quad(r.a.e3, r.b.e3, r.c.e3, r.d.e3) == Quarter(m.a.e3, m.b.e3, m.c.e3, m.d.e3)
  {
    hide Add32, Xor32, RotL;
  }

  lemma ColumnsAtOnce(m: Rows)
    ensures Flat(VectorQuarter(m)) == ColumnRound(Flat(m))
  {
    hide VectorQuarter, Quarter;
    LaneIsQuarter(m);
  }

  lemma DiagonalsAtOnce(m: Rows)
    ensures var v := VectorQuarter(Rows(m.a, m.b.RotateElementsLeft(1), m.c.RotateElementsLeft(2), m.d.RotateElementsLeft(3)));
      Flat(Rows(v.a, v.b.RotateElementsRight(1), v.c.RotateElementsRight(2), v.d.RotateElementsRight(3)))
      == DiagonalRound(Flat(m))
  {
    hide VectorQuarter, Quarter;
    LaneIsQuarter(Rows(m.a, m.b.RotateElementsLeft(1), m.c.RotateElementsLeft(2), m.d.RotateElementsLeft(3)));
  }

  /** The vectorised double round is a column round and a diagonal round of the standard. */
  lemma DoubleRoundIsStandard(m: Rows)
    ensures Flat(DoubleRound(m)) == DiagonalRound(ColumnRound(Flat(m)))
  {
    hide VectorQuarter, Quarter, ColumnRound, DiagonalRound;
    ColumnsAtOnce(m);
    DiagonalsAtOnce(VectorQuarter(m));
  }

  class State {
    var matrix: Rows

    constructor (key: seq<u8>, nonce: seq<u8>, count: u32)
      requires |key| == 32 && |nonce| == 12
      ensures Flat(matrix) == Initial(key, nonce, count)
    {
      hide WordAt;
      matrix := Rows(
        U32x4(0x6170_7865, 0x3320_646e, 0x7962_2d32, 0x6b20_6574),
        U32x4(WordAt(key, 0), WordAt(key, 1), WordAt(key, 2), WordAt(key, 3)),
        U32x4(WordAt(key, 4), WordAt(key, 5), WordAt(key, 6), WordAt(key, 7)),
        U32x4(count, WordAt(nonce, 0), WordAt(nonce, 1), WordAt(nonce, 2)));
    }

    /** Ten double rounds, added to the state they started from. */
    method ChachaBlock()
      modifies this
      ensures Flat(matrix) == Summed(InnerBlocks(old(Flat(matrix)), 10), old(Flat(matrix)))
    {
      hide DoubleRound, ColumnRound, DiagonalRound, Add32;
      var workingState := matrix;
      for i := 0 to 10
        invariant matrix == old(matrix)
        invariant Flat(workingState) == InnerBlocks(Flat(matrix), i)
      {
        DoubleRoundIsStandard(workingState);
        workingState := DoubleRound(workingState);
      }
      matrix := Rows(workingState.a.WrappingAdd(matrix.a), workingState.b.WrappingAdd(matrix.b),
                     workingState.c.WrappingAdd(matrix.c), workingState.d.WrappingAdd(matrix.d));
      SummedRows(workingState, old(matrix));
    }

    method Keystream() returns (keystream: seq<u8>)
      ensures keystream == Serialize(Flat(matrix))
    {
      keystream := matrix.a.ToLeBytes() + matrix.b.ToLeBytes() + matrix.c.ToLeBytes() + matrix.d.ToLeBytes();
      SerializeRows(matrix);
    }
  }

  function Summed(w: Words16, s: Words16): Words16 { seq(16, i requires 0 <= i < 16 => Add32(w[i], s[i])) }

  lemma SummedRows(w: Rows, s: Rows)
    ensures Flat(Rows(w.a.WrappingAdd(s.a), w.b.WrappingAdd(s.b), w.c.WrappingAdd(s.c), w.d.WrappingAdd(s.d)))
      == Summed(Flat(w), Flat(s))
  {
    hide Add32;
  }

  lemma {:induction false} SerializeConcat(a: seq<u32>, b: seq<u32>)
    ensures Serialize(a + b) == Serialize(a) + Serialize(b)
  {
    hide LeBytes;
    if b == [] {
      assert a + b == a;
    } else {
      SerializeConcat(a, b[..|b| - 1]);
      assert (a + b)[..|a + b| - 1] == a + b[..|b| - 1];
    }
  }

  lemma SerializeElements(x: U32x4)
    ensures Serialize(x.Elements()) == x.ToLeBytes()
  {
    hide LeBytes;
    var s := x.Elements();
    assert s[..3] == [x.e0, x.e1, x.e2] && s[..3][..2] == [x.e0, x.e1];
    assert [x.e0, x.e1][..1] == [x.e0] && [x.e0][..0] == [];
    assert Serialize([x.e0]) == LeBytes(x.e0, 4);
    assert Serialize([x.e0, x.e1]) == LeBytes(x.e0, 4) + LeBytes(x.e1, 4);
    assert [x.e0, x.e1, x.e2][..2] == [x.e0, x.e1];
    assert Serialize([x.e0, x.e1, x.e2]) == LeBytes(x.e0, 4) + LeBytes(x.e1, 4) + LeBytes(x.e2, 4);
  }

  lemma SerializeRows(m: Rows)
    ensures Serialize(Flat(m)) == m.a.ToLeBytes() + m.b.ToLeBytes() + m.c.ToLeBytes() + m.d.ToLeBytes()
  {
    hide Serialize, LeBytes;
    SerializeElements(m.a);
    SerializeElements(m.b);
    SerializeElements(m.c);
    SerializeElements(m.d);
    SerializeConcat(m.a.Elements(), m.b.Elements());
    SerializeConcat(m.a.Elements() + m.b.Elements(), m.c.Elements());
    SerializeConcat(m.a.Elements() + m.b.Elements() + m.c.Elements(), m.d.Elements());
  }

  lemma NoStream(key: seq<u8>, nonce: seq<u8>, pos: nat)
    requires |key| == 32 && |nonce| == 12 && pos <= STREAM_LENGTH
    ensures XorStream(key, nonce, pos, []) == []
  {}

  lemma StreamGrows(key: seq<u8>, nonce: seq<u8>, pos: nat, was: seq<u8>, i: nat, j: nat, done: seq<u8>, piece: seq<u8>)
    requires |key| == 32 && |nonce| == 12 && i <= j <= |was| && pos + |was| <= STREAM_LENGTH
    requires done == XorStream(key, nonce, pos, was[..i]) && piece == XorStream(key, nonce, pos + i, was[i..j])
    ensures done + piece == XorStream(key, nonce, pos, was[..j])
  {
    hide XorStream;
    assert was[..j] == was[..i] + was[i..j];
    XorStreamConcat(key, nonce, pos, was[..i], was[i..j]);
  }

  function Combined(a: seq<u8>, b: seq<u8>): (r: seq<u8>)
    requires |a| == |b|
    ensures |r| == |a|
  {
    seq(|a|, i requires 0 <= i < |a| => Xor8(a[i], b[i]))
  }

  lemma NothingCombined()
    ensures Combined([], []) == []
  {}

  lemma CombinedNext(a: seq<u8>, b: seq<u8>, x: u8, y: u8)
    requires |a| == |b|
    ensures Combined(a + [x], b + [y]) == Combined(a, b) + [Xor8(x, y)]
  {
    hide Xor8;
  }

  /** A piece of one block is a piece of the stream. */
  lemma BlockOfStream(key: seq<u8>, nonce: seq<u8>, count: u32, offset: nat, was: seq<u8>, now: seq<u8>)
    requires |key| == 32 && |nonce| == 12 && |was| == |now| && offset + |was| <= 64
    requires now == Combined(was, Block(key, nonce, count)[offset..offset + |was|])
    ensures 64 * (count as int) + offset + |was| <= STREAM_LENGTH
    ensures now == XorStream(key, nonce, 64 * (count as int) + offset, was)
  {
    hide Block, Xor8;
    var pos := 64 * (count as int) + offset;
    forall j | 0 <= j < |was| ensures now[j] == XorStream(key, nonce, pos, was)[j] {
      DivModUnique(pos + j, 64, count, offset + j);
    }
  }

  class ChaCha20 {
    const key: seq<u8>
    const nonce: seq<u8>
    var blockCount: u32
    var seekOffsetBytes: nat

    predicate Valid()
      reads this
    {
      |key| == 32 && |nonce| == 12 && seekOffsetBytes < 64
    }

    /** The index of the next keystream byte. */
    function Position(): nat
      reads this
    {
      At(blockCount, seekOffsetBytes)
    }

    static function At(block: int, offset: nat): nat
      requires block >= 0
    {
      64 * block + offset
    }

    constructor (key: seq<u8>, nonce: seq<u8>, seek: u32)
      requires |key| == 32 && |nonce| == 12
      ensures Valid() && Position() == seek && this.key == key && this.nonce == nonce
    {
      this.key, this.nonce, blockCount, seekOffsetBytes := key, nonce, seek / 64, seek % 64;
    }

    constructor FromBlock(key: seq<u8>, nonce: seq<u8>, block: u32)
      requires |key| == 32 && |nonce| == 12
      ensures Valid() && Position() == At(block, 0) && this.key == key && this.nonce == nonce
    {
      this.key, this.nonce, blockCount, seekOffsetBytes := key, nonce, block, 0;
    }

    method KeystreamAtBlock(block: u32) returns (keystream: seq<u8>)
      requires Valid()
      ensures keystream == Block(key, nonce, block)
    {
      hide InnerBlocks, Initial, Serialize, Add32, Flat;
      var state := new State(key, nonce, block);
      state.ChachaBlock();
      keystream := state.Keystream();
      assert Summed(InnerBlocks(Initial(key, nonce, block), 10), Initial(key, nonce, block))
          == seq(16, i requires 0 <= i < 16 =>
              Add32(InnerBlocks(Initial(key, nonce, block), 10)[i], Initial(key, nonce, block)[i]));
    }

    /** Moves to a byte of the keystream. */
    method Seek(seek: u32)
      requires Valid()
      modifies this
      ensures Valid() && Position() == seek
    {
      blockCount, seekOffsetBytes := seek / 64, seek % 64;
    }

    /** Moves to a block of the keystream. */
    method ToBlock(block: u32)
      requires Valid()
      modifies this
      ensures Valid() && Position() == At(block, 0)
    {
      blockCount, seekOffsetBytes := block, 0;
    }

    /** Combines n bytes of the buffer with keystream of the current block. */
    method XorBytes(buffer: array<u8>, from: nat, n: nat, offset: nat)
      requires Valid() && from + n <= buffer.Length && offset + n <= 64
      modifies buffer
      ensures buffer[..from] == old(buffer[..from]) && buffer[from + n..] == old(buffer[from + n..])
      ensures At(blockCount, offset) + n <= STREAM_LENGTH
      ensures buffer[from..from + n] == XorStream(key, nonce, At(blockCount, offset), old(buffer[from..from + n]))
    {
      hide Block, Xor8, Combined;
      NothingCombined();
      var keystream := KeystreamAtBlock(blockCount);
      ghost var was := buffer[..];
      assert buffer[from..from] == [] == was[from..from] == keystream[offset..offset];
      for i := 0 to n
        invariant buffer[..from] == was[..from] && buffer[from + i..] == was[from + i..]
        invariant buffer[from..from + i] == Combined(was[from..from + i], keystream[offset..offset + i])
      {
        ghost var rest, before := buffer[from + i..], buffer[from..from + i];
        assert buffer[from + i] == rest[0] == was[from + i];
        CombinedNext(was[from..from + i], keystream[offset..offset + i], buffer[from + i], keystream[offset + i]);
        assert was[from..from + i] + [was[from + i]] == was[from..from + i + 1];
        assert keystream[offset..offset + i] + [keystream[offset + i]] == keystream[offset..offset + i + 1];
        buffer[from + i] := Xor8(buffer[from + i], keystream[offset + i]);
        assert buffer[from..from + i + 1] == before + [buffer[from + i]];
        assert buffer[from + i + 1..] == rest[1..] == was[from + i + 1..];
      }
      BlockOfStream(key, nonce, blockCount, offset, was[from..from + n], buffer[from..from + n]);
    }

    /** Uses up what is left of the current block, as far as the buffer goes. */
    method FinishBlock(buffer: array<u8>) returns (done: nat)
      requires Valid() && seekOffsetBytes != 0 && Position() + buffer.Length < STREAM_LENGTH
      modifies this, buffer
      ensures Valid() && done <= buffer.Length && Position() == old(Position()) + done
      ensures seekOffsetBytes != 0 ==> done == buffer.Length
      ensures buffer[..done] == XorStream(key, nonce, old(Position()), old(buffer[..done]))
      ensures buffer[done..] == old(buffer[done..])
    {
      hide XorStream;
      var bytesUntilAligned := 64 - seekOffsetBytes;
      var bytesToProcess := Min(buffer.Length, bytesUntilAligned);
      assert buffer[0..bytesToProcess] == buffer[..bytesToProcess];
      XorBytes(buffer, 0, bytesToProcess, seekOffsetBytes);
      assert buffer[0..bytesToProcess] == buffer[..bytesToProcess];
      if bytesToProcess < bytesUntilAligned {
        seekOffsetBytes := seekOffsetBytes + bytesToProcess;
        return bytesToProcess;
      }
      blockCount := blockCount + 1;
      seekOffsetBytes := 0;
      return bytesToProcess;
    }

    /** The whole blocks of a buffer from `start` on. */
    method ApplyBlocks(buffer: array<u8>, start: nat, ghost was: seq<u8>, ghost pos: nat) returns (done: nat)
      requires Valid() && seekOffsetBytes == 0 && start <= buffer.Length == |was|
      requires Position() == pos + start && pos + buffer.Length < STREAM_LENGTH
      requires buffer[..start] == XorStream(key, nonce, pos, was[..start]) && buffer[start..] == was[start..]
      modifies this, buffer
      ensures Valid() && seekOffsetBytes == 0 && start <= done <= buffer.Length < done + 64
      ensures Position() == pos + done
      ensures buffer[..done] == XorStream(key, nonce, pos, was[..done]) && buffer[done..] == was[done..]
    {
      hide XorStream;
      done := start;
      while buffer.Length - done >= 64
        invariant Valid() && seekOffsetBytes == 0 && start <= done <= buffer.Length
        invariant Position() == pos + done
        invariant buffer[..done] == XorStream(key, nonce, pos, was[..done]) && buffer[done..] == was[done..]
        decreases buffer.Length - done
      {
        ghost var before := buffer[..done];
        assert buffer[done..done + 64] == buffer[done..][..64] == was[done..done + 64];
        assert buffer[done + 64..] == buffer[done..][64..] == was[done + 64..];
        XorBytes(buffer, done, 64, 0);
        StreamGrows(key, nonce, pos, was, done, done + 64, before, buffer[done..done + 64]);
        assert buffer[..done + 64] == buffer[..done] + buffer[done..done + 64];
        blockCount := blockCount + 1;
        done := done + 64;
      }
    }

    /** Combines a whole buffer with the keystream, from the current position on. The block counter
        must not pass 32 bits. */
    method ApplyKeystream(buffer: array<u8>)
      requires Valid() && Position() + buffer.Length < STREAM_LENGTH
      modifies this, buffer
      ensures Valid() && Position() == old(Position()) + buffer.Length
      ensures buffer[..] == XorStream(key, nonce, old(Position()), old(buffer[..]))
    {
      hide XorStream;
      ghost var was, pos := buffer[..], Position();
      var done := 0;
      assert buffer[..0] == [] == was[..0];
      NoStream(key, nonce, pos);
      if seekOffsetBytes != 0 {
        done := FinishBlock(buffer);
        StreamGrows(key, nonce, pos, was, 0, done, [], buffer[..done]);
        assert [] + buffer[..done] == buffer[..done];
        if seekOffsetBytes != 0 {
          assert was[..done] == was && buffer[..done] == buffer[..];
          return;
        }
      }
      done := ApplyBlocks(buffer, done, was, pos);
      if done < buffer.Length {
        ghost var before := buffer[..done];
        assert buffer[done..buffer.Length] == buffer[done..] == was[done..] == was[done..buffer.Length];
        XorBytes(buffer, done, buffer.Length - done, 0);
        assert buffer[done..buffer.Length] == buffer[done..];
        StreamGrows(key, nonce, pos, was, done, buffer.Length, before, buffer[done..]);
        assert buffer[..done] + buffer[done..] == buffer[..];
        seekOffsetBytes := buffer.Length - done;
      }
      assert was[..buffer.Length] == was && buffer[..buffer.Length] == buffer[..];
    }
  }
}
