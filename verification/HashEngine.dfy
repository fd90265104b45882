/** The block buffer that every Merkle-Damgard hash engine of the library shares. */
module HashEngine {
  import opened Words

  /** The compression function folded over the whole blocks of some data. */
  function Fold<H>(compress: (H, seq<u8>) -> H, blockSize: nat, h: H, data: seq<u8>): H
    requires blockSize > 0
    decreases |data|
  {
    if |data| < blockSize then h
    else Fold(compress, blockSize, compress(h, data[..blockSize]), data[blockSize..])
  }

  lemma {:induction false} FoldConcat<H>(compress: (H, seq<u8>) -> H, blockSize: nat, h: H, a: seq<u8>, b: seq<u8>)
    requires blockSize > 0 && |a| % blockSize == 0
    ensures Fold(compress, blockSize, h, a + b) == Fold(compress, blockSize, Fold(compress, blockSize, h, a), b)
    decreases |a|
  {
    if |a| < blockSize {
      DivModUnique(|a|, blockSize, 0, |a|);
      assert a + b == b;
    } else {
      assert (a + b)[..blockSize] == a[..blockSize] && (a + b)[blockSize..] == a[blockSize..] + b;
      OneLess(|a|, blockSize);
      FoldConcat(compress, blockSize, compress(h, a[..blockSize]), a[blockSize..], b);
    }
  }

  lemma FoldNext<H>(compress: (H, seq<u8>) -> H, blockSize: nat, h: H, data: seq<u8>)
    requires blockSize > 0
    ensures Fold(compress, blockSize, h, data) ==
      if |data| < blockSize then h
      else Fold(compress, blockSize, compress(h, data[..blockSize]), data[blockSize..])
  {}

  /** How many of n bytes are in whole blocks. */
  function FullBlocks(n: nat, blockSize: nat): (f: nat)
    requires blockSize > 0
    ensures f <= n < f + blockSize && f % blockSize == 0
  {
    DivMod(n, blockSize);
    DivModUnique(n - n % blockSize, blockSize, n / blockSize, 0);
    n - n % blockSize
  }

  lemma OneLess(n: nat, blockSize: nat)
    requires blockSize > 0 && n >= blockSize
    ensures (n - blockSize) % blockSize == n % blockSize
  {
    ModAddMultiple(n, -1, blockSize);
  }

  function Whole(data: seq<u8>, blockSize: nat): (w: seq<u8>)
    requires blockSize > 0
    ensures |w| % blockSize == 0
  {
    data[..FullBlocks(|data|, blockSize)]
  }

  function Rest(data: seq<u8>, blockSize: nat): seq<u8>
    requires blockSize > 0
  {
    data[FullBlocks(|data|, blockSize)..]
  }

  /** Splitting into whole blocks and less than a block can be done in one way only. */
  lemma SplitUnique(done: seq<u8>, rest: seq<u8>, blockSize: nat)
    requires blockSize > 0 && |done| % blockSize == 0 && |rest| < blockSize
    ensures Whole(done + rest, blockSize) == done && Rest(done + rest, blockSize) == rest
  {
    DivMod(|done|, blockSize);
    DivModUnique(|done + rest|, blockSize, |done| / blockSize, |rest|);
  }

  class HashEngine<H> {
    const compress: (H, seq<u8>) -> H
    const initial: H
    const buffer: array<u8>
    var h: H
    var bytesHashed: u64
    /** The whole blocks already compressed. */
    ghost var done: seq<u8>

    /** The chaining value is the fold over the whole blocks so far. */
    ghost predicate Compressed()
      reads `h, `done
      ensures Compressed() ==> buffer.Length > 0
    {
      && buffer.Length > 0 && |done| % buffer.Length == 0
      && h == Fold(compress, buffer.Length, initial, done)
    }

    ghost predicate Valid()
      reads this
    {
      Compressed() && |done| <= bytesHashed < |done| + buffer.Length
    }

    /** Everything input so far: the compressed blocks and the live part of the buffer. */
    ghost function Absorbed(): seq<u8>
      reads this, buffer
      requires Valid()
    {
      done + buffer[..bytesHashed - |done|]
    }

    constructor (compress: (H, seq<u8>) -> H, initial: H, blockSize: nat)
      requires blockSize > 0
      ensures Valid() && Absorbed() == [] && fresh(buffer)
      ensures this.compress == compress && this.initial == initial && buffer.Length == blockSize
    {
      this.compress, this.initial, h := compress, initial, initial;
      buffer := new u8[blockSize](_ => 0);
      bytesHashed := 0;
      done := [];
      new;
      DivModUnique(0, blockSize, 0, 0);
    }

    function IncompleteBlockLen(): nat
      reads this
      requires buffer.Length > 0
    {
      DivMod(bytesHashed, buffer.Length);
      bytesHashed % buffer.Length
    }

    /** The partial block length is the length of the live part of the buffer. */
    lemma IncompleteLength()
      requires Valid()
      ensures IncompleteBlockLen() == bytesHashed - |done|
    {
      DivMod(|done|, buffer.Length);
      DivModUnique(bytesHashed, buffer.Length, |done| / buffer.Length, bytesHashed - |done|);
    }

    /** Adds data. The 64-bit byte count must not overflow. */
    method Input(data: seq<u8>)
      requires Valid() && bytesHashed + |data| < 0x1_0000_0000_0000_0000
      modifies this, buffer
      ensures Valid() && Absorbed() == old(Absorbed()) + data
    {
      hide Compressed, IncompleteBlockLen;
      var bufIdx := IncompleteBlockLen();
      IncompleteLength();
      bytesHashed := bytesHashed + |data|;
      if bufIdx + |data| < buffer.Length {
        CopyAt(bufIdx, data);
        return;
      }
      var needed := if bufIdx > 0 then buffer.Length - bufIdx else 0;
      if bufIdx > 0 {
        CompleteBlock(bufIdx, data[..needed]);
      }
      InputAligned(data[needed..]);
      Rejoin(old(done), old(buffer[..bufIdx]), data, needed);
    }

    /** Fills the buffer up and compresses it. */
    method CompleteBlock(bufIdx: nat, inp: seq<u8>)
      requires Compressed() && bufIdx + |inp| == buffer.Length
      modifies `h, `done, buffer
      ensures Compressed() && done == old(done) + (old(buffer[..bufIdx]) + inp)
    {
      hide Compressed;
      CopyAt(bufIdx, inp);
      assert buffer[..] == buffer[..buffer.Length];
      DivModUnique(buffer.Length, buffer.Length, 1, 0);
      ProcessBlocks(buffer[..]);
    }

    /** With an empty buffer: whole blocks straight from the input, and the remainder is kept. */
    method InputAligned(inp: seq<u8>)
      requires Compressed()
      modifies `h, `done, buffer
      ensures Compressed() && |done| <= |old(done)| + |inp| < |done| + buffer.Length
      ensures done + buffer[..|old(done)| + |inp| - |done|] == old(done) + inp
    {
      hide Compressed;
      var fullBlocks := FullBlocks(|inp|, buffer.Length);
      if fullBlocks > 0 {
        ProcessBlocks(inp[..fullBlocks]);
      }
      CopyAt(0, inp[fullBlocks..]);
      assert inp[..fullBlocks] + inp[fullBlocks..] == inp;
    }

    method CopyAt(from: nat, data: seq<u8>)
      requires from + |data| <= buffer.Length
      modifies buffer
      ensures buffer[..from + |data|] == old(buffer[..from]) + data
    {
      for k := 0 to |data|
        invariant buffer[..from + k] == old(buffer[..from]) + data[..k]
      {
        ghost var before := buffer[..from + k];
        buffer[from + k] := data[k];
        assert buffer[..from + k + 1] == before + [data[k]];
      }
    }

    method ProcessBlocks(data: seq<u8>)
      requires Compressed() && |data| % buffer.Length == 0
      modifies this`h, this`done
      ensures Compressed() && done == old(done) + data
    {
      hide Fold;
      FoldConcat(compress, buffer.Length, initial, done, data);
      WholeSum(|done|, |data|, buffer.Length);
      var rest := data;
      while |rest| >= buffer.Length
        invariant done == old(done)
        invariant Fold(compress, buffer.Length, h, rest) == Fold(compress, buffer.Length, old(h), data)
        decreases |rest|
      {
        FoldNext(compress, buffer.Length, h, rest);
        h := compress(h, rest[..buffer.Length]);
        rest := rest[buffer.Length..];
      }
      FoldNext(compress, buffer.Length, h, rest);
      done := done + data;
    }

    /** The state is a function of the bytes absorbed, however they were split over calls. */
    lemma StateOfInput()
      requires Valid()
      ensures h == Fold(compress, buffer.Length, initial, Whole(Absorbed(), buffer.Length))
      ensures bytesHashed == |Absorbed()|
      ensures buffer[..IncompleteBlockLen()] == Rest(Absorbed(), buffer.Length)
    {
      hide Fold;
      IncompleteLength();
      SplitUnique(done, buffer[..bytesHashed - |done|], buffer.Length);
    }
  }

  lemma Rejoin(done: seq<u8>, live: seq<u8>, data: seq<u8>, n: nat)
    requires n <= |data|
    ensures done + (live + data[..n]) + data[n..] == done + live + data
    ensures live == [] ==> done + data == done + live + data
  {}

  lemma WholeSum(a: nat, b: nat, m: nat)
    requires m > 0 && a % m == 0 && b % m == 0
    ensures (a + b) % m == 0
  {
    DivMod(b, m);
    ModAddMultiple(a, b / m, m);
  }

  /** Two engines that absorbed the same bytes agree on everything finalisation looks at. */
  lemma SplitIrrelevant<H>(a: HashEngine<H>, b: HashEngine<H>)
    requires a.Valid() && b.Valid() && a.Absorbed() == b.Absorbed()
    requires a.compress == b.compress && a.initial == b.initial && a.buffer.Length == b.buffer.Length
    ensures a.h == b.h && a.bytesHashed == b.bytesHashed
    ensures a.IncompleteBlockLen() == b.IncompleteBlockLen()
    ensures a.buffer[..a.IncompleteBlockLen()] == b.buffer[..b.IncompleteBlockLen()]
  {
    hide Fold;
    a.StateOfInput();
    b.StateOfInput();
  }
}
