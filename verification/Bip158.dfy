/** Compact block filters: a set of hashes written as Golomb-Rice coded differences
    and queried in one pass. The keyed hash is a parameter. */
module Bip158 {
  import opened Words
  import opened Wrappers
  import opened Bits
  import opened BitStream
  import opened Sorting
  import GolombRice
  import CompactSize

  datatype Error = InvalidCompactSize(size: CompactSize.Error) | Io(io: IoError)

  /** The keyed hash of an element and the Golomb-Rice parameter. */
  datatype GcsFilter = GcsFilter(hash: seq<u8> -> u64, p: u8)

  // --- mapping hashes into a range ---

  function MapToRange(hash: u64, nm: u64): (r: u64)
    ensures nm > 0 ==> r < nm
  {
    MulUnder(nm, hash, 0x1_0000_0000_0000_0000);
    RangeBound(hash, nm);
    hash * nm / 0x1_0000_0000_0000_0000
  }

  lemma RangeBound(hash: u64, nm: u64)
    ensures 0 <= hash * nm / 0x1_0000_0000_0000_0000 <= nm
    ensures nm > 0 ==> hash * nm / 0x1_0000_0000_0000_0000 < nm
  {
    MulUnder(nm, hash, 0x1_0000_0000_0000_0000);
    assert nm * hash == hash * nm;
  }

  /** The mapped hash is the floor of hash * nm / 2^64, so the range is cut into nm equal parts. */
  lemma MapToRangeExact(hash: u64, nm: u64)
    ensures var r, product := Product(MapToRange(hash, nm), 0x1_0000_0000_0000_0000), Product(hash, nm);
      r <= product < r + 0x1_0000_0000_0000_0000
  {
    DivMod(Product(hash, nm), 0x1_0000_0000_0000_0000);
  }

  function Product(a: int, b: int): int { a * b }

  /** Mapping keeps the order of the hashes. */
  lemma MapToRangeMonotone(h: u64, g: u64, nm: u64)
    requires h <= g
    ensures MapToRange(h, nm) <= MapToRange(g, nm)
  {
    hide MapToRange;
    MapToRangeExact(h, nm);
    MapToRangeExact(g, nm);
    MulMono(nm, h, g);
    assert Product(h, nm) == nm * h && Product(g, nm) == nm * g;
  }

  function MapAll(filter: GcsFilter, elements: seq<seq<u8>>, nm: u64): (s: seq<nat>)
    ensures |s| == |elements|
    ensures forall i :: 0 <= i < |s| ==> s[i] == MapToRange(filter.hash(elements[i]), nm)
  {
    if elements == [] then []
    else [MapToRange(filter.hash(elements[0]), nm)] + MapAll(filter, elements[1..], nm)
  }

  // --- the coded set ---

  /** The differences of an ascending list, coded one after the other. */
  function Stream(vals: seq<nat>, last: nat, p: nat): seq<bool>
    requires Ascending([last] + vals)
  {
    if vals == [] then []
    else
      assert ([last] + vals)[1..] == vals == [vals[0]] + vals[1..];
      GolombRice.Code(vals[0] - last, p) + Stream(vals[1..], vals[0], p)
  }

  ghost predicate Hashes(vals: seq<nat>) {
    Ascending([0] + vals) && |vals| < 0x1_0000_0000_0000_0000 && forall v | v in vals :: v < 0x1_0000_0000_0000_0000
  }

  /** `bytes` is a filter holding `vals`; whatever follows the last coded bit does not matter. */
  ghost predicate IsFilterOf(bytes: seq<u8>, vals: seq<nat>, p: nat) {
    && Hashes(vals)
    && CompactSize.Encode(|vals|) <= bytes
    && Stream(vals, 0, p) <= Bytes(bytes[|CompactSize.Encode(|vals|)|..])
  }

  lemma FromZero(vals: seq<nat>)
    requires Ascending(vals)
    ensures Ascending([0] + vals)
  {
    assert ([0] + vals)[1..] == vals;
  }

  lemma StreamTail(vals: seq<nat>, last: nat)
    requires Ascending([last] + vals) && vals != []
    ensures last <= vals[0] && Ascending([vals[0]] + vals[1..])
  {
    assert ([last] + vals)[1..] == vals == [vals[0]] + vals[1..];
  }

  // --- writing ---

  class GcsFilterWriter {
    const filter: GcsFilter
    const m: u64
    var elements: set<seq<u8>>
    /** What the underlying writer has received. */
    var out: seq<u8>

    constructor (filter: GcsFilter, m: u64, out: seq<u8>)
      ensures this.filter == filter && this.m == m && elements == {} && this.out == out
    {
      this.filter := filter;
      this.m := m;
      elements := {};
      this.out := out;
    }

    /** Adds an element unless it is empty or already there. */
    method AddElement(element: seq<u8>)
      modifies this`elements
      ensures elements == if element == [] then old(elements) else old(elements) + {element}
    {
      if |element| != 0 {
        elements := elements + {element};
      }
    }

    /** Writes the filter and returns the number of bytes written. `order` lists the
        elements in the order the set delivered them. */
    method Finish() returns (wrote: nat, ghost order: seq<seq<u8>>)
      requires filter.p <= 63 && |elements| < 0x1_0000_0000_0000_0000
      requires |elements| * m < 0x1_0000_0000_0000_0000
      modifies this`out
      ensures Enumerates(order, elements)
      ensures old(out) <= out && wrote == |out| - |old(out)|
      ensures IsFilterOf(out[|old(out)|..], Sorted(MapAll(filter, order, |elements| * m)), filter.p)
    {
      hide Stream, Bytes, Low, Used, FreeBelow;
      var nm: u64 := |elements| * m;
      var mapped;
      mapped, order := Collect(nm);
      mapped := Sorted(mapped);
      SortedHashes(filter, order, nm);
      wrote := WriteFilter(mapped);
    }

    /** Writes the count, the coded differences and the padding. */
    method WriteFilter(mapped: seq<nat>) returns (wrote: nat)
      requires filter.p <= 63 && Hashes(mapped)
      modifies this`out
      ensures old(out) <= out && wrote == |out| - |old(out)|
      ensures IsFilterOf(out[|old(out)|..], mapped, filter.p)
    {
      hide Bytes, Low, Used, FreeBelow;
      var header := CompactSize.Encode(|mapped|);
      wrote := |header|;
      ghost var before := out;
      var writer := new BitStreamWriter(out + header);
      var coded := WriteDeltas(writer, mapped);
      ghost var bits := writer.Written();
      wrote := wrote + coded;
      coded := writer.Flush();
      wrote := wrote + coded;
      out := writer.out;
      assert Bytes(out) == writer.Written() by { UsedNone(writer.buffer); }
      SplitOutput(before, header, out, Stream(mapped, 0, filter.p));
    }

    /** The mapped hashes of the elements, in the order the set delivers them. */
    method Collect(nm: u64) returns (mapped: seq<nat>, ghost order: seq<seq<u8>>)
      ensures Enumerates(order, elements) && mapped == MapAll(filter, order, nm)
    {
      hide MapToRange, MapAll, Enumerates;
      mapped, order := [], [];
      NothingCollected(filter, nm);
      var left := elements;
      while left != {}
        invariant left <= elements && Enumerates(order, elements - left)
        invariant mapped == MapAll(filter, order, nm)
        decreases left
      {
        var e :| e in left;
        MapAllSnoc(filter, order, e, nm);
        EnumeratesOneMore(order, elements, left, e);
        mapped := mapped + [MapToRange(filter.hash(e), nm)];
        order := order + [e];
        left := left - {e};
      }
      assert elements - {} == elements;
    }

    method WriteDeltas(writer: BitStreamWriter, mapped: seq<nat>) returns (wrote: nat)
      requires writer.Valid() && writer.offset == 0 && filter.p <= 63
      requires Ascending([0] + mapped) && forall v | v in mapped :: v < 0x1_0000_0000_0000_0000
      modifies writer
      ensures writer.Valid() && writer.offset < 8 && old(writer.out) <= writer.out
      ensures writer.Written() == old(writer.Written()) + Stream(mapped, 0, filter.p)
      ensures wrote == |writer.out| - |old(writer.out)|
    {
      hide GolombRice.Code, Bytes, Used;
      wrote := 0;
      var last: u64 := 0;
      ghost var goal := writer.Written() + Stream(mapped, 0, filter.p);
      for i := 0 to |mapped|
        invariant writer.Valid() && writer.offset < 8 && old(writer.out) <= writer.out
        invariant Ascending([last] + mapped[i..])
        invariant writer.Written() + Stream(mapped[i..], last, filter.p) == goal
        invariant wrote == |writer.out| - |old(writer.out)|
      {
        StreamTail(mapped[i..], last);
        assert mapped[i..][1..] == mapped[i + 1..];
        assert mapped[i] in mapped;
        var w := GolombRice.Encode(writer, mapped[i] - last, filter.p);
        wrote := wrote + w;
        last := mapped[i];
      }
    }
  }

  lemma UsedNone(buffer: nat)
    ensures Used(buffer, 0) == []
  {}

  lemma SortedHashes(filter: GcsFilter, order: seq<seq<u8>>, nm: u64)
    requires |order| < 0x1_0000_0000_0000_0000
    ensures Hashes(Sorted(MapAll(filter, order, nm)))
  {
    var s := MapAll(filter, order, nm);
    SortedAscending(s);
    FromZero(Sorted(s));
    forall v | v in Sorted(s) ensures v < 0x1_0000_0000_0000_0000 { SortedCount(s, v); }
  }

  /** `order` lists each element of `s` once. */
  ghost predicate Enumerates(order: seq<seq<u8>>, s: set<seq<u8>>) {
    |order| == |s| && (forall e :: e in order <==> e in s)
  }

  lemma NothingCollected(filter: GcsFilter, nm: u64)
    ensures MapAll(filter, [], nm) == []
    ensures forall s: set<seq<u8>> :: Enumerates([], s - s)
  {
    forall s: set<seq<u8>> ensures Enumerates([], s - s) { assert s - s == {}; }
  }

  lemma EnumeratesOneMore(order: seq<seq<u8>>, elements: set<seq<u8>>, left: set<seq<u8>>, e: seq<u8>)
    requires e in left && left <= elements && Enumerates(order, elements - left)
    ensures Enumerates(order + [e], elements - (left - {e}))
  {
    assert elements - (left - {e}) == (elements - left) + {e};
    assert forall x :: x in order + [e] <==> x in order || x == e;
  }

  lemma MapAllSnoc(filter: GcsFilter, elements: seq<seq<u8>>, e: seq<u8>, nm: u64)
    ensures MapAll(filter, elements + [e], nm) == MapAll(filter, elements, nm) + [MapToRange(filter.hash(e), nm)]
  {}

  lemma SplitOutput(before: seq<u8>, header: seq<u8>, out: seq<u8>, stream: seq<bool>)
    requires before + header <= out && Bytes(before + header) + stream <= Bytes(out)
    ensures header <= out[|before|..] && stream <= Bytes(out[|before|..][|header|..])
  {
    var tail := out[|before + header|..];
    assert out == before + header + tail && out[|before|..][|header|..] == tail;
    BytesConcat(before + header, tail);
    PrefixCancel(Bytes(before + header), stream, Bytes(tail));
  }

  lemma PrefixCancel(a: seq<bool>, b: seq<bool>, c: seq<bool>)
    requires a + b <= a + c
    ensures b <= c
  {
    forall i | 0 <= i < |b| ensures b[i] == c[i] {
      assert (a + b)[|a| + i] == (a + c)[|a| + i];
    }
  }

  // --- reading ---

  lemma HeaderDecodes(bytes: seq<u8>, vals: seq<nat>, p: nat)
    requires IsFilterOf(bytes, vals, p)
    ensures var header := CompactSize.Encode(|vals|);
      CompactSize.DecodeStream(bytes) == CompactSize.Decoding(Ok(|vals|), bytes[|header|..])
  {
    var header := CompactSize.Encode(|vals|);
    assert bytes == header + bytes[|header|..];
    CompactSize.DecodeEncoded(|vals|, bytes[|header|..]);
  }

  /** The place of a one-pass search in the list it reads: `data` is element j, and
      what the reader still holds begins with the elements after it. */
  ghost predicate At(vals: seq<nat>, j: nat, data: nat, remaining: int, pending: seq<bool>, p: nat) {
    && Hashes(vals) && j < |vals| && data == vals[j] && remaining == |vals| - 1 - j
    && Ascending([vals[j]] + vals[j + 1..])
    && Stream(vals[j + 1..], vals[j], p) <= pending
  }

  /** Decodes the next difference. `last` is the element it is relative to. */
  method NextValue(reader: BitStreamReader, p: u8, last: u64, ghost good: bool, ghost vals: seq<nat>, ghost j: nat)
    returns (r: Result<u64, IoError>)
    requires reader.Valid() && p <= 63 && |reader.Pending()| < 0x1_0000_0000_0000_0000
    requires good ==> Hashes(vals) && j < |vals| && Ascending([last] + vals[j..]) && Stream(vals[j..], last, p) <= reader.Pending()
    modifies reader
    ensures reader.Valid() && (r.Ok? ==> |reader.Pending()| < 0x1_0000_0000_0000_0000)
    ensures good ==> r.Ok? && At(vals, j, r.value, |vals| - 1 - j, reader.Pending(), p)
  {
    hide GolombRice.Code, Bytes, Low, Num;
    ghost var all := reader.Pending();
    var delta := GolombRice.Decode(reader, p);
    if good {
      StreamTail(vals[j..], last);
      assert vals[j..][1..] == vals[j + 1..] && vals[j] in vals;
      var code := GolombRice.Code(vals[j] - last, p);
      var tail := Stream(vals[j + 1..], vals[j], p);
      assert all == code + all[|code|..] && tail <= all[|code|..] by { assert code + tail <= all; }
      GolombRice.DecodeCode(vals[j] - last, p, all[|code|..]);
    }
    match delta
    case Err(e) => r := Err(e);
    case Ok(d) => r := Ok((last + d) % 0x1_0000_0000_0000_0000);
  }

  lemma BelowAll(vals: seq<nat>, j: nat, x: nat)
    requires Hashes(vals) && j < |vals| && x < vals[j]
    ensures forall l :: j <= l < |vals| ==> x < vals[l]
  {
    assert ([0] + vals)[1..] == vals;
    forall l | j <= l < |vals| ensures x < vals[l] { AscendingAt(vals, j, l); }
  }

  datatype Ordering = Equal | Greater | Exhausted

  /** Decodes on until the current value is no longer less than q. */
  method Seek(p: u8, reader: BitStreamReader, q: nat, data0: u64, remaining0: u64, ghost good: bool, ghost vals: seq<nat>, ghost j0: nat)
    returns (r: Result<Ordering, IoError>, data: u64, remaining: u64, ghost j: nat)
    requires reader.Valid() && p <= 63 && |reader.Pending()| < 0x1_0000_0000_0000_0000
    requires good ==> At(vals, j0, data0, remaining0, reader.Pending(), p) && AllBelow(vals, j0, q)
    modifies reader
    ensures reader.Valid() && (r.Ok? ==> |reader.Pending()| < 0x1_0000_0000_0000_0000)
    ensures good ==> r.Ok? && At(vals, j, data, remaining, reader.Pending(), p) && AllBelow(vals, j, q)
    ensures good ==> match r.value
      case Equal => q in vals
      case Greater => q !in vals
      case Exhausted => AllBelow(vals, |vals|, q)
  {
    hide Stream, Hashes;
    data, remaining, j := data0, remaining0, j0;
    while true
      invariant reader.Valid() && |reader.Pending()| < 0x1_0000_0000_0000_0000
      invariant good ==> At(vals, j, data, remaining, reader.Pending(), p) && AllBelow(vals, j, q)
      decreases remaining
    {
      if data == q {
        return Ok(Equal), data, remaining, j;
      } else if data < q {
        if remaining > 0 {
          var next := NextValue(reader, p, data, good, vals, j + 1);
          if next.Err? {
            return next.PropagateFailure(), data, remaining, j;
          }
          data := next.value;
          remaining := remaining - 1;
          j := j + 1;
        } else {
          return Ok(Exhausted), data, remaining, j;
        }
      } else {
        if good { BelowAll(vals, j, q); }
        return Ok(Greater), data, remaining, j;
      }
    }
  }

  ghost predicate AllBelow(vals: seq<nat>, j: nat, q: nat) {
    j <= |vals| && forall l :: 0 <= l < j ==> vals[l] < q
  }

  /** The two-list walk of `MatchAny`: stops at the first value in both. */
  method MergeAny(p: u8, reader: BitStreamReader, n: u64, mapped: seq<nat>, ghost good: bool, ghost vals: seq<nat>)
    returns (r: Result<bool, IoError>)
    requires reader.Valid() && p <= 63 && |reader.Pending()| < 0x1_0000_0000_0000_0000
    requires n > 0 && Ascending(mapped)
    requires good ==> Hashes(vals) && |vals| == n && Stream(vals, 0, p) <= reader.Pending()
    modifies reader
    ensures good ==> r == Ok(exists v :: v in mapped && v in vals)
  {
    hide Stream, Hashes, At;
    assert vals[0..] == vals;
    assert good ==> Ascending([0] + vals) by { HashesAscend(vals); }
    ghost var j := 0;
    var first := NextValue(reader, p, 0, good, vals, j);
    if first.Err? {
      return first.PropagateFailure();
    }
    var data, remaining := first.value, n - 1;
    for i := 0 to |mapped|
      invariant reader.Valid() && |reader.Pending()| < 0x1_0000_0000_0000_0000
      invariant 0 <= remaining < 0x1_0000_0000_0000_0000
      invariant good ==> At(vals, j, data, remaining, reader.Pending(), p)
      invariant good ==> forall k :: 0 <= k < i ==> mapped[k] !in vals
      invariant good ==> i < |mapped| ==> AllBelow(vals, j, mapped[i])
    {
      var found;
      found, data, remaining, j := Seek(p, reader, mapped[i], data, remaining, good, vals, j);
      match found {
        case Err(e) => return Err(e);
        case Ok(Equal) => return Ok(true);
        case Ok(Exhausted) =>
          forall k | i <= k < |mapped| ensures mapped[i] <= mapped[k] { AscendingAt(mapped, i, k); }
          return Ok(false);
        case Ok(Greater) =>
      }
      if i + 1 < |mapped| { AscendingAt(mapped, i, i + 1); }
    }
    r := Ok(false);
  }

  lemma HashesAscend(vals: seq<nat>)
    ensures Hashes(vals) ==> Ascending([0] + vals)
  {}

  /** Some queried element has a hash among `vals`. */
  ghost predicate AnyMapped(filter: GcsFilter, query: seq<seq<u8>>, nm: u64, vals: seq<nat>) {
    exists q :: q in query && MapToRange(filter.hash(q), nm) in vals
  }

  ghost predicate AllMapped(filter: GcsFilter, query: seq<seq<u8>>, nm: u64, vals: seq<nat>) {
    forall q :: q in query ==> MapToRange(filter.hash(q), nm) in vals
  }

  lemma AnyQueried(filter: GcsFilter, query: seq<seq<u8>>, nm: u64, mapped: seq<nat>, vals: seq<nat>)
    requires mapped == Sorted(MapAll(filter, query, nm))
    ensures AnyMapped(filter, query, nm, vals) <==> exists v :: v in mapped && v in vals
  {
    hide MapToRange, MapAll, Sorted;
    Queried(filter, query, nm, mapped);
  }

  lemma AllQueried(filter: GcsFilter, query: seq<seq<u8>>, nm: u64, sorted: seq<nat>, vals: seq<nat>)
    requires sorted == Sorted(MapAll(filter, query, nm))
    ensures AllMapped(filter, query, nm, vals) <==> forall v :: v in Dedup(sorted) ==> v in vals
  {
    hide MapToRange, MapAll, Sorted, Dedup;
    QueriedOnce(filter, query, nm, sorted);
  }

  /** Tells whether any queried element is in the filter. The list `vals` is what the
      caller knows the filter to hold; the guarantee applies whenever that is so. */
  method MatchAny(filter: GcsFilter, m: u64, input: CompactSize.Reader, query: seq<seq<u8>>, ghost vals: seq<nat>)
    returns (r: Result<bool, Error>)
    requires filter.p <= 63 && 8 * |input.data| < 0x1_0000_0000_0000_0000
    modifies input
    ensures CompactSize.DecodeStream(old(input.data)).result.Err? ==>
      r == Err(InvalidCompactSize(CompactSize.DecodeStream(old(input.data)).result.error))
    ensures IsFilterOf(old(input.data), vals, filter.p) && |vals| * m < 0x1_0000_0000_0000_0000 ==>
      r == Ok(AnyMapped(filter, query, |vals| * m, vals))
  {
    hide Stream, Low, Bytes, Hashes, Sorted, Dedup, MapAll, MapToRange, CompactSize.DecodeStream, AnyMapped;
    ghost var good := IsFilterOf(input.data, vals, filter.p) && |vals| * m < 0x1_0000_0000_0000_0000;
    ghost var data := input.data;
    if good { HeaderDecodes(data, vals, filter.p); }
    BytesLength(data);
    var n := CompactSize.DecodeFromRead(input);
    if n.Err? {
      return Err(InvalidCompactSize(n.error));
    }
    var nm := n.value * m % 0x1_0000_0000_0000_0000;
    var mapped := Sorted(MapAll(filter, query, nm));
    SortedAscending(MapAll(filter, query, nm));
    if good { AnyQueried(filter, query, |vals| * m, mapped, vals); }
    if |mapped| == 0 {
      return Ok(false);
    }
    if n.value == 0 {
      return Ok(false);
    }
    var reader := new BitStreamReader(input.data);
    BytesLength(input.data);
    var found := MergeAny(filter.p, reader, n.value, mapped, good, vals);
    match found
    case Ok(b) => r := Ok(b);
    case Err(e) => r := Err(Io(e));
  }

  /** Tells whether every queried element is in the filter. */
  method MatchAll(filter: GcsFilter, m: u64, input: CompactSize.Reader, query: seq<seq<u8>>, ghost vals: seq<nat>)
    returns (r: Result<bool, Error>)
    requires filter.p <= 63 && 8 * |input.data| < 0x1_0000_0000_0000_0000
    modifies input
    ensures CompactSize.DecodeStream(old(input.data)).result.Err? ==>
      r == Err(InvalidCompactSize(CompactSize.DecodeStream(old(input.data)).result.error))
    ensures IsFilterOf(old(input.data), vals, filter.p) && |vals| * m < 0x1_0000_0000_0000_0000 ==>
      r == Ok(AllMapped(filter, query, |vals| * m, vals))
  {
    hide Stream, Low, Bytes, Hashes, Sorted, Dedup, MapAll, MapToRange, CompactSize.DecodeStream, AllMapped;
    ghost var good := IsFilterOf(input.data, vals, filter.p) && |vals| * m < 0x1_0000_0000_0000_0000;
    ghost var data := input.data;
    if good { HeaderDecodes(data, vals, filter.p); }
    BytesLength(data);
    var n := CompactSize.DecodeFromRead(input);
    if n.Err? {
      return Err(InvalidCompactSize(n.error));
    }
    var nm := n.value * m % 0x1_0000_0000_0000_0000;
    var sorted := Sorted(MapAll(filter, query, nm));
    SortedAscending(MapAll(filter, query, nm));
    var mapped := Dedup(sorted);
    DedupStrict(sorted);
    if good { AllQueried(filter, query, |vals| * m, sorted, vals); }
    if |mapped| == 0 {
      return Ok(true);
    }
    if n.value == 0 {
      assert good ==> mapped[0] in mapped && mapped[0] !in vals;
      return Ok(false);
    }
    var reader := new BitStreamReader(input.data);
    BytesLength(input.data);
    var found := MergeAll(filter.p, reader, n.value, mapped, good, vals);
    match found
    case Ok(b) => r := Ok(b);
    case Err(e) => r := Err(Io(e));
  }

  /** The two-list walk of `MatchAll`: stops at the first query that is missing. */
  method MergeAll(p: u8, reader: BitStreamReader, n: u64, mapped: seq<nat>, ghost good: bool, ghost vals: seq<nat>)
    returns (r: Result<bool, IoError>)
    requires reader.Valid() && p <= 63 && |reader.Pending()| < 0x1_0000_0000_0000_0000
    requires n > 0 && StrictlyAscending(mapped)
    requires good ==> Hashes(vals) && |vals| == n && Stream(vals, 0, p) <= reader.Pending()
    modifies reader
    ensures good ==> r == Ok(forall v :: v in mapped ==> v in vals)
  {
    hide Stream, Hashes, At;
    assert vals[0..] == vals;
    assert good ==> Ascending([0] + vals) by { HashesAscend(vals); }
    ghost var j := 0;
    var first := NextValue(reader, p, 0, good, vals, j);
    if first.Err? {
      return first.PropagateFailure();
    }
    var data, remaining := first.value, n - 1;
    for i := 0 to |mapped|
      invariant reader.Valid() && |reader.Pending()| < 0x1_0000_0000_0000_0000
      invariant 0 <= remaining < 0x1_0000_0000_0000_0000
      invariant good ==> At(vals, j, data, remaining, reader.Pending(), p)
      invariant good ==> forall k :: 0 <= k < i ==> mapped[k] in vals
      invariant good ==> i < |mapped| ==> AllBelow(vals, j, mapped[i])
    {
      var found;
      found, data, remaining, j := Seek(p, reader, mapped[i], data, remaining, good, vals, j);
      assert mapped[i] in mapped;
      match found {
        case Err(e) => return Err(e);
        case Ok(Equal) =>
        case Ok(Exhausted) => return Ok(false);
        case Ok(Greater) => return Ok(false);
      }
      if i + 1 < |mapped| { StrictAt(mapped, i); }
    }
    r := Ok(true);
  }

  lemma {:induction false} StrictAt(s: seq<nat>, i: nat)
    requires StrictlyAscending(s) && i + 1 < |s|
    ensures s[i] < s[i + 1]
  {
    if i > 0 { StrictAt(s[1..], i - 1); }
  }

  /** The sorted mapped queries are the mapped queries. */
  lemma Queried(filter: GcsFilter, query: seq<seq<u8>>, nm: u64, mapped: seq<nat>)
    requires mapped == Sorted(MapAll(filter, query, nm))
    ensures forall v :: v in mapped <==> exists q :: q in query && MapToRange(filter.hash(q), nm) == v
  {
    var s := MapAll(filter, query, nm);
    forall v ensures v in mapped <==> exists q :: q in query && MapToRange(filter.hash(q), nm) == v {
      SortedCount(s, v);
      if v in s {
        var k :| 0 <= k < |s| && s[k] == v;
        assert query[k] in query && MapToRange(filter.hash(query[k]), nm) == v;
      }
      if exists q :: q in query && MapToRange(filter.hash(q), nm) == v {
        var q :| q in query && MapToRange(filter.hash(q), nm) == v;
        var k :| 0 <= k < |query| && query[k] == q;
        assert s[k] == v;
      }
    }
  }

  lemma QueriedOnce(filter: GcsFilter, query: seq<seq<u8>>, nm: u64, sorted: seq<nat>)
    requires sorted == Sorted(MapAll(filter, query, nm))
    ensures forall v :: v in Dedup(sorted) <==> exists q :: q in query && MapToRange(filter.hash(q), nm) == v
  {
    Queried(filter, query, nm, sorted);
    forall v ensures v in Dedup(sorted) <==> v in sorted { DedupMember(sorted, v); }
  }

  // --- what a filter answers ---

  /** Any inserted element's hash is in what `Finish` wrote, so a query for it always matches. */
  lemma NoFalseNegative(filter: GcsFilter, elements: set<seq<u8>>, order: seq<seq<u8>>, nm: u64, e: seq<u8>)
    requires Enumerates(order, elements) && e in elements
    ensures MapToRange(filter.hash(e), nm) in Sorted(MapAll(filter, order, nm))
  {
    Queried(filter, order, nm, Sorted(MapAll(filter, order, nm)));
    assert e in order;
  }

  /** What matching against a finished filter answers: whether mapped hashes of queries are among
      the mapped hashes of the elements. In particular every inserted element matches. */
  lemma FilterAnswers(filter: GcsFilter, elements: set<seq<u8>>, order: seq<seq<u8>>, nm: u64, query: seq<seq<u8>>)
    requires Enumerates(order, elements)
    ensures var vals := Sorted(MapAll(filter, order, nm));
      && |vals| == |elements|
      && (AnyMapped(filter, query, nm, vals) <==>
          exists q, e :: q in query && e in elements && MapToRange(filter.hash(q), nm) == MapToRange(filter.hash(e), nm))
      && (AllMapped(filter, query, nm, vals) <==>
          forall q :: q in query ==>
            exists e :: e in elements && MapToRange(filter.hash(q), nm) == MapToRange(filter.hash(e), nm))
      && ((exists q :: q in query && q in elements) ==> AnyMapped(filter, query, nm, vals))
      && ((forall q :: q in query ==> q in elements) ==> AllMapped(filter, query, nm, vals))
  {
    hide MapToRange, MapAll, Sorted;
    var vals := Sorted(MapAll(filter, order, nm));
    Queried(filter, order, nm, vals);
    forall v ensures v in vals <==> exists e :: e in elements && MapToRange(filter.hash(e), nm) == v {
      assert forall e :: e in order <==> e in elements;
    }
  }

  /** The filter does not depend on the order in which the set delivers its elements. */
  lemma OrderIrrelevant(filter: GcsFilter, elements: set<seq<u8>>, a: seq<seq<u8>>, b: seq<seq<u8>>, nm: u64)
    requires Enumerates(a, elements) && Enumerates(b, elements)
    ensures Sorted(MapAll(filter, a, nm)) == Sorted(MapAll(filter, b, nm))
  {
    var s, t := MapAll(filter, a, nm), MapAll(filter, b, nm);
    forall v ensures Count(Sorted(s), v) == Count(Sorted(t), v) {
      SortedCount(s, v);
      SortedCount(t, v);
      CountByElements(filter, a, elements, nm, v);
      CountByElements(filter, b, elements, nm, v);
    }
    SortedAscending(s);
    SortedAscending(t);
    AscendingUnique(Sorted(s), Sorted(t));
  }

  /** How often a value occurs is the number of elements mapped to it. */
  lemma {:induction false} CountByElements(filter: GcsFilter, order: seq<seq<u8>>, s: set<seq<u8>>, nm: u64, v: nat)
    requires Enumerates(order, s)
    ensures Count(MapAll(filter, order, nm), v) == |Hits(filter, s, nm, v)|
  {
    hide MapToRange;
    if order == [] {
      assert s == {};
      assert Hits(filter, s, nm, v) == {};
    } else {
      var rest := order[1..];
      assert order == [order[0]] + rest;
      EnumeratesTail(order, s);
      CountByElements(filter, rest, s - {order[0]}, nm, v);
      HitsWithout(filter, s, nm, v, order[0]);
    }
  }

  ghost function Hits(filter: GcsFilter, s: set<seq<u8>>, nm: u64, v: nat): set<seq<u8>> {
    set e | e in s && MapToRange(filter.hash(e), nm) == v
  }

  lemma HitsWithout(filter: GcsFilter, s: set<seq<u8>>, nm: u64, v: nat, e: seq<u8>)
    requires e in s
    ensures |Hits(filter, s, nm, v)|
         == |Hits(filter, s - {e}, nm, v)| + (if MapToRange(filter.hash(e), nm) == v then 1 else 0)
  {
    hide MapToRange;
    var tail := Hits(filter, s - {e}, nm, v);
    assert Hits(filter, s, nm, v) == if MapToRange(filter.hash(e), nm) == v then tail + {e} else tail;
  }

  lemma EnumeratesTail(order: seq<seq<u8>>, s: set<seq<u8>>)
    requires Enumerates(order, s) && order != []
    ensures Enumerates(order[1..], s - {order[0]})
  {
    var e0, rest := order[0], order[1..];
    assert order == [e0] + rest;
    if e0 in rest {
      var all := set e | e in rest;
      assert all == s;
      SeqSetSize(rest);
    }
  }

  lemma {:induction false} SeqSetSize(s: seq<seq<u8>>)
    ensures |set e | e in s| <= |s|
  {
    if s != [] {
      SeqSetSize(s[1..]);
      assert s == [s[0]] + s[1..];
      assert (set e | e in s) == (set e | e in s[1..]) + {s[0]};
    } else {
      assert (set e | e in s) == {};
    }
  }
}
