/** Parsing and printing 256-bit integers in decimal. */
module U256Text {
  import opened Words
  import opened Wrappers
  import opened U256
  import opened U256Arith
  import opened DecimalText

  const POW10_38: u128 := 1_0000_0000_0000_0000_0000_0000_0000_0000_0000_00

  lemma Pow10Values()
    ensures Pow(10, 38) == POW10_38 && B256 <= Pow(10, 78)
  {
    hide Pow;
    Pow10Of2();
    PowAdd(10, 2, 2);
    PowAdd(10, 4, 4);
    PowAdd(10, 8, 8);
    PowAdd(10, 16, 16);
    PowAdd(10, 32, 4);
    PowAdd(10, 36, 2);
    PowAdd(10, 38, 38);
    PowAdd(10, 76, 2);
  }

  lemma Pow10Of2()
    ensures Pow(10, 2) == 100
  {}

  // --- parsing ---

  datatype ParseU256Error = Overflow | Empty | Invalid

  /** Parses one chunk of at most 38 bytes, digit by digit. */
  method ParseChunk(c: seq<u8>) returns (r: Option<u128>)
    requires 0 < |c| <= 38
    ensures r == if ParsesUnsigned(c) then Some(DecNat(c)) else None
  {
    if c == [PLUS] { return None; }
    var start := if c[0] == PLUS then 1 else 0;
    var val: nat := 0;
    assert c[..1] == [c[0]] && c[..0] == [];
    for k := start to |c|
      invariant val == DecNat(c[..k])
      invariant forall j :: start <= j < k ==> IsDigit(c[j])
    {
      if !IsDigit(c[k]) { return None; }
      assert c[..k + 1][..k] == c[..k];
      val := 10 * val + DigitOf(c[k]);
    }
    assert c[..|c|] == c;
    ChunkFits(c);
    return Some(val);
  }

  lemma ChunkFits(c: seq<u8>)
    requires |c| <= 38
    ensures DecNat(c) < POW10_38
  {
    DecNatBound(c);
    PowMono(10, |c|, 38);
    Pow10Values();
  }

  /** Where the chunk that starts at `pos` ends: chunks are 38 bytes counted from the end. */
  function ChunkEnd(len: nat, pos: nat): (e: nat)
    requires pos < len
    ensures pos < e <= len && e - pos <= 38 && (len - e) % 38 == 0
    ensures (len - pos) % 38 == 0 ==> e == pos + 38
  {
    if (len - pos) % 38 == 0 then pos + 38 else pos + (len - pos) % 38
  }

  /** Where the first chunk that does not parse starts, or the end. */
  function GoodEnd(s: seq<u8>, pos: nat): (e: nat)
    requires pos <= |s|
    ensures pos <= e <= |s|
    decreases |s| - pos
  {
    if pos < |s| && ParsesUnsigned(s[pos..ChunkEnd(|s|, pos)]) then GoodEnd(s, ChunkEnd(|s|, pos)) else pos
  }

  /** The number before the first bad chunk is judged first, then the chunk. */
  function Parsed(s: seq<u8>): Result<U256, ParseU256Error> {
    if s == [] then Err(Empty)
    else
      var e := GoodEnd(s, 0);
      var v := DecNat(s[..e]);
      if v >= B256 then Err(Overflow) else if e < |s| then Err(Invalid) else Ok(FromNat(v))
  }

  method FromStr(s: seq<u8>) returns (r: Result<U256, ParseU256Error>)
    ensures r == Parsed(s)
  {
    hide DecNat, ParsesUnsigned, Val, Pow;
    var result := ZERO;
    if s == [] { return Err(Empty); }
    var pos := 0;
    ZeroValue();
    NoDigits(s[..0]);
    while pos < |s|
      invariant pos <= |s|
      invariant GoodEnd(s, pos) == GoodEnd(s, 0)
      invariant Val(result) == DecNat(s[..pos])
      invariant pos == 0 || (|s| - pos) % 38 == 0
      decreases |s| - pos
    {
      var end := ChunkEnd(|s|, pos);
      var val := ParseChunk(s[pos..end]);
      if val.None? {
        ValBound(result);
        return Err(Invalid);
      }
      ghost var before := Val(result);
      var res, carry1 := OverflowingMul(result, U256(0, POW10_38));
      PrefixGrows(s, pos, end);
      PrefixGrows(s, end, GoodEnd(s, 0));
      OverflowingAddCorrect(res, U256(0, val.value));
      WordValue(val.value);
      ChunkAdded(before, Val(res), val.value, Val(OverflowingAdd(res, U256(0, val.value)).0));
      var (sum, carry2) := OverflowingAdd(res, U256(0, val.value));
      if carry1 || carry2 { return Err(Overflow); }
      result := sum;
      pos := end;
    }
    assert s[..pos] == s;
    ValBound(result);
    ValInjective(result, FromNat(Val(result)));
    return Ok(result);
  }

  lemma NoDigits(s: seq<u8>)
    requires s == []
    ensures DecNat(s) == 0
  {}

  lemma ChunkAdded(before: nat, product: nat, val: u128, sum: nat)
    requires product == before * Val(U256(0, POW10_38)) % B256
    requires sum == product + val || sum + B256 == product + val
    ensures before * Val(U256(0, POW10_38)) == Mul(before, POW10_38)
    ensures before * POW10_38 < B256 ==> product == before * POW10_38
  {}

  lemma PrefixGrows(s: seq<u8>, pos: nat, end: nat)
    requires pos <= end <= |s|
    ensures DecNat(s[..end]) == Mul(DecNat(s[..pos]), Pow(10, end - pos)) + DecNat(s[pos..end])
    ensures DecNat(s[..pos]) <= DecNat(s[..end])
    ensures end == pos + 38 ==> Pow(10, end - pos) == POW10_38
  {
    assert s[..end] == s[..pos] + s[pos..end];
    DecNatConcat(s[..pos], s[pos..end]);
    PowPos(10, end - pos);
    MulMono(DecNat(s[..pos]), 1, Pow(10, end - pos));
    Pow10Values();
  }

  /** A non-empty digit string fails exactly when the number needs more than 256 bits. */
  lemma ParseDigits(s: seq<u8>)
    requires s != [] && AllDigits(s)
    ensures Parsed(s) == if DecNat(s) >= B256 then Err(Overflow) else Ok(FromNat(DecNat(s)))
  {
    DigitsParse(s, 0);
    assert s[..|s|] == s;
  }

  lemma {:induction false} DigitsParse(s: seq<u8>, pos: nat)
    requires pos <= |s| && AllDigits(s)
    ensures GoodEnd(s, pos) == |s|
    decreases |s| - pos
  {
    if pos < |s| { DigitsParse(s, ChunkEnd(|s|, pos)); }
  }

  /** A place where a chunk starts. */
  predicate ChunkStart(len: nat, k: nat) { k == 0 || (k <= len && (len - k) % 38 == 0) }

  predicate ByteAccepted(s: seq<u8>, k: nat)
    requires k < |s|
  {
    IsDigit(s[k]) || (s[k] == PLUS && ChunkStart(|s|, k) && k + 1 < |s| && !ChunkStart(|s|, k + 1))
  }

  /** Exactly which strings parse: besides digits, a plus sign may open any chunk of 38. */
  lemma AcceptedStrings(s: seq<u8>)
    ensures Parsed(s).Ok? <==> s != [] && DecNat(s) < B256 && forall k :: 0 <= k < |s| ==> ByteAccepted(s, k)
    ensures Parsed(s).Ok? ==> Val(Parsed(s).value) == DecNat(s)
  {
    AcceptedFrom(s, 0);
    assert s[..|s|] == s;
  }

  lemma {:induction false} AcceptedFrom(s: seq<u8>, pos: nat)
    requires pos <= |s| && ChunkStart(|s|, pos)
    ensures GoodEnd(s, pos) == |s| <==> forall k :: pos <= k < |s| ==> ByteAccepted(s, k)
    decreases |s| - pos
  {
    if pos < |s| {
      var end := ChunkEnd(|s|, pos);
      AcceptedFrom(s, end);
      ChunkAccepted(s, pos, end);
      if ParsesUnsigned(s[pos..end]) {
        assert GoodEnd(s, pos) == GoodEnd(s, end);
      }
    }
  }

  lemma ChunkAccepted(s: seq<u8>, pos: nat, end: nat)
    requires pos < |s| && ChunkStart(|s|, pos) && end == ChunkEnd(|s|, pos)
    ensures ParsesUnsigned(s[pos..end]) <==> forall k :: pos <= k < end ==> ByteAccepted(s, k)
  {
    var c := s[pos..end];
    forall k | pos < k < end ensures !ChunkStart(|s|, k) { InsideChunk(|s|, pos, end, k); }
    assert ChunkStart(|s|, end);
    forall k | pos <= k < end ensures c[k - pos] == s[k] {}
    if ParsesUnsigned(c) {
      forall k | pos <= k < end ensures ByteAccepted(s, k) {
        if k > pos { assert c[1..][k - pos - 1] == s[k]; }
      }
    } else if forall k :: pos <= k < end ==> ByteAccepted(s, k) {
      assert ByteAccepted(s, pos);
      forall j | 0 <= j < |c| - 1 ensures IsDigit(c[1..][j]) { assert ByteAccepted(s, pos + 1 + j); }
    }
  }

  lemma InsideChunk(len: nat, pos: nat, end: nat, k: nat)
    requires pos < len && ChunkStart(len, pos) && end == ChunkEnd(len, pos) && pos < k < end
    ensures !ChunkStart(len, k)
  {}

  lemma SameAsZero(a: u8)
    ensures DecNat([a, PLUS]) == DecNat([a, 0x30])
  {
    assert [a, PLUS][..1] == [a] == [a, 0x30][..1];
  }

  /** A plus sign in the middle of the text is read as a zero. */
  lemma PlusInside(a: u8, b: seq<u8>)
    requires IsDigit(a) && |b| == 37 && AllDigits(b)
    ensures Parsed([a, PLUS] + b).Ok? && Val(Parsed([a, PLUS] + b).value) == DecNat([a, 0x30] + b)
  {
    hide DecNat, Pow;
    var s := [a, PLUS] + b;
    forall k | 0 <= k < |s| ensures ByteAccepted(s, k) {}
    AcceptedStrings(s);
    assert s[..|s|] == s;
    DecNatConcat([a, PLUS], b);
    DecNatConcat([a, 0x30], b);
    SameAsZero(a);
    DecNatBound(s);
    PowNext(10, 38);
    Pow10Values();
  }

  // --- printing ---

  /** Writes the digits backwards into a fixed buffer, which never runs out. */
  method FmtDecimal(x: U256) returns (text: seq<u8>)
    requires Val(x) != 0
    ensures text == Decimal(Val(x))
  {
    hide Pow, Decimal, Val, IsZero, Mul;
    var buf := new u8[78](_ => 0);
    var i := 77;
    var cur := x;
    TenValue();
    DecimalFits(x);
    assert buf[78..] == [];
    while true
      invariant 0 <= i < 78 && buf.Length == 78
      invariant Val(cur) != 0
      invariant Decimal(Val(x)) == Decimal(Val(cur)) + buf[i + 1..]
      decreases i
    {
      var next, rest := DivRem(cur, U256(0, 10));
      NextDigit(Val(cur), Val(next), rest);
      ghost var after := buf[i + 1..];
      var digit: u8 := rest.lo % 0x100;
      buf[i] := digit + 0x30;
      assert buf[i..] == [digit + 0x30] + after;
      cur := next;
      if IsZero(cur) {
        ZeroIff(cur);
        break;
      }
      ZeroIff(cur);
      DecimalNonEmpty(Val(cur));
      i := i - 1;
    }
    return buf[i..];
  }

  lemma TenValue()
    ensures Val(U256(0, 10)) == 10
  {}

  lemma ZeroIff(x: U256)
    ensures IsZero(x) <==> Val(x) == 0
  {}

  lemma DecimalFits(x: U256)
    ensures |Decimal(Val(x))| <= 78
  {
    ValBound(x);
    Pow10Values();
    DecimalLength(Val(x), 78);
  }

  lemma DecimalNonEmpty(v: nat)
    ensures |Decimal(v)| > 0
  {}

  lemma NextDigit(cur: nat, next: nat, rest: U256)
    requires cur == next * 10 + Val(rest) && Val(rest) < 10
    ensures rest.lo == Val(rest)
    ensures Decimal(cur) == if next == 0 then [rest.lo + 0x30] else Decimal(next) + [rest.lo + 0x30]
  {}

  lemma DecimalZero()
    ensures Decimal(0) == [0x30]
  {}

  method Display(x: U256) returns (text: seq<u8>)
    ensures text == Decimal(Val(x))
  {
    hide Val, Decimal;
    ZeroIff(x);
    DecimalZero();
    if IsZero(x) {
      text := [0x30];
    } else {
      text := FmtDecimal(x);
    }
  }

  /** Parsing what was printed gives the number back. */
  lemma ParseOfDisplay(x: U256)
    ensures Parsed(Decimal(Val(x))) == Ok(x)
  {
    DecNatOfDecimal(Val(x));
    ParseDigits(Decimal(Val(x)));
    ValBound(x);
    ValInjective(x, FromNat(Val(x)));
  }
}
