/** The text of child numbers and derivation paths. Text is a sequence of bytes. */
module Bip32Path {
  import opened Words
  import opened Wrappers
  import opened DecimalText
  import opened Bip32

  const SLASH: u8 := 0x2f
  const MASTER: u8 := 0x6d
  const APOSTROPHE: u8 := 0x27
  const LETTER_H: u8 := 0x68

  datatype ParseError =
    | ParseInt
    | ChildOutOfRange(index: u32)
    | EmptyChild
    | UnexpectedMasterPrefix
    | MissingMasterPrefix

  // --- printing ---

  function Suffix(alternate: bool): u8 { if alternate then LETTER_H else APOSTROPHE }

  function PrintChild(c: ChildNumber, alternate: bool): seq<u8> {
    if c.IsHardened() then Decimal(c.Index()) + [Suffix(alternate)] else Decimal(c.Index())
  }

  function Printed(path: Path, alternate: bool): seq<u8> {
    if path == [] then []
    else if |path| == 1 then PrintChild(path[0], alternate)
    else Printed(path[..|path| - 1], alternate) + [SLASH] + PrintChild(path[|path| - 1], alternate)
  }

  method PrintRelative(path: Path, alternate: bool) returns (text: seq<u8>)
    ensures text == Printed(path, alternate)
  {
    hide PrintChild;
    if path == [] { return []; }
    text := PrintChild(path[0], alternate);
    for i := 1 to |path|
      invariant text == Printed(path[..i], alternate)
    {
      assert path[..i + 1][..i] == path[..i];
      text := text + [SLASH];
      text := text + PrintChild(path[i], alternate);
    }
    assert path[..|path|] == path;
  }

  function PrintedAbsolute(path: Path, alternate: bool): seq<u8> {
    if path == [] then [MASTER] else [MASTER, SLASH] + Printed(path, alternate)
  }

  method PrintAbsolute(path: Path, alternate: bool) returns (text: seq<u8>)
    ensures text == PrintedAbsolute(path, alternate)
  {
    text := [MASTER];
    if path != [] {
      text := text + [SLASH];
      var rest := PrintRelative(path, alternate);
      text := text + rest;
      assert [MASTER] + [SLASH] == [MASTER, SLASH];
    }
  }

  // --- parsing ---

  function ParseU32(s: seq<u8>): Result<u32, ParseError> {
    if ParsesUnsigned(s) && DecNat(s) < 0x1_0000_0000 then Ok(DecNat(s)) else Err(ParseInt)
  }

  function Ranged(r: Result<ChildNumber, IndexOutOfRange>): Result<ChildNumber, ParseError> {
    match r
    case Err(e) => Err(ChildOutOfRange(e.index))
    case Ok(c) => Ok(c)
  }

  predicate HasSuffix(s: seq<u8>) { s != [] && (s[|s| - 1] == APOSTROPHE || s[|s| - 1] == LETTER_H) }

  function ParseChild(s: seq<u8>): Result<ChildNumber, ParseError> {
    var index :- ParseU32(if HasSuffix(s) then s[..|s| - 1] else s);
    Ranged(if HasSuffix(s) then ChildNumber.FromHardenedIdx(index) else ChildNumber.FromNormalIdx(index))
  }

  /** The end of the part that starts at `from`: the next slash or the end. */
  function PartEnd(s: seq<u8>, from: nat): (e: nat)
    requires from <= |s|
    ensures from <= e <= |s| && (e < |s| ==> s[e] == SLASH) && SLASH !in s[from..e]
    decreases |s| - from
  {
    if from == |s| || s[from] == SLASH then from
    else
      var e := PartEnd(s, from + 1);
      assert s[from..e] == [s[from]] + s[from + 1..e];
      e
  }

  /** The children in the parts from `from` on, or the first error. */
  function ParsedParts(s: seq<u8>, from: nat): Result<Path, ParseError>
    requires from <= |s|
    decreases |s| - from
  {
    var end := PartEnd(s, from);
    if end == from then Err(EmptyChild)
    else
      match ParseChild(s[from..end])
      case Err(e) => Err(e)
      case Ok(c) =>
        if end == |s| then Ok([c])
        else
          match ParsedParts(s, end + 1)
          case Err(e) => Err(e)
          case Ok(rest) => Ok([c] + rest)
  }

  function After(done: Path, rest: Result<Path, ParseError>): Result<Path, ParseError> {
    match rest
    case Err(e) => Err(e)
    case Ok(more) => Ok(done + more)
  }

  /** Parses every part of `s` from `start` on, split at slashes. */
  method ParseParts(s: seq<u8>, start: nat) returns (r: Result<Path, ParseError>)
    requires start <= |s|
    ensures r == ParsedParts(s, start)
  {
    hide ParseChild;
    var ret: Path, from := [], start;
    NothingBefore(ParsedParts(s, start));
    while true
      invariant start <= from <= |s|
      invariant After(ret, ParsedParts(s, from)) == ParsedParts(s, start)
      decreases |s| - from
    {
      var end := PartEnd(s, from);
      if end == from { return Err(EmptyChild); }
      var child := ParseChild(s[from..end]);
      if child.Err? { return Err(child.error); }
      if end < |s| { OnePart(ret, child.value, ParsedParts(s, end + 1)); }
      ret := ret + [child.value];
      if end == |s| { break; }
      from := end + 1;
    }
    return Ok(ret);
  }

  lemma NothingBefore(r: Result<Path, ParseError>)
    ensures After([], r) == r
  {
    if r.Ok? { assert [] + r.value == r.value; }
  }

  lemma OnePart(done: Path, c: ChildNumber, rest: Result<Path, ParseError>)
    ensures After(done, After([c], rest)) == After(done + [c], rest)
  {
    if rest.Ok? { assert done + ([c] + rest.value) == done + [c] + rest.value; }
  }

  predicate StartsWithMaster(s: seq<u8>) { |s| >= 2 && s[0] == MASTER && s[1] == SLASH }

  function ParsedRelative(s: seq<u8>): Result<Path, ParseError> {
    if s == [] then Ok([])
    else if s == [MASTER] || StartsWithMaster(s) then Err(UnexpectedMasterPrefix)
    else ParsedParts(s, 0)
  }

  function ParsedAbsolute(s: seq<u8>): Result<Path, ParseError> {
    if s == [MASTER] then Ok([])
    else if !StartsWithMaster(s) then Err(MissingMasterPrefix)
    else if |s| == 2 then Err(EmptyChild)
    else ParsedParts(s, 2)
  }

  method ParseRelative(s: seq<u8>) returns (r: Result<Path, ParseError>)
    ensures r == ParsedRelative(s)
  {
    if s == [] { return Ok([]); }
    if s == [MASTER] || StartsWithMaster(s) { return Err(UnexpectedMasterPrefix); }
    r := ParseParts(s, 0);
  }

  method ParseAbsolute(s: seq<u8>) returns (r: Result<Path, ParseError>)
    ensures r == ParsedAbsolute(s)
  {
    if s == [MASTER] { return Ok([]); }
    if !StartsWithMaster(s) { return Err(MissingMasterPrefix); }
    if |s| == 2 { return Err(EmptyChild); }
    r := ParseParts(s, 2);
  }

  // --- round trips ---

  lemma ChildRoundTrip(c: ChildNumber, alternate: bool)
    ensures ParseChild(PrintChild(c, alternate)) == Ok(c)
    ensures PrintChild(c, alternate) != [] && SLASH !in PrintChild(c, alternate)
    ensures IsDigit(PrintChild(c, alternate)[0])
  {
    hide And, Or, DecNat, Decimal;
    ChildBits(c.raw);
    var digits, text := Decimal(c.Index()), PrintChild(c, alternate);
    DecNatOfDecimal(c.Index());
    assert IsDigit(digits[|digits| - 1]);
    forall b | b in digits ensures b != SLASH {
      var k :| 0 <= k < |digits| && digits[k] == b;
      assert IsDigit(digits[k]);
    }
    if c.IsHardened() {
      assert text[..|text| - 1] == digits;
      FlagBits(c.raw % 0x8000_0000);
    }
  }

  lemma {:induction false} PartEndOf(s: seq<u8>, from: nat, part: seq<u8>)
    requires from + |part| <= |s| && s[from..from + |part|] == part && SLASH !in part
    requires from + |part| < |s| ==> s[from + |part|] == SLASH
    ensures PartEnd(s, from) == from + |part|
    decreases |part|
  {
    if part != [] {
      assert s[from] == part[0] && part[0] in part;
      assert s[from + 1..from + 1 + |part[1..]|] == s[from..from + |part|][1..] == part[1..];
      PartEndOf(s, from + 1, part[1..]);
    }
  }

  lemma FirstPart(s: seq<u8>, from: nat)
    requires from <= |s|
    ensures var end, r := PartEnd(s, from), ParsedParts(s, from);
      if end == from then r == Err(EmptyChild)
      else if ParseChild(s[from..end]).Err? then r == Err(ParseChild(s[from..end]).error)
      else if end == |s| then r == Ok([ParseChild(s[from..end]).value])
      else r == After([ParseChild(s[from..end]).value], ParsedParts(s, end + 1))
  {
    hide ParseChild;
  }

  /** A last part after a slash is parsed as one more child. */
  lemma {:induction false} PartsAppend(s: seq<u8>, from: nat, part: seq<u8>, c: ChildNumber)
    requires from <= |s| && part != [] && SLASH !in part && ParseChild(part) == Ok(c) && ParsedParts(s, from).Ok?
    ensures ParsedParts(s + [SLASH] + part, from) == Ok(ParsedParts(s, from).value + [c])
    decreases |s| - from
  {
    hide ParseChild, ParsedParts;
    var t, end := s + [SLASH] + part, PartEnd(s, from);
    FirstPart(s, from);
    FirstPart(t, from);
    FirstPart(t, |s| + 1);
    assert t[from..end] == s[from..end];
    PartEndOf(t, from, s[from..end]);
    var first := ParseChild(s[from..end]).value;
    if end == |s| {
      assert t[end + 1..end + 1 + |part|] == part;
      PartEndOf(t, end + 1, part);
      assert ParsedParts(t, end + 1) == Ok([c]);
      assert ParsedParts(s, from) == Ok([first]);
      assert [first] + [c] == [first, c];
    } else {
      PartsAppend(s, end + 1, part, c);
      var rest := ParsedParts(s, end + 1).value;
      assert ParsedParts(s, from) == Ok([first] + rest);
      assert [first] + (rest + [c]) == [first] + rest + [c];
    }
  }

  lemma PrintedLast(path: Path, alternate: bool)
    requires path != []
    ensures var part := PrintChild(path[|path| - 1], alternate);
      Printed(path, alternate) ==
        if |path| == 1 then part else Printed(path[..|path| - 1], alternate) + [SLASH] + part
  {
    hide PrintChild;
  }

  lemma OnlyPart(prefix: seq<u8>, part: seq<u8>, c: ChildNumber)
    requires part != [] && SLASH !in part && ParseChild(part) == Ok(c)
    ensures ParsedParts(prefix + part, |prefix|) == Ok([c])
  {
    hide ParseChild;
    var s := prefix + part;
    assert s[|prefix|..|prefix| + |part|] == part;
    PartEndOf(s, |prefix|, part);
  }

  lemma {:induction false} PartsRoundTrip(prefix: seq<u8>, path: Path, alternate: bool)
    requires path != []
    ensures ParsedParts(prefix + Printed(path, alternate), |prefix|) == Ok(path)
    ensures Printed(path, alternate) != [] && IsDigit(Printed(path, alternate)[0])
    decreases |path|
  {
    hide ParseChild, PrintChild, ParsedParts, Printed;
    var last := path[|path| - 1];
    var part := PrintChild(last, alternate);
    ChildRoundTrip(last, alternate);
    PrintedLast(path, alternate);
    if |path| == 1 {
      OnlyPart(prefix, part, last);
      assert path == [last];
    } else {
      var front := path[..|path| - 1];
      PartsRoundTrip(prefix, front, alternate);
      PartsAppend(prefix + Printed(front, alternate), |prefix|, part, last);
      assert prefix + (Printed(front, alternate) + [SLASH] + part) == prefix + Printed(front, alternate) + [SLASH] + part;
      assert path == front + [last];
    }
  }

  lemma NothingPrinted(alternate: bool)
    ensures Printed([], alternate) == []
  {}

  /** Parsing a printed path gives the path back, with either suffix, relative or absolute. */
  lemma PathRoundTrip(path: Path, alternate: bool)
    ensures ParsedRelative(Printed(path, alternate)) == Ok(path)
    ensures ParsedAbsolute(PrintedAbsolute(path, alternate)) == Ok(path)
  {
    hide Printed, ParsedParts;
    NothingPrinted(alternate);
    if path != [] {
      PartsRoundTrip([], path, alternate);
      assert [] + Printed(path, alternate) == Printed(path, alternate);
      PartsRoundTrip([MASTER, SLASH], path, alternate);
    }
  }

  /** What the letter m does at the front: alone or before a slash it is refused in relative paths and
      needed in absolute ones, where something must follow the slash. */
  lemma MasterPrefix(s: seq<u8>)
    ensures var alone := |s| == 1 && s[0] as char == 'm';
      var prefixed := |s| >= 2 && s[0] as char == 'm' && s[1] as char == '/';
      && (alone || prefixed ==> ParsedRelative(s) == Err(UnexpectedMasterPrefix))
      && (!alone && !prefixed ==> ParsedAbsolute(s) == Err(MissingMasterPrefix))
      && (alone ==> ParsedAbsolute(s) == Ok([]))
      && (prefixed && |s| == 2 ==> ParsedAbsolute(s) == Err(EmptyChild))
      && (prefixed && |s| > 2 ==>
          ParsedAbsolute(s) == if s[2] as char == '/' then Err(EmptyChild) else ParsedParts(s, 2))
  {
    hide ParseChild;
  }

  /** No text is both a relative and an absolute path. */
  lemma RelativeOrAbsolute(s: seq<u8>)
    ensures !(ParsedRelative(s).Ok? && ParsedAbsolute(s).Ok?)
  {}

  /** Exactly which text is a child number, and which one: an unsigned number below 2^31, with 2^31
      added to it when an apostrophe or the letter h follows. */
  lemma ChildAccepted(s: seq<u8>)
    ensures var hardened := s != [] && (s[|s| - 1] as char == '\'' || s[|s| - 1] as char == 'h');
      var body := if hardened then s[..|s| - 1] else s;
      && (ParseChild(s).Ok? <==> ParsesUnsigned(body) && DecNat(body) < 0x8000_0000)
      && (ParseChild(s).Ok? ==> ParseChild(s).value.raw == DecNat(body) + (if hardened then 0x8000_0000 else 0))
  {
    hide DecNat, ParsesUnsigned, Or;
    var body := if HasSuffix(s) then s[..|s| - 1] else s;
    if DecNat(body) < 0x8000_0000 { FlagBits(DecNat(body)); }
  }

  /** How a path is written: decimal indices with slashes between them, hardened ones followed by an
      apostrophe or, in the alternate style, by the letter h. Absolute paths start with the letter m. */
  lemma PrintedForm(path: Path, c: ChildNumber, alternate: bool)
    ensures PrintChild(c, alternate) ==
      Decimal(c.raw % 0x8000_0000)
      + (if c.raw < 0x8000_0000 then [] else if alternate then ['h' as int] else ['\'' as int])
    ensures Printed([], alternate) == [] && Printed([c], alternate) == PrintChild(c, alternate)
    ensures path != [] ==>
      Printed(path + [c], alternate) == Printed(path, alternate) + ['/' as int] + PrintChild(c, alternate)
    ensures PrintedAbsolute([], alternate) == ['m' as int]
    ensures path != [] ==> PrintedAbsolute(path, alternate) == ['m' as int, '/' as int] + Printed(path, alternate)
  {
    hide And;
    ChildBits(c.raw);
    assert Decimal(c.raw % 0x8000_0000) + [] == Decimal(c.raw % 0x8000_0000);
    assert (path + [c])[..|path|] == path;
  }

  /** The text between slashes: one part more than there are slashes. */
  function Parts(s: seq<u8>): (r: seq<seq<u8>>)
    ensures |r| > 0
  {
    if s == [] then [[]]
    else
      var rest := Parts(s[1..]);
      if s[0] == SLASH then [[]] + rest else [[s[0]] + rest[0]] + rest[1..]
  }

  lemma PartsStep(s: seq<u8>)
    ensures Parts(s) ==
      if s == [] then [[]]
      else if s[0] == SLASH then [[]] + Parts(s[1..])
      else [[s[0]] + Parts(s[1..])[0]] + Parts(s[1..])[1..]
  {}

  lemma {:induction false} PartsStart(s: seq<u8>, from: nat)
    requires from <= |s|
    ensures var end := PartEnd(s, from);
      Parts(s[from..]) == if end == |s| then [s[from..]] else [s[from..end]] + Parts(s[end + 1..])
    decreases |s| - from
  {
    hide Parts;
    PartsStep(s[from..]);
    if from < |s| {
      assert s[from..][1..] == s[from + 1..];
      if s[from] != SLASH {
        PartsStart(s, from + 1);
        var end := PartEnd(s, from + 1);
        assert s[from..end] == [s[from]] + s[from + 1..end];
        assert s[from..] == [s[from]] + s[from + 1..];
      } else {
        assert s[from..from] == [];
      }
    }
  }

  /** The path is the children in order, one for each part, and there is one exactly when every part
      is a child number. */
  lemma {:induction false} PartsAccepted(s: seq<u8>, from: nat)
    requires from <= |s|
    ensures var parts, r := Parts(s[from..]), ParsedParts(s, from);
      && (r.Ok? <==> forall i :: 0 <= i < |parts| ==> ParseChild(parts[i]).Ok?)
      && (r.Ok? ==> |r.value| == |parts| && forall i :: 0 <= i < |parts| ==> ParseChild(parts[i]) == Ok(r.value[i]))
    decreases |s| - from
  {
    hide ParseChild, Parts, ParsedParts;
    FirstPart(s, from);
    var end, parts := PartEnd(s, from), Parts(s[from..]);
    PartsStart(s, from);
    NoEmptyChild();
    if end == |s| {
      assert s[from..end] == s[from..] == parts[0];
    } else {
      PartsAccepted(s, end + 1);
      var rest := Parts(s[end + 1..]);
      assert parts[0] == s[from..end] && parts[1..] == rest;
      assert forall i :: 0 <= i < |rest| ==> parts[i + 1] == rest[i];
      assert forall i :: 0 < i < |parts| ==> parts[i] == rest[i - 1];
    }
  }

  lemma NoEmptyChild()
    ensures ParseChild([]).Err?
  {}

  /** Exactly which text is a relative path, and which path it is. */
  lemma RelativeAccepted(s: seq<u8>)
    ensures var parts, r := Parts(s), ParsedRelative(s);
      && (r.Ok? <==> s == [] || forall i :: 0 <= i < |parts| ==> ParseChild(parts[i]).Ok?)
      && (r.Ok? && s != [] ==>
          |r.value| == |parts| && forall i :: 0 <= i < |parts| ==> ParseChild(parts[i]) == Ok(r.value[i]))
      && (s == [] ==> r == Ok([]))
  {
    hide Parts, ParsedParts, ParseChild;
    assert s[0..] == s;
    PartsAccepted(s, 0);
    if s == [MASTER] || StartsWithMaster(s) { MasterIsNoChild(s); }
  }

  lemma MasterIsNoChild(s: seq<u8>)
    requires s == [MASTER] || StartsWithMaster(s)
    ensures Parts(s)[0] == [MASTER] && ParseChild(Parts(s)[0]).Err?
  {
    if |s| > 1 {
      assert Parts(s[1..])[0] == [];
    } else {
      assert s[1..] == [];
    }
  }

  // --- the child iterator ---

  class RelativeDerivationPathIterator {
    const base: Path
    var nextChild: Option<ChildNumber>

    constructor (base: Path, start: ChildNumber)
      ensures this.base == base && nextChild == Some(start)
    {
      this.base, nextChild := base, Some(start);
    }

    method Next() returns (r: Option<Path>)
      modifies this
      ensures r == match old(nextChild) { case None => None case Some(c) => Some(base + [c]) }
      ensures nextChild == Advance(old(nextChild))
    {
      if nextChild.None? { return None; }
      var ret := nextChild.value;
      var after := ret.Increment();
      nextChild := if after.Ok? then Some(after.value) else None;
      return Some(base + [ret]);
    }
  }

  function Advance(c: Option<ChildNumber>): Option<ChildNumber> {
    if c.None? || c.value.Increment().Err? then None else Some(c.value.Increment().value)
  }

  function Advanced(c: Option<ChildNumber>, n: nat): Option<ChildNumber> {
    if n == 0 then c else Advance(Advanced(c, n - 1))
  }

  /** The n-th child visited is n past the start, and the run ends after index 2^31 - 1 without
      ever going from normal to hardened numbers. */
  lemma {:induction false} IteratesInOrder(start: ChildNumber, n: nat)
    ensures var c := Advanced(Some(start), n);
      if start.raw % 0x8000_0000 + n < 0x8000_0000
      then c.Some? && c.value.raw == start.raw + n && c.value.IsHardened() == start.IsHardened()
      else c.None?
  {
    hide And, Or;
    if n > 0 {
      IteratesInOrder(start, n - 1);
      var c := Advanced(Some(start), n - 1);
      if c.Some? { IncrementCorrect(c.value); }
    }
  }
}
