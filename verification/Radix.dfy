/** Numbers written in a radix of at most 256, and conversion between radixes that keeps leading zeros. */
module Radix {
  import opened Words

  predicate AllBelow(base: nat, s: seq<u8>) { forall k :: 0 <= k < |s| ==> s[k] < base }

  predicate Canonical(s: seq<u8>) { s == [] || s[0] != 0 }

  /** The number that big-endian digits stand for. */
  function BeNum(base: nat, s: seq<u8>): nat {
    if s == [] then 0 else Mul(base, BeNum(base, s[..|s| - 1])) + s[|s| - 1]
  }

  function LeNum(base: nat, s: seq<u8>): nat {
    if s == [] then 0 else s[0] + Mul(base, LeNum(base, s[1..]))
  }

  /** Big-endian digits without leading zeros; none for zero. */
  function BeDigits(base: nat, v: nat): seq<u8>
    requires 2 <= base <= 256
  {
    if v == 0 then [] else BeDigits(base, v / base) + [v % base]
  }

  function LeDigits(base: nat, v: nat): seq<u8>
    requires 2 <= base <= 256
  {
    if v == 0 then [] else [v % base] + LeDigits(base, v / base)
  }

  function LeadingZeros(s: seq<u8>): (n: nat)
    ensures n <= |s| && s[..n] == ZeroBytes(n) && Canonical(s[n..])
  {
    if s == [] || s[0] != 0 then 0
    else
      var n := 1 + LeadingZeros(s[1..]);
      assert s[n..] == s[1..][n - 1..] && s[..n] == [0] + s[1..][..n - 1];
      n
  }

  lemma ZerosAndRest(s: seq<u8>)
    ensures s == ZeroBytes(LeadingZeros(s)) + s[LeadingZeros(s)..]
  {
    hide ZeroBytes;
    assert s == s[..LeadingZeros(s)] + s[LeadingZeros(s)..];
  }

  function SkipZeros(s: seq<u8>): seq<u8> { s[LeadingZeros(s)..] }

  /** Rewrites digits in another radix, one leading zero for each leading zero. */
  function Convert(from: nat, to: nat, s: seq<u8>): seq<u8>
    requires 2 <= to <= 256
  {
    ZeroBytes(LeadingZeros(s)) + BeDigits(to, BeNum(from, s))
  }

  function Reverse(s: seq<u8>): (r: seq<u8>)
    ensures |r| == |s|
  {
    if s == [] then [] else Reverse(s[1..]) + [s[0]]
  }

  lemma {:induction false} BeDigitsShape(base: nat, v: nat)
    requires 2 <= base <= 256
    ensures AllBelow(base, BeDigits(base, v)) && Canonical(BeDigits(base, v)) && BeNum(base, BeDigits(base, v)) == v
    ensures v > 0 ==> BeDigits(base, v) != []
  {
    if v > 0 {
      BeDigitsShape(base, v / base);
      assert BeDigits(base, v)[..|BeDigits(base, v)| - 1] == BeDigits(base, v / base);
      DivMod(v, base);
    }
  }

  /** Digits without a leading zero are the digits of the number they stand for. */
  lemma {:induction false} CanonicalUnique(base: nat, s: seq<u8>)
    requires 2 <= base <= 256 && AllBelow(base, s) && Canonical(s)
    ensures BeDigits(base, BeNum(base, s)) == s
    ensures s != [] ==> BeNum(base, s) > 0
  {
    if s != [] {
      var c, d := s[..|s| - 1], s[|s| - 1];
      CanonicalUnique(base, c);
      LastDigit(base, BeNum(base, c), d);
      assert s == c + [d];
    }
  }

  lemma LastDigit(base: nat, n: nat, d: nat)
    requires d < base
    ensures (Mul(base, n) + d) / base == n && (Mul(base, n) + d) % base == d
    ensures n > 0 ==> Mul(base, n) > 0
  {
    assert base * n == n * base;
    DivModUnique(Mul(base, n) + d, base, n, d);
    if n > 0 { MulMono(base, 1, n); }
  }

  lemma {:induction false} ZerosValue(base: nat, z: nat, s: seq<u8>)
    ensures BeNum(base, ZeroBytes(z) + s) == BeNum(base, s)
    decreases |s|, z
  {
    if s != [] {
      assert (ZeroBytes(z) + s)[..z + |s| - 1] == ZeroBytes(z) + s[..|s| - 1];
      ZerosValue(base, z, s[..|s| - 1]);
    } else if z > 0 {
      assert (ZeroBytes(z) + s)[..z - 1] == ZeroBytes(z - 1) + s;
      ZerosValue(base, z - 1, s);
    }
  }

  lemma {:induction false} LeadingZerosOf(z: nat, s: seq<u8>)
    requires Canonical(s)
    ensures LeadingZeros(ZeroBytes(z) + s) == z
  {
    if z > 0 {
      assert (ZeroBytes(z) + s)[1..] == ZeroBytes(z - 1) + s;
      LeadingZerosOf(z - 1, s);
    } else {
      assert ZeroBytes(z) + s == s;
    }
  }

  /** Converting there and back is the identity on every digit string. */
  lemma ConvertInverse(a: nat, b: nat, s: seq<u8>)
    requires 2 <= a <= 256 && 2 <= b <= 256 && AllBelow(a, s)
    ensures AllBelow(b, Convert(a, b, s))
    ensures Convert(b, a, Convert(a, b, s)) == s
    ensures LeadingZeros(Convert(a, b, s)) == LeadingZeros(s)
  {
    hide BeDigits, BeNum;
    var z := LeadingZeros(s);
    var t := s[z..];
    assert s == ZeroBytes(z) + t;
    ZerosValue(a, z, t);
    var n := BeNum(a, t);
    BeDigitsShape(b, n);
    ZerosValue(b, z, BeDigits(b, n));
    LeadingZerosOf(z, BeDigits(b, n));
    CanonicalUnique(a, t);
  }

  // --- little-endian digits ---

  lemma {:induction false} LeDigitsReversed(base: nat, v: nat)
    requires 2 <= base <= 256
    ensures Reverse(LeDigits(base, v)) == BeDigits(base, v)
  {
    if v > 0 {
      LeDigitsReversed(base, v / base);
      LeDigitsStep(base, v);
      ReverseCons(v % base, LeDigits(base, v / base));
    }
  }

  lemma LeDigitsStep(base: nat, v: nat)
    requires 2 <= base <= 256 && v > 0
    ensures LeDigits(base, v) == [v % base] + LeDigits(base, v / base)
  {}

  lemma ReverseCons(d: u8, s: seq<u8>)
    ensures Reverse([d] + s) == Reverse(s) + [d]
  {
    assert ([d] + s)[1..] == s;
  }

  lemma {:induction false} ReversedValue(base: nat, s: seq<u8>)
    ensures BeNum(base, Reverse(s)) == LeNum(base, s)
  {
    if s != [] {
      ReversedValue(base, s[1..]);
      assert Reverse(s)[..|s| - 1] == Reverse(s[1..]);
    }
  }

  lemma {:induction false} ReverseAllBelow(base: nat, s: seq<u8>)
    requires AllBelow(base, s)
    ensures AllBelow(base, Reverse(s))
  {
    if s != [] { ReverseAllBelow(base, s[1..]); }
  }

  lemma {:induction false} ReverseAppend(s: seq<u8>, t: seq<u8>)
    ensures Reverse(s + t) == Reverse(t) + Reverse(s)
  {
    if s == [] {
      assert s + t == t;
    } else {
      assert (s + t)[1..] == s[1..] + t;
      ReverseAppend(s[1..], t);
    }
  }

  lemma {:induction false} ReverseZeros(n: nat)
    ensures Reverse(ZeroBytes(n)) == ZeroBytes(n)
  {
    if n > 0 {
      assert ZeroBytes(n)[1..] == ZeroBytes(n - 1);
      ReverseZeros(n - 1);
    }
  }

  lemma AllBelowTail(base: nat, s: seq<u8>, n: nat)
    requires n <= |s| && AllBelow(base, s)
    ensures AllBelow(base, s[n..])
  {}

  /** Dropping the zero top digits of a fixed-width number leaves its digits. */
  lemma StrippedDigits(base: nat, s: seq<u8>)
    requires 2 <= base <= 256 && AllBelow(base, s)
    ensures SkipZeros(Reverse(s)) == BeDigits(base, LeNum(base, s))
  {
    hide BeDigits, BeNum, Reverse, LeNum, AllBelow, ZeroBytes;
    ReverseAllBelow(base, s);
    var r := Reverse(s);
    var z := LeadingZeros(r);
    AllBelowTail(base, r, z);
    ReversedValue(base, s);
    assert r == ZeroBytes(z) + r[z..];
    ZerosValue(base, z, r[z..]);
    CanonicalUnique(base, r[z..]);
  }

  lemma NoDigits(base: nat)
    requires 2 <= base <= 256
    ensures LeDigits(base, 0) == [] == BeDigits(base, 0)
  {}

  lemma DivSmaller(v: nat, base: nat)
    requires v > 0 && base >= 2
    ensures v / base < v
  {
    DivMod(v, base);
    MulMono(v / base, 2, base);
  }

  lemma {:induction false} LeDigitsMono(base: nat, v: nat, w: nat)
    requires 2 <= base <= 256 && v <= w
    ensures |LeDigits(base, v)| <= |LeDigits(base, w)|
    decreases w
  {
    hide LeDigits;
    NoDigits(base);
    if v > 0 {
      DivMono(v, w, base);
      DivSmaller(w, base);
      DivMono(0, v, base);
      LeDigitsMono(base, v / base, w / base);
      LeDigitsStep(base, v);
      LeDigitsStep(base, w);
    }
  }

  /** A number has at most n digits exactly when it is below base^n. */
  lemma {:induction false} DigitCount(base: nat, v: nat, n: nat)
    requires 2 <= base <= 256
    ensures |BeDigits(base, v)| <= n <==> v < Pow(base, n)
  {
    if v > 0 && n > 0 {
      DigitCount(base, v / base, n - 1);
      var p := Pow(base, n - 1);
      DivAtLeast(v, base, p);
      assert p * base == base * p;
    } else if v == 0 {
      PowPos(base, n);
    }
  }

  lemma {:induction false} BeNumBound(base: nat, s: seq<u8>)
    requires AllBelow(base, s)
    ensures BeNum(base, s) < Pow(base, |s|)
  {
    if s != [] {
      var n := BeNum(base, s[..|s| - 1]);
      BeNumBound(base, s[..|s| - 1]);
      MulMono(base, n + 1, Pow(base, |s| - 1));
      assert base * (n + 1) == base * n + base;
    }
  }

  lemma {:induction false} BeNumConcat(base: nat, s: seq<u8>, t: seq<u8>)
    ensures BeNum(base, s + t) == Mul(BeNum(base, s), Pow(base, |t|)) + BeNum(base, t)
  {
    hide BeNum;
    BeNumLast(base, t);
    BeNumLast(base, s + t);
    PowNext(base, if t == [] then 0 else |t| - 1);
    if t == [] {
      assert s + t == s;
    } else {
      var front := t[..|t| - 1];
      BeNumConcat(base, s, front);
      assert (s + t)[..|s + t| - 1] == s + front;
      Shifted(base, BeNum(base, s), Pow(base, |front|), BeNum(base, front));
    }
  }

  lemma BeNumLast(base: nat, s: seq<u8>)
    ensures BeNum(base, s) == if s == [] then 0 else Mul(base, BeNum(base, s[..|s| - 1])) + s[|s| - 1]
  {}

  lemma Shifted(b: nat, x: nat, p: nat, y: nat)
    ensures Mul(b, Mul(x, p) + y) == Mul(x, b * p) + Mul(b, y)
  {
    assert b * (x * p + y) == b * (x * p) + b * y;
    assert b * (x * p) == x * (b * p);
  }

  lemma BeDigitsStep(base: nat, v: nat)
    requires 2 <= base <= 256
    ensures BeDigits(base, v) == if v == 0 then [] else BeDigits(base, v / base) + [v % base]
  {}

  lemma LastDropped(e: seq<u8>, x: u8, m: nat)
    requires 0 < m <= |e| + 1
    ensures (e + [x])[..|e| + 1 - m] == e[..|e| - (m - 1)]
  {}

  function Over(v: nat, d: nat): nat
    requires d > 0
  {
    DivMono(0, v, d);
    v / d
  }

  lemma OverTwice(base: nat, v: nat, m: nat)
    requires 2 <= base && m > 0
    ensures Pow(base, m) > 0 && Pow(base, m - 1) > 0
    ensures Over(Over(v, base), Pow(base, m - 1)) == Over(v, Pow(base, m))
  {
    hide Pow;
    PowPos(base, m);
    PowPos(base, m - 1);
    PowNext(base, m - 1);
    DivDiv(v, base, Pow(base, m - 1));
  }

  lemma OverOne(base: nat, v: nat)
    ensures Pow(base, 0) > 0 && Over(v, Pow(base, 0)) == v
  {}

  lemma LastCut(base: nat, v: nat, m: nat)
    requires 2 <= base <= 256 && 0 < m <= |BeDigits(base, v)|
    ensures |BeDigits(base, Over(v, base))| == |BeDigits(base, v)| - 1
    ensures BeDigits(base, v)[..|BeDigits(base, v)| - m]
      == BeDigits(base, Over(v, base))[..|BeDigits(base, Over(v, base))| - (m - 1)]
  {
    hide BeDigits;
    BeDigitsStep(base, v);
    LastDropped(BeDigits(base, v / base), v % base, m);
  }

  /** Cutting off the last m digits divides by base^m. */
  lemma {:induction false} DigitsPrefix(base: nat, v: nat, m: nat)
    requires 2 <= base <= 256 && m <= |BeDigits(base, v)|
    ensures Pow(base, m) > 0
    ensures BeDigits(base, v)[..|BeDigits(base, v)| - m] == BeDigits(base, Over(v, Pow(base, m)))
    decreases m
  {
    hide Pow, BeDigits, Over;
    PowPos(base, m);
    if m == 0 {
      OverOne(base, v);
    } else {
      OverTwice(base, v, m);
      LastCut(base, v, m);
      DigitsPrefix(base, Over(v, base), m - 1);
    }
  }
}
