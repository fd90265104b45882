/** Machine words as bounded integers, and the bitwise operators on them.

    A value of type `u32` is an integer below 2^32, so every assignment to one is
    a proof that the source's `+`, `-` or `*` did not overflow at that point.
    Shifts are written as multiplication and division by powers of two, truncating
    where the source truncates. */
module Words {
  type u8 = x: int | 0 <= x < 0x100
  type u32 = x: int | 0 <= x < 0x1_0000_0000
  type u64 = x: int | 0 <= x < 0x1_0000_0000_0000_0000
  type u128 = x: int | 0 <= x < 0x1_0000_0000_0000_0000_0000_0000_0000_0000

  function Pow(b: nat, n: nat): nat {
    if n == 0 then 1 else b * Pow(b, n - 1)
  }

  function Pow2(n: nat): nat {
    if n == 0 then 1 else 2 * Pow2(n - 1)
  }

  function Min(a: nat, b: nat): nat { if a <= b then a else b }

  function Max(a: nat, b: nat): nat { if a <= b then b else a }

  function WrappingAdd32(a: int, b: int): u32 { (a + b) % 0x1_0000_0000 }

  function WrappingSub32(a: int, b: int): u32 { (a - b) % 0x1_0000_0000 }

  function SaturatingSub(a: u32, b: u32): u32 { if a <= b then 0 else Difference(a, b) }

  function Difference(a: int, b: int): u32
    requires 0 <= b <= a < 0x1_0000_0000
  {
    a - b
  }

  // --- division ---

  lemma DivModUnique(a: int, b: int, q: int, r: int)
    requires b > 0 && 0 <= r < b && a == q * b + r
    ensures a / b == q && a % b == r
  {
    var d := a / b - q;
    assert a == b * (a / b) + a % b;
    assert b * d == r - a % b by {
      assert b * d == b * (a / b) - b * q;
      assert q * b == b * q;
    }
    if d >= 1 { MulMono(b, 1, d); }
    if d <= -1 { MulMono(b, d, -1); }
  }

  lemma DivMod(a: int, b: int)
    requires b > 0
    ensures a == b * (a / b) + a % b
    ensures a == a / b * b + a % b
  {}

  function Mul(a: nat, b: nat): nat {
    MulMono(a, 0, b);
    a * b
  }

  lemma MulMono(k: int, a: int, b: int)
    requires k >= 0 && a <= b
    ensures k * a <= k * b
  {
    assert k * (b - a) >= 0;
  }

  /** Dividing twice is dividing by the product. */
  lemma DivDiv(a: nat, b: nat, c: nat)
    requires b > 0 && c > 0
    ensures b * c > 0 && (a / b) / c == a / (b * c)
    ensures a % (b * c) == a % b + b * ((a / b) % c)
  {
    var q, r := a / b, a % b;
    var q2, r2 := q / c, q % c;
    assert b * c > 0 by { MulMono(b, 1, c); }
    assert a == q2 * (b * c) + (b * r2 + r) by {
      assert a == b * q + r;
      assert q == c * q2 + r2;
      assert b * (c * q2 + r2) == b * (c * q2) + b * r2;
      assert b * (c * q2) == q2 * (b * c);
    }
    assert 0 <= b * r2 + r < b * c by {
      MulMono(b, r2, c - 1);
      assert b * (c - 1) == b * c - b;
      MulMono(b, 0, r2);
    }
    DivModUnique(a, b * c, q2, b * r2 + r);
  }

  /** A remainder by a multiple of `b` keeps the remainder by `b`. */
  lemma ModMod(a: nat, b: nat, c: nat)
    requires b > 0 && c > 0
    ensures b * c > 0 && (a % (b * c)) % b == a % b
  {
    DivDiv(a, b, c);
    DivModUnique(a % (b * c), b, (a / b) % c, a % b);
  }

  /** Congruence is kept by adding multiples. */
  lemma ModAddMultiple(a: int, k: int, m: int)
    requires m > 0
    ensures (a + k * m) % m == a % m
  {
    assert a == m * (a / m) + a % m;
    assert (a / m + k) * m == m * (a / m) + k * m;
    DivModUnique(a + k * m, m, a / m + k, a % m);
  }

  lemma ModAdd(a: int, b: int, m: int)
    requires m > 0
    ensures (a % m + b) % m == (a + b) % m
  {
    assert a % m + b == a + b + (-(a / m)) * m by {
      assert a == m * (a / m) + a % m;
      assert (-(a / m)) * m == -(m * (a / m));
    }
    ModAddMultiple(a + b, -(a / m), m);
  }

  lemma ModMul(a: int, b: int, m: int)
    requires m > 0
    ensures (a % m * b) % m == (a * b) % m
  {
    var k := -(a / m) * b;
    assert a % m * b == a * b + k * m by {
      assert a % m == a - m * (a / m);
      assert (a - m * (a / m)) * b == a * b - m * (a / m) * b;
      assert m * (a / m) * b == (a / m) * b * m;
    }
    ModAddMultiple(a * b, k, m);
  }

  lemma DivMono(a: int, b: int, d: int)
    requires d > 0 && a <= b
    ensures a / d <= b / d
  {
    var q := b / d + 1;
    assert d * q == d * (b / d) + d;
    if a / d >= q { MulMono(d, q, a / d); }
  }

  /** `q` is at most the quotient exactly when `q` copies of the divisor fit. */
  lemma DivAtLeast(a: nat, d: nat, q: nat)
    requires d > 0
    ensures q <= a / d <==> q * d <= a
  {
    if q <= a / d {
      MulMono(d, q, a / d);
    } else {
      MulMono(d, a / d + 1, q);
      assert d * (a / d + 1) == d * (a / d) + d;
    }
    assert q * d == d * q;
  }

  lemma MulUnder(p: nat, r: nat, room: nat)
    requires r < room
    ensures 0 <= p * r <= p * room - p
  {
    MulMono(p, r, room - 1);
    MulMono(p, 0, r);
    assert p * (room - 1) == p * room - p;
  }

  /** A left shift by p that drops what does not fit keeps the low part of the operand. */
  lemma ShiftTruncated(x: nat, p: nat, room: nat)
    requires p > 0 && room > 0
    ensures p * room > 0 && x * p % (p * room) == p * (x % room)
  {
    var m, q, r := p * room, x / room, x % room;
    MulUnder(p, r, room);
    MulMono(p, 1, room);
    assert x * p == q * m + p * r by {
      DivMod(x, room);
      Distribute(q, room, r, p);
    }
    DivModUnique(x * p, m, q, p * r);
  }

  lemma Distribute(q: int, a: int, r: int, p: int)
    ensures (q * a + r) * p == q * (p * a) + p * r
  {
    assert (q * a + r) * p == q * a * p + r * p;
    assert q * a * p == q * (a * p);
  }

  lemma MulDivExact(d: nat, a: nat, e: nat)
    requires a > 0
    ensures d * (a * e) / a == d * e
  {
    assert d * (a * e) == d * e * a;
    DivModUnique(d * (a * e), a, d * e, 0);
  }

  lemma MulDivCommon(d: nat, p: nat, q: nat)
    requires p > 0 && q > 0
    ensures p * q > 0 && p * d / (p * q) == d / q
  {
    DivDiv(p * d, p, q);
    DivModUnique(p * d, p, d, 0);
  }

  // --- powers ---

  lemma PowPos(b: nat, n: nat)
    requires b > 0
    ensures Pow(b, n) > 0
  {
    if n > 0 {
      PowPos(b, n - 1);
      MulMono(b, 1, Pow(b, n - 1));
    }
  }

  lemma {:induction false} PowAdd(b: nat, m: nat, n: nat)
    ensures Pow(b, m + n) == Pow(b, m) * Pow(b, n)
  {
    if m > 0 {
      PowAdd(b, m - 1, n);
      assert b * (Pow(b, m - 1) * Pow(b, n)) == b * Pow(b, m - 1) * Pow(b, n);
    }
  }

  lemma {:induction false} PowMono(b: nat, m: nat, n: nat)
    requires b > 0 && m <= n
    ensures Pow(b, m) <= Pow(b, n)
  {
    PowAdd(b, m, n - m);
    PowPos(b, n - m);
    MulMono(Pow(b, m), 1, Pow(b, n - m));
  }

  lemma {:induction false} Pow2IsPow(n: nat)
    ensures Pow2(n) == Pow(2, n) > 0
  {
    if n > 0 { Pow2IsPow(n - 1); }
  }

  lemma Pow2Add(m: nat, n: nat)
    ensures Pow2(m + n) == Pow2(m) * Pow2(n)
    ensures Pow2(m) > 0 && Pow2(n) > 0
  {
    PowAdd(2, m, n);
    Pow2IsPow(m);
    Pow2IsPow(n);
    Pow2IsPow(m + n);
  }

  function Shr(x: nat, n: nat): nat {
    Pow2IsPow(n);
    DivMono(0, x, Pow2(n));
    x / Pow2(n)
  }

  lemma Pow2Mono(m: nat, n: nat)
    requires m <= n
    ensures 0 < Pow2(m) <= Pow2(n)
    ensures m < n ==> 2 * Pow2(m) <= Pow2(n)
  {
    Pow2Add(m, n - m);
    MulMono(Pow2(m), 1, Pow2(n - m));
    if m < n {
      Pow2Add(m + 1, n - m - 1);
      MulMono(Pow2(m + 1), 1, Pow2(n - m - 1));
    }
  }

  lemma Pow2Small()
    ensures Pow2(0) == 1 && Pow2(1) == 2 && Pow2(2) == 4 && Pow2(3) == 8 && Pow2(6) == 0x40
  {}

  lemma Pow2Step(n: nat)
    requires n > 0
    ensures Pow2(n) == 2 * Pow2(n - 1)
  {}

  lemma Pow2Values()
    ensures Pow2(1) == 2 && Pow2(2) == 4 && Pow2(3) == 8 && Pow2(6) == 0x40 && Pow2(7) == 0x80 && Pow2(8) == 0x100
    ensures Pow2(12) == 0x1000 && Pow2(14) == 0x4000 && Pow2(18) == 0x4_0000 && Pow2(20) == 0x10_0000
    ensures Pow2(24) == 0x100_0000 && Pow2(26) == 0x400_0000 && Pow2(32) == 0x1_0000_0000
    ensures Pow2(64) == 0x1_0000_0000_0000_0000
    ensures Pow2(128) == 0x1_0000_0000_0000_0000_0000_0000_0000_0000
  {
    hide Pow2;
    Pow2Small();
    Pow2Add(6, 6);
    Pow2Add(6, 1);
    Pow2Add(6, 2);
    Pow2Add(6, 8);
    Pow2Add(6, 12);
    Pow2Add(2, 18);
    Pow2Add(12, 12);
    Pow2Add(12, 14);
    Pow2Add(12, 20);
    Pow2Add(32, 32);
    Pow2Add(64, 64);
  }

  lemma PowNext(b: nat, n: nat)
    ensures Pow(b, 0) == 1 && Pow(b, n + 1) == b * Pow(b, n)
  {}

  lemma Pow256Values()
    ensures Pow(0x100, 1) == 0x100 && Pow(0x100, 2) == 0x1_0000 && Pow(0x100, 4) == 0x1_0000_0000 && Pow(0x100, 8) == 0x1_0000_0000_0000_0000
    ensures Pow(0x100, 16) == 0x1_0000_0000_0000_0000_0000_0000_0000_0000
  {
    PowAdd(0x100, 2, 2);
    PowAdd(0x100, 4, 4);
    PowAdd(0x100, 8, 8);
  }

  // --- bitwise operators ---

  function And(x: nat, y: nat): nat {
    if x == 0 || y == 0 then 0
    else 2 * And(x / 2, y / 2) + (x % 2) * (y % 2)
  }

  function Or(x: nat, y: nat): nat
    decreases x + y
  {
    if x == 0 then y else if y == 0 then x
    else 2 * Or(x / 2, y / 2) + (if x % 2 == 1 || y % 2 == 1 then 1 else 0)
  }

  function Xor(x: nat, y: nat): nat
    decreases x + y
  {
    if x == 0 then y else if y == 0 then x
    else 2 * Xor(x / 2, y / 2) + (x % 2 + y % 2) % 2
  }

  /** Conjunction works on the low k bits and the rest separately. */
  lemma {:induction false} AndSplit(k: nat, a: nat, b: nat, c: nat, d: nat)
    requires a < Pow2(k) && c < Pow2(k)
    ensures And(a + Pow2(k) * b, c + Pow2(k) * d) == And(a, c) + Pow2(k) * And(b, d)
    decreases k
  {
    if k == 0 {
      assert a + Pow2(k) * b == b && c + Pow2(k) * d == d;
    } else {
      AndSplit(k - 1, a / 2, b, c / 2, d);
      var u, v, r := Mul(Pow2(k - 1), b), Mul(Pow2(k - 1), d), Mul(Pow2(k - 1), And(b, d));
      AndEven(a, c, u, v, r);
      assert Pow2(k) * b == 2 * u by { DoubleHigh(k, b); }
      assert Pow2(k) * d == 2 * v by { DoubleHigh(k, d); }
      assert Pow2(k) * And(b, d) == 2 * r by { DoubleHigh(k, And(b, d)); }
    }
  }

  lemma AndEven(a: nat, c: nat, u: nat, v: nat, r: nat)
    requires And(a / 2 + u, c / 2 + v) == And(a / 2, c / 2) + r
    ensures And(a + 2 * u, c + 2 * v) == And(a, c) + 2 * r
  {
    AndStep(a + 2 * u, c + 2 * v);
    AndStep(a, c);
  }

  lemma DoubleHigh(k: nat, b: nat)
    requires k > 0
    ensures Pow2(k) * b == 2 * (Pow2(k - 1) * b)
  {}

  lemma AndStep(x: nat, y: nat)
    ensures And(x, y) == 2 * And(x / 2, y / 2) + (x % 2) * (y % 2)
  {}

  lemma {:induction false} AndOnes(x: nat, k: nat)
    ensures Pow2(k) > 0
    ensures And(x, Pow2(k) - 1) == x % Pow2(k)
  {
    hide And, Pow2;
    Pow2IsPow(k);
    if k > 0 {
      AndOnes(x / 2, k - 1);
      Pow2Step(k);
      AndStep(x, Pow2(k) - 1);
      DivDiv(x, 2, Pow2(k - 1));
    } else {
      Pow2Small();
      AndNone(x);
    }
  }

  lemma AndNone(x: nat)
    ensures And(x, 0) == 0 == And(0, x)
  {}

  /** A mask with the low k bits set and another w bits set from bit j on. */
  lemma AndTwoFields(x: nat, k: nat, j: nat, w: nat)
    requires k <= j
    ensures Pow2(k) > 0 && Pow2(j) > 0 && Pow2(w) > 0
    ensures And(x, (Pow2(k) - 1) + Mul(Pow2(j), Pow2(w) - 1))
         == x % Pow2(k) + Mul(Pow2(j), Shr(x, j) % Pow2(w))
  {
    hide And, Pow2;
    Pow2Mono(k, j);
    Pow2IsPow(w);
    var lo, hi, r := x % Pow2(j), x / Pow2(j), x % Pow2(k);
    AndFields(lo, hi, k, j, w);
    assert lo % Pow2(k) == r by {
      Pow2Add(k, j - k);
      ModMod(x, Pow2(k), Pow2(j - k));
    }
    DivMod(x, Pow2(j));
  }

  lemma AndFields(lo: nat, hi: nat, k: nat, j: nat, w: nat)
    requires 0 < Pow2(k) <= Pow2(j) && Pow2(w) > 0 && lo < Pow2(j)
    ensures And(lo + Mul(Pow2(j), hi), (Pow2(k) - 1) + Mul(Pow2(j), Pow2(w) - 1))
         == lo % Pow2(k) + Mul(Pow2(j), hi % Pow2(w))
  {
    hide And, Pow2;
    AndSplit(j, lo, hi, Pow2(k) - 1, Pow2(w) - 1);
    AndOnes(lo, k);
    AndOnes(hi, w);
  }

  lemma {:induction false} OrSplit(k: nat, a: nat, b: nat, c: nat, d: nat)
    requires a < Pow2(k) && c < Pow2(k)
    ensures Or(a + Pow2(k) * b, c + Pow2(k) * d) == Or(a, c) + Pow2(k) * Or(b, d)
    decreases k
  {
    if k == 0 {
      assert a + Pow2(k) * b == b && c + Pow2(k) * d == d;
    } else {
      OrSplit(k - 1, a / 2, b, c / 2, d);
      var u, v, r := Mul(Pow2(k - 1), b), Mul(Pow2(k - 1), d), Mul(Pow2(k - 1), Or(b, d));
      OrEven(a, c, u, v, r);
      assert Pow2(k) * b == 2 * u by { DoubleHigh(k, b); }
      assert Pow2(k) * d == 2 * v by { DoubleHigh(k, d); }
      assert Pow2(k) * Or(b, d) == 2 * r by { DoubleHigh(k, Or(b, d)); }
    }
  }

  lemma OrEven(a: nat, c: nat, u: nat, v: nat, r: nat)
    requires Or(a / 2 + u, c / 2 + v) == Or(a / 2, c / 2) + r
    ensures Or(a + 2 * u, c + 2 * v) == Or(a, c) + 2 * r
  {
    OrStep(a + 2 * u, c + 2 * v);
    OrStep(a, c);
  }

  lemma OrStep(x: nat, y: nat)
    ensures Or(x, y) == 2 * Or(x / 2, y / 2) + (if x % 2 == 1 || y % 2 == 1 then 1 else 0)
  {}

  /** Disjunction of a low field and a field that starts at bit k is addition. */
  lemma OrFields(a: nat, b: nat, k: nat)
    requires a < Pow2(k)
    ensures Or(a, Pow2(k) * b) == a + Pow2(k) * b
    ensures Or(Pow2(k) * b, a) == a + Pow2(k) * b
  {
    hide Or, Pow2;
    OrSplit(k, a, 0, 0, b);
    OrSplit(k, 0, b, a, 0);
    OrNone(a);
    OrNone(b);
  }

  lemma OrNone(a: nat)
    ensures Or(a, 0) == a == Or(0, a)
  {}

  lemma {:induction false} OrZero(a: nat, b: nat)
    ensures Or(a, b) == 0 <==> a == 0 && b == 0
    decreases a + b
  {
    if a != 0 && b != 0 { OrZero(a / 2, b / 2); }
  }

  lemma {:induction false} OrBound(a: nat, b: nat, k: nat)
    requires a < Pow2(k) && b < Pow2(k)
    ensures Or(a, b) < Pow2(k)
  {
    if k > 0 {
      OrStep(a, b);
      OrBound(a / 2, b / 2, k - 1);
    }
  }

  lemma XorStep(x: nat, y: nat)
    ensures Xor(x, y) == 2 * Xor(x / 2, y / 2) + (x % 2 + y % 2) % 2
  {}

  lemma {:induction false} XorBound(a: nat, b: nat, k: nat)
    requires a < Pow2(k) && b < Pow2(k)
    ensures Xor(a, b) < Pow2(k)
  {
    if k > 0 {
      XorStep(a, b);
      XorBound(a / 2, b / 2, k - 1);
    }
  }

  lemma {:induction false} XorCancel(a: nat, b: nat)
    ensures Xor(Xor(a, b), b) == a
    decreases a + b
  {
    hide Xor;
    XorNone(a);
    XorNone(b);
    if a == 0 || b == 0 {
      XorSelf(b);
    } else {
      var x := Xor(a, b);
      XorStep(a, b);
      XorStep(x, b);
      XorCancel(a / 2, b / 2);
      DivModUnique(x, 2, Xor(a / 2, b / 2), (a % 2 + b % 2) % 2);
    }
  }

  lemma XorNone(a: nat)
    ensures Xor(a, 0) == a == Xor(0, a)
  {}

  lemma {:induction false} XorSelf(a: nat)
    ensures Xor(a, a) == 0
  {
    if a != 0 { XorSelf(a / 2); }
  }

  lemma {:induction false} XorZero(a: nat, b: nat)
    ensures Xor(a, b) == 0 <==> a == b
    decreases a + b
  {
    if a + b > 0 {
      XorStep(a, b);
      XorZero(a / 2, b / 2);
    }
  }

  // --- little-endian numbers ---

  function LeNat(s: seq<u8>): nat {
    if s == [] then 0 else s[0] + 0x100 * LeNat(s[1..])
  }

  /** The n little-endian bytes of `x`, dropping what does not fit. */
  function LeBytes(x: nat, n: nat): (s: seq<u8>)
    ensures |s| == n
  {
    if n == 0 then [] else [x % 0x100] + LeBytes(x / 0x100, n - 1)
  }

  lemma {:induction false} LeNatBound(s: seq<u8>)
    ensures LeNat(s) < Pow(0x100, |s|)
  {
    if s != [] { LeNatBound(s[1..]); }
  }

  lemma {:induction false} LeNatOfBytes(x: nat, n: nat)
    ensures Pow(0x100, n) > 0
    ensures LeNat(LeBytes(x, n)) == x % Pow(0x100, n)
  {
    PowPos(0x100, n);
    if n > 0 {
      LeNatOfBytes(x / 0x100, n - 1);
      assert LeBytes(x, n)[1..] == LeBytes(x / 0x100, n - 1);
      PowPos(0x100, n - 1);
      DivDiv(x, 0x100, Pow(0x100, n - 1));
    }
  }

  lemma {:induction false} LeBytesOfNat(s: seq<u8>)
    ensures LeBytes(LeNat(s), |s|) == s
  {
    if s != [] {
      LeBytesOfNat(s[1..]);
      assert LeNat(s) % 0x100 == s[0] && LeNat(s) / 0x100 == LeNat(s[1..]);
      assert s == [s[0]] + s[1..];
    }
  }

  lemma LeBytesMod(x: nat, n: nat)
    ensures Pow(0x100, n) > 0 && LeBytes(x % Pow(0x100, n), n) == LeBytes(x, n)
  {
    LeNatOfBytes(x, n);
    LeBytesOfNat(LeBytes(x, n));
  }

  lemma {:induction false} LeNatConcat(a: seq<u8>, b: seq<u8>)
    ensures LeNat(a + b) == LeNat(a) + Pow(0x100, |a|) * LeNat(b)
  {
    if a == [] {
      assert a + b == b;
    } else {
      assert (a + b)[1..] == a[1..] + b;
      LeNatConcat(a[1..], b);
      assert 0x100 * (Pow(0x100, |a| - 1) * LeNat(b)) == Pow(0x100, |a|) * LeNat(b);
    }
  }

  function ZeroBytes(n: nat): seq<u8> { seq(n, i => 0) }

  lemma {:induction false} LeNatZeros(n: nat)
    ensures LeNat(ZeroBytes(n)) == 0
  {
    if n > 0 {
      assert ZeroBytes(n)[1..] == ZeroBytes(n - 1);
      LeNatZeros(n - 1);
    }
  }
}
