/** Difficulty retargeting at the end of a period. */
module Retarget {
  import opened Words
  import opened U256
  import opened U256Arith

  /** How compact bits and 256-bit targets convert is not part of this model. */
  datatype Compact = Compact(toCompact: U256 -> u32, toTarget: u32 -> U256)

  datatype Params = Params(
    powTargetTimespan: u32,
    powTargetSpacing: u32,
    allowMinDifficultyBlocks: bool,
    noPowRetargeting: bool,
    enforceBip94: bool,
    maxAttainableTarget: U256
  )

  datatype Header = Header(prevIsGenesis: bool, time: u32, bits: u32)

  function MinTransitionThreshold(x: U256): U256 { WrappingShr(x, 2) }

  function MaxTransitionThresholdUnchecked(x: U256): U256 { WrappingShl(x, 2) }

  function MaxTransitionThreshold(x: U256, params: Params): U256 {
    var limit := params.maxAttainableTarget;
    if Less(limit, MaxTransitionThresholdUnchecked(x)) then limit else MaxTransitionThresholdUnchecked(x)
  }

  function MinTimespan(params: Params): u32 { params.powTargetTimespan / 4 }

  /** The source shifts a 32-bit word, which loses the top bits of a very long timespan. */
  function MaxTimespan(params: Params): u32 { Times4(params.powTargetTimespan) }

  function Times4(t: int): u32 { t * 4 % 0x1_0000_0000 }

  function Clamp(t: int, lo: int, hi: int): int { if t < lo then lo else if t > hi then hi else t }

  function ClampedTimespan(timespan: int, params: Params): (c: nat)
    requires Retargetable(params)
    ensures MinTimespan(params) <= c <= MaxTimespan(params)
  {
    Clamp(timespan, MinTimespan(params), MaxTimespan(params))
  }

  /** What the division and the clamp need in order not to panic. */
  predicate Retargetable(params: Params) {
    params.powTargetTimespan > 0 && MinTimespan(params) <= MaxTimespan(params)
  }

  predicate CanRetarget(params: Params) { params.noPowRetargeting || Retargetable(params) }

  /** The 256-bit target before it is made compact, as the code computes it modulo 2^256. */
  function NextTarget(prev: nat, timespan: int, params: Params): nat
    requires Retargetable(params)
  {
    var product := Mul(prev, ClampedTimespan(timespan, params)) % B256;
    Min(Quotient(product, params.powTargetTimespan), Min(prev * 4 % B256, Val(params.maxAttainableTarget)))
  }

  function Quotient(a: nat, b: nat): nat
    requires b > 0
  {
    DivMono(0, a, b);
    a / b
  }

  function NextWork(last: u32, timespan: int, params: Params, compact: Compact): u32
    requires CanRetarget(params)
  {
    if params.noPowRetargeting then last
    else
      ValBound(params.maxAttainableTarget);
      compact.toCompact(FromNat(NextTarget(Val(compact.toTarget(last)), timespan, params)))
  }

  method FromNextWorkRequired(last: u32, timespan: int, params: Params, compact: Compact) returns (r: u32)
    requires CanRetarget(params)
    ensures r == NextWork(last, timespan, params, compact)
    ensures params.noPowRetargeting ==> r == last
    ensures !params.noPowRetargeting && InRange(Val(compact.toTarget(last)), params) ==>
      r == compact.toCompact(ScaledTarget(compact.toTarget(last), timespan, params))
  {
    hide Val, Less, WrappingShl, InRange, ScaledTarget, Mul, NextTarget;
    if params.noPowRetargeting { return last; }

    var actualTimespan := ClampedTimespan(timespan, params);
    var prevTarget := compact.toTarget(last);
    var maximumRetarget := MaxTransitionThreshold(prevTarget, params);
    MaxThresholdValue(prevTarget, params);
    var retarget, overflow := MulU64(prevTarget, actualTimespan);
    WordValue(params.powTargetTimespan);
    var rest;
    retarget, rest := DivRem(retarget, U256(0, params.powTargetTimespan));
    QuotientIs(Val(prevTarget), actualTimespan, params.powTargetTimespan, Val(retarget), Val(rest));
    LessCorrect(retarget, maximumRetarget);
    ghost var t := if Less(retarget, maximumRetarget) then retarget else maximumRetarget;
    LeastOfThree(Val(prevTarget), timespan, params);
    Identified(prevTarget, timespan, params, t);
    if !Less(retarget, maximumRetarget) { return compact.toCompact(maximumRetarget); }
    return compact.toCompact(retarget);
  }

  lemma LeastOfThree(prev: nat, timespan: int, params: Params)
    requires Retargetable(params)
    ensures NextTarget(prev, timespan, params) ==
      Min(Quotient(Mul(prev, ClampedTimespan(timespan, params)) % B256, params.powTargetTimespan),
          Min(prev * 4 % B256, Val(params.maxAttainableTarget)))
  {}

  lemma Identified(prev: U256, timespan: int, params: Params, t: U256)
    requires Retargetable(params) && Val(t) == NextTarget(Val(prev), timespan, params)
    ensures NextTarget(Val(prev), timespan, params) < B256 && t == FromNat(NextTarget(Val(prev), timespan, params))
    ensures InRange(Val(prev), params) ==> t == ScaledTarget(prev, timespan, params)
  {
    hide Val, NextTarget, ScaledTarget, InRange;
    ValBound(t);
    ValInjective(t, FromNat(Val(t)));
    if InRange(Val(prev), params) {
      ScaledTargetIsNext(prev, timespan, params);
      ValInjective(t, ScaledTarget(prev, timespan, params));
    }
  }

  lemma QuotientIs(prev: nat, c: nat, t: nat, q: nat, r: nat)
    requires t > 0 && prev * c % B256 == q * t + r && r < t
    ensures q == Quotient(Mul(prev, c) % B256, t)
  {
    DivModUnique(prev * c % B256, t, q, r);
  }

  lemma MaxThresholdValue(x: U256, params: Params)
    ensures Val(MaxTransitionThreshold(x, params)) == Min(Val(x) * 4 % B256, Val(params.maxAttainableTarget))
  {
    hide Val, Less, WrappingShl;
    LessCorrect(params.maxAttainableTarget, MaxTransitionThresholdUnchecked(x));
    WrappingShlCorrect(x, 2);
    FourIsPower();
  }

  lemma FourIsPower()
    ensures Pow2(2) == 4
  {}

  lemma MinThresholdValue(x: U256)
    ensures Val(MinTransitionThreshold(x)) == Val(x) / 4
  {
    WrappingShrCorrect(x, 2);
    FourIsPower();
  }

  // --- arithmetic bounds ---

  /** No step of the retarget leaves 32 or 256 bits. */
  predicate InRange(prev: nat, params: Params) {
    && params.powTargetTimespan > 0 && params.powTargetTimespan % 4 == 0
    && params.powTargetTimespan * 4 < 0x1_0000_0000
    && Mul(prev, params.powTargetTimespan * 4) < B256
  }

  lemma InRangeIsRetargetable(prev: nat, params: Params)
    requires InRange(prev, params)
    ensures Retargetable(params) && MaxTimespan(params) == params.powTargetTimespan * 4
  {}

  /** With every product in range the target is the real quotient, capped by 4 * prev and the limit,
      and the product that the source computes never overflows. */
  lemma NextTargetInRange(prev: nat, timespan: int, params: Params)
    requires InRange(prev, params)
    ensures Retargetable(params)
    ensures var c, t := ClampedTimespan(timespan, params), params.powTargetTimespan;
      && Mul(prev, c) < B256
      && NextTarget(prev, timespan, params)
        == Min(Quotient(Mul(prev, c), t), Min(4 * prev, Val(params.maxAttainableTarget)))
  {
    hide Val, Mul, Quotient;
    InRangeIsRetargetable(prev, params);
    var c, t := ClampedTimespan(timespan, params), params.powTargetTimespan;
    MulOrder(prev, c, t * 4);
    MulOrder(prev, 4, t * 4);
    FourTimes(prev);
    NoWrap(Mul(prev, c));
    NoWrap(prev * 4);
  }

  lemma NoWrap(a: nat)
    requires a < B256
    ensures a % B256 == a
  {}

  /** What retargeting is for: the old target scaled by the time the period took over the time it
      should take, that ratio held between a quarter and four, and the result capped by the limit. */
  function ScaledTarget(prev: U256, timespan: int, params: Params): U256
    requires InRange(Val(prev), params)
  {
    var t, p, limit := params.powTargetTimespan, Val(prev), Val(params.maxAttainableTarget);
    ValBound(params.maxAttainableTarget);
    if timespan <= t / 4 then FromNat(Min(Quotient(p, 4), limit))
    else if timespan >= t * 4 then FromNat(Min(4 * p, limit))
    else FromNat(Min(Quotient(Mul(p, timespan), t), limit))
  }

  /** The same with T / 4 and 4 * T written out, and the floors as inequalities that have one solution. */
  lemma NextTargetExact(prev: nat, timespan: int, params: Params)
    requires InRange(prev, params)
    ensures Retargetable(params)
    ensures var t, limit, next := params.powTargetTimespan, Val(params.maxAttainableTarget),
                                  NextTarget(prev, timespan, params);
      && (t / 4 <= timespan <= t * 4 ==> exists q: nat ::
          Mul(q, t) <= Mul(prev, timespan) < Mul(q + 1, t) && next == Min(q, Min(4 * prev, limit)))
      && (timespan <= t / 4 ==> exists q: nat ::
          Mul(q, t) <= Mul(prev, t / 4) < Mul(q + 1, t) && next == Min(q, Min(4 * prev, limit)))
      && (timespan >= t * 4 ==> next == Min(4 * prev, limit))
  {
    hide Val, Mul, Quotient;
    InRangeIsRetargetable(prev, params);
    NextTargetInRange(prev, timespan, params);
    var t := params.powTargetTimespan;
    ClampedIs(timespan, params);
    FloorOf(Mul(prev, ClampedTimespan(timespan, params)), t);
    if timespan >= t * 4 { FullScale(prev, t); }
  }

  lemma ClampedIs(timespan: int, params: Params)
    requires Retargetable(params) && MaxTimespan(params) == params.powTargetTimespan * 4
    ensures ClampedTimespan(timespan, params) ==
      if timespan <= params.powTargetTimespan / 4 then params.powTargetTimespan / 4
      else if timespan >= params.powTargetTimespan * 4 then params.powTargetTimespan * 4 else timespan
  {}

  lemma FloorOf(a: nat, t: nat)
    requires t > 0
    ensures Mul(Quotient(a, t), t) <= a < Mul(Quotient(a, t) + 1, t)
  {
    DivMod(a, t);
    assert (a / t + 1) * t == a / t * t + t;
  }

  lemma FullScale(prev: nat, t: nat)
    requires t > 0
    ensures Quotient(Mul(prev, t * 4), t) == 4 * prev
  {
    MulDivExact(prev, t, 4);
    assert prev * (t * 4) == prev * 4 * t;
  }

  lemma ScaledTargetIsNext(prev: U256, timespan: int, params: Params)
    requires InRange(Val(prev), params)
    ensures Retargetable(params) && Val(ScaledTarget(prev, timespan, params)) == NextTarget(Val(prev), timespan, params)
  {
    hide Val, Mul, Quotient;
    var t, p := params.powTargetTimespan, Val(prev);
    InRangeIsRetargetable(p, params);
    NextTargetInRange(p, timespan, params);
    ClampedIs(timespan, params);
    QuarterIs(p, t / 4);
    FullScale(p, t);
    MulOrder(p, ClampedTimespan(timespan, params), t * 4);
    QuotientMono(Mul(p, ClampedTimespan(timespan, params)), Mul(p, t * 4), t);
  }

  lemma QuarterIs(prev: nat, q: nat)
    requires q > 0
    ensures Quotient(Mul(prev, q), q * 4) == Quotient(prev, 4) <= 4 * prev
  {
    MulDivCommon(prev, q, 4);
    assert q * prev == prev * q;
  }

  lemma QuotientMono(a: nat, b: nat, t: nat)
    requires t > 0 && a <= b
    ensures Quotient(a, t) <= Quotient(b, t)
  {
    DivMono(a, b, t);
  }

  lemma MulOrder(a: nat, b: nat, c: nat)
    requires b <= c
    ensures Mul(a, b) <= Mul(a, c)
  {
    MulMono(a, b, c);
  }

  lemma FourTimes(a: nat)
    ensures Mul(a, 4) == 4 * a
  {}

  /** A retarget stays between a quarter and four times the old target, unless the limit is lower. */
  lemma NextTargetBounds(prev: U256, timespan: int, params: Params)
    requires InRange(Val(prev), params)
    ensures Retargetable(params)
    ensures var limit := Val(params.maxAttainableTarget);
      && Min(Val(MinTransitionThreshold(prev)), limit) <= NextTarget(Val(prev), timespan, params)
      && NextTarget(Val(prev), timespan, params) <= Val(MaxTransitionThreshold(prev, params))
      && Val(MaxTransitionThreshold(prev, params)) == Min(4 * Val(prev), limit)
  {
    hide Val, Mul, Quotient, NextTarget, ClampedTimespan, MinTransitionThreshold, MaxTransitionThreshold;
    InRangeIsRetargetable(Val(prev), params);
    var c, t := ClampedTimespan(timespan, params), params.powTargetTimespan;
    NextTargetInRange(Val(prev), timespan, params);
    MinThresholdValue(prev);
    MaxThresholdValue(prev, params);
    MulOrder(Val(prev), 4, t * 4);
    FourTimes(Val(prev));
    NoWrap(Val(prev) * 4);
    MulOrder(Val(prev), t / 4, c);
    FourQuarters(t);
    QuarterQuotient(Val(prev), t / 4, c);
  }

  lemma FourQuarters(t: nat)
    requires t % 4 == 0
    ensures t / 4 * 4 == t
  {}

  lemma QuarterQuotient(prev: nat, q: nat, c: nat)
    requires q > 0 && Mul(prev, q) <= Mul(prev, c)
    ensures prev / 4 <= Quotient(Mul(prev, c), q * 4)
  {
    MulDivCommon(prev, q, 4);
    assert q * prev == Mul(prev, q);
    DivMono(Mul(prev, q), Mul(prev, c), q * 4);
  }

  /** A longer timespan never gives a lower target. */
  lemma NextTargetMonotone(prev: nat, t1: int, t2: int, params: Params)
    requires InRange(prev, params) && t1 <= t2
    ensures Retargetable(params) && NextTarget(prev, t1, params) <= NextTarget(prev, t2, params)
  {
    hide Val, Mul;
    NextTargetInRange(prev, t1, params);
    NextTargetInRange(prev, t2, params);
    var c1, c2 := ClampedTimespan(t1, params), ClampedTimespan(t2, params);
    MulOrder(prev, c1, c2);
    DivMono(Mul(prev, c1), Mul(prev, c2), params.powTargetTimespan);
  }
}
