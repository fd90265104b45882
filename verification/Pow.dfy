/** The proof-of-work target that the block after a given one must have, and what every chain
    built by that rule keeps. */
module Pow {
  import opened Words
  import opened Wrappers
  import opened Retarget

  /** Blocks in a period. The source divides by the spacing and takes remainders by the result. */
  function Interval(params: Params): (i: u32)
    requires HasInterval(params)
    ensures i > 0
  {
    Whole(params.powTargetTimespan, params.powTargetSpacing)
  }

  function Whole(a: u32, b: u32): (q: u32)
    requires 0 < b <= a
    ensures q > 0
  {
    DivAtLeast(a, b, 1);
    DivMod(a, b);
    MulMono(a / b, 1, b);
    a / b
  }

  predicate HasInterval(params: Params) { 0 < params.powTargetSpacing <= params.powTargetTimespan }

  predicate IsRetargetHeight(height: u32, interval: u32)
    requires interval > 0
  {
    height % interval == 0
  }

  function NextHeight(height: u32): u32 { if height == 0xffff_ffff then height else Inc(height) }

  function Inc(h: int): u32
    requires 0 <= h < 0xffff_ffff
  {
    h + 1
  }

  function PowLimit(params: Params, compact: Compact): u32 { compact.toCompact(params.maxAttainableTarget) }

  /** More than two spacings after the current block, a block may have the least difficulty. */
  predicate Late(timestamp: u32, current: Header, params: Params) {
    timestamp > current.time + params.powTargetSpacing * 2
  }

  /** What the source demands: a period length, a timestamp where it unwraps one, no 32-bit overflow
      in the time it compares with, and a timespan it can clamp and divide by. */
  predicate Callable(current: Header, height: u32, params: Params, timestamp: Option<u32>) {
    && HasInterval(params)
    && (IsRetargetHeight(NextHeight(height), Interval(params)) ==> CanRetarget(params))
    && (!IsRetargetHeight(NextHeight(height), Interval(params)) && params.allowMinDifficultyBlocks ==>
        timestamp.Some? && current.time + params.powTargetSpacing * 2 < 0x1_0000_0000)
  }

  function FromHeaders(lastEpochBoundary: Header, current: Header, params: Params, compact: Compact): u32
    requires CanRetarget(params)
  {
    NextWork(if params.enforceBip94 then lastEpochBoundary.bits else current.bits,
             current.time - lastEpochBoundary.time, params, compact)
  }

  method FromHeaderDifficultyAdjustment(lastEpochBoundary: Header, current: Header, params: Params, compact: Compact)
    returns (r: u32)
    requires CanRetarget(params)
    ensures r == FromHeaders(lastEpochBoundary, current, params, compact)
  {
    var timespan := current.time - lastEpochBoundary.time;
    var bits := if params.enforceBip94 then lastEpochBoundary.bits else current.bits;
    r := FromNextWorkRequired(bits, timespan, params, compact);
  }

  predicate KeepsWalking(header: Header, height: u32, interval: u32, powLimit: u32)
    requires interval > 0
  {
    !header.prevIsGenesis && !IsRetargetHeight(height, interval) && header.bits == powLimit
  }

  /** The bits found by walking back over least-difficulty blocks, or the first failed lookup. */
  function WalkedBack<E>(header: Header, height: u32, interval: u32, powLimit: u32, get: u32 -> Result<Header, E>)
    : Result<u32, E>
    requires interval > 0
    decreases height
  {
    if !KeepsWalking(header, height, interval, powLimit) then Ok(header.bits)
    else
      match get(height - 1)
      case Err(e) => Err(e)
      case Ok(previous) => WalkedBack(previous, height - 1, interval, powLimit, get)
  }

  function NextBits<E>(current: Header, height: u32, params: Params, compact: Compact, timestamp: Option<u32>,
                       get: u32 -> Result<Header, E>): Result<u32, E>
    requires Callable(current, height, params, timestamp)
  {
    var interval := Interval(params);
    if IsRetargetHeight(NextHeight(height), interval) then
      match get(Max(height, interval - 1) - (interval - 1))
      case Err(e) => Err(e)
      case Ok(first) => Ok(FromHeaders(first, current, params, compact))
    else if !params.allowMinDifficultyBlocks then Ok(current.bits)
    else if Late(timestamp.value, current, params) then Ok(PowLimit(params, compact))
    else WalkedBack(current, height, interval, PowLimit(params, compact), get)
  }

  method WalkBack<E>(current: Header, currentHeight: u32, interval: u32, powLimit: u32, get: u32 -> Result<Header, E>)
    returns (r: Result<u32, E>)
    requires interval > 0
    ensures r == WalkedBack(current, currentHeight, interval, powLimit, get)
  {
    hide IsRetargetHeight;
    var header, height := current, currentHeight;
    while KeepsWalking(header, height, interval, powLimit)
      invariant WalkedBack(header, height, interval, powLimit, get)
        == WalkedBack(current, currentHeight, interval, powLimit, get)
      decreases height
    {
      NotAtZero(height, interval);
      height := SaturatingSub(height, 1);
      var got := get(height);
      if got.Err? { return Err(got.error); }
      header := got.value;
    }
    return Ok(header.bits);
  }

  lemma NotAtZero(height: u32, interval: u32)
    requires interval > 0 && !IsRetargetHeight(height, interval)
    ensures height > 0
  {}

  lemma NextHeightIs(height: u32)
    ensures NextHeight(height) == Min(height + 1, 0xffff_ffff)
  {}

  lemma WalkStops<E>(header: Header, height: u32, interval: u32, powLimit: u32, get: u32 -> Result<Header, E>)
    requires interval > 0
    ensures header.bits != powLimit ==> WalkedBack(header, height, interval, powLimit, get) == Ok(header.bits)
  {}

  method NextTargetAfter<E>(current: Header, currentHeight: u32, params: Params, compact: Compact,
                            newBlockTimestamp: Option<u32>, get: u32 -> Result<Header, E>)
    returns (r: Result<u32, E>)
    requires Callable(current, currentHeight, params, newBlockTimestamp)
    ensures r == NextBits(current, currentHeight, params, compact, newBlockTimestamp, get)
    ensures Min(currentHeight + 1, 0xffff_ffff) % Interval(params) != 0 ==>
      var limit := compact.toCompact(params.maxAttainableTarget);
      && (!params.allowMinDifficultyBlocks ==> r == Ok(current.bits))
      && (params.allowMinDifficultyBlocks && newBlockTimestamp.value > current.time + 2 * params.powTargetSpacing ==>
          r == Ok(limit))
      && (params.allowMinDifficultyBlocks && newBlockTimestamp.value <= current.time + 2 * params.powTargetSpacing ==>
          r == WalkedBack(current, currentHeight, Interval(params), limit, get)
          && (current.bits != limit ==> r == Ok(current.bits)))
  {
    hide WalkedBack, Retargetable, NextHeight;
    NextHeightIs(currentHeight);
    WalkStops(current, currentHeight, Interval(params), PowLimit(params, compact), get);
    var interval := Interval(params);
    if !IsRetargetHeight(NextHeight(currentHeight), interval) {
      if params.allowMinDifficultyBlocks {
        var powLimit := PowLimit(params, compact);
        if Late(newBlockTimestamp.value, current, params) {
          return Ok(powLimit);
        } else {
          r := WalkBack(current, currentHeight, interval, powLimit, get);
        }
      } else {
        return Ok(current.bits);
      }
    } else {
      var backStep := interval - 1;
      var heightFirst := SaturatingSub(currentHeight, backStep);
      var got := get(heightFirst);
      if got.Err? { return Err(got.error); }
      var bits := FromHeaderDifficultyAdjustment(got.value, current, params, compact);
      return Ok(bits);
    }
  }

  // --- whole chains ---

  /** Looks a header up in a chain, by height. */
  function Lookup(chain: seq<Header>): u32 -> Result<Header, ()> {
    (h: u32) => if h < |chain| then Ok(chain[h]) else Err(())
  }

  /** Block k has the bits that the rule asks for after block k - 1. */
  ghost predicate Follows(chain: seq<Header>, k: nat, params: Params, compact: Compact)
    requires 0 < k < |chain| <= 0x1_0000_0000
  {
    && Callable(chain[k - 1], k - 1, params, Some(chain[k].time))
    && NextBits(chain[k - 1], k - 1, params, compact, Some(chain[k].time), Lookup(chain)) == Ok(chain[k].bits)
  }

  /** A chain from its genesis block on in which every block follows the rule. */
  ghost predicate ValidChain(chain: seq<Header>, params: Params, compact: Compact) {
    && 0 < |chain| <= 0x1_0000_0000 && HasInterval(params)
    && (forall k :: 0 <= k < |chain| ==> (chain[k].prevIsGenesis <==> k == 0))
    && (forall k :: 0 < k < |chain| ==> Follows(chain, k, params, compact))
  }

  /** The first height of the period that height k is in. */
  function PeriodStart(k: nat, interval: u32): (s: nat)
    requires interval > 0
    ensures s <= k
  {
    DivMod(k, interval);
    k - k % interval
  }

  lemma PeriodSteps(k: nat, interval: u32)
    requires interval > 0 && k % interval != 0
    ensures k > 0 && PeriodStart(k, interval) == PeriodStart(k - 1, interval)
  {
    DivModUnique(k - 1, interval, k / interval, k % interval - 1);
  }

  /** Every block of a period has the bits of the period's first block or the least difficulty,
      and walking back from it always finds those first bits. */
  lemma {:induction false} PeriodInvariant(chain: seq<Header>, k: nat, params: Params, compact: Compact)
    requires ValidChain(chain, params, compact) && k < |chain| && params.allowMinDifficultyBlocks
    ensures var first, limit := chain[PeriodStart(k, Interval(params))].bits, PowLimit(params, compact);
      && (chain[k].bits == limit || chain[k].bits == first)
      && WalkedBack(chain[k], k, Interval(params), limit, Lookup(chain)) == Ok(first)
  {
    var interval := Interval(params);
    if k % interval != 0 {
      PeriodSteps(k, interval);
      PeriodInvariant(chain, k - 1, params, compact);
      assert Follows(chain, k, params, compact);
      assert Lookup(chain)(k - 1) == Ok(chain[k - 1]);
    }
  }

  /** The two cases inside a period with least-difficulty blocks: a block that comes more than two
      spacings after the one before it carries the limit, any other its period's first bits. */
  lemma LateOrFirst(chain: seq<Header>, k: nat, interval: nat, first: nat, params: Params, compact: Compact)
    requires ValidChain(chain, params, compact) && k < |chain| && params.allowMinDifficultyBlocks
    requires interval == params.powTargetTimespan / params.powTargetSpacing && interval > 0
    requires first < k && k == first + k % interval
    ensures chain[k].bits ==
      if chain[k].time > chain[k - 1].time + 2 * params.powTargetSpacing
      then compact.toCompact(params.maxAttainableTarget) else chain[first].bits
  {
    IntervalIs(params);
    hide Interval, WalkedBack, Retargetable;
    PeriodSteps(k, interval);
    PeriodInvariant(chain, k - 1, params, compact);
    assert Follows(chain, k, params, compact);
  }

  lemma IntervalIs(params: Params)
    requires HasInterval(params)
    ensures Interval(params) == params.powTargetTimespan / params.powTargetSpacing
  {}

  /** Without least-difficulty blocks the bits never change inside a period. */
  lemma {:induction false} ConstantPeriod(chain: seq<Header>, k: nat, params: Params, compact: Compact)
    requires ValidChain(chain, params, compact) && k < |chain| && !params.allowMinDifficultyBlocks
    ensures chain[k].bits == chain[PeriodStart(k, Interval(params))].bits
  {
    var interval := Interval(params);
    if k % interval != 0 {
      PeriodSteps(k, interval);
      ConstantPeriod(chain, k - 1, params, compact);
      assert Follows(chain, k, params, compact);
    }
  }

  /** A new period starts from the first block of the last one under BIP 94, and otherwise from its
      last block. The timespan is between those two blocks, one block interval short of a period. */
  lemma NewPeriod(chain: seq<Header>, s: nat, params: Params, compact: Compact)
    requires ValidChain(chain, params, compact) && 0 < s < |chain| && s % Interval(params) == 0
    ensures CanRetarget(params) && Interval(params) <= s
    ensures var first, last := chain[s - Interval(params)], chain[s - 1];
      chain[s].bits ==
        NextWork(if params.enforceBip94 then first.bits else last.bits, last.time - first.time, params, compact)
  {
    var interval := Interval(params);
    assert Follows(chain, s, params, compact);
    assert interval <= s by { if s < interval { DivModUnique(s, interval, 0, s); } }
    assert Lookup(chain)(s - interval) == Ok(chain[s - interval]);
  }

  /** Under BIP 94 two chains that agree on the first bits of a period and on its timespan
      agree on the next period's target, whatever the bits of the blocks between. */
  lemma Bip94Determined(a: seq<Header>, b: seq<Header>, s: nat, params: Params, compact: Compact)
    requires ValidChain(a, params, compact) && ValidChain(b, params, compact) && params.enforceBip94
    requires 0 < s < |a| && s < |b| && s % Interval(params) == 0 && Interval(params) <= s
    requires var first := s - Interval(params);
      a[first].bits == b[first].bits && a[s - 1].time - a[first].time == b[s - 1].time - b[first].time
    ensures a[s].bits == b[s].bits
  {
    NewPeriod(a, s, params, compact);
    NewPeriod(b, s, params, compact);
  }
}
