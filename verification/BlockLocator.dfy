/** Block locators: which heights are asked for, from a chain tip down to genesis. */
module BlockLocator {
  import opened Words
  import opened Wrappers

  const MAX_LOCATOR_HASHES: nat := 101

  function SaturatingDouble(a: u32): u32 { if a >= 0x8000_0000 then 0xffff_ffff else Twice(a) }

  function Twice(a: int): u32
    requires 0 <= a < 0x8000_0000
  {
    2 * a
  }

  /** The heights asked for when `count` hashes are already there. */
  function HeightsFrom(height: u32, step: u32, count: nat): (s: seq<u32>)
    requires count < MAX_LOCATOR_HASHES
    ensures s != [] && s[0] == height
    decreases MAX_LOCATOR_HASHES - count
  {
    if height == 0 || count + 1 >= MAX_LOCATOR_HASHES then [height]
    else [height] + HeightsFrom(SaturatingSub(height, step), if count + 1 > 10 then SaturatingDouble(step) else step, count + 1)
  }

  function Heights(tip: u32): seq<u32> { HeightsFrom(tip, 1, 0) }

  /** The hashes at some heights, or the first failure. */
  function Ancestors<H, E>(heights: seq<u32>, getAncestor: u32 -> Result<H, E>): Result<seq<H>, E> {
    if heights == [] then Ok([])
    else
      match getAncestor(heights[0])
      case Err(e) => Err(e)
      case Ok(hash) =>
        match Ancestors(heights[1..], getAncestor)
        case Err(e) => Err(e)
        case Ok(rest) => Ok([hash] + rest)
  }

  function Prepend<H, E>(hashes: seq<H>, rest: Result<seq<H>, E>): Result<seq<H>, E> {
    match rest
    case Err(e) => Err(e)
    case Ok(more) => Ok(hashes + more)
  }

  method Build<H, E>(tipHeight: u32, getAncestor: u32 -> Result<H, E>) returns (r: Result<seq<H>, E>)
    ensures r == Ancestors(Heights(tipHeight), getAncestor)
  {
    var hashes: seq<H>, step: u32, height := [], 1, tipHeight;
    EmptyPrefix(Ancestors(Heights(tipHeight), getAncestor));
    while true
      invariant |hashes| < MAX_LOCATOR_HASHES
      invariant Prepend(hashes, Ancestors(HeightsFrom(height, step, |hashes|), getAncestor))
        == Ancestors(Heights(tipHeight), getAncestor)
      decreases MAX_LOCATOR_HASHES - |hashes|
    {
      var got := getAncestor(height);
      if got.Err? { return Err(got.error); }
      NextHash(hashes, height, step, got.value, getAncestor);
      hashes := hashes + [got.value];
      if height == 0 || |hashes| >= MAX_LOCATOR_HASHES {
        break;
      }
      height := SaturatingSub(height, step);
      if |hashes| > 10 { step := SaturatingDouble(step); }
    }
    return Ok(hashes);
  }

  lemma EmptyPrefix<H, E>(r: Result<seq<H>, E>)
    ensures Prepend([], r) == r
  {
    if r.Ok? { assert [] + r.value == r.value; }
  }

  lemma NextHash<H, E>(hashes: seq<H>, height: u32, step: u32, hash: H, getAncestor: u32 -> Result<H, E>)
    requires |hashes| < MAX_LOCATOR_HASHES && getAncestor(height) == Ok(hash)
    ensures var n := |hashes| + 1;
      Prepend(hashes, Ancestors(HeightsFrom(height, step, |hashes|), getAncestor)) ==
        if height == 0 || n >= MAX_LOCATOR_HASHES then Ok(hashes + [hash])
        else Prepend(hashes + [hash], Ancestors(
          HeightsFrom(SaturatingSub(height, step), if n > 10 then SaturatingDouble(step) else step, n), getAncestor))
  {
    var n, all := |hashes| + 1, HeightsFrom(height, step, |hashes|);
    if height == 0 || n >= MAX_LOCATOR_HASHES {
      assert all[1..] == [] && [hash] + [] == [hash];
      assert Ancestors(all[1..], getAncestor) == Ok([]);
    } else {
      var rest := HeightsFrom(SaturatingSub(height, step), if n > 10 then SaturatingDouble(step) else step, n);
      assert all[1..] == rest;
      var tail := Ancestors(rest, getAncestor);
      if tail.Ok? { assert hashes + ([hash] + tail.value) == hashes + [hash] + tail.value; }
    }
  }

  // --- which heights these are ---

  /** How far the k-th step goes back: one at first, doubling from the eleventh on. */
  function Step(k: nat): nat { if k <= 10 then 1 else Pow2(k - 10) }

  function Depth(k: nat): nat { if k == 0 then 0 else Depth(k - 1) + Step(k - 1) }

  function Below(tip: u32, depth: nat): u32 { if tip <= depth then 0 else Difference(tip, depth) }

  lemma {:induction false} StepBound(k: nat)
    ensures 0 < Step(k) <= Depth(k) + 2
    ensures k >= 11 ==> Depth(k) == 9 + Pow2(k - 10)
  {
    Pow2IsPow(if k <= 10 then 0 else k - 10);
    if k > 0 { StepBound(k - 1); }
    if k == 11 { DepthOf11(); }
  }

  lemma DepthOf11()
    ensures Depth(11) == 11 && Pow2(1) == 2
  {
    assert Depth(3) == 3 && Depth(6) == Depth(3) + 3 && Depth(9) == Depth(6) + 3 && Depth(11) == Depth(9) + 2;
  }

  lemma DeepEnough()
    ensures Depth(42) >= 0xffff_ffff
  {
    StepBound(42);
    Pow2Values();
  }

  /** From any point of the walk: the heights follow the depths, decrease strictly and end at genesis. */
  lemma {:induction false} WalkShape(tip: u32, count: nat, step: u32)
    requires count <= 42 && (Below(tip, Depth(count)) > 0 ==> step == Step(count))
    ensures var s := HeightsFrom(Below(tip, Depth(count)), step, count);
      && count + |s| <= 43 && s[|s| - 1] == 0
      && (forall i :: 0 <= i < |s| ==> s[i] == Below(tip, Depth(count + i)))
      && (forall i :: 0 <= i < |s| - 1 ==> s[i] > s[i + 1])
    decreases 42 - count
  {
    hide Depth, Step, Pow2;
    var height := Below(tip, Depth(count));
    DeepEnough();
    if height > 0 {
      NextStep(tip, count);
      var next := if count + 1 > 10 then SaturatingDouble(step) else step;
      WalkShape(tip, count + 1, next);
      var s, rest := HeightsFrom(height, step, count), HeightsFrom(Below(tip, Depth(count + 1)), next, count + 1);
      assert s == [height] + rest;
      forall i | 0 <= i < |s| ensures s[i] == Below(tip, Depth(count + i)) {
        if i > 0 { assert s[i] == rest[i - 1] == Below(tip, Depth(count + 1 + (i - 1))); }
      }
      forall i | 0 <= i < |s| - 1 ensures s[i] > s[i + 1] {
        if i > 0 { assert s[i] == rest[i - 1] && s[i + 1] == rest[i]; }
      }
    }
  }

  lemma NextStep(tip: u32, k: nat)
    requires Below(tip, Depth(k)) > 0 && k < 42
    ensures 0 < Step(k) < 0x1_0000_0000 && Depth(k + 1) == Depth(k) + Step(k)
    ensures SaturatingSub(Below(tip, Depth(k)), Step(k)) == Below(tip, Depth(k + 1)) < Below(tip, Depth(k))
    ensures Below(tip, Depth(k + 1)) > 0 ==>
      Step(k + 1) == if k + 1 > 10 then SaturatingDouble(Step(k)) else Step(k)
  {
    StepBound(k);
    StepBound(k + 1);
    if k >= 11 {
      Pow2Mono(k - 10, 31);
      Pow2Values();
      assert Pow2(32) == 2 * Pow2(31);
      assert Pow2(k + 1 - 10) == 2 * Pow2(k - 10);
    }
    if k == 10 { DepthOf11(); }
  }

  /** A locator starts at the tip, goes strictly down and always ends at genesis. It has at most 43
      entries, so the cap of 101 never cuts it. */
  lemma LocatorShape(tip: u32)
    ensures var s := Heights(tip);
      && 0 < |s| <= 43 && s[0] == tip && s[|s| - 1] == 0
      && forall i :: 0 <= i < |s| - 1 ==> s[i] > s[i + 1]
  {
    assert Depth(0) == 0;
    WalkShape(tip, 0, 1);
  }

  /** Each entry in closed form: the first twelve one apart, then at depths 9 + 2^j. */
  lemma LocatorHeights(tip: u32, k: nat)
    requires k < |Heights(tip)|
    ensures Heights(tip)[k] == Below(tip, if k <= 11 then k else 9 + Pow2(k - 10))
  {
    NoSteps();
    hide Step, Pow2, HeightsFrom;
    WalkShape(tip, 0, 1);
    StepBound(k);
    if k <= 11 { EarlyDepth(k); }
    assert Heights(tip)[k] == Below(tip, Depth(0 + k));
  }

  lemma {:induction false} EarlyDepth(k: nat)
    requires k <= 11
    ensures Depth(k) == k
  {
    if k > 0 { EarlyDepth(k - 1); }
  }

  lemma NoSteps()
    ensures Depth(0) == 0 && Step(0) == 1
  {}

  lemma DepthNext(k: nat)
    ensures Depth(k + 1) == Depth(k) + Step(k)
  {}

  /** For every depth x there is an entry at a depth from x to 2x, or that entry is genesis. */
  lemma LocatorCovers(tip: u32, x: nat) returns (k: nat)
    requires x <= tip
    ensures var s := Heights(tip); k < |s| && x <= tip - s[k] && (tip - s[k] <= 2 * x || s[k] == 0)
  {
    NoSteps();
    hide Depth, Step, Pow2, HeightsFrom;
    WalkShape(tip, 0, 1);
    var s := Heights(tip);
    assert s[|s| - 1] == Below(tip, Depth(0 + (|s| - 1)));
    k := 0;
    while Depth(k) < x
      invariant k < |s| && (k > 0 ==> Depth(k) <= 2 * x)
      decreases |s| - k
    {
      StepBound(k);
      DepthNext(k);
      assert s[k] == Below(tip, Depth(0 + k));
      k := k + 1;
    }
    assert s[k] == Below(tip, Depth(0 + k));
  }
}
