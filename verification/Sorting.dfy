/** Sorting and removal of adjacent duplicates, as the standard library provides them. */
module Sorting {
  predicate Ascending(s: seq<nat>) {
    |s| <= 1 || (s[0] <= s[1] && Ascending(s[1..]))
  }

  lemma {:induction false} AscendingAt(s: seq<nat>, i: nat, j: nat)
    requires Ascending(s) && i <= j < |s|
    ensures s[i] <= s[j]
  {
    if i < j {
      if i > 0 {
        AscendingAt(s[1..], i - 1, j - 1);
      } else {
        AscendingAt(s[1..], 0, j - 1);
      }
    }
  }

  function Count(s: seq<nat>, v: nat): nat {
    if s == [] then 0 else (if s[0] == v then 1 else 0) + Count(s[1..], v)
  }

  lemma {:induction false} CountMember(s: seq<nat>, v: nat)
    ensures v in s <==> Count(s, v) > 0
  {
    if s != [] {
      CountMember(s[1..], v);
      assert s == [s[0]] + s[1..];
    }
  }

  function Insert(x: nat, s: seq<nat>): (r: seq<nat>)
    ensures |r| == |s| + 1
  {
    if s == [] || x <= s[0] then [x] + s else [s[0]] + Insert(x, s[1..])
  }

  function Sorted(s: seq<nat>): (r: seq<nat>)
    ensures |r| == |s|
  {
    if s == [] then [] else Insert(s[0], Sorted(s[1..]))
  }

  lemma {:induction false} InsertAscending(x: nat, s: seq<nat>)
    requires Ascending(s)
    ensures Ascending(Insert(x, s)) && (Insert(x, s)[0] == x || (s != [] && Insert(x, s)[0] == s[0]))
  {
    if s == [] || x <= s[0] {
      assert ([x] + s)[1..] == s;
    } else {
      InsertAscending(x, s[1..]);
      assert Insert(x, s)[1..] == Insert(x, s[1..]);
    }
  }

  lemma {:induction false} InsertCount(x: nat, s: seq<nat>, v: nat)
    ensures Count(Insert(x, s), v) == Count(s, v) + (if x == v then 1 else 0)
  {
    if s == [] || x <= s[0] {
      assert ([x] + s)[1..] == s;
    } else {
      InsertCount(x, s[1..], v);
      assert Insert(x, s)[1..] == Insert(x, s[1..]);
    }
  }

  lemma {:induction false} SortedAscending(s: seq<nat>)
    ensures Ascending(Sorted(s))
  {
    if s != [] {
      SortedAscending(s[1..]);
      InsertAscending(s[0], Sorted(s[1..]));
    }
  }

  lemma {:induction false} SortedCount(s: seq<nat>, v: nat)
    ensures Count(Sorted(s), v) == Count(s, v)
    ensures v in Sorted(s) <==> v in s
  {
    if s != [] {
      SortedCount(s[1..], v);
      InsertCount(s[0], Sorted(s[1..]), v);
    }
    CountMember(s, v);
    CountMember(Sorted(s), v);
  }

  /** An ascending arrangement is determined by how often each value occurs. */
  lemma {:induction false} AscendingUnique(a: seq<nat>, b: seq<nat>)
    requires Ascending(a) && Ascending(b) && forall v :: Count(a, v) == Count(b, v)
    ensures a == b
  {
    assert b != [] ==> Count(a, b[0]) == Count(b, b[0]) > 0;
    if a != [] {
      CountMember(b, a[0]);
      assert Count(a, a[0]) == Count(b, a[0]) > 0;
      HeadIsLeast(a, b);
      HeadIsLeast(b, a);
      forall v ensures Count(a[1..], v) == Count(b[1..], v) {
        assert Count(a, v) == Count(b, v);
      }
      AscendingUnique(a[1..], b[1..]);
      assert a == [a[0]] + a[1..] && b == [b[0]] + b[1..];
    }
  }

  lemma HeadIsLeast(a: seq<nat>, b: seq<nat>)
    requires Ascending(a) && a != [] && b != [] && forall v :: Count(a, v) == Count(b, v)
    ensures a[0] <= b[0]
  {
    assert Count(a, b[0]) == Count(b, b[0]) > 0;
    CountMember(a, b[0]);
    var j :| 0 <= j < |a| && a[j] == b[0];
    AscendingAt(a, 0, j);
  }

  /** Adjacent equal elements merged into one. */
  function Dedup(s: seq<nat>): (r: seq<nat>)
    ensures s != [] ==> r != [] && r[0] == s[0]
  {
    if |s| <= 1 then s
    else if s[0] == s[1] then Dedup(s[1..])
    else [s[0]] + Dedup(s[1..])
  }

  predicate StrictlyAscending(s: seq<nat>) {
    |s| <= 1 || (s[0] < s[1] && StrictlyAscending(s[1..]))
  }

  lemma {:induction false} DedupStrict(s: seq<nat>)
    requires Ascending(s)
    ensures StrictlyAscending(Dedup(s))
  {
    if |s| > 1 {
      DedupStrict(s[1..]);
      if s[0] != s[1] { assert Dedup(s)[1..] == Dedup(s[1..]); }
    }
  }

  lemma {:induction false} DedupMember(s: seq<nat>, v: nat)
    ensures v in Dedup(s) <==> v in s
  {
    if |s| > 1 {
      DedupMember(s[1..], v);
      assert s == [s[0]] + s[1..];
    }
  }
}
