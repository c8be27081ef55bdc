/**
 Median time past: the in-place insertion sort, the median as an order statistic, and the
 rule that keeps the fold's clock from running backwards.
 */
module MedianTime {

  const WINDOW := 11

  // ---- sorting as repeated insertion ----

  function Insert(s: seq<int>, v: int): seq<int> {
    if s != [] && s[|s| - 1] > v then Insert(s[..|s| - 1], v) + [s[|s| - 1]] else s + [v]
  }

  function Sort(s: seq<int>): (r: seq<int>)
    ensures |r| == |s|
    decreases |s|
  {
    if s == [] then [] else
      InsertLength(Sort(s[..|s| - 1]), s[|s| - 1]);
      Insert(Sort(s[..|s| - 1]), s[|s| - 1])
  }

  lemma {:induction false} InsertLength(s: seq<int>, v: int)
    ensures |Insert(s, v)| == |s| + 1
  {
    if s != [] && s[|s| - 1] > v { InsertLength(s[..|s| - 1], v); }
  }

  ghost predicate Ordered(s: seq<int>) {
    forall i, j :: 0 <= i < j < |s| ==> s[i] <= s[j]
  }

  lemma {:induction false} InsertElements(s: seq<int>, v: int)
    ensures multiset(Insert(s, v)) == multiset(s) + multiset{v}
  {
    if s != [] && s[|s| - 1] > v {
      var k := |s| - 1;
      InsertElements(s[..k], v);
      assert s == s[..k] + [s[k]];
      assert Insert(s, v) == Insert(s[..k], v) + [s[k]];
    }
  }

  lemma {:induction false} InsertOrdered(s: seq<int>, v: int, top: int)
    requires Ordered(s) && v <= top && forall i :: 0 <= i < |s| ==> s[i] <= top
    ensures Ordered(Insert(s, v)) && forall i :: 0 <= i < |Insert(s, v)| ==> Insert(s, v)[i] <= top
  {
    if s != [] && s[|s| - 1] > v {
      var k := |s| - 1;
      InsertOrdered(s[..k], v, s[k]);
    }
  }

  /** The result is an ordered permutation. */
  lemma {:induction false} SortIsOrderedPermutation(s: seq<int>)
    ensures Ordered(Sort(s)) && multiset(Sort(s)) == multiset(s)
  {
    if s != [] {
      var k := |s| - 1;
      SortIsOrderedPermutation(s[..k]);
      SortStep(Sort(s[..k]), s[..k], s[k]);
      assert s == s[..k] + [s[k]];
    }
  }

  lemma SortStep(r: seq<int>, s: seq<int>, v: int)
    requires Ordered(r) && multiset(r) == multiset(s)
    ensures Ordered(Insert(r, v)) && multiset(Insert(r, v)) == multiset(s + [v])
  {
    InsertElements(r, v);
    InsertOrdered(r, v, if r != [] && r[|r| - 1] > v then r[|r| - 1] else v);
  }

  // ---- the insertion sort of the block validator ----

  /** Insertion puts v between the elements up to j and the larger ones above. */
  lemma {:induction false} InsertAt(s: seq<int>, j: int, v: int)
    requires -1 <= j < |s| && (j >= 0 ==> s[j] <= v) && forall k :: j < k < |s| ==> s[k] > v
    ensures |Insert(s, v)| == |s| + 1 && Insert(s, v)[j + 1] == v
    ensures forall k :: 0 <= k <= j ==> Insert(s, v)[k] == s[k]
    ensures forall k :: j < k < |s| ==> Insert(s, v)[k + 1] == s[k]
  {
    if j < |s| - 1 {
      InsertAt(s[..|s| - 1], j, v);
    }
  }

  /** Insert element i into the ordered prefix before it by shifting larger elements up. */
  method ShiftInto(times: array<int>, i: nat)
    requires i < times.Length
    modifies times
    ensures times[..i + 1] == Insert(old(times[..i]), old(times[i]))
    ensures forall k :: i < k < times.Length ==> times[k] == old(times[k])
  {
    var v := times[i];
    ghost var s := times[..i];
    var j := i - 1;
    while j >= 0 && times[j] > v
      invariant -1 <= j < i
      invariant forall k :: 0 <= k <= j ==> times[k] == s[k]
      invariant forall k :: j + 1 < k <= i ==> times[k] == s[k - 1]
      invariant forall k :: j < k < i ==> s[k] > v
      invariant forall k :: i < k < times.Length ==> times[k] == old(times[k])
    {
      times[j + 1] := times[j];
      j := j - 1;
    }
    times[j + 1] := v;
    ShiftDone(s, times[..i + 1], j, v);
  }

  lemma ShiftDone(s: seq<int>, r: seq<int>, j: int, v: int)
    requires -1 <= j < |s| == |r| - 1 && (j >= 0 ==> s[j] <= v)
    requires forall k :: 0 <= k <= j ==> r[k] == s[k]
    requires r[j + 1] == v
    requires forall k :: j + 1 < k < |r| ==> r[k] == s[k - 1]
    requires forall k :: j < k < |s| ==> s[k] > v
    ensures r == Insert(s, v)
  {
    InsertAt(s, j, v);
  }

  method InsertionSort(times: array<int>, n: nat)
    requires n <= times.Length
    modifies times
    ensures times[..n] == Sort(old(times[..n]))
    ensures forall k :: n <= k < times.Length ==> times[k] == old(times[k])
  {
    if n == 0 { return; }
    ghost var s := times[..];
    assert s[..1][..0] == [];
    assert times[..1] == s[..1];
    for i := 1 to n
      invariant times[..i] == Sort(s[..i])
      invariant forall k :: i <= k < times.Length ==> times[k] == s[k]
    {
      assert s[..i + 1][..i] == s[..i];
      ShiftInto(times, i);
    }
    assert s[..n] == old(times[..n]);
  }

  // ---- the median as an order statistic ----

  /** How many elements are at least x. */
  function AtLeast(s: seq<int>, x: int): nat {
    if s == [] then 0 else AtLeast(s[..|s| - 1], x) + if s[|s| - 1] >= x then 1 else 0
  }

  lemma {:induction false} AtLeastConcat(a: seq<int>, b: seq<int>, x: int)
    ensures AtLeast(a + b, x) == AtLeast(a, x) + AtLeast(b, x)
  {
    if b == [] {
      assert a + b == a;
    } else {
      assert (a + b)[..|a + b| - 1] == a + b[..|b| - 1];
      AtLeastConcat(a, b[..|b| - 1], x);
    }
  }

  lemma {:induction false} AtLeastInsert(s: seq<int>, v: int, x: int)
    ensures AtLeast(Insert(s, v), x) == AtLeast(s, x) + if v >= x then 1 else 0
  {
    if s != [] && s[|s| - 1] > v { AtLeastInsert(s[..|s| - 1], v, x); }
  }

  lemma {:induction false} AtLeastSort(s: seq<int>, x: int)
    ensures AtLeast(Sort(s), x) == AtLeast(s, x)
  {
    if s != [] {
      AtLeastSort(s[..|s| - 1], x);
      AtLeastInsert(Sort(s[..|s| - 1]), s[|s| - 1], x);
    }
  }

  lemma {:induction false} RankOfOrdered(s: seq<int>, k: nat, x: int)
    requires Ordered(s) && k < |s|
    ensures s[k] >= x <==> AtLeast(s, x) >= |s| - k
  {
    var n := |s| - 1;
    if k < n {
      RankOfOrdered(s[..n], k, x);
      AtMostAll(s[..n], x);
    } else {
      NoneAtLeast(s, x);
    }
  }

  lemma {:induction false} AtMostAll(s: seq<int>, x: int)
    ensures AtLeast(s, x) <= |s|
  {
    if s != [] { AtMostAll(s[..|s| - 1], x); }
  }

  lemma {:induction false} NoneAtLeast(s: seq<int>, x: int)
    requires Ordered(s) && s != []
    ensures s[|s| - 1] < x <==> AtLeast(s, x) == 0
  {
    if |s| > 1 { NoneAtLeast(s[..|s| - 1], x); }
  }

  lemma {:induction false} AtLeastFalls(s: seq<int>, x: int, y: int)
    requires x <= y
    ensures AtLeast(s, x) >= AtLeast(s, y)
  {
    if s != [] { AtLeastFalls(s[..|s| - 1], x, y); }
  }

  /** m is the element of rank k: the greatest value that all but k elements reach. */
  ghost predicate IsRank(s: seq<int>, k: nat, m: int) {
    AtLeast(s, m) >= |s| - k > AtLeast(s, m + 1)
  }

  /** Position k of the sorted elements has rank k. */
  lemma SortedHasRank(s: seq<int>, k: nat)
    requires k < |s|
    ensures IsRank(s, k, Sort(s)[k])
  {
    SortIsOrderedPermutation(s);
    OrderedHasRank(Sort(s), k);
    AtLeastSort(s, Sort(s)[k]);
    AtLeastSort(s, Sort(s)[k] + 1);
  }

  lemma OrderedHasRank(r: seq<int>, k: nat)
    requires Ordered(r) && k < |r|
    ensures IsRank(r, k, r[k])
  {
    RankOfOrdered(r, k, r[k]);
    RankOfOrdered(r, k, r[k] + 1);
  }

  lemma RankIsUnique(s: seq<int>, k: nat, a: int, b: int)
    requires IsRank(s, k, a) && IsRank(s, k, b)
    ensures a == b
  {
    if a < b { AtLeastFalls(s, a + 1, b); }
    if b < a { AtLeastFalls(s, b + 1, a); }
  }

  ghost function Ranked(s: seq<int>, k: nat): (m: int)
    requires k < |s|
    ensures IsRank(s, k, m)
  {
    SortedHasRank(s, k);
    var m :| IsRank(s, k, m);
    m
  }

  /** The median of some times; zero without times. */
  ghost function Median(s: seq<int>): (m: int)
    ensures if s == [] then m == 0 else IsRank(s, |s| / 2, m)
  {
    if s == [] then 0 else Ranked(s, |s| / 2)
  }

  lemma MedianRank(s: seq<int>, x: int)
    requires s != []
    ensures Median(s) >= x <==> AtLeast(s, x) >= |s| - |s| / 2
  {
    var m := Median(s);
    if x <= m { AtLeastFalls(s, x, m); } else { AtLeastFalls(s, m + 1, x); }
  }

  /** The positions of the elements below x. */
  ghost function PositionsBelow(s: seq<int>, x: int): set<int> {
    set i | 0 <= i < |s| && s[i] < x
  }

  /** The positions of the elements not above x. */
  ghost function PositionsUpTo(s: seq<int>, x: int): set<int> {
    set i | 0 <= i < |s| && s[i] <= x
  }

  lemma {:induction false} CountsAddUp(s: seq<int>, x: int)
    ensures |PositionsBelow(s, x)| + AtLeast(s, x) == |s|
  {
    if s != [] {
      var k := |s| - 1;
      CountsAddUp(s[..k], x);
      OneMorePosition(s, x);
    }
  }

  lemma OneMorePosition(s: seq<int>, x: int)
    requires s != []
    ensures var k := |s| - 1;
      |PositionsBelow(s, x)| == |PositionsBelow(s[..k], x)| + if s[k] < x then 1 else 0
  {
    var k := |s| - 1;
    assert PositionsBelow(s, x) == PositionsBelow(s[..k], x) + if s[k] < x then {k} else {};
  }

  /** A rank by counting: at most k elements are smaller, more than k are no greater; and it is one of the elements. */
  lemma RankByCounts(s: seq<int>, k: nat, m: int)
    requires k < |s|
    ensures IsRank(s, k, m) <==> |PositionsBelow(s, m)| <= k < |PositionsUpTo(s, m)|
    ensures IsRank(s, k, m) ==> m in s
  {
    CountsAddUp(s, m);
    CountsAddUp(s, m + 1);
    assert PositionsUpTo(s, m) == PositionsBelow(s, m + 1);
    if m !in s { assert PositionsUpTo(s, m) == PositionsBelow(s, m); }
  }

  /** Of an even number of times the median is the upper of the two in the middle. */
  lemma MedianByCounts(s: seq<int>)
    requires s != []
    ensures Median(s) in s && |PositionsBelow(s, Median(s))| <= |s| / 2 < |PositionsUpTo(s, Median(s))|
  {
    RankByCounts(s, |s| / 2, Median(s));
  }

  /** The element of rank k of a buffer, by sorting it in place. */
  method RankInPlace(a: array<int>, n: nat, k: nat) returns (m: int)
    requires k < n <= a.Length
    modifies a
    ensures IsRank(old(a[..n]), k, m)
  {
    ghost var s := a[..n];
    InsertionSort(a, n);
    SortedHasRank(s, k);
    assert a[k] == a[..n][k];
    m := a[k];
  }

  /** Adding a time above the median, with or without dropping the oldest, never lowers the median. */
  lemma LaterTimeKeepsMedian(s: seq<int>, t: int, drop: bool)
    requires s != [] && t > Median(s) && (drop ==> |s| % 2 == 1)
    ensures Median((if drop then s[1..] else s) + [t]) >= Median(s)
  {
    var m := Median(s);
    var kept := if drop then s[1..] else s;
    MedianRank(s, m);
    MedianRank(kept + [t], m);
    assert s == [s[0]] + s[1..];
    AtLeastConcat([s[0]], s[1..], m);
    assert [s[0]][..0] == [] && [t][..0] == [];
    AtLeastConcat(kept, [t], m);
  }

  // ---- the clock along a chain ----

  /** The newest times of a chain, oldest first, at most eleven of them. */
  function Newest(times: seq<int>): seq<int> {
    if |times| <= WINDOW then times else times[|times| - WINDOW..]
  }

  /** The median time the fold is fed for the block after these times. */
  ghost function Mtp(times: seq<int>): int {
    Median(Newest(times))
  }

  /**
   The validator's time rule for the next block: its predecessors are the newest recorded
   times, padded, while fewer than eleven are recorded, by the checkpoint header's time and
   the time before it.
   */
  function Predecessors(times: seq<int>, start: int, startPrev: int): seq<int> {
    var w := Newest(times);
    if |w| >= WINDOW then w else if |w| == WINDOW - 1 then w + [start] else w + [start, startPrev]
  }

  /** As a bag they are the newest eleven of the two checkpoint times and the recorded ones. */
  lemma PredecessorsAreNewest(times: seq<int>, start: int, startPrev: int)
    ensures multiset(Predecessors(times, start, startPrev)) == multiset(Newest([startPrev, start] + times))
  {
    if |times| >= 11 { FullWindow(times, start, startPrev); }
    if |times| == 10 { OnePadded(times, start, startPrev); }
    if |times| < 10 { TwoPadded(times, start, startPrev); }
  }

  lemma FullWindow(times: seq<int>, start: int, startPrev: int)
    requires |times| >= 11
    ensures Predecessors(times, start, startPrev) == Newest([startPrev, start] + times)
  {
  }

  lemma OnePadded(times: seq<int>, start: int, startPrev: int)
    requires |times| == 10
    ensures multiset(Predecessors(times, start, startPrev)) == multiset(Newest([startPrev, start] + times))
  {
    assert Newest([startPrev, start] + times) == [start] + times;
    SameBag([start], times);
  }

  lemma TwoPadded(times: seq<int>, start: int, startPrev: int)
    requires |times| < 10
    ensures multiset(Predecessors(times, start, startPrev)) == multiset(Newest([startPrev, start] + times))
  {
    SameBag([start, startPrev], times);
    assert multiset([startPrev, start]) == multiset([start, startPrev]);
    Bags([startPrev, start], times);
    Bags([start, startPrev], times);
  }

  lemma Bags(a: seq<int>, b: seq<int>)
    ensures multiset(a + b) == multiset(a) + multiset(b)
  {
  }

  lemma SameBag(a: seq<int>, b: seq<int>)
    ensures multiset(a + b) == multiset(b + a)
  {
  }

  ghost predicate PassesTimeRule(times: seq<int>, start: int, startPrev: int, t: int) {
    t > Median(Predecessors(times, start, startPrev))
  }

  /** The newest times, newest first, at the front of a buffer. */
  method Collect(times: seq<int>) returns (buf: array<int>, n: nat)
    ensures fresh(buf) && buf.Length == WINDOW + 1 && n == |Newest(times)|
    ensures forall k :: 0 <= k < n ==> buf[k] == Newest(times)[n - 1 - k]
  {
    buf := new int[WINDOW + 1](_ => 0);
    n := 0;
    while n < WINDOW && n < |times|
      invariant 0 <= n <= WINDOW && n <= |times|
      invariant forall k :: 0 <= k < n ==> buf[k] == times[|times| - 1 - k]
    {
      buf[n] := times[|times| - 1 - n];
      n := n + 1;
    }
  }

  /** Collect the predecessors, pad with the checkpoint, sort in place, compare with the middle. */
  method CheckTime(times: seq<int>, start: int, startPrev: int, t: int) returns (ok: bool)
    ensures ok <==> PassesTimeRule(times, start, startPrev, t)
  {
    var buf, n := Collect(times);
    ghost var w := Newest(times);
    ghost var recorded := n;
    if n < WINDOW { buf[n] := start; n := n + 1; }
    if n < WINDOW { buf[n] := startPrev; n := n + 1; }
    ghost var all := Predecessors(times, start, startPrev);
    ghost var s := buf[..n];
    assert s == buf[..recorded] + all[recorded..];
    assert all == w + all[recorded..];
    SamePadding(buf[..recorded], w, all[recorded..]);
    var m := RankInPlace(buf, n, n / 2);
    RankIsUnique(all, n / 2, m, Median(all));
    ok := !(t <= m);
  }

  lemma SamePadding(a: seq<int>, b: seq<int>, pad: seq<int>)
    requires |a| == |b| && forall k :: 0 <= k < |a| ==> a[k] == b[|a| - 1 - k]
    ensures forall k: nat, m :: IsRank(a + pad, k, m) <==> IsRank(b + pad, k, m)
  {
    forall x ensures AtLeast(a + pad, x) == AtLeast(b + pad, x) {
      ReversedAtLeast(a, b, x);
      AtLeastConcat(a, pad, x);
      AtLeastConcat(b, pad, x);
    }
  }

  lemma {:induction false} ReversedAtLeast(a: seq<int>, b: seq<int>, x: int)
    requires |a| == |b| && forall k :: 0 <= k < |a| ==> a[k] == b[|a| - 1 - k]
    ensures AtLeast(a, x) == AtLeast(b, x)
  {
    if a != [] {
      var n := |a| - 1;
      assert a == a[..n] + [a[n]] && b == [b[0]] + b[1..];
      ReversedAtLeast(a[..n], b[1..], x);
      AtLeastConcat(a[..n], [a[n]], x);
      AtLeastConcat([b[0]], b[1..], x);
    }
  }

  /** Every recorded time passed the rule when it was added. */
  ghost predicate Validated(times: seq<int>, start: int, startPrev: int) {
    forall i :: 0 <= i < |times| ==> AcceptedAt(times, start, startPrev, i)
  }

  ghost predicate AcceptedAt(times: seq<int>, start: int, startPrev: int, i: nat)
    requires i < |times|
  {
    PassesTimeRule(times[..i], start, startPrev, times[i])
  }

  lemma ClockStep(times: seq<int>, start: int, startPrev: int, k: nat)
    requires Validated(times, start, startPrev) && WINDOW <= k < |times|
    ensures Mtp(times[..k]) <= Mtp(times[..k + 1])
  {
    var w := Newest(times[..k]);
    assert AcceptedAt(times, start, startPrev, k);
    LaterTimeKeepsMedian(w, times[k], true);
    var cut := k + 1 - WINDOW;
    assert times[..k + 1][cut..] == times[..k][cut..] + [times[k]];
    assert w[1..] == times[..k][cut..];
  }

  // ---- before eleven times are recorded ----

  /** A time added without a drop lowers the median exactly when it lies below the upper of two middle times. */
  lemma FallsIffBetweenMiddles(w: seq<int>, t: int)
    requires w != []
    ensures Median(w + [t]) < Median(w) <==> |w| % 2 == 0 && t < Median(w) && AtLeast(w, Median(w)) == |w| / 2
  {
    var m := Median(w);
    MedianRank(w, m);
    MedianRank(w + [t], m);
    AtLeastConcat(w, [t], m);
    assert [t][..0] == [];
  }

  /** What makes block k of a chain lower the clock, in terms of the times before it and its own. */
  ghost predicate StepsBack(times: seq<int>, k: nat)
    requires k < |times|
  {
    var m := Mtp(times[..k]);
    && k < WINDOW && k % 2 == 0 && times[k] < m
    && (k > 0 ==> AtLeast(times[..k], m) == k / 2)
  }

  /** Along a validated chain the clock falls at a block exactly under that condition. */
  lemma ClockFallsIffStepsBack(times: seq<int>, start: int, startPrev: int, k: nat)
    requires Validated(times, start, startPrev) && k < |times|
    ensures Mtp(times[..k + 1]) < Mtp(times[..k]) <==> StepsBack(times, k)
  {
    if k >= WINDOW {
      ClockStep(times, start, startPrev, k);
    } else {
      assert times[..k + 1] == times[..k] + [times[k]];
      if k > 0 {
        FallsIffBetweenMiddles(times[..k], times[k]);
      } else {
        MedianOfOne(times[0]);
        assert times[..0] == [] && times[..1] == [times[0]];
      }
    }
  }

  lemma MedianOfOne(t: int)
    ensures Median([t]) == t
  {
    assert [t][..0] == [];
    assert IsRank([t], 0, t);
    RankIsUnique([t], 0, t, Median([t]));
  }

  ghost predicate ClockIsMonotone(times: seq<int>) {
    forall i, j :: 0 <= i <= j <= |times| ==> Mtp(times[..i]) <= Mtp(times[..j])
  }

  /**
   A validated chain's clock is monotone from its first block on exactly when none of the first eleven blocks
   steps back.
   */
  lemma MonotoneIffNoStepBack(times: seq<int>, start: int, startPrev: int)
    requires Validated(times, start, startPrev)
    ensures ClockIsMonotone(times) <==> forall k :: 0 <= k < |times| && k < WINDOW ==> !StepsBack(times, k)
  {
    if forall k :: 0 <= k < |times| && k < WINDOW ==> !StepsBack(times, k) {
      forall i, j | 0 <= i <= j <= |times| ensures Mtp(times[..i]) <= Mtp(times[..j]) {
        NoFallsBetween(times, start, startPrev, i, j);
      }
    } else {
      var k :| 0 <= k < |times| && k < WINDOW && StepsBack(times, k);
      ClockFallsIffStepsBack(times, start, startPrev, k);
    }
  }

  lemma {:induction false} NoFallsBetween(times: seq<int>, start: int, startPrev: int, i: nat, j: nat)
    requires Validated(times, start, startPrev) && i <= j <= |times|
    requires forall k :: i <= k < j ==> !StepsBack(times, k)
    ensures Mtp(times[..i]) <= Mtp(times[..j])
    decreases j
  {
    if i < j {
      var k := j - 1;
      NoFallsBetween(times, start, startPrev, i, k);
      assert !StepsBack(times, k);
      NoFallAt(times, start, startPrev, k);
    }
  }

  lemma NoFallAt(times: seq<int>, start: int, startPrev: int, k: nat)
    requires Validated(times, start, startPrev) && k < |times| && !StepsBack(times, k)
    ensures Mtp(times[..k]) <= Mtp(times[..k + 1])
  {
    ClockFallsIffStepsBack(times, start, startPrev, k);
  }

  /** Time never runs backwards once eleven predecessors are recorded. */
  lemma ClockNeverRunsBackwards(times: seq<int>, start: int, startPrev: int, i: nat, j: nat)
    requires Validated(times, start, startPrev) && WINDOW <= i <= j <= |times|
    ensures Mtp(times[..i]) <= Mtp(times[..j])
  {
    NoFallsBetween(times, start, startPrev, i, j);
  }

  // ---- rising times ----

  lemma {:induction false} NoneReaches(s: seq<int>, x: int)
    requires forall i :: 0 <= i < |s| ==> s[i] < x
    ensures AtLeast(s, x) == 0
  {
    if s != [] { NoneReaches(s[..|s| - 1], x); }
  }

  /** A chain whose every time is later than all before it passes the rule throughout. */
  lemma RisingTimesAreValidated(times: seq<int>, start: int, startPrev: int)
    requires forall i, j :: 0 <= i < j < |times| ==> times[i] < times[j]
    requires forall i :: 0 <= i < |times| ==> start < times[i] && startPrev < times[i] && 0 < times[i]
    ensures Validated(times, start, startPrev)
  {
    forall i | 0 <= i < |times| ensures AcceptedAt(times, start, startPrev, i) {
      var w := Predecessors(times[..i], start, startPrev);
      NoneReaches(w, times[i]);
      MedianRank(w, times[i]);
    }
  }

  lemma AtLeastOfTwo(a: int, b: int, x: int)
    ensures AtLeast([a, b], x) == (if a >= x then 1 else 0) + (if b >= x then 1 else 0)
  {
    assert [a, b][..1] == [a] && [a][..0] == [];
    assert AtLeast([a], x) == if a >= x then 1 else 0;
  }

  lemma AtLeastOfFour(a: int, b: int, c: int, d: int, x: int)
    ensures AtLeast([a, b, c], x) == AtLeast([a, b], x) + if c >= x then 1 else 0
    ensures AtLeast([a, b, c, d], x) == AtLeast([a, b, c], x) + if d >= x then 1 else 0
  {
    assert [a, b, c, d][..3] == [a, b, c] && [a, b, c][..2] == [a, b];
  }

  /** With fewer predecessors it can: after three validated times the clock steps back. */
  lemma ClockCanStepBackEarly()
    ensures Validated([100, 11, 12], 10, 9) && Mtp([100, 11]) > Mtp([100, 11, 12])
  {
    var times := [100, 11, 12];
    assert times[..0] == [] && times[..1] == [100] && times[..2] == [100, 11];
    MedianRank([10, 9], 100);
    AtLeastOfTwo(10, 9, 100);
    MedianRank([100, 10, 9], 11);
    AtLeastOfTwo(100, 10, 11);
    AtLeastOfFour(100, 10, 9, 0, 11);
    MedianRank([100, 11, 10, 9], 12);
    AtLeastOfTwo(100, 11, 12);
    AtLeastOfFour(100, 11, 10, 9, 12);
    assert [100] + [10, 9] == [100, 10, 9] && [100, 11] + [10, 9] == [100, 11, 10, 9] && [] + [10, 9] == [10, 9];
    MedianRank([100, 11], 100);
    AtLeastOfTwo(100, 11, 100);
    MedianRank(times, 100);
    AtLeastOfFour(100, 11, 12, 0, 100);
  }
}
