/**
 Lease arithmetic: the days a burn pays for, the headroom of a lease, and the
 water-fill that spreads days over several names. The fair split is defined by
 what it promises; two independent algorithms are proved to compute it.
 */
module Lease {
  import opened Primitives
  import opened Protocol

  // ---- days bought by a burn ----

  /** Exact name-days: a wide quotient, zero when the price is zero. */
  function TotalNameDays(burn: U64, rate: U64): nat {
    if rate * BILLING_UNIT == 0 then 0 else (burn * LEASE_QUANTUM) / (rate * BILLING_UNIT)
  }

  datatype Days = Days(count: nat, huge: bool)

  /** The 64-bit form: the denominator is one machine word, a quotient of 2^64 or more is only flagged. */
  function LeaseT(burn: U64, rate: U64): Days {
    var hi := (burn * LEASE_QUANTUM) / TWO_TO_THE_64;
    var den := (rate * BILLING_UNIT) % TWO_TO_THE_64;
    if den == 0 then Days(0, false)
    else if hi >= den then Days(0, true)
    else Days((burn * LEASE_QUANTUM) / den, false)
  }

  lemma QuotientAtLeast(n: nat, d: nat, k: nat)
    requires d > 0
    ensures n / d >= k <==> n >= k * d
  {
    var q, r := n / d, n % d;
    assert n == q * d + r;
    if q >= k {
      assert q * d >= k * d;
    } else {
      assert (q + 1) * d <= k * d;
      assert (q + 1) * d == q * d + d;
    }
  }

  /** While rate * BILLING_UNIT fits one word, the word form flags and counts exactly the wide quotient. */
  lemma LeaseTIsExact(burn: U64, rate: U64)
    requires rate * BILLING_UNIT < TWO_TO_THE_64
    ensures LeaseT(burn, rate).huge <==> TotalNameDays(burn, rate) >= TWO_TO_THE_64
    ensures !LeaseT(burn, rate).huge ==> LeaseT(burn, rate).count == TotalNameDays(burn, rate)
  {
    var n, d := burn * LEASE_QUANTUM, rate * BILLING_UNIT;
    if d > 0 { HighWordTells(n, d, TWO_TO_THE_64); }
  }

  /** The high word reaches the divisor exactly when the quotient reaches the word size. */
  lemma HighWordTells(n: nat, d: nat, w: nat)
    requires d > 0 && w > 0
    ensures n / w >= d <==> n / d >= w
  {
    QuotientAtLeast(n, d, w);
    QuotientAtLeast(n, w, d);
    assert w * d == d * w;
  }

  /** The exact count is the greatest whole number of days the burn covers. */
  lemma DaysAreFloor(burn: U64, rate: U64)
    ensures var t, price := TotalNameDays(burn, rate), rate * BILLING_UNIT;
      if rate == 0 then t == 0 else t * price <= burn * LEASE_QUANTUM < (t + 1) * price
  {
    if rate > 0 { FloorOf(burn * LEASE_QUANTUM, rate * BILLING_UNIT); }
  }

  lemma FloorOf(n: nat, d: nat)
    requires d > 0
    ensures (n / d) * d <= n < (n / d + 1) * d
  {
    assert n == (n / d) * d + n % d;
    assert (n / d + 1) * d == (n / d) * d + d;
  }

  /** At any price the word form counts by the price's low word, and flags a count of 2^64 or more. */
  lemma LeaseTByWord(burn: U64, rate: U64, k: nat, low: U64)
    requires rate * BILLING_UNIT == k * TWO_TO_THE_64 + low
    ensures var t, n := LeaseT(burn, rate), burn * LEASE_QUANTUM;
      if low == 0 then t == Days(0, false)
      else if t.huge then TWO_TO_THE_64 * low <= n
      else t.count * low <= n < (t.count + 1) * low && t.count < TWO_TO_THE_64
  {
    LowWord(rate * BILLING_UNIT, k, low);
    var n := burn * LEASE_QUANTUM;
    if low > 0 {
      FloorOf(n, low);
      HighWordTells(n, low, TWO_TO_THE_64);
      QuotientAtLeast(n, low, TWO_TO_THE_64);
    }
  }

  lemma LowWord(x: nat, k: nat, low: U64)
    requires x == k * TWO_TO_THE_64 + low
    ensures x % TWO_TO_THE_64 == low
  {
  }

  // ---- headroom ----

  /** Whole days a lease can still grow before it reaches MAX_LEASE ahead of now. */
  function HeadroomDays(expiry: int, now: int): (h: nat)
    ensures now <= expiry <= now + MAX_LEASE ==>
        expiry + h * BILLING_UNIT <= now + MAX_LEASE < expiry + (h + 1) * BILLING_UNIT
  {
    var rem := if expiry - now < 0 then 0 else expiry - now;
    var h := (MAX_LEASE - rem) / BILLING_UNIT;
    if h < 0 then 0 else h
  }

  /** Days granted to one name whose lease starts now. */
  function LeaseDaysSingle(burn: U64, rate: U64, expiry: int, now: int): (d: nat)
    ensures d <= HeadroomDays(expiry, now)
  {
    var t := LeaseT(burn, rate);
    if !t.huge && t.count == 0 then 0
    else
      var h := HeadroomDays(expiry, now);
      if t.huge || t.count >= h then h else t.count
  }

  /** They are the whole days the burn buys, capped by the headroom. */
  lemma SingleIsCapped(burn: U64, rate: U64, expiry: int, now: int)
    requires rate * BILLING_UNIT < TWO_TO_THE_64
    ensures LeaseDaysSingle(burn, rate, expiry, now) == Min(TotalNameDays(burn, rate), HeadroomDays(expiry, now))
  {
    LeaseTIsExact(burn, rate);
    HeadroomIsSmall(expiry, now);
  }

  lemma HeadroomIsSmall(expiry: int, now: int)
    ensures HeadroomDays(expiry, now) <= 365
  {
  }

  // ---- sums ----

  function Sum(h: seq<nat>): nat {
    if h == [] then 0 else Sum(h[..|h| - 1]) + h[|h| - 1]
  }

  function SumMin(h: seq<nat>, lam: nat): nat {
    if h == [] then 0 else SumMin(h[..|h| - 1], lam) + Min(h[|h| - 1], lam)
  }

  /** How many names still have room above the level. */
  function Above(h: seq<nat>, lam: nat): nat {
    if h == [] then 0 else Above(h[..|h| - 1], lam) + if h[|h| - 1] > lam then 1 else 0
  }

  lemma {:induction false} RaiseLevel(h: seq<nat>, lam: nat)
    ensures SumMin(h, lam + 1) == SumMin(h, lam) + Above(h, lam)
  {
    if h != [] { RaiseLevel(h[..|h| - 1], lam); }
  }

  lemma {:induction false} SumMinMonotone(h: seq<nat>, a: nat, b: nat)
    requires a <= b
    ensures SumMin(h, a) <= SumMin(h, b) <= Sum(h)
  {
    if h != [] { SumMinMonotone(h[..|h| - 1], a, b); }
  }

  lemma {:induction false} SumMinFull(h: seq<nat>, m: nat)
    requires forall i :: 0 <= i < |h| ==> h[i] <= m
    ensures SumMin(h, m) == Sum(h)
  {
    if h != [] { SumMinFull(h[..|h| - 1], m); }
  }

  lemma {:induction false} SumMinZero(h: seq<nat>)
    ensures SumMin(h, 0) == 0
  {
    if h != [] { SumMinZero(h[..|h| - 1]); }
  }

  lemma {:induction false} SumDominated(a: seq<nat>, b: seq<nat>)
    requires |a| == |b| && forall i :: 0 <= i < |a| ==> a[i] <= b[i]
    ensures Sum(a) <= Sum(b)
    ensures Sum(a) == Sum(b) ==> a == b
  {
    if a != [] {
      var n := |a| - 1;
      SumDominated(a[..n], b[..n]);
      assert a == a[..n] + [a[n]] && b == b[..n] + [b[n]];
    }
  }

  // ---- the fair split ----

  /**
   The awards a of T days over headrooms h: nothing beyond headroom, everything handed out
   up to the total headroom, and a name left below its headroom has no later name ahead of
   it and no earlier name more than one day ahead.
   */
  ghost predicate FairSplit(h: seq<nat>, T: nat, a: seq<nat>) {
    && |a| == |h|
    && (forall i :: 0 <= i < |h| ==> a[i] <= h[i])
    && Sum(a) == Min(T, Sum(h))
    && (forall i, j :: 0 <= i < |h| && 0 <= j < |h| && a[i] < h[i] ==> a[j] <= a[i] + if j < i then 1 else 0)
  }

  lemma FairSplitIsUnique(h: seq<nat>, T: nat, a: seq<nat>, b: seq<nat>)
    requires FairSplit(h, T, a) && FairSplit(h, T, b)
    ensures a == b
  {
    if i :| 0 <= i < |h| && a[i] < b[i] {
      if j :| 0 <= j < |h| && a[j] > b[j] {
        assert false;
      } else {
        SumDominated(a, b);
      }
    } else {
      SumDominated(b, a);
    }
  }

  /** Award of name i at level lam with R spare days: the level, plus one day to the first R names above it. */
  function Award(h: seq<nat>, lam: nat, R: nat, i: nat): nat
    requires i < |h|
  {
    Min(h[i], lam) + if h[i] > lam && Above(h[..i], lam) < R then 1 else 0
  }

  function Dealt(h: seq<nat>, lam: nat, R: nat): (a: seq<nat>)
    ensures |a| == |h| && forall i :: 0 <= i < |h| ==> a[i] == Award(h, lam, R, i)
  {
    seq(|h|, i requires 0 <= i < |h| => Award(h, lam, R, i))
  }

  lemma {:induction false} DealtSum(h: seq<nat>, lam: nat, R: nat)
    ensures Sum(Dealt(h, lam, R)) == SumMin(h, lam) + Min(R, Above(h, lam))
  {
    if h != [] {
      var n := |h| - 1;
      var g := h[..n];
      DealtSum(g, lam, R);
      assert Dealt(h, lam, R)[..n] == Dealt(g, lam, R) by {
        assert forall i :: 0 <= i < n ==> h[..i] == g[..i];
      }
    }
  }

  lemma {:induction false} AboveMonotone(h: seq<nat>, lam: nat, i: nat, j: nat)
    requires i < j <= |h|
    ensures Above(h[..i], lam) + (if h[i] > lam then 1 else 0) <= Above(h[..j], lam)
    decreases j
  {
    assert h[..j][..j - 1] == h[..j - 1];
    if i < j - 1 { AboveMonotone(h, lam, i, j - 1); }
  }

  /** A level with its spare days below the number of names above it deals the fair split. */
  lemma DealtIsFair(h: seq<nat>, T: nat, lam: nat)
    requires SumMin(h, lam) <= T < SumMin(h, lam + 1)
    ensures FairSplit(h, T, Dealt(h, lam, T - SumMin(h, lam)))
  {
    var R := T - SumMin(h, lam);
    var a := Dealt(h, lam, R);
    assert Sum(a) == Min(T, Sum(h)) by {
      RaiseLevel(h, lam);
      DealtSum(h, lam, R);
      SumMinMonotone(h, lam + 1, lam + 1);
    }
    forall i, j | 0 <= i < |h| && 0 <= j < |h| && a[i] < h[i]
      ensures a[j] <= a[i] + if j < i then 1 else 0
    {
      AwardsAreLevel(h, lam, R, i, j);
    }
  }

  lemma AwardsAreLevel(h: seq<nat>, lam: nat, R: nat, i: nat, j: nat)
    requires i < |h| && j < |h| && Award(h, lam, R, i) < h[i]
    ensures Award(h, lam, R, j) <= Award(h, lam, R, i) + if j < i then 1 else 0
  {
    if i < j { AboveMonotone(h, lam, i, j); }
  }

  /** All names at full headroom is the fair split of any larger amount. */
  lemma FullIsFair(h: seq<nat>, T: nat)
    requires T >= Sum(h)
    ensures FairSplit(h, T, h)
  {
  }

  // ---- linear scan for the level ----

  method SumMinLoop(h: seq<nat>, lam: nat) returns (s: nat)
    ensures s == SumMin(h, lam)
  {
    s := 0;
    for i := 0 to |h|
      invariant s == SumMin(h[..i], lam)
    {
      assert h[..i + 1][..i] == h[..i];
      s := s + if h[i] < lam then h[i] else lam;
    }
    assert h[..|h|] == h;
  }

  /** The level, raised one day at a time while the days suffice. */
  method RaiseToLevel(h: seq<nat>, T: nat, maxH: nat) returns (lam: nat)
    requires T < Sum(h) && forall i :: 0 <= i < |h| ==> h[i] <= maxH
    ensures SumMin(h, lam) <= T < SumMin(h, lam + 1)
  {
    lam := 0;
    SumMinZero(h);
    SumMinFull(h, maxH);
    while lam < maxH
      invariant lam <= maxH && SumMin(h, lam) <= T
    {
      var s := SumMinLoop(h, lam + 1);
      if s <= T { lam := lam + 1; } else { break; }
    }
  }

  method TotalHeadroom(h: seq<nat>) returns (totalH: nat, maxH: nat)
    ensures totalH == Sum(h)
    ensures forall k :: 0 <= k < |h| ==> h[k] <= maxH
    ensures maxH == 0 ==> totalH == 0
  {
    totalH, maxH := 0, 0;
    for i := 0 to |h|
      invariant totalH == Sum(h[..i])
      invariant forall k :: 0 <= k < i ==> h[k] <= maxH
      invariant maxH == 0 ==> totalH == 0
    {
      assert h[..i + 1][..i] == h[..i];
      totalH := totalH + h[i];
      if h[i] > maxH { maxH := h[i]; }
    }
    assert h[..|h|] == h;
  }

  /** Days to add to each name, level found by the linear scan. */
  method WaterFillLinear(h: seq<nat>, T: nat, huge: bool) returns (add: seq<nat>)
    ensures FairSplit(h, if huge then Sum(h) else T, add)
  {
    var totalH, maxH := TotalHeadroom(h);
    if huge || T >= totalH {
      return h;
    }
    var lam := RaiseToLevel(h, T, maxH);
    var base := SumMinLoop(h, lam);
    add := Deal(h, lam, T - base);
    DealtIsFair(h, T, lam);
  }

  /** One pass over the names: the level, and a spare day for the first that have room above it. */
  method Deal(h: seq<nat>, lam: nat, spare: nat) returns (add: seq<nat>)
    ensures add == Dealt(h, lam, spare)
  {
    var R := spare;
    add := [];
    for i := 0 to |h|
      invariant |add| == i
      invariant R == spare - Min(spare, Above(h[..i], lam))
      invariant forall k :: 0 <= k < i ==> add[k] == Award(h, lam, spare, k)
    {
      assert h[..i + 1][..i] == h[..i];
      var d := Min(h[i], lam);
      if R > 0 && h[i] > lam {
        d := d + 1;
        R := R - 1;
      }
      add := add + [d];
    }
  }

  // ---- binary search for the level ----

  /** The level found by bisection. */
  method BisectLevel(h: seq<nat>, T: nat, maxH: nat) returns (level: nat)
    requires T < Sum(h) && forall i :: 0 <= i < |h| ==> h[i] <= maxH
    ensures SumMin(h, level) <= T < SumMin(h, level + 1)
  {
    var lo, hi := 0, maxH;
    SumMinZero(h);
    SumMinFull(h, maxH + 1);
    while lo < hi
      invariant 0 <= lo <= hi <= maxH
      invariant SumMin(h, lo) <= T < SumMin(h, hi + 1)
      decreases hi - lo
    {
      var mid := lo + (hi - lo + 1) / 2;
      var s := SumMinLoop(h, mid);
      if s <= T { lo := mid; } else { hi := mid - 1; }
    }
    return lo;
  }

  /** The same awards written into an array: base days first, then the spare days. */
  method WaterFillBisect(T: nat, headroom: seq<nat>) returns (add: array<nat>)
    ensures fresh(add) && FairSplit(headroom, T, add[..])
  {
    var n := |headroom|;
    add := new nat[n](_ => 0);
    var sumH, maxH := TotalHeadroom(headroom);
    if T >= sumH {
      for i := 0 to n
        invariant forall k :: 0 <= k < n ==> add[k] == if k < i then headroom[k] else 0
      {
        add[i] := headroom[i];
      }
      assert add[..] == headroom;
      return;
    }
    var level := BisectLevel(headroom, T, maxH);
    var used := DealBase(headroom, level, add);
    var spare := T - used;
    DealSpare(headroom, level, spare, add);
    assert add[..] == Dealt(headroom, level, spare);
    DealtIsFair(headroom, T, level);
  }

  method DealBase(headroom: seq<nat>, level: nat, add: array<nat>) returns (used: nat)
    requires add.Length == |headroom|
    modifies add
    ensures used == SumMin(headroom, level)
    ensures forall k :: 0 <= k < |headroom| ==> add[k] == Min(headroom[k], level)
  {
    used := 0;
    for i := 0 to |headroom|
      invariant used == SumMin(headroom[..i], level)
      invariant forall k :: 0 <= k < i ==> add[k] == Min(headroom[k], level)
    {
      assert headroom[..i + 1][..i] == headroom[..i];
      add[i] := Min(headroom[i], level);
      used := used + add[i];
    }
    assert headroom[..|headroom|] == headroom;
  }

  method DealSpare(headroom: seq<nat>, level: nat, spare: nat, add: array<nat>)
    requires add.Length == |headroom|
    requires forall k :: 0 <= k < |headroom| ==> add[k] == Min(headroom[k], level)
    modifies add
    ensures forall k :: 0 <= k < |headroom| ==> add[k] == Award(headroom, level, spare, k)
  {
    var remainder := spare;
    var i := 0;
    while i < |headroom| && remainder != 0
      invariant 0 <= i <= |headroom|
      invariant remainder == spare - Min(spare, Above(headroom[..i], level))
      invariant forall k :: 0 <= k < |headroom| ==>
        add[k] == if k < i then Award(headroom, level, spare, k) else Min(headroom[k], level)
    {
      assert headroom[..i + 1][..i] == headroom[..i];
      if headroom[i] > level {
        add[i] := add[i] + 1;
        remainder := remainder - 1;
      }
      i := i + 1;
    }
    forall k | i <= k < |headroom| ensures add[k] == Award(headroom, level, spare, k) {
      if i < k { AboveMonotone(headroom, level, i, k); }
    }
  }

  // ---- the awards as a function of headrooms and days ----

  lemma FairSplitExists(h: seq<nat>, T: nat)
    ensures exists a :: FairSplit(h, T, a)
  {
    if T >= Sum(h) {
      FullIsFair(h, T);
    } else {
      SumMinZero(h);
      var lam := LevelExists(h, T, 0);
      DealtIsFair(h, T, lam);
    }
  }

  lemma {:induction false} LevelExists(h: seq<nat>, T: nat, from: nat) returns (lam: nat)
    requires SumMin(h, from) <= T < Sum(h)
    ensures SumMin(h, lam) <= T < SumMin(h, lam + 1)
    decreases Sum(h) - SumMin(h, from)
  {
    lam := from;
    if SumMin(h, from + 1) <= T {
      RaiseLevel(h, from);
      if Above(h, from) == 0 {
        NothingAbove(h, from);
        SumMinFull(h, from);
      }
      SumMinMonotone(h, from + 1, from + 1);
      lam := LevelExists(h, T, from + 1);
    }
  }

  lemma {:induction false} NothingAbove(h: seq<nat>, lam: nat)
    requires Above(h, lam) == 0
    ensures forall i :: 0 <= i < |h| ==> h[i] <= lam
  {
    if h != [] {
      NothingAbove(h[..|h| - 1], lam);
      assert forall i :: 0 <= i < |h| - 1 ==> h[i] == h[..|h| - 1][i];
    }
  }

  /** The days the fold adds to each name; by uniqueness, what either algorithm returns. */
  ghost function Awards(h: seq<nat>, t: Days): (a: seq<nat>)
    ensures FairSplit(h, if t.huge then Sum(h) else t.count, a)
  {
    FairSplitExists(h, if t.huge then Sum(h) else t.count);
    var a: seq<nat> :| FairSplit(h, if t.huge then Sum(h) else t.count, a);
    a
  }

  /** Both readings of a burn, fed to either algorithm, give the same days to every name. */
  lemma WideAndWordAwardsAgree(h: seq<nat>, burn: U64, rate: U64, a: seq<nat>)
    requires rate * BILLING_UNIT < TWO_TO_THE_64 && Sum(h) < TWO_TO_THE_64
    ensures FairSplit(h, TotalNameDays(burn, rate), a) <==> a == Awards(h, LeaseT(burn, rate))
  {
    LeaseTIsExact(burn, rate);
    var w := Awards(h, LeaseT(burn, rate));
    assert FairSplit(h, TotalNameDays(burn, rate), w);
    if FairSplit(h, TotalNameDays(burn, rate), a) {
      FairSplitIsUnique(h, TotalNameDays(burn, rate), a, w);
    }
  }
}
