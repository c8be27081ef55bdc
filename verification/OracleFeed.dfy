/**
 The oracle feed: per-block inputs in height order, from which the median time and the
 rent rate of a connecting block are derived. What a height is given depends only on the
 rows below it, so rows above may be present or rolled back.
 */
module OracleFeed {
  import opened Primitives
  import opened Protocol
  import opened MedianTime

  datatype Blk = Blk(height: int, time: int, coinbase: int, bytes: int)

  ghost predicate Ascending(v: seq<Blk>) {
    forall i, j :: 0 <= i < j < |v| ==> v[i].height < v[j].height
  }

  // ---- rent rate ----

  /** Whole fees per byte a block paid; none when the miner claimed less than the subsidy. */
  function FeePerByte(coinbase: int, subsidy: int, bytes: int): nat {
    if coinbase <= subsidy then 0 else (coinbase - subsidy) / if bytes <= 0 then 1 else bytes
  }

  /** The fee-bearing blocks of a window. */
  function Participants(w: seq<Blk>, subsidy: int): seq<int> {
    if w == [] then [] else
      var b := w[|w| - 1];
      var f := FeePerByte(b.coinbase, subsidy, b.bytes);
      Participants(w[..|w| - 1], subsidy) + if f >= 1 then [f as int] else []
  }

  function Clamp(x: int): (r: U64)
    ensures DUST_FLOOR <= r <= RATE_CAP
    ensures DUST_FLOOR <= x <= RATE_CAP ==> r == x
    ensures r != x ==> x < r == DUST_FLOOR || x > r == RATE_CAP
  {
    if x > RATE_CAP then RATE_CAP else if x < DUST_FLOOR then DUST_FLOOR else x
  }

  /** The lower median of the participants times the reference size, clamped; the floor on a small sample. */
  ghost function Rate(w: seq<Blk>, subsidy: int): (r: U64)
    ensures DUST_FLOOR <= r <= RATE_CAP
  {
    var p := Participants(w, subsidy);
    if |p| < MIN_FEE_SAMPLE then DUST_FLOOR
    else Clamp(Ranked(p, (|p| - 1) / 2) * REF_SIZE)
  }

  // ---- what the rate is ----

  /** The block paid v whole units of fees per byte and at least one; a size that is not positive counts as one byte. */
  predicate PaysPerByte(b: Blk, subsidy: int, v: int) {
    var bytes := if b.bytes <= 0 then 1 else b.bytes;
    v >= 1 && v * bytes <= b.coinbase - subsidy < (v + 1) * bytes
  }

  lemma PaysIsFee(b: Blk, subsidy: int, v: int)
    ensures PaysPerByte(b, subsidy, v) <==> v == FeePerByte(b.coinbase, subsidy, b.bytes) && v >= 1
  {
    var bytes, fees := if b.bytes <= 0 then 1 else b.bytes, b.coinbase - subsidy;
    if fees > 0 {
      Quotient(fees, bytes);
      if PaysPerByte(b, subsidy, v) {
        QuotientIsUnique(fees, bytes, v, fees / bytes);
        QuotientIsUnique(fees, bytes, fees / bytes, v);
      }
    } else if v >= 1 {
      AtLeastOne(v, bytes);
    }
  }

  lemma Quotient(n: nat, d: nat)
    requires d > 0
    ensures (n / d) * d <= n < (n / d + 1) * d
  {
    assert n == (n / d) * d + n % d;
    assert (n / d + 1) * d == (n / d) * d + d;
  }

  lemma AtLeastOne(v: int, d: int)
    requires v >= 1 && d >= 1
    ensures v * d >= 1
  {
  }

  lemma QuotientIsUnique(n: int, d: nat, v: int, w: int)
    requires d > 0 && v * d <= n < (w + 1) * d
    ensures v <= w
  {
    if v > w { Scaled(w + 1, v, d); }
  }

  lemma Scaled(a: int, b: int, d: nat)
    requires a <= b
    ensures a * d <= b * d
  {
  }

  /** The fees f are those of the paying blocks of the window, each once, in its order; at says where they stand. */
  ghost predicate FeesOf(w: seq<Blk>, subsidy: int, f: seq<int>, at: seq<nat>) {
    && |at| == |f| && (forall j :: 0 <= j < |f| ==> at[j] < |w| && PaysPerByte(w[at[j]], subsidy, f[j]))
    && (forall j, k :: 0 <= j < k < |at| ==> at[j] < at[k])
    && (forall i, v :: 0 <= i < |w| && PaysPerByte(w[i], subsidy, v) ==> i in at)
  }

  lemma {:induction false} ParticipantsPay(w: seq<Blk>, subsidy: int) returns (at: seq<nat>)
    ensures FeesOf(w, subsidy, Participants(w, subsidy), at)
  {
    at := [];
    if w != [] {
      var k := |w| - 1;
      var rest := ParticipantsPay(w[..k], subsidy);
      var f := FeePerByte(w[k].coinbase, subsidy, w[k].bytes);
      at := rest + if f >= 1 then [k] else [];
      FeesNext(w, subsidy, Participants(w[..k], subsidy), rest, f);
    }
  }

  lemma FeesNext(w: seq<Blk>, subsidy: int, f: seq<int>, at: seq<nat>, fee: nat)
    requires w != [] && FeesOf(w[..|w| - 1], subsidy, f, at)
    requires fee == FeePerByte(w[|w| - 1].coinbase, subsidy, w[|w| - 1].bytes)
    ensures if fee >= 1 then FeesOf(w, subsidy, f + [fee as int], at + [|w| - 1]) else FeesOf(w, subsidy, f, at)
  {
    var k := |w| - 1;
    PaysIsFee(w[k], subsidy, fee);
    forall v ensures PaysPerByte(w[k], subsidy, v) <==> v == fee && v >= 1 { PaysIsFee(w[k], subsidy, v); }
    StillThere(w, subsidy, f, at);
    if fee >= 1 { OneMore(w, subsidy, f, at, fee); }
  }

  /** What the blocks before the last one paid is still paid. */
  lemma StillThere(w: seq<Blk>, subsidy: int, f: seq<int>, at: seq<nat>)
    requires w != [] && FeesOf(w[..|w| - 1], subsidy, f, at)
    ensures forall j :: 0 <= j < |f| ==> at[j] < |w| - 1 && PaysPerByte(w[at[j]], subsidy, f[j])
    ensures forall i, v :: 0 <= i < |w| - 1 && PaysPerByte(w[i], subsidy, v) ==> i in at
  {
    forall i, v | 0 <= i < |w| - 1 && PaysPerByte(w[i], subsidy, v) ensures i in at {
      assert PaysPerByte(w[..|w| - 1][i], subsidy, v);
    }
    forall j | 0 <= j < |f| ensures at[j] < |w| - 1 && PaysPerByte(w[at[j]], subsidy, f[j]) {
      assert PaysPerByte(w[..|w| - 1][at[j]], subsidy, f[j]);
    }
  }

  lemma OneMore(w: seq<Blk>, subsidy: int, f: seq<int>, at: seq<nat>, fee: int)
    requires w != [] && |at| == |f| && PaysPerByte(w[|w| - 1], subsidy, fee)
    requires forall j :: 0 <= j < |f| ==> at[j] < |w| - 1 && PaysPerByte(w[at[j]], subsidy, f[j])
    requires forall j, k :: 0 <= j < k < |at| ==> at[j] < at[k]
    requires forall i, v :: 0 <= i < |w| - 1 && PaysPerByte(w[i], subsidy, v) ==> i in at
    ensures FeesOf(w, subsidy, f + [fee], at + [|w| - 1])
  {
    var all, k := at + [|w| - 1], |w| - 1;
    assert all[|at|] == k;
    forall i, v | 0 <= i < |w| && PaysPerByte(w[i], subsidy, v) ensures i in all {
      if i < k { assert i in at; }
    }
  }

  /**
   The rate by counting: the floor below a thousand paying blocks; from a thousand on 200 times the lower of the two
   middle fees, of a single middle one if their number is odd, kept within its bounds.
   */
  ghost predicate IsRate(w: seq<Blk>, subsidy: int, rate: U64) {
    exists f, at :: FeesOf(w, subsidy, f, at) && if |f| < 1000 then rate == 1 else IsMiddleRate(f, rate)
  }

  ghost predicate IsMiddleRate(f: seq<int>, rate: U64) {
    exists v :: v in f && 2 * |PositionsBelow(f, v)| < |f| <= 2 * |PositionsUpTo(f, v)| && rate == Clamp(200 * v)
  }

  lemma RateIsMiddleFee(w: seq<Blk>, subsidy: int)
    ensures IsRate(w, subsidy, Rate(w, subsidy))
  {
    var f := Participants(w, subsidy);
    var at := ParticipantsPay(w, subsidy);
    if |f| >= MIN_FEE_SAMPLE {
      var k := (|f| - 1) / 2;
      RankByCounts(f, k, Ranked(f, k));
      assert IsMiddleRate(f, Rate(w, subsidy));
    }
  }

  /** Nothing else is a rate of the window. */
  lemma RateIsUnique(w: seq<Blk>, subsidy: int, rate: U64)
    requires IsRate(w, subsidy, rate)
    ensures rate == Rate(w, subsidy)
  {
    var f, at :| FeesOf(w, subsidy, f, at) && if |f| < 1000 then rate == 1 else IsMiddleRate(f, rate);
    FeesAreParticipants(w, subsidy, f, at);
    if |f| >= 1000 {
      MiddleIsRanked(f, rate);
    }
  }

  lemma MiddleIsRanked(f: seq<int>, rate: U64)
    requires f != [] && IsMiddleRate(f, rate)
    ensures rate == Clamp(Ranked(f, (|f| - 1) / 2) * REF_SIZE)
  {
    var v :| v in f && 2 * |PositionsBelow(f, v)| < |f| <= 2 * |PositionsUpTo(f, v)| && rate == Clamp(200 * v);
    var k := (|f| - 1) / 2;
    RankByCounts(f, k, v);
    RankIsUnique(f, k, v, Ranked(f, k));
  }

  lemma {:induction false} FeesAreParticipants(w: seq<Blk>, subsidy: int, f: seq<int>, at: seq<nat>)
    requires FeesOf(w, subsidy, f, at)
    ensures f == Participants(w, subsidy)
  {
    if w != [] {
      var k, last := |w| - 1, |at| - 1;
      if FeePerByte(w[k].coinbase, subsidy, w[k].bytes) >= 1 {
        LastPays(w, subsidy, f, at);
        FeesAreParticipants(w[..k], subsidy, f[..last], at[..last]);
      } else {
        LastIsIdle(w, subsidy, f, at);
        FeesAreParticipants(w[..k], subsidy, f, at);
      }
    } else {
      NoMoreThan(at, 0);
    }
  }

  lemma {:induction false} NoMoreThan(at: seq<nat>, n: nat)
    requires (forall j :: 0 <= j < |at| ==> at[j] < n) && forall j, k :: 0 <= j < k < |at| ==> at[j] < at[k]
    ensures |at| <= n
  {
    if at != [] { NoMoreThan(at[..|at| - 1], at[|at| - 1]); }
  }

  lemma LargestIsLast(at: seq<nat>, top: nat)
    requires forall j, k :: 0 <= j < k < |at| ==> at[j] < at[k]
    requires top in at && forall j :: 0 <= j < |at| ==> at[j] <= top
    ensures at[|at| - 1] == top
  {
    var j :| 0 <= j < |at| && at[j] == top;
  }

  lemma LastPays(w: seq<Blk>, subsidy: int, f: seq<int>, at: seq<nat>)
    requires w != [] && FeesOf(w, subsidy, f, at)
    requires FeePerByte(w[|w| - 1].coinbase, subsidy, w[|w| - 1].bytes) >= 1
    ensures var k, last := |w| - 1, |at| - 1;
      && last >= 0 && FeesOf(w[..k], subsidy, f[..last], at[..last])
      && f == f[..last] + [FeePerByte(w[k].coinbase, subsidy, w[k].bytes) as int]
  {
    var k, last := |w| - 1, |at| - 1;
    var fee := FeePerByte(w[k].coinbase, subsidy, w[k].bytes);
    PaysIsFee(w[k], subsidy, fee);
    LargestIsLast(at, k);
    PaysIsFee(w[k], subsidy, f[last]);
    forall i, v | 0 <= i < k && PaysPerByte(w[..k][i], subsidy, v) ensures i in at[..last] {
      assert PaysPerByte(w[i], subsidy, v) && at == at[..last] + [k];
    }
  }

  lemma LastIsIdle(w: seq<Blk>, subsidy: int, f: seq<int>, at: seq<nat>)
    requires w != [] && FeesOf(w, subsidy, f, at)
    requires FeePerByte(w[|w| - 1].coinbase, subsidy, w[|w| - 1].bytes) < 1
    ensures FeesOf(w[..|w| - 1], subsidy, f, at)
  {
    var k := |w| - 1;
    forall j | 0 <= j < |at| ensures at[j] < k {
      PaysIsFee(w[at[j]], subsidy, f[j]);
    }
    forall i, v | 0 <= i < k && PaysPerByte(w[..k][i], subsidy, v) ensures i in at {
      assert PaysPerByte(w[i], subsidy, v);
    }
  }

  lemma {:induction false} ParticipantsAreFewer(w: seq<Blk>, subsidy: int)
    ensures |Participants(w, subsidy)| <= |w|
  {
    if w != [] { ParticipantsAreFewer(w[..|w| - 1], subsidy); }
  }

  method CollectParticipants(w: seq<Blk>, subsidy: int) returns (fpb: seq<int>)
    ensures fpb == Participants(w, subsidy)
  {
    fpb := [];
    for i := 0 to |w|
      invariant fpb == Participants(w[..i], subsidy)
    {
      assert w[..i + 1][..i] == w[..i];
      if w[i].coinbase <= subsidy { continue; }
      var fees := w[i].coinbase - subsidy;
      var b := w[i].bytes;
      if b <= 0 { b := 1; }
      var v := fees / b;
      if v >= 1 { fpb := fpb + [v]; }
    }
    assert w[..|w|] == w;
  }

  /** The element of a rank, by sorting a copy in place. */
  method Nth(s: seq<int>, k: nat) returns (m: int)
    requires k < |s|
    ensures m == Ranked(s, k)
  {
    var a := new int[|s|](i requires 0 <= i < |s| => s[i]);
    assert a[..|s|] == s;
    m := RankInPlace(a, |s|, k);
    RankIsUnique(s, k, m, Ranked(s, k));
  }

  method OracleRate(w: seq<Blk>, subsidy: int) returns (rate: U64)
    ensures rate == Rate(w, subsidy) && IsRate(w, subsidy, rate)
  {
    RateIsMiddleFee(w, subsidy);
    var fpb := CollectParticipants(w, subsidy);
    if |fpb| < MIN_FEE_SAMPLE { return DUST_FLOOR; }
    var med := Nth(fpb, (|fpb| - 1) / 2);
    rate := Clamp(med * REF_SIZE);
  }

  // ---- what lies below a height ----

  function Below(v: seq<Blk>, h: int): seq<Blk> {
    if v == [] then []
    else Below(v[..|v| - 1], h) + if v[|v| - 1].height < h then [v[|v| - 1]] else []
  }

  /** Times of the newest rows below h, oldest first, at most k of them. */
  function NewestBelow(v: seq<Blk>, h: int, k: nat): seq<int> {
    if v == [] || k == 0 then []
    else if v[|v| - 1].height < h then NewestBelow(v[..|v| - 1], h, k - 1) + [v[|v| - 1].time]
    else NewestBelow(v[..|v| - 1], h, k)
  }

  /** Rows of the fee window below h. */
  function FeeRows(v: seq<Blk>, h: int): seq<Blk> {
    if v == [] then []
    else
      var b := v[|v| - 1];
      FeeRows(v[..|v| - 1], h) + if h - FEE_WINDOW <= b.height < h then [b] else []
  }

  ghost function MtpAt(v: seq<Blk>, h: int): int {
    Median(NewestBelow(v, h, WINDOW))
  }

  ghost function RateAt(v: seq<Blk>, h: int, subsidy: int): U64 {
    Rate(FeeRows(v, h), subsidy)
  }

  lemma {:induction false} FeeRowsAreFewer(v: seq<Blk>, h: int)
    ensures |FeeRows(v, h)| <= |v|
  {
    if v != [] { FeeRowsAreFewer(v[..|v| - 1], h); }
  }

  /** The rows of the fee window: those of the last 10081 heights below h, each once, in height order. */
  lemma {:induction false} FeeRowsAre(v: seq<Blk>, h: int)
    requires Ascending(v)
    ensures Ascending(FeeRows(v, h))
    ensures forall b :: b in FeeRows(v, h) <==> b in v && h - 10_081 <= b.height < h
  {
    if v != [] {
      var n := |v| - 1;
      FeeRowsAre(v[..n], h);
      assert v == v[..n] + [v[n]];
      forall b | b in FeeRows(v[..n], h) ensures b.height < v[n].height {
        assert b in v[..n];
      }
    }
  }

  /** Until enough rows are recorded the rate is the floor. */
  lemma FewRowsGiveFloor(v: seq<Blk>, h: int, subsidy: int)
    requires |v| < MIN_FEE_SAMPLE
    ensures RateAt(v, h, subsidy) == DUST_FLOOR
  {
    FeeRowsAreFewer(v, h);
    ParticipantsAreFewer(FeeRows(v, h), subsidy);
  }

  /** Rows at or above a height make no difference to it. */
  lemma {:induction false} OnlyRowsBelowMatter(v: seq<Blk>, w: seq<Blk>, h: int, k: nat)
    requires forall i :: 0 <= i < |w| ==> w[i].height >= h
    ensures NewestBelow(v + w, h, k) == NewestBelow(v, h, k)
    ensures FeeRows(v + w, h) == FeeRows(v, h)
  {
    if w == [] {
      assert v + w == v;
    } else {
      assert (v + w)[..|v + w| - 1] == v + w[..|w| - 1];
      OnlyRowsBelowMatter(v, w[..|w| - 1], h, k);
    }
  }

  function Times(v: seq<Blk>): (t: seq<int>)
    ensures |t| == |v| && forall i :: 0 <= i < |v| ==> t[i] == v[i].time
  {
    seq(|v|, i requires 0 <= i < |v| => v[i].time)
  }

  lemma {:induction false} NewestIsSuffix(v: seq<Blk>, h: int, k: nat)
    requires forall i :: 0 <= i < |v| ==> v[i].height < h
    ensures |NewestBelow(v, h, k)| == Min(k, |v|)
    ensures forall i :: 0 <= i < Min(k, |v|) ==> NewestBelow(v, h, k)[i] == v[|v| - Min(k, |v|) + i].time
  {
    if v != [] && k > 0 {
      NewestIsSuffix(v[..|v| - 1], h, k - 1);
    }
  }

  /** For the block after a recorded chain, the feed's median is the median of its newest times. */
  lemma MtpOfTip(v: seq<Blk>, h: int)
    requires forall i :: 0 <= i < |v| ==> v[i].height < h
    ensures MtpAt(v, h) == Mtp(Times(v))
  {
    NewestIsSuffix(v, h, WINDOW);
    assert Newest(Times(v)) == NewestBelow(v, h, WINDOW);
  }

  /** Distinct heights: the fee window never holds more rows than it has heights. */
  lemma {:induction false} FeeRowsBounded(v: seq<Blk>, h: int, top: int)
    requires Ascending(v) && forall i :: 0 <= i < |v| ==> v[i].height < top
    ensures |FeeRows(v, h)| <= (if top <= h - FEE_WINDOW then 0
                                else if top <= h then top - (h - FEE_WINDOW)
                                else FEE_WINDOW)
  {
    if v != [] {
      var n := |v| - 1;
      FeeRowsBounded(v[..n], h, v[n].height);
    }
  }

  lemma {:induction false} FeeRowsGrow(v: seq<Blk>, h: int, i: nat)
    requires i <= |v|
    ensures |FeeRows(v[..i], h)| <= |FeeRows(v, h)|
    ensures |FeeRows(v[..i], h)| == |FeeRows(v, h)| ==> FeeRows(v[..i], h) == FeeRows(v, h)
  {
    if i == |v| {
      assert v[..i] == v;
    } else {
      var n := |v| - 1;
      assert v[..n][..i] == v[..i];
      FeeRowsGrow(v[..n], h, i);
    }
  }

  // ---- the feed object ----

  class Feed {
    var v: seq<Blk>
    const subsidy: int

    constructor (subsidy: int)
      ensures v == [] && this.subsidy == subsidy
    {
      this.subsidy := subsidy;
      v := [];
    }

    /** Drop everything at or above a height. */
    method Rollback(height: int)
      requires Ascending(v)
      modifies this`v
      ensures v == Below(old(v), height) && Ascending(v)
      ensures forall i :: 0 <= i < |v| ==> v[i].height < height
    {
      ghost var dropped: seq<Blk> := [];
      while |v| > 0 && v[|v| - 1].height >= height
        invariant old(v) == v + dropped && Ascending(v)
        invariant forall i :: 0 <= i < |dropped| ==> dropped[i].height >= height
        decreases |v|
      {
        dropped := [v[|v| - 1]] + dropped;
        v := v[..|v| - 1];
      }
      BelowKeeps(v, dropped, height);
    }

    /** Append a block's row; a height recorded before is replaced, with everything above it. */
    method Record(height: int, time: int, coinbase: int, bytes: int)
      requires Ascending(v)
      modifies this`v
      ensures v == Below(old(v), height) + [Blk(height, time, coinbase, bytes)] && Ascending(v)
    {
      Rollback(height);
      v := v + [Blk(height, time, coinbase, bytes)];
    }

    /** Median time and rate of the block connecting at a height. */
    method ForHeight(height: int) returns (mtp: int, rate: U64)
      requires Ascending(v)
      ensures mtp == MtpAt(v, height) && rate == RateAt(v, height, subsidy)
    {
      mtp := MedianFor(height);
      var rows: seq<Blk> := [];
      var i := 0;
      while i < |v| && |rows| < FEE_WINDOW
        invariant 0 <= i <= |v| && rows == FeeRows(v[..i], height)
      {
        assert v[..i + 1][..i] == v[..i];
        if v[i].height >= height - FEE_WINDOW && v[i].height < height {
          rows := rows + [v[i]];
        }
        i := i + 1;
      }
      FeeRowsGrow(v, height, i);
      FeeRowsBounded(v, height, if v == [] then 0 else v[|v| - 1].height + 1);
      assert v[..|v|] == v;
      rate := OracleRate(rows, subsidy);
    }

    /** The newest times below a height, collected newest first and reversed in place. */
    method CollectTimes(height: int) returns (ts: array<int>, nt: nat)
      ensures fresh(ts) && nt <= ts.Length && ts[..nt] == NewestBelow(v, height, WINDOW)
    {
      ts := new int[WINDOW](_ => 0);
      nt := 0;
      var i := |v| - 1;
      assert v[..|v|] == v;
      while i >= 0 && nt < WINDOW
        invariant -1 <= i < |v| && 0 <= nt <= WINDOW
        invariant NewestBelow(v, height, WINDOW) == NewestBelow(v[..i + 1], height, WINDOW - nt) + Reverse(ts[..nt])
      {
        assert v[..i + 1][..i] == v[..i];
        if v[i].height < height {
          ghost var before := ts[..nt];
          ts[nt] := v[i].time;
          assert ts[..nt + 1] == before + [v[i].time];
          ReverseAppend(before, v[i].time);
          nt := nt + 1;
        }
        i := i - 1;
      }
      ReverseInPlace(ts, nt);
    }

    method MedianFor(height: int) returns (mtp: int)
      ensures mtp == MtpAt(v, height)
    {
      var ts, nt := CollectTimes(height);
      ghost var s := ts[..nt];
      if nt == 0 { return 0; }
      mtp := RankInPlace(ts, nt, nt / 2);
      RankIsUnique(s, nt / 2, mtp, MtpAt(v, height));
    }
  }

  function Reverse(s: seq<int>): (r: seq<int>)
    ensures |r| == |s| && forall k :: 0 <= k < |s| ==> r[k] == s[|s| - 1 - k]
  {
    seq(|s|, k requires 0 <= k < |s| => s[|s| - 1 - k])
  }

  lemma ReverseAppend(s: seq<int>, x: int)
    ensures Reverse(s + [x]) == [x] + Reverse(s)
  {
  }

  method ReverseInPlace(ts: array<int>, n: nat)
    requires n <= ts.Length
    modifies ts
    ensures ts[..n] == Reverse(old(ts[..n]))
  {
    if n == 0 { return; }
    var a, b := 0, n - 1;
    while a < b
      invariant 0 <= a <= b + 1 <= n && a + b == n - 1
      invariant forall k :: 0 <= k < n ==> ts[k] == if k < a || k > b then old(ts[n - 1 - k]) else old(ts[k])
    {
      ts[a], ts[b] := ts[b], ts[a];
      a, b := a + 1, b - 1;
    }
  }

  lemma {:induction false} BelowKeeps(v: seq<Blk>, w: seq<Blk>, h: int)
    requires v == [] || v[|v| - 1].height < h
    requires Ascending(v) && forall i :: 0 <= i < |w| ==> w[i].height >= h
    ensures Below(v + w, h) == v && forall i :: 0 <= i < |v| ==> v[i].height < h
  {
    if w == [] {
      assert v + w == v;
      AllBelow(v, h);
    } else {
      assert (v + w)[..|v + w| - 1] == v + w[..|w| - 1];
      BelowKeeps(v, w[..|w| - 1], h);
    }
  }

  /** The rows below a height are the leading ones. */
  lemma BelowIsPrefix(v: seq<Blk>, h: int, k: nat)
    requires Ascending(v) && k <= |v|
    requires (k > 0 ==> v[k - 1].height < h) && (k < |v| ==> v[k].height >= h)
    ensures Below(v, h) == v[..k]
  {
    var low, high := v[..k], v[k..];
    assert v == low + high;
    forall i | 0 <= i < |high| ensures high[i].height >= h {
      assert high[i] == v[k + i] && (i > 0 ==> v[k].height < v[k + i].height);
    }
    BelowKeeps(low, high, h);
  }

  lemma {:induction false} AllBelow(v: seq<Blk>, h: int)
    requires forall i :: 0 <= i < |v| ==> v[i].height < h
    ensures Below(v, h) == v
  {
    if v != [] {
      var rest, last := v[..|v| - 1], v[|v| - 1];
      forall i | 0 <= i < |rest| ensures rest[i].height < h {
        assert rest[i] == v[i];
      }
      AllBelow(rest, h);
      assert v == rest + [last];
    }
  }
}
