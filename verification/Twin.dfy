/**
 The second implementation of the fold, where it reads differently from the first, and why
 the two compute the same states: each difference is harmless only on reachable states.
 */
module Twin {
  import opened Primitives
  import opened NameOrder
  import opened Protocol
  import opened Lease
  import opened Fold
  import opened FoldInvariant
  import opened FoldTables
  import Digits
  import Selection

  // ---- the time step: one sweep over the sorted names, stamping lapses as it meets them ----

  datatype Swept = Swept(names: map<Name, NameRow>, muts: map<Hash160, int>)

  function TwinSweep(s: Swept, keys: seq<Name>, height: int, mtp: int): Swept {
    if keys == [] then s
    else
      var k := |keys| - 1;
      var t := TwinSweep(s, keys[..k], height, mtp);
      if keys[k] !in t.names then t
      else
        var r := AgeRow(t.names[keys[k]], mtp);
        if mtp >= r.leaseExpiry then Swept(t.names - {keys[k]}, BumpMut(t.muts, r.owner, height))
        else Swept(t.names[keys[k] := r], t.muts)
  }

  ghost function TwinStart(s: State, height: int, mtp: int): State {
    var t := TwinSweep(Swept(s.names, s.muts), Sorted(s.names.Keys), height, mtp);
    State(t.names, PruneCommits(s.commits, mtp), t.muts, map[])
  }

  // ---- leases: unbounded day counts, headroom without a lower clamp ----

  function TwinHeadroom(expiry: int, now: int): nat {
    var slack := MAX_LEASE - (expiry - now);
    if slack < 0 then 0 else slack / BILLING_UNIT
  }

  function TwinHeadrooms(names: map<Name, NameRow>, sel: seq<Name>, mtp: int): (h: seq<nat>)
    requires forall n :: n in sel ==> n in names
    ensures |h| == |sel|
  {
    seq(|sel|, i requires 0 <= i < |sel| => TwinHeadroom(names[sel[i]].leaseExpiry, mtp))
  }

  /** The fair split of the unbounded day count. */
  ghost function TwinAwards(h: seq<nat>, burn: U64, rate: U64): seq<nat> {
    Awards(h, Days(TotalNameDays(burn, rate), false))
  }

  ghost function TwinFill(names: map<Name, NameRow>, sel: seq<Name>, burn: U64, rate: U64, mtp: int): map<Name, NameRow>
    requires forall n :: n in sel ==> n in names
  {
    if sel == [] || TotalNameDays(burn, rate) == 0 then names
    else Extend(names, sel, TwinAwards(TwinHeadrooms(names, sel, mtp), burn, rate))
  }

  // ---- selection: one pass over the listing that stops where the flags end ----

  /** Bit i of the flags by shifting its byte down. */
  function FlagBit(flags: Bytes, i: nat): nat
    requires i / 8 < |flags|
  {
    Digits.BitOf(flags[i / 8] as nat, i % 8)
  }

  function PickFrom(owned: seq<Name>, flags: Bytes, i: nat): (sel: seq<Name>)
    ensures forall n :: n in sel ==> n in owned
    decreases |owned| - i
  {
    if i >= |owned| || i / 8 >= |flags| then []
    else (if FlagBit(flags, i) == 1 then [owned[i]] else []) + PickFrom(owned, flags, i + 1)
  }

  function TwinSelect(owned: seq<Name>, flags: Option<Bytes>): (sel: seq<Name>)
    ensures forall n :: n in sel ==> n in owned
  {
    if flags.None? then owned else PickFrom(owned, flags.value, 0)
  }

  ghost function TwinRenew(s: State, height: int, mtp: int, rate: U64, value: U64,
                           anchor: Option<int>, flags: Option<Bytes>, actor: Hash160): State {
    if anchor.Some? && !AnchorOk(s.muts, actor, anchor.value, height) then s
    else
      var sel := TwinSelect(OwnedSorted(s.names, actor), flags);
      s.(names := TwinFill(s.names, sel, value, rate, mtp))
  }

  ghost function TwinRenewName(s: State, mtp: int, rate: U64, value: U64, n: Name, actor: Hash160): State {
    if !Mine(s, n, actor) then s
    else s.(names := TwinFill(s.names, [n], value, rate, mtp))
  }

  // ---- claims: expired commits are skipped, a displaced row is reset ----

  predicate LiveBacks(cm: CommitRow, want: Hash256, height: int, mtp: int) {
    Backs(cm, want, height) && mtp <= cm.commitTime + COMMIT_EXPIRY
  }

  function TwinBest(commits: seq<CommitRow>, want: Hash256, height: int, mtp: int): Option<Priority> {
    if commits == [] then None
    else
      var last := commits[|commits| - 1];
      var best := TwinBest(commits[..|commits| - 1], want, height, mtp);
      var p := Priority(last.height, last.txIndex);
      if LiveBacks(last, want, height, mtp) && (best.None? || Before(p, best.value)) then Some(p) else best
  }

  ghost function TwinClaim(s: State, height: int, mtp: int, rate: U64, value: U64,
                           want: Hash256, name: Name, actor: Hash160): State {
    var best := TwinBest(s.commits, want, height, mtp);
    if best.None? || TotalNameDays(value, rate) == 0 then s
    else
      var add := TwinAwards([TwinHeadroom(mtp, mtp)], value, rate)[0];
      var expiry := mtp + add * BILLING_UNIT;
      var won := s.(scratch := s.scratch[name := ClaimScratch(best.value, actor)],
                    muts := BumpMut(s.muts, actor, height));
      if add <= 0 then s
      else if name !in s.names then
        won.(names := s.names[name := FreshRow(actor, expiry)])
      else if name !in s.scratch then s
      else if s.names[name].st != Owned || s.names[name].owner != s.scratch[name].owner then s
      else if Before(best.value, s.scratch[name].priority) then
        won.(names := s.names[name := ResetMarket(s.names[name].(owner := actor, st := Owned, leaseExpiry := expiry))])
      else s
  }

  // ---- offers: the lease tail is compared in unsigned 64-bit words ----

  function Word(x: int): U64 {
    x % TWO_TO_THE_64
  }

  predicate PastLease(mtp: int, window: U64, expiry: int) {
    Word(Word(mtp) + window + REORG_BUFFER) > Word(expiry)
  }

  function TwinSell(s: State, mtp: int, price: U64, window: U32, n: Name, actor: Identity): State {
    if n !in s.names || s.names[n].owner != actor.h160 || s.names[n].st != Owned || price < 3 * DUST_FLOOR then s
    else
      var w: U64 := if window == 0 then RESERVE_WINDOW else window;
      if window != 0 && window < RESERVE_WINDOW then s
      else if PastLease(mtp, w, s.names[n].leaseExpiry) then s
      else s.(names := s.names[n := s.names[n].(st := Listed, seller := actor.h160, sellerType := actor.styp,
                                                price := price, offerExpiry := mtp + w)])
  }

  function TwinSellTo(s: State, mtp: int, price: U64, buyer: Hash160, n: Name, actor: Identity): State {
    if n !in s.names || s.names[n].owner != actor.h160 || s.names[n].st != Owned || price < DUST_FLOOR then s
    else if PastLease(mtp, DIRECT_WINDOW, s.names[n].leaseExpiry) then s
    else s.(names := s.names[n := s.names[n].(st := Offered, seller := actor.h160, sellerType := actor.styp,
                                              buyer := buyer, price := price, offerExpiry := mtp + DIRECT_WINDOW)])
  }

  function TwinReserve(s: State, mtp: int, value: U64, n: Name, actor: Identity,
                       spend: seq<Output>, consumed: seq<bool>): Outcome
    requires |spend| == |consumed|
  {
    if n !in s.names || s.names[n].st != Listed then Outcome(s, None)
    else
      var r := s.names[n];
      var burnLeg, payLeg := DepositLeg(r.price, RESERVE_BURN_BPS), DepositLeg(r.price, RESERVE_PAY_BPS);
      if value < burnLeg then Outcome(s, None)
      else
        var m := MatchFrom(spend, consumed, Owed(r, payLeg), 0);
        var clamped := if mtp + RESERVE_WINDOW <= r.offerExpiry then mtp + RESERVE_WINDOW else r.offerExpiry;
        if m.None? then Outcome(s, None)
        else Outcome(s.(names := s.names[n := r.(st := Reserved, buyer := actor.h160, burnLeg := burnLeg,
                                                 payLeg := payLeg, reserveExpiry := clamped)]), m)
  }

  // ---- moves: one row after the other ----

  function MoveRows(names: map<Name, NameRow>, sel: seq<Name>, target: Hash160): map<Name, NameRow> {
    if sel == [] then names
    else
      var k := |sel| - 1;
      var rest := MoveRows(names, sel[..k], target);
      if Movable(rest, sel[k]) then rest[sel[k] := rest[sel[k]].(owner := target)] else rest
  }

  function DropRows(names: map<Name, NameRow>, sel: seq<Name>): map<Name, NameRow> {
    if sel == [] then names
    else
      var k := |sel| - 1;
      var rest := DropRows(names, sel[..k]);
      if Movable(rest, sel[k]) then rest - {sel[k]} else rest
  }

  predicate AnyMovable(names: map<Name, NameRow>, sel: seq<Name>) {
    sel != [] && (AnyMovable(names, sel[..|sel| - 1]) || Movable(names, sel[|sel| - 1]))
  }

  ghost function TwinTransfer(s: State, height: int, target: Hash160,
                              anchor: Option<int>, flags: Option<Bytes>, actor: Hash160): State {
    if anchor.Some? && !AnchorOk(s.muts, actor, anchor.value, height) then s
    else
      var sel := TwinSelect(OwnedSorted(s.names, actor), flags);
      if !AnyMovable(s.names, sel) then s
      else s.(names := MoveRows(s.names, sel, target), muts := BumpMut(BumpMut(s.muts, actor, height), target, height))
  }

  ghost function TwinRelease(s: State, height: int, anchor: int, flags: Bytes, actor: Hash160): State {
    if !AnchorOk(s.muts, actor, anchor, height) then s
    else
      var sel := TwinSelect(OwnedSorted(s.names, actor), Some(flags));
      if !AnyMovable(s.names, sel) then s
      else s.(names := DropRows(s.names, sel), muts := BumpMut(s.muts, actor, height))
  }

  /** Both inputs are resolved as acting identities; the rows are then changed one after the other. */
  function TwinTrade(s: State, height: int, tx: FoldTx, ia: int, ib: int, na: Name, nb: Name): State {
    var a, b := NamedInput(tx, ia), NamedInput(tx, ib);
    if ia == ib || !a.ok || !b.ok || na == nb || na !in s.names || nb !in s.names then s
    else if s.names[na].owner != a.h160 || s.names[na].st != Owned then s
    else if s.names[nb].owner != b.h160 || s.names[nb].st != Owned then s
    else
      var first := s.names[na := s.names[na].(owner := b.h160)];
      s.(names := first[nb := first[nb].(owner := a.h160)],
         muts := BumpMut(BumpMut(s.muts, a.h160, height), b.h160, height))
  }

  // ---- sales: the old owner is bumped first, not the recorded seller second ----

  function TwinConvey(s: State, height: int, n: Name, actor: Hash160): State
    requires n in s.names
  {
    s.(names := s.names[n := Sold(s.names[n], actor)],
       muts := BumpMut(BumpMut(s.muts, s.names[n].owner, height), actor, height))
  }

  function TwinSettle(s: State, height: int, mtp: int, n: Name, actor: Identity,
                      spend: seq<Output>, consumed: seq<bool>): Outcome
    requires |spend| == |consumed|
  {
    if n !in s.names || s.names[n].st != Reserved || s.names[n].buyer != actor.h160
       || mtp >= s.names[n].reserveExpiry
    then Outcome(s, None)
    else
      var m := MatchFrom(spend, consumed, Owed(s.names[n], Remainder(s.names[n])), 0);
      if m.None? then Outcome(s, None) else Outcome(TwinConvey(s, height, n, actor.h160), m)
  }

  function TwinPay(s: State, height: int, mtp: int, n: Name, actor: Identity,
                   spend: seq<Output>, consumed: seq<bool>): Outcome
    requires |spend| == |consumed|
  {
    if n !in s.names || s.names[n].st != Offered || s.names[n].buyer != actor.h160
       || mtp >= s.names[n].offerExpiry
    then Outcome(s, None)
    else
      var m := MatchFrom(spend, consumed, Owed(s.names[n], s.names[n].price), 0);
      if m.None? then Outcome(s, None) else Outcome(TwinConvey(s, height, n, actor.h160), m)
  }

  // ---- the second machine ----

  ghost function TwinPerform(p: Params, c: Config, fc: FoldCarrier): Config {
    var a := c.actor;
    match fc.c
    case Claim(salt, name) =>
      c.(st := TwinClaim(c.st, c.height, c.mtp, c.rate, fc.value, Commitment(p.sha, salt, name, a.h160), name, a.h160))
    case Renew(anchor, flags) =>
      c.(st := TwinRenew(c.st, c.height, c.mtp, c.rate, fc.value, anchor, flags, a.h160))
    case RenewName(n) => c.(st := TwinRenewName(c.st, c.mtp, c.rate, fc.value, n, a.h160))
    case Transfer(target, anchor, flags) =>
      c.(st := TwinTransfer(c.st, c.height, target, anchor, flags, a.h160))
    case Release(h, bits) => c.(st := TwinRelease(c.st, c.height, h, bits, a.h160))
    case Sell(price, window, n) => c.(st := TwinSell(c.st, c.mtp, price, window, n, a))
    case SellTo(price, buyer, n) => c.(st := TwinSellTo(c.st, c.mtp, price, buyer, n, a))
    case Reserve(n) => Take(c, TwinReserve(c.st, c.mtp, fc.value, n, a, c.tx.spend, c.consumed))
    case Settle(n) => Take(c, TwinSettle(c.st, c.height, c.mtp, n, a, c.tx.spend, c.consumed))
    case Pay(n) => Take(c, TwinPay(c.st, c.height, c.mtp, n, a, c.tx.spend, c.consumed))
    case _ => Perform(p, c, fc)
  }

  ghost function TwinDispatch(p: Params, c: Config, fc: FoldCarrier): Config {
    if fc.c.Ignore? || c.height < p.activation then c
    else if fc.c.As? then c.(actor := NamedInput(c.tx, fc.c.index))
    else if fc.c.Trade? then
      c.(st := TwinTrade(c.st, c.height, c.tx, fc.c.idxA, fc.c.idxB, fc.c.nameA, fc.c.nameB))
    else if !c.actor.ok then c
    else TwinPerform(p, c, fc)
  }

  /** The acting identity starts as the first input or nobody. */
  ghost function TwinNext(p: Params, c: Config, step: Step): Config {
    match step
    case BeginBlock(height, mtp, rate) =>
      Config(TwinStart(c.st, height, mtp), height, mtp, rate, NO_TX, NOBODY, [])
    case BeginTx(tx) => c.(tx := tx, actor := NamedInput(tx, 0), consumed := seq(|tx.spend|, _ => false))
    case Act(fc) => TwinDispatch(p, c, fc)
  }

  ghost function TwinRun(p: Params, c: Config, steps: seq<Step>): Config {
    if steps == [] then c
    else TwinNext(p, TwinRun(p, c, steps[..|steps| - 1]), steps[|steps| - 1])
  }

  // ---- why the differences do not matter ----

  lemma BumpsCommute(muts: map<Hash160, int>, a: Hash160, b: Hash160, h: int)
    ensures BumpMut(BumpMut(muts, a, h), b, h) == BumpMut(BumpMut(muts, b, h), a, h)
  {
  }

  /** A locked row's seller is its owner, so either bump stamps the same two identities. */
  lemma ConveysAlike(s: State, height: int, mtp: int, n: Name, actor: Hash160)
    requires n in s.names && RowOk(s.names[n], mtp) && s.names[n].st != Owned
    ensures TwinConvey(s, height, n, actor) == Convey(s, height, n, actor)
  {
    BumpsCommute(s.muts, actor, s.names[n].owner, height);
  }

  /** The pre-block step has already pruned what the liveness test would skip. */
  lemma {:induction false} BestAlike(commits: seq<CommitRow>, want: Hash256, height: int, mtp: int)
    requires forall i :: 0 <= i < |commits| ==> mtp <= commits[i].commitTime + COMMIT_EXPIRY
    ensures TwinBest(commits, want, height, mtp) == BestCommit(commits, want, height)
  {
    if commits != [] { BestAlike(commits[..|commits| - 1], want, height, mtp); }
  }

  lemma HeadroomAlike(expiry: int, now: int)
    requires now <= expiry
    ensures TwinHeadroom(expiry, now) == HeadroomDays(expiry, now) <= 365
  {
  }

  lemma {:induction false} SumIsSmall(h: seq<nat>)
    requires forall i :: 0 <= i < |h| ==> h[i] <= 365
    ensures Sum(h) <= 365 * |h|
  {
    if h != [] { SumIsSmall(h[..|h| - 1]); }
  }

  /** A day count that fits is the same in either width; a flagged one fills every headroom. */
  lemma AwardsAlike(h: seq<nat>, burn: U64, rate: U64)
    requires rate * BILLING_UNIT < TWO_TO_THE_64 && Sum(h) < TWO_TO_THE_64
    ensures TwinAwards(h, burn, rate) == Awards(h, LeaseT(burn, rate))
  {
    WideAndWordAwardsAgree(h, burn, rate, TwinAwards(h, burn, rate));
  }

  lemma FillsAlike(names: map<Name, NameRow>, sel: seq<Name>, burn: U64, rate: U64, mtp: int)
    requires forall n :: n in sel ==> n in names
    requires forall n :: n in names ==> RowOk(names[n], mtp)
    requires rate <= RATE_CAP && |sel| < 0x1_0000_0000_0000
    ensures TwinFill(names, sel, burn, rate, mtp) == FillNames(names, sel, LeaseT(burn, rate), mtp)
  {
    var h := Headrooms(names, sel, mtp);
    forall i | 0 <= i < |sel|
      ensures h[i] <= 365 && TwinHeadrooms(names, sel, mtp)[i] == h[i]
    {
      assert RowOk(names[sel[i]], mtp);
      HeadroomAlike(names[sel[i]].leaseExpiry, mtp);
    }
    assert TwinHeadrooms(names, sel, mtp) == h;
    SumIsSmall(h);
    AwardsAlike(h, burn, rate);
    LeaseTIsExact(burn, rate);
  }

  lemma SingleFill(h: nat, burn: U64, rate: U64, a: seq<nat>)
    requires FairSplit([h], TotalNameDays(burn, rate), a)
    ensures |a| == 1 && a[0] == Min(TotalNameDays(burn, rate), h)
  {
    SumOfOne(h);
    SumOfOne(a[0]);
    assert a == [a[0]];
  }

  lemma SumOfOne(x: nat)
    ensures Sum([x]) == x
  {
    assert [x][..0] == [];
  }

  /** A single award is the smaller of the days bought and the headroom, as the first form computes it. */
  lemma SingleAlike(burn: U64, rate: U64, mtp: int)
    requires rate <= RATE_CAP
    ensures TwinAwards([TwinHeadroom(mtp, mtp)], burn, rate) != []
    ensures TotalNameDays(burn, rate) > 0 ==>
              TwinAwards([TwinHeadroom(mtp, mtp)], burn, rate)[0] == LeaseDaysSingle(burn, rate, mtp, mtp)
    ensures TotalNameDays(burn, rate) == 0 ==> LeaseDaysSingle(burn, rate, mtp, mtp) == 0
  {
    HeadroomAlike(mtp, mtp);
    SingleFill(TwinHeadroom(mtp, mtp), burn, rate, TwinAwards([TwinHeadroom(mtp, mtp)], burn, rate));
    LeaseTIsExact(burn, rate);
  }

  lemma ClaimsAlike(s: State, height: int, mtp: int, rate: U64, value: U64, want: Hash256, name: Name, actor: Hash160)
    requires StateOk(s, height, mtp) && rate <= RATE_CAP
    ensures TwinClaim(s, height, mtp, rate, value, want, name, actor)
         == ApplyClaim(s, height, mtp, rate, value, want, name, actor)
  {
    BestAlike(s.commits, want, height, mtp);
    SingleAlike(value, rate, mtp);
    if name in s.names { assert RowOk(s.names[name], mtp); }
  }

  lemma {:induction false} SelectionIsNoLonger(owned: seq<Name>, flags: Option<Bytes>)
    ensures |SelectBitmap(owned, flags)| <= |owned|
  {
    if owned != [] { SelectionIsNoLonger(owned[..|owned| - 1], flags); }
  }

  lemma OwnedIsNoLonger(names: map<Name, NameRow>, o: Hash160)
    ensures |OwnedSorted(names, o)| <= |names|
    ensures forall n :: n in OwnedSorted(names, o) ==> n in names
  {
    SubsetIsNoLarger(OwnedSet(names, o), names.Keys);
  }

  lemma {:induction false} SubsetIsNoLarger(a: set<Name>, b: set<Name>)
    requires a <= b
    ensures |a| <= |b|
  {
    if a != {} {
      var x :| x in a;
      SubsetIsNoLarger(a - {x}, b - {x});
    }
  }

  lemma RenewsAlike(s: State, height: int, mtp: int, rate: U64, value: U64,
                    anchor: Option<int>, flags: Option<Bytes>, actor: Hash160)
    requires StateOk(s, height, mtp) && rate <= RATE_CAP && |s.names| < 0x1_0000_0000_0000
    ensures TwinRenew(s, height, mtp, rate, value, anchor, flags, actor)
         == ApplyRenew(s, height, mtp, rate, value, anchor, flags, actor)
  {
    var owned := OwnedSorted(s.names, actor);
    OwnedIsNoLonger(s.names, actor);
    SelectionIsNoLonger(owned, flags);
    SelectsAlike(owned, flags);
    FillsAlike(s.names, SelectBitmap(owned, flags), value, rate, mtp);
  }

  // ---- the time step ----

  lemma AgeKeepsLease(r: NameRow, mtp: int)
    ensures AgeRow(r, mtp).leaseExpiry == r.leaseExpiry && AgeRow(r, mtp).owner == r.owner
  {
  }

  lemma {:induction false} SweepAges(s: Swept, keys: seq<Name>, i: nat, height: int, mtp: int)
    requires (forall n :: n in keys ==> n in s.names) && forall i, j :: 0 <= i < j < |keys| ==> keys[i] != keys[j]
    requires i <= |keys|
    ensures var t := TwinSweep(s, keys[..i], height, mtp);
      Aging(s.names, s.muts, keys[..i], t.names, t.muts, height, mtp)
  {
    if i == 0 {
      AgedNone(s.names, s.muts, mtp, height);
      assert keys[..0] == [];
    } else {
      var k := i - 1;
      SweepAges(s, keys, k, height, mtp);
      SweepStep(s, keys, k, height, mtp);
    }
  }

  lemma SweepStep(s: Swept, keys: seq<Name>, k: nat, height: int, mtp: int)
    requires k < |keys| && keys[k] in s.names && keys[k] !in keys[..k]
    requires var t := TwinSweep(s, keys[..k], height, mtp);
      Aging(s.names, s.muts, keys[..k], t.names, t.muts, height, mtp)
    ensures var u := TwinSweep(s, keys[..k + 1], height, mtp);
      Aging(s.names, s.muts, keys[..k + 1], u.names, u.muts, height, mtp)
  {
    var t, u := TwinSweep(s, keys[..k], height, mtp), TwinSweep(s, keys[..k + 1], height, mtp);
    assert keys[..k + 1][..k] == keys[..k];
    AgeOne(s.names, keys, k, mtp);
    AgeKeepsLease(t.names[keys[k]], mtp);
    AgingStep(s.names, s.muts, keys, k, t.names, t.muts, u.names, u.muts, height, mtp);
  }

  /** The sweep is the time step of the first form. */
  lemma StartsAlike(s: State, height: int, mtp: int)
    ensures TwinStart(s, height, mtp) == StartBlock(s, height, mtp)
  {
    var keys := Sorted(s.names.Keys);
    AscendingIsDistinct(keys);
    SweepAges(Swept(s.names, s.muts), keys, |keys|, height, mtp);
    assert keys[..|keys|] == keys;
    AgedAll(s.names, keys, mtp);
  }

  // ---- offers and moves ----

  predicate InLong(x: int) {
    -0x8000_0000_0000_0000 <= x < 0x8000_0000_0000_0000
  }

  /** Read as unsigned words, two 64-bit integers compare as they are if and only if both or neither are negative. */
  lemma TailsAlikeIff(mtp: int, window: U64, expiry: int)
    requires InLong(mtp + window + REORG_BUFFER) && InLong(expiry)
    ensures (PastLease(mtp, window, expiry) <==> mtp + window + REORG_BUFFER > expiry)
       <==> (mtp + window + REORG_BUFFER < 0 <==> expiry < 0)
  {
    var sum := mtp + window + REORG_BUFFER;
    WordOfSum(mtp, window + REORG_BUFFER);
    assert Word(sum) == if sum < 0 then sum + TWO_TO_THE_64 else sum;
    assert Word(expiry) == if expiry < 0 then expiry + TWO_TO_THE_64 else expiry;
  }

  lemma WordOfSum(a: int, b: int)
    ensures Word(Word(a) + b) == Word(a + b)
  {
  }

  /** A time whose sum with a window is a 64-bit integer, and not negative. */
  predicate Timely(mtp: int) {
    0 <= mtp && InLong(mtp + 2 * TWO_TO_THE_32)
  }

  lemma OffersAlike(s: State, height: int, mtp: int, price: U64, window: U32, buyer: Hash160, n: Name, actor: Identity)
    requires StateOk(s, height, mtp) && Timely(mtp)
    ensures TwinSell(s, mtp, price, window, n, actor) == ApplySell(s, mtp, price, window, n, actor)
    ensures TwinSellTo(s, mtp, price, buyer, n, actor) == ApplySellTo(s, mtp, price, buyer, n, actor)
  {
    if n in s.names {
      assert RowOk(s.names[n], mtp);
      TailsAlikeIff(mtp, if window == 0 then RESERVE_WINDOW else window, s.names[n].leaseExpiry);
      TailsAlikeIff(mtp, DIRECT_WINDOW, s.names[n].leaseExpiry);
    }
  }

  lemma {:induction false} AnyIsExists(names: map<Name, NameRow>, sel: seq<Name>)
    ensures AnyMovable(names, sel) <==> exists n :: n in sel && Movable(names, n)
  {
    if sel != [] { AnyIsExists(names, sel[..|sel| - 1]); }
  }

  lemma {:induction false} MovedRows(names: map<Name, NameRow>, sel: seq<Name>, target: Hash160)
    ensures MoveRows(names, sel, target) == MovedNames(names, sel, target)
  {
    if sel != [] {
      var k := |sel| - 1;
      MovedRows(names, sel[..k], target);
      assert forall n :: n in sel <==> n in sel[..k] || n == sel[k];
    }
  }

  lemma {:induction false} DroppedRows(names: map<Name, NameRow>, sel: seq<Name>)
    ensures DropRows(names, sel) == DroppedNames(names, sel)
  {
    if sel != [] {
      var k := |sel| - 1;
      DroppedRows(names, sel[..k]);
      assert forall n :: n in sel <==> n in sel[..k] || n == sel[k];
    }
  }

  lemma FlagIsBit(flags: Bytes, i: nat)
    ensures BitSet(flags, i) <==> i / 8 < |flags| && FlagBit(flags, i) == 1
  {
    if i / 8 < |flags| {
      Selection.BitWeights(i % 8);
      Selection.ShiftIsQuotient(flags[i / 8] as nat, i % 8);
    }
  }

  /** One more name at the end is picked if its bit is set. */
  lemma {:induction false} PickSnoc(owned: seq<Name>, n: Name, flags: Bytes, i: nat)
    requires i <= |owned|
    ensures PickFrom(owned + [n], flags, i)
         == PickFrom(owned, flags, i) + if BitSet(flags, |owned|) then [n] else []
    decreases |owned| - i
  {
    FlagIsBit(flags, |owned|);
    var last := if BitSet(flags, |owned|) then [n] else [];
    if i == |owned| {
      PickLast(owned, n, flags);
    } else if i / 8 < |flags| {
      PickSnoc(owned, n, flags, i + 1);
      PickStep(owned + [n], flags, i);
      PickStep(owned, flags, i);
      Joined(if FlagBit(flags, i) == 1 then [owned[i]] else [], PickFrom(owned, flags, i + 1), last);
    }
  }

  lemma PickLast(owned: seq<Name>, n: Name, flags: Bytes)
    ensures PickFrom(owned + [n], flags, |owned|) == if BitSet(flags, |owned|) then [n] else []
  {
    FlagIsBit(flags, |owned|);
  }

  lemma PickStep(owned: seq<Name>, flags: Bytes, i: nat)
    requires i < |owned| && i / 8 < |flags|
    ensures PickFrom(owned, flags, i)
         == (if FlagBit(flags, i) == 1 then [owned[i]] else []) + PickFrom(owned, flags, i + 1)
  {
  }

  lemma Joined(a: seq<Name>, b: seq<Name>, c: seq<Name>)
    ensures a + (b + c) == a + b + c
  {
  }

  lemma {:induction false} PickIsSelection(owned: seq<Name>, flags: Bytes)
    ensures PickFrom(owned, flags, 0) == SelectBitmap(owned, Some(flags))
  {
    if owned != [] {
      var k := |owned| - 1;
      PickIsSelection(owned[..k], flags);
      assert owned == owned[..k] + [owned[k]];
      PickGrows(owned[..k], owned[k], flags);
    }
  }

  lemma PickGrows(owned: seq<Name>, n: Name, flags: Bytes)
    requires PickFrom(owned, flags, 0) == SelectBitmap(owned, Some(flags))
    ensures PickFrom(owned + [n], flags, 0) == SelectBitmap(owned + [n], Some(flags))
  {
    PickSnoc(owned, n, flags, 0);
    assert (owned + [n])[..|owned|] == owned;
  }

  lemma SelectsAlike(owned: seq<Name>, flags: Option<Bytes>)
    ensures TwinSelect(owned, flags) == SelectBitmap(owned, flags)
  {
    if flags.None? { AllSelected(owned); } else { PickIsSelection(owned, flags.value); }
  }

  lemma {:induction false} AllSelected(owned: seq<Name>)
    ensures SelectBitmap(owned, None) == owned
  {
    if owned != [] {
      var k := |owned| - 1;
      AllSelected(owned[..k]);
      assert SelectBitmap(owned, None) == SelectBitmap(owned[..k], None) + [owned[k]];
    }
  }

  lemma TransfersAlike(s: State, height: int, target: Hash160, anchor: Option<int>, flags: Option<Bytes>,
                       actor: Hash160)
    ensures TwinTransfer(s, height, target, anchor, flags, actor)
        == ApplyTransfer(s, height, target, anchor, flags, actor)
  {
    var sel := SelectBitmap(OwnedSorted(s.names, actor), flags);
    SelectsAlike(OwnedSorted(s.names, actor), flags);
    AnyIsExists(s.names, sel);
    MovedRows(s.names, sel, target);
  }

  lemma ReleasesAlike(s: State, height: int, anchor: int, flags: Bytes, actor: Hash160)
    ensures TwinRelease(s, height, anchor, flags, actor) == ApplyRelease(s, height, anchor, flags, actor)
  {
    var sel := SelectBitmap(OwnedSorted(s.names, actor), Some(flags));
    SelectsAlike(OwnedSorted(s.names, actor), Some(flags));
    AnyIsExists(s.names, sel);
    DroppedRows(s.names, sel);
  }

  lemma ReservesAlike(s: State, mtp: int, value: U64, n: Name, actor: Identity, spend: seq<Output>, consumed: seq<bool>)
    requires |spend| == |consumed|
    ensures TwinReserve(s, mtp, value, n, actor, spend, consumed)
        == ApplyReserve(s, mtp, value, n, actor, spend, consumed)
  {
  }

  lemma TradesAlike(s: State, height: int, tx: FoldTx, ia: int, ib: int, na: Name, nb: Name)
    ensures TwinTrade(s, height, tx, ia, ib, na, nb) == ApplyTrade(s, height, tx.inputs, ia, ib, na, nb)
  {
  }

  // ---- whole runs ----

  /** The same configuration, but for which failed identity is remembered. */
  ghost predicate Alike(c: Config, d: Config) {
    && d == c.(actor := d.actor)
    && c.actor.ok == d.actor.ok
    && (c.actor.ok ==> c.actor == d.actor)
  }

  /** Sizes neither implementation's machine words can distinguish. */
  ghost predicate Practical(c: Config) {
    c.rate <= RATE_CAP && Timely(c.mtp) && |c.st.names| < 0x1_0000_0000_0000
  }

  lemma MarketAlike(p: Params, c: Config, fc: FoldCarrier)
    requires Inv(c) && Practical(c)
    requires fc.c.Sell? || fc.c.SellTo? || fc.c.Reserve? || fc.c.Settle? || fc.c.Pay?
    ensures TwinPerform(p, c, fc) == Perform(p, c, fc)
  {
    match fc.c
    case Sell(price, window, n) => OffersAlike(c.st, c.height, c.mtp, price, window, ZERO_20, n, c.actor);
    case SellTo(price, buyer, n) => OffersAlike(c.st, c.height, c.mtp, price, 0, buyer, n, c.actor);
    case Reserve(n) => ReservesAlike(c.st, c.mtp, fc.value, n, c.actor, c.tx.spend, c.consumed);
    case Settle(n) => SalesAlike(c.st, c.height, c.mtp, n, c.actor, c.tx.spend, c.consumed);
    case Pay(n) => SalesAlike(c.st, c.height, c.mtp, n, c.actor, c.tx.spend, c.consumed);
  }

  lemma MovesAlike(p: Params, c: Config, fc: FoldCarrier)
    requires fc.c.Transfer? || fc.c.Release?
    ensures TwinPerform(p, c, fc) == Perform(p, c, fc)
  {
    match fc.c
    case Transfer(target, anchor, flags) => TransfersAlike(c.st, c.height, target, anchor, flags, c.actor.h160);
    case Release(h, bits) => ReleasesAlike(c.st, c.height, h, bits, c.actor.h160);
  }

  lemma PerformAlike(p: Params, c: Config, fc: FoldCarrier)
    requires Inv(c) && Practical(c)
    ensures TwinPerform(p, c, fc) == Perform(p, c, fc)
  {
    var a := c.actor.h160;
    match fc.c
    case Claim(salt, name) =>
      ClaimsAlike(c.st, c.height, c.mtp, c.rate, fc.value, Commitment(p.sha, salt, name, a), name, a);
    case Renew(anchor, flags) =>
      RenewsAlike(c.st, c.height, c.mtp, c.rate, fc.value, anchor, flags, a);
    case RenewName(n) =>
      if Mine(c.st, n, a) { FillsAlike(c.st.names, [n], fc.value, c.rate, c.mtp); }
    case Transfer(_, _, _) => MovesAlike(p, c, fc);
    case Release(_, _) => MovesAlike(p, c, fc);
    case Sell(_, _, _) => MarketAlike(p, c, fc);
    case SellTo(_, _, _) => MarketAlike(p, c, fc);
    case Reserve(_) => MarketAlike(p, c, fc);
    case Settle(_) => MarketAlike(p, c, fc);
    case Pay(_) => MarketAlike(p, c, fc);
    case _ =>
  }

  lemma SalesAlike(s: State, height: int, mtp: int, n: Name, actor: Identity, spend: seq<Output>, consumed: seq<bool>)
    requires StateOk(s, height, mtp) && |spend| == |consumed|
    ensures TwinSettle(s, height, mtp, n, actor, spend, consumed)
        == ApplySettle(s, height, mtp, n, actor, spend, consumed)
    ensures TwinPay(s, height, mtp, n, actor, spend, consumed) == ApplyPay(s, height, mtp, n, actor, spend, consumed)
  {
    if n in s.names && s.names[n].st != Owned {
      assert RowOk(s.names[n], mtp);
      ConveysAlike(s, height, mtp, n, actor.h160);
    }
  }

  lemma StepAlike(p: Params, c: Config, d: Config, step: Step)
    requires Alike(c, d) && Inv(c) && Practical(c)
    ensures Alike(Next(p, c, step), TwinNext(p, d, step))
  {
    match step
    case BeginBlock(height, mtp, _) => StartsAlike(c.st, height, mtp);
    case BeginTx(_) =>
    case Act(fc) =>
      if fc.c.Trade? {
        TradesAlike(c.st, c.height, c.tx, fc.c.idxA, fc.c.idxB, fc.c.nameA, fc.c.nameB);
      } else if c.actor.ok {
        PerformAlike(p, c, fc);
      }
  }

  /** The two implementations agree on every table after every prefix of every run. */
  lemma {:induction false} TwinsAgree(p: Params, steps: seq<Step>)
    requires ValidRun(p, steps)
    requires forall k :: 0 <= k <= |steps| ==> Practical(Exec(p, steps[..k]))
    ensures Alike(Exec(p, steps), TwinRun(p, INITIAL, steps))
    ensures TwinRun(p, INITIAL, steps).st == Exec(p, steps).st
  {
    if steps != [] {
      var k := |steps| - 1;
      forall j | 0 <= j <= k ensures steps[..k][..j] == steps[..j] { }
      ValidPrefix(p, steps, k);
      TwinsAgree(p, steps[..k]);
      RunOk(p, steps[..k]);
      assert Practical(Exec(p, steps[..k]));
      StepAlike(p, Exec(p, steps[..k]), TwinRun(p, INITIAL, steps[..k]), steps[k]);
    }
  }
}
