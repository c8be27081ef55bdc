/**
 What the market and by-name actions do to a row, told field by field: when a listing can be
 reserved, a reservation settled, an offer paid, a name listed, offered, traded, given away or
 dropped, and that otherwise nothing at all happens.
 */
module Market {
  import opened Primitives
  import opened NameOrder
  import opened Protocol
  import opened Lease
  import opened Fold
  import opened FoldInvariant

  // ---- deposit legs ----

  /** A leg is the price in half-percent steps, rounded down, and one unit when that is nothing. */
  predicate LegFor(price: U64, leg: U64) {
    if price < 200 then leg == 1 else 200 * leg <= price < 200 * (leg + 1)
  }

  lemma LegIsHalfPercent(price: U64, leg: U64)
    ensures LegFor(price, leg) <==> leg == DepositLeg(price, RESERVE_BURN_BPS)
    ensures LegFor(price, leg) <==> leg == DepositLeg(price, RESERVE_PAY_BPS)
  {
    assert (price * 50) / 10000 == price / 200;
  }

  /** Every reservation of every run holds two equal legs of half a percent and a positive rest. */
  lemma ReservedLegs(p: Params, steps: seq<Step>, n: Name)
    requires ValidRun(p, steps)
    requires n in Exec(p, steps).st.names && Exec(p, steps).st.names[n].st == Reserved
    ensures var r := Exec(p, steps).st.names[n];
      && (r.price >= 200 ==> 200 * r.burnLeg <= r.price < 200 * (r.burnLeg + 1) && r.payLeg == r.burnLeg)
      && (r.price < 200 ==> r.burnLeg == 1 && r.payLeg == 1)
      && r.burnLeg + r.payLeg < r.price
  {
    RunOk(p, steps);
    var r := Exec(p, steps).st.names[n];
    assert RowOk(r, Exec(p, steps).mtp);
    LegIsHalfPercent(r.price, r.burnLeg);
    LegIsHalfPercent(r.price, r.payLeg);
  }

  // ---- payments ----

  /** Output o pays exactly this, is free, and no free output before it does. */
  ghost predicate FirstPaying(c: Config, owed: Output, o: nat) {
    && o < |c.tx.spend| && c.tx.spend[o] == owed && !c.consumed[o]
    && forall k :: 0 <= k < o && c.tx.spend[k] == owed ==> c.consumed[k]
  }

  lemma FirstPayingIsMatch(c: Config, owed: Output)
    ensures forall o: nat :: FirstPaying(c, owed, o) <==> MatchFrom(c.tx.spend, c.consumed, owed, 0) == Some(o)
  {
    forall o: nat ensures FirstPaying(c, owed, o) <==> MatchFrom(c.tx.spend, c.consumed, owed, 0) == Some(o) {
    }
  }

  /** The configuration with one row replaced and one output used up. */
  ghost function Paid(c: Config, n: Name, row: NameRow, muts: map<Hash160, int>, o: nat): Config
    requires o < |c.consumed|
  {
    c.(st := c.st.(names := c.st.names[n := row], muts := muts), consumed := c.consumed[o := true])
  }

  /** Both stamped with the block's height. */
  ghost function Both(c: Config, a: Hash160, b: Hash160): map<Hash160, int> {
    c.st.muts[a := c.height][b := c.height]
  }

  lemma BothIsBumps(c: Config, a: Hash160, b: Hash160)
    requires Inv(c)
    ensures BumpMut(BumpMut(c.st.muts, a, c.height), b, c.height) == Both(c, a, b)
    ensures BumpMut(c.st.muts, a, c.height) == c.st.muts[a := c.height]
  {
  }

  // ---- reserve ----

  ghost predicate Reservable(c: Config, fc: FoldCarrier, n: Name, leg: U64, o: nat) {
    && n in c.st.names && c.st.names[n].st == Listed
    && LegFor(c.st.names[n].price, leg) && leg <= fc.value
    && FirstPaying(c, Output(c.st.names[n].seller, c.st.names[n].sellerType, leg), o)
  }

  lemma ActReserves(p: Params, c: Config, fc: FoldCarrier)
    requires fc.c.Reserve? && Acting(p, c)
    ensures Next(p, c, Act(fc))
         == Take(c, ApplyReserve(c.st, c.mtp, fc.value, fc.c.name, c.actor, c.tx.spend, c.consumed))
  {
  }

  /**
   An open listing whose leg is burned and paid becomes reserved for the payer until the window or the offer ends; the
   first free output paying the leg is used up, nothing else changes, and without such an output nothing does.
   */
  lemma ReserveTakesAnOpenListing(p: Params, c: Config, fc: FoldCarrier)
    requires fc.c.Reserve? && Acting(p, c)
    ensures var n, d := fc.c.name, Next(p, c, Act(fc));
      && (forall leg, o :: Reservable(c, fc, n, leg, o) ==>
            var r := c.st.names[n];
            d == Paid(c, n, NameRow(r.owner, Reserved, r.leaseExpiry, r.seller, r.sellerType, r.price, r.offerExpiry,
                                    c.actor.h160, leg, leg,
                                    if c.mtp + RESERVE_WINDOW < r.offerExpiry then c.mtp + RESERVE_WINDOW
                                    else r.offerExpiry), c.st.muts, o))
      && ((forall leg, o :: !Reservable(c, fc, n, leg, o)) ==> d == c)
  {
    var n := fc.c.name;
    ActReserves(p, c, fc);
    if n in c.st.names && c.st.names[n].st == Listed {
      var r := c.st.names[n];
      var leg := DepositLeg(r.price, RESERVE_BURN_BPS);
      forall l ensures LegFor(r.price, l) <==> l == leg { LegIsHalfPercent(r.price, l); }
      FirstPayingIsMatch(c, Output(r.seller, r.sellerType, leg));
      var m := MatchFrom(c.tx.spend, c.consumed, Output(r.seller, r.sellerType, leg), 0);
      if m.Some? && leg <= fc.value { assert Reservable(c, fc, n, leg, m.value); }
    }
  }

  // ---- settle and pay ----

  ghost predicate Settleable(c: Config, n: Name, rest: U64, o: nat) {
    && n in c.st.names && c.st.names[n].st == Reserved
    && var r := c.st.names[n];
       && r.buyer == c.actor.h160 && c.mtp < r.reserveExpiry
       && rest + r.burnLeg + r.payLeg == r.price
       && FirstPaying(c, Output(r.seller, r.sellerType, rest), o)
  }

  lemma ActSettles(p: Params, c: Config, fc: FoldCarrier)
    requires fc.c.Settle? && Acting(p, c)
    ensures Next(p, c, Act(fc))
         == Take(c, ApplySettle(c.st, c.height, c.mtp, fc.c.name, c.actor, c.tx.spend, c.consumed))
  {
  }

  /** Its reserver in time, paying the seller what the legs left of the price, owns the name, unlocked; else nothing. */
  lemma SettleSells(p: Params, c: Config, fc: FoldCarrier)
    requires fc.c.Settle? && Acting(p, c) && Inv(c)
    ensures var n, d := fc.c.name, Next(p, c, Act(fc));
      && (forall rest, o :: Settleable(c, n, rest, o) ==>
            var r := c.st.names[n];
            d == Paid(c, n, Plain(c.actor.h160, r.leaseExpiry), Both(c, c.actor.h160, r.owner), o))
      && ((forall rest, o :: !Settleable(c, n, rest, o)) ==> d == c)
  {
    var n := fc.c.name;
    ActSettles(p, c, fc);
    if n in c.st.names && c.st.names[n].st == Reserved {
      var r := c.st.names[n];
      assert RowOk(r, c.mtp);
      RemainderIsExact(r, c.mtp);
      BothIsBumps(c, c.actor.h160, r.seller);
      FirstPayingIsMatch(c, Output(r.seller, r.sellerType, Remainder(r)));
      var m := MatchFrom(c.tx.spend, c.consumed, Output(r.seller, r.sellerType, Remainder(r)), 0);
      if m.Some? && r.buyer == c.actor.h160 && c.mtp < r.reserveExpiry {
        assert Settleable(c, n, Remainder(r), m.value);
      }
    }
  }

  ghost predicate Payable(c: Config, n: Name, o: nat) {
    && n in c.st.names && c.st.names[n].st == Offered
    && var r := c.st.names[n];
       && r.buyer == c.actor.h160 && c.mtp < r.offerExpiry
       && FirstPaying(c, Output(r.seller, r.sellerType, r.price), o)
  }

  lemma ActPays(p: Params, c: Config, fc: FoldCarrier)
    requires fc.c.Pay? && Acting(p, c)
    ensures Next(p, c, Act(fc))
         == Take(c, ApplyPay(c.st, c.height, c.mtp, fc.c.name, c.actor, c.tx.spend, c.consumed))
  {
  }

  /** The named buyer in time, paying the seller the price, owns the name, unlocked; else nothing. */
  lemma PaySells(p: Params, c: Config, fc: FoldCarrier)
    requires fc.c.Pay? && Acting(p, c) && Inv(c)
    ensures var n, d := fc.c.name, Next(p, c, Act(fc));
      && (forall o :: Payable(c, n, o) ==>
            var r := c.st.names[n];
            d == Paid(c, n, Plain(c.actor.h160, r.leaseExpiry), Both(c, c.actor.h160, r.owner), o))
      && ((forall o :: !Payable(c, n, o)) ==> d == c)
  {
    var n := fc.c.name;
    ActPays(p, c, fc);
    if n in c.st.names && c.st.names[n].st == Offered {
      var r := c.st.names[n];
      assert RowOk(r, c.mtp);
      BothIsBumps(c, c.actor.h160, r.seller);
      FirstPayingIsMatch(c, Output(r.seller, r.sellerType, r.price));
      var m := MatchFrom(c.tx.spend, c.consumed, Output(r.seller, r.sellerType, r.price), 0);
      if m.Some? && r.buyer == c.actor.h160 && c.mtp < r.offerExpiry { assert Payable(c, n, m.value); }
    }
  }

  // ---- offers ----

  /** The configuration with one row replaced and these mutation heights. */
  ghost function With(c: Config, n: Name, row: NameRow, muts: map<Hash160, int>): Config {
    c.(st := c.st.(names := c.st.names[n := row], muts := muts))
  }

  /** The actor owns the name and it is not in a sale. */
  ghost predicate Free(c: Config, n: Name, owner: Hash160) {
    n in c.st.names && c.st.names[n].owner == owner && c.st.names[n].st == Owned
  }

  /** An own unlocked name is put up for the window asked, 18000 seconds when none is, if its lease outlives that. */
  lemma SellLists(p: Params, c: Config, fc: FoldCarrier)
    requires fc.c.Sell? && Acting(p, c) && Inv(c)
    ensures var n, d, end := fc.c.name, Next(p, c, Act(fc)), c.mtp + if fc.c.window == 0 then 18_000 else fc.c.window;
      d == if Free(c, n, c.actor.h160) && fc.c.price >= 3 && end - c.mtp >= 18_000
              && end + 7_200 <= c.st.names[n].leaseExpiry
           then With(c, n, NameRow(c.actor.h160, Listed, c.st.names[n].leaseExpiry, c.actor.h160, c.actor.styp,
                                   fc.c.price, end, ZERO_20, 0, 0, 0), c.st.muts)
           else c
  {
    assert fc.c.name in c.st.names ==> RowOk(c.st.names[fc.c.name], c.mtp);
  }

  /** An own unlocked name is offered to one buyer for 7200 seconds, if its lease outlives that. */
  lemma SellToOffers(p: Params, c: Config, fc: FoldCarrier)
    requires fc.c.SellTo? && Acting(p, c) && Inv(c)
    ensures var n, d, end := fc.c.name, Next(p, c, Act(fc)), c.mtp + 7_200;
      d == if Free(c, n, c.actor.h160) && fc.c.price >= 1 && end + 7_200 <= c.st.names[n].leaseExpiry
           then With(c, n, NameRow(c.actor.h160, Offered, c.st.names[n].leaseExpiry, c.actor.h160, c.actor.styp,
                                   fc.c.price, end, fc.c.buyer, 0, 0, 0), c.st.muts)
           else c
  {
    assert fc.c.name in c.st.names ==> RowOk(c.st.names[fc.c.name], c.mtp);
  }

  // ---- by name ----

  lemma TransferNameGives(p: Params, c: Config, fc: FoldCarrier)
    requires fc.c.TransferName? && Acting(p, c) && Inv(c)
    ensures Next(p, c, Act(fc)) == if Free(c, fc.c.name, c.actor.h160)
      then With(c, fc.c.name, Plain(fc.c.target, c.st.names[fc.c.name].leaseExpiry), Both(c, c.actor.h160, fc.c.target))
      else c
  {
    BothIsBumps(c, c.actor.h160, fc.c.target);
    assert fc.c.name in c.st.names ==> RowOk(c.st.names[fc.c.name], c.mtp);
  }

  lemma ReleaseNameDrops(p: Params, c: Config, fc: FoldCarrier)
    requires fc.c.ReleaseName? && Acting(p, c) && Inv(c)
    ensures Next(p, c, Act(fc)) == if Free(c, fc.c.name, c.actor.h160)
      then c.(st := c.st.(names := map n | n in c.st.names && n != fc.c.name :: c.st.names[n],
                          muts := c.st.muts[c.actor.h160 := c.height]))
      else c
  {
    BothIsBumps(c, c.actor.h160, c.actor.h160);
    var n := fc.c.name;
    assert c.st.names - {n} == map m | m in c.st.names && m != n :: c.st.names[m];
  }

  lemma ActRenewsName(p: Params, c: Config, fc: FoldCarrier)
    requires fc.c.RenewName? && Acting(p, c)
    ensures Next(p, c, Act(fc)) == c.(st := ApplyRenewName(c.st, c.mtp, c.rate, fc.value, fc.c.name, c.actor.h160))
  {
  }

  /** An own name, in a sale or not, gains the whole days the burn buys, as far as its year allows. */
  lemma RenewNameExtends(p: Params, c: Config, fc: FoldCarrier)
    requires fc.c.RenewName? && Acting(p, c) && c.rate * BILLING_UNIT < TWO_TO_THE_64
    ensures Next(p, c, Act(fc)) == if !Mine(c.st, fc.c.name, c.actor.h160) then c
      else
        var r := c.st.names[fc.c.name];
        var days := Min(TotalNameDays(fc.value, c.rate), HeadroomDays(r.leaseExpiry, c.mtp));
        With(c, fc.c.name, r.(leaseExpiry := r.leaseExpiry + days * BILLING_UNIT), c.st.muts)
  {
    ActRenewsName(p, c, fc);
    if Mine(c.st, fc.c.name, c.actor.h160) { OneFilled(c, fc.c.name, fc.value); }
  }

  lemma OneFilled(c: Config, n: Name, burn: U64)
    requires n in c.st.names && c.rate * BILLING_UNIT < TWO_TO_THE_64
    ensures var r := c.st.names[n];
      var days := Min(TotalNameDays(burn, c.rate), HeadroomDays(r.leaseExpiry, c.mtp));
      FillNames(c.st.names, [n], LeaseT(burn, c.rate), c.mtp)
      == c.st.names[n := r.(leaseExpiry := r.leaseExpiry + days * BILLING_UNIT)]
  {
    var r, t := c.st.names[n], LeaseT(burn, c.rate);
    var h := Headrooms(c.st.names, [n], c.mtp);
    var a := Awards(h, t);
    LeaseTIsExact(burn, c.rate);
    HeadroomIsSmall(r.leaseExpiry, c.mtp);
    assert Sum(h) == h[0] by { assert h[..0] == []; }
    assert Sum(a) == a[0] by { assert a[..0] == []; }
    ExtendRows(c.st.names, [n], a);
    if !t.huge && t.count == 0 { assert r.(leaseExpiry := r.leaseExpiry + 0 * BILLING_UNIT) == r; }
  }

  // ---- trade ----

  /** Two different verified inputs, each owning one of two different unlocked names. */
  ghost predicate Tradable(c: Config, fc: FoldCarrier)
    requires fc.c.Trade?
  {
    var ins, ia, ib := c.tx.inputs, fc.c.idxA, fc.c.idxB;
    && 0 <= ia < |ins| && 0 <= ib < |ins| && ia != ib && ins[ia].ok && ins[ib].ok && fc.c.nameA != fc.c.nameB
    && Free(c, fc.c.nameA, ins[ia].h160) && Free(c, fc.c.nameB, ins[ib].h160)
  }

  /** A trade swaps the owners of the two names, whoever the acting identity is, or nothing happens. */
  lemma TradeSwaps(p: Params, c: Config, fc: FoldCarrier)
    requires fc.c.Trade? && c.height >= p.activation && Inv(c)
    ensures var d := Next(p, c, Act(fc));
      if !Tradable(c, fc) then d == c
      else
        var a, b := c.tx.inputs[fc.c.idxA].h160, c.tx.inputs[fc.c.idxB].h160;
        && d == c.(st := c.st.(names := d.st.names, muts := Both(c, a, b)))
        && d.st.names.Keys == c.st.names.Keys
        && d.st.names[fc.c.nameA] == Plain(b, c.st.names[fc.c.nameA].leaseExpiry)
        && d.st.names[fc.c.nameB] == Plain(a, c.st.names[fc.c.nameB].leaseExpiry)
        && forall n :: n in c.st.names && n != fc.c.nameA && n != fc.c.nameB ==> d.st.names[n] == c.st.names[n]
  {
    if Tradable(c, fc) {
      BothIsBumps(c, c.tx.inputs[fc.c.idxA].h160, c.tx.inputs[fc.c.idxB].h160);
      assert RowOk(c.st.names[fc.c.nameA], c.mtp) && RowOk(c.st.names[fc.c.nameB], c.mtp);
    }
  }

  // ---- the acting identity ----

  /** A transaction opens with none of its outputs used and its first input acting, if that is verified. */
  lemma TxOpens(p: Params, c: Config, tx: FoldTx)
    ensures var d := Next(p, c, BeginTx(tx));
      && d.st == c.st && d.height == c.height && d.mtp == c.mtp && d.rate == c.rate && d.tx == tx
      && (forall o :: 0 <= o < |tx.spend| ==> !d.consumed[o])
      && (d.actor.ok <==> |tx.inputs| > 0 && tx.inputs[0].ok)
      && (d.actor.ok ==> d.actor == tx.inputs[0])
  {
  }

  /** Naming an input makes it the acting identity exactly when it exists and is verified; otherwise nobody acts. */
  lemma AsActs(p: Params, c: Config, fc: FoldCarrier)
    requires fc.c.As? && c.height >= p.activation
    ensures var d, k := Next(p, c, Act(fc)), fc.c.index;
      && d == c.(actor := d.actor)
      && (d.actor.ok <==> 0 <= k < |c.tx.inputs| && c.tx.inputs[k].ok)
      && (d.actor.ok ==> d.actor == c.tx.inputs[k])
  {
  }

  /** Without a verified identity, or below activation, an action leaves the tables alone; only trades need none. */
  lemma NobodyActs(p: Params, c: Config, fc: FoldCarrier)
    requires !c.actor.ok || c.height < p.activation
    ensures c.height < p.activation ==> Next(p, c, Act(fc)) == c
    ensures !fc.c.Trade? ==> Next(p, c, Act(fc)).st == c.st && Next(p, c, Act(fc)).consumed == c.consumed
  {
  }
}
