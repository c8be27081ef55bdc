/**
 Sales are paid in full over every run: a settled name was reserved by the same buyer on
 an unbroken reservation, and the burn leg with the two matched seller outputs make up
 the listed price; a direct sale is matched whole; one output pays for one thing.
 */
module PaidInFull {
  import opened Primitives
  import opened NameOrder
  import opened Protocol
  import opened Lease
  import opened Fold
  import opened FoldInvariant

  // ---- what a payment is ----

  /** Step k consumed exactly output o of the transaction in progress, and it pays owed. */
  ghost predicate Pays(p: Params, steps: seq<Step>, k: nat, o: nat, owed: Output)
    requires k < |steps|
  {
    var c, d := Exec(p, steps[..k]), Exec(p, steps[..k + 1]);
    && o < |c.tx.spend| && c.tx.spend[o] == owed
    && !c.consumed[o]
    && d.tx == c.tx && d.consumed == c.consumed[o := true]
  }

  /** The sale a locked row offers, apart from its lease. */
  datatype Terms = Terms(st: Status, owner: Hash160, seller: Hash160, sellerType: byte, price: U64,
                         offerExpiry: int, buyer: Hash160, burnLeg: U64, payLeg: U64, reserveExpiry: int)

  function TermsOf(r: NameRow): Terms {
    Terms(r.st, r.owner, r.seller, r.sellerType, r.price, r.offerExpiry, r.buyer, r.burnLeg, r.payLeg, r.reserveExpiry)
  }

  ghost predicate HasTerms(p: Params, steps: seq<Step>, k: nat, n: Name, t: Terms)
    requires k <= |steps|
  {
    var names := Exec(p, steps[..k]).st.names;
    n in names && TermsOf(names[n]) == t
  }

  // ---- single steps ----

  lemma FillKeepsTerms(names: map<Name, NameRow>, sel: seq<Name>, t: Days, mtp: int, n: Name)
    requires (forall m :: m in sel ==> m in names) && forall i, j :: 0 <= i < j < |sel| ==> sel[i] != sel[j]
    ensures n in FillNames(names, sel, t, mtp) <==> n in names
    ensures n in names ==> TermsOf(FillNames(names, sel, t, mtp)[n]) == TermsOf(names[n])
  {
    if sel != [] && (t.huge || t.count > 0) {
      ExtendRows(names, sel, Awards(Headrooms(names, sel, mtp), t));
      if n in sel {
        var i :| 0 <= i < |sel| && sel[i] == n;
      }
    }
  }

  lemma RenewKeepsTerms(p: Params, c: Config, fc: FoldCarrier, n: Name)
    requires fc.c.Renew? || fc.c.RenewName?
    ensures var d := Dispatch(p, c, fc);
      && (n in d.st.names <==> n in c.st.names)
      && (n in c.st.names ==> TermsOf(d.st.names[n]) == TermsOf(c.st.names[n]))
  {
    if fc.c.Renew? {
      var owned := OwnedSorted(c.st.names, c.actor.h160);
      AscendingIsDistinct(owned);
      SelectDistinct(owned, fc.c.flags);
      FillKeepsTerms(c.st.names, SelectBitmap(owned, fc.c.flags), LeaseT(fc.value, c.rate), c.mtp, n);
    } else if Mine(c.st, fc.c.name, c.actor.h160) {
      FillKeepsTerms(c.st.names, [fc.c.name], LeaseT(fc.value, c.rate), c.mtp, n);
    }
  }

  /**
   What an action may do to the sale terms of a name: open, reserve or close a sale by its own operation, else
   nothing.
   */
  ghost predicate SaleStep(c: Config, fc: FoldCarrier, names: map<Name, NameRow>, n: Name) {
    var was := if n in c.st.names then Some(TermsOf(c.st.names[n])) else None;
    var now := if n in names then Some(TermsOf(names[n])) else None;
    && ((was.Some? && was.value.st != Owned) || (now.Some? && now.value.st != Owned) ==>
          || was == now
          || fc.c == Reserve(n) || fc.c == Settle(n) || fc.c == Pay(n)
          || (was.Some? && was.value.st == Owned && now.Some? && (now.value.st == Listed || now.value.st == Offered)))
  }

  lemma TransferSaleStep(p: Params, c: Config, fc: FoldCarrier, n: Name)
    requires fc.c.Transfer?
    ensures SaleStep(c, fc, Perform(p, c, fc).st.names, n)
  {
    var sel := SelectBitmap(OwnedSorted(c.st.names, c.actor.h160), fc.c.flags);
    var names := Perform(p, c, fc).st.names;
    assert names == MovedNames(c.st.names, sel, fc.c.target) || names == c.st.names;
    MovedSaleStep(c, fc, sel, fc.c.target, n);
  }

  lemma ReleaseSaleStep(p: Params, c: Config, fc: FoldCarrier, n: Name)
    requires fc.c.Release?
    ensures SaleStep(c, fc, Perform(p, c, fc).st.names, n)
  {
    var sel := SelectBitmap(OwnedSorted(c.st.names, c.actor.h160), Some(fc.c.bits));
    var names := Perform(p, c, fc).st.names;
    assert names == DroppedNames(c.st.names, sel) || names == c.st.names;
    MovedSaleStep(c, fc, sel, ZERO_20, n);
  }

  lemma MovedSaleStep(c: Config, fc: FoldCarrier, sel: seq<Name>, target: Hash160, n: Name)
    ensures SaleStep(c, fc, MovedNames(c.st.names, sel, target), n)
    ensures SaleStep(c, fc, DroppedNames(c.st.names, sel), n)
    ensures SaleStep(c, fc, c.st.names, n)
  {
  }

  lemma ByNameSaleStep(p: Params, c: Config, fc: FoldCarrier, n: Name)
    requires fc.c.TransferName? || fc.c.ReleaseName?
    ensures SaleStep(c, fc, Perform(p, c, fc).st.names, n)
  {
  }

  lemma ClaimSaleStep(p: Params, c: Config, fc: FoldCarrier, n: Name)
    requires fc.c.Claim? || fc.c.Commit?
    ensures SaleStep(c, fc, Perform(p, c, fc).st.names, n)
  {
  }

  lemma OfferSaleStep(p: Params, c: Config, fc: FoldCarrier, n: Name)
    requires fc.c.Sell? || fc.c.SellTo?
    ensures SaleStep(c, fc, Perform(p, c, fc).st.names, n)
  {
  }

  lemma TradeSaleStep(c: Config, fc: FoldCarrier, n: Name)
    requires fc.c.Trade?
    ensures SaleStep(c, fc,
        ApplyTrade(c.st, c.height, c.tx.inputs, fc.c.idxA, fc.c.idxB, fc.c.nameA, fc.c.nameB).names, n)
  {
  }

  lemma PaidSaleStep(p: Params, c: Config, fc: FoldCarrier, n: Name)
    requires fc.c.Reserve? || fc.c.Settle? || fc.c.Pay?
    ensures SaleStep(c, fc, Perform(p, c, fc).st.names, n)
  {
  }

  lemma DispatchSaleStep(p: Params, c: Config, fc: FoldCarrier, n: Name)
    ensures SaleStep(c, fc, Dispatch(p, c, fc).st.names, n)
  {
    match fc.c
    case Ignore =>
    case As(_) =>
    case Renew(_, _) => RenewKeepsTerms(p, c, fc, n);
    case RenewName(_) => RenewKeepsTerms(p, c, fc, n);
    case Trade(_, _, _, _) => TradeSaleStep(c, fc, n);
    case Claim(_, _) => ClaimSaleStep(p, c, fc, n);
    case Commit(_) => ClaimSaleStep(p, c, fc, n);
    case Sell(_, _, _) => OfferSaleStep(p, c, fc, n);
    case SellTo(_, _, _) => OfferSaleStep(p, c, fc, n);
    case Reserve(_) => PaidSaleStep(p, c, fc, n);
    case Settle(_) => PaidSaleStep(p, c, fc, n);
    case Pay(_) => PaidSaleStep(p, c, fc, n);
    case Transfer(_, _, _) => TransferSaleStep(p, c, fc, n);
    case Release(_, _) => ReleaseSaleStep(p, c, fc, n);
    case _ => ByNameSaleStep(p, c, fc, n);
  }

  /** The three operations that take a payment, when they change the name. */
  lemma PaidOperation(p: Params, c: Config, fc: FoldCarrier, n: Name)
    requires fc.c == Reserve(n) || fc.c == Settle(n) || fc.c == Pay(n)
    ensures var d := Dispatch(p, c, fc);
      || d.st.names == c.st.names
      || (n in c.st.names && c.actor.ok && c.height >= p.activation
          && var r := c.st.names[n];
          if fc.c == Reserve(n) then
            var a := ApplyReserve(c.st, c.mtp, fc.value, n, c.actor, c.tx.spend, c.consumed);
            r.st == Listed && a.taken.Some? && d == Take(c, a) && fc.value >= d.st.names[n].burnLeg
          else if fc.c == Settle(n) then
            var a := ApplySettle(c.st, c.height, c.mtp, n, c.actor, c.tx.spend, c.consumed);
            r.st == Reserved && r.buyer == c.actor.h160 && c.mtp < r.reserveExpiry && a.taken.Some? && d == Take(c, a)
          else
            var a := ApplyPay(c.st, c.height, c.mtp, n, c.actor, c.tx.spend, c.consumed);
            r.st == Offered && r.buyer == c.actor.h160 && c.mtp < r.offerExpiry && a.taken.Some? && d == Take(c, a))
  {
  }

  /** A reservation appears only by a reserve step, and otherwise only its lease moves. */
  lemma ReservedBefore(p: Params, c: Config, step: Step, n: Name)
    requires n in Next(p, c, step).st.names && Next(p, c, step).st.names[n].st == Reserved
    ensures n in c.st.names
    ensures var r, t := c.st.names[n], Next(p, c, step).st.names[n];
      || TermsOf(r) == TermsOf(t)
      || (step.Act? && step.fc.c == Reserve(n) && c.actor.ok && r.st == Listed && t.buyer == c.actor.h160
          && step.fc.value >= t.burnLeg
          && TermsOf(t) == TermsOf(r).(st := Reserved, buyer := t.buyer, burnLeg := t.burnLeg, payLeg := t.payLeg,
                                       reserveExpiry := t.reserveExpiry))
  {
    match step
    case BeginBlock(_, _, _) =>
    case BeginTx(_) =>
    case Act(fc) =>
      DispatchSaleStep(p, c, fc, n);
      if fc.c == Reserve(n) || fc.c == Settle(n) || fc.c == Pay(n) { PaidOperation(p, c, fc, n); }
  }

  /** The reserve step takes the pay leg out of its transaction. */
  lemma ReservePays(p: Params, steps: seq<Step>, k: nat, n: Name)
    requires ValidRun(p, steps) && k < |steps| && steps[k].Act? && steps[k].fc.c == Reserve(n)
    requires n in Exec(p, steps[..k]).st.names && Exec(p, steps[..k]).st.names[n].st == Listed
    requires n in Exec(p, steps[..k + 1]).st.names && Exec(p, steps[..k + 1]).st.names[n].st == Reserved
    ensures var t := Exec(p, steps[..k + 1]).st.names[n];
      exists o :: Pays(p, steps, k, o, Output(t.seller, t.sellerType, t.payLeg))
  {
    StepOfRun(p, steps, k);
    var c := Exec(p, steps[..k]);
    var r := ApplyReserve(c.st, c.mtp, steps[k].fc.value, n, c.actor, c.tx.spend, c.consumed);
    var t := Exec(p, steps[..k + 1]).st.names[n];
    assert r.taken.Some?;
    assert Pays(p, steps, k, r.taken.value, Output(t.seller, t.sellerType, t.payLeg));
  }

  /** Where a reservation standing after j steps came from. */
  ghost predicate ReservedAt(p: Params, steps: seq<Step>, j: nat, n: Name, t: Terms, i: nat)
    requires j <= |steps|
  {
    && i < j
    && steps[i].Act? && steps[i].fc.c == Reserve(n)
    && Exec(p, steps[..i]).actor.ok && Exec(p, steps[..i]).actor.h160 == t.buyer
    && HasTerms(p, steps, i, n, t.(st := Listed, buyer := ZERO_20, burnLeg := 0, payLeg := 0, reserveExpiry := 0))
    && steps[i].fc.value >= t.burnLeg
    && (exists o :: Pays(p, steps, i, o, Output(t.seller, t.sellerType, t.payLeg)))
    && (forall k :: i < k <= j ==> HasTerms(p, steps, k, n, t))
  }

  lemma {:induction false} ReservationHasOrigin(p: Params, steps: seq<Step>, j: nat, n: Name) returns (i: nat)
    requires ValidRun(p, steps) && j <= |steps|
    requires n in Exec(p, steps[..j]).st.names && Exec(p, steps[..j]).st.names[n].st == Reserved
    ensures ReservedAt(p, steps, j, n, TermsOf(Exec(p, steps[..j]).st.names[n]), i)
  {
    assert j > 0 by { assert steps[..0] == []; }
    var k := j - 1;
    StepOfRun(p, steps, k);
    var c, d := Exec(p, steps[..k]), Exec(p, steps[..j]);
    ReservedBefore(p, c, steps[k], n);
    if TermsOf(c.st.names[n]) == TermsOf(d.st.names[n]) {
      i := ReservationHasOrigin(p, steps, k, n);
      StillReserved(p, steps, k, n, TermsOf(d.st.names[n]), i);
    } else {
      ReservedJustNow(p, steps, k, n);
      i := k;
    }
  }

  lemma StillReserved(p: Params, steps: seq<Step>, k: nat, n: Name, t: Terms, i: nat)
    requires k < |steps| && ReservedAt(p, steps, k, n, t, i) && HasTerms(p, steps, k + 1, n, t)
    ensures ReservedAt(p, steps, k + 1, n, t, i)
  {
  }

  lemma ReservedJustNow(p: Params, steps: seq<Step>, k: nat, n: Name)
    requires ValidRun(p, steps) && k < |steps|
    requires n in Exec(p, steps[..k + 1]).st.names && Exec(p, steps[..k + 1]).st.names[n].st == Reserved
    requires n in Exec(p, steps[..k]).st.names
    requires TermsOf(Exec(p, steps[..k]).st.names[n]) != TermsOf(Exec(p, steps[..k + 1]).st.names[n])
    ensures ReservedAt(p, steps, k + 1, n, TermsOf(Exec(p, steps[..k + 1]).st.names[n]), k)
  {
    StepOfRun(p, steps, k);
    var c := Exec(p, steps[..k]);
    ReservedBefore(p, c, steps[k], n);
    assert RowOk(c.st.names[n], c.mtp);
    ReservePays(p, steps, k, n);
  }

  // ---- settling ----

  /** A locked name changes owner only by its buyer's own settle or payment, in time. */
  lemma LockedMovesByPayment(p: Params, c: Config, step: Step, n: Name)
    requires n in c.st.names && c.st.names[n].st != Owned
    requires n in Next(p, c, step).st.names && Next(p, c, step).st.names[n].owner != c.st.names[n].owner
    ensures step.Act? && c.actor.ok && c.actor.h160 == c.st.names[n].buyer
    ensures match c.st.names[n].st
      case Reserved =>
        var a := ApplySettle(c.st, c.height, c.mtp, n, c.actor, c.tx.spend, c.consumed);
        step.fc.c == Settle(n) && c.mtp < c.st.names[n].reserveExpiry && a.taken.Some? && Next(p, c, step) == Take(c, a)
      case Offered =>
        var a := ApplyPay(c.st, c.height, c.mtp, n, c.actor, c.tx.spend, c.consumed);
        step.fc.c == Pay(n) && c.mtp < c.st.names[n].offerExpiry && a.taken.Some? && Next(p, c, step) == Take(c, a)
      case _ => false
  {
    match step
    case BeginBlock(_, _, _) =>
    case BeginTx(_) =>
    case Act(fc) =>
      DispatchSaleStep(p, c, fc, n);
      if fc.c == Reserve(n) || fc.c == Settle(n) || fc.c == Pay(n) { PaidOperation(p, c, fc, n); }
  }

  /**
   Paid in full. Whenever a step moves a reserved name to a new owner, the new owner
   reserved it earlier in the run, the reservation stood unchanged at every moment since,
   the reserve burned at least the burn leg and paid the pay leg to the seller, this step
   pays the remainder to the seller, and the three amounts are the listed price.
   */
  lemma SettledNameIsPaidInFull(p: Params, steps: seq<Step>, j: nat, n: Name) returns (i: nat)
    requires ValidRun(p, steps) && j < |steps|
    requires n in Exec(p, steps[..j]).st.names && Exec(p, steps[..j]).st.names[n].st == Reserved
    requires n in Exec(p, steps[..j + 1]).st.names
    requires Exec(p, steps[..j + 1]).st.names[n].owner != Exec(p, steps[..j]).st.names[n].owner
    ensures var r, s := Exec(p, steps[..j]).st.names[n], Exec(p, steps[..j + 1]).st.names[n];
      && ReservedAt(p, steps, j, n, TermsOf(r), i)
      && s == Plain(r.buyer, r.leaseExpiry)
      && r.seller == r.owner
      && (exists o :: Pays(p, steps, j, o, Output(r.owner, r.sellerType, Remainder(r))))
      && r.burnLeg + r.payLeg + Remainder(r) == r.price
  {
    StepOfRun(p, steps, j);
    var c := Exec(p, steps[..j]);
    LockedMovesByPayment(p, c, steps[j], n);
    i := ReservationHasOrigin(p, steps, j, n);
    assert RowOk(c.st.names[n], c.mtp);
    RemainderIsExact(c.st.names[n], c.mtp);
    var r := ApplySettle(c.st, c.height, c.mtp, n, c.actor, c.tx.spend, c.consumed);
    assert Pays(p, steps, j, r.taken.value,
        Output(c.st.names[n].owner, c.st.names[n].sellerType, Remainder(c.st.names[n])));
  }

  /** An offered name changes owner only by the named buyer paying the seller the whole price. */
  lemma OfferedNameIsPaidInFull(p: Params, steps: seq<Step>, j: nat, n: Name)
    requires ValidRun(p, steps) && j < |steps|
    requires n in Exec(p, steps[..j]).st.names && Exec(p, steps[..j]).st.names[n].st == Offered
    requires n in Exec(p, steps[..j + 1]).st.names
    requires Exec(p, steps[..j + 1]).st.names[n].owner != Exec(p, steps[..j]).st.names[n].owner
    ensures var c := Exec(p, steps[..j]);
      var r, s := c.st.names[n], Exec(p, steps[..j + 1]).st.names[n];
      && steps[j].Act? && steps[j].fc.c == Pay(n) && c.actor.ok && c.actor.h160 == r.buyer && c.mtp < r.offerExpiry
      && s == Plain(r.buyer, r.leaseExpiry)
      && exists o :: Pays(p, steps, j, o, Output(r.owner, r.sellerType, r.price))
  {
    StepOfRun(p, steps, j);
    var c := Exec(p, steps[..j]);
    LockedMovesByPayment(p, c, steps[j], n);
    assert RowOk(c.st.names[n], c.mtp);
    var r := ApplyPay(c.st, c.height, c.mtp, n, c.actor, c.tx.spend, c.consumed);
    assert Pays(p, steps, j, r.taken.value, Output(c.st.names[n].owner, c.st.names[n].sellerType, c.st.names[n].price));
  }

  /** A listed name nobody reserved never changes owner. */
  lemma ListedNameStays(p: Params, c: Config, step: Step, n: Name)
    requires n in c.st.names && c.st.names[n].st == Listed && n in Next(p, c, step).st.names
    ensures Next(p, c, step).st.names[n].owner == c.st.names[n].owner
  {
    if Next(p, c, step).st.names[n].owner != c.st.names[n].owner { LockedMovesByPayment(p, c, step, n); }
  }

  // ---- one output, one payment ----

  lemma ConsumedStays(p: Params, c: Config, step: Step, o: nat)
    requires !step.BeginBlock? && !step.BeginTx? && o < |c.consumed| && c.consumed[o]
    ensures var d := Next(p, c, step); d.tx == c.tx && d.consumed[o]
  {
  }

  lemma {:induction false} ConsumedUntil(p: Params, steps: seq<Step>, i: nat, j: nat, o: nat)
    requires i <= j <= |steps| && forall k :: i <= k < j ==> steps[k].Act?
    requires o < |Exec(p, steps[..i]).consumed| && Exec(p, steps[..i]).consumed[o]
    ensures Exec(p, steps[..j]).tx == Exec(p, steps[..i]).tx && Exec(p, steps[..j]).consumed[o]
    decreases j - i
  {
    if i < j {
      ConsumedUntil(p, steps, i, j - 1, o);
      assert steps[..j][..j - 1] == steps[..j - 1];
      ConsumedStays(p, Exec(p, steps[..j - 1]), steps[j - 1], o);
    }
  }

  /** Two steps of one transaction never pay with the same output. */
  lemma NoOutputPaysTwice(p: Params, steps: seq<Step>, i: nat, j: nat, a: nat, b: nat, owedA: Output, owedB: Output)
    requires i < j < |steps| && forall k :: i <= k <= j ==> steps[k].Act?
    requires Pays(p, steps, i, a, owedA) && Pays(p, steps, j, b, owedB)
    ensures a != b
  {
    ConsumedUntil(p, steps, i + 1, j, a);
  }
}
