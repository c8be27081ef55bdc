/**
 Nobody's row changes without them: inside a block the row of a name changes only in a
 transaction with a verified input of its owner, or by a reserve, settle or payment the owner
 opened the way for, or by a better claim of the block that minted it.
 */
module Consent {
  import opened Primitives
  import opened NameOrder
  import opened Protocol
  import opened Lease
  import opened Fold
  import opened FoldInvariant
  import opened CommitSteps
  import ClaimRuns
  import Market
  import Selection

  ghost predicate SignedBy(tx: FoldTx, o: Hash160) {
    exists i :: 0 <= i < |tx.inputs| && tx.inputs[i].ok && tx.inputs[i].h160 == o
  }

  /** The way an owner who does not sign can still see the row change. */
  ghost predicate SaleGoesOn(c: Config, fc: FoldCarrier, n: Name)
    requires n in c.st.names
  {
    var r := c.st.names[n];
    || (fc.c == Reserve(n) && r.st == Listed)
    || (fc.c == Settle(n) && r.st == Reserved && c.actor.h160 == r.buyer && c.mtp < r.reserveExpiry)
    || (fc.c == Pay(n) && r.st == Offered && c.actor.h160 == r.buyer && c.mtp < r.offerExpiry)
  }

  /** A claim of the block that minted the name, while the mint's claimant still holds it. */
  ghost predicate MintContested(c: Config, fc: FoldCarrier, n: Name)
    requires n in c.st.names
  {
    fc.c.Claim? && fc.c.name == n && n in c.st.scratch
    && c.st.names[n].st == Owned && c.st.names[n].owner == c.st.scratch[n].owner
  }

  ghost predicate SameRow(c: Config, d: Config, n: Name)
    requires n in c.st.names
  {
    n in d.st.names && d.st.names[n] == c.st.names[n]
  }

  /** The actor signs, and the owner is the actor, is needed for a change. */
  ghost predicate OwnedByActor(c: Config, n: Name)
    requires n in c.st.names
  {
    c.st.names[n].owner == c.actor.h160
  }

  // ---- action by action ----

  lemma BitmapActionsAskTheOwner(p: Params, c: Config, fc: FoldCarrier, n: Name)
    requires Inv(c) && Acting(p, c) && n in c.st.names && (fc.c.Transfer? || fc.c.Release?)
    ensures SameRow(c, Next(p, c, Act(fc)), n) || OwnedByActor(c, n)
  {
    if fc.c.Transfer? {
      Selection.TransferMovesTheChosen(p, c, fc);
    } else {
      Selection.ReleaseDropsTheChosen(p, c, fc);
    }
  }

  lemma RenewAsksTheOwner(p: Params, c: Config, fc: FoldCarrier, n: Name)
    requires Acting(p, c) && n in c.st.names && !OwnedByActor(c, n) && fc.c.Renew?
    ensures SameRow(c, Next(p, c, Act(fc)), n)
  {
    Selection.ActRenews(p, c, fc);
    var owned := OwnedSorted(c.st.names, c.actor.h160);
    AscendingIsDistinct(owned);
    SelectDistinct(owned, fc.c.flags);
    FilledElsewhere(c.st.names, SelectBitmap(owned, fc.c.flags), LeaseT(fc.value, c.rate), c.mtp, n);
  }

  lemma RenewNameAsksTheOwner(p: Params, c: Config, fc: FoldCarrier, n: Name)
    requires Acting(p, c) && n in c.st.names && !OwnedByActor(c, n) && fc.c.RenewName?
    ensures SameRow(c, Next(p, c, Act(fc)), n)
  {
    Market.ActRenewsName(p, c, fc);
    if Mine(c.st, fc.c.name, c.actor.h160) {
      FilledElsewhere(c.st.names, [fc.c.name], LeaseT(fc.value, c.rate), c.mtp, n);
    }
  }

  lemma FilledElsewhere(names: map<Name, NameRow>, sel: seq<Name>, t: Days, mtp: int, n: Name)
    requires (forall m :: m in sel ==> m in names) && forall i, j :: 0 <= i < j < |sel| ==> sel[i] != sel[j]
    requires n in names && n !in sel
    ensures n in FillNames(names, sel, t, mtp) && FillNames(names, sel, t, mtp)[n] == names[n]
  {
    if sel != [] && (t.huge || t.count > 0) { ExtendRows(names, sel, Awards(Headrooms(names, sel, mtp), t)); }
  }

  lemma ByNameActionsAskTheOwner(p: Params, c: Config, fc: FoldCarrier, n: Name)
    requires Inv(c) && Acting(p, c) && n in c.st.names && (fc.c.TransferName? || fc.c.ReleaseName?)
    ensures SameRow(c, Next(p, c, Act(fc)), n) || OwnedByActor(c, n)
  {
    if fc.c.TransferName? { Market.TransferNameGives(p, c, fc); } else { Market.ReleaseNameDrops(p, c, fc); }
  }

  lemma OffersAskTheOwner(p: Params, c: Config, fc: FoldCarrier, n: Name)
    requires Inv(c) && Acting(p, c) && n in c.st.names && (fc.c.Sell? || fc.c.SellTo?)
    ensures SameRow(c, Next(p, c, Act(fc)), n) || OwnedByActor(c, n)
  {
    if fc.c.Sell? { Market.SellLists(p, c, fc); } else { Market.SellToOffers(p, c, fc); }
  }

  lemma SalesGoOn(p: Params, c: Config, fc: FoldCarrier, n: Name)
    requires Inv(c) && Acting(p, c) && n in c.st.names && (fc.c.Reserve? || fc.c.Settle? || fc.c.Pay?)
    ensures SameRow(c, Next(p, c, Act(fc)), n) || SaleGoesOn(c, fc, n)
  {
    match fc.c
    case Reserve(_) => Market.ActReserves(p, c, fc);
    case Settle(_) => Market.ActSettles(p, c, fc);
    case Pay(_) => Market.ActPays(p, c, fc);
  }

  lemma TradeAsksBothOwners(p: Params, c: Config, fc: FoldCarrier, n: Name)
    requires Inv(c) && c.height >= p.activation && n in c.st.names && fc.c.Trade?
    ensures SameRow(c, Next(p, c, Act(fc)), n) || SignedBy(c.tx, c.st.names[n].owner)
  {
    Market.TradeSwaps(p, c, fc);
  }

  lemma ClaimLeavesOwnedNames(p: Params, c: Config, fc: FoldCarrier, n: Name)
    requires Acting(p, c) && n in c.st.names && (fc.c.Claim? || fc.c.Commit?)
    ensures SameRow(c, Next(p, c, Act(fc)), n) || MintContested(c, fc, n)
  {
  }

  // ---- every action ----

  lemma ChangeNeedsConsent(p: Params, c: Config, fc: FoldCarrier, n: Name)
    requires Inv(c) && n in c.st.names
    requires c.actor.ok ==> exists i :: 0 <= i < |c.tx.inputs| && c.tx.inputs[i] == c.actor
    ensures || SameRow(c, Next(p, c, Act(fc)), n)
            || SignedBy(c.tx, c.st.names[n].owner)
            || (SignedBy(c.tx, c.actor.h160) && (SaleGoesOn(c, fc, n) || MintContested(c, fc, n)))
  {
    if c.height >= p.activation && fc.c.Trade? {
      TradeAsksBothOwners(p, c, fc, n);
    } else if !Acting(p, c) {
      Market.NobodyActs(p, c, fc);
    } else {
      ActionNeedsConsent(p, c, fc, n);
    }
  }

  lemma ActionNeedsConsent(p: Params, c: Config, fc: FoldCarrier, n: Name)
    requires Inv(c) && n in c.st.names && Acting(p, c) && !fc.c.Trade?
    ensures || SameRow(c, Next(p, c, Act(fc)), n) || OwnedByActor(c, n)
            || SaleGoesOn(c, fc, n) || MintContested(c, fc, n)
  {
    match fc.c
    case Ignore =>
    case As(_) =>
    case Renew(_, _) => if !OwnedByActor(c, n) { RenewAsksTheOwner(p, c, fc, n); }
    case RenewName(_) => if !OwnedByActor(c, n) { RenewNameAsksTheOwner(p, c, fc, n); }
    case Transfer(_, _, _) => BitmapActionsAskTheOwner(p, c, fc, n);
    case Release(_, _) => BitmapActionsAskTheOwner(p, c, fc, n);
    case TransferName(_, _) => ByNameActionsAskTheOwner(p, c, fc, n);
    case ReleaseName(_) => ByNameActionsAskTheOwner(p, c, fc, n);
    case Sell(_, _, _) => OffersAskTheOwner(p, c, fc, n);
    case SellTo(_, _, _) => OffersAskTheOwner(p, c, fc, n);
    case Reserve(_) => SalesGoOn(p, c, fc, n);
    case Settle(_) => SalesGoOn(p, c, fc, n);
    case Pay(_) => SalesGoOn(p, c, fc, n);
    case Commit(_) => ClaimLeavesOwnedNames(p, c, fc, n);
    case Claim(_, _) => ClaimLeavesOwnedNames(p, c, fc, n);
  }

  /**
   Over runs: whenever a step inside a block changes or removes the row of a name, the transaction the step stands in
   has a verified input of the name's owner; or the name is in a sale and the step carries it on, for a verified input;
   or the name was minted in this block and a better claim of a verified input contests it.
   */
  lemma RowsChangeByConsent(p: Params, steps: seq<Step>, k: nat, n: Name)
    requires ValidRun(p, steps) && k < |steps| && !steps[k].BeginBlock? && n in Exec(p, steps[..k]).st.names
    requires !SameRow(Exec(p, steps[..k]), Exec(p, steps[..k + 1]), n)
    ensures steps[k].Act?
    ensures var c := Exec(p, steps[..k]);
      exists tx :: InTx(steps, k, tx) &&
        (|| SignedBy(tx, c.st.names[n].owner)
         || (SignedBy(tx, c.actor.h160) && (SaleGoesOn(c, steps[k].fc, n) || MintContested(c, steps[k].fc, n))))
  {
    var c := Exec(p, steps[..k]);
    assert k > 0 by { assert steps[..0] == []; }
    StepOfRun(p, steps, k);
    PlaceOfStep(p, steps, k);
    if steps[k].Act? {
      ChangeNeedsConsent(p, c, steps[k].fc, n);
      assert InTx(steps, k, c.tx);
    }
  }

  // ---- where names come from ----

  lemma RenewsNoNewName(p: Params, c: Config, fc: FoldCarrier, n: Name)
    requires Acting(p, c) && n !in c.st.names && (fc.c.Renew? || fc.c.RenewName?)
    ensures n !in Next(p, c, Act(fc)).st.names
  {
    if fc.c.Renew? {
      Selection.ActRenews(p, c, fc);
      var owned := OwnedSorted(c.st.names, c.actor.h160);
      AscendingIsDistinct(owned);
      SelectDistinct(owned, fc.c.flags);
      FilledNames(c.st.names, SelectBitmap(owned, fc.c.flags), LeaseT(fc.value, c.rate), c.mtp);
    } else {
      Market.ActRenewsName(p, c, fc);
      if Mine(c.st, fc.c.name, c.actor.h160) {
        FilledNames(c.st.names, [fc.c.name], LeaseT(fc.value, c.rate), c.mtp);
      }
    }
  }

  lemma FilledNames(names: map<Name, NameRow>, sel: seq<Name>, t: Days, mtp: int)
    requires (forall m :: m in sel ==> m in names) && forall i, j :: 0 <= i < j < |sel| ==> sel[i] != sel[j]
    ensures FillNames(names, sel, t, mtp).Keys == names.Keys
  {
    if sel != [] && (t.huge || t.count > 0) { ExtendRows(names, sel, Awards(Headrooms(names, sel, mtp), t)); }
  }

  lemma MovesNoNewName(p: Params, c: Config, fc: FoldCarrier, n: Name)
    requires Inv(c) && Acting(p, c) && n !in c.st.names && (fc.c.Transfer? || fc.c.Release?)
    ensures n !in Next(p, c, Act(fc)).st.names
  {
    if fc.c.Transfer? {
      Selection.TransferMovesTheChosen(p, c, fc);
    } else {
      Selection.ReleaseDropsTheChosen(p, c, fc);
    }
  }

  lemma SalesMakeNoNewName(p: Params, c: Config, fc: FoldCarrier, n: Name)
    requires Acting(p, c) && n !in c.st.names && (fc.c.Reserve? || fc.c.Settle? || fc.c.Pay?)
    ensures n !in Next(p, c, Act(fc)).st.names
  {
    match fc.c
    case Reserve(_) => Market.ActReserves(p, c, fc);
    case Settle(_) => Market.ActSettles(p, c, fc);
    case Pay(_) => Market.ActPays(p, c, fc);
  }

  lemma OthersMakeNoNewName(p: Params, c: Config, fc: FoldCarrier, n: Name)
    requires Inv(c) && Acting(p, c) && n !in c.st.names
    requires fc.c.TransferName? || fc.c.ReleaseName? || fc.c.Sell? || fc.c.SellTo?
    ensures n !in Next(p, c, Act(fc)).st.names
  {
    match fc.c
    case TransferName(_, _) => Market.TransferNameGives(p, c, fc);
    case ReleaseName(_) => Market.ReleaseNameDrops(p, c, fc);
    case Sell(_, _, _) => Market.SellLists(p, c, fc);
    case SellTo(_, _, _) => Market.SellToOffers(p, c, fc);
  }

  lemma ClaimsMakeTheirOwn(p: Params, c: Config, fc: FoldCarrier, n: Name)
    requires n !in c.st.names && n in Next(p, c, Act(fc)).st.names && (fc.c.Claim? || fc.c.Commit?)
    ensures fc.c.Claim? && fc.c.name == n && Acting(p, c)
  {
  }

  /** A name comes into being only by a claim of it. */
  lemma NamesComeByClaim(p: Params, c: Config, step: Step, n: Name)
    requires Inv(c) && MayFollow(c, step) && n !in c.st.names && n in Next(p, c, step).st.names
    ensures step.Act? && step.fc.c.Claim? && step.fc.c.name == n && Acting(p, c)
  {
    match step
    case BeginBlock(_, _, _) =>
    case BeginTx(_) =>
    case Act(fc) =>
      if fc.c.Trade? && c.height >= p.activation {
        Market.TradeSwaps(p, c, fc);
      } else if !Acting(p, c) {
        Market.NobodyActs(p, c, fc);
      } else {
        match fc.c
        case Renew(_, _) => RenewsNoNewName(p, c, fc, n);
        case RenewName(_) => RenewsNoNewName(p, c, fc, n);
        case Transfer(_, _, _) => MovesNoNewName(p, c, fc, n);
        case Release(_, _) => MovesNoNewName(p, c, fc, n);
        case Reserve(_) => SalesMakeNoNewName(p, c, fc, n);
        case Settle(_) => SalesMakeNoNewName(p, c, fc, n);
        case Pay(_) => SalesMakeNoNewName(p, c, fc, n);
        case Ignore =>
        case As(_) =>
        case Commit(_) => ClaimsMakeTheirOwn(p, c, fc, n);
        case Claim(_, _) => ClaimsMakeTheirOwn(p, c, fc, n);
        case _ => OthersMakeNoNewName(p, c, fc, n);
      }
  }

  /** Over runs: a name that appears at a step is claimed there, on a digest published in an earlier block. */
  lemma NamesComeFromCommits(p: Params, steps: seq<Step>, k: nat, n: Name)
    requires ValidRun(p, steps) && k < |steps| && Exec(p, steps[..k]).rate * BILLING_UNIT < TWO_TO_THE_64
    requires n !in Exec(p, steps[..k]).st.names && n in Exec(p, steps[..k + 1]).st.names
    ensures steps[k].Act? && steps[k].fc.c.Claim? && steps[k].fc.c.name == n
    ensures var c := Exec(p, steps[..k]);
      exists at :: ClaimRuns.Backing(p, steps[..k], steps[k].fc.c.salt, n, c.actor.h160, c.height, c.mtp, at)
  {
    StepOfRun(p, steps, k);
    NamesComeByClaim(p, Exec(p, steps[..k]), steps[k], n);
    ClaimRuns.ClaimRestsOnCommit(p, steps[..k], steps[k].fc, n);
  }
}
