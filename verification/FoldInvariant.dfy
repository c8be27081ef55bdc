/**
 What every step of every run keeps: lease and offer bounds, exact deposit legs, the
 seller still owning what is locked, cleared market fields, mutation heights no later
 than the block, and a mutation height for every owner whose set a step changes.
 */
module FoldInvariant {
  import opened Primitives
  import opened NameOrder
  import opened Protocol
  import opened Lease
  import opened Fold

  // ---- the invariant ----

  ghost predicate LiveOffer(r: NameRow, mtp: int) {
    && r.seller == r.owner
    && mtp < r.offerExpiry
    && r.offerExpiry + REORG_BUFFER <= r.leaseExpiry
  }

  /** An unlocked row of an owner: nothing but the lease is set. */
  function Plain(owner: Hash160, leaseExpiry: int): NameRow {
    NameRow(owner, Owned, leaseExpiry, ZERO_20, 0, 0, 0, ZERO_20, 0, 0, 0)
  }

  ghost predicate Unreserved(r: NameRow) {
    r.burnLeg == 0 && r.payLeg == 0 && r.reserveExpiry == 0
  }

  ghost predicate RowOk(r: NameRow, mtp: int) {
    && mtp < r.leaseExpiry <= mtp + MAX_LEASE
    && match r.st
       case Owned => r == FreshRow(r.owner, r.leaseExpiry)
       case Listed => LiveOffer(r, mtp) && r.price >= 3 * DUST_FLOOR && Unreserved(r) && r.buyer == ZERO_20
       case Offered => LiveOffer(r, mtp) && r.price >= DUST_FLOOR && Unreserved(r)
       case Reserved =>
         && LiveOffer(r, mtp) && r.price >= 3 * DUST_FLOOR
         && mtp < r.reserveExpiry <= r.offerExpiry
         && r.burnLeg == DepositLeg(r.price, RESERVE_BURN_BPS)
         && r.payLeg == DepositLeg(r.price, RESERVE_PAY_BPS)
  }

  ghost predicate CommitsOk(commits: seq<CommitRow>, height: int, mtp: int) {
    && (forall i :: 0 <= i < |commits| ==>
          && commits[i].height <= height
          && commits[i].commitTime <= mtp <= commits[i].commitTime + COMMIT_EXPIRY
          && (commits[i].height == height ==> commits[i].commitTime == mtp))
    && (forall i, j :: 0 <= i < j < |commits| ==>
          && commits[i].height <= commits[j].height
          && (commits[i].height == commits[j].height ==> commits[i].commitTime == commits[j].commitTime))
  }

  ghost predicate StateOk(s: State, height: int, mtp: int) {
    && (forall n :: n in s.names ==> RowOk(s.names[n], mtp))
    && (forall o :: o in s.muts ==> s.muts[o] <= height)
    && (forall n :: n in s.scratch ==> MutAt(s.muts, Some(s.scratch[n].owner), height))
    && CommitsOk(s.commits, height, mtp)
  }

  // ---- ownership changes and their bumps ----

  function OwnerOf(names: map<Name, NameRow>, n: Name): Option<Hash160> {
    if n in names then Some(names[n].owner) else None
  }

  ghost predicate MutAt(muts: map<Hash160, int>, o: Option<Hash160>, height: int) {
    o.Some? ==> o.value in muts && muts[o.value] >= height
  }

  /** Mutation heights only grow, and every owner gaining or losing a name is stamped. */
  ghost predicate Stamped(s: State, t: State, height: int) {
    && (forall o :: o in s.muts ==> o in t.muts && s.muts[o] <= t.muts[o])
    && (forall n :: OwnerOf(s.names, n) != OwnerOf(t.names, n) ==>
          MutAt(t.muts, OwnerOf(s.names, n), height) && MutAt(t.muts, OwnerOf(t.names, n), height))
  }

  ghost predicate Kept(s: State, t: State, height: int, mtp: int) {
    StateOk(t, height, mtp) && Stamped(s, t, height)
  }

  // ---- arithmetic of the legs ----

  lemma LegsLeaveDust(price: U64)
    requires price >= 3 * DUST_FLOOR
    ensures DepositLeg(price, RESERVE_BURN_BPS) + DepositLeg(price, RESERVE_PAY_BPS) + DUST_FLOOR <= price
  {
    assert (price * 50) / 10000 <= price / 200;
  }

  /** On a reserved row the 64-bit remainder never wraps: the three parts are the price. */
  lemma RemainderIsExact(r: NameRow, mtp: int)
    requires RowOk(r, mtp) && r.st == Reserved
    ensures r.burnLeg + r.payLeg + Remainder(r) == r.price && Remainder(r) >= DUST_FLOOR
  {
    LegsLeaveDust(r.price);
  }

  // ---- each operation keeps it ----

  /** Extending a listing touches exactly its names, each by its own days. */
  lemma {:induction false} ExtendRows(names: map<Name, NameRow>, sel: seq<Name>, add: seq<nat>)
    requires |sel| == |add| && (forall n :: n in sel ==> n in names)
    requires forall i, j :: 0 <= i < j < |sel| ==> sel[i] != sel[j]
    ensures Extend(names, sel, add).Keys == names.Keys
    ensures forall n :: n in names && n !in sel ==> Extend(names, sel, add)[n] == names[n]
    ensures forall i :: 0 <= i < |sel| ==> Extend(names, sel, add)[sel[i]] == Longer(names[sel[i]], add[i])
  {
    if sel != [] {
      var k := |sel| - 1;
      ExtendRows(names, sel[..k], add[..k]);
      var rest := Extend(names, sel[..k], add[..k]);
      assert sel[k] !in sel[..k];
      var all := Extend(names, sel, add);
      assert all == rest[sel[k] := Longer(rest[sel[k]], add[k])];
      forall i | 0 <= i < |sel| ensures all[sel[i]] == Longer(names[sel[i]], add[i]) {
        if i < k { assert sel[..k][i] == sel[i] && add[..k][i] == add[i]; }
      }
    }
  }

  function Longer(r: NameRow, days: nat): NameRow {
    r.(leaseExpiry := r.leaseExpiry + days * BILLING_UNIT)
  }

  lemma LongerRowOk(r: NameRow, days: nat, mtp: int)
    requires RowOk(r, mtp) && days <= HeadroomDays(r.leaseExpiry, mtp)
    ensures RowOk(Longer(r, days), mtp)
  {
  }

  lemma FillOk(s: State, sel: seq<Name>, t: Days, height: int, mtp: int)
    requires StateOk(s, height, mtp)
    requires (forall n :: n in sel ==> n in s.names) && forall i, j :: 0 <= i < j < |sel| ==> sel[i] != sel[j]
    ensures Kept(s, s.(names := FillNames(s.names, sel, t, mtp)), height, mtp)
  {
    if sel != [] && (t.huge || t.count > 0) {
      ExtendedOk(s.names, sel, Awards(Headrooms(s.names, sel, mtp), t), mtp);
    }
  }

  /** Days within the headrooms keep every row sound, and nobody's names change. */
  lemma ExtendedOk(names: map<Name, NameRow>, sel: seq<Name>, a: seq<nat>, mtp: int)
    requires forall n :: n in names ==> RowOk(names[n], mtp)
    requires |sel| == |a| && (forall n :: n in sel ==> n in names)
    requires forall i, j :: 0 <= i < j < |sel| ==> sel[i] != sel[j]
    requires forall i :: 0 <= i < |sel| ==> a[i] <= HeadroomDays(names[sel[i]].leaseExpiry, mtp)
    ensures forall n :: n in Extend(names, sel, a) ==> RowOk(Extend(names, sel, a)[n], mtp)
    ensures forall n :: OwnerOf(Extend(names, sel, a), n) == OwnerOf(names, n)
  {
    ExtendRows(names, sel, a);
    var longer := Extend(names, sel, a);
    forall n | n in longer ensures RowOk(longer[n], mtp) && longer[n].owner == names[n].owner {
      assert RowOk(names[n], mtp);
      if n in sel {
        var i :| 0 <= i < |sel| && sel[i] == n;
        LongerRowOk(names[n], a[i], mtp);
      }
    }
  }

  lemma RenewOk(s: State, height: int, mtp: int, rate: U64, value: U64, anchor: Option<int>, flags: Option<Bytes>,
                actor: Hash160)
    requires StateOk(s, height, mtp)
    ensures Kept(s, ApplyRenew(s, height, mtp, rate, value, anchor, flags, actor), height, mtp)
  {
    if anchor.None? || AnchorOk(s.muts, actor, anchor.value, height) {
      var owned := OwnedSorted(s.names, actor);
      AscendingIsDistinct(owned);
      SelectDistinct(owned, flags);
      FillOk(s, SelectBitmap(owned, flags), LeaseT(value, rate), height, mtp);
    }
  }

  lemma RenewNameOk(s: State, height: int, mtp: int, rate: U64, value: U64, n: Name, actor: Hash160)
    requires StateOk(s, height, mtp)
    ensures Kept(s, ApplyRenewName(s, mtp, rate, value, n, actor), height, mtp)
  {
    if Mine(s, n, actor) {
      FillOk(s, [n], LeaseT(value, rate), height, mtp);
    }
  }

  lemma SelectedAreOwned(s: State, flags: Option<Bytes>, actor: Hash160)
    ensures forall n :: n in SelectBitmap(OwnedSorted(s.names, actor), flags) ==> Mine(s, n, actor)
  {
  }

  lemma TransferOk(s: State, height: int, mtp: int, target: Hash160, anchor: Option<int>, flags: Option<Bytes>,
                   actor: Hash160)
    requires StateOk(s, height, mtp)
    ensures Kept(s, ApplyTransfer(s, height, target, anchor, flags, actor), height, mtp)
  {
    var sel := SelectBitmap(OwnedSorted(s.names, actor), flags);
    SelectedAreOwned(s, flags, actor);
    MovedOk(s, sel, height, mtp, target, actor);
  }

  lemma MovedOk(s: State, sel: seq<Name>, height: int, mtp: int, target: Hash160, actor: Hash160)
    requires StateOk(s, height, mtp) && forall n :: n in sel ==> Mine(s, n, actor)
    ensures var muts := BumpMut(BumpMut(s.muts, actor, height), target, height);
      Kept(s, s.(names := MovedNames(s.names, sel, target), muts := muts), height, mtp)
  {
    var muts := BumpMut(BumpMut(s.muts, actor, height), target, height);
    MovedRowsOk(s.names, MovedNames(s.names, sel, target), target, mtp);
    StampTwo(s.muts, actor, target, height);
    MoveStamped(s, s.(names := MovedNames(s.names, sel, target), muts := muts), sel, actor, target, height);
  }

  lemma MovedRowsOk(names: map<Name, NameRow>, moved: map<Name, NameRow>, target: Hash160, mtp: int)
    requires forall n :: n in names ==> RowOk(names[n], mtp)
    requires forall n :: n in moved ==> n in names
    requires forall n :: n in moved ==>
      moved[n] == names[n] || (names[n].st == Owned && moved[n] == names[n].(owner := target))
    ensures forall n :: n in moved ==> RowOk(moved[n], mtp)
  {
    forall n | n in moved ensures RowOk(moved[n], mtp) {
      assert RowOk(names[n], mtp);
    }
  }

  lemma StampTwo(muts: map<Hash160, int>, a: Hash160, b: Hash160, height: int)
    requires forall o :: o in muts ==> muts[o] <= height
    ensures var m := BumpMut(BumpMut(muts, a, height), b, height);
      && (forall o :: o in m ==> m[o] <= height)
      && (forall o :: o in muts ==> o in m && muts[o] <= m[o])
      && MutAt(m, Some(a), height) && MutAt(m, Some(b), height)
  {
  }

  lemma MoveStamped(s: State, t: State, sel: seq<Name>, a: Hash160, b: Hash160, height: int)
    requires forall n :: n in sel ==> Mine(s, n, a)
    requires t.names.Keys == s.names.Keys
    requires forall n :: n in s.names ==>
      t.names[n].owner == if n in sel && Movable(s.names, n) then b else s.names[n].owner
    requires forall o :: o in s.muts ==> o in t.muts && s.muts[o] <= t.muts[o]
    requires MutAt(t.muts, Some(a), height) && MutAt(t.muts, Some(b), height)
    ensures Stamped(s, t, height)
  {
  }

  lemma ReleaseOk(s: State, height: int, mtp: int, anchor: int, flags: Bytes, actor: Hash160)
    requires StateOk(s, height, mtp)
    ensures Kept(s, ApplyRelease(s, height, anchor, flags, actor), height, mtp)
  {
    SelectedAreOwned(s, Some(flags), actor);
    DroppedOk(s, SelectBitmap(OwnedSorted(s.names, actor), Some(flags)), height, mtp, actor);
  }

  lemma DroppedOk(s: State, sel: seq<Name>, height: int, mtp: int, actor: Hash160)
    requires StateOk(s, height, mtp) && forall n :: n in sel ==> Mine(s, n, actor)
    ensures Kept(s, s.(names := DroppedNames(s.names, sel), muts := BumpMut(s.muts, actor, height)), height, mtp)
  {
  }

  lemma TransferNameOk(s: State, height: int, mtp: int, target: Hash160, n: Name, actor: Hash160)
    requires StateOk(s, height, mtp)
    ensures Kept(s, ApplyTransferName(s, height, target, n, actor), height, mtp)
  {
    assert n in s.names ==> RowOk(s.names[n], mtp);
  }

  lemma ReleaseNameOk(s: State, height: int, mtp: int, n: Name, actor: Hash160)
    requires StateOk(s, height, mtp)
    ensures Kept(s, ApplyReleaseName(s, height, n, actor), height, mtp)
  {
  }

  lemma ClaimOk(s: State, height: int, mtp: int, rate: U64, value: U64, want: Hash256, name: Name, actor: Hash160)
    requires StateOk(s, height, mtp)
    ensures Kept(s, ApplyClaim(s, height, mtp, rate, value, want, name, actor), height, mtp)
  {
    var best, add := BestCommit(s.commits, want, height), LeaseDaysSingle(value, rate, mtp, mtp);
    if best.Some? && add > 0 {
      FreshRowOk(actor, add, mtp);
      if name in s.names { assert RowOk(s.names[name], mtp); }
      if name !in s.names || (name in s.scratch && s.names[name].owner == s.scratch[name].owner) {
        ClaimedOk(s, height, mtp, name, FreshRow(actor, mtp + add * BILLING_UNIT), ClaimScratch(best.value, actor));
      }
    }
  }

  /** Giving a free name, or one minted in this block, to a claimant. */
  lemma ClaimedOk(s: State, height: int, mtp: int, name: Name, row: NameRow, won: ClaimScratch)
    requires StateOk(s, height, mtp) && RowOk(row, mtp) && row.owner == won.owner
    requires name !in s.names || (name in s.scratch && s.names[name].owner == s.scratch[name].owner)
    ensures Kept(s, s.(names := s.names[name := row], muts := BumpMut(s.muts, won.owner, height),
                       scratch := s.scratch[name := won]), height, mtp)
  {
  }

  lemma FreshRowOk(owner: Hash160, days: nat, mtp: int)
    requires 0 < days <= HeadroomDays(mtp, mtp)
    ensures RowOk(FreshRow(owner, mtp + days * BILLING_UNIT), mtp)
  {
  }

  lemma SellOk(s: State, height: int, mtp: int, price: U64, window: U32, n: Name, actor: Identity)
    requires StateOk(s, height, mtp)
    ensures Kept(s, ApplySell(s, mtp, price, window, n, actor), height, mtp)
  {
    assert n in s.names ==> RowOk(s.names[n], mtp);
  }

  lemma SellToOk(s: State, height: int, mtp: int, price: U64, buyer: Hash160, n: Name, actor: Identity)
    requires StateOk(s, height, mtp)
    ensures Kept(s, ApplySellTo(s, mtp, price, buyer, n, actor), height, mtp)
  {
    assert n in s.names ==> RowOk(s.names[n], mtp);
  }

  lemma ReserveOk(s: State, height: int, mtp: int, value: U64, n: Name, actor: Identity, spend: seq<Output>,
                  consumed: seq<bool>)
    requires StateOk(s, height, mtp) && |spend| == |consumed|
    ensures Kept(s, ApplyReserve(s, mtp, value, n, actor, spend, consumed).st, height, mtp)
  {
    assert n in s.names ==> RowOk(s.names[n], mtp);
  }

  lemma ConveyOk(s: State, height: int, mtp: int, n: Name, actor: Hash160)
    requires StateOk(s, height, mtp)
    requires n in s.names && s.names[n].st != Owned
    ensures Kept(s, Convey(s, height, n, actor), height, mtp)
  {
    assert RowOk(s.names[n], mtp);
  }

  lemma SettleOk(s: State, height: int, mtp: int, n: Name, actor: Identity, spend: seq<Output>, consumed: seq<bool>)
    requires StateOk(s, height, mtp) && |spend| == |consumed|
    ensures Kept(s, ApplySettle(s, height, mtp, n, actor, spend, consumed).st, height, mtp)
    ensures Kept(s, ApplyPay(s, height, mtp, n, actor, spend, consumed).st, height, mtp)
  {
    if n in s.names && s.names[n].st != Owned { ConveyOk(s, height, mtp, n, actor.h160); }
  }

  lemma TradeOk(s: State, height: int, mtp: int, inputs: seq<Identity>, ia: int, ib: int, na: Name, nb: Name)
    requires StateOk(s, height, mtp)
    ensures Kept(s, ApplyTrade(s, height, inputs, ia, ib, na, nb), height, mtp)
  {
    assert na in s.names ==> RowOk(s.names[na], mtp);
    assert nb in s.names ==> RowOk(s.names[nb], mtp);
  }

  // ---- the time step ----

  lemma AgedRowOk(r: NameRow, before: int, mtp: int)
    requires RowOk(r, before) && before <= mtp < r.leaseExpiry
    ensures RowOk(AgeRow(r, mtp), mtp) && AgeRow(r, mtp).owner == r.owner
  {
  }

  /** Pruning keeps the live commits, in order. */
  lemma {:induction false} PruneKeepsLive(commits: seq<CommitRow>, mtp: int)
    ensures forall c :: c in PruneCommits(commits, mtp) <==> c in commits && mtp <= c.commitTime + COMMIT_EXPIRY
  {
    if commits != [] {
      var k := |commits| - 1;
      PruneKeepsLive(commits[..k], mtp);
      assert commits == commits[..k] + [commits[k]];
    }
  }

  ghost predicate Sequenced(a: CommitRow, b: CommitRow) {
    a.height <= b.height && (a.height == b.height ==> a.commitTime == b.commitTime)
  }

  lemma {:induction false} PruneKeepsOrder(commits: seq<CommitRow>, mtp: int)
    requires forall i, j :: 0 <= i < j < |commits| ==> Sequenced(commits[i], commits[j])
    ensures forall i, j :: 0 <= i < j < |PruneCommits(commits, mtp)| ==>
      Sequenced(PruneCommits(commits, mtp)[i], PruneCommits(commits, mtp)[j])
  {
    if commits != [] {
      var k := |commits| - 1;
      var rest := PruneCommits(commits[..k], mtp);
      PruneKeepsOrder(commits[..k], mtp);
      PruneKeepsLive(commits[..k], mtp);
      forall i | 0 <= i < |rest| ensures Sequenced(rest[i], commits[k]) {
        assert rest[i] in commits[..k];
      }
    }
  }

  lemma PruneOk(commits: seq<CommitRow>, h0: int, m0: int, height: int, mtp: int)
    requires CommitsOk(commits, h0, m0)
    requires commits == [] || (h0 < height && m0 <= mtp)
    ensures CommitsOk(PruneCommits(commits, mtp), height, mtp)
  {
    assert forall i, j :: 0 <= i < j < |commits| ==> Sequenced(commits[i], commits[j]);
    var kept := PruneCommits(commits, mtp);
    PruneKeepsLive(commits, mtp);
    PruneKeepsOrder(commits, mtp);
    forall i | 0 <= i < |kept|
      ensures kept[i].height < height && kept[i].commitTime <= mtp <= kept[i].commitTime + COMMIT_EXPIRY
    {
      assert kept[i] in commits;
    }
    assert forall i, j :: 0 <= i < j < |kept| ==> Sequenced(kept[i], kept[j]);
  }

  /** The time step removes lapsed names and moves no other. */
  ghost predicate OwnersAfter(names: map<Name, NameRow>, mtp: int) {
    forall n :: OwnerOf(AgeNames(names, mtp), n)
        == (if n in names && mtp < names[n].leaseExpiry then OwnerOf(names, n) else None)
  }

  lemma AgedNamesOk(names: map<Name, NameRow>, before: int, mtp: int)
    requires forall n :: n in names ==> RowOk(names[n], before)
    requires names == map[] || before <= mtp
    ensures forall n :: n in AgeNames(names, mtp) ==> RowOk(AgeNames(names, mtp)[n], mtp)
    ensures OwnersAfter(names, mtp)
  {
    forall n | n in AgeNames(names, mtp)
      ensures RowOk(AgeNames(names, mtp)[n], mtp) && AgeNames(names, mtp)[n].owner == names[n].owner
    {
      AgedRowOk(names[n], before, mtp);
    }
  }

  lemma LapsesStamped(s: State, height: int, mtp: int)
    requires OwnersAfter(s.names, mtp)
    ensures Stamped(s, StartBlock(s, height, mtp), height)
  {
    var t := StartBlock(s, height, mtp);
    forall n | OwnerOf(s.names, n) != OwnerOf(t.names, n)
      ensures MutAt(t.muts, OwnerOf(s.names, n), height) && MutAt(t.muts, OwnerOf(t.names, n), height)
    {
      assert s.names[n].owner in LapsedOwners(s.names, mtp);
    }
  }

  lemma StartOk(s: State, h0: int, m0: int, height: int, mtp: int)
    requires StateOk(s, h0, m0)
    requires s == EMPTY_STATE || (h0 < height && m0 <= mtp)
    ensures Kept(s, StartBlock(s, height, mtp), height, mtp)
  {
    AgedNamesOk(s.names, m0, mtp);
    PruneOk(s.commits, h0, m0, height, mtp);
    LapsesStamped(s, height, mtp);
  }

  // ---- every step ----

  ghost predicate Inv(c: Config) {
    StateOk(c.st, c.height, c.mtp)
  }

  ghost predicate MayFollow(c: Config, step: Step) {
    step.BeginBlock? ==> c.st == EMPTY_STATE || (c.height < step.height && c.mtp <= step.mtp)
  }

  lemma RenewStepOk(p: Params, c: Config, fc: FoldCarrier)
    requires Inv(c) && fc.c.Renew?
    ensures Kept(c.st, Perform(p, c, fc).st, c.height, c.mtp)
  {
    RenewOk(c.st, c.height, c.mtp, c.rate, fc.value, fc.c.anchor, fc.c.flags, c.actor.h160);
  }

  lemma TransferStepOk(p: Params, c: Config, fc: FoldCarrier)
    requires Inv(c) && fc.c.Transfer?
    ensures Kept(c.st, Perform(p, c, fc).st, c.height, c.mtp)
  {
    TransferOk(c.st, c.height, c.mtp, fc.c.target, fc.c.anchor, fc.c.flags, c.actor.h160);
  }

  lemma ReleaseStepOk(p: Params, c: Config, fc: FoldCarrier)
    requires Inv(c) && fc.c.Release?
    ensures Kept(c.st, Perform(p, c, fc).st, c.height, c.mtp)
  {
    ReleaseOk(c.st, c.height, c.mtp, fc.c.anchorAt, fc.c.bits, c.actor.h160);
  }

  lemma RenewNameStepOk(p: Params, c: Config, fc: FoldCarrier)
    requires Inv(c) && fc.c.RenewName?
    ensures Kept(c.st, Perform(p, c, fc).st, c.height, c.mtp)
  {
    RenewNameOk(c.st, c.height, c.mtp, c.rate, fc.value, fc.c.name, c.actor.h160);
  }

  lemma TransferNameStepOk(p: Params, c: Config, fc: FoldCarrier)
    requires Inv(c) && fc.c.TransferName?
    ensures Kept(c.st, Perform(p, c, fc).st, c.height, c.mtp)
  {
    TransferNameOk(c.st, c.height, c.mtp, fc.c.target, fc.c.name, c.actor.h160);
  }

  lemma ReleaseNameStepOk(p: Params, c: Config, fc: FoldCarrier)
    requires Inv(c) && fc.c.ReleaseName?
    ensures Kept(c.st, Perform(p, c, fc).st, c.height, c.mtp)
  {
    ReleaseNameOk(c.st, c.height, c.mtp, fc.c.name, c.actor.h160);
  }

  lemma OfferOperationOk(p: Params, c: Config, fc: FoldCarrier)
    requires Inv(c)
    requires fc.c.Sell? || fc.c.SellTo?
    ensures Kept(c.st, Perform(p, c, fc).st, c.height, c.mtp)
  {
    match fc.c
    case Sell(price, window, n) => SellOk(c.st, c.height, c.mtp, price, window, n, c.actor);
    case SellTo(price, buyer, n) => SellToOk(c.st, c.height, c.mtp, price, buyer, n, c.actor);
  }

  lemma ReserveStepOk(p: Params, c: Config, fc: FoldCarrier)
    requires Inv(c) && fc.c.Reserve?
    ensures Kept(c.st, Perform(p, c, fc).st, c.height, c.mtp)
  {
    ReserveOk(c.st, c.height, c.mtp, fc.value, fc.c.name, c.actor, c.tx.spend, c.consumed);
  }

  lemma SettleStepOk(p: Params, c: Config, fc: FoldCarrier)
    requires Inv(c) && fc.c.Settle?
    ensures Kept(c.st, Perform(p, c, fc).st, c.height, c.mtp)
  {
    SettleOk(c.st, c.height, c.mtp, fc.c.name, c.actor, c.tx.spend, c.consumed);
  }

  lemma PayStepOk(p: Params, c: Config, fc: FoldCarrier)
    requires Inv(c) && fc.c.Pay?
    ensures Kept(c.st, Perform(p, c, fc).st, c.height, c.mtp)
  {
    SettleOk(c.st, c.height, c.mtp, fc.c.name, c.actor, c.tx.spend, c.consumed);
  }

  lemma CommitOk(p: Params, c: Config, fc: FoldCarrier)
    requires Inv(c) && fc.c.Commit?
    ensures Kept(c.st, Perform(p, c, fc).st, c.height, c.mtp)
  {
  }

  lemma PerformOk(p: Params, c: Config, fc: FoldCarrier)
    requires Inv(c)
    ensures Kept(c.st, Perform(p, c, fc).st, c.height, c.mtp)
  {
    match fc.c
    case Ignore =>
    case As(_) =>
    case Trade(_, _, _, _) =>
    case Commit(_) => CommitOk(p, c, fc);
    case Claim(salt, name) =>
      ClaimOk(c.st, c.height, c.mtp, c.rate, fc.value, Commitment(p.sha, salt, name, c.actor.h160), name, c.actor.h160);
    case Sell(_, _, _) => OfferOperationOk(p, c, fc);
    case SellTo(_, _, _) => OfferOperationOk(p, c, fc);
    case Reserve(_) => ReserveStepOk(p, c, fc);
    case Settle(_) => SettleStepOk(p, c, fc);
    case Pay(_) => PayStepOk(p, c, fc);
    case Renew(_, _) => RenewStepOk(p, c, fc);
    case Transfer(_, _, _) => TransferStepOk(p, c, fc);
    case Release(_, _) => ReleaseStepOk(p, c, fc);
    case RenewName(_) => RenewNameStepOk(p, c, fc);
    case TransferName(_, _) => TransferNameStepOk(p, c, fc);
    case ReleaseName(_) => ReleaseNameStepOk(p, c, fc);
  }

  lemma DispatchOk(p: Params, c: Config, fc: FoldCarrier)
    requires Inv(c)
    ensures Kept(c.st, Dispatch(p, c, fc).st, c.height, c.mtp)
  {
    if fc.c.Trade? {
      TradeOk(c.st, c.height, c.mtp, c.tx.inputs, fc.c.idxA, fc.c.idxB, fc.c.nameA, fc.c.nameB);
    } else {
      PerformOk(p, c, fc);
    }
  }

  /** Only a block's beginning moves the clock. */
  lemma DispatchKeepsClock(p: Params, c: Config, fc: FoldCarrier)
    ensures Dispatch(p, c, fc).height == c.height && Dispatch(p, c, fc).mtp == c.mtp && Dispatch(p, c, fc).tx == c.tx
  {
  }

  /** One step keeps the invariant and stamps every owner whose names it changes. */
  lemma StepOk(p: Params, c: Config, step: Step)
    requires Inv(c) && MayFollow(c, step)
    ensures Inv(Next(p, c, step))
    ensures Stamped(c.st, Next(p, c, step).st, Next(p, c, step).height)
  {
    match step
    case BeginBlock(height, mtp, rate) => StartOk(c.st, c.height, c.mtp, height, mtp);
    case BeginTx(tx) =>
    case Act(fc) =>
      DispatchOk(p, c, fc);
      DispatchKeepsClock(p, c, fc);
  }

  /** Height and time of a configuration are those of its latest block. */
  lemma {:induction false} LatestBlock(p: Params, steps: seq<Step>, j: nat)
    requires ValidRun(p, steps) && j < |steps| && steps[j].BeginBlock?
    requires forall k :: j < k < |steps| ==> !steps[k].BeginBlock?
    ensures Exec(p, steps).height == steps[j].height && Exec(p, steps).mtp == steps[j].mtp
  {
    var k := |steps| - 1;
    if j < k { LatestBlock(p, steps[..k], j); }
  }

  lemma {:induction false} LatestExists(steps: seq<Step>) returns (j: nat)
    requires steps != [] && steps[0].BeginBlock?
    ensures j < |steps| && steps[j].BeginBlock? && forall k :: j < k < |steps| ==> !steps[k].BeginBlock?
  {
    var k := |steps| - 1;
    if steps[k].BeginBlock? {
      j := k;
    } else {
      j := LatestExists(steps[..k]);
    }
  }

  /** Below the activation height nothing is folded. */
  lemma {:induction false} NothingBelowActivation(p: Params, steps: seq<Step>)
    requires steps != [] ==> steps[0].BeginBlock?
    requires forall i :: 0 <= i < |steps| && steps[i].BeginBlock? ==> steps[i].height < p.activation
    ensures Exec(p, steps).st == EMPTY_STATE && (steps != [] ==> Exec(p, steps).height < p.activation)
  {
    if steps != [] {
      var k := |steps| - 1;
      NothingBelowActivation(p, steps[..k]);
      if steps[k].BeginBlock? { StartOfNothing(steps[k].height, steps[k].mtp); }
    }
  }

  lemma StartOfNothing(height: int, mtp: int)
    ensures StartBlock(EMPTY_STATE, height, mtp) == EMPTY_STATE
  {
    assert LapsedOwners(map[], mtp) == {};
  }

  lemma RunMayFollow(p: Params, steps: seq<Step>, step: Step)
    requires ValidRun(p, steps + [step])
    ensures MayFollow(Exec(p, steps), step)
  {
    if steps != [] && step.BeginBlock? {
      var all := steps + [step];
      ValidPrefix(p, all, |steps|);
      assert all[..|steps|] == steps && all[0] == steps[0];
      var j := LatestExists(steps);
      LatestBlock(p, steps, j);
      assert all[j] == steps[j] && all[|steps|] == step;
      if steps[j].height < p.activation {
        forall i | 0 <= i < |steps| && steps[i].BeginBlock? ensures steps[i].height < p.activation {
          assert i == j || all[i] == steps[i];
        }
        NothingBelowActivation(p, steps);
      }
    }
  }

  /** The invariant holds after every prefix of every run. */
  lemma {:induction false} RunOk(p: Params, steps: seq<Step>)
    requires ValidRun(p, steps)
    ensures Inv(Exec(p, steps))
  {
    if steps != [] {
      var k := |steps| - 1;
      assert steps == steps[..k] + [steps[k]];
      RunOk(p, steps[..k]);
      RunMayFollow(p, steps[..k], steps[k]);
      StepOk(p, Exec(p, steps[..k]), steps[k]);
    }
  }

  /** Step k of a run, seen from the configuration before it. */
  lemma StepOfRun(p: Params, steps: seq<Step>, k: nat)
    requires ValidRun(p, steps) && k < |steps|
    ensures ValidRun(p, steps[..k]) && ValidRun(p, steps[..k + 1])
    ensures Exec(p, steps[..k + 1]) == Next(p, Exec(p, steps[..k]), steps[k])
    ensures Inv(Exec(p, steps[..k])) && MayFollow(Exec(p, steps[..k]), steps[k]) && Inv(Exec(p, steps[..k + 1]))
    ensures Stamped(Exec(p, steps[..k]).st, Exec(p, steps[..k + 1]).st, Exec(p, steps[..k + 1]).height)
  {
    ValidPrefix(p, steps, k);
    ValidPrefix(p, steps, k + 1);
    assert steps[..k + 1][..k] == steps[..k] && steps[..k + 1] == steps[..k] + [steps[k]];
    RunOk(p, steps[..k]);
    RunMayFollow(p, steps[..k], steps[k]);
    StepOk(p, Exec(p, steps[..k]), steps[k]);
  }

  /** Reading of the invariant at any moment of any run, in the terms the protocol promises. */
  lemma ReachableBounds(p: Params, steps: seq<Step>, n: Name)
    requires ValidRun(p, steps) && n in Exec(p, steps).st.names
    ensures var c, r := Exec(p, steps), Exec(p, steps).st.names[n];
      && c.mtp < r.leaseExpiry <= c.mtp + MAX_LEASE
      && (r.st != Owned ==>
            && r.seller == r.owner
            && c.mtp < r.offerExpiry && r.offerExpiry + REORG_BUFFER <= r.leaseExpiry)
      && (r.st == Owned ==> r == Plain(r.owner, r.leaseExpiry))
      && (r.st == Listed || r.st == Reserved ==> r.price >= 3 * DUST_FLOOR)
      && (r.st == Offered ==> r.price >= DUST_FLOOR)
      && (r.st == Listed || r.st == Offered ==> r.burnLeg == 0 && r.payLeg == 0 && r.reserveExpiry == 0)
      && (r.st == Listed ==> r.buyer == ZERO_20)
      && (r.st == Reserved ==>
            && c.mtp < r.reserveExpiry <= r.offerExpiry
            && r.burnLeg == DepositLeg(r.price, RESERVE_BURN_BPS)
            && r.payLeg == DepositLeg(r.price, RESERVE_PAY_BPS)
            && r.burnLeg + r.payLeg + Remainder(r) == r.price
            && Remainder(r) >= DUST_FLOOR)
    ensures forall o :: o in Exec(p, steps).st.muts ==> Exec(p, steps).st.muts[o] <= Exec(p, steps).height
  {
    RunOk(p, steps);
    var c := Exec(p, steps);
    assert RowOk(c.st.names[n], c.mtp);
    if c.st.names[n].st == Reserved { RemainderIsExact(c.st.names[n], c.mtp); }
  }
}
