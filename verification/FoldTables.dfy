/**
 The fold as the program runs it: one object whose tables its methods update in place,
 block by block. Every method is tied to the machine of module Fold.
 */
module FoldTables {
  import opened Primitives
  import opened NameOrder
  import opened Protocol
  import opened Lease
  import opened Fold
  import Deadlines
  import Digits
  import Selection

  // ---- facts about the tables the loops build ----

  /** Position i is selected when bit i of the flags' little-endian value is one, or there are no flags. */
  ghost predicate SelectsByValue(owned: seq<Name>, flags: Option<Bytes>, sel: seq<Name>) {
    forall i: nat :: i < |owned| ==>
      (owned[i] in sel <==> flags.None? || Digits.BitOf(Digits.Val(flags.value), i) == 1)
  }

  lemma SelectedByValue(owned: seq<Name>, flags: Option<Bytes>)
    requires Ascending(owned)
    ensures Ascending(SelectBitmap(owned, flags)) && SelectsByValue(owned, flags, SelectBitmap(owned, flags))
  {
    AscendingIsDistinct(owned);
    Selection.SelectionAscends(owned, flags);
    forall i: nat | i < |owned|
      ensures owned[i] in SelectBitmap(owned, flags)
         <==> flags.None? || Digits.BitOf(Digits.Val(flags.value), i) == 1
    {
      Selection.SelectedAt(owned, flags, i);
      if flags.Some? { Selection.BitSetIsBitOfValue(flags.value, i); }
    }
  }

  lemma BumpAllOne(m: map<Hash160, int>, os: set<Hash160>, o: Hash160, h: int)
    ensures BumpMut(BumpAll(m, os, h), o, h) == BumpAll(m, os + {o}, h)
  {
  }

  /** The tables after the first names of a listing have been aged. */
  ghost function AgedSoFar(names: map<Name, NameRow>, seen: seq<Name>, mtp: int): map<Name, NameRow> {
    map n | n in names && !(n in seen && mtp >= names[n].leaseExpiry) ::
      if n in seen then AgeRow(names[n], mtp) else names[n]
  }

  ghost function LapsedSoFar(names: map<Name, NameRow>, seen: seq<Name>, mtp: int): set<Hash160> {
    set n | n in names && n in seen && mtp >= names[n].leaseExpiry :: names[n].owner
  }

  /** What a transfer of a selection makes of a state. */
  ghost function Moved(s: State, sel: seq<Name>, height: int, target: Hash160, actor: Hash160): State {
    if exists n :: n in sel && Movable(s.names, n)
    then s.(names := MovedNames(s.names, sel, target), muts := BumpMut(BumpMut(s.muts, actor, height), target, height))
    else s
  }

  lemma AgeOne(names: map<Name, NameRow>, keys: seq<Name>, i: nat, mtp: int)
    requires i < |keys| && keys[i] in names && keys[i] !in keys[..i]
    ensures var n, aged := keys[i], AgedSoFar(names, keys[..i], mtp);
      && n in aged && aged[n] == names[n]
      && AgedSoFar(names, keys[..i + 1], mtp)
         == (if mtp >= names[n].leaseExpiry then aged - {n} else aged[n := AgeRow(names[n], mtp)])
      && LapsedSoFar(names, keys[..i + 1], mtp)
         == LapsedSoFar(names, keys[..i], mtp) + (if mtp >= names[n].leaseExpiry then {names[n].owner} else {})
  {
    TakeOneMore(keys, i);
  }

  lemma AgedNone(names: map<Name, NameRow>, muts: map<Hash160, int>, mtp: int, h: int)
    ensures AgedSoFar(names, [], mtp) == names
    ensures BumpAll(muts, LapsedSoFar(names, [], mtp), h) == muts
  {
  }

  lemma AgedAll(names: map<Name, NameRow>, keys: seq<Name>, mtp: int)
    requires forall n :: n in keys <==> n in names
    ensures AgedSoFar(names, keys, mtp) == AgeNames(names, mtp)
    ensures LapsedSoFar(names, keys, mtp) == LapsedOwners(names, mtp)
  {
  }

  /** Some names of a table have been aged, their lapses stamped. */
  ghost predicate Aging(names: map<Name, NameRow>, muts: map<Hash160, int>, seen: seq<Name>,
                        now: map<Name, NameRow>, stamps: map<Hash160, int>, height: int, mtp: int) {
    && now == AgedSoFar(names, seen, mtp)
    && stamps == BumpAll(muts, LapsedSoFar(names, seen, mtp), height)
  }

  /** One name has been aged, its lapse stamped. */
  ghost predicate AgedName(names: map<Name, NameRow>, muts: map<Hash160, int>, n: Name,
                           now: map<Name, NameRow>, stamps: map<Hash160, int>, height: int, mtp: int)
    requires n in names
  {
    if mtp >= names[n].leaseExpiry then now == names - {n} && stamps == BumpMut(muts, names[n].owner, height)
    else now == names[n := AgeRow(names[n], mtp)] && stamps == muts
  }

  lemma AgingStep(names: map<Name, NameRow>, muts: map<Hash160, int>, keys: seq<Name>, i: nat,
                  was: map<Name, NameRow>, stamps: map<Hash160, int>,
                  now: map<Name, NameRow>, nowStamps: map<Hash160, int>, height: int, mtp: int)
    requires i < |keys| && keys[i] in names && keys[i] !in keys[..i]
    requires Aging(names, muts, keys[..i], was, stamps, height, mtp)
    requires keys[i] in was && AgedName(was, stamps, keys[i], now, nowStamps, height, mtp)
    ensures Aging(names, muts, keys[..i + 1], now, nowStamps, height, mtp)
  {
    var lapsed, n := LapsedSoFar(names, keys[..i], mtp), keys[i];
    AgeOne(names, keys, i, mtp);
    if mtp >= names[n].leaseExpiry {
      BumpAllOne(muts, lapsed, names[n].owner, height);
    } else {
      assert lapsed + {} == lapsed;
    }
  }

  lemma MoveOne(names: map<Name, NameRow>, sel: seq<Name>, i: nat, target: Hash160)
    requires i < |sel| && forall n :: n in sel ==> n in names
    ensures var n, moved := sel[i], MovedNames(names, sel[..i], target);
      && n in moved
      && (moved[n].st == Owned <==> Movable(names, n))
      && MovedNames(names, sel[..i + 1], target)
         == (if Movable(names, n) then moved[n := moved[n].(owner := target)] else moved)
  {
    TakeOneMore(sel, i);
  }

  lemma DropOne(names: map<Name, NameRow>, sel: seq<Name>, i: nat)
    requires i < |sel| && (forall n :: n in sel ==> n in names) && sel[i] !in sel[..i]
    ensures var n, left := sel[i], DroppedNames(names, sel[..i]);
      && n in left && left[n] == names[n]
      && DroppedNames(names, sel[..i + 1]) == (if Movable(names, n) then left - {n} else left)
  {
    TakeOneMore(sel, i);
  }

  lemma TakeOneMore<T>(s: seq<T>, i: nat)
    requires i < |s|
    ensures s[..i + 1] == s[..i] + [s[i]]
    ensures forall x :: x in s[..i + 1] <==> x in s[..i] || x == s[i]
  {
  }

  lemma {:induction false} ExtendOneMore(names: map<Name, NameRow>, sel: seq<Name>, add: seq<nat>, i: nat)
    requires i < |sel| == |add| && forall n :: n in sel ==> n in names
    requires sel[i] in Extend(names, sel[..i], add[..i])
    ensures var e := Extend(names, sel[..i], add[..i]);
      Extend(names, sel[..i + 1], add[..i + 1])
      == e[sel[i] := e[sel[i]].(leaseExpiry := e[sel[i]].leaseExpiry + add[i] * BILLING_UNIT)]
  {
    assert sel[..i + 1][..i] == sel[..i] && add[..i + 1][..i] == add[..i];
  }

  lemma {:induction false} ExtendKeepsKeys(names: map<Name, NameRow>, sel: seq<Name>, add: seq<nat>)
    requires |sel| == |add| && forall n :: n in sel ==> n in names
    ensures Extend(names, sel, add).Keys == names.Keys
  {
    if sel != [] { ExtendKeepsKeys(names, sel[..|sel| - 1], add[..|sel| - 1]); }
  }

  lemma BeginsTx(p: Params, c: Config, tx: FoldTx)
    ensures Run(p, c, TxSteps(tx)[..1]) == Next(p, c, BeginTx(tx))
  {
    assert TxSteps(tx)[..1] == [BeginTx(tx)] && TxSteps(tx)[..1][..0] == [];
  }

  lemma ActsNext(p: Params, c: Config, tx: FoldTx, i: nat)
    requires i < |tx.carriers|
    ensures Run(p, c, TxSteps(tx)[..i + 2]) == Dispatch(p, Run(p, c, TxSteps(tx)[..i + 1]), tx.carriers[i])
  {
    var steps := TxSteps(tx)[..i + 2];
    assert steps[..i + 1] == TxSteps(tx)[..i + 1] && steps[i + 1] == Act(tx.carriers[i]);
  }

  // ---- the state object ----

  class FoldState {
    const sha: Bytes -> Hash256
    const activation: int

    var names: map<Name, NameRow>
    var commits: seq<CommitRow>
    var muts: map<Hash160, int>
    var curHeight: int
    var scratch: map<Name, ClaimScratch>

    ghost function Snap(): State
      reads this
    {
      State(names, commits, muts, scratch)
    }

    ghost function Deployment(): Params {
      Params(sha, activation)
    }

    constructor (sha: Bytes -> Hash256, activation: int)
      ensures Snap() == EMPTY_STATE && this.sha == sha && this.activation == activation
    {
      this.sha := sha;
      this.activation := activation;
      names, commits, muts, scratch, curHeight := map[], [], map[], map[], 0;
    }

    method Clear()
      modifies this
      ensures Snap() == EMPTY_STATE
    {
      names, commits, muts, scratch, curHeight := map[], [], map[], map[], 0;
    }

    method Bump(owner: Hash160, h: int)
      modifies this`muts
      ensures muts == BumpMut(old(muts), owner, h)
    {
      if owner !in muts || h > muts[owner] {
        muts := muts[owner := h];
      }
    }

    // ---- listings ----

    /** The names of one owner in ascending byte order. */
    method OwnedListing(owner: Hash160) returns (r: seq<Name>)
      ensures r == OwnedSorted(names, owner)
    {
      r := [];
      var todo := names.Keys;
      while todo != {}
        invariant todo <= names.Keys
        invariant Ascending(r)
        invariant forall n :: n in r <==> n in OwnedSet(names, owner) && n !in todo
        decreases todo
      {
        var k :| k in todo;
        todo := todo - {k};
        if names[k].owner == owner {
          r := InsertName(r, k);
        }
      }
      AscendingIsUnique(r, OwnedSorted(names, owner));
    }

    static method Select(owned: seq<Name>, flags: Option<Bytes>) returns (sel: seq<Name>)
      ensures sel == SelectBitmap(owned, flags)
      ensures Ascending(owned) ==> Ascending(sel) && SelectsByValue(owned, flags, sel)
    {
      sel := [];
      for i := 0 to |owned|
        invariant sel == SelectBitmap(owned[..i], flags)
      {
        assert owned[..i + 1][..i] == owned[..i];
        if flags.None? || BitSet(flags.value, i) {
          sel := sel + [owned[i]];
        }
      }
      assert owned[..|owned|] == owned;
      if Ascending(owned) { SelectedByValue(owned, flags); }
    }

    // ---- time-triggered transitions ----

    method AgeLoop(height: int, mtp: int)
      modifies `names, `muts
      ensures names == AgeNames(old(names), mtp)
      ensures muts == BumpAll(old(muts), LapsedOwners(old(names), mtp), height)
    {
      var keys := SortNames(names.Keys);
      AscendingIsDistinct(keys);
      assert keys[..0] == [];
      AgedNone(names, muts, mtp, height);
      for i := 0 to |keys|
        invariant Aging(old(names), old(muts), keys[..i], names, muts, height, mtp)
      {
        ghost var was, stamps := names, muts;
        assert keys[i] in keys;
        AgeOne(old(names), keys, i, mtp);
        AgeName(keys[i], height, mtp);
        AgingStep(old(names), old(muts), keys, i, was, stamps, names, muts, height, mtp);
      }
      assert keys[..|keys|] == keys;
      AgedAll(old(names), keys, mtp);
    }

    /** Reserve revert, then offer close, then lease lapse, for one name. */
    method AgeName(name: Name, height: int, mtp: int)
      requires name in names
      modifies `names, `muts
      ensures AgedName(old(names), old(muts), name, names, muts, height, mtp)
    {
      var r := names[name];
      if r.st == Reserved && mtp >= r.reserveExpiry {
        r := r.(st := Listed, buyer := ZERO_20, burnLeg := 0, payLeg := 0, reserveExpiry := 0);
      }
      if (r.st == Listed || r.st == Offered) && mtp >= r.offerExpiry {
        r := ResetMarket(r.(st := Owned));
      }
      names := names[name := r];
      if mtp >= r.leaseExpiry {
        names := names - {name};
        Bump(r.owner, height);
      }
    }

    method PreBlock(height: int, mtp: int)
      modifies `names, `commits, `muts
      ensures names == AgeNames(old(names), mtp)
      ensures commits == PruneCommits(old(commits), mtp)
      ensures muts == BumpAll(old(muts), LapsedOwners(old(names), mtp), height)
      ensures forall n :: n in names <==> n in old(names) && mtp < old(names)[n].leaseExpiry
      ensures forall n :: n in names && Deadlines.Clamped(old(names)[n]) ==>
        names[n] == Deadlines.RowAfter(old(names)[n], mtp)
    {
      AgeLoop(height, mtp);
      PruneLoop(mtp);
      forall n | n in names && Deadlines.Clamped(old(names)[n])
        ensures names[n] == Deadlines.RowAfter(old(names)[n], mtp)
      {
        Deadlines.AgedIsRowAfter(old(names)[n], mtp);
      }
    }

    method PruneLoop(mtp: int)
      modifies this`commits
      ensures commits == PruneCommits(old(commits), mtp)
    {
      var kept := [];
      for i := 0 to |commits|
        invariant commits == old(commits)
        invariant kept == PruneCommits(commits[..i], mtp)
      {
        assert commits[..i + 1][..i] == commits[..i];
        if !(mtp > commits[i].commitTime + COMMIT_EXPIRY) {
          kept := kept + [commits[i]];
        }
      }
      assert commits[..|commits|] == commits;
      commits := kept;
    }

    // ---- set operations ----

    method HeadroomLoop(sel: seq<Name>, mtp: int) returns (h: seq<nat>)
      requires forall n :: n in sel ==> n in names
      ensures h == Headrooms(names, sel, mtp)
    {
      h := [];
      for i := 0 to |sel|
        invariant |h| == i && forall k :: 0 <= k < i ==> h[k] == HeadroomDays(names[sel[k]].leaseExpiry, mtp)
      {
        h := h + [HeadroomDays(names[sel[i]].leaseExpiry, mtp)];
      }
    }

    method ExtendLoop(sel: seq<Name>, add: seq<nat>)
      requires |sel| == |add| && forall n :: n in sel ==> n in names
      modifies this`names
      ensures names == Extend(old(names), sel, add)
    {
      for i := 0 to |sel|
        invariant names == Extend(old(names), sel[..i], add[..i])
      {
        ExtendKeepsKeys(old(names), sel[..i], add[..i]);
        ExtendOneMore(old(names), sel, add, i);
        var r := names[sel[i]];
        names := names[sel[i] := r.(leaseExpiry := r.leaseExpiry + add[i] * BILLING_UNIT)];
      }
      assert sel[..|sel|] == sel && add[..|sel|] == add;
    }

    /** Spread the days a value buys over the listed names. */
    method FillRows(sel: seq<Name>, value: U64, rate: U64, mtp: int)
      requires forall n :: n in sel ==> n in names
      modifies this`names
      ensures names == FillNames(old(names), sel, LeaseT(value, rate), mtp)
    {
      if |sel| == 0 { return; }
      var t := LeaseT(value, rate);
      if !t.huge && t.count == 0 { return; }
      var h := HeadroomLoop(sel, mtp);
      var add := WaterFillLinear(h, t.count, t.huge);
      FairSplitIsUnique(h, if t.huge then Sum(h) else t.count, add, Awards(h, t));
      ExtendLoop(sel, add);
    }

    method ApplyRenew(height: int, mtp: int, rate: U64, value: U64, anchor: Option<int>, flags: Option<Bytes>,
                      actor: Hash160)
      modifies `names, `commits, `muts, `scratch
      ensures Snap() == Fold.ApplyRenew(old(Snap()), height, mtp, rate, value, anchor, flags, actor)
    {
      var owned := OwnedListing(actor);
      if anchor.Some? && !AnchorOk(muts, actor, anchor.value, height) { return; }
      var sel := Select(owned, flags);
      FillRows(sel, value, rate, mtp);
    }

    method ApplyTransfer(height: int, target: Hash160, anchor: Option<int>, flags: Option<Bytes>, actor: Hash160)
      modifies `names, `commits, `muts, `scratch
      ensures Snap() == Fold.ApplyTransfer(old(Snap()), height, target, anchor, flags, actor)
    {
      var owned := OwnedListing(actor);
      if anchor.Some? && !AnchorOk(muts, actor, anchor.value, height) { return; }
      var sel := Select(owned, flags);
      MoveSelected(sel, height, target, actor);
    }

    /** Move the unlocked names of a selection; both parties are stamped if any did. */
    method MoveSelected(sel: seq<Name>, height: int, target: Hash160, actor: Hash160)
      requires forall n :: n in sel ==> n in names
      modifies this`names, this`muts
      ensures Snap() == Moved(old(Snap()), sel, height, target, actor)
    {
      var moved := MoveLoop(sel, target);
      if moved {
        Bump(actor, height);
        Bump(target, height);
      }
    }

    method MoveLoop(sel: seq<Name>, target: Hash160) returns (moved: bool)
      requires forall n :: n in sel ==> n in names
      modifies this`names
      ensures moved <==> exists n :: n in sel && Movable(old(names), n)
      ensures names == if moved then MovedNames(old(names), sel, target) else old(names)
    {
      moved := false;
      for i := 0 to |sel|
        invariant names == MovedNames(old(names), sel[..i], target)
        invariant moved <==> exists n :: n in sel[..i] && Movable(old(names), n)
      {
        MoveOne(old(names), sel, i, target);
        TakeOneMore(sel, i);
        var r := names[sel[i]];
        if r.st == Owned {
          names := names[sel[i] := r.(owner := target)];
          moved := true;
        }
      }
      assert sel[..|sel|] == sel;
    }

    method ApplyRelease(height: int, anchor: int, flags: Bytes, actor: Hash160)
      modifies `names, `commits, `muts, `scratch
      ensures Snap() == Fold.ApplyRelease(old(Snap()), height, anchor, flags, actor)
    {
      var owned := OwnedListing(actor);
      if !AnchorOk(muts, actor, anchor, height) { return; }
      var sel := Select(owned, Some(flags));
      AscendingIsDistinct(owned);
      SelectDistinct(owned, Some(flags));
      var removed := DropLoop(sel);
      if removed {
        Bump(actor, height);
      }
    }

    method DropLoop(sel: seq<Name>) returns (removed: bool)
      requires (forall n :: n in sel ==> n in names) && forall i, j :: 0 <= i < j < |sel| ==> sel[i] != sel[j]
      modifies this`names
      ensures removed <==> exists n :: n in sel && Movable(old(names), n)
      ensures names == if removed then DroppedNames(old(names), sel) else old(names)
    {
      removed := false;
      for i := 0 to |sel|
        invariant names == DroppedNames(old(names), sel[..i])
        invariant removed <==> exists n :: n in sel[..i] && Movable(old(names), n)
      {
        assert sel[i] !in sel[..i];
        DropOne(old(names), sel, i);
        TakeOneMore(sel, i);
        var r := names[sel[i]];
        if r.st == Owned {
          names := names - {sel[i]};
          removed := true;
        }
      }
      assert sel[..|sel|] == sel;
    }

    // ---- by-name operations ----

    method ApplyRenewName(mtp: int, rate: U64, value: U64, n: Name, actor: Hash160)
      modifies `names, `commits, `muts, `scratch
      ensures Snap() == Fold.ApplyRenewName(old(Snap()), mtp, rate, value, n, actor)
    {
      if n !in names || names[n].owner != actor { return; }
      FillRows([n], value, rate, mtp);
    }

    method ApplyTransferName(height: int, target: Hash160, n: Name, actor: Hash160)
      modifies `names, `commits, `muts, `scratch
      ensures Snap() == Fold.ApplyTransferName(old(Snap()), height, target, n, actor)
    {
      if n !in names || names[n].owner != actor || names[n].st != Owned { return; }
      names := names[n := names[n].(owner := target)];
      Bump(actor, height);
      Bump(target, height);
    }

    method ApplyReleaseName(height: int, n: Name, actor: Hash160)
      modifies `names, `commits, `muts, `scratch
      ensures Snap() == Fold.ApplyReleaseName(old(Snap()), height, n, actor)
    {
      if n !in names || names[n].owner != actor || names[n].st != Owned { return; }
      names := names - {n};
      Bump(actor, height);
    }

    // ---- claims ----

    /** Scan for the backing commit with the best priority. */
    method FindCommit(want: Hash256, height: int) returns (found: bool, best: Priority)
      ensures BestCommit(commits, want, height) == if found then Some(best) else None
    {
      found, best := false, Priority(-1, 0);
      for i := 0 to |commits|
        invariant BestCommit(commits[..i], want, height) == if found then Some(best) else None
      {
        assert commits[..i + 1][..i] == commits[..i];
        var cm := commits[i];
        if cm.commitment != want || cm.height >= height { continue; }
        if !found || cm.height < best.height || (cm.height == best.height && cm.txIndex < best.txIndex) {
          found, best := true, Priority(cm.height, cm.txIndex);
        }
      }
      assert commits[..|commits|] == commits;
    }

    method ApplyClaim(height: int, mtp: int, rate: U64, value: U64, salt: Hash256, name: Name, actor: Hash160)
      modifies `names, `commits, `muts, `scratch
      ensures Snap() == Fold.ApplyClaim(old(Snap()), height, mtp, rate, value, Commitment(sha, salt, name, actor),
          name, actor)
    {
      var found, best := FindCommit(Commitment(sha, salt, name, actor), height);
      if !found { return; }
      if name in names {
        var r := names[name];
        if name !in scratch { return; }
        var sc := scratch[name];
        if r.st != Owned || r.owner != sc.owner { return; }
        if Before(best, sc.priority) {
          var add := LeaseDaysSingle(value, rate, mtp, mtp);
          if add == 0 { return; }
          names := names[name := r.(owner := actor, leaseExpiry := mtp + add * BILLING_UNIT)];
          scratch := scratch[name := ClaimScratch(best, actor)];
          Bump(actor, height);
        }
        return;
      }
      var add := LeaseDaysSingle(value, rate, mtp, mtp);
      if add == 0 { return; }
      names := names[name := FreshRow(actor, mtp + add * BILLING_UNIT)];
      scratch := scratch[name := ClaimScratch(best, actor)];
      Bump(actor, height);
    }

    // ---- market ----

    method ApplySell(mtp: int, price: U64, window: U32, n: Name, actor: Identity)
      modifies `names, `commits, `muts, `scratch
      ensures Snap() == Fold.ApplySell(old(Snap()), mtp, price, window, n, actor)
    {
      if n !in names { return; }
      var r := names[n];
      if r.owner != actor.h160 || r.st != Owned { return; }
      if price < 3 * DUST_FLOOR { return; }
      var w: int := window;
      if w == 0 { w := RESERVE_WINDOW; } else if w < RESERVE_WINDOW { return; }
      if mtp + w + REORG_BUFFER > r.leaseExpiry { return; }
      names := names[n := r.(st := Listed, seller := actor.h160, sellerType := actor.styp, price := price,
          offerExpiry := mtp + w)];
    }

    method ApplySellTo(mtp: int, price: U64, buyer: Hash160, n: Name, actor: Identity)
      modifies `names, `commits, `muts, `scratch
      ensures Snap() == Fold.ApplySellTo(old(Snap()), mtp, price, buyer, n, actor)
    {
      if n !in names { return; }
      var r := names[n];
      if r.owner != actor.h160 || r.st != Owned { return; }
      if price < DUST_FLOOR { return; }
      if mtp + DIRECT_WINDOW + REORG_BUFFER > r.leaseExpiry { return; }
      names := names[n := r.(st := Offered, seller := actor.h160, sellerType := actor.styp, price := price,
                             buyer := buyer, offerExpiry := mtp + DIRECT_WINDOW)];
    }

    /** Index of the lowest unconsumed output paying exactly what is owed, or -1. */
    static method MatchOutput(spend: seq<Output>, consumed: array<bool>, owed: Output) returns (idx: int)
      requires |spend| == consumed.Length
      ensures MatchFrom(spend, consumed[..], owed, 0) == if idx < 0 then None else Some(idx)
      ensures -1 <= idx < |spend|
    {
      var i := 0;
      while i < |spend|
        invariant i <= |spend|
        invariant MatchFrom(spend, consumed[..], owed, 0) == MatchFrom(spend, consumed[..], owed, i)
      {
        if !consumed[i] && spend[i] == owed {
          return i;
        }
        i := i + 1;
      }
      return -1;
    }

    method ApplyReserve(mtp: int, value: U64, n: Name, actor: Identity, spend: seq<Output>, consumed: array<bool>)
      requires |spend| == consumed.Length
      modifies `names, `commits, `muts, `scratch, consumed
      ensures var r := Fold.ApplyReserve(old(Snap()), mtp, value, n, actor, spend, old(consumed[..]));
        && Snap() == r.st
        && consumed[..] == if r.taken.Some? then old(consumed[..])[r.taken.value := true] else old(consumed[..])
    {
      if n !in names || names[n].st != Listed { return; }
      var r := names[n];
      var burnLeg := DepositLeg(r.price, RESERVE_BURN_BPS);
      var payLeg := DepositLeg(r.price, RESERVE_PAY_BPS);
      if value < burnLeg { return; }
      var idx := MatchOutput(spend, consumed, Output(r.seller, r.sellerType, payLeg));
      if idx < 0 { return; }
      consumed[idx] := true;
      var re := mtp + RESERVE_WINDOW;
      if re > r.offerExpiry { re := r.offerExpiry; }
      names := names[n := r.(st := Reserved, buyer := actor.h160, burnLeg := burnLeg, payLeg := payLeg,
          reserveExpiry := re)];
    }

    method ApplySettle(height: int, mtp: int, n: Name, actor: Identity, spend: seq<Output>, consumed: array<bool>)
      requires |spend| == consumed.Length
      modifies `names, `commits, `muts, `scratch, consumed
      ensures var r := Fold.ApplySettle(old(Snap()), height, mtp, n, actor, spend, old(consumed[..]));
        && Snap() == r.st
        && consumed[..] == if r.taken.Some? then old(consumed[..])[r.taken.value := true] else old(consumed[..])
    {
      if n !in names || names[n].st != Reserved { return; }
      var r := names[n];
      if r.buyer != actor.h160 { return; }
      if mtp >= r.reserveExpiry { return; }
      var remainder := (r.price - r.burnLeg - r.payLeg) % TWO_TO_THE_64;
      var idx := MatchOutput(spend, consumed, Output(r.seller, r.sellerType, remainder));
      if idx < 0 { return; }
      consumed[idx] := true;
      var seller := r.seller;
      names := names[n := ResetMarket(r.(owner := actor.h160, st := Owned))];
      Bump(actor.h160, height);
      Bump(seller, height);
    }

    method ApplyPay(height: int, mtp: int, n: Name, actor: Identity, spend: seq<Output>, consumed: array<bool>)
      requires |spend| == consumed.Length
      modifies `names, `commits, `muts, `scratch, consumed
      ensures var r := Fold.ApplyPay(old(Snap()), height, mtp, n, actor, spend, old(consumed[..]));
        && Snap() == r.st
        && consumed[..] == if r.taken.Some? then old(consumed[..])[r.taken.value := true] else old(consumed[..])
    {
      if n !in names || names[n].st != Offered { return; }
      var r := names[n];
      if r.buyer != actor.h160 { return; }
      if mtp >= r.offerExpiry { return; }
      var idx := MatchOutput(spend, consumed, Output(r.seller, r.sellerType, r.price));
      if idx < 0 { return; }
      consumed[idx] := true;
      var seller := r.seller;
      names := names[n := ResetMarket(r.(owner := actor.h160, st := Owned))];
      Bump(actor.h160, height);
      Bump(seller, height);
    }

    method DispatchTrade(height: int, inputs: seq<Identity>, ia: int, ib: int, na: Name, nb: Name)
      modifies `names, `commits, `muts, `scratch
      ensures Snap() == ApplyTrade(old(Snap()), height, inputs, ia, ib, na, nb)
    {
      if ia < 0 || ib < 0 || ia >= |inputs| || ib >= |inputs| { return; }
      if ia == ib { return; }
      var pa, pb := inputs[ia], inputs[ib];
      if !pa.ok || !pb.ok { return; }
      if na == nb { return; }
      if na !in names || nb !in names { return; }
      var ra, rb := names[na], names[nb];
      if ra.owner != pa.h160 || rb.owner != pb.h160 { return; }
      if ra.st != Owned || rb.st != Owned { return; }
      names := names[na := ra.(owner := pb.h160)];
      names := names[nb := rb.(owner := pa.h160)];
      Bump(pa.h160, height);
      Bump(pb.h160, height);
    }

    // ---- transactions and blocks ----

    ghost function View(height: int, mtp: int, rate: U64, tx: FoldTx, actor: Identity, consumed: array<bool>): Config
      requires consumed.Length == |tx.spend|
      reads this, consumed
    {
      Config(Snap(), height, mtp, rate, tx, actor, consumed[..])
    }

    method DispatchSale(height: int, mtp: int, rate: U64, tx: FoldTx, fc: FoldCarrier, actor: Identity,
                        consumed: array<bool>)
      requires consumed.Length == |tx.spend|
      requires fc.c.Sell? || fc.c.SellTo? || fc.c.Reserve? || fc.c.Settle? || fc.c.Pay?
      modifies `names, `commits, `muts, `scratch, consumed
      ensures View(height, mtp, rate, tx, actor, consumed)
           == Perform(Deployment(), old(View(height, mtp, rate, tx, actor, consumed)), fc)
    {
      match fc.c
      case Sell(price, window, n) => ApplySell(mtp, price, window, n, actor);
      case SellTo(price, buyer, n) => ApplySellTo(mtp, price, buyer, n, actor);
      case Reserve(n) => ApplyReserve(mtp, fc.value, n, actor, tx.spend, consumed);
      case Settle(n) => ApplySettle(height, mtp, n, actor, tx.spend, consumed);
      case Pay(n) => ApplyPay(height, mtp, n, actor, tx.spend, consumed);
    }

    method DispatchByName(height: int, mtp: int, rate: U64, tx: FoldTx, fc: FoldCarrier, actor: Identity,
                          consumed: array<bool>)
      requires consumed.Length == |tx.spend|
      requires fc.c.RenewName? || fc.c.TransferName? || fc.c.ReleaseName? || fc.c.Claim? || fc.c.Commit?
      modifies `names, `commits, `muts, `scratch
      ensures View(height, mtp, rate, tx, actor, consumed)
           == Perform(Deployment(), old(View(height, mtp, rate, tx, actor, consumed)), fc)
    {
      match fc.c
      case Commit(commitment) => commits := commits + [CommitRow(commitment, height, tx.txIndex, mtp)];
      case Claim(salt, name) => ApplyClaim(height, mtp, rate, fc.value, salt, name, actor.h160);
      case RenewName(n) => ApplyRenewName(mtp, rate, fc.value, n, actor.h160);
      case TransferName(target, n) => ApplyTransferName(height, target, n, actor.h160);
      case ReleaseName(n) => ApplyReleaseName(height, n, actor.h160);
    }

    method DispatchSet(height: int, mtp: int, rate: U64, tx: FoldTx, fc: FoldCarrier, actor: Identity,
                       consumed: array<bool>)
      requires consumed.Length == |tx.spend| && (fc.c.Renew? || fc.c.Transfer? || fc.c.Release?)
      modifies `names, `commits, `muts, `scratch
      ensures View(height, mtp, rate, tx, actor, consumed)
           == Perform(Deployment(), old(View(height, mtp, rate, tx, actor, consumed)), fc)
    {
      match fc.c
      case Renew(anchor, flags) => ApplyRenew(height, mtp, rate, fc.value, anchor, flags, actor.h160);
      case Transfer(target, anchor, flags) => ApplyTransfer(height, target, anchor, flags, actor.h160);
      case Release(at, bits) => ApplyRelease(height, at, bits, actor.h160);
    }

    method DispatchAction(height: int, mtp: int, rate: U64, tx: FoldTx, fc: FoldCarrier, actor: Identity,
                          consumed: array<bool>)
      requires consumed.Length == |tx.spend|
      modifies `names, `commits, `muts, `scratch, consumed
      ensures View(height, mtp, rate, tx, actor, consumed)
           == Perform(Deployment(), old(View(height, mtp, rate, tx, actor, consumed)), fc)
    {
      match fc.c
      case Ignore =>
      case As(_) =>
      case Trade(_, _, _, _) =>
      case Renew(_, _) => DispatchSet(height, mtp, rate, tx, fc, actor, consumed);
      case Transfer(_, _, _) => DispatchSet(height, mtp, rate, tx, fc, actor, consumed);
      case Release(_, _) => DispatchSet(height, mtp, rate, tx, fc, actor, consumed);
      case Sell(_, _, _) => DispatchSale(height, mtp, rate, tx, fc, actor, consumed);
      case SellTo(_, _, _) => DispatchSale(height, mtp, rate, tx, fc, actor, consumed);
      case Reserve(_) => DispatchSale(height, mtp, rate, tx, fc, actor, consumed);
      case Settle(_) => DispatchSale(height, mtp, rate, tx, fc, actor, consumed);
      case Pay(_) => DispatchSale(height, mtp, rate, tx, fc, actor, consumed);
      case _ => DispatchByName(height, mtp, rate, tx, fc, actor, consumed);
    }

    /** One carrier: choose the acting identity, trade between named inputs, or act. */
    method ApplyCarrier(height: int, mtp: int, rate: U64, tx: FoldTx, fc: FoldCarrier, actor: Identity,
                        consumed: array<bool>)
      returns (next: Identity)
      requires consumed.Length == |tx.spend|
      modifies `names, `commits, `muts, `scratch, consumed
      ensures View(height, mtp, rate, tx, next, consumed)
           == Dispatch(Deployment(), old(View(height, mtp, rate, tx, actor, consumed)), fc)
    {
      next := actor;
      if fc.c.Ignore? || height < activation { return; }
      if fc.c.As? {
        var k := fc.c.index;
        if k >= 0 && k < |tx.inputs| && tx.inputs[k].ok {
          next := tx.inputs[k];
        } else {
          next := NOBODY;
        }
      } else if fc.c.Trade? {
        DispatchTrade(height, tx.inputs, fc.c.idxA, fc.c.idxB, fc.c.nameA, fc.c.nameB);
      } else if actor.ok {
        DispatchAction(height, mtp, rate, tx, fc, actor, consumed);
      }
    }

    /** One forward pass over the carriers with the acting identity. */
    method ApplyTx(height: int, mtp: int, rate: U64, tx: FoldTx, ghost before: Config)
      requires before.st == Snap() && before.height == height && before.mtp == mtp && before.rate == rate
      modifies `names, `commits, `muts, `scratch
      ensures var after := Run(Deployment(), before, TxSteps(tx));
        && Snap() == after.st && after.height == height && after.mtp == mtp && after.rate == rate
    {
      var actor := NOBODY;
      if |tx.inputs| > 0 { actor := tx.inputs[0]; }
      var consumed := new bool[|tx.spend|](_ => false);
      ghost var steps := TxSteps(tx);
      BeginsTx(Deployment(), before, tx);
      assert consumed[..] == seq(|tx.spend|, _ => false);
      for i := 0 to |tx.carriers|
        invariant fresh(consumed) && consumed.Length == |tx.spend|
        invariant View(height, mtp, rate, tx, actor, consumed) == Run(Deployment(), before, steps[..i + 1])
      {
        ActsNext(Deployment(), before, tx, i);
        actor := ApplyCarrier(height, mtp, rate, tx, tx.carriers[i], actor, consumed);
      }
      assert steps[..|tx.carriers| + 1] == steps;
    }

    method ApplyTxs(height: int, mtp: int, rate: U64, txs: seq<FoldTx>, ghost c0: Config)
      requires c0.st == Snap() && c0.height == height && c0.mtp == mtp && c0.rate == rate
      modifies `names, `commits, `muts, `scratch
      ensures Snap() == Run(Deployment(), c0, TxsSteps(txs)).st
    {
      ghost var c := c0;
      for i := 0 to |txs|
        invariant c == Run(Deployment(), c0, TxsSteps(txs[..i]))
        invariant c.st == Snap() && c.height == height && c.mtp == mtp && c.rate == rate
      {
        assert txs[..i + 1][..i] == txs[..i];
        RunConcat(Deployment(), c0, TxsSteps(txs[..i]), TxSteps(txs[i]));
        ApplyTx(height, mtp, rate, txs[i], c);
        c := Run(Deployment(), c, TxSteps(txs[i]));
      }
      assert txs[..|txs|] == txs;
    }

    /** Time-triggered transitions, then the transactions in order. */
    method ApplyBlock(b: FoldBlock)
      modifies this
      ensures Snap() == BlockState(Deployment(), old(Snap()), b)
      ensures curHeight == b.height
    {
      curHeight := b.height;
      scratch := map[];
      PreBlock(b.height, b.mtp);
      ghost var begin := BeginBlock(b.height, b.mtp, b.rate);
      ghost var c0 := Opening(old(Snap()));
      RunConcat(Deployment(), c0, [begin], TxsSteps(b.txs));
      assert [begin][..0] == [];
      ApplyTxs(b.height, b.mtp, b.rate, b.txs, Next(Deployment(), c0, begin));
    }
  }
}
