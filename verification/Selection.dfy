/**
 Which names a bitmap selects, said of numbers: bit i of the bitmap's little-endian value
 stands for the owner's name that has exactly i of the owner's names below it. What the
 three bitmap operations do to a state follows from that alone.
 */
module Selection {
  import opened Primitives
  import opened NameOrder
  import opened Protocol
  import opened Lease
  import opened Fold
  import opened FoldInvariant
  import Digits

  // ---- bits of the flags are bits of their value ----

  lemma {:induction false} ShiftIsQuotient(n: nat, k: nat)
    ensures Digits.ShiftRight(n, k) == n / Digits.Pow2(k)
  {
    if k > 0 {
      ShiftIsQuotient(n / 2, k - 1);
      Digits.DivideTwice(n, 2, Digits.Pow2(k - 1));
    }
  }

  lemma BitWeights(k: nat)
    requires k < 8
    ensures Bit(k) == Digits.Pow2(k)
  {
    if k > 0 { BitWeights(k - 1); }
  }

  lemma PastTheEnd(s: Bytes, i: nat)
    requires i >= 8 * |s|
    ensures Digits.BitOf(Digits.Val(s), i) == 0
  {
    var n, w := Digits.Val(s), 8 * |s|;
    Digits.ValBound(s);
    Digits.Pow256IsPow2(|s|);
    Digits.ShiftedOut(n, w);
    Digits.ShiftSum(n, w, i - w);
    ZeroShifted(i - w);
  }

  lemma {:induction false} ZeroShifted(k: nat)
    ensures Digits.ShiftRight(0, k) == 0
  {
    if k > 0 { ZeroShifted(k - 1); }
  }

  /** Bit i of the flags is bit i of their little-endian value, the bits past the end included. */
  lemma BitSetIsBitOfValue(flags: Bytes, i: nat)
    ensures BitSet(flags, i) <==> Digits.BitOf(Digits.Val(flags), i) == 1
  {
    if i / 8 < |flags| {
      Digits.BitOfVal(flags, i);
      BitWeights(i % 8);
      ShiftIsQuotient(flags[i / 8] as nat, i % 8);
    } else {
      PastTheEnd(flags, i);
    }
  }

  // ---- positions are ranks ----

  /** The names of a set below a name. */
  ghost function Smaller(s: set<Name>, n: Name): set<Name> {
    set m | m in s && Less(m, n)
  }

  lemma {:induction false} DistinctCount(r: seq<Name>, s: set<Name>)
    requires (forall i, j :: 0 <= i < j < |r| ==> r[i] != r[j]) && forall n :: n in r <==> n in s
    ensures |s| == |r|
  {
    if r == [] {
      assert s == {};
    } else {
      var k := |r| - 1;
      assert r == r[..k] + [r[k]] && r[k] !in r[..k];
      DistinctCount(r[..k], s - {r[k]});
    }
  }

  /** Name i of an ascending listing has exactly i of the names below it. */
  lemma PositionIsRank(r: seq<Name>, s: set<Name>, i: nat)
    requires Ascending(r) && (forall n :: n in r <==> n in s) && i < |r|
    ensures |Smaller(s, r[i])| == i
  {
    AscendingIsDistinct(r);
    forall n ensures n in r[..i] <==> n in Smaller(s, r[i]) {
      if n in Smaller(s, r[i]) {
        var j :| 0 <= j < |r| && r[j] == n;
        LessIsTotal(r[i], r[j]);
        assert j < i ==> r[..i][j] == n;
      }
    }
    DistinctCount(r[..i], Smaller(s, r[i]));
  }

  /** Bit number |Smaller| of the flags' value is one, or there are no flags. */
  ghost predicate Marks(s: set<Name>, flags: Option<Bytes>, n: Name) {
    n in s && (flags.None? || Digits.BitOf(Digits.Val(flags.value), |Smaller(s, n)|) == 1)
  }

  lemma {:induction false} SelectedAt(owned: seq<Name>, flags: Option<Bytes>, i: nat)
    requires i < |owned| && forall i, j :: 0 <= i < j < |owned| ==> owned[i] != owned[j]
    ensures owned[i] in SelectBitmap(owned, flags) <==> flags.None? || BitSet(flags.value, i)
  {
    var k := |owned| - 1;
    assert owned[k] !in SelectBitmap(owned[..k], flags) by { assert owned[k] !in owned[..k]; }
    if i < k { SelectedAt(owned[..k], flags, i); }
  }

  lemma {:induction false} SelectionAscends(owned: seq<Name>, flags: Option<Bytes>)
    requires Ascending(owned)
    ensures Ascending(SelectBitmap(owned, flags))
  {
    if owned != [] {
      var k := |owned| - 1;
      SelectionAscends(owned[..k], flags);
      forall n | n in SelectBitmap(owned[..k], flags) ensures Less(n, owned[k]) {
        var i :| 0 <= i < k && owned[..k][i] == n;
      }
    }
  }

  /** The selection is the ascending listing of exactly the marked names. */
  lemma SelectionIsMarked(s: set<Name>, flags: Option<Bytes>)
    ensures Ascending(SelectBitmap(Sorted(s), flags))
    ensures forall n :: n in SelectBitmap(Sorted(s), flags) <==> Marks(s, flags, n)
  {
    var owned := Sorted(s);
    SelectionAscends(owned, flags);
    AscendingIsDistinct(owned);
    forall n ensures n in SelectBitmap(owned, flags) <==> Marks(s, flags, n) {
      if n in s {
        var i :| 0 <= i < |owned| && owned[i] == n;
        SelectedAt(owned, flags, i);
        PositionIsRank(owned, s, i);
        if flags.Some? { BitSetIsBitOfValue(flags.value, i); }
      }
    }
  }

  /** The first bit of the second byte stands for the ninth name and no other. */
  lemma NinthBit(i: nat)
    ensures Digits.BitOf(Digits.Val([0, 1]), i) == 1 <==> i == 8
  {
    var flags: Bytes := [0, 1];
    BitSetIsBitOfValue(flags, i);
    assert BitSet(flags, i) <==> i == 8;
  }

  // ---- what the three bitmap operations do ----

  /** The guard, spelled out: no anchor, or one not above the block, not too old, and no older than the last change. */
  ghost predicate Accepts(c: Config, anchor: Option<int>) {
    anchor.Some? ==>
      && 0 <= anchor.value <= c.height <= anchor.value + MAX_ANCHOR_AGE
      && (c.actor.h160 in c.st.muts ==> c.st.muts[c.actor.h160] <= anchor.value)
  }

  ghost function Owned(c: Config): set<Name> {
    set n | n in c.st.names && c.st.names[n].owner == c.actor.h160
  }

  /** The name is the actor's, its bit is set and the guard accepts. */
  ghost predicate Chosen(c: Config, anchor: Option<int>, flags: Option<Bytes>, n: Name) {
    Accepts(c, anchor) && Marks(Owned(c), flags, n)
  }

  /** The chosen names that are unlocked. */
  ghost function ChosenUnlocked(c: Config, anchor: Option<int>, flags: Option<Bytes>): set<Name> {
    set n | n in c.st.names && Chosen(c, anchor, flags, n) && c.st.names[n].st == Status.Owned
  }

  /** The rest of a state, when only names and mutation heights may have moved. */
  ghost predicate OnlyNamesAndMuts(s: State, t: State) {
    t.commits == s.commits && t.scratch == s.scratch
  }

  /** Exactly these names went to the target; no row changed otherwise. */
  ghost predicate Gave(s: State, t: State, moved: set<Name>, target: Hash160) {
    && OnlyNamesAndMuts(s, t) && t.names.Keys == s.names.Keys
    && forall n :: n in s.names ==>
         t.names[n] == if n in moved then s.names[n].(owner := target) else s.names[n]
  }

  /** Exactly these names left; no other row changed. */
  ghost predicate Dropped(s: State, t: State, gone: set<Name>) {
    && OnlyNamesAndMuts(s, t) && t.names.Keys == s.names.Keys - gone
    && forall n :: n in t.names ==> t.names[n] == s.names[n]
  }

  lemma AcceptsIsGuard(c: Config, anchor: Option<int>)
    ensures Accepts(c, anchor) <==> (anchor.Some? ==> AnchorOk(c.st.muts, c.actor.h160, anchor.value, c.height))
  {
  }

  lemma StampedTwice(muts: map<Hash160, int>, a: Hash160, b: Hash160, h: int)
    requires forall o :: o in muts ==> muts[o] <= h
    ensures BumpMut(BumpMut(muts, a, h), b, h) == muts[a := h][b := h] && BumpMut(muts, a, h) == muts[a := h]
  {
  }

  /** The unlocked names of a selection. */
  ghost function Unlocked(names: map<Name, NameRow>, sel: seq<Name>): set<Name> {
    set n | n in names && n in sel && names[n].st == Status.Owned
  }

  lemma UnlockedOfActor(c: Config, anchor: Option<int>, flags: Option<Bytes>)
    ensures ChosenUnlocked(c, anchor, flags) ==
      if Accepts(c, anchor)
      then Unlocked(c.st.names, SelectBitmap(OwnedSorted(c.st.names, c.actor.h160), flags))
      else {}
  {
    assert Owned(c) == OwnedSet(c.st.names, c.actor.h160);
    SelectionIsMarked(Owned(c), flags);
  }

  lemma SomeUnlocked(names: map<Name, NameRow>, sel: seq<Name>)
    ensures (exists n :: n in sel && Movable(names, n)) <==> Unlocked(names, sel) != {}
  {
    if n :| n in sel && Movable(names, n) { assert n in Unlocked(names, sel); }
    if m :| m in Unlocked(names, sel) { assert m in sel && Movable(names, m); }
  }

  lemma MovedAre(names: map<Name, NameRow>, sel: seq<Name>, target: Hash160)
    ensures MovedNames(names, sel, target).Keys == names.Keys
    ensures forall n :: n in names ==>
      MovedNames(names, sel, target)[n] == if n in Unlocked(names, sel) then names[n].(owner := target) else names[n]
  {
  }

  lemma TransferOfSelection(s: State, height: int, target: Hash160, anchor: Option<int>, flags: Option<Bytes>,
                            actor: Hash160)
    requires forall o :: o in s.muts ==> s.muts[o] <= height
    requires anchor.Some? ==> AnchorOk(s.muts, actor, anchor.value, height)
    ensures var t := ApplyTransfer(s, height, target, anchor, flags, actor);
      var moved := Unlocked(s.names, SelectBitmap(OwnedSorted(s.names, actor), flags));
      Gave(s, t, moved, target) && t.muts == if moved == {} then s.muts else s.muts[actor := height][target := height]
  {
    var sel := SelectBitmap(OwnedSorted(s.names, actor), flags);
    StampedTwice(s.muts, actor, target, height);
    SomeUnlocked(s.names, sel);
    MovedAre(s.names, sel, target);
  }

  lemma ActTransfers(p: Params, c: Config, fc: FoldCarrier)
    requires fc.c.Transfer? && Acting(p, c)
    ensures Next(p, c, Act(fc)).st
         == ApplyTransfer(c.st, c.height, fc.c.target, fc.c.anchor, fc.c.flags, c.actor.h160)
  {
    assert Next(p, c, Act(fc)) == Perform(p, c, fc);
  }

  /**
   A transfer gives exactly the chosen unlocked names to the target and touches no other row; both parties are stamped
   if any moved, and nobody if none did.
   */
  lemma TransferMovesTheChosen(p: Params, c: Config, fc: FoldCarrier)
    requires fc.c.Transfer? && Acting(p, c) && Inv(c)
    ensures var t, moved := Next(p, c, Act(fc)).st, ChosenUnlocked(c, fc.c.anchor, fc.c.flags);
      && Gave(c.st, t, moved, fc.c.target)
      && t.muts == if moved == {} then c.st.muts else c.st.muts[c.actor.h160 := c.height][fc.c.target := c.height]
  {
    ActTransfers(p, c, fc);
    AcceptsIsGuard(c, fc.c.anchor);
    UnlockedOfActor(c, fc.c.anchor, fc.c.flags);
    if Accepts(c, fc.c.anchor) {
      TransferOfSelection(c.st, c.height, fc.c.target, fc.c.anchor, fc.c.flags, c.actor.h160);
    }
  }

  lemma ReleaseOfSelection(s: State, height: int, anchor: int, flags: Bytes, actor: Hash160)
    requires (forall o :: o in s.muts ==> s.muts[o] <= height) && AnchorOk(s.muts, actor, anchor, height)
    ensures var t := ApplyRelease(s, height, anchor, flags, actor);
      var gone := Unlocked(s.names, SelectBitmap(OwnedSorted(s.names, actor), Some(flags)));
      Dropped(s, t, gone) && t.muts == if gone == {} then s.muts else s.muts[actor := height]
  {
    var sel := SelectBitmap(OwnedSorted(s.names, actor), Some(flags));
    StampedTwice(s.muts, actor, actor, height);
    SomeUnlocked(s.names, sel);
  }

  lemma ActReleases(p: Params, c: Config, fc: FoldCarrier)
    requires fc.c.Release? && Acting(p, c)
    ensures Next(p, c, Act(fc)).st == ApplyRelease(c.st, c.height, fc.c.anchorAt, fc.c.bits, c.actor.h160)
  {
  }

  /**
   A release drops exactly the chosen unlocked names and touches no other row; the owner is stamped if any left, and
   nobody if none did.
   */
  lemma ReleaseDropsTheChosen(p: Params, c: Config, fc: FoldCarrier)
    requires fc.c.Release? && Acting(p, c) && Inv(c)
    ensures var t, gone := Next(p, c, Act(fc)).st, ChosenUnlocked(c, Some(fc.c.anchorAt), Some(fc.c.bits));
      && Dropped(c.st, t, gone)
      && t.muts == if gone == {} then c.st.muts else c.st.muts[c.actor.h160 := c.height]
  {
    ActReleases(p, c, fc);
    AcceptsIsGuard(c, Some(fc.c.anchorAt));
    UnlockedOfActor(c, Some(fc.c.anchorAt), Some(fc.c.bits));
    if Accepts(c, Some(fc.c.anchorAt)) {
      ReleaseOfSelection(c.st, c.height, fc.c.anchorAt, fc.c.bits, c.actor.h160);
    }
  }

  // ---- renewal ----

  /** Free days of the listed names, in listing order. */
  ghost function FreeDays(c: Config, listing: seq<Name>): (h: seq<nat>)
    requires forall n :: n in listing ==> n in c.st.names
    ensures |h| == |listing|
  {
    seq(|listing|, i requires 0 <= i < |listing| => HeadroomDays(c.st.names[listing[i]].leaseExpiry, c.mtp))
  }

  /** Each listed name's lease grew by its days; nothing else changed. */
  ghost predicate Extended(s: State, t: State, listing: seq<Name>, days: seq<nat>) {
    && |days| == |listing| && t == s.(names := t.names) && t.names.Keys == s.names.Keys
    && (forall n :: n in s.names && n !in listing ==> t.names[n] == s.names[n])
    && (forall i :: 0 <= i < |listing| && listing[i] in s.names ==>
          var r := s.names[listing[i]];
          t.names[listing[i]] == r.(leaseExpiry := r.leaseExpiry + days[i] * 86_400))
  }

  /** The ascending listing of the chosen names. */
  ghost predicate ListsChosen(c: Config, anchor: Option<int>, flags: Option<Bytes>, listing: seq<Name>) {
    Ascending(listing) && forall n :: n in listing <==> Chosen(c, anchor, flags, n)
  }

  lemma FillIsFair(s: State, sel: seq<Name>, burn: U64, rate: U64, mtp: int) returns (days: seq<nat>)
    requires (forall n :: n in sel ==> n in s.names) && forall i, j :: 0 <= i < j < |sel| ==> sel[i] != sel[j]
    requires rate * BILLING_UNIT < TWO_TO_THE_64 && Sum(Headrooms(s.names, sel, mtp)) < TWO_TO_THE_64
    ensures FairSplit(Headrooms(s.names, sel, mtp), TotalNameDays(burn, rate), days)
    ensures Extended(s, s.(names := FillNames(s.names, sel, LeaseT(burn, rate), mtp)), sel, days)
  {
    var h := Headrooms(s.names, sel, mtp);
    days := Awards(h, LeaseT(burn, rate));
    WideAndWordAwardsAgree(h, burn, rate, days);
    ExtendRows(s.names, sel, days);
    if !LeaseT(burn, rate).huge && LeaseT(burn, rate).count == 0 { NoDays(h, days); }
  }

  lemma {:induction false} NoDays(h: seq<nat>, a: seq<nat>)
    requires |a| == |h| && Sum(a) == 0
    ensures forall i :: 0 <= i < |a| ==> a[i] == 0
  {
    if a != [] { NoDays(h[..|h| - 1], a[..|a| - 1]); }
  }

  lemma ActRenews(p: Params, c: Config, fc: FoldCarrier)
    requires fc.c.Renew? && Acting(p, c)
    ensures Next(p, c, Act(fc)).st
         == ApplyRenew(c.st, c.height, c.mtp, c.rate, fc.value, fc.c.anchor, fc.c.flags, c.actor.h160)
  {
    assert Next(p, c, Act(fc)) == Perform(p, c, fc);
  }

  lemma ListingIsSelection(c: Config, anchor: Option<int>, flags: Option<Bytes>, listing: seq<Name>)
    requires ListsChosen(c, anchor, flags, listing)
    ensures listing == if Accepts(c, anchor) then SelectBitmap(OwnedSorted(c.st.names, c.actor.h160), flags) else []
  {
    assert Owned(c) == OwnedSet(c.st.names, c.actor.h160);
    SelectionIsMarked(Owned(c), flags);
    AscendingIsUnique(listing, if Accepts(c, anchor) then SelectBitmap(Sorted(Owned(c)), flags) else []);
  }

  /** A renewal gives the chosen names, locked or not, the fair split of the days its burn buys, in name order. */
  lemma RenewSplitsAmongTheChosen(p: Params, c: Config, fc: FoldCarrier, listing: seq<Name>) returns (days: seq<nat>)
    requires fc.c.Renew? && Acting(p, c) && c.rate * BILLING_UNIT < TWO_TO_THE_64
    requires ListsChosen(c, fc.c.anchor, fc.c.flags, listing)
    requires Sum(FreeDays(c, listing)) < TWO_TO_THE_64
    ensures FairSplit(FreeDays(c, listing), TotalNameDays(fc.value, c.rate), days)
    ensures Extended(c.st, Next(p, c, Act(fc)).st, listing, days)
  {
    ActRenews(p, c, fc);
    AcceptsIsGuard(c, fc.c.anchor);
    ListingIsSelection(c, fc.c.anchor, fc.c.flags, listing);
    AscendingIsDistinct(listing);
    assert FreeDays(c, listing) == Headrooms(c.st.names, listing, c.mtp);
    if Accepts(c, fc.c.anchor) {
      days := FillIsFair(c.st, listing, fc.value, c.rate, c.mtp);
    } else {
      days := [];
    }
  }
}
