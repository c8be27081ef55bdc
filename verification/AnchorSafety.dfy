/**
 The stale-bitmap guard over whole runs: an accepted anchor below the connecting height
 means the owner's sorted set is still the one the signer saw at the anchor.
 */
module AnchorSafety {
  import opened Primitives
  import opened NameOrder
  import opened Protocol
  import opened Fold
  import opened FoldInvariant

  /** Number of leading steps that belong to blocks of height at most h. */
  function Cut(steps: seq<Step>, h: int): (k: nat)
    ensures k <= |steps|
    ensures forall i :: 0 <= i < k && steps[i].BeginBlock? ==> steps[i].height <= h
    ensures k < |steps| ==> steps[k].BeginBlock? && steps[k].height > h
  {
    if steps == [] then 0
    else
      var n := |steps| - 1;
      var k := Cut(steps[..n], h);
      if k < n || (steps[n].BeginBlock? && steps[n].height > h) then k else n + 1
  }

  /** The state at the end of the last block of height at most h. */
  ghost function StateAt(p: Params, steps: seq<Step>, h: int): State {
    Exec(p, steps[..Cut(steps, h)]).st
  }

  lemma {:induction false} HeightBeyondCut(p: Params, steps: seq<Step>, h: int)
    requires ValidRun(p, steps) && Cut(steps, h) < |steps|
    ensures Exec(p, steps).height > h
  {
    var j := LatestExists(steps);
    LatestBlock(p, steps, j);
    var k := Cut(steps, h);
    assert j >= k;
  }

  lemma CutIsUnique(steps: seq<Step>, h: int, k: nat)
    requires k <= |steps|
    requires forall i :: 0 <= i < k && steps[i].BeginBlock? ==> steps[i].height <= h
    requires k < |steps| ==> steps[k].BeginBlock? && steps[k].height > h
    ensures k == Cut(steps, h)
  {
  }

  lemma CutOfPrefix(steps: seq<Step>, h: int, k: nat)
    requires Cut(steps, h) <= k <= |steps|
    ensures Cut(steps[..k], h) == Cut(steps, h)
  {
    CutIsUnique(steps[..k], h, Cut(steps, h));
  }

  /** While a mutation height stays at or below h, nothing after the cut touched that owner. */
  lemma UntouchedSinceCut(p: Params, steps: seq<Step>, h: int, k: nat, o: Hash160, n: Name)
    requires ValidRun(p, steps) && Cut(steps, h) <= k <= |steps|
    requires o in Exec(p, steps[..k]).st.muts ==> Exec(p, steps[..k]).st.muts[o] <= h
    ensures OwnerOf(Exec(p, steps[..k]).st.names, n) == Some(o) <==> OwnerOf(StateAt(p, steps, h).names, n) == Some(o)
  {
    UntouchedBetween(p, steps, h, Cut(steps, h), k, o, n);
  }

  lemma {:induction false} UntouchedBetween(p: Params, steps: seq<Step>, h: int, from: nat, k: nat, o: Hash160, n: Name)
    requires ValidRun(p, steps) && Cut(steps, h) <= from <= k <= |steps|
    requires MutUpTo(Exec(p, steps[..k]).st.muts, o, h)
    ensures OwnerOf(Exec(p, steps[..k]).st.names, n) == Some(o)
        <==> OwnerOf(Exec(p, steps[..from]).st.names, n) == Some(o)
    decreases k
  {
    if k > from {
      UntouchedStep(p, steps, h, k - 1, o, n);
      UntouchedBetween(p, steps, h, from, k - 1, o, n);
    }
  }

  predicate MutUpTo(muts: map<Hash160, int>, o: Hash160, h: int) {
    o in muts ==> muts[o] <= h
  }

  lemma UntouchedStep(p: Params, steps: seq<Step>, h: int, k: nat, o: Hash160, n: Name)
    requires ValidRun(p, steps) && Cut(steps, h) <= k < |steps|
    requires var t := Exec(p, steps[..k + 1]).st; o in t.muts ==> t.muts[o] <= h
    ensures var s, t := Exec(p, steps[..k]).st, Exec(p, steps[..k + 1]).st;
      && (o in s.muts ==> s.muts[o] <= h)
      && (OwnerOf(t.names, n) == Some(o) <==> OwnerOf(s.names, n) == Some(o))
  {
    StepOfRun(p, steps, k);
    CutOfPrefix(steps, h, k + 1);
    HeightBeyondCut(p, steps[..k + 1], h);
    StampForbidsChange(Exec(p, steps[..k]).st, Exec(p, steps[..k + 1]).st, Exec(p, steps[..k + 1]).height, h, o, n);
  }

  lemma StampForbidsChange(s: State, t: State, height: int, h: int, o: Hash160, n: Name)
    requires Stamped(s, t, height) && h < height
    requires o in t.muts ==> t.muts[o] <= h
    ensures o in s.muts ==> s.muts[o] <= h
    ensures OwnerOf(t.names, n) == Some(o) <==> OwnerOf(s.names, n) == Some(o)
  {
  }

  /**
   So a mutation height at or below h means the owner's set is that at the end of the last block of height at
   most h.
   */
  lemma SetSinceCut(p: Params, steps: seq<Step>, h: int, o: Hash160)
    requires ValidRun(p, steps)
    requires o in Exec(p, steps).st.muts ==> Exec(p, steps).st.muts[o] <= h
    ensures OwnedSet(Exec(p, steps).st.names, o) == OwnedSet(StateAt(p, steps, h).names, o)
  {
    assert steps[..|steps|] == steps;
    forall n
      ensures n in OwnedSet(Exec(p, steps).st.names, o) <==> n in OwnedSet(StateAt(p, steps, h).names, o)
    {
      UntouchedSinceCut(p, steps, h, |steps|, o, n);
      assert n in OwnedSet(Exec(p, steps).st.names, o) <==> OwnerOf(Exec(p, steps).st.names, n) == Some(o);
      assert n in OwnedSet(StateAt(p, steps, h).names, o) <==> OwnerOf(StateAt(p, steps, h).names, n) == Some(o);
    }
  }

  /**
   Anchor safety. At any moment of any run, if the guard accepts anchor h below the
   connecting height, the owner's set, and so the name behind every bit of every bitmap,
   is what it was at the end of the last block of height at most h.
   */
  lemma AnchoredSetIsUnchanged(p: Params, steps: seq<Step>, o: Hash160, h: int)
    requires ValidRun(p, steps) && h < Exec(p, steps).height
    requires AnchorOk(Exec(p, steps).st.muts, o, h, Exec(p, steps).height)
    ensures OwnedSet(Exec(p, steps).st.names, o) == OwnedSet(StateAt(p, steps, h).names, o)
    ensures OwnedSorted(Exec(p, steps).st.names, o) == OwnedSorted(StateAt(p, steps, h).names, o)
    ensures forall flags :: SelectBitmap(OwnedSorted(Exec(p, steps).st.names, o), flags)
                         == SelectBitmap(OwnedSorted(StateAt(p, steps, h).names, o), flags)
  {
    SetSinceCut(p, steps, h, o);
  }

  /** An anchored transfer moves only names the signer's bitmap selected at the anchor. */
  lemma AnchoredTransferMovesWhatWasSeen(p: Params, steps: seq<Step>, fc: FoldCarrier, n: Name)
    requires ValidRun(p, steps) && fc.c.Transfer? && fc.c.anchor.Some?
    requires fc.c.anchor.value < Exec(p, steps).height
    requires Exec(p, steps).actor.ok && Exec(p, steps).height >= p.activation
    requires var c := Exec(p, steps);
      OwnerOf(c.st.names, n) != OwnerOf(Next(p, c, Act(fc)).st.names, n)
    ensures n in SelectBitmap(OwnedSorted(StateAt(p, steps, fc.c.anchor.value).names, Exec(p, steps).actor.h160),
        fc.c.flags)
  {
    var c := Exec(p, steps);
    AnchoredSetIsUnchanged(p, steps, c.actor.h160, fc.c.anchor.value);
  }

  /** An anchored release drops only names the signer's bitmap selected at the anchor. */
  lemma AnchoredReleaseDropsWhatWasSeen(p: Params, steps: seq<Step>, fc: FoldCarrier, n: Name)
    requires ValidRun(p, steps) && fc.c.Release?
    requires fc.c.anchorAt < Exec(p, steps).height
    requires Exec(p, steps).actor.ok && Exec(p, steps).height >= p.activation
    requires var c := Exec(p, steps);
      OwnerOf(c.st.names, n) != OwnerOf(Next(p, c, Act(fc)).st.names, n)
    ensures n in SelectBitmap(OwnedSorted(StateAt(p, steps, fc.c.anchorAt).names, Exec(p, steps).actor.h160),
        Some(fc.c.bits))
  {
    var c := Exec(p, steps);
    AnchoredSetIsUnchanged(p, steps, c.actor.h160, fc.c.anchorAt);
  }

  // ---- an anchor at the connecting height ----

  /** Such an anchor is always accepted, whatever the same block has already done to the set. */
  lemma AnchorAtConfirmIsAlwaysAccepted(p: Params, steps: seq<Step>, o: Hash160)
    requires ValidRun(p, steps) && Exec(p, steps).height >= 0
    ensures AnchorOk(Exec(p, steps).st.muts, o, Exec(p, steps).height, Exec(p, steps).height)
  {
    RunOk(p, steps);
  }

  /** Its set is the one before the block if no step of the block has stamped the owner yet. */
  lemma UnstampedSetIsThatBeforeTheBlock(p: Params, steps: seq<Step>, o: Hash160)
    requires ValidRun(p, steps)
    requires o in Exec(p, steps).st.muts ==> Exec(p, steps).st.muts[o] < Exec(p, steps).height
    ensures OwnedSet(Exec(p, steps).st.names, o) == OwnedSet(StateAt(p, steps, Exec(p, steps).height - 1).names, o)
    ensures OwnedSorted(Exec(p, steps).st.names, o)
        == OwnedSorted(StateAt(p, steps, Exec(p, steps).height - 1).names, o)
  {
    SetSinceCut(p, steps, Exec(p, steps).height - 1, o);
  }

  /**
   The converse fails: an owner that transfers a name to itself is stamped, and its set stays what it was before the
   block.
   */
  lemma StampedSetCanBeThatBeforeTheBlock(p: Params, steps: seq<Step>, fc: FoldCarrier, n: Name)
    requires ValidRun(p, steps) && Exec(p, steps).actor.ok && Exec(p, steps).height >= p.activation
    requires var c := Exec(p, steps);
      && fc.c == TransferName(c.actor.h160, n) && Mine(c.st, n, c.actor.h160) && c.st.names[n].st == Owned
      && (c.actor.h160 in c.st.muts ==> c.st.muts[c.actor.h160] < c.height)
    ensures var c, d := Exec(p, steps), Next(p, Exec(p, steps), Act(fc));
      && c.actor.h160 in d.st.muts && d.st.muts[c.actor.h160] == d.height
      && OwnedSet(d.st.names, c.actor.h160) == OwnedSet(StateAt(p, steps, d.height - 1).names, c.actor.h160)
  {
    var c := Exec(p, steps);
    UnstampedSetIsThatBeforeTheBlock(p, steps, c.actor.h160);
    SelfTransferStep(p, c, fc, n);
  }

  lemma SelfTransferStep(p: Params, c: Config, fc: FoldCarrier, n: Name)
    requires c.actor.ok && c.height >= p.activation && fc.c == TransferName(c.actor.h160, n)
    requires Mine(c.st, n, c.actor.h160) && c.st.names[n].st == Owned
    requires c.actor.h160 in c.st.muts ==> c.st.muts[c.actor.h160] < c.height
    ensures var d := Next(p, c, Act(fc));
      && d.height == c.height && c.actor.h160 in d.st.muts && d.st.muts[c.actor.h160] == d.height
      && OwnedSet(d.st.names, c.actor.h160) == OwnedSet(c.st.names, c.actor.h160)
  {
    TransferToSelf(c.st, c.height, n, c.actor.h160);
  }

  lemma TransferToSelf(s: State, height: int, n: Name, o: Hash160)
    requires Mine(s, n, o) && s.names[n].st == Owned && (o in s.muts ==> s.muts[o] < height)
    ensures var t := ApplyTransferName(s, height, o, n, o);
      OwnedSet(t.names, o) == OwnedSet(s.names, o) && o in t.muts && t.muts[o] == height
  {
  }
}
