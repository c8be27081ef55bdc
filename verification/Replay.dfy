/**
 Reorg replay: refolding only the stored blocks against folding every block. The two
 agree, up to the transitions the next block start will run anyway, exactly when no
 skipped block fired a lapse.
 */
module Replay {
  import opened Primitives
  import opened NameOrder
  import opened Protocol
  import opened Lease
  import opened Fold
  import opened FoldInvariant

  /** A connected block, with the flag that it touched the watched wallet. */
  datatype Entry = Entry(b: FoldBlock, wallet: bool)

  predicate HasCarrier(tx: FoldTx) {
    exists i :: 0 <= i < |tx.carriers| && !tx.carriers[i].c.Ignore?
  }

  predicate AnyCarrier(txs: seq<FoldTx>) {
    exists i :: 0 <= i < |txs| && HasCarrier(txs[i])
  }

  predicate Folds(b: FoldBlock) {
    AnyCarrier(b.txs)
  }

  /** Raw bytes are kept only of blocks that folded a carrier or touched the wallet. */
  predicate Stored(e: Entry) {
    Folds(e.b) || e.wallet
  }

  /** Folding every block. */
  ghost function Live(p: Params, es: seq<Entry>): State {
    if es == [] then EMPTY_STATE
    else BlockState(p, Live(p, es[..|es| - 1]), es[|es| - 1].b)
  }

  /** Folding the stored blocks only. */
  ghost function Refold(p: Params, es: seq<Entry>): State {
    if es == [] then EMPTY_STATE
    else
      var rest := Refold(p, es[..|es| - 1]);
      if Stored(es[|es| - 1]) then BlockState(p, rest, es[|es| - 1].b) else rest
  }

  lemma LiveSnoc(p: Params, es: seq<Entry>, e: Entry)
    ensures Live(p, es + [e]) == BlockState(p, Live(p, es), e.b)
  {
    assert (es + [e])[..|es|] == es;
  }

  /** The stored blocks of a chain. */
  function StoredEntries(es: seq<Entry>): seq<Entry> {
    if es == [] then []
    else StoredEntries(es[..|es| - 1]) + if Stored(es[|es| - 1]) then [es[|es| - 1]] else []
  }

  lemma StoredSnoc(es: seq<Entry>, e: Entry)
    ensures StoredEntries(es + [e]) == if Stored(e) then StoredEntries(es) + [e] else StoredEntries(es)
  {
    assert (es + [e])[..|es|] == es;
    assert StoredEntries(es) + [] == StoredEntries(es);
  }

  /** Refolding is folding the stored blocks. */
  lemma {:induction false} RefoldIsLiveOfStored(p: Params, es: seq<Entry>)
    ensures Refold(p, es) == Live(p, StoredEntries(es))
  {
    if es != [] {
      var rest, e := es[..|es| - 1], es[|es| - 1];
      RefoldIsLiveOfStored(p, rest);
      assert es == rest + [e];
      StoredSnoc(rest, e);
      if Stored(e) { LiveSnoc(p, StoredEntries(rest), e); }
    }
  }

  /** Heights strictly increase, and from the activation height on median times never decrease. */
  ghost predicate InOrder(p: Params, es: seq<Entry>) {
    forall i, j :: 0 <= i < j < |es| ==>
      && es[i].b.height < es[j].b.height
      && (es[i].b.height >= p.activation ==> es[i].b.mtp <= es[j].b.mtp)
  }

  ghost predicate FiresLapse(s: State, mtp: int) {
    exists n :: n in s.names && mtp >= s.names[n].leaseExpiry
  }

  /** No skipped block fired a lapse in the live fold. */
  ghost predicate NoSkippedLapse(p: Params, es: seq<Entry>) {
    forall i :: 0 <= i < |es| && !Stored(es[i]) ==> !FiresLapse(Live(p, es[..i]), es[i].b.mtp)
  }

  /** Every later block start makes the same state of both. */
  ghost predicate SameFrom(s: State, t: State, mtp: int) {
    forall h, m :: m >= mtp ==> StartBlock(s, h, m) == StartBlock(t, h, m)
  }

  ghost function TimeAfter(es: seq<Entry>): int {
    if es == [] then 0 else es[|es| - 1].b.mtp
  }

  // ---- a block is its start and its actions ----

  lemma {:induction false} BlockDependsOnStart(p: Params, s: State, t: State, b: FoldBlock)
    requires StartBlock(s, b.height, b.mtp) == StartBlock(t, b.height, b.mtp)
    ensures BlockState(p, s, b) == BlockState(p, t, b)
  {
    var begin := [BeginBlock(b.height, b.mtp, b.rate)];
    RunConcat(p, Opening(s), begin, TxsSteps(b.txs));
    RunConcat(p, Opening(t), begin, TxsSteps(b.txs));
    assert begin[..0] == [];
  }

  lemma {:induction false} IdleTx(p: Params, c: Config, tx: FoldTx, k: nat)
    requires !HasCarrier(tx) && k <= |TxSteps(tx)|
    ensures Run(p, c, TxSteps(tx)[..k]).st == c.st
  {
    if k > 0 {
      IdleTx(p, c, tx, k - 1);
      assert TxSteps(tx)[..k][..k - 1] == TxSteps(tx)[..k - 1];
    }
  }

  lemma {:induction false} IdleTxs(p: Params, c: Config, txs: seq<FoldTx>)
    requires forall i :: 0 <= i < |txs| ==> !HasCarrier(txs[i])
    ensures Run(p, c, TxsSteps(txs)).st == c.st
  {
    if txs != [] {
      var k := |txs| - 1;
      IdleTxs(p, c, txs[..k]);
      RunConcat(p, c, TxsSteps(txs[..k]), TxSteps(txs[k]));
      IdleTx(p, Run(p, c, TxsSteps(txs[..k])), txs[k], |TxSteps(txs[k])|);
      assert TxSteps(txs[k])[..|TxSteps(txs[k])|] == TxSteps(txs[k]);
    }
  }

  /** A block without carriers is only its time step. */
  lemma IdleBlock(p: Params, s: State, b: FoldBlock)
    requires !Folds(b)
    ensures BlockState(p, s, b) == StartBlock(s, b.height, b.mtp)
  {
    var begin := [BeginBlock(b.height, b.mtp, b.rate)];
    RunConcat(p, Opening(s), begin, TxsSteps(b.txs));
    assert begin[..0] == [];
    IdleTxs(p, Next(p, Opening(s), begin[0]), b.txs);
  }

  // ---- time steps compose ----

  lemma AgeTwice(r: NameRow, m1: int, m2: int)
    requires m1 <= m2
    ensures AgeRow(AgeRow(r, m1), m2) == AgeRow(r, m2)
    ensures AgeRow(r, m1).leaseExpiry == r.leaseExpiry && AgeRow(r, m1).owner == r.owner
  {
  }

  lemma {:induction false} PruneTwice(cs: seq<CommitRow>, m1: int, m2: int)
    requires m1 <= m2
    ensures PruneCommits(PruneCommits(cs, m1), m2) == PruneCommits(cs, m2)
  {
    if cs != [] {
      var k := |cs| - 1;
      PruneTwice(cs[..k], m1, m2);
      if m1 <= cs[k].commitTime + COMMIT_EXPIRY {
        var r := PruneCommits(cs[..k], m1);
        assert (r + [cs[k]])[..|r|] == r;
      } else {
        assert PruneCommits(cs, m1) == PruneCommits(cs[..k], m1) + [] == PruneCommits(cs[..k], m1);
        assert PruneCommits(cs, m2) == PruneCommits(cs[..k], m2) + [] == PruneCommits(cs[..k], m2);
      }
    }
  }

  lemma AgeNamesTwice(names: map<Name, NameRow>, m1: int, m2: int)
    requires m1 <= m2
    ensures AgeNames(AgeNames(names, m1), m2) == AgeNames(names, m2)
  {
    forall n | n in names ensures AgeRow(AgeRow(names[n], m1), m2) == AgeRow(names[n], m2)
      && AgeRow(names[n], m1).leaseExpiry == names[n].leaseExpiry
    {
      AgeTwice(names[n], m1, m2);
    }
  }

  lemma LapsedTwice(names: map<Name, NameRow>, m1: int, m2: int)
    requires m1 <= m2 && forall n :: n in names ==> m1 < names[n].leaseExpiry
    ensures LapsedOwners(AgeNames(names, m1), m2) == LapsedOwners(names, m2)
    ensures LapsedOwners(names, m1) == {}
  {
    var aged := AgeNames(names, m1);
    forall n | n in names
      ensures n in aged && aged[n].owner == names[n].owner && aged[n].leaseExpiry == names[n].leaseExpiry
    {
      AgeTwice(names[n], m1, m2);
    }
    forall o | o in LapsedOwners(names, m2) ensures o in LapsedOwners(aged, m2) {
      var n :| n in names && m2 >= names[n].leaseExpiry && names[n].owner == o;
      assert n in aged && aged[n].owner == o;
    }
  }

  /** Two time steps are the later one alone, when the earlier fired no lapse. */
  lemma StartsCompose(s: State, h1: int, m1: int, h2: int, m2: int)
    requires m1 <= m2 && !FiresLapse(s, m1)
    ensures StartBlock(StartBlock(s, h1, m1), h2, m2) == StartBlock(s, h2, m2)
  {
    assert forall n :: n in s.names ==> m1 < s.names[n].leaseExpiry;
    AgeNamesTwice(s.names, m1, m2);
    PruneTwice(s.commits, m1, m2);
    LapsedTwice(s.names, m1, m2);
    assert BumpAll(s.muts, {}, h1) == s.muts;
  }

  // ---- below the activation height ----

  /** No block has reached the activation height. */
  ghost predicate Dormant(p: Params, es: seq<Entry>) {
    es == [] || es[|es| - 1].b.height < p.activation
  }

  lemma {:induction false} DormantActions(p: Params, c: Config, steps: seq<Step>)
    requires c.height < p.activation && forall i :: 0 <= i < |steps| ==> !steps[i].BeginBlock?
    ensures Run(p, c, steps).st == c.st && Run(p, c, steps).height == c.height
  {
    if steps != [] { DormantActions(p, c, steps[..|steps| - 1]); }
  }

  lemma DormantBlock(p: Params, b: FoldBlock)
    requires b.height < p.activation
    ensures BlockState(p, EMPTY_STATE, b) == EMPTY_STATE
  {
    var begin := BeginBlock(b.height, b.mtp, b.rate);
    RunConcat(p, Opening(EMPTY_STATE), [begin], TxsSteps(b.txs));
    assert [begin][..0] == [];
    TxsStepsAct(b.txs);
    StartOfNothing(b.height, b.mtp);
    DormantActions(p, Next(p, Opening(EMPTY_STATE), begin), TxsSteps(b.txs));
  }

  /** Until then both folds are empty, whatever the times. */
  lemma {:induction false} DormantIsEmpty(p: Params, es: seq<Entry>)
    requires InOrder(p, es) && Dormant(p, es)
    ensures Live(p, es) == Refold(p, es) == EMPTY_STATE
  {
    if es != [] {
      DormantIsEmpty(p, es[..|es| - 1]);
      DormantBlock(p, es[|es| - 1].b);
    }
  }

  /** The next block is not earlier, unless nothing has been folded yet. */
  lemma NextInOrder(p: Params, es: seq<Entry>, k: nat)
    requires InOrder(p, es) && k < |es|
    ensures InOrder(p, es[..k])
    ensures || Live(p, es[..k]) == Refold(p, es[..k]) == EMPTY_STATE
            || (!Dormant(p, es[..k]) && TimeAfter(es[..k]) <= es[k].b.mtp)
  {
    if Dormant(p, es[..k]) { DormantIsEmpty(p, es[..k]); }
  }

  // ---- agreement follows from the proviso ----

  ghost predicate AgreesAt(p: Params, es: seq<Entry>, k: nat)
    requires k <= |es|
  {
    SameFrom(Live(p, es[..k]), Refold(p, es[..k]), TimeAfter(es[..k]))
  }

  /** The same names, with the same owners and leases. */
  ghost predicate SameHoldings(s: State, t: State) {
    && s.names.Keys == t.names.Keys
    && forall n :: n in s.names ==>
        s.names[n].owner == t.names[n].owner && s.names[n].leaseExpiry == t.names[n].leaseExpiry
  }

  /** State t is state s but for transitions the next block start will run. */
  ghost predicate InStep(s: State, t: State, mtp: int) {
    SameFrom(s, t, mtp) && SameHoldings(s, t)
  }

  lemma {:induction false} ProvisoKeepsInStep(p: Params, es: seq<Entry>, k: nat)
    requires InOrder(p, es) && NoSkippedLapse(p, es) && k <= |es|
    ensures InStep(Live(p, es[..k]), Refold(p, es[..k]), TimeAfter(es[..k]))
    ensures k > 0 && Stored(es[k - 1]) ==> Live(p, es[..k]) == Refold(p, es[..k])
  {
    if k > 0 {
      ProvisoKeepsInStep(p, es, k - 1);
      assert es[..k][..k - 1] == es[..k - 1];
      NextInOrder(p, es, k - 1);
      StepInStep(p, Live(p, es[..k - 1]), Refold(p, es[..k - 1]), TimeAfter(es[..k - 1]), es[k - 1]);
    }
  }

  lemma StepInStep(p: Params, s: State, t: State, m: int, e: Entry)
    requires (s == t) || (InStep(s, t, m) && m <= e.b.mtp)
    requires Stored(e) || !FiresLapse(s, e.b.mtp)
    ensures Stored(e) ==> BlockState(p, s, e.b) == BlockState(p, t, e.b)
    ensures InStep(BlockState(p, s, e.b), if Stored(e) then BlockState(p, t, e.b) else t, e.b.mtp)
  {
    assert SameFrom(s, t, e.b.mtp);
    BlockDependsOnStart(p, s, t, e.b);
    if !Stored(e) {
      SkipAgrees(p, s, t, e);
      SkipKeepsHoldings(p, s, e);
    }
  }

  lemma SkipKeepsHoldings(p: Params, s: State, e: Entry)
    requires !Stored(e) && !FiresLapse(s, e.b.mtp)
    ensures SameHoldings(BlockState(p, s, e.b), s)
  {
    IdleBlock(p, s, e.b);
    forall n | n in s.names
      ensures AgeRow(s.names[n], e.b.mtp).owner == s.names[n].owner
      ensures AgeRow(s.names[n], e.b.mtp).leaseExpiry == s.names[n].leaseExpiry
    {
      AgeTwice(s.names[n], e.b.mtp, e.b.mtp);
    }
  }

  lemma SkipAgrees(p: Params, s: State, t: State, e: Entry)
    requires !Stored(e) && !FiresLapse(s, e.b.mtp) && SameFrom(s, t, e.b.mtp)
    ensures SameFrom(BlockState(p, s, e.b), t, e.b.mtp)
  {
    IdleBlock(p, s, e.b);
    forall h, m | m >= e.b.mtp
      ensures StartBlock(BlockState(p, s, e.b), h, m) == StartBlock(t, h, m)
    {
      StartsCompose(s, e.b.height, e.b.mtp, h, m);
    }
  }

  /** A state in step with the live fold makes the same of the next block, and fires a lapse when it does. */
  lemma InStepConnects(p: Params, s: State, t: State, m: int, b: FoldBlock)
    requires s == t || (InStep(s, t, m) && m <= b.mtp)
    ensures BlockState(p, t, b) == BlockState(p, s, b)
    ensures FiresLapse(t, b.mtp) <==> FiresLapse(s, b.mtp)
  {
    BlockDependsOnStart(p, s, t, b);
    if n :| n in s.names && b.mtp >= s.names[n].leaseExpiry { assert n in t.names; }
    if n :| n in t.names && b.mtp >= t.names[n].leaseExpiry { assert n in s.names; }
  }

  // ---- and the proviso is necessary ----

  /** From a sound state, the actions of a block keep it sound. */
  lemma {:induction false} ActionsOk(p: Params, c: Config, steps: seq<Step>)
    requires Inv(c) && forall i :: 0 <= i < |steps| ==> !steps[i].BeginBlock?
    ensures Inv(Run(p, c, steps)) && Run(p, c, steps).height == c.height && Run(p, c, steps).mtp == c.mtp
  {
    if steps != [] {
      var k := |steps| - 1;
      ActionsOk(p, c, steps[..k]);
      StepOk(p, Run(p, c, steps[..k]), steps[k]);
    }
  }

  lemma {:induction false} TxsStepsAct(txs: seq<FoldTx>)
    ensures forall i :: 0 <= i < |TxsSteps(txs)| ==> !TxsSteps(txs)[i].BeginBlock?
  {
    if txs != [] { TxsStepsAct(txs[..|txs| - 1]); }
  }

  lemma BlockOk(p: Params, s: State, h0: int, m0: int, b: FoldBlock)
    requires StateOk(s, h0, m0)
    requires s == EMPTY_STATE || (h0 < b.height && m0 <= b.mtp)
    ensures StateOk(BlockState(p, s, b), b.height, b.mtp)
  {
    var begin := BeginBlock(b.height, b.mtp, b.rate);
    StartOk(s, h0, m0, b.height, b.mtp);
    RunConcat(p, Opening(s), [begin], TxsSteps(b.txs));
    assert [begin][..0] == [];
    TxsStepsAct(b.txs);
    ActionsOk(p, Next(p, Opening(s), begin), TxsSteps(b.txs));
  }

  lemma {:induction false} LiveOk(p: Params, es: seq<Entry>)
    requires InOrder(p, es)
    ensures es != [] ==> StateOk(Live(p, es), es[|es| - 1].b.height, es[|es| - 1].b.mtp)
  {
    if es != [] {
      var k := |es| - 1;
      NextInOrder(p, es, k);
      if Live(p, es[..k]) == EMPTY_STATE {
        BlockOk(p, EMPTY_STATE, 0, 0, es[k].b);
      } else {
        LiveOk(p, es[..k]);
        BlockOk(p, Live(p, es[..k]), es[k - 1].b.height, es[k - 1].b.mtp, es[k].b);
      }
    }
  }

  /** A lapse in a skipped block is stamped one height in the live fold and a later one in the refold. */
  lemma SkippedLapseShows(p: Params, s: State, t: State, e: Entry)
    requires !Stored(e) && FiresLapse(s, e.b.mtp)
    requires forall o :: o in s.muts ==> s.muts[o] <= e.b.height
    requires SameFrom(s, t, e.b.mtp)
    ensures !SameFrom(BlockState(p, s, e.b), t, e.b.mtp)
  {
    var h, m := e.b.height, e.b.mtp;
    IdleBlock(p, s, e.b);
    var n :| n in s.names && m >= s.names[n].leaseExpiry;
    var o := s.names[n].owner;
    assert o in LapsedOwners(s.names, m);
    var once := StartBlock(s, h, m);
    assert once.muts[o] == h;
    assert LapsedOwners(once.names, m) == {} by {
      forall k | k in once.names ensures m < once.names[k].leaseExpiry { AgeTwice(s.names[k], m, m); }
    }
    assert StartBlock(once, h + 1, m).muts[o] == h;
    assert StartBlock(s, h + 1, m).muts[o] == h + 1;
    assert StartBlock(once, h + 1, m) != StartBlock(t, h + 1, m);
  }

  ghost predicate AgreesThroughout(p: Params, es: seq<Entry>) {
    forall k :: 0 <= k <= |es| ==> AgreesAt(p, es, k)
  }

  /**
   Replay equivalence. On a chain in order, the refold of the stored blocks agrees with the
   live fold at every block, from the next block start on, if and only if no skipped block
   fired a lapse.
   */
  lemma RefoldAgreesIffNoSkippedLapse(p: Params, es: seq<Entry>)
    requires InOrder(p, es)
    ensures AgreesThroughout(p, es) <==> NoSkippedLapse(p, es)
  {
    if NoSkippedLapse(p, es) {
      forall k | 0 <= k <= |es| ensures AgreesAt(p, es, k) {
        ProvisoKeepsInStep(p, es, k);
      }
    } else {
      var i :| 0 <= i < |es| && !Stored(es[i]) && FiresLapse(Live(p, es[..i]), es[i].b.mtp);
      DisagreesAfter(p, es, i);
    }
  }

  lemma DisagreesAfter(p: Params, es: seq<Entry>, i: nat)
    requires InOrder(p, es) && i < |es| && !Stored(es[i]) && FiresLapse(Live(p, es[..i]), es[i].b.mtp)
    ensures AgreesAt(p, es, i) ==> !AgreesAt(p, es, i + 1)
  {
    assert es[..i + 1][..i] == es[..i];
    NextInOrder(p, es, i);
    LiveOk(p, es[..i]);
    if AgreesAt(p, es, i) {
      SkippedLapseShows(p, Live(p, es[..i]), Refold(p, es[..i]), es[i]);
    }
  }
}
