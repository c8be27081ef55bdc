/**
 Folding a chain block by block is one run of the small-step machine, so what is proved of
 all runs holds of the live state an indexer keeps, at every moment within every block.
 */
module ChainRuns {
  import opened Primitives
  import opened NameOrder
  import opened Fold
  import opened FoldInvariant
  import opened AnchorSafety
  import opened PaidInFull
  import opened Replay
  import opened Epochs

  function Blocks(es: seq<Entry>): (bs: seq<FoldBlock>)
    ensures |bs| == |es| && forall i :: 0 <= i < |es| ==> bs[i] == es[i].b
  {
    seq(|es|, i requires 0 <= i < |es| => es[i].b)
  }

  /** The run that folds a chain and then the first k steps of one more block. */
  function RunTo(es: seq<Entry>, b: FoldBlock, k: nat): seq<Step>
    requires k <= |BlockSteps(b)|
  {
    ChainSteps(Blocks(es)) + BlockSteps(b)[..k]
  }

  /** The configuration in the middle of folding a block on the live state of a chain. */
  ghost function Moment(p: Params, es: seq<Entry>, b: FoldBlock, k: nat): Config
    requires k <= |BlockSteps(b)|
  {
    Run(p, Opening(Live(p, es)), BlockSteps(b)[..k])
  }

  lemma ChainStepsAppend(es: seq<Entry>, e: Entry)
    ensures ChainSteps(Blocks(es + [e])) == ChainSteps(Blocks(es)) + BlockSteps(e.b)
  {
    assert Blocks(es + [e])[..|es|] == Blocks(es);
  }

  lemma Unsnoc(es: seq<Entry>)
    requires es != []
    ensures es == es[..|es| - 1] + [es[|es| - 1]]
  {
  }

  // ---- the chain as a run ----

  /** The beginning of a block forgets everything but the state. */
  lemma {:induction false} BeginForgets(p: Params, c: Config, b: FoldBlock, k: nat)
    requires 1 <= k <= |BlockSteps(b)|
    ensures Run(p, c, BlockSteps(b)[..k]) == Run(p, Opening(c.st), BlockSteps(b)[..k])
  {
    var steps := BlockSteps(b)[..k];
    assert steps[..k - 1] == BlockSteps(b)[..k - 1];
    if k > 1 {
      BeginForgets(p, c, b, k - 1);
    }
  }

  /** Folding block by block ends in the state of the run. */
  lemma {:induction false} LiveIsRun(p: Params, es: seq<Entry>)
    ensures Live(p, es) == Exec(p, ChainSteps(Blocks(es))).st
  {
    if es != [] {
      var rest, b := es[..|es| - 1], es[|es| - 1].b;
      Unsnoc(es);
      LiveIsRun(p, rest);
      ChainStepsAppend(rest, es[|es| - 1]);
      RunConcat(p, INITIAL, ChainSteps(Blocks(rest)), BlockSteps(b));
      BeginForgets(p, Exec(p, ChainSteps(Blocks(rest))), b, |BlockSteps(b)|);
      assert BlockSteps(b)[..|BlockSteps(b)|] == BlockSteps(b);
    }
  }

  lemma MomentIsRun(p: Params, es: seq<Entry>, b: FoldBlock, k: nat)
    requires 1 <= k <= |BlockSteps(b)|
    ensures Moment(p, es, b, k) == Exec(p, RunTo(es, b, k))
  {
    LiveIsRun(p, es);
    RunConcat(p, INITIAL, ChainSteps(Blocks(es)), BlockSteps(b)[..k]);
    BeginForgets(p, Exec(p, ChainSteps(Blocks(es))), b, k);
  }

  lemma OneBeginning(b: FoldBlock)
    ensures BlockSteps(b)[0] == BeginBlock(b.height, b.mtp, b.rate)
    ensures forall i :: 0 < i < |BlockSteps(b)| ==> !BlockSteps(b)[i].BeginBlock?
  {
    TxsStepsAct(b.txs);
  }

  /** Every block that begins in the run of a chain is one of the chain. */
  ghost predicate BeginsOnly(es: seq<Entry>, steps: seq<Step>) {
    forall i :: 0 <= i < |steps| && steps[i].BeginBlock? ==>
      exists m :: 0 <= m < |es| && es[m].b.height == steps[i].height && es[m].b.mtp == steps[i].mtp
  }

  /** A chain in order is a valid run. */
  lemma {:induction false} ChainIsValidRun(p: Params, es: seq<Entry>)
    requires InOrder(p, es)
    ensures ValidRun(p, ChainSteps(Blocks(es))) && BeginsOnly(es, ChainSteps(Blocks(es)))
  {
    if es != [] {
      var rest, e := es[..|es| - 1], es[|es| - 1];
      Unsnoc(es);
      ChainIsValidRun(p, rest);
      ChainStepsAppend(rest, e);
      OneBeginning(e.b);
      AppendBlock(p, rest, e, ChainSteps(Blocks(rest)));
    }
  }

  lemma AppendBlock(p: Params, es: seq<Entry>, e: Entry, steps: seq<Step>)
    requires InOrder(p, es + [e]) && ValidRun(p, steps) && BeginsOnly(es, steps)
    requires BlockSteps(e.b)[0] == BeginBlock(e.b.height, e.b.mtp, e.b.rate)
    requires forall i :: 0 < i < |BlockSteps(e.b)| ==> !BlockSteps(e.b)[i].BeginBlock?
    ensures ValidRun(p, steps + BlockSteps(e.b)) && BeginsOnly(es + [e], steps + BlockSteps(e.b))
  {
    var all, chain := steps + BlockSteps(e.b), es + [e];
    assert chain[|es|] == e;
    forall i | 0 <= i < |all| && all[i].BeginBlock?
      ensures i <= |steps|
      ensures exists m :: 0 <= m < |chain| && chain[m].b.height == all[i].height && chain[m].b.mtp == all[i].mtp
      ensures i < |steps| ==> all[i].height < e.b.height && (all[i].height >= p.activation ==> all[i].mtp <= e.b.mtp)
    {
      if i < |steps| {
        var m :| 0 <= m < |es| && es[m].b.height == steps[i].height && es[m].b.mtp == steps[i].mtp;
        assert chain[m] == es[m];
      } else {
        assert all[i] == BlockSteps(e.b)[i - |steps|];
      }
    }
  }

  lemma RunToIsValid(p: Params, es: seq<Entry>, e: Entry, k: nat)
    requires InOrder(p, es + [e]) && k <= |BlockSteps(e.b)|
    ensures ValidRun(p, RunTo(es, e.b, k))
  {
    ChainStepsAppend(es, e);
    ChainIsValidRun(p, es + [e]);
    var all := ChainSteps(Blocks(es + [e]));
    ValidPrefix(p, all, |ChainSteps(Blocks(es))| + k);
    assert all[..|ChainSteps(Blocks(es))| + k] == RunTo(es, e.b, k);
  }

  // ---- anchor safety of the live state ----

  lemma WholeCut(p: Params, es: seq<Entry>, rest: seq<Step>, h: int)
    requires InOrder(p, es) && es != [] && es[|es| - 1].b.height <= h
    requires rest != [] && rest[0].BeginBlock? && rest[0].height > h
    ensures Cut(ChainSteps(Blocks(es)) + rest, h) == |ChainSteps(Blocks(es))|
  {
    var steps := ChainSteps(Blocks(es));
    var all := steps + rest;
    ChainIsValidRun(p, es);
    assert all[|steps|] == rest[0];
    forall i | 0 <= i < |steps| && all[i].BeginBlock? ensures all[i].height <= h {
      var m :| 0 <= m < |es| && es[m].b.height == steps[i].height && es[m].b.mtp == steps[i].mtp;
    }
    CutIsUnique(all, h, |steps|);
  }

  /** The state at the cut of a run over a chain is the state after the chain's last block up to that height. */
  lemma {:induction false} StateAtIsAfter(p: Params, es: seq<Entry>, rest: seq<Step>, h: int)
    requires InOrder(p, es) && rest != [] && rest[0].BeginBlock? && rest[0].height > h
    ensures StateAt(p, ChainSteps(Blocks(es)) + rest, h) == After(p, es, h)
  {
    var steps := ChainSteps(Blocks(es));
    if es == [] {
      CutIsUnique(rest, h, 0);
      assert steps + rest == rest;
    } else if es[|es| - 1].b.height <= h {
      WholeCut(p, es, rest, h);
      assert (steps + rest)[..|steps|] == steps;
      LiveIsRun(p, es);
    } else {
      var e := es[|es| - 1];
      Unsnoc(es);
      ChainStepsAppend(es[..|es| - 1], e);
      OneBeginning(e.b);
      assert steps + rest == ChainSteps(Blocks(es[..|es| - 1])) + (BlockSteps(e.b) + rest);
      StateAtIsAfter(p, es[..|es| - 1], BlockSteps(e.b) + rest, h);
    }
  }

  lemma ClockOfMoment(p: Params, es: seq<Entry>, b: FoldBlock, k: nat)
    requires 1 <= k <= |BlockSteps(b)|
    ensures Moment(p, es, b, k).height == b.height && Moment(p, es, b, k).mtp == b.mtp
  {
    OneBeginning(b);
    var begin, rest := BlockSteps(b)[..1], BlockSteps(b)[1..k];
    assert BlockSteps(b)[..k] == begin + rest && begin == [BlockSteps(b)[0]] && begin[..0] == [];
    RunConcat(p, Opening(Live(p, es)), begin, rest);
    ActionsKeepClock(p, Run(p, Opening(Live(p, es)), begin), rest);
  }

  lemma {:induction false} ActionsKeepClock(p: Params, c: Config, steps: seq<Step>)
    requires forall i :: 0 <= i < |steps| ==> !steps[i].BeginBlock?
    ensures Run(p, c, steps).height == c.height && Run(p, c, steps).mtp == c.mtp
  {
    if steps != [] { ActionsKeepClock(p, c, steps[..|steps| - 1]); }
  }

  /**
   Anchor safety on the live state. At any moment of folding a block, an anchor below its
   height that the guard accepts stands for the set the owner held after the last block up
   to the anchor.
   */
  lemma LiveAnchorSafety(p: Params, es: seq<Entry>, e: Entry, k: nat, o: Hash160, h: int)
    requires InOrder(p, es + [e]) && 1 <= k <= |BlockSteps(e.b)| && h < e.b.height
    requires AnchorOk(Moment(p, es, e.b, k).st.muts, o, h, e.b.height)
    ensures OwnedSorted(Moment(p, es, e.b, k).st.names, o) == OwnedSorted(After(p, es, h).names, o)
  {
    MomentIsRun(p, es, e.b, k);
    RunToIsValid(p, es, e, k);
    ClockOfMoment(p, es, e.b, k);
    AnchoredSetIsUnchanged(p, RunTo(es, e.b, k), o, h);
    OneBeginning(e.b);
    NextInOrder(p, es + [e], |es|);
    assert (es + [e])[..|es|] == es;
    StateAtIsAfter(p, es, BlockSteps(e.b)[..k], h);
  }

  /** So the ownership history tells a signer the names an accepted anchor selects from. */
  lemma AcceptedAnchorMatchesHistory(p: Params, es: seq<Entry>, e: Entry, k: nat, o: Hash160, h: int, t: Table, n: Name)
    requires InOrder(p, es + [e]) && 1 <= k <= |BlockSteps(e.b)| && h < e.b.height
    requires AnchorOk(Moment(p, es, e.b, k).st.muts, o, h, e.b.height)
    requires Accurate(t, p, es)
    ensures n in OwnedSorted(Moment(p, es, e.b, k).st.names, o) <==> OwnerAt(t, n, h) == Some(o)
  {
    LiveAnchorSafety(p, es, e, k, o, h);
    assert OwnerAt(t, n, h) == OwnerOf(After(p, es, h).names, n);
    assert n in OwnedSet(After(p, es, h).names, o) <==> OwnerOf(After(p, es, h).names, n) == Some(o);
  }

  // ---- payment in full on the live state ----

  /** A name of a given status goes to a new owner. */
  ghost predicate Moves(names: map<Name, NameRow>, after: map<Name, NameRow>, n: Name, st: Status) {
    n in names && names[n].st == st && n in after && after[n].owner != names[n].owner
  }

  /** Step j of a run takes the first configuration to the second. */
  ghost predicate IsStep(p: Params, steps: seq<Step>, j: nat, c: Config, d: Config) {
    ValidRun(p, steps) && j < |steps| && c == Exec(p, steps[..j]) && d == Exec(p, steps[..j + 1])
  }

  lemma StepOfBlock(p: Params, es: seq<Entry>, e: Entry, k: nat)
    requires InOrder(p, es + [e]) && 1 <= k < |BlockSteps(e.b)|
    ensures IsStep(p, RunTo(es, e.b, k + 1), |ChainSteps(Blocks(es))| + k, Moment(p, es, e.b, k),
        Moment(p, es, e.b, k + 1))
  {
    var steps, j := RunTo(es, e.b, k + 1), |ChainSteps(Blocks(es))| + k;
    RunToIsValid(p, es, e, k + 1);
    MomentIsRun(p, es, e.b, k);
    MomentIsRun(p, es, e.b, k + 1);
    TakePart(ChainSteps(Blocks(es)), BlockSteps(e.b), k);
  }

  lemma TakePart<T>(a: seq<T>, b: seq<T>, k: nat)
    requires k < |b|
    ensures (a + b[..k + 1])[..|a| + k] == a + b[..k]
    ensures (a + b[..k + 1])[..|a| + k + 1] == a + b[..k + 1]
  {
  }

  /** A settled row was reserved by step i and is paid by three parts that make up its price. */
  ghost predicate PaidInThreeParts(p: Params, steps: seq<Step>, j: nat, n: Name, r: NameRow, i: nat) {
    && j < |steps| && ReservedAt(p, steps, j, n, TermsOf(r), i)
    && r.seller == r.owner
    && (exists o :: Pays(p, steps, j, o, Output(r.owner, r.sellerType, Remainder(r))))
    && r.burnLeg + r.payLeg + Remainder(r) == r.price
  }

  ghost predicate PaidWhole(p: Params, steps: seq<Step>, j: nat, r: NameRow) {
    j < |steps| && exists o :: Pays(p, steps, j, o, Output(r.owner, r.sellerType, r.price))
  }

  /** A name went to the buyer of its reservation, in full payment. */
  ghost predicate SettledInFull(p: Params, steps: seq<Step>, j: nat, n: Name,
                                names: map<Name, NameRow>, after: map<Name, NameRow>, i: nat) {
    && n in names && n in after && after[n] == Plain(names[n].buyer, names[n].leaseExpiry)
    && PaidInThreeParts(p, steps, j, n, names[n], i)
  }

  /** A name went to the buyer it was offered to, for the whole price. */
  ghost predicate BoughtInFull(p: Params, steps: seq<Step>, j: nat, n: Name,
                               names: map<Name, NameRow>, after: map<Name, NameRow>) {
    && n in names && n in after && after[n] == Plain(names[n].buyer, names[n].leaseExpiry)
    && PaidWhole(p, steps, j, names[n])
  }

  lemma StepSettles(p: Params, steps: seq<Step>, j: nat, c: Config, d: Config, n: Name) returns (i: nat)
    requires IsStep(p, steps, j, c, d) && Moves(c.st.names, d.st.names, n, Reserved)
    ensures SettledInFull(p, steps, j, n, c.st.names, d.st.names, i)
  {
    i := SettledNameIsPaidInFull(p, steps, j, n);
  }

  lemma StepPays(p: Params, steps: seq<Step>, j: nat, c: Config, d: Config, n: Name)
    requires IsStep(p, steps, j, c, d) && Moves(c.st.names, d.st.names, n, Offered)
    ensures BoughtInFull(p, steps, j, n, c.st.names, d.st.names)
  {
    OfferedNameIsPaidInFull(p, steps, j, n);
  }

  /**
   A reserved name that a step of a block gives to a new owner was reserved by it earlier in the chain and is
   paid in full.
   */
  lemma LiveSettlementIsPaidInFull(p: Params, es: seq<Entry>, e: Entry, k: nat, n: Name) returns (i: nat)
    requires InOrder(p, es + [e]) && 1 <= k < |BlockSteps(e.b)|
    requires Moves(Moment(p, es, e.b, k).st.names, Moment(p, es, e.b, k + 1).st.names, n, Reserved)
    ensures SettledInFull(p, RunTo(es, e.b, k + 1), |ChainSteps(Blocks(es))| + k, n,
                          Moment(p, es, e.b, k).st.names, Moment(p, es, e.b, k + 1).st.names, i)
  {
    StepOfBlock(p, es, e, k);
    var j := |ChainSteps(Blocks(es))| + k;
    i := StepSettles(p, RunTo(es, e.b, k + 1), j, Moment(p, es, e.b, k), Moment(p, es, e.b, k + 1), n);
  }

  /** An offered name that a step of a block gives to a new owner goes to the named buyer for the whole price. */
  lemma LiveOfferIsPaidInFull(p: Params, es: seq<Entry>, e: Entry, k: nat, n: Name)
    requires InOrder(p, es + [e]) && 1 <= k < |BlockSteps(e.b)|
    requires Moves(Moment(p, es, e.b, k).st.names, Moment(p, es, e.b, k + 1).st.names, n, Offered)
    ensures BoughtInFull(p, RunTo(es, e.b, k + 1), |ChainSteps(Blocks(es))| + k, n,
                         Moment(p, es, e.b, k).st.names, Moment(p, es, e.b, k + 1).st.names)
  {
    StepOfBlock(p, es, e, k);
    var j := |ChainSteps(Blocks(es))| + k;
    StepPays(p, RunTo(es, e.b, k + 1), j, Moment(p, es, e.b, k), Moment(p, es, e.b, k + 1), n);
  }
}
