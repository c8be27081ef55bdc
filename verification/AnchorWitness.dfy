/**
 Why an anchor must lie below the connecting height to be safe: a validated chain of three
 blocks whose last moves one name away and then, anchored at its own height, transfers
 another name by the bit that stood for the first.
 */
module AnchorWitness {
  import opened Primitives
  import opened NameOrder
  import opened Protocol
  import MedianTime
  import opened OracleFeed
  import opened Fold
  import opened FoldInvariant
  import opened Replay
  import opened Indexer
  import opened ReplayWitness

  const BY_NAME := FoldCarrier(TransferName(BOB, X), 0)
  const BY_BIT := FoldCarrier(Transfer(BOB, Some(3), Some([1])), 0)
  const MOVES := TxOf([BY_NAME, BY_BIT])

  /** The two names are committed to and claimed, then moved. */
  function Moved(sha: Bytes -> Hash256): seq<ChainBlock> {
    [ChainBlock(1, 1, 0, 0, [Commits(sha)], false),
     ChainBlock(2, 2, 0, 0, [CLAIMS], false),
     ChainBlock(3, 3, 0, 0, [MOVES], false)]
  }

  const BLOCK := FoldBlock(3, 2, 1, [MOVES])

  lemma ClocksOfMoved(sha: Bytes -> Hash256)
    ensures var times := Times(Rows(Moved(sha)));
      && MedianTime.Mtp(times[..0]) == 0 && MedianTime.Mtp(times[..1]) == 1 && MedianTime.Mtp(times[..2]) == 2
  {
    var times := Times(Rows(Moved(sha)));
    assert times == [1, 2, 3] && times[..0] == [] && times[..1] == [1] && times[..2] == [1, 2];
    MedianTime.MedianOfOne(1);
    MedianOfTwo(1, 2);
  }

  lemma FeedGivesMoved(sha: Bytes -> Hash256, subsidy: int)
    ensures Rising(Moved(sha)) && MedianTime.Validated(Times(Rows(Moved(sha))), 0, 0)
    ensures Entries(Moved(sha), subsidy) == Fed(sha)[..2] + [Entry(BLOCK, false)]
  {
    var chain, es := Moved(sha), Fed(sha)[..2] + [Entry(BLOCK, false)];
    MedianTime.RisingTimesAreValidated(Times(Rows(chain)), 0, 0);
    ClocksOfMoved(sha);
    forall i | 0 <= i < 3 ensures Entries(chain, subsidy)[i] == es[i] {
      EntryClock(chain, subsidy, i);
      FewRowsGiveFloor(Rows(chain), chain[i].height, subsidy);
    }
  }

  lemma SelectFirst(a: Name, b: Name)
    ensures SelectBitmap([a, b], Some([1])) == [a]
  {
    var flags: Option<Bytes> := Some([1]);
    assert [a, b][..1] == [a] && [a][..0] == [];
    assert BitSet(flags.value, 0) && !BitSet(flags.value, 1);
    assert SelectBitmap([a], flags) == [a];
    assert SelectBitmap([a, b], flags) == [a] + [];
  }

  lemma SelectsX(names: map<Name, NameRow>)
    requires names == CLAIMED
    ensures SelectBitmap(OwnedSorted(names, ALICE), Some([1])) == [X]
  {
    assert X[0] < Y[0];
    assert OwnedSet(names, ALICE) == {X, Y};
    AscendingIsUnique(OwnedSorted(names, ALICE), [X, Y]);
    SelectFirst(X, Y);
  }

  /** One name less, and the owner stamped. */
  ghost predicate OneLeft(s: State) {
    && OwnedSet(s.names, ALICE) == {Y} && Y in s.names && s.names[Y] == YearRow(ALICE)
    && ALICE in s.muts && s.muts[ALICE] == 3
  }

  lemma ByName(s: State)
    requires s.names == CLAIMED && s.muts == map[ALICE := 2]
    ensures OneLeft(ApplyTransferName(s, 3, BOB, X, ALICE))
  {
    assert X[0] != Y[0] && ALICE[0] != BOB[0];
  }

  lemma NothingEnds(s: State)
    requires s.names == CLAIMED && s.muts == map[ALICE := 2]
    ensures StartBlock(s, 3, 2).names == s.names && StartBlock(s, 3, 2).muts == s.muts
  {
    KeepsRow(s.names[X], 2);
    KeepsRow(s.names[Y], 2);
    assert forall n :: n in s.names ==> n == X || n == Y;
    assert AgeNames(s.names, 2) == s.names;
    assert LapsedOwners(s.names, 2) == {};
    assert BumpAll(s.muts, {}, 3) == s.muts;
  }

  lemma KeepsRow(r: NameRow, mtp: int)
    requires r.st == Owned
    ensures AgeRow(r, mtp) == r
  {
  }

  ghost function Middle(p: Params, s: State): Config {
    Run(p, Opening(s), BlockSteps(BLOCK)[..3])
  }

  lemma AfterByName(p: Params, s: State)
    requires p.activation <= 3 && s.names == CLAIMED && s.muts == map[ALICE := 2]
    ensures var c := Middle(p, s); OneLeft(c.st) && c.actor == SIGNER && c.height == 3
  {
    var begin := BeginBlock(3, 2, 1);
    OneTxSteps(BLOCK, MOVES);
    assert BlockSteps(BLOCK)[..3] == [begin, BeginTx(MOVES), Act(BY_NAME)];
    RunThree(p, Opening(s), begin, BeginTx(MOVES), Act(BY_NAME));
    NothingEnds(s);
    ByName(StartBlock(s, 3, 2));
  }

  /** The bit that stood for the first name now stands for the other, which it transfers. */
  lemma ByBit(p: Params, c: Config)
    requires p.activation <= 3 && OneLeft(c.st) && c.actor == SIGNER && c.height == 3
    ensures AnchorOk(c.st.muts, ALICE, 3, 3) && SelectBitmap(OwnedSorted(c.st.names, ALICE), Some([1])) == [Y]
    ensures OwnerOf(Next(p, c, Act(BY_BIT)).st.names, Y) == Some(BOB)
  {
    var owned := OwnedSorted(c.st.names, ALICE);
    assert |owned| == 1 && owned[0] in {Y} && owned == [Y];
    assert owned[..0] == [];
    assert BitSet([1], 0) && Movable(c.st.names, Y);
  }

  lemma LastStep(p: Params, s: State)
    ensures Run(p, Opening(s), BlockSteps(BLOCK)) == Next(p, Middle(p, s), Act(BY_BIT))
  {
    OneTxSteps(BLOCK, MOVES);
    assert BlockSteps(BLOCK)[..|BlockSteps(BLOCK)| - 1] == BlockSteps(BLOCK)[..3];
  }

  /** The bit selects one name before the block, and another one, which moves, when the anchored transfer acts. */
  ghost predicate Misdirected(p: Params, s: State) {
    var c := Middle(p, s);
    && AnchorOk(c.st.muts, ALICE, 3, 3)
    && SelectBitmap(OwnedSorted(s.names, ALICE), Some([1])) == [X]
    && SelectBitmap(OwnedSorted(c.st.names, ALICE), Some([1])) == [Y]
    && OwnerOf(c.st.names, Y) == Some(ALICE)
    && OwnerOf(BlockState(p, s, BLOCK).names, Y) == Some(BOB)
  }

  lemma BlockMisdirects(p: Params, s: State)
    requires p.activation <= 3 && BothClaimed(s)
    ensures Misdirected(p, s)
  {
    SelectsX(s.names);
    AfterByName(p, s);
    ByBit(p, Middle(p, s));
    LastStep(p, s);
  }

  /** A validated chain whose anchored transfer moves a name its bitmap did not stand for before the block. */
  lemma AnchorAtConfirmCanSelectAnUnseenName(p: Params, subsidy: int)
    requires p.activation <= 1
    ensures Rising(Moved(p.sha)) && MedianTime.Validated(Times(Rows(Moved(p.sha))), 0, 0)
    ensures var es := Entries(Moved(p.sha), subsidy);
      InOrder(p, es) && es[2].b == BLOCK && Misdirected(p, Live(p, es[..2]))
    ensures X != Y && ALICE != BOB
  {
    FeedGivesMoved(p.sha, subsidy);
    MovedIsMisdirected(p, Entries(Moved(p.sha), subsidy));
    assert X[0] != Y[0] && ALICE[0] != BOB[0];
  }

  lemma MovedIsMisdirected(p: Params, es: seq<Entry>)
    requires p.activation <= 1 && es == Fed(p.sha)[..2] + [Entry(BLOCK, false)]
    ensures InOrder(p, es) && es[2].b == BLOCK && Misdirected(p, Live(p, es[..2]))
  {
    MovedInOrder(p, es);
    assert es[..2] == Fed(p.sha)[..2];
    BothAfterTwo(p);
    BlockMisdirects(p, Live(p, es[..2]));
  }

  lemma MovedInOrder(p: Params, es: seq<Entry>)
    requires es == Fed(p.sha)[..2] + [Entry(BLOCK, false)]
    ensures InOrder(p, es)
  {
    assert es == [Fed(p.sha)[0], Fed(p.sha)[1], Entry(BLOCK, false)];
  }
}
