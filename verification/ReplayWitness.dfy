/**
 Why the replay proviso is needed: a validated chain of four blocks in which a lapse falls
 in a skipped block. The live fold accepts an anchored transfer that the refold rejects,
 so the two end with different owners.
 */
module ReplayWitness {
  import opened Primitives
  import opened NameOrder
  import opened Protocol
  import opened Lease
  import MedianTime
  import opened OracleFeed
  import opened Fold
  import opened FoldInvariant
  import opened Replay
  import opened Epochs
  import opened Rederive
  import opened Indexer

  const X: Name := [120]
  const Y: Name := [121]
  const SALT: Hash256 := ZERO_20 + ZERO_20[..12]
  const ALICE: Hash160 := [1] + ZERO_20[..19]
  const BOB: Hash160 := [2] + ZERO_20[..19]
  const SIGNER := Identity(ALICE, 0, true)

  /** At the floor rate one unit of burn buys 28 days from the claim's median time. */
  const CLAIM_TIME := 1
  const LAPSE_TIME := CLAIM_TIME + 28 * BILLING_UNIT

  function TxOf(carriers: seq<FoldCarrier>): FoldTx {
    FoldTx(0, [SIGNER], carriers, [])
  }

  /** Commit to both names. */
  function Commits(sha: Bytes -> Hash256): FoldTx {
    TxOf([FoldCarrier(Commit(Commitment(sha, SALT, X, ALICE)), 0),
        FoldCarrier(Commit(Commitment(sha, SALT, Y, ALICE)), 0)])
  }

  /** Claim one name for 28 days and the other for a year. */
  const CLAIMS := TxOf([FoldCarrier(Claim(SALT, X), 1), FoldCarrier(Claim(SALT, Y), 14)])

  /** Transfer the only name left, anchored at the block of the lapse. */
  const ANCHORED := TxOf([FoldCarrier(Transfer(BOB, Some(3), Some([1])), 0)])

  /** The first name lapses in the third block, which has no carriers. */
  function Chain(sha: Bytes -> Hash256): seq<ChainBlock> {
    [ChainBlock(1, CLAIM_TIME, 0, 0, [Commits(sha)], false),
     ChainBlock(2, LAPSE_TIME, 0, 0, [CLAIMS], false),
     ChainBlock(3, LAPSE_TIME + 1, 0, 0, [], false),
     ChainBlock(4, LAPSE_TIME + 2, 0, 0, [ANCHORED], false)]
  }

  // ---- what the feed makes of the chain ----

  function Block1(sha: Bytes -> Hash256): FoldBlock {
    FoldBlock(1, 0, 1, [Commits(sha)])
  }

  const BLOCK2 := FoldBlock(2, CLAIM_TIME, 1, [CLAIMS])
  const BLOCK3 := FoldBlock(3, LAPSE_TIME, 1, [])
  const BLOCK4 := FoldBlock(4, LAPSE_TIME, 1, [ANCHORED])

  function Fed(sha: Bytes -> Hash256): seq<Entry> {
    [Entry(Block1(sha), false), Entry(BLOCK2, false), Entry(BLOCK3, false), Entry(BLOCK4, false)]
  }

  lemma MedianOfTwo(a: int, b: int)
    requires a <= b
    ensures MedianTime.Median([a, b]) == b
  {
    MedianTime.AtLeastOfTwo(a, b, b);
    MedianTime.AtLeastOfTwo(a, b, b + 1);
    MedianTime.RankIsUnique([a, b], 1, b, MedianTime.Median([a, b]));
  }

  lemma MedianOfThree(a: int, b: int, c: int)
    requires a <= b <= c
    ensures MedianTime.Median([a, b, c]) == b
  {
    MedianTime.AtLeastOfTwo(a, b, b);
    MedianTime.AtLeastOfTwo(a, b, b + 1);
    MedianTime.AtLeastOfFour(a, b, c, c, b);
    MedianTime.AtLeastOfFour(a, b, c, c, b + 1);
    MedianTime.RankIsUnique([a, b, c], 1, b, MedianTime.Median([a, b, c]));
  }

  lemma ClocksOfChain(sha: Bytes -> Hash256)
    ensures var times := Times(Rows(Chain(sha)));
      && MedianTime.Mtp(times[..0]) == 0 && MedianTime.Mtp(times[..1]) == CLAIM_TIME
      && MedianTime.Mtp(times[..2]) == LAPSE_TIME && MedianTime.Mtp(times[..3]) == LAPSE_TIME
  {
    var times := Times(Rows(Chain(sha)));
    assert times == [CLAIM_TIME, LAPSE_TIME, LAPSE_TIME + 1, LAPSE_TIME + 2];
    assert times[..0] == [] && times[..1] == [CLAIM_TIME] && times[..2] == [CLAIM_TIME, LAPSE_TIME];
    assert times[..3] == [CLAIM_TIME, LAPSE_TIME, LAPSE_TIME + 1];
    MedianTime.MedianOfOne(CLAIM_TIME);
    MedianOfTwo(CLAIM_TIME, LAPSE_TIME);
    MedianOfThree(CLAIM_TIME, LAPSE_TIME, LAPSE_TIME + 1);
  }

  /** The oracle feed gives the four blocks these median times and the floor rate. */
  lemma FeedGives(sha: Bytes -> Hash256, subsidy: int)
    ensures Rising(Chain(sha)) && Entries(Chain(sha), subsidy) == Fed(sha)
  {
    var chain := Chain(sha);
    ClocksOfChain(sha);
    forall i | 0 <= i < 4 ensures Entries(chain, subsidy)[i] == Fed(sha)[i] {
      EntryClock(chain, subsidy, i);
      FewRowsGiveFloor(Rows(chain), chain[i].height, subsidy);
    }
  }

  /** The chain passes the median-time rule after a checkpoint of time zero. */
  lemma ChainIsValidated(sha: Bytes -> Hash256)
    ensures MedianTime.Validated(Times(Rows(Chain(sha))), 0, 0)
  {
    MedianTime.RisingTimesAreValidated(Times(Rows(Chain(sha))), 0, 0);
  }

  // ---- the fold of the chain ----

  lemma {:induction false} RunOne(p: Params, c: Config, a: Step)
    ensures Run(p, c, [a]) == Next(p, c, a)
  {
    assert [a][..0] == [];
  }

  lemma {:induction false} RunFour(p: Params, c: Config, a: Step, b: Step, d: Step, e: Step)
    ensures Run(p, c, [a, b, d, e]) == Next(p, Next(p, Next(p, Next(p, c, a), b), d), e)
  {
    RunOne(p, c, a);
    assert [a, b, d, e][..3] == [a, b, d] && [a, b, d][..2] == [a, b] && [a, b][..1] == [a];
    assert Run(p, c, [a, b]) == Next(p, Next(p, c, a), b);
    assert Run(p, c, [a, b, d]) == Next(p, Next(p, Next(p, c, a), b), d);
  }

  lemma {:induction false} RunThree(p: Params, c: Config, a: Step, b: Step, d: Step)
    ensures Run(p, c, [a, b, d]) == Next(p, Next(p, Next(p, c, a), b), d)
  {
    RunOne(p, c, a);
    assert [a, b, d][..2] == [a, b] && [a, b][..1] == [a];
    assert Run(p, c, [a, b]) == Next(p, Next(p, c, a), b);
  }

  lemma OneTxSteps(b: FoldBlock, tx: FoldTx)
    requires b.txs == [tx]
    ensures BlockSteps(b) == [BeginBlock(b.height, b.mtp, b.rate)] + TxSteps(tx)
  {
    assert b.txs[..0] == [];
    assert TxsSteps(b.txs) == [] + TxSteps(tx) == TxSteps(tx);
  }

  function YearRow(owner: Hash160): NameRow {
    FreshRow(owner, CLAIM_TIME + 365 * BILLING_UNIT)
  }

  const CLAIMED: map<Name, NameRow> := map[X := FreshRow(ALICE, LAPSE_TIME), Y := YearRow(ALICE)]

  /** After the second block both folds hold the two names, stamped at height two. */
  ghost predicate BothClaimed(s: State) {
    s.names == CLAIMED && s.muts == map[ALICE := 2]
  }

  lemma AfterCommits(p: Params)
    requires p.activation <= 1
    ensures var s := BlockState(p, EMPTY_STATE, Block1(p.sha));
      s.names == map[] && s.muts == map[] && BothCommitted(p.sha, s.commits)
  {
    var b := Block1(p.sha);
    var tx := b.txs[0];
    var c0 := Opening(EMPTY_STATE);
    OneTxSteps(b, tx);
    assert BlockSteps(b) == [BeginBlock(1, 0, 1), BeginTx(tx), Act(tx.carriers[0]), Act(tx.carriers[1])];
    RunFour(p, c0, BeginBlock(1, 0, 1), BeginTx(tx), Act(tx.carriers[0]), Act(tx.carriers[1]));
    var c1 := Next(p, c0, BeginBlock(1, 0, 1));
    assert c1.st.names == map[] && c1.st.muts == map[] && c1.st.commits == [];
  }

  lemma DaysOf(value: U64)
    requires value <= 14
    ensures LeaseDaysSingle(value, 1, CLAIM_TIME, CLAIM_TIME) == Min(28 * value, 365)
  {
    assert (value * LEASE_QUANTUM) / (1 * BILLING_UNIT) == 28 * value;
  }

  ghost predicate BothCommitted(sha: Bytes -> Hash256, commits: seq<CommitRow>) {
    commits == [CommitRow(Commitment(sha, SALT, X, ALICE), 1, 0, 0),
        CommitRow(Commitment(sha, SALT, Y, ALICE), 1, 0, 0)]
  }

  /** A claim of a free name at block two, backed by one of the commits. */
  lemma ClaimMints(sha: Bytes -> Hash256, s: State, n: Name, value: U64)
    requires BothCommitted(sha, s.commits) && (n == X || n == Y) && n !in s.names
    requires 0 < value <= 14 && (ALICE in s.muts ==> s.muts[ALICE] <= 2)
    ensures ApplyClaim(s, 2, CLAIM_TIME, 1, value, Commitment(sha, SALT, n, ALICE), n, ALICE)
         == s.(names := s.names[n := FreshRow(ALICE, CLAIM_TIME + Min(28 * value, 365) * BILLING_UNIT)],
               muts := s.muts[ALICE := 2], scratch := s.scratch[n := ClaimScratch(Priority(1, 0), ALICE)])
  {
    BestOfTwo(s.commits, Commitment(sha, SALT, n, ALICE));
    DaysOf(value);
  }

  lemma AfterClaims(p: Params, s: State)
    requires p.activation <= 1
    requires s.names == map[] && s.muts == map[] && BothCommitted(p.sha, s.commits)
    ensures BothClaimed(BlockState(p, s, BLOCK2))
  {
    var x, y := CLAIMS.carriers[0], CLAIMS.carriers[1];
    var begin := BeginBlock(2, CLAIM_TIME, 1);
    OneTxSteps(BLOCK2, CLAIMS);
    assert BlockSteps(BLOCK2) == [begin, BeginTx(CLAIMS), Act(x), Act(y)];
    RunFour(p, Opening(s), begin, BeginTx(CLAIMS), Act(x), Act(y));
    var c2 := Next(p, Next(p, Opening(s), begin), BeginTx(CLAIMS));
    PruneKeepsBoth(s.commits);
    assert c2.st.commits == s.commits && c2.st.names == map[] && c2.st.muts == map[];
    ClaimsOfX(p, c2);
    ClaimsOfY(p, Next(p, c2, Act(x)));
  }

  /** The acting identity and the block of the claims. */
  ghost predicate Claiming(p: Params, c: Config) {
    p.activation <= 1 && c.height == 2 && c.mtp == CLAIM_TIME && c.rate == 1 && c.actor == SIGNER
      && BothCommitted(p.sha, c.st.commits)
  }

  lemma ClaimsOfX(p: Params, c: Config)
    requires Claiming(p, c) && c.st.names == map[] && c.st.muts == map[]
    ensures var d := Next(p, c, Act(CLAIMS.carriers[0]));
      Claiming(p, d) && d.st.names == map[X := FreshRow(ALICE, LAPSE_TIME)] && d.st.muts == map[ALICE := 2]
  {
    ClaimMints(p.sha, c.st, X, 1);
  }

  lemma ClaimsOfY(p: Params, c: Config)
    requires Claiming(p, c) && c.st.names == map[X := FreshRow(ALICE, LAPSE_TIME)] && c.st.muts == map[ALICE := 2]
    ensures BothClaimed(Next(p, c, Act(CLAIMS.carriers[1])).st)
  {
    assert X[0] != Y[0];
    ClaimMints(p.sha, c.st, Y, 14);
  }

  lemma PruneKeepsBoth(cs: seq<CommitRow>)
    requires |cs| == 2 && cs[0].commitTime == 0 && cs[1].commitTime == 0
    ensures PruneCommits(cs, CLAIM_TIME) == cs
  {
    NoneExpires(cs, CLAIM_TIME);
  }

  lemma {:induction false} NoneExpires(cs: seq<CommitRow>, mtp: int)
    requires forall i :: 0 <= i < |cs| ==> mtp <= cs[i].commitTime + COMMIT_EXPIRY
    ensures PruneCommits(cs, mtp) == cs
  {
    if cs != [] {
      var k := |cs| - 1;
      NoneExpires(cs[..k], mtp);
      assert cs == cs[..k] + [cs[k]];
    }
  }

  lemma BestOfTwo(cs: seq<CommitRow>, want: Hash256)
    requires |cs| == 2 && (forall i :: 0 <= i < 2 ==> cs[i].height == 1 && cs[i].txIndex == 0)
    requires cs[0].commitment == want || cs[1].commitment == want
    ensures BestCommit(cs, want, 2) == Some(Priority(1, 0))
  {
    assert cs[..1] == [cs[0]] && cs[..1][..0] == [];
    assert BestCommit(cs[..1], want, 2) == if cs[0].commitment == want then Some(Priority(1, 0)) else None;
  }

  lemma SelectsY(names: map<Name, NameRow>)
    requires names == map[Y := YearRow(ALICE)]
    ensures SelectBitmap(OwnedSorted(names, ALICE), Some([1])) == [Y]
  {
    assert OwnedSet(names, ALICE) == {Y};
    var owned := OwnedSorted(names, ALICE);
    assert |owned| == 1 && owned[0] in {Y} && owned == [Y];
    assert owned[..0] == [];
    assert BitSet([1], 0);
  }

  lemma TransferOfY(t: State)
    requires t.names == map[Y := YearRow(ALICE)] && ALICE in t.muts
    ensures ApplyTransfer(t, 4, BOB, Some(3), Some([1]), ALICE).names
         == map[Y := YearRow(if t.muts[ALICE] <= 3 then BOB else ALICE)]
  {
    SelectsY(t.names);
    assert Movable(t.names, Y);
  }

  /** The transfer goes through if the lapse was stamped at height three, and not if at height four. */
  lemma TransferDecides(p: Params, s: State)
    requires p.activation <= 1
    requires var t := StartBlock(s, 4, LAPSE_TIME); t.names == map[Y := YearRow(ALICE)] && ALICE in t.muts
    ensures var t := StartBlock(s, 4, LAPSE_TIME);
      BlockState(p, s, BLOCK4).names == map[Y := YearRow(if t.muts[ALICE] <= 3 then BOB else ALICE)]
  {
    var tx := BLOCK4.txs[0];
    var begin := BeginBlock(4, LAPSE_TIME, 1);
    var t := StartBlock(s, 4, LAPSE_TIME);
    OneTxSteps(BLOCK4, tx);
    assert BlockSteps(BLOCK4) == [begin, BeginTx(tx), Act(tx.carriers[0])];
    RunThree(p, Opening(s), begin, BeginTx(tx), Act(tx.carriers[0]));
    assert BlockState(p, s, BLOCK4) == ApplyTransfer(t, 4, BOB, Some(3), Some([1]), ALICE);
    TransferOfY(t);
  }

  lemma LapseOfX(s: State, h: int)
    requires BothClaimed(s) && h > 2
    ensures StartBlock(s, h, LAPSE_TIME).names == map[Y := YearRow(ALICE)]
    ensures StartBlock(s, h, LAPSE_TIME).muts == map[ALICE := h]
  {
    assert X in s.names && LAPSE_TIME >= s.names[X].leaseExpiry && s.names[X].owner == ALICE;
    assert X[0] != Y[0];
    assert ALICE in LapsedOwners(s.names, LAPSE_TIME);
  }

  lemma NothingLapses(s: State)
    requires s.names == map[Y := YearRow(ALICE)] && s.muts == map[ALICE := 3]
    ensures StartBlock(s, 4, LAPSE_TIME).names == s.names && StartBlock(s, 4, LAPSE_TIME).muts == s.muts
  {
    assert LapsedOwners(s.names, LAPSE_TIME) == {};
  }

  lemma Unroll(p: Params, es: seq<Entry>, k: nat)
    requires k < |es|
    ensures Live(p, es[..k + 1]) == BlockState(p, Live(p, es[..k]), es[k].b)
    ensures Refold(p, es[..k + 1])
        == if Stored(es[k]) then BlockState(p, Refold(p, es[..k]), es[k].b) else Refold(p, es[..k])
  {
    assert es[..k + 1][..k] == es[..k];
  }

  lemma StoredBlocks(p: Params)
    ensures var es := Fed(p.sha); Stored(es[0]) && Stored(es[1]) && !Stored(es[2]) && Stored(es[3])
  {
    var es := Fed(p.sha);
    assert !es[0].b.txs[0].carriers[0].c.Ignore? && HasCarrier(es[0].b.txs[0]);
    assert !es[1].b.txs[0].carriers[0].c.Ignore? && HasCarrier(es[1].b.txs[0]);
    assert !es[3].b.txs[0].carriers[0].c.Ignore? && HasCarrier(es[3].b.txs[0]);
  }

  lemma BothAfterTwo(p: Params)
    requires p.activation <= 1
    ensures BothClaimed(Live(p, Fed(p.sha)[..2])) && BothClaimed(Refold(p, Fed(p.sha)[..2]))
  {
    var es := Fed(p.sha);
    StoredBlocks(p);
    Unroll(p, es, 0);
    Unroll(p, es, 1);
    assert es[..0] == [];
    AfterCommits(p);
    AfterClaims(p, Live(p, es[..1]));
  }

  /** The skipped block: the live fold stamps the lapse at three, the refold has not seen it. */
  lemma AfterSkipped(p: Params)
    requires p.activation <= 1
    ensures var s := Live(p, Fed(p.sha)[..3]); s.names == map[Y := YearRow(ALICE)] && s.muts == map[ALICE := 3]
    ensures BothClaimed(Refold(p, Fed(p.sha)[..3]))
  {
    var es := Fed(p.sha);
    BothAfterTwo(p);
    StoredBlocks(p);
    Unroll(p, es, 2);
    assert !Folds(BLOCK3);
    IdleBlock(p, Live(p, es[..2]), BLOCK3);
    LapseOfX(Live(p, es[..2]), 3);
  }

  lemma LiveEnds(p: Params, s: State)
    requires p.activation <= 1 && s.names == map[Y := YearRow(ALICE)] && s.muts == map[ALICE := 3]
    ensures BlockState(p, s, BLOCK4).names == map[Y := YearRow(BOB)]
  {
    NothingLapses(s);
    TransferDecides(p, s);
  }

  lemma RefoldEnds(p: Params, t: State)
    requires p.activation <= 1 && BothClaimed(t)
    ensures BlockState(p, t, BLOCK4).names == map[Y := YearRow(ALICE)]
  {
    LapseOfX(t, 4);
    TransferDecides(p, t);
  }

  /** The two folds of the same four validated blocks end with different owners of the same name. */
  lemma RefoldCanChangeAnOwner(p: Params, subsidy: int)
    requires p.activation <= 1
    ensures Rising(Chain(p.sha)) && MedianTime.Validated(Times(Rows(Chain(p.sha))), 0, 0)
    ensures InOrder(p, Entries(Chain(p.sha), subsidy))
    ensures Live(p, Entries(Chain(p.sha), subsidy)).names == map[Y := YearRow(BOB)]
    ensures Refold(p, Entries(Chain(p.sha), subsidy)).names == map[Y := YearRow(ALICE)]
    ensures ALICE != BOB
  {
    FeedGives(p.sha, subsidy);
    ChainIsValidated(p.sha);
    FoldsEndApart(p, Fed(p.sha));
    assert ALICE[0] != BOB[0];
  }

  lemma FoldsEndApart(p: Params, es: seq<Entry>)
    requires p.activation <= 1 && es == Fed(p.sha)
    ensures InOrder(p, es)
    ensures Live(p, es).names == map[Y := YearRow(BOB)] && Refold(p, es).names == map[Y := YearRow(ALICE)]
  {
    StoredBlocks(p);
    Unroll(p, es, 3);
    assert es[..4] == es;
    AfterSkipped(p);
    LiveEnds(p, Live(p, es[..3]));
    RefoldEnds(p, Refold(p, es[..3]));
  }

  /**
   After a wipe the history rebuilt from the stored blocks of the same chain gives the lapsed name an owner at the
   height of the lapse, where the fold has none.
   */
  lemma RebuiltHistoryKeepsALapsedName(p: Params, subsidy: int)
    requires p.activation <= 1
    ensures var es := Entries(Chain(p.sha), subsidy);
      && InOrder(p, es)
      && Query(Rederived(p, es), Some(0), Refold(p, es).names.Keys, X, 3) == IsOwned(ALICE)
      && OwnerOf(After(p, es, 3).names, X) == None
  {
    FeedGives(p.sha, subsidy);
    LapsedNameStaysOnRecord(p, Fed(p.sha));
  }

  lemma LapsedNameStaysOnRecord(p: Params, es: seq<Entry>)
    requires p.activation <= 1 && es == Fed(p.sha)
    ensures InOrder(p, es) && Recorded(Rederived(p, es), X, 3) == Some(Some(ALICE))
    ensures OwnerOf(After(p, es, 3).names, X) == None
  {
    StoredBlocks(p);
    BothAfterTwo(p);
    SkippedLapseAnswer(p, es, 2, X);
  }
}
