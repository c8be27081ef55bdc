/**
 The indexer around the fold: blocks connect one by one, feeding the oracle, the stored
 raw blocks and the ownership history; a reorg rolls back by refolding the stored blocks.
 */
module Indexer {
  import opened Primitives
  import NameOrder
  import opened Protocol
  import MedianTime
  import opened OracleFeed
  import opened Fold
  import opened FoldTables
  import opened Replay
  import opened Epochs
  import opened Rederive

  /** A parsed block: oracle inputs, transactions, and whether it touched the watched wallet. */
  datatype ChainBlock = ChainBlock(height: int, time: int, coinbase: int, bytes: int, txs: seq<FoldTx>, wallet: bool)

  function RowOf(b: ChainBlock): Blk {
    Blk(b.height, b.time, b.coinbase, b.bytes)
  }

  function Rows(chain: seq<ChainBlock>): (v: seq<Blk>)
    ensures |v| == |chain| && forall i :: 0 <= i < |chain| ==> v[i] == RowOf(chain[i])
  {
    seq(|chain|, i requires 0 <= i < |chain| => RowOf(chain[i]))
  }

  ghost predicate Rising(chain: seq<ChainBlock>) {
    forall i, j :: 0 <= i < j < |chain| ==> chain[i].height < chain[j].height
  }

  /** What the fold is given for a block, from the rows of a feed. */
  ghost function EntryAt(v: seq<Blk>, subsidy: int, b: ChainBlock): Entry {
    Entry(FoldBlock(b.height, MtpAt(v, b.height), RateAt(v, b.height, subsidy), b.txs), b.wallet)
  }

  ghost function Entries(chain: seq<ChainBlock>, subsidy: int): (es: seq<Entry>)
    ensures |es| == |chain|
    ensures forall i :: 0 <= i < |chain| ==> es[i] == EntryAt(Rows(chain), subsidy, chain[i])
  {
    seq(|chain|, i requires 0 <= i < |chain| => EntryAt(Rows(chain), subsidy, chain[i]))
  }

  /** Oracle values recomputed from the full feed are those of the time of connecting. */
  lemma EntryNeedsOnlyRowsBelow(chain: seq<ChainBlock>, subsidy: int, i: nat, k: nat)
    requires Rising(chain) && i < |chain| && i <= k <= |chain|
    ensures EntryAt(Rows(chain[..k]), subsidy, chain[i]) == EntryAt(Rows(chain), subsidy, chain[i])
  {
    var h := chain[i].height;
    var v := Rows(chain);
    assert v == Rows(chain[..k]) + v[k..];
    OnlyRowsBelowMatter(Rows(chain[..k]), v[k..], h, MedianTime.WINDOW);
  }

  lemma EntriesOfPrefix(chain: seq<ChainBlock>, subsidy: int, k: nat)
    requires Rising(chain) && k <= |chain|
    ensures Entries(chain[..k], subsidy) == Entries(chain, subsidy)[..k]
  {
    forall i | 0 <= i < k ensures Entries(chain[..k], subsidy)[i] == Entries(chain, subsidy)[i] {
      EntryNeedsOnlyRowsBelow(chain, subsidy, i, k);
    }
  }

  lemma EntriesAppend(chain: seq<ChainBlock>, subsidy: int, b: ChainBlock)
    requires Rising(chain + [b])
    ensures Entries(chain + [b], subsidy) == Entries(chain, subsidy) + [EntryAt(Rows(chain), subsidy, b)]
  {
    var all := chain + [b];
    assert all[..|chain|] == chain;
    EntriesOfPrefix(all, subsidy, |chain|);
    EntryNeedsOnlyRowsBelow(all, subsidy, |chain|, |chain|);
    assert Entries(all, subsidy) == Entries(all, subsidy)[..|chain|] + [Entries(all, subsidy)[|chain|]];
  }

  // ---- the stored blocks ----

  predicate Keep(b: ChainBlock) {
    AnyCarrier(b.txs) || b.wallet
  }

  function StoredOf(chain: seq<ChainBlock>): seq<ChainBlock> {
    if chain == [] then []
    else StoredOf(chain[..|chain| - 1]) + if Keep(chain[|chain| - 1]) then [chain[|chain| - 1]] else []
  }

  /** Each stored block has its place in the chain. */
  lemma {:induction false} PlaceOf(chain: seq<ChainBlock>, i: nat) returns (j: nat)
    requires i < |StoredOf(chain)|
    ensures j < |chain| && Keep(chain[j]) && chain[j] == StoredOf(chain)[i]
    ensures StoredOf(chain[..j]) == StoredOf(chain)[..i]
  {
    var n := |chain| - 1;
    if i < |StoredOf(chain[..n])| {
      j := PlaceOf(chain[..n], i);
      assert chain[..n][..j] == chain[..j];
    } else {
      j := n;
    }
  }

  lemma {:induction false} StoredOfPrefix(chain: seq<ChainBlock>, k: nat, h: int)
    requires Rising(chain) && k <= |chain|
    requires (k > 0 ==> chain[k - 1].height <= h) && (k < |chain| ==> chain[k].height > h)
    ensures StoredUpTo(StoredOf(chain), h) == StoredOf(chain[..k])
  {
    if chain != [] {
      var n := |chain| - 1;
      var rest := StoredOf(chain[..n]);
      if k <= n {
        assert chain[..n][..k] == chain[..k];
        StoredOfPrefix(chain[..n], k, h);
        if Keep(chain[n]) {
          assert (rest + [chain[n]])[..|rest|] == rest;
          assert StoredUpTo(rest, h) + [] == StoredUpTo(rest, h);
        } else {
          assert rest + [] == rest;
        }
      } else {
        assert chain[..k] == chain;
        AllStoredUpTo(StoredOf(chain), chain, h);
      }
    }
  }

  lemma {:induction false} StoredComeFromChain(chain: seq<ChainBlock>)
    ensures forall b :: b in StoredOf(chain) ==> b in chain
  {
    if chain != [] { StoredComeFromChain(chain[..|chain| - 1]); }
  }

  lemma AllStoredUpTo(s: seq<ChainBlock>, chain: seq<ChainBlock>, h: int)
    requires s == StoredOf(chain) && Rising(chain) && chain != [] && chain[|chain| - 1].height <= h
    ensures StoredUpTo(s, h) == s
  {
    StoredComeFromChain(chain);
    forall i | 0 <= i < |s| ensures s[i].height <= h {
      assert s[i] in chain;
    }
    UpToAll(s, h);
  }

  lemma {:induction false} UpToAll(s: seq<ChainBlock>, h: int)
    requires forall i :: 0 <= i < |s| ==> s[i].height <= h
    ensures StoredUpTo(s, h) == s
  {
    if s != [] {
      var n := |s| - 1;
      UpToAll(s[..n], h);
      assert s == s[..n] + [s[n]];
    }
  }

  function StoredUpTo(s: seq<ChainBlock>, h: int): seq<ChainBlock> {
    if s == [] then []
    else StoredUpTo(s[..|s| - 1], h) + if s[|s| - 1].height <= h then [s[|s| - 1]] else []
  }

  /** Refolding the chain is folding its stored blocks, each as the full feed gives it. */
  ghost function Given(s: seq<ChainBlock>, v: seq<Blk>, subsidy: int): (es: seq<Entry>)
    ensures |es| == |s| && forall i :: 0 <= i < |s| ==> es[i] == EntryAt(v, subsidy, s[i])
  {
    seq(|s|, i requires 0 <= i < |s| => EntryAt(v, subsidy, s[i]))
  }

  lemma GivenSnoc(s: seq<ChainBlock>, b: ChainBlock, v: seq<Blk>, subsidy: int)
    ensures Given(s + [b], v, subsidy) == Given(s, v, subsidy) + [EntryAt(v, subsidy, b)]
  {
  }

  /** The stored entries of a chain are its stored blocks. */
  lemma {:induction false} KeptIsGiven(s: seq<ChainBlock>, v: seq<Blk>, subsidy: int)
    ensures StoredEntries(Given(s, v, subsidy)) == Given(StoredOf(s), v, subsidy)
  {
    if s == [] {
      assert Given(s, v, subsidy) == [];
    } else {
      var rest, b := s[..|s| - 1], s[|s| - 1];
      assert s == rest + [b];
      KeptIsGiven(rest, v, subsidy);
      GivenSnoc(rest, b, v, subsidy);
      StoredSnoc(Given(rest, v, subsidy), EntryAt(v, subsidy, b));
      StoredAppend(rest, b);
      if Keep(b) { GivenSnoc(StoredOf(rest), b, v, subsidy); }
    }
  }

  lemma StoredPrefix(chain: seq<ChainBlock>, k: nat, subsidy: int)
    requires k <= |chain|
    ensures StoredEntries(Entries(chain, subsidy)[..k]) == Given(StoredOf(chain[..k]), Rows(chain), subsidy)
  {
    assert Entries(chain, subsidy)[..k] == Given(chain[..k], Rows(chain), subsidy);
    KeptIsGiven(chain[..k], Rows(chain), subsidy);
  }

  ghost predicate RefoldsTo(p: Params, chain: seq<ChainBlock>, k: nat, subsidy: int) {
    && k <= |chain|
    && Refold(p, Entries(chain, subsidy)[..k]) == Live(p, Given(StoredOf(chain[..k]), Rows(chain), subsidy))
  }

  /** Refolding a prefix of the chain is folding the blocks stored of it, each as the full feed gives it. */
  lemma RefoldIsFoldOfStored(p: Params, chain: seq<ChainBlock>, k: nat, subsidy: int)
    requires k <= |chain|
    ensures RefoldsTo(p, chain, k, subsidy)
  {
    StoredPrefix(chain, k, subsidy);
    RefoldIsLiveOfStored(p, Entries(chain, subsidy)[..k]);
  }

  /** Rederiving the history of the chain is replaying its stored blocks. */
  lemma WholeRederived(p: Params, chain: seq<ChainBlock>, subsidy: int)
    ensures Rederived(p, Entries(chain, subsidy)) == Replayed(p, Given(StoredOf(chain), Rows(chain), subsidy), map[])
  {
    StoredPrefix(chain, |chain|, subsidy);
    assert chain[..|chain|] == chain && Entries(chain, subsidy)[..|chain|] == Entries(chain, subsidy);
    RederivedIsReplayOfStored(p, Entries(chain, subsidy));
  }

  lemma RowsOfConnect(p: Params, e: Entry, s: State, now: State, t: Table, u: Table)
    requires Connected(p, e, s, now, t, u)
    ensures u == RowsWritten(t, p, s, e.b)
  {
    if Gate(s, e.b) {
      UpdatedTableIsUpdated(t, now.names, e.b.height);
      UpdatedIsUnique(t, u, UpdatedTable(t, now.names, e.b.height), now.names, e.b.height);
    }
  }

  lemma ReplayedAppend(p: Params, s: seq<ChainBlock>, b: ChainBlock, v: seq<Blk>, subsidy: int, pruned: Table,
                       was: State, now: State, t: Table, u: Table)
    requires was == Live(p, Given(s, v, subsidy)) && t == Replayed(p, Given(s, v, subsidy), pruned)
    requires Connected(p, EntryAt(v, subsidy, b), was, now, t, u)
    ensures now == Live(p, Given(s + [b], v, subsidy)) && u == Replayed(p, Given(s + [b], v, subsidy), pruned)
  {
    GivenSnoc(s, b, v, subsidy);
    LiveSnoc(p, Given(s, v, subsidy), EntryAt(v, subsidy, b));
    ReplayedSnoc(p, Given(s, v, subsidy), EntryAt(v, subsidy, b), pruned);
    RowsOfConnect(p, EntryAt(v, subsidy, b), was, now, t, u);
  }

  lemma StoredStep(chain: seq<ChainBlock>, k: nat, v: seq<Blk>, subsidy: int)
    requires k < |chain|
    ensures Stored(EntryAt(v, subsidy, chain[k])) <==> Keep(chain[k])
    ensures StoredOf(chain[..k + 1])
        == if Keep(chain[k]) then StoredOf(chain[..k]) + [chain[k]] else StoredOf(chain[..k])
  {
    assert chain[..k + 1] == chain[..k] + [chain[k]];
    StoredAppend(chain[..k], chain[k]);
  }

  // ---- connecting and replaying, on values ----

  ghost predicate Proviso(p: Params, es: seq<Entry>, epochs: Table) {
    InOrder(p, es) && NoSkippedLapse(p, es) && Accurate(epochs, p, es)
  }

  lemma WholeRefold(p: Params, chain: seq<ChainBlock>, subsidy: int)
    ensures Refold(p, Entries(chain, subsidy)) == Live(p, Given(StoredOf(chain), Rows(chain), subsidy))
  {
    RefoldIsFoldOfStored(p, chain, |chain|, subsidy);
    assert chain[..|chain|] == chain && Entries(chain, subsidy)[..|chain|] == Entries(chain, subsidy);
  }

  /**
   Under the proviso, the history holds the owners of the live state after a stored block j, which is the
   refolded one.
   */
  lemma OwnersAfterStored(p: Params, es: seq<Entry>, epochs: Table, j: nat)
    requires j < |es| && Stored(es[j]) && Proviso(p, es, epochs)
    ensures forall n :: OwnerAt(epochs, n, es[j].b.height) == FoldInvariant.OwnerOf(Refold(p, es[..j + 1]).names, n)
  {
    var h := es[j].b.height;
    ProvisoKeepsInStep(p, es, j + 1);
    AfterPrefix(p, es, j + 1, h, h);
    AfterBeyondTip(p, es[..j + 1], h);
    forall n ensures OwnerAt(epochs, n, h) == FoldInvariant.OwnerOf(Refold(p, es[..j + 1]).names, n) {
      assert OwnerAt(epochs, n, h) == FoldInvariant.OwnerOf(After(p, es, h).names, n);
    }
  }

  /** Folding the first i + 1 stored blocks is refolding the chain up to the last of them. */
  lemma PlaceInChain(p: Params, chain: seq<ChainBlock>, subsidy: int, i: nat) returns (j: nat)
    requires i < |StoredOf(chain)|
    ensures j < |chain| && chain[j] == StoredOf(chain)[i] && Keep(chain[j])
    ensures Live(p, Given(StoredOf(chain)[..i + 1], Rows(chain), subsidy))
        == Refold(p, Entries(chain, subsidy)[..j + 1])
  {
    j := PlaceOf(chain, i);
    StoredStep(chain, j, Rows(chain), subsidy);
    TakeNext(StoredOf(chain), i);
    RefoldIsFoldOfStored(p, chain, j + 1, subsidy);
  }

  lemma TakeNext<T>(s: seq<T>, i: nat)
    requires i < |s|
    ensures s[..i + 1] == s[..i] + [s[i]]
  {
  }

  /** Under the proviso, re-deriving the history rows at stored block i changes nothing. */
  lemma ReplayRederives(p: Params, chain: seq<ChainBlock>, subsidy: int, t: Table, u: Table, i: nat, s: State)
    requires i < |StoredOf(chain)| && Proviso(p, Entries(chain, subsidy), t)
    requires s == Live(p, Given(StoredOf(chain)[..i + 1], Rows(chain), subsidy))
    requires Updated(t, u, s.names, StoredOf(chain)[i].height)
    ensures u == t
  {
    var j := PlaceInChain(p, chain, subsidy, i);
    StoredStep(chain, j, Rows(chain), subsidy);
    OwnersAfterStored(p, Entries(chain, subsidy), t, j);
    RederivingIsNoOp(t, u, s.names, StoredOf(chain)[i].height);
  }

  /** The state is the live fold, but for what the next block start will run; empty until activation. */
  ghost predicate Tracks(p: Params, es: seq<Entry>, s: State) {
    InStep(Live(p, es), s, TimeAfter(es)) && (Dormant(p, es) ==> s == EMPTY_STATE)
  }

  /** What connecting block e does to a state and a history. */
  ghost predicate Connected(p: Params, e: Entry, s: State, s': State, t: Table, t': Table) {
    && s' == BlockState(p, s, e.b)
    && if Gate(s, e.b) then Updated(t, t', s'.names, e.b.height) else t' == t
  }

  lemma ConnectStaysCurrent(p: Params, es: seq<Entry>, e: Entry, s: State)
    requires Tracks(p, es, s) && InOrder(p, es + [e])
    ensures BlockState(p, s, e.b) == Live(p, es + [e])
    ensures FiresLapse(s, e.b.mtp) <==> FiresLapse(Live(p, es), e.b.mtp)
  {
    assert (es + [e])[..|es|] == es && (es + [e])[|es|] == e;
    NextInOrder(p, es + [e], |es|);
    if Dormant(p, es) { DormantIsEmpty(p, es); }
    InStepConnects(p, Live(p, es), s, TimeAfter(es), e.b);
  }

  lemma ConnectStaysAccurate(p: Params, es: seq<Entry>, e: Entry, s: State, s': State, t: Table, t': Table, tip: int)
    requires Tracks(p, es, s) && Connected(p, e, s, s', t, t')
    requires InOrder(p, es + [e]) && Accurate(t, p, es) && RowsUpTo(t, tip) && tip < e.b.height
    requires es != [] ==> es[|es| - 1].b.height <= tip
    ensures Accurate(t', p, es + [e]) && RowsUpTo(t', e.b.height)
  {
    ConnectStaysCurrent(p, es, e, s);
    ConnectKeepsAccurate(t, t', p, es, e, tip);
  }

  /** Number of leading blocks of height at most h. */
  ghost function KeptBlocks(chain: seq<ChainBlock>, h: int): (k: nat)
    requires Rising(chain)
    ensures k <= |chain|
    ensures k > 0 ==> chain[k - 1].height <= h
    ensures k < |chain| ==> chain[k].height > h
  {
    if chain == [] then 0
    else if chain[|chain| - 1].height <= h then |chain|
    else KeptBlocks(chain[..|chain| - 1], h)
  }

  lemma RowsPrefix(chain: seq<ChainBlock>, k: nat)
    requires k <= |chain|
    ensures Rows(chain[..k]) == Rows(chain)[..k]
  {
  }

  lemma RowsBelow(chain: seq<ChainBlock>, h: int, k: nat)
    requires Rising(chain) && k <= |chain|
    requires (k > 0 ==> chain[k - 1].height < h) && (k < |chain| ==> chain[k].height >= h)
    ensures Below(Rows(chain), h) == Rows(chain[..k])
  {
    RowsPrefix(chain, k);
    BelowIsPrefix(Rows(chain), h, k);
  }

  /** Rolling back to a height keeps the leading blocks, their stored bytes and their rows. */
  lemma KeptPrefix(chain: seq<ChainBlock>, k: nat, to: int)
    requires Rising(chain) && k <= |chain|
    requires (k > 0 ==> chain[k - 1].height <= to) && (k < |chain| ==> chain[k].height > to)
    ensures Rising(chain[..k]) && Ascending(Rows(chain))
    ensures StoredUpTo(StoredOf(chain), to) == StoredOf(chain[..k])
    ensures Below(Rows(chain), to + 1) == Rows(chain[..k])
  {
    StoredOfPrefix(chain, k, to);
    RowsBelow(chain, to + 1, k);
  }

  lemma StoredAppend(chain: seq<ChainBlock>, b: ChainBlock)
    ensures StoredOf(chain + [b]) == if Keep(b) then StoredOf(chain) + [b] else StoredOf(chain)
  {
    assert (chain + [b])[..|chain|] == chain;
    assert StoredOf(chain) + [] == StoredOf(chain);
  }

  lemma RowsAppend(chain: seq<ChainBlock>, b: ChainBlock)
    ensures Rows(chain + [b]) == Rows(chain) + [RowOf(b)]
  {
  }

  lemma RisingAppend(chain: seq<ChainBlock>, b: ChainBlock)
    requires Rising(chain) && (chain != [] ==> chain[|chain| - 1].height < b.height)
    ensures Rising(chain + [b])
  {
  }

  /** History rows start only at heights of connected blocks. */
  ghost predicate RowsAtBlocks(t: Table, chain: seq<ChainBlock>) {
    forall k :: k in t ==> HasHeight(chain, k.start)
  }

  ghost predicate HasHeight(chain: seq<ChainBlock>, h: int) {
    exists i :: 0 <= i < |chain| && chain[i].height == h
  }

  lemma RowsAtBlocksUpToTip(t: Table, chain: seq<ChainBlock>, tip: int)
    requires RowsAtBlocks(t, chain) && Rising(chain)
    requires chain != [] ==> chain[|chain| - 1].height <= tip
    ensures RowsUpTo(t, tip)
  {
  }

  lemma UpdateRowsAtBlocks(t: Table, u: Table, names: map<NameOrder.Name, NameRow>, chain: seq<ChainBlock>,
                           b: ChainBlock)
    requires RowsAtBlocks(t, chain) && (u == t || Updated(t, u, names, b.height))
    ensures RowsAtBlocks(u, chain + [b])
  {
    var all := chain + [b];
    assert all[|chain|].height == b.height;
    forall k | k in u ensures HasHeight(all, k.start) {
      if k.start != b.height {
        if u != t { assert Row(u, k) == Row(t, k); }
        var i :| 0 <= i < |chain| && chain[i].height == k.start;
        assert all[i].height == k.start;
      }
    }
  }

  lemma PruneRowsAtBlocks(t: Table, chain: seq<ChainBlock>, to: int, k: nat)
    requires RowsAtBlocks(t, chain) && Rising(chain) && k <= |chain| && (k < |chain| ==> chain[k].height > to)
    ensures RowsAtBlocks(PruneAbove(t, to), chain[..k])
  {
    forall x | x in PruneAbove(t, to) ensures HasHeight(chain[..k], x.start) {
      var i :| 0 <= i < |chain| && chain[i].height == x.start;
      assert i < k && chain[..k][i] == chain[i];
    }
  }

  // ---- the indexer object ----

  class Indexer {
    const sha: Bytes -> Hash256
    const activation: int
    const feed: Feed
    var state: FoldState
    var raw: seq<ChainBlock>
    var epochs: Table
    var from: Option<int>
    ghost var chain: seq<ChainBlock>

    ghost function Deployment(): Params {
      Params(sha, activation)
    }

    ghost function History(): seq<Entry>
      reads this
    {
      Entries(chain, feed.subsidy)
    }

    ghost predicate Valid()
      reads this, feed
    {
      && Rising(chain)
      && feed.v == Rows(chain)
      && raw == StoredOf(chain)
      && state.sha == sha && state.activation == activation
    }

    /** The state is in step with the live fold of the connected chain. */
    ghost predicate Current()
      reads this, state
    {
      Tracks(Deployment(), History(), state.Snap())
    }

    ghost predicate HistoryAccurate()
      reads this
    {
      Accurate(epochs, Deployment(), History()) && RowsAtBlocks(epochs, chain)
    }

    /** A new database: its history is marked as covered from genesis. */
    constructor (sha: Bytes -> Hash256, activation: int, subsidy: int)
      ensures from == Some(0)
      ensures Valid() && Current() && HistoryAccurate() && chain == []
      ensures fresh(state) && fresh(feed) && feed.subsidy == subsidy
    {
      this.sha := sha;
      this.activation := activation;
      feed := new Feed(subsidy);
      state := new FoldState(sha, activation);
      raw, epochs, chain, from := [], map[], [], Some(0);
      new;
      assert forall n, h :: Recorded(map[], n, h).None?;
    }

    /** Will the next block start fire a lapse? */
    method LapseDue(mtp: int) returns (due: bool)
      ensures due <==> FiresLapse(state.Snap(), mtp)
    {
      due := exists n :: n in state.names && mtp >= state.names[n].leaseExpiry;
    }

    /** Oracle values, fold, oracle row, history rows if ownership could change. */
    method FoldIn(b: ChainBlock)
      requires Valid() && (chain != [] ==> chain[|chain| - 1].height < b.height)
      modifies this`epochs, this`from, state, feed
      ensures old(from).Some? ==> from == old(from)
      ensures feed.v == Rows(chain) + [RowOf(b)] && state.sha == sha && state.activation == activation
      ensures Connected(Deployment(), EntryAt(Rows(chain), feed.subsidy, b), old(state.Snap()), state.Snap(),
          old(epochs), epochs)
    {
      assert chain[..|chain|] == chain;
      RowsBelow(chain, b.height, |chain|);
      var mtp, rate := feed.ForHeight(b.height);
      var due := LapseDue(mtp);
      var block := FoldBlock(b.height, mtp, rate, b.txs);
      state.ApplyBlock(block);
      feed.Record(b.height, b.time, b.coinbase, b.bytes);
      if Folds(block) || due {
        UpdateHistory(b.height);
      }
    }

    /** Writes the history rows of a block, which starts the coverage of a history that has none. */
    method UpdateHistory(h: int)
      modifies this`epochs, this`from
      ensures Updated(old(epochs), epochs, state.names, h)
      ensures from == if old(from).None? then Some(h) else old(from)
    {
      epochs := Update(epochs, state.names, h);
      if from.None? { from := Some(h); }
    }

    /** Connect one block above the tip; its raw bytes are kept if a replay needs them. */
    method Connect(b: ChainBlock)
      requires Valid() && (chain != [] ==> chain[|chain| - 1].height < b.height)
      modifies this, state, feed
      ensures Valid() && chain == old(chain) + [b] && state == old(state)
      ensures old(from).Some? ==> from == old(from)
      ensures Connected(Deployment(), EntryAt(Rows(old(chain)), feed.subsidy, b), old(state.Snap()), state.Snap(),
          old(epochs), epochs)
    {
      FoldIn(b);
      KeepBytes(b);
    }

    /** Raw bytes are kept of a block that folded a carrier or touched the wallet. */
    method KeepBytes(b: ChainBlock)
      requires Rising(chain) && (chain != [] ==> chain[|chain| - 1].height < b.height) && raw == StoredOf(chain)
      modifies `raw, `chain
      ensures chain == old(chain) + [b] && Rising(chain) && raw == StoredOf(chain)
      ensures Rows(chain) == Rows(old(chain)) + [RowOf(b)]
    {
      StoredAppend(chain, b);
      RowsAppend(chain, b);
      RisingAppend(chain, b);
      if Keep(b) {
        raw := raw + [b];
      }
      chain := chain + [b];
    }

    /** Connecting in time order from a current state gives exactly the live fold and an accurate history. */
    method ConnectInOrder(b: ChainBlock)
      requires Valid() && Current() && HistoryAccurate() && (chain != [] ==> chain[|chain| - 1].height < b.height)
      requires InOrder(Deployment(), Entries(chain + [b], feed.subsidy))
      modifies this, state, feed
      ensures Valid() && Current() && HistoryAccurate() && chain == old(chain) + [b]
      ensures old(from).Some? ==> from == old(from)
      ensures state.Snap() == Live(Deployment(), History())
    {
      ghost var p, es, e := Deployment(), History(), EntryAt(Rows(chain), feed.subsidy, b);
      ghost var tip := if chain == [] then b.height - 1 else chain[|chain| - 1].height;
      ghost var s, t := state.Snap(), epochs;
      EntriesAppend(chain, feed.subsidy, b);
      RowsAtBlocksUpToTip(t, chain, tip);
      ghost var before := chain;
      Connect(b);
      UpdateRowsAtBlocks(t, epochs, state.Snap().names, before, b);
      ConnectStaysCurrent(p, es, e, s);
      LiveTracks(p, es + [e]);
      ConnectStaysAccurate(p, es, e, s, state.Snap(), t, epochs, tip);
    }

    /** Prune everything above a height and rebuild the state from the stored blocks up to it. */
    method Rollback(to: int)
      requires Valid()
      modifies this, feed
      ensures Valid() && fresh(state) && chain == old(chain)[..KeptBlocks(old(chain), to)]
      ensures state.Snap() == Refold(Deployment(), History()) && state.curHeight == to
      ensures epochs == Replayed(Deployment(), Given(raw, Rows(chain), feed.subsidy), PruneAbove(old(epochs), to))
      ensures Proviso(Deployment(), History(), PruneAbove(old(epochs), to)) ==> epochs == PruneAbove(old(epochs), to)
      ensures old(from).Some? ==> from == old(from)
    {
      PruneTo(to);
      Rebuild(to);
    }

    /** A new state from the stored blocks. */
    method Rebuild(to: int)
      requires Valid()
      modifies this`state, this`epochs, this`from
      ensures Valid() && fresh(state)
      ensures state.Snap() == Refold(Deployment(), History()) && state.curHeight == to
      ensures epochs == Replayed(Deployment(), Given(raw, Rows(chain), feed.subsidy), old(epochs))
      ensures old(from).Some? ==> from == old(from)
      ensures Proviso(Deployment(), History(), old(epochs)) ==> epochs == old(epochs)
    {
      state := new FoldState(sha, activation);
      ReplayStored(epochs);
      WholeRefold(Deployment(), chain, feed.subsidy);
      state.curHeight := to;
    }

    method PruneTo(to: int)
      requires Valid()
      modifies this`raw, this`epochs, this`chain, feed
      ensures Valid() && chain == old(chain)[..KeptBlocks(old(chain), to)]
      ensures epochs == PruneAbove(old(epochs), to)
    {
      ghost var k := KeptBlocks(chain, to);
      ghost var kept := chain[..k];
      KeptPrefix(chain, k, to);
      feed.Rollback(to + 1);
      assert feed.v == Rows(kept);
      raw := PruneRaw(raw, to);
      assert raw == StoredOf(kept);
      epochs, chain := PruneAbove(epochs, to), kept;
    }

    static method PruneRaw(raw: seq<ChainBlock>, to: int) returns (r: seq<ChainBlock>)
      ensures r == StoredUpTo(raw, to)
    {
      r := [];
      for i := 0 to |raw|
        invariant r == StoredUpTo(raw[..i], to)
      {
        assert raw[..i + 1][..i] == raw[..i];
        if !(raw[i].height > to) {
          r := r + [raw[i]];
        }
      }
      assert raw[..|raw|] == raw;
    }

    /** Fold one stored block again, re-deriving its history rows. */
    method ReplayOne(b: ChainBlock)
      requires Valid()
      modifies this`epochs, this`from, state
      ensures state.sha == sha && state.activation == activation
      ensures Connected(Deployment(), EntryAt(Rows(chain), feed.subsidy, b), old(state.Snap()), state.Snap(),
          old(epochs), epochs)
      ensures old(from).Some? ==> from == old(from)
    {
      var mtp, rate := feed.ForHeight(b.height);
      var due := LapseDue(mtp);
      var block := FoldBlock(b.height, mtp, rate, b.txs);
      state.ApplyBlock(block);
      if Folds(block) || due {
        UpdateHistory(b.height);
      }
    }

    /** The state and the history after the first i stored blocks. */
    ghost predicate ReplayedTo(pruned: Table, i: nat)
      reads this, feed, state
    {
      && i <= |raw|
      && state.Snap() == Live(Deployment(), Given(raw[..i], Rows(chain), feed.subsidy))
      && epochs == Replayed(Deployment(), Given(raw[..i], Rows(chain), feed.subsidy), pruned)
    }

    /** Fold the stored blocks in height order. */
    method ReplayStored(ghost pruned: Table)
      requires Valid() && state.Snap() == EMPTY_STATE && epochs == pruned
      modifies this`epochs, this`from, state
      ensures Valid() && state.Snap() == Live(Deployment(), Given(raw, Rows(chain), feed.subsidy))
      ensures epochs == Replayed(Deployment(), Given(raw, Rows(chain), feed.subsidy), pruned)
      ensures Proviso(Deployment(), History(), pruned) ==> epochs == pruned
      ensures old(from).Some? ==> from == old(from)
    {
      assert Given(raw[..0], Rows(chain), feed.subsidy) == [];
      ghost var proviso := Proviso(Deployment(), History(), pruned);
      for i := 0 to |raw|
        invariant Valid() && ReplayedTo(pruned, i)
        invariant proviso ==> epochs == pruned
        invariant old(from).Some? ==> from == old(from)
      {
        ReplayNext(pruned, proviso, i);
      }
      assert raw[..|raw|] == raw;
    }

    method ReplayNext(ghost pruned: Table, ghost proviso: bool, i: nat)
      requires Valid() && i < |raw| && ReplayedTo(pruned, i)
      requires proviso ==> Proviso(Deployment(), History(), pruned) && epochs == pruned
      modifies this`epochs, this`from, state
      ensures state.sha == sha && state.activation == activation
      ensures ReplayedTo(pruned, i + 1) && (proviso ==> epochs == pruned)
      ensures old(from).Some? ==> from == old(from)
    {
      ghost var s, t := state.Snap(), epochs;
      assert raw[..i + 1] == raw[..i] + [raw[i]];
      ReplayOne(raw[i]);
      ReplayedAppend(Deployment(), raw[..i], raw[i], Rows(chain), feed.subsidy, pruned, s, state.Snap(), t, epochs);
      if proviso && epochs != pruned {
        ReplayRederives(Deployment(), chain, feed.subsidy, pruned, epochs, i, state.Snap());
      }
    }

    /**
     Rebuild everything from local data: the history is wiped, marked as covered from genesis and re-derived from the
     stored blocks alone, so it is the fold's if and only if no skipped block fired a lapse.
     */
    method RefoldAll(synced: Option<int>) returns (ok: bool)
      requires Valid() && synced == if chain == [] then None else Some(chain[|chain| - 1].height)
      modifies this, feed
      ensures ok <==> synced.Some?
      ensures Valid() && chain == old(chain)
          && (!ok ==> epochs == old(epochs) && from == old(from) && state == old(state))
      ensures ok ==> fresh(state) && from == Some(0) && state.Snap() == Refold(Deployment(), History())
      ensures ok ==> epochs == Rederived(Deployment(), History())
      ensures ok && InOrder(Deployment(), History()) ==>
          (Accurate(epochs, Deployment(), History()) <==> NoSkippedLapse(Deployment(), History()))
    {
      if synced.None? { return false; }
      WipeAndReplay(synced.value);
      if InOrder(Deployment(), History()) { RederivedIffNoSkippedLapse(Deployment(), History()); }
      ok := true;
    }

    method WipeAndReplay(tip: int)
      requires Valid() && chain != [] && tip == chain[|chain| - 1].height
      modifies this, feed
      ensures Valid() && fresh(state) && chain == old(chain) && from == Some(0)
      ensures state.Snap() == Refold(Deployment(), History()) && epochs == Rederived(Deployment(), History())
    {
      epochs, from := map[], Some(0);
      assert chain[..|chain|] == chain && PruneAbove(map[], tip) == map[];
      WholeRederived(Deployment(), chain, feed.subsidy);
      Rollback(tip);
    }

    /** Who owned a name after the block at a height. */
    method OwnerAtHeight(n: NameOrder.Name, h: int) returns (a: Answer)
      ensures a == Query(epochs, from, state.names.Keys, n, h)
      ensures Current() && HistoryAccurate() && InOrder(Deployment(), History()) && from == Some(0) && h >= 0 ==>
          AnswersTruly(epochs, state.names.Keys, Deployment(), History(), n, h)
    {
      a := Ask(epochs, from, state.names.Keys, n, h);
      if Current() && HistoryAccurate() && InOrder(Deployment(), History()) && h >= 0 {
        ghost var es := History();
        assert es[..|es|] == es;
        GenesisHistoryIsExact(epochs, Deployment(), es, |es|, n, h);
      }
    }

    /** Without a lapse in a skipped block below the fork, a rollback leaves a current state and an accurate history. */
    method RollbackInOrder(to: int)
      requires Valid() && HistoryAccurate() && InOrder(Deployment(), History())
      requires NoSkippedLapse(Deployment(), History()[..KeptBlocks(chain, to)])
      modifies this, feed
      ensures Valid() && Current() && HistoryAccurate() && fresh(state)
      ensures chain == old(chain)[..KeptBlocks(old(chain), to)] && epochs == PruneAbove(old(epochs), to)
    {
      ghost var p, es, k := Deployment(), History(), KeptBlocks(chain, to);
      EntriesOfPrefix(chain, feed.subsidy, k);
      ProvisoAfterPrune(p, es, epochs, k, to);
      PruneRowsAtBlocks(epochs, chain, to, k);
      Rollback(to);
      RollbackSound(p, es[..k], state.Snap(), epochs);
    }
  }

  lemma ProvisoAfterPrune(p: Params, es: seq<Entry>, epochs: Table, k: nat, to: int)
    requires InOrder(p, es) && Accurate(epochs, p, es) && k <= |es| && NoSkippedLapse(p, es[..k])
    requires (k > 0 ==> es[k - 1].b.height <= to) && (k < |es| ==> es[k].b.height > to)
    ensures Proviso(p, es[..k], PruneAbove(epochs, to))
  {
    PruneKeepsAccurate(epochs, p, es, k, to);
  }

  lemma RollbackSound(p: Params, es: seq<Entry>, s: State, epochs: Table)
    requires Proviso(p, es, epochs) && s == Refold(p, es)
    ensures Tracks(p, es, s)
  {
    ProvisoKeepsInStep(p, es, |es|);
    assert es[..|es|] == es;
    if Dormant(p, es) { DormantIsEmpty(p, es); }
  }

  lemma LiveTracks(p: Params, es: seq<Entry>)
    requires InOrder(p, es)
    ensures Tracks(p, es, Live(p, es))
  {
    if Dormant(p, es) { DormantIsEmpty(p, es); }
  }

  // ---- the validator's time rule puts the chain in order ----

  /** Block i is fed the median of the times before it. */
  lemma EntryClock(chain: seq<ChainBlock>, subsidy: int, i: nat)
    requires Rising(chain) && i < |chain|
    ensures Entries(chain, subsidy)[i].b.mtp == MedianTime.Mtp(Times(Rows(chain))[..i])
  {
    EntryNeedsOnlyRowsBelow(chain, subsidy, i, i);
    RowsPrefix(chain, i);
    MtpOfTip(Rows(chain[..i]), chain[i].height);
    assert Times(Rows(chain[..i])) == Times(Rows(chain))[..i];
  }

  /** On a validated chain the times fed to the fold never fall once eleven blocks are recorded. */
  lemma FedTimesNeverFall(chain: seq<ChainBlock>, subsidy: int, start: int, startPrev: int, i: nat, j: nat)
    requires Rising(chain) && MedianTime.Validated(Times(Rows(chain)), start, startPrev)
    requires MedianTime.WINDOW <= i <= j < |chain|
    ensures Entries(chain, subsidy)[i].b.mtp <= Entries(chain, subsidy)[j].b.mtp
  {
    EntryClock(chain, subsidy, i);
    EntryClock(chain, subsidy, j);
    MedianTime.ClockNeverRunsBackwards(Times(Rows(chain)), start, startPrev, i, j);
  }

  /** A block at or above activation, not the last, is among the first eleven and makes the clock step back. */
  ghost predicate ActiveStepBack(p: Params, chain: seq<ChainBlock>, k: nat)
    requires k < |chain|
  {
    k + 1 < |chain| && chain[k].height >= p.activation && MedianTime.StepsBack(Times(Rows(chain)), k)
  }

  /**
   A validated chain is in order exactly when none of its first eleven blocks both is active and steps the clock
   back.
   */
  lemma ValidatedInOrderIff(p: Params, chain: seq<ChainBlock>, subsidy: int, start: int, startPrev: int)
    requires Rising(chain) && MedianTime.Validated(Times(Rows(chain)), start, startPrev)
    ensures InOrder(p, Entries(chain, subsidy)) <==> forall k :: 0 <= k < |chain| ==> !ActiveStepBack(p, chain, k)
  {
    if forall k :: 0 <= k < |chain| ==> !ActiveStepBack(p, chain, k) {
      forall i, j | 0 <= i < j < |chain| && chain[i].height >= p.activation
        ensures Entries(chain, subsidy)[i].b.mtp <= Entries(chain, subsidy)[j].b.mtp
      {
        QuietStretch(p, chain, subsidy, start, startPrev, i, j);
      }
    } else {
      var k :| 0 <= k < |chain| && ActiveStepBack(p, chain, k);
      StepBackShows(p, chain, subsidy, start, startPrev, k);
    }
  }

  lemma StepBackShows(p: Params, chain: seq<ChainBlock>, subsidy: int, start: int, startPrev: int, k: nat)
    requires Rising(chain) && MedianTime.Validated(Times(Rows(chain)), start, startPrev)
    requires k < |chain| && ActiveStepBack(p, chain, k)
    ensures Entries(chain, subsidy)[k].b.mtp > Entries(chain, subsidy)[k + 1].b.mtp
  {
    EntryClock(chain, subsidy, k);
    EntryClock(chain, subsidy, k + 1);
    MedianTime.ClockFallsIffStepsBack(Times(Rows(chain)), start, startPrev, k);
  }

  lemma QuietStretch(p: Params, chain: seq<ChainBlock>, subsidy: int, start: int, startPrev: int, i: nat, j: nat)
    requires Rising(chain) && MedianTime.Validated(Times(Rows(chain)), start, startPrev)
    requires i < j < |chain| && chain[i].height >= p.activation
    requires forall k :: 0 <= k < |chain| ==> !ActiveStepBack(p, chain, k)
    ensures Entries(chain, subsidy)[i].b.mtp <= Entries(chain, subsidy)[j].b.mtp
  {
    var times := Times(Rows(chain));
    forall k | i <= k < j ensures !MedianTime.StepsBack(times, k) {
      assert !ActiveStepBack(p, chain, k);
    }
    EntryClock(chain, subsidy, i);
    EntryClock(chain, subsidy, j);
    MedianTime.NoFallsBetween(times, start, startPrev, i, j);
  }

  /** With activation beyond the first eleven blocks, validation alone puts a chain in order. */
  lemma ValidatedIsInOrder(p: Params, chain: seq<ChainBlock>, subsidy: int, start: int, startPrev: int)
    requires Rising(chain) && MedianTime.Validated(Times(Rows(chain)), start, startPrev)
    requires forall i :: 0 <= i < |chain| && i < MedianTime.WINDOW ==> chain[i].height < p.activation
    ensures InOrder(p, Entries(chain, subsidy))
  {
    ValidatedInOrderIff(p, chain, subsidy, start, startPrev);
  }
}
