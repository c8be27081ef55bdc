/**
 Ownership history rebuilt from the stored blocks alone, as after a wipe: it is the history
 of the fold exactly when no skipped block fired a lapse.
 */
module Rederive {
  import opened Primitives
  import opened NameOrder
  import opened Fold
  import opened FoldInvariant
  import opened Replay
  import opened Epochs

  /**
   The table rebuilt from nothing: an update at each stored block that folds a carrier or fires a lapse in the
   refold.
   */
  ghost function Rederived(p: Params, es: seq<Entry>): Table {
    if es == [] then map[]
    else RederiveOne(Rederived(p, es[..|es| - 1]), p, Refold(p, es[..|es| - 1]), es[|es| - 1])
  }

  ghost function RederiveOne(t: Table, p: Params, s: State, e: Entry): Table {
    if Stored(e) then RowsWritten(t, p, s, e.b) else t
  }

  /** The update a block makes that folds a carrier or fires a lapse. */
  ghost function RowsWritten(t: Table, p: Params, s: State, b: FoldBlock): Table {
    if Gate(s, b) then UpdatedTable(t, BlockState(p, s, b).names, b.height) else t
  }

  /** The table that folding some blocks again makes of a table. */
  ghost function Replayed(p: Params, es: seq<Entry>, t: Table): Table {
    if es == [] then t
    else
      var k := |es| - 1;
      RowsWritten(Replayed(p, es[..k], t), p, Live(p, es[..k]), es[k].b)
  }

  lemma ReplayedSnoc(p: Params, es: seq<Entry>, e: Entry, t: Table)
    ensures Replayed(p, es + [e], t) == RowsWritten(Replayed(p, es, t), p, Live(p, es), e.b)
  {
    assert (es + [e])[..|es|] == es;
  }

  /** Rederiving is folding the stored blocks again over no rows. */
  lemma {:induction false} RederivedIsReplayOfStored(p: Params, es: seq<Entry>)
    ensures Rederived(p, es) == Replayed(p, StoredEntries(es), map[])
  {
    if es != [] {
      var rest, e := es[..|es| - 1], es[|es| - 1];
      RederivedIsReplayOfStored(p, rest);
      RefoldIsLiveOfStored(p, rest);
      assert es == rest + [e];
      StoredSnoc(rest, e);
      if Stored(e) { ReplayedSnoc(p, StoredEntries(rest), e, map[]); }
    }
  }

  ghost predicate RowsUpToTip(t: Table, es: seq<Entry>) {
    if es == [] then t == map[] else RowsUpTo(t, es[|es| - 1].b.height)
  }

  lemma {:induction false} RederivedRows(p: Params, es: seq<Entry>)
    requires InOrder(p, es)
    ensures RowsUpToTip(Rederived(p, es), es)
  {
    if es != [] {
      var k := |es| - 1;
      RederivedRows(p, es[..k]);
      var t, s, e := Rederived(p, es[..k]), Refold(p, es[..k]), es[k];
      if Stored(e) && Gate(s, e.b) {
        UpdatedTableIsUpdated(t, BlockState(p, s, e.b).names, e.b.height);
        UpdatedRowsUpTo(t, Rederived(p, es), BlockState(p, s, e.b).names, e.b.height, TipBefore(es[..k], e));
      }
    }
  }

  function TipBefore(es: seq<Entry>, e: Entry): int {
    if es == [] then e.b.height - 1 else es[|es| - 1].b.height
  }

  // ---- without a skipped lapse it is accurate ----

  lemma RederivedNext(p: Params, es: seq<Entry>, k: nat)
    requires k < |es|
    ensures Rederived(p, es[..k + 1]) == RederiveOne(Rederived(p, es[..k]), p, Refold(p, es[..k]), es[k])
  {
    assert es[..k + 1][..k] == es[..k];
  }

  /** In step with the live fold, a stored block writes the rows the live fold would. */
  lemma WritesAlike(p: Params, es: seq<Entry>, k: nat)
    requires InOrder(p, es) && NoSkippedLapse(p, es) && k < |es|
    ensures Written(Rederived(p, es[..k]), Rederived(p, es[..k + 1]), p, es[..k], es[k])
  {
    RederivedNext(p, es, k);
    ProvisoKeepsInStep(p, es, k);
    NextInOrder(p, es, k);
    OneWritesAlike(p, es[..k], Refold(p, es[..k]), es[k], Rederived(p, es[..k]));
  }

  lemma OneWritesAlike(p: Params, es: seq<Entry>, s: State, e: Entry, t: Table)
    requires Live(p, es) == s || (InStep(Live(p, es), s, TimeAfter(es)) && TimeAfter(es) <= e.b.mtp)
    requires Stored(e) || !FiresLapse(Live(p, es), e.b.mtp)
    ensures Written(t, RederiveOne(t, p, s, e), p, es, e)
  {
    InStepConnects(p, Live(p, es), s, TimeAfter(es), e.b);
    LiveSnoc(p, es, e);
    if Gate(s, e.b) { UpdatedTableIsUpdated(t, BlockState(p, s, e.b).names, e.b.height); }
  }

  lemma {:induction false} RederivedIsAccurate(p: Params, es: seq<Entry>, k: nat)
    requires InOrder(p, es) && NoSkippedLapse(p, es) && k <= |es|
    ensures Accurate(Rederived(p, es[..k]), p, es[..k])
  {
    if k == 0 {
      assert es[..0] == [];
      EmptyIsAccurate(p);
    } else {
      RederivedIsAccurate(p, es, k - 1);
      AccurateNext(p, es, k - 1);
    }
  }

  lemma EmptyIsAccurate(p: Params)
    ensures Accurate(map[], p, [])
  {
    forall n, h ensures OwnerAt(map[], n, h) == OwnerOf(After(p, [], h).names, n) {
      assert Recorded(map[], n, h).None?;
    }
  }

  lemma AccurateNext(p: Params, es: seq<Entry>, k: nat)
    requires InOrder(p, es) && NoSkippedLapse(p, es) && k < |es| && Accurate(Rederived(p, es[..k]), p, es[..k])
    ensures Accurate(Rederived(p, es[..k + 1]), p, es[..k + 1])
  {
    WritesAlike(p, es, k);
    PrefixRows(p, es, k);
    assert es[..k] + [es[k]] == es[..k + 1];
    AccurateSnoc(p, es[..k], es[k], Rederived(p, es[..k]), Rederived(p, es[..k + 1]));
  }

  lemma PrefixRows(p: Params, es: seq<Entry>, k: nat)
    requires InOrder(p, es) && k < |es|
    ensures RowsUpToTip(Rederived(p, es[..k]), es[..k]) && TipBefore(es[..k], es[k]) < es[k].b.height
  {
    NextInOrder(p, es, k);
    RederivedRows(p, es[..k]);
  }

  lemma AccurateSnoc(p: Params, es: seq<Entry>, e: Entry, t: Table, u: Table)
    requires Accurate(t, p, es) && RowsUpToTip(t, es) && TipBefore(es, e) < e.b.height && Written(t, u, p, es, e)
    ensures Accurate(u, p, es + [e])
  {
    ConnectKeepsAccurate(t, u, p, es, e, TipBefore(es, e));
  }

  // ---- a skipped lapse leaves a wrong answer ----

  /** What is recorded up to a height does not change at blocks above it. */
  lemma EarlierAnswersStand(p: Params, es: seq<Entry>, from: nat, k: nat, n: Name, g: int)
    requires from <= k <= |es| && forall j :: from <= j < k ==> g < es[j].b.height
    ensures Recorded(Rederived(p, es[..k]), n, g) == Recorded(Rederived(p, es[..from]), n, g)
  {
    var answer := (j: int) => if 0 <= j <= |es| then Recorded(Rederived(p, es[..j]), n, g) else None;
    forall j | from <= j < k ensures answer(j + 1) == answer(j) {
      AnswerStands(p, es, j, n, g);
    }
    NothingChanges(answer, from, k);
  }

  lemma {:induction false} NothingChanges<T>(f: int -> T, from: int, k: int)
    requires from <= k && forall j :: from <= j < k ==> f(j + 1) == f(j)
    ensures f(k) == f(from)
    decreases k - from
  {
    if from < k {
      NothingChanges(f, from, k - 1);
      assert f((k - 1) + 1) == f(k - 1);
    }
  }

  lemma AnswerStands(p: Params, es: seq<Entry>, k: nat, n: Name, g: int)
    requires k < |es| && g < es[k].b.height
    ensures Recorded(Rederived(p, es[..k + 1]), n, g) == Recorded(Rederived(p, es[..k]), n, g)
  {
    RederivedNext(p, es, k);
    OneKeepsEarlier(Rederived(p, es[..k]), p, Refold(p, es[..k]), es[k], n, g);
  }

  lemma OneKeepsEarlier(t: Table, p: Params, s: State, e: Entry, n: Name, g: int)
    requires g < e.b.height
    ensures Recorded(RederiveOne(t, p, s, e), n, g) == Recorded(t, n, g)
  {
    if Stored(e) && Gate(s, e.b) {
      var names := BlockState(p, s, e.b).names;
      UpdatedTableIsUpdated(t, names, e.b.height);
      UpdatedAgrees(t, UpdatedTable(t, names, e.b.height), names, e.b.height, n);
    }
  }

  /** While the blocks before were all accounted for, a name lapsing in a skipped block keeps its owner on record. */
  lemma SkippedLapseAnswer(p: Params, es: seq<Entry>, i: nat, n: Name)
    requires InOrder(p, es) && i < |es| && NoSkippedLapse(p, es[..i]) && !Stored(es[i])
    requires n in Live(p, es[..i]).names && es[i].b.mtp >= Live(p, es[..i]).names[n].leaseExpiry
    ensures Recorded(Rederived(p, es), n, es[i].b.height) == Some(Some(Live(p, es[..i]).names[n].owner))
    ensures OwnerOf(After(p, es, es[i].b.height).names, n) == None
  {
    var h := es[i].b.height;
    EarlierAnswersStand(p, es, i + 1, |es|, n, h);
    assert es[..|es|] == es;
    RecordBefore(p, es, i, n);
    GoneAfter(p, es, i, n);
  }

  lemma RecordBefore(p: Params, es: seq<Entry>, i: nat, n: Name)
    requires InOrder(p, es) && i < |es| && NoSkippedLapse(p, es[..i]) && !Stored(es[i]) && n in Live(p, es[..i]).names
    ensures Recorded(Rederived(p, es[..i + 1]), n, es[i].b.height) == Some(Some(Live(p, es[..i]).names[n].owner))
  {
    var t, tip := Rederived(p, es[..i]), es[i - 1].b.height;
    assert es[..i + 1][..i] == es[..i] && es[..i][..i] == es[..i];
    NextInOrder(p, es, i);
    RederivedIsAccurate(p, es[..i], i);
    RederivedRows(p, es[..i]);
    RowsBeyondTip(t, tip, n, es[i].b.height);
    AfterBeyondTip(p, es[..i], tip);
    assert OwnerAt(t, n, tip) == OwnerOf(After(p, es[..i], tip).names, n);
  }

  lemma GoneAfter(p: Params, es: seq<Entry>, i: nat, n: Name)
    requires InOrder(p, es) && i < |es| && !Stored(es[i])
    requires n in Live(p, es[..i]).names && es[i].b.mtp >= Live(p, es[..i]).names[n].leaseExpiry
    ensures OwnerOf(After(p, es, es[i].b.height).names, n) == None
  {
    var h := es[i].b.height;
    AfterPrefix(p, es, i + 1, h, h);
    AfterBeyondTip(p, es[..i + 1], h);
    assert es[..i + 1][..i] == es[..i];
    IdleBlock(p, Live(p, es[..i]), es[i].b);
  }

  /** The first skipped block that fires a lapse. */
  lemma {:induction false} FirstSkippedLapse(p: Params, es: seq<Entry>) returns (i: nat)
    requires !NoSkippedLapse(p, es)
    ensures i < |es| && NoSkippedLapse(p, es[..i])
    ensures !Stored(es[i]) && FiresLapse(Live(p, es[..i]), es[i].b.mtp)
  {
    var k := |es| - 1;
    forall j | 0 <= j < k ensures es[..k][..j] == es[..j] { }
    if NoSkippedLapse(p, es[..k]) {
      i := k;
    } else {
      i := FirstSkippedLapse(p, es[..k]);
      assert es[..k][..i] == es[..i];
    }
  }

  /** The history rebuilt from the stored blocks is the fold's if and only if no skipped block fired a lapse. */
  lemma RederivedIffNoSkippedLapse(p: Params, es: seq<Entry>)
    requires InOrder(p, es)
    ensures Accurate(Rederived(p, es), p, es) <==> NoSkippedLapse(p, es)
  {
    if NoSkippedLapse(p, es) {
      RederivedIsAccurate(p, es, |es|);
      assert es[..|es|] == es;
    } else {
      var i := FirstSkippedLapse(p, es);
      var n :| n in Live(p, es[..i]).names && es[i].b.mtp >= Live(p, es[..i]).names[n].leaseExpiry;
      SkippedLapseAnswer(p, es, i, n);
      assert OwnerAt(Rederived(p, es), n, es[i].b.height) != OwnerOf(After(p, es, es[i].b.height).names, n);
    }
  }

  // ---- the public query over it ----

  /** Every block height is one the coverage mark covers. */
  ghost predicate Covered(es: seq<Entry>) {
    forall i :: 0 <= i < |es| ==> es[i].b.height >= 0
  }

  /**
   After a wipe and a refold, which marks the history covered from genesis, every answer is the fold's if and only if
   no skipped block fired a lapse.
   */
  lemma RebuiltAnswersIffNoSkippedLapse(p: Params, es: seq<Entry>)
    requires InOrder(p, es) && Covered(es)
    ensures AllAnswersTrue(Rederived(p, es), Refold(p, es).names.Keys, p, es) <==> NoSkippedLapse(p, es)
  {
    if NoSkippedLapse(p, es) {
      forall n, h | h >= 0 ensures AnswersTruly(Rederived(p, es), Refold(p, es).names.Keys, p, es, n, h) {
        RebuiltAnswers(p, es, n, h);
      }
    } else {
      var i := FirstSkippedLapse(p, es);
      WrongAnswer(p, es, i, Refold(p, es).names.Keys);
    }
  }

  lemma WrongAnswer(p: Params, es: seq<Entry>, i: nat, current: set<Name>)
    requires InOrder(p, es) && Covered(es) && i < |es| && NoSkippedLapse(p, es[..i])
    requires !Stored(es[i]) && FiresLapse(Live(p, es[..i]), es[i].b.mtp)
    ensures !AllAnswersTrue(Rederived(p, es), current, p, es)
  {
    var n :| n in Live(p, es[..i]).names && es[i].b.mtp >= Live(p, es[..i]).names[n].leaseExpiry;
    SkippedLapseAnswer(p, es, i, n);
    assert !AnswersTruly(Rederived(p, es), current, p, es, n, es[i].b.height);
  }

  lemma RebuiltAnswers(p: Params, es: seq<Entry>, n: Name, h: int)
    requires InOrder(p, es) && NoSkippedLapse(p, es) && h >= 0
    ensures AnswersTruly(Rederived(p, es), Refold(p, es).names.Keys, p, es, n, h)
  {
    assert es[..|es|] == es;
    RederivedIsAccurate(p, es, |es|);
    ProvisoKeepsInStep(p, es, |es|);
    GenesisHistoryIsExact(Rederived(p, es), p, es, |es|, n, h);
  }
}
