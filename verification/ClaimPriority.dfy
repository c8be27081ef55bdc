/**
 Claim priority: among the claims of one block on a name that nobody owned, the one whose
 backing commit is earliest in chain position ends up with the name, in whatever order the
 claims appear.
 */
module ClaimPriority {
  import opened Primitives
  import opened NameOrder
  import opened Protocol
  import opened Lease
  import opened Fold

  // ---- the backing commit ----

  lemma {:induction false} BestCommitIsLeast(commits: seq<CommitRow>, want: Hash256, height: int)
    ensures BestCommit(commits, want, height).None?
        <==> forall i :: 0 <= i < |commits| ==> !Backs(commits[i], want, height)
    ensures var best := BestCommit(commits, want, height); best.Some? ==>
      && (exists i :: 0 <= i < |commits| && Backs(commits[i], want, height)
                      && best.value == Priority(commits[i].height, commits[i].txIndex))
      && (forall i :: 0 <= i < |commits| && Backs(commits[i], want, height) ==>
            !Before(Priority(commits[i].height, commits[i].txIndex), best.value))
  {
    if commits != [] {
      BestCommitIsLeast(commits[..|commits| - 1], want, height);
    }
  }

  /** Commits made in the claiming block back nothing in it. */
  lemma {:induction false} SameBlockCommitsBackNothing(a: seq<CommitRow>, b: seq<CommitRow>, want: Hash256, height: int)
    requires forall i :: 0 <= i < |b| ==> b[i].height >= height
    ensures BestCommit(a + b, want, height) == BestCommit(a, want, height)
  {
    if b == [] {
      assert a + b == a;
    } else {
      assert (a + b)[..|a + b| - 1] == a + b[..|b| - 1];
      SameBlockCommitsBackNothing(a, b[..|b| - 1], want, height);
    }
  }

  // ---- the best of a list of standings ----

  /** Among the first k standings, w is the best and the first of its equals. */
  predicate Wins(st: seq<Option<Priority>>, w: nat, k: nat)
    requires k <= |st|
  {
    && w < k
    && st[w].Some?
    && forall j :: 0 <= j < k && st[j].Some? ==>
         if j < w then Before(st[w].value, st[j].value) else !Before(st[j].value, st[w].value)
  }

  lemma WinsIsUnique(st: seq<Option<Priority>>, v: nat, w: nat, k: nat)
    requires k <= |st| && Wins(st, v, k) && Wins(st, w, k)
    ensures v == w
  {
  }

  lemma WinsNext(st: seq<Option<Priority>>, w: nat, k: nat)
    requires k < |st| && Wins(st, w, k)
    ensures if st[k].Some? && Before(st[k].value, st[w].value) then Wins(st, k, k + 1) else Wins(st, w, k + 1)
  {
  }

  /** Some eligible claim always wins: standings are totally ordered, ties broken by position. */
  lemma {:induction false} WinnerExists(st: seq<Option<Priority>>, k: nat)
    requires k <= |st|
    ensures (exists j :: 0 <= j < k && st[j].Some?) <==> exists w :: Wins(st, w, k)
  {
    if k > 0 {
      var m := k - 1;
      WinnerExists(st, m);
      if w :| Wins(st, w, m) {
        WinsNext(st, w, m);
      } else if st[m].Some? {
        assert Wins(st, m, k);
      }
    }
  }

  // ---- the claims of a block ----

  ghost function At(p: Params, c0: Config, acts: seq<Step>, k: nat): Config
    requires k <= |acts|
  {
    Run(p, c0, acts[..k])
  }

  predicate ClaimsName(step: Step, n: Name) {
    step.Act? && step.fc.c.Claim? && step.fc.c.name == n
  }

  function RowAt(names: map<Name, NameRow>, n: Name): Option<NameRow> {
    if n in names then Some(names[n]) else None
  }

  /** Within the block only claims of n change its row. */
  ghost predicate TouchedOnlyByClaims(p: Params, c0: Config, acts: seq<Step>, n: Name) {
    forall k :: 0 <= k < |acts| && !ClaimsName(acts[k], n) ==>
      RowAt(At(p, c0, acts, k).st.names, n) == RowAt(At(p, c0, acts, k + 1).st.names, n)
  }

  ghost function ClaimDays(c0: Config, step: Step): nat
    requires step.Act?
  {
    LeaseDaysSingle(step.fc.value, c0.rate, c0.mtp, c0.mtp)
  }

  /** The priority of an eligible claim of n at position k, judged by the commits the block began with. */
  ghost function Standing(p: Params, c0: Config, acts: seq<Step>, n: Name, k: nat): Option<Priority>
    requires k < |acts|
  {
    var actor := At(p, c0, acts, k).actor;
    if ClaimsName(acts[k], n) && actor.ok && c0.height >= p.activation && ClaimDays(c0, acts[k]) > 0
    then BestCommit(c0.st.commits, Commitment(p.sha, acts[k].fc.c.salt, n, actor.h160), c0.height)
    else None
  }

  ghost function Standings(p: Params, c0: Config, acts: seq<Step>, n: Name): (r: seq<Option<Priority>>)
    ensures |r| == |acts| && forall k :: 0 <= k < |acts| ==> r[k] == Standing(p, c0, acts, n, k)
  {
    seq(|acts|, k requires 0 <= k < |acts| => Standing(p, c0, acts, n, k))
  }

  ghost function WinningRow(p: Params, c0: Config, acts: seq<Step>, w: nat): NameRow
    requires w < |acts| && acts[w].Act?
  {
    FreshRow(At(p, c0, acts, w).actor.h160, c0.mtp + ClaimDays(c0, acts[w]) * BILLING_UNIT)
  }

  ghost predicate Within(acts: seq<Step>) {
    forall k :: 0 <= k < |acts| ==> !acts[k].BeginBlock?
  }

  // ---- one step ----

  lemma OtherStep(p: Params, c: Config, step: Step, n: Name)
    requires !step.BeginBlock? && !ClaimsName(step, n)
    ensures n in Next(p, c, step).st.scratch <==> n in c.st.scratch
    ensures n in c.st.scratch ==> Next(p, c, step).st.scratch[n] == c.st.scratch[n]
  {
  }

  lemma StepWithin(p: Params, c: Config, step: Step)
    requires !step.BeginBlock?
    ensures var d := Next(p, c, step); d.height == c.height && d.mtp == c.mtp && d.rate == c.rate
    ensures var d := Next(p, c, step);
      d.st.commits == c.st.commits || exists cm :: d.st.commits == c.st.commits + [cm] && cm.height == c.height
  {
    var d := Next(p, c, step);
    if step.Act? && step.fc.c.Commit? && d.st.commits != c.st.commits {
      var cm := CommitRow(step.fc.c.commitment, c.height, c.tx.txIndex, c.mtp);
      assert d.st.commits == c.st.commits + [cm];
    }
  }

  /** Inside the block the clock stands still and the standing of a commitment does not move. */
  lemma {:induction false} BlockConstants(p: Params, c0: Config, acts: seq<Step>, k: nat, want: Hash256)
    requires k <= |acts| && Within(acts)
    ensures var c := At(p, c0, acts, k);
      && c.height == c0.height && c.mtp == c0.mtp && c.rate == c0.rate
      && BestCommit(c.st.commits, want, c0.height) == BestCommit(c0.st.commits, want, c0.height)
  {
    if k > 0 {
      BlockConstants(p, c0, acts, k - 1, want);
      assert acts[..k][..k - 1] == acts[..k - 1];
      var c := At(p, c0, acts, k - 1);
      StepWithin(p, c, acts[k - 1]);
      var d := At(p, c0, acts, k);
      if cm: CommitRow :| d.st.commits == c.st.commits + [cm] && cm.height == c.height {
        SameBlockCommitsBackNothing(c.st.commits, [cm], want, c0.height);
      }
    }
  }

  ghost predicate HeldBy(p: Params, c0: Config, acts: seq<Step>, n: Name, w: nat, s: State)
    requires w < |acts| && Standing(p, c0, acts, n, w).Some?
  {
    && RowAt(s.names, n) == Some(WinningRow(p, c0, acts, w))
    && n in s.scratch
    && s.scratch[n] == ClaimScratch(Standing(p, c0, acts, n, w).value, At(p, c0, acts, w).actor.h160)
  }

  /** After k steps the name is free if no claim was eligible, and otherwise held by the winner so far. */
  ghost predicate Tally(p: Params, c0: Config, acts: seq<Step>, n: Name, k: nat)
    requires k <= |acts|
  {
    var s := At(p, c0, acts, k).st;
    var st := Standings(p, c0, acts, n);
    if forall j :: 0 <= j < k ==> st[j].None? then n !in s.names
    else exists w :: Wins(st, w, k) && HeldBy(p, c0, acts, n, w, s)
  }

  lemma ClaimStep(p: Params, c0: Config, acts: seq<Step>, n: Name, k: nat)
    requires k < |acts| && Within(acts) && ClaimsName(acts[k], n)
    ensures var c, d := At(p, c0, acts, k), At(p, c0, acts, k + 1);
      var st := Standing(p, c0, acts, n, k);
      d.st == if st.None? then c.st else
        ApplyClaim(c.st, c0.height, c0.mtp, c0.rate, acts[k].fc.value,
                   Commitment(p.sha, acts[k].fc.c.salt, n, c.actor.h160), n, c.actor.h160)
    ensures Standing(p, c0, acts, n, k).Some? ==>
      BestCommit(At(p, c0, acts, k).st.commits,
                 Commitment(p.sha, acts[k].fc.c.salt, n, At(p, c0, acts, k).actor.h160), c0.height)
      == Standing(p, c0, acts, n, k)
  {
    assert acts[..k + 1][..k] == acts[..k];
    var actor := At(p, c0, acts, k).actor;
    BlockConstants(p, c0, acts, k, Commitment(p.sha, acts[k].fc.c.salt, n, actor.h160));
  }

  lemma {:induction false} TallyHolds(p: Params, c0: Config, acts: seq<Step>, n: Name, k: nat)
    requires k <= |acts| && Within(acts) && TouchedOnlyByClaims(p, c0, acts, n)
    requires n !in c0.st.names && c0.st.scratch == map[]
    ensures Tally(p, c0, acts, n, k)
  {
    if k == 0 {
      assert acts[..0] == [];
    } else {
      var j := k - 1;
      TallyHolds(p, c0, acts, n, j);
      if ClaimsName(acts[j], n) {
        ClaimStep(p, c0, acts, n, j);
        if Standing(p, c0, acts, n, j).None? {
          TallySame(p, c0, acts, n, j);
        } else {
          TallyClaim(p, c0, acts, n, j);
        }
      } else {
        assert acts[..k][..j] == acts[..j];
        OtherStep(p, At(p, c0, acts, j), acts[j], n);
        TallySame(p, c0, acts, n, j);
      }
    }
  }

  ghost predicate SameStake(s: State, t: State, n: Name) {
    && RowAt(s.names, n) == RowAt(t.names, n)
    && (n in s.scratch <==> n in t.scratch)
    && (n in s.scratch ==> s.scratch[n] == t.scratch[n])
  }

  lemma TallySame(p: Params, c0: Config, acts: seq<Step>, n: Name, j: nat)
    requires j < |acts| && Standing(p, c0, acts, n, j).None?
    requires Tally(p, c0, acts, n, j)
    requires SameStake(At(p, c0, acts, j).st, At(p, c0, acts, j + 1).st, n)
    ensures Tally(p, c0, acts, n, j + 1)
  {
    var st := Standings(p, c0, acts, n);
    if w :| Wins(st, w, j) && HeldBy(p, c0, acts, n, w, At(p, c0, acts, j).st) {
      WinsNext(st, w, j);
      assert HeldBy(p, c0, acts, n, w, At(p, c0, acts, j + 1).st);
    }
  }

  lemma ClaimOfFreeName(p: Params, c0: Config, acts: seq<Step>, n: Name, j: nat)
    requires j < |acts| && Within(acts) && ClaimsName(acts[j], n)
    requires Standing(p, c0, acts, n, j).Some? && n !in At(p, c0, acts, j).st.names
    ensures HeldBy(p, c0, acts, n, j, At(p, c0, acts, j + 1).st)
  {
    ClaimStep(p, c0, acts, n, j);
  }

  lemma ClaimOfHeldName(p: Params, c0: Config, acts: seq<Step>, n: Name, j: nat, w: nat)
    requires j < |acts| && Within(acts) && ClaimsName(acts[j], n)
    requires w < |acts| && Standing(p, c0, acts, n, w).Some? && Standing(p, c0, acts, n, j).Some?
    requires HeldBy(p, c0, acts, n, w, At(p, c0, acts, j).st)
    ensures var better := Before(Standing(p, c0, acts, n, j).value, Standing(p, c0, acts, n, w).value);
      HeldBy(p, c0, acts, n, if better then j else w, At(p, c0, acts, j + 1).st)
  {
    ClaimStep(p, c0, acts, n, j);
  }

  lemma TallyClaim(p: Params, c0: Config, acts: seq<Step>, n: Name, j: nat)
    requires j < |acts| && Within(acts) && ClaimsName(acts[j], n) && Standing(p, c0, acts, n, j).Some?
    requires Tally(p, c0, acts, n, j)
    ensures Tally(p, c0, acts, n, j + 1)
  {
    var st := Standings(p, c0, acts, n);
    if w :| Wins(st, w, j) && HeldBy(p, c0, acts, n, w, At(p, c0, acts, j).st) {
      ClaimOfHeldName(p, c0, acts, n, j, w);
      WinsNext(st, w, j);
    } else {
      ClaimOfFreeName(p, c0, acts, n, j);
      assert Wins(st, j, j + 1);
    }
  }

  lemma WinnerHolds(p: Params, c0: Config, acts: seq<Step>, n: Name, w: nat)
    requires Tally(p, c0, acts, n, |acts|) && Wins(Standings(p, c0, acts, n), w, |acts|)
    ensures HeldBy(p, c0, acts, n, w, Run(p, c0, acts).st)
  {
    var st := Standings(p, c0, acts, n);
    assert acts[..|acts|] == acts;
    assert st[w].Some?;
    var v :| Wins(st, v, |acts|) && HeldBy(p, c0, acts, n, v, Run(p, c0, acts).st);
    WinsIsUnique(st, v, w, |acts|);
  }

  /**
   Claim priority. A block begins with n unowned and only claims touch n. The eligible
   claim with the best standing, the first among equals, ends the block owning n with
   exactly the lease its own burn bought; if no claim is eligible, n stays unowned.
   */
  lemma BestStandingGetsTheName(p: Params, c: Config, begin: Step, acts: seq<Step>, n: Name)
    requires begin.BeginBlock? && Within(acts)
    requires n !in Next(p, c, begin).st.names && TouchedOnlyByClaims(p, Next(p, c, begin), acts, n)
    ensures var c0 := Next(p, c, begin); var st := Standings(p, c0, acts, n);
      if forall k :: 0 <= k < |st| ==> st[k].None? then n !in Run(p, c0, acts).st.names
      else exists w :: Wins(st, w, |acts|) && RowAt(Run(p, c0, acts).st.names, n) == Some(WinningRow(p, c0, acts, w))
  {
    var c0 := Next(p, c, begin);
    var st := Standings(p, c0, acts, n);
    TallyHolds(p, c0, acts, n, |acts|);
    assert acts[..|acts|] == acts;
    WinnerExists(st, |acts|);
    if w :| Wins(st, w, |acts|) {
      WinnerHolds(p, c0, acts, n, w);
    }
  }
}
