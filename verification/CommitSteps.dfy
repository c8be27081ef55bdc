/**
 Where commits come from and what a claim rests on, over whole runs: a commit row is a commit
 step that stood in a block and a transaction, and a claim that changes an owner rests on an
 earlier block's commit step whose digest is the hash of salt, name and claimant.
 */
module CommitSteps {
  import opened Primitives
  import opened NameOrder
  import opened Protocol
  import opened Lease
  import opened Fold
  import opened FoldInvariant

  // ---- where a step stands ----

  /** Step k stands in a block of this height and median time. */
  ghost predicate InBlock(steps: seq<Step>, k: nat, height: int, mtp: int)
    requires k <= |steps|
  {
    exists b :: 0 <= b < k && Opens(steps, b, k, height, mtp)
  }

  ghost predicate Opens(steps: seq<Step>, b: nat, k: nat, height: int, mtp: int)
    requires b < k <= |steps|
  {
    && steps[b].BeginBlock? && steps[b].height == height && steps[b].mtp == mtp
    && forall i :: b < i < k ==> !steps[i].BeginBlock?
  }

  /** Step k stands in this transaction. */
  ghost predicate InTx(steps: seq<Step>, k: nat, tx: FoldTx)
    requires k <= |steps|
  {
    exists t :: 0 <= t < k && OpensTx(steps, t, k, tx)
  }

  ghost predicate OpensTx(steps: seq<Step>, t: nat, k: nat, tx: FoldTx)
    requires t < k <= |steps|
  {
    steps[t] == BeginTx(tx) && forall i :: t < i < k ==> steps[i].Act?
  }

  /** What the machine remembers of its place is where the step stands. */
  ghost predicate Placed(steps: seq<Step>, k: nat, c: Config)
    requires k <= |steps|
  {
    && InBlock(steps, k, c.height, c.mtp)
    && (c.actor.ok ==> InTx(steps, k, c.tx) && exists i :: 0 <= i < |c.tx.inputs| && c.tx.inputs[i] == c.actor)
    && (InTx(steps, k, c.tx) || c.tx == NO_TX)
  }

  lemma {:induction false} PlaceOfStep(p: Params, steps: seq<Step>, k: nat)
    requires 0 < k <= |steps| && steps[0].BeginBlock?
    ensures Placed(steps, k, Exec(p, steps[..k]))
  {
    var j := k - 1;
    assert steps[..k][..j] == steps[..j];
    var c, d := Exec(p, steps[..j]), Exec(p, steps[..k]);
    assert d == Next(p, c, steps[j]);
    if steps[j].BeginBlock? {
      assert Opens(steps, j, k, d.height, d.mtp);
    } else {
      PlaceOfStep(p, steps, j);
      var b :| 0 <= b < j && Opens(steps, b, j, c.height, c.mtp);
      DispatchKeepsPlace(p, c, steps[j]);
      assert Opens(steps, b, k, c.height, c.mtp);
      PlaceInTx(p, steps, j);
    }
  }

  lemma DispatchKeepsPlace(p: Params, c: Config, step: Step)
    requires !step.BeginBlock?
    ensures Next(p, c, step).height == c.height && Next(p, c, step).mtp == c.mtp
  {
  }

  /** The acting identity is one of the transaction's inputs. */
  lemma ActorIsInput(p: Params, c: Config, fc: FoldCarrier)
    requires c.actor.ok ==> exists i :: 0 <= i < |c.tx.inputs| && c.tx.inputs[i] == c.actor
    ensures var d := Next(p, c, Act(fc));
      d.tx == c.tx && (d.actor.ok ==> exists i :: 0 <= i < |d.tx.inputs| && d.tx.inputs[i] == d.actor)
  {
    if fc.c.As? && 0 <= fc.c.index < |c.tx.inputs| { assert c.tx.inputs[fc.c.index] == c.tx.inputs[fc.c.index]; }
  }

  lemma PlaceInTx(p: Params, steps: seq<Step>, j: nat)
    requires 0 < j < |steps| && steps[0].BeginBlock? && !steps[j].BeginBlock?
    requires Placed(steps, j, Exec(p, steps[..j]))
    ensures var d := Next(p, Exec(p, steps[..j]), steps[j]);
      && (d.actor.ok ==> InTx(steps, j + 1, d.tx) && exists i :: 0 <= i < |d.tx.inputs| && d.tx.inputs[i] == d.actor)
      && (InTx(steps, j + 1, d.tx) || d.tx == NO_TX)
  {
    var c := Exec(p, steps[..j]);
    match steps[j]
    case BeginTx(tx) =>
      assert OpensTx(steps, j, j + 1, tx);
      if |tx.inputs| > 0 { assert tx.inputs[0] == FirstInput(tx); }
    case Act(fc) =>
      ActorIsInput(p, c, fc);
      if InTx(steps, j, c.tx) {
        var t :| 0 <= t < j && OpensTx(steps, t, j, c.tx);
        assert OpensTx(steps, t, j + 1, c.tx);
      }
  }

  lemma BlockIsUnique(steps: seq<Step>, k: nat, h1: int, m1: int, h2: int, m2: int)
    requires k <= |steps| && InBlock(steps, k, h1, m1) && InBlock(steps, k, h2, m2)
    ensures h1 == h2 && m1 == m2
  {
    var a :| 0 <= a < k && Opens(steps, a, k, h1, m1);
    var b :| 0 <= b < k && Opens(steps, b, k, h2, m2);
    assert !(a < b) && !(b < a);
  }

  lemma TxIsUnique(steps: seq<Step>, k: nat, a: FoldTx, b: FoldTx)
    requires k <= |steps| && InTx(steps, k, a) && InTx(steps, k, b)
    ensures a == b
  {
    var s :| 0 <= s < k && OpensTx(steps, s, k, a);
    var t :| 0 <= t < k && OpensTx(steps, t, k, b);
    assert !(s < t) && !(t < s);
  }

  // ---- commit rows are commit steps ----

  /** A place in the chain: block height, median time there, and transaction index. */
  datatype Place = Place(height: int, mtp: int, txIndex: U32)

  /** Step k, in this place, publishes this digest under a verified identity at an active height. */
  ghost predicate Publishes(p: Params, steps: seq<Step>, k: nat, digest: Hash256, at: Place) {
    && k < |steps| && steps[k].Act? && steps[k].fc.c == Commit(digest)
    && InBlock(steps, k, at.height, at.mtp) && at.height >= p.activation
    && (exists tx :: InTx(steps, k, tx) && tx.txIndex == at.txIndex)
    && Exec(p, steps[..k]).actor.ok
  }

  ghost predicate Published(p: Params, steps: seq<Step>, digest: Hash256, at: Place) {
    exists k: nat :: Publishes(p, steps, k, digest, at)
  }

  function PlaceOf(cm: CommitRow): Place {
    Place(cm.height, cm.commitTime, cm.txIndex)
  }

  /** Not yet expired at a median time. */
  predicate Fresh(at: Place, mtp: int) {
    mtp <= at.mtp + COMMIT_EXPIRY
  }

  lemma PublishesLocal(p: Params, steps: seq<Step>, more: seq<Step>, k: nat, digest: Hash256, at: Place)
    requires k < |steps|
    ensures Publishes(p, steps, k, digest, at) <==> Publishes(p, steps + more, k, digest, at)
  {
    var all := steps + more;
    assert all[..k] == steps[..k];
    assert forall i :: 0 <= i < |steps| ==> all[i] == steps[i];
    InBlockLocal(steps, all, k, at.height, at.mtp);
    forall tx ensures InTx(steps, k, tx) <==> InTx(all, k, tx) { InTxLocal(steps, all, k, tx); }
  }

  lemma InBlockLocal(steps: seq<Step>, all: seq<Step>, k: nat, height: int, mtp: int)
    requires k <= |steps| <= |all| && forall i :: 0 <= i < |steps| ==> all[i] == steps[i]
    ensures InBlock(steps, k, height, mtp) <==> InBlock(all, k, height, mtp)
  {
    if b :| 0 <= b < k && Opens(steps, b, k, height, mtp) { assert Opens(all, b, k, height, mtp); }
    if b :| 0 <= b < k && Opens(all, b, k, height, mtp) { assert Opens(steps, b, k, height, mtp); }
  }

  lemma InTxLocal(steps: seq<Step>, all: seq<Step>, k: nat, tx: FoldTx)
    requires k <= |steps| <= |all| && forall i :: 0 <= i < |steps| ==> all[i] == steps[i]
    ensures InTx(steps, k, tx) <==> InTx(all, k, tx)
  {
    if t :| 0 <= t < k && OpensTx(steps, t, k, tx) { assert OpensTx(all, t, k, tx); }
    if t :| 0 <= t < k && OpensTx(all, t, k, tx) { assert OpensTx(steps, t, k, tx); }
  }

  /** Adding a step adds what it publishes itself. */
  lemma PublishedNext(p: Params, steps: seq<Step>, step: Step, digest: Hash256, at: Place)
    ensures Published(p, steps + [step], digest, at)
       <==> Published(p, steps, digest, at) || Publishes(p, steps + [step], |steps|, digest, at)
  {
    if k: nat :| Publishes(p, steps, k, digest, at) { PublishesLocal(p, steps, [step], k, digest, at); }
    if k: nat :| Publishes(p, steps + [step], k, digest, at) {
      if k < |steps| { PublishesLocal(p, steps, [step], k, digest, at); }
    }
  }

  /** What a step does to the commit list. */
  lemma CommitsNext(p: Params, c: Config, step: Step, cm: CommitRow)
    ensures cm in Next(p, c, step).st.commits <==>
      match step
      case BeginBlock(_, mtp, _) => cm in c.st.commits && mtp <= cm.commitTime + COMMIT_EXPIRY
      case BeginTx(_) => cm in c.st.commits
      case Act(fc) =>
        || cm in c.st.commits
        || (c.actor.ok && c.height >= p.activation && fc.c.Commit?
            && cm == CommitRow(fc.c.commitment, c.height, c.tx.txIndex, c.mtp))
  {
    match step
    case BeginBlock(_, mtp, _) => PruneKeepsLive(c.st.commits, mtp);
    case BeginTx(_) =>
    case Act(fc) => ActionCommits(p, c, fc);
  }

  lemma ActionCommits(p: Params, c: Config, fc: FoldCarrier)
    ensures var t := Dispatch(p, c, fc).st.commits;
      if c.actor.ok && c.height >= p.activation && fc.c.Commit?
      then t == c.st.commits + [CommitRow(fc.c.commitment, c.height, c.tx.txIndex, c.mtp)]
      else t == c.st.commits
  {
  }

  /** Once a commit was published no later block is earlier. */
  lemma LaterBlockIsLater(p: Params, steps: seq<Step>, step: Step, digest: Hash256, at: Place)
    requires ValidRun(p, steps + [step]) && step.BeginBlock? && Published(p, steps, digest, at)
    ensures Exec(p, steps).mtp <= step.mtp && at.height < step.height
  {
    var all := steps + [step];
    ValidPrefix(p, all, |steps|);
    assert all[..|steps|] == steps && all[|steps|] == step && all[0] == steps[0];
    var k: nat :| Publishes(p, steps, k, digest, at);
    var b :| 0 <= b < k && Opens(steps, b, k, at.height, at.mtp);
    var j := LatestExists(steps);
    LatestBlock(p, steps, j);
    assert all[j] == steps[j] && all[b] == steps[b] && b <= j;
  }

  lemma ActPublishes(p: Params, steps: seq<Step>, step: Step, cm: CommitRow)
    requires steps != [] && steps[0].BeginBlock? && step.Act?
    ensures var c := Exec(p, steps);
      Publishes(p, steps + [step], |steps|, cm.commitment, PlaceOf(cm)) <==>
        && c.actor.ok && c.height >= p.activation && step.fc.c.Commit?
        && cm == CommitRow(step.fc.c.commitment, c.height, c.tx.txIndex, c.mtp)
  {
    var all, k, c, at := steps + [step], |steps|, Exec(p, steps), PlaceOf(cm);
    assert all[..k] == steps && steps[..k] == steps;
    PlaceOfStep(p, steps, k);
    InBlockLocal(steps, all, k, c.height, c.mtp);
    InTxLocal(steps, all, k, c.tx);
    if InBlock(all, k, at.height, at.mtp) { BlockIsUnique(all, k, at.height, at.mtp, c.height, c.mtp); }
    if c.actor.ok {
      forall tx | InTx(all, k, tx) ensures tx == c.tx { TxIsUnique(all, k, tx, c.tx); }
    }
  }

  /**
   The commit list of a reachable state is exactly what was published and has not expired: each row stands for a commit
   step with that digest in a block of that height and median time, inside the transaction of that index.
   */
  lemma {:induction false} CommitRowsArePublished(p: Params, steps: seq<Step>, cm: CommitRow)
    requires ValidRun(p, steps)
    ensures cm in Exec(p, steps).st.commits
       <==> Published(p, steps, cm.commitment, PlaceOf(cm)) && Fresh(PlaceOf(cm), Exec(p, steps).mtp)
  {
    if steps != [] {
      var rest, step := steps[..|steps| - 1], steps[|steps| - 1];
      assert steps == rest + [step];
      ValidPrefix(p, steps, |rest|);
      CommitRowsArePublished(p, rest, cm);
      RowNext(p, rest, step, cm);
    }
  }

  lemma RowNext(p: Params, rest: seq<Step>, step: Step, cm: CommitRow)
    requires ValidRun(p, rest + [step])
    requires cm in Exec(p, rest).st.commits
        <==> Published(p, rest, cm.commitment, PlaceOf(cm)) && Fresh(PlaceOf(cm), Exec(p, rest).mtp)
    ensures cm in Exec(p, rest + [step]).st.commits
       <==> Published(p, rest + [step], cm.commitment, PlaceOf(cm)) && Fresh(PlaceOf(cm), Exec(p, rest + [step]).mtp)
  {
    var at := PlaceOf(cm);
    assert (rest + [step])[..|rest|] == rest && (rest + [step])[|rest|] == step;
    CommitsNext(p, Exec(p, rest), step, cm);
    PublishedNext(p, rest, step, cm.commitment, at);
    if step.BeginBlock? {
      if Published(p, rest, cm.commitment, at) { LaterBlockIsLater(p, rest, step, cm.commitment, at); }
    } else {
      assert rest != [] by { assert (rest + [step])[0].BeginBlock?; }
      assert rest[0] == (rest + [step])[0];
      DispatchKeepsPlace(p, Exec(p, rest), step);
      if step.Act? { ActPublishes(p, rest, step, cm); }
    }
  }
}
