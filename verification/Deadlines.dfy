/**
 What the beginning of a block does to a row, by the deadlines that have come: a lease that is
 over drops the name, an offer that is over unlocks it, a reservation that is over while its
 offer runs puts back the listing that was reserved, and nothing else changes.
 */
module Deadlines {
  import opened Primitives
  import opened NameOrder
  import opened Protocol
  import opened Lease
  import opened Fold
  import opened FoldInvariant
  import opened PaidInFull
  import opened Market

  /** The row at a later time, deadline by deadline, the lease aside. */
  function RowAfter(r: NameRow, mtp: int): NameRow {
    if r.st != Owned && mtp >= r.offerExpiry then Plain(r.owner, r.leaseExpiry)
    else if r.st == Reserved && mtp >= r.reserveExpiry then
      NameRow(r.owner, Listed, r.leaseExpiry, r.seller, r.sellerType, r.price, r.offerExpiry, ZERO_20, 0, 0, 0)
    else r
  }

  /** As RowOk keeps it. */
  predicate Clamped(r: NameRow) {
    r.st == Reserved ==> r.reserveExpiry <= r.offerExpiry
  }

  lemma AgedIsRowAfter(r: NameRow, mtp: int)
    requires Clamped(r)
    ensures AgeRow(r, mtp) == RowAfter(r, mtp)
  {
  }

  /** The beginning of a block, row by row: names leave exactly with their leases, their owners are stamped. */
  lemma BlockStart(p: Params, c: Config, begin: Step)
    requires begin.BeginBlock? && Inv(c) && MayFollow(c, begin)
    ensures var s, t := c.st, Next(p, c, begin).st;
      && (forall n :: n in t.names <==> n in s.names && begin.mtp < s.names[n].leaseExpiry)
      && (forall n :: n in t.names ==> t.names[n] == RowAfter(s.names[n], begin.mtp))
      && (forall o :: o in t.muts <==> o in s.muts || LosesAName(s, o, begin.mtp))
      && (forall o :: o in t.muts ==> t.muts[o] == if LosesAName(s, o, begin.mtp) then begin.height else s.muts[o])
      && t.scratch == map[]
  {
    var s, t := c.st, Next(p, c, begin).st;
    forall n | n in t.names ensures t.names[n] == RowAfter(s.names[n], begin.mtp) {
      assert RowOk(s.names[n], c.mtp);
      AgedIsRowAfter(s.names[n], begin.mtp);
    }
    forall o ensures o in LapsedOwners(s.names, begin.mtp) <==> LosesAName(s, o, begin.mtp) {
    }
  }

  ghost predicate LosesAName(s: State, o: Hash160, mtp: int) {
    exists n :: n in s.names && s.names[n].owner == o && s.names[n].leaseExpiry <= mtp
  }

  /** Pruning keeps exactly the commits not yet expired, each as often as it stood. */
  lemma {:induction false} PruneKeepsBag(commits: seq<CommitRow>, mtp: int)
    ensures forall cm :: multiset(PruneCommits(commits, mtp))[cm]
                      == if mtp <= cm.commitTime + COMMIT_EXPIRY then multiset(commits)[cm] else 0
  {
    if commits != [] {
      var k := |commits| - 1;
      PruneKeepsBag(commits[..k], mtp);
      assert commits == commits[..k] + [commits[k]];
    }
  }

  // ---- over runs ----

  /** A row stays as it is if and only if none of its deadlines has come. */
  lemma UnchangedIffNothingDue(p: Params, steps: seq<Step>, begin: Step, n: Name)
    requires ValidRun(p, steps + [begin]) && begin.BeginBlock?
    requires n in Exec(p, steps).st.names
    ensures var r, names := Exec(p, steps).st.names[n], Exec(p, steps + [begin]).st.names;
      (n in names && names[n] == r) <==>
        && begin.mtp < r.leaseExpiry
        && (r.st != Owned ==> begin.mtp < r.offerExpiry)
        && (r.st == Reserved ==> begin.mtp < r.reserveExpiry)
  {
    BlockStartOfRun(p, steps, begin);
    assert RowOk(Exec(p, steps).st.names[n], Exec(p, steps).mtp);
  }

  /** A sale whose end has come leaves an unlocked row with owner and lease kept. */
  lemma EndedOfferUnlocks(p: Params, steps: seq<Step>, begin: Step, n: Name)
    requires ValidRun(p, steps + [begin]) && begin.BeginBlock?
    requires n in Exec(p, steps).st.names && Exec(p, steps).st.names[n].st != Owned
    requires Exec(p, steps).st.names[n].offerExpiry <= begin.mtp < Exec(p, steps).st.names[n].leaseExpiry
    ensures var r, names := Exec(p, steps).st.names[n], Exec(p, steps + [begin]).st.names;
      n in names && names[n] == Plain(r.owner, r.leaseExpiry)
  {
    BlockStartOfRun(p, steps, begin);
  }

  /**
   A reservation that ends while its offer still runs puts back exactly the listing that was reserved: the terms after
   the block's start are those before the reserve step the reservation goes back to.
   */
  lemma EndedReservationReopensTheListing(p: Params, steps: seq<Step>, begin: Step, n: Name) returns (i: nat)
    requires ValidRun(p, steps + [begin]) && begin.BeginBlock?
    requires n in Exec(p, steps).st.names && Exec(p, steps).st.names[n].st == Reserved
    requires Exec(p, steps).st.names[n].reserveExpiry <= begin.mtp < Exec(p, steps).st.names[n].offerExpiry
    ensures i < |steps| && steps[i].Act? && steps[i].fc.c == Reserve(n)
    ensures var r := Exec(p, steps).st.names[n];
      && (forall k :: i < k <= |steps| ==> HasTerms(p, steps, k, n, TermsOf(r)))
      && n in Exec(p, steps[..i]).st.names && n in Exec(p, steps + [begin]).st.names
      && var listing, after := Exec(p, steps[..i]).st.names[n], Exec(p, steps + [begin]).st.names[n];
         listing.st == Listed && TermsOf(after) == TermsOf(listing) && after.leaseExpiry == r.leaseExpiry
  {
    BlockStartOfRun(p, steps, begin);
    ValidPrefix(p, steps + [begin], |steps|);
    assert (steps + [begin])[..|steps|] == steps && steps[..|steps|] == steps;
    assert RowOk(Exec(p, steps).st.names[n], Exec(p, steps).mtp);
    i := ReservationHasOrigin(p, steps, |steps|, n);
  }

  lemma BlockStartOfRun(p: Params, steps: seq<Step>, begin: Step)
    requires ValidRun(p, steps + [begin]) && begin.BeginBlock?
    ensures Inv(Exec(p, steps))
    ensures var s, t := Exec(p, steps).st, Exec(p, steps + [begin]).st;
      && (forall n :: n in t.names <==> n in s.names && begin.mtp < s.names[n].leaseExpiry)
      && (forall n :: n in t.names ==> t.names[n] == RowAfter(s.names[n], begin.mtp))
  {
    var all := steps + [begin];
    assert all[..|steps|] == steps && all[..|steps| + 1] == all;
    StepOfRun(p, all, |steps|);
    BlockStart(p, Exec(p, steps), begin);
  }
}
