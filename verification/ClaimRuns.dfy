/**
 Claims over whole runs, in terms of published commits: what a claim that changes an owner
 rests on, and who ends a block with a contested name.
 */
module ClaimRuns {
  import opened Primitives
  import opened NameOrder
  import opened Protocol
  import opened Lease
  import opened Fold
  import opened FoldInvariant
  import opened ClaimPriority
  import opened CommitSteps

  // ---- what a claim opens ----

  /** The digest is the hash of salt, name and claimant, one after the other. */
  ghost predicate Binds(sha: Bytes -> Hash256, digest: Hash256, salt: Hash256, n: Name, claimant: Hash160) {
    exists x: Bytes :: IsClaimText(x, salt, n, claimant) && digest == sha(x)
  }

  predicate IsClaimText(x: Bytes, salt: Hash256, n: Name, claimant: Hash160) {
    |x| == 52 + |n| && x[..32] == salt && x[32..32 + |n|] == n && x[32 + |n|..] == claimant
  }

  lemma BindsIsCommitment(sha: Bytes -> Hash256, digest: Hash256, salt: Hash256, n: Name, claimant: Hash160)
    ensures Binds(sha, digest, salt, n, claimant) <==> digest == Commitment(sha, salt, n, claimant)
  {
    var text: Bytes := salt + n + claimant;
    assert IsClaimText(text, salt, n, claimant);
    forall x: Bytes | IsClaimText(x, salt, n, claimant) ensures x == text {
      assert x == x[..32] + x[32..32 + |n|] + x[32 + |n|..];
    }
  }

  /** In these steps a digest for this claim was published here, in an earlier block than h, and has not expired. */
  ghost predicate Backing(p: Params, steps: seq<Step>, salt: Hash256, n: Name, claimant: Hash160,
                          h: int, mtp: int, at: Place) {
    at.height < h && Fresh(at, mtp)
    && exists digest :: Published(p, steps, digest, at) && Binds(p.sha, digest, salt, n, claimant)
  }

  /** A backing published no later than any other. */
  ghost predicate FirstBacking(p: Params, steps: seq<Step>, salt: Hash256, n: Name, claimant: Hash160,
                               h: int, mtp: int, at: Place) {
    && Backing(p, steps, salt, n, claimant, h, mtp, at)
    && forall o :: Backing(p, steps, salt, n, claimant, h, mtp, o) ==> !Earlier(o, at)
  }

  predicate Earlier(a: Place, b: Place) {
    a.height < b.height || (a.height == b.height && a.txIndex < b.txIndex)
  }

  ghost predicate HasRow(commits: seq<CommitRow>, want: Hash256, height: int, at: Place) {
    exists i :: 0 <= i < |commits| && Backs(commits[i], want, height) && PlaceOf(commits[i]) == at
  }

  ghost predicate FirstRow(commits: seq<CommitRow>, want: Hash256, height: int, at: Place) {
    HasRow(commits, want, height, at) && forall o :: HasRow(commits, want, height, o) ==> !Earlier(o, at)
  }

  /** The best commit of a list stands in its first backing place. */
  lemma BestIsFirstRow(commits: seq<CommitRow>, want: Hash256, height: int)
    ensures var best := BestCommit(commits, want, height);
      && (best.None? ==> forall at :: !HasRow(commits, want, height, at))
      && (best.Some? ==> exists at :: FirstRow(commits, want, height, at))
      && (forall at :: FirstRow(commits, want, height, at) ==> best == Some(Priority(at.height, at.txIndex)))
  {
    BestCommitIsLeast(commits, want, height);
    var best := BestCommit(commits, want, height);
    if best.Some? {
      var i :| 0 <= i < |commits| && Backs(commits[i], want, height)
               && best.value == Priority(commits[i].height, commits[i].txIndex);
      assert FirstRow(commits, want, height, PlaceOf(commits[i]));
    }
  }

  lemma BackingIsRow(p: Params, steps: seq<Step>, salt: Hash256, n: Name, claimant: Hash160, h: int, at: Place)
    requires ValidRun(p, steps)
    ensures var c := Exec(p, steps);
      Backing(p, steps, salt, n, claimant, h, c.mtp, at)
      <==> HasRow(c.st.commits, Commitment(p.sha, salt, n, claimant), h, at)
  {
    var c, want := Exec(p, steps), Commitment(p.sha, salt, n, claimant);
    var row := CommitRow(want, at.height, at.txIndex, at.mtp);
    CommitRowsArePublished(p, steps, row);
    BindsIsCommitment(p.sha, want, salt, n, claimant);
    if Backing(p, steps, salt, n, claimant, h, c.mtp, at) {
      var digest :| Published(p, steps, digest, at) && Binds(p.sha, digest, salt, n, claimant);
      BindsIsCommitment(p.sha, digest, salt, n, claimant);
      var i :| 0 <= i < |c.st.commits| && c.st.commits[i] == row;
    }
    if HasRow(c.st.commits, want, h, at) {
      var i :| 0 <= i < |c.st.commits| && Backs(c.st.commits[i], want, h) && PlaceOf(c.st.commits[i]) == at;
      assert c.st.commits[i] == row;
    }
  }

  /** The best commit of a state is the first published backing. */
  lemma BestIsFirst(p: Params, steps: seq<Step>, salt: Hash256, n: Name, claimant: Hash160, h: int)
    requires ValidRun(p, steps)
    ensures var c := Exec(p, steps);
      var best := BestCommit(c.st.commits, Commitment(p.sha, salt, n, claimant), h);
      && (best.Some? <==> exists at :: Backing(p, steps, salt, n, claimant, h, c.mtp, at))
      && (best.Some? <==> exists at :: FirstBacking(p, steps, salt, n, claimant, h, c.mtp, at))
      && forall at :: FirstBacking(p, steps, salt, n, claimant, h, c.mtp, at)
                      ==> best == Some(Priority(at.height, at.txIndex))
  {
    var c, want := Exec(p, steps), Commitment(p.sha, salt, n, claimant);
    forall at ensures Backing(p, steps, salt, n, claimant, h, c.mtp, at) <==> HasRow(c.st.commits, want, h, at) {
      BackingIsRow(p, steps, salt, n, claimant, h, at);
    }
    forall at ensures FirstBacking(p, steps, salt, n, claimant, h, c.mtp, at) <==> FirstRow(c.st.commits, want, h, at) {
    }
    BestIsFirstRow(c.st.commits, want, h);
  }

  // ---- days a burn buys ----

  /** The whole days the burn pays for at a price of rate per quantum, at most a year. */
  ghost predicate Buys(burn: U64, rate: U64, days: nat) {
    exists t: nat :: PaysFor(burn, rate, t) && days == Min(t, 365)
  }

  predicate PaysFor(burn: U64, rate: U64, t: nat) {
    if rate == 0 then t == 0
    else t * (rate * BILLING_UNIT) <= burn * LEASE_QUANTUM < (t + 1) * (rate * BILLING_UNIT)
  }

  lemma SingleBuys(burn: U64, rate: U64, mtp: int)
    requires rate * BILLING_UNIT < TWO_TO_THE_64
    ensures Buys(burn, rate, LeaseDaysSingle(burn, rate, mtp, mtp))
  {
    SingleIsCapped(burn, rate, mtp, mtp);
    DaysAreFloor(burn, rate);
    assert PaysFor(burn, rate, TotalNameDays(burn, rate));
  }

  // ---- a claim that changes an owner ----

  lemma ClaimOnState(s: State, height: int, mtp: int, rate: U64, value: U64, want: Hash256, name: Name,
                     actor: Hash160, m: Name)
    requires OwnerOf(ApplyClaim(s, height, mtp, rate, value, want, name, actor).names, m) != OwnerOf(s.names, m)
    ensures m == name && BestCommit(s.commits, want, height).Some? && LeaseDaysSingle(value, rate, mtp, mtp) > 0
    ensures var t := ApplyClaim(s, height, mtp, rate, value, want, name, actor);
      m in t.names && t.names[m].owner == actor && t.names[m].st == Owned
      && t.names[m].leaseExpiry == mtp + LeaseDaysSingle(value, rate, mtp, mtp) * BILLING_UNIT
  {
  }

  lemma ClaimChangesOwner(p: Params, c: Config, fc: FoldCarrier, m: Name)
    requires fc.c.Claim? && c.rate * BILLING_UNIT < TWO_TO_THE_64
    requires OwnerOf(Next(p, c, Act(fc)).st.names, m) != OwnerOf(c.st.names, m)
    ensures m == fc.c.name && c.actor.ok && c.height >= p.activation
    ensures BestCommit(c.st.commits, Commitment(p.sha, fc.c.salt, m, c.actor.h160), c.height).Some?
    ensures Bought(c, Next(p, c, Act(fc)).st.names, m, fc.value)
  {
    ActClaims(p, c, fc);
    var want := Commitment(p.sha, fc.c.salt, fc.c.name, c.actor.h160);
    ClaimOnState(c.st, c.height, c.mtp, c.rate, fc.value, want, fc.c.name, c.actor.h160, m);
    SingleBuys(fc.value, c.rate, c.mtp);
  }

  /** The claimant holds the name, unlocked, for the positive number of days its burn buys. */
  ghost predicate Bought(c: Config, names: map<Name, NameRow>, m: Name, burn: U64) {
    && m in names && names[m].owner == c.actor.h160 && names[m].st == Owned
    && exists days: nat :: Buys(burn, c.rate, days) && days > 0 && names[m].leaseExpiry == c.mtp + days * BILLING_UNIT
  }

  /**
   A claim step that changes who owns a name changes that name's owner to the claimant, for the days its burn buys, and
   rests on a commit published in an earlier block, still fresh, whose digest binds salt, name and claimant.
   */
  lemma ClaimRestsOnCommit(p: Params, steps: seq<Step>, fc: FoldCarrier, m: Name)
    requires ValidRun(p, steps) && fc.c.Claim? && Exec(p, steps).rate * BILLING_UNIT < TWO_TO_THE_64
    requires var c := Exec(p, steps); OwnerOf(Next(p, c, Act(fc)).st.names, m) != OwnerOf(c.st.names, m)
    ensures var c := Exec(p, steps);
      && m == fc.c.name && c.actor.ok && c.height >= p.activation
      && Bought(c, Next(p, c, Act(fc)).st.names, m, fc.value)
      && exists at :: Backing(p, steps, fc.c.salt, m, c.actor.h160, c.height, c.mtp, at)
  {
    var c := Exec(p, steps);
    ClaimChangesOwner(p, c, fc, m);
    BestIsFirst(p, steps, fc.c.salt, m, c.actor.h160, c.height);
  }

  /** What a claim leaves: the row of the winner, who is stamped and remembered with the place of its commit. */
  ghost function Minted(c: Config, n: Name, days: nat, at: Place): State {
    State(c.st.names[n := Plain(c.actor.h160, c.mtp + days * BILLING_UNIT)], c.st.commits,
          c.st.muts[c.actor.h160 := c.height],
          c.st.scratch[n := ClaimScratch(Priority(at.height, at.txIndex), c.actor.h160)])
  }

  /** The name is free, or was minted in this block on a later commit and is still the claimant's, unlocked. */
  ghost predicate Open(s: State, n: Name, at: Place) {
    n in s.names ==>
      && n in s.scratch && s.names[n].st == Owned && s.names[n].owner == s.scratch[n].owner
      && (at.height < s.scratch[n].priority.height
          || (at.height == s.scratch[n].priority.height && at.txIndex < s.scratch[n].priority.txIndex))
  }

  lemma ClaimOnOpenName(s: State, c: Config, value: U64, want: Hash256, n: Name, at: Place)
    requires Inv(c) && s == c.st && BestCommit(s.commits, want, c.height) == Some(Priority(at.height, at.txIndex))
    requires LeaseDaysSingle(value, c.rate, c.mtp, c.mtp) > 0
    ensures ApplyClaim(s, c.height, c.mtp, c.rate, value, want, n, c.actor.h160)
         == if Open(s, n, at) then Minted(c, n, LeaseDaysSingle(value, c.rate, c.mtp, c.mtp), at) else s
  {
    assert n in s.names ==> RowOk(s.names[n], c.mtp);
    assert BumpMut(s.muts, c.actor.h160, c.height) == s.muts[c.actor.h160 := c.height];
  }

  /** A claim does exactly this with its first backing and the days it buys. */
  lemma ClaimMintsOnFirstBacking(p: Params, steps: seq<Step>, fc: FoldCarrier, at: Place, days: nat)
    requires ValidRun(p, steps) && fc.c.Claim? && Acting(p, Exec(p, steps))
    requires Exec(p, steps).rate * BILLING_UNIT < TWO_TO_THE_64 && Buys(fc.value, Exec(p, steps).rate, days)
    requires var c := Exec(p, steps);
      FirstBacking(p, steps, fc.c.salt, fc.c.name, c.actor.h160, c.height, c.mtp, at)
    ensures var c := Exec(p, steps);
      Next(p, c, Act(fc)).st == if days > 0 && Open(c.st, fc.c.name, at) then Minted(c, fc.c.name, days, at) else c.st
  {
    var c, n := Exec(p, steps), fc.c.name;
    RunOk(p, steps);
    ActClaims(p, c, fc);
    SingleBuys(fc.value, c.rate, c.mtp);
    BuysIsUnique(fc.value, c.rate, days, LeaseDaysSingle(fc.value, c.rate, c.mtp, c.mtp));
    BestIsFirst(p, steps, fc.c.salt, n, c.actor.h160, c.height);
    if days > 0 { ClaimOnOpenName(c.st, c, fc.value, Commitment(p.sha, fc.c.salt, n, c.actor.h160), n, at); }
  }

  /** Without a backing it does nothing. */
  lemma UnbackedClaimDoesNothing(p: Params, steps: seq<Step>, fc: FoldCarrier)
    requires ValidRun(p, steps) && fc.c.Claim?
    requires var c := Exec(p, steps);
      forall at :: !Backing(p, steps, fc.c.salt, fc.c.name, c.actor.h160, c.height, c.mtp, at)
    ensures Next(p, Exec(p, steps), Act(fc)).st == Exec(p, steps).st
  {
    var c := Exec(p, steps);
    ActClaims(p, c, fc);
    BestIsFirst(p, steps, fc.c.salt, fc.c.name, c.actor.h160, c.height);
  }

  /** A backed claim has a first backing, and every burn buys some number of days. */
  lemma ClaimIsDecided(p: Params, steps: seq<Step>, fc: FoldCarrier)
    requires ValidRun(p, steps) && fc.c.Claim? && Exec(p, steps).rate * BILLING_UNIT < TWO_TO_THE_64
    ensures var c := Exec(p, steps);
      && ((exists at :: Backing(p, steps, fc.c.salt, fc.c.name, c.actor.h160, c.height, c.mtp, at))
          ==> exists at :: FirstBacking(p, steps, fc.c.salt, fc.c.name, c.actor.h160, c.height, c.mtp, at))
      && (exists days: nat :: Buys(fc.value, c.rate, days))
  {
    var c := Exec(p, steps);
    BestIsFirst(p, steps, fc.c.salt, fc.c.name, c.actor.h160, c.height);
    SingleBuys(fc.value, c.rate, c.mtp);
  }

  lemma ActClaims(p: Params, c: Config, fc: FoldCarrier)
    requires fc.c.Claim?
    ensures Next(p, c, Act(fc)).st == if !c.actor.ok || c.height < p.activation then c.st
      else ApplyClaim(c.st, c.height, c.mtp, c.rate, fc.value,
                      Commitment(p.sha, fc.c.salt, fc.c.name, c.actor.h160), fc.c.name, c.actor.h160)
  {
  }

  // ---- the claims of a block ----

  /** What backs the claim at position k of the block that begins after these steps. */
  ghost predicate BackedAt(p: Params, upto: seq<Step>, acts: seq<Step>, n: Name, k: nat, at: Place)
    requires k < |acts| && ClaimsName(acts[k], n)
  {
    var c0 := Exec(p, upto);
    Backing(p, upto, acts[k].fc.c.salt, n, Run(p, c0, acts[..k]).actor.h160, c0.height, c0.mtp, at)
  }

  ghost predicate FirstAt(p: Params, upto: seq<Step>, acts: seq<Step>, n: Name, k: nat, at: Place)
    requires k < |acts| && ClaimsName(acts[k], n)
  {
    var c0 := Exec(p, upto);
    FirstBacking(p, upto, acts[k].fc.c.salt, n, Run(p, c0, acts[..k]).actor.h160, c0.height, c0.mtp, at)
  }

  /** A claim of n that counts: verified, active, paid for at least a day, and backed. */
  ghost predicate Contends(p: Params, upto: seq<Step>, acts: seq<Step>, n: Name, k: nat) {
    && k < |acts| && ClaimsName(acts[k], n)
    && Run(p, Exec(p, upto), acts[..k]).actor.ok && Exec(p, upto).height >= p.activation
    && (exists days: nat :: Buys(acts[k].fc.value, Exec(p, upto).rate, days) && days > 0)
    && exists at :: BackedAt(p, upto, acts, n, k, at)
  }

  /** What backs claim w was published before what backs claim k, or in the same place and w stands no later. */
  ghost predicate YieldsTo(p: Params, upto: seq<Step>, acts: seq<Step>, n: Name, k: nat, w: nat)
    requires k < |acts| && ClaimsName(acts[k], n) && w < |acts| && ClaimsName(acts[w], n)
  {
    forall a, b :: FirstAt(p, upto, acts, n, w, a) && FirstAt(p, upto, acts, n, k, b) ==>
      if k < w then Earlier(a, b) else !Earlier(b, a)
  }

  /** The claim counts and every claim that counts yields to it. */
  ghost predicate Prevails(p: Params, upto: seq<Step>, acts: seq<Step>, n: Name, w: nat) {
    Contends(p, upto, acts, n, w) && forall k: nat :: Contends(p, upto, acts, n, k) ==> YieldsTo(p, upto, acts, n, k, w)
  }

  lemma BuysIsUnique(burn: U64, rate: U64, a: nat, b: nat)
    requires Buys(burn, rate, a) && Buys(burn, rate, b)
    ensures a == b
  {
    var s: nat :| PaysFor(burn, rate, s) && a == Min(s, 365);
    var t: nat :| PaysFor(burn, rate, t) && b == Min(t, 365);
    if rate > 0 { FloorIsUnique(burn * LEASE_QUANTUM, rate * BILLING_UNIT, s, t); }
  }

  lemma FloorIsUnique(n: nat, d: nat, s: nat, t: nat)
    requires d > 0 && s * d <= n < (s + 1) * d && t * d <= n < (t + 1) * d
    ensures s == t
  {
    NotAbove(n, d, s, t);
    NotAbove(n, d, t, s);
  }

  lemma TimesMono(a: nat, b: nat, d: nat)
    requires a <= b
    ensures a * d <= b * d
  {
  }

  lemma NotAbove(n: nat, d: nat, s: nat, t: nat)
    requires d > 0 && n < (s + 1) * d && t * d <= n
    ensures t <= s
  {
    if t > s { TimesMono(s + 1, t, d); }
  }

  lemma PaidDays(c0: Config, step: Step)
    requires step.Act? && c0.rate * BILLING_UNIT < TWO_TO_THE_64
    ensures Buys(step.fc.value, c0.rate, ClaimDays(c0, step))
    ensures ClaimDays(c0, step) > 0 <==> exists days: nat :: Buys(step.fc.value, c0.rate, days) && days > 0
  {
    SingleBuys(step.fc.value, c0.rate, c0.mtp);
    if days: nat :| Buys(step.fc.value, c0.rate, days) && days > 0 {
      BuysIsUnique(step.fc.value, c0.rate, days, ClaimDays(c0, step));
    }
  }

  lemma BestAt(p: Params, upto: seq<Step>, acts: seq<Step>, n: Name, k: nat)
    requires ValidRun(p, upto) && k < |acts| && ClaimsName(acts[k], n)
    ensures var best := BestCommit(Exec(p, upto).st.commits, WantedAt(p, upto, acts, n, k), Exec(p, upto).height);
      && (best.Some? <==> exists at :: BackedAt(p, upto, acts, n, k, at))
      && forall at :: FirstAt(p, upto, acts, n, k, at) ==> best == Some(Priority(at.height, at.txIndex))
  {
    var c0 := Exec(p, upto);
    var salt, author := acts[k].fc.c.salt, Run(p, c0, acts[..k]).actor.h160;
    BestIsFirst(p, upto, salt, n, author, c0.height);
    forall at ensures BackedAt(p, upto, acts, n, k, at)
      <==> Backing(p, upto, salt, n, author, c0.height, c0.mtp, at)
    {
    }
  }

  ghost function WantedAt(p: Params, upto: seq<Step>, acts: seq<Step>, n: Name, k: nat): Hash256
    requires k < |acts| && ClaimsName(acts[k], n)
  {
    Commitment(p.sha, acts[k].fc.c.salt, n, Run(p, Exec(p, upto), acts[..k]).actor.h160)
  }

  /** The standing of a claim is that of its first backing, and it has one exactly when it counts. */
  lemma StandingContends(p: Params, upto: seq<Step>, acts: seq<Step>, n: Name, k: nat)
    requires ValidRun(p, upto) && k < |acts| && Exec(p, upto).rate * BILLING_UNIT < TWO_TO_THE_64
    ensures var st := Standing(p, Exec(p, upto), acts, n, k);
      && (st.Some? <==> Contends(p, upto, acts, n, k))
      && (st.Some? ==> forall at :: FirstAt(p, upto, acts, n, k, at)
                                    ==> st.value == Priority(at.height, at.txIndex))
  {
    if ClaimsName(acts[k], n) {
      PaidDays(Exec(p, upto), acts[k]);
      BestAt(p, upto, acts, n, k);
    }
  }

  lemma FirstIsStanding(p: Params, upto: seq<Step>, acts: seq<Step>, n: Name, k: nat, at: Place)
    requires ValidRun(p, upto) && Exec(p, upto).rate * BILLING_UNIT < TWO_TO_THE_64
    requires Contends(p, upto, acts, n, k) && FirstAt(p, upto, acts, n, k, at)
    ensures Standings(p, Exec(p, upto), acts, n)[k] == Some(Priority(at.height, at.txIndex))
  {
    StandingContends(p, upto, acts, n, k);
  }

  lemma WinnerBeats(p: Params, upto: seq<Step>, acts: seq<Step>, n: Name, w: nat, k: nat, a: Place, b: Place)
    requires ValidRun(p, upto) && Exec(p, upto).rate * BILLING_UNIT < TWO_TO_THE_64
    requires Contends(p, upto, acts, n, w) && FirstAt(p, upto, acts, n, w, a)
    requires Contends(p, upto, acts, n, k) && FirstAt(p, upto, acts, n, k, b)
    requires Wins(Standings(p, Exec(p, upto), acts, n), w, |acts|)
    ensures if k < w then Earlier(a, b) else !Earlier(b, a)
  {
    FirstIsStanding(p, upto, acts, n, w, a);
    FirstIsStanding(p, upto, acts, n, k, b);
    assert Standings(p, Exec(p, upto), acts, n)[k].Some?;
  }

  lemma WinnerPrevails(p: Params, upto: seq<Step>, acts: seq<Step>, n: Name, w: nat)
    requires ValidRun(p, upto) && Exec(p, upto).rate * BILLING_UNIT < TWO_TO_THE_64
    requires Wins(Standings(p, Exec(p, upto), acts, n), w, |acts|)
    ensures Prevails(p, upto, acts, n, w)
  {
    var st := Standings(p, Exec(p, upto), acts, n);
    StandingContends(p, upto, acts, n, w);
    assert st[w].Some?;
    forall k: nat | Contends(p, upto, acts, n, k) ensures YieldsTo(p, upto, acts, n, k, w) {
      forall a, b | FirstAt(p, upto, acts, n, w, a) && FirstAt(p, upto, acts, n, k, b)
        ensures if k < w then Earlier(a, b) else !Earlier(b, a)
      {
        WinnerBeats(p, upto, acts, n, w, k, a, b);
      }
    }
  }

  /** The author of claim w holds n, unlocked, for the days its own burn bought. */
  ghost predicate HasWon(p: Params, upto: seq<Step>, acts: seq<Step>, n: Name, w: nat)
    requires w < |acts| && acts[w].Act?
  {
    var c0 := Exec(p, upto);
    var names := Run(p, c0, acts).st.names;
    && n in names && names[n].st == Owned && names[n].owner == Run(p, c0, acts[..w]).actor.h160
    && exists days: nat :: Buys(acts[w].fc.value, c0.rate, days)
                           && names[n].leaseExpiry == c0.mtp + days * BILLING_UNIT
  }

  lemma WinnerHasWon(p: Params, upto: seq<Step>, acts: seq<Step>, n: Name, w: nat)
    requires w < |acts| && acts[w].Act? && Exec(p, upto).rate * BILLING_UNIT < TWO_TO_THE_64
    requires RowAt(Run(p, Exec(p, upto), acts).st.names, n) == Some(WinningRow(p, Exec(p, upto), acts, w))
    ensures HasWon(p, upto, acts, n, w)
  {
    PaidDays(Exec(p, upto), acts[w]);
  }

  lemma NoneStands(p: Params, upto: seq<Step>, acts: seq<Step>, n: Name)
    requires ValidRun(p, upto) && Exec(p, upto).rate * BILLING_UNIT < TWO_TO_THE_64
    ensures (forall k :: 0 <= k < |acts| ==> Standings(p, Exec(p, upto), acts, n)[k].None?)
       <==> (forall k: nat :: !Contends(p, upto, acts, n, k))
  {
    forall k | 0 <= k < |acts|
      ensures Standings(p, Exec(p, upto), acts, n)[k].Some? <==> Contends(p, upto, acts, n, k)
    {
      StandingContends(p, upto, acts, n, k);
    }
  }

  /** The outcome by standings, of a block after a run. */
  lemma StandingsDecide(p: Params, before: seq<Step>, begin: Step, acts: seq<Step>, n: Name)
    requires begin.BeginBlock? && Within(acts) && n !in Exec(p, before + [begin]).st.names
    requires TouchedOnlyByClaims(p, Exec(p, before + [begin]), acts, n)
    ensures DecidedByStandings(p, before + [begin], acts, n)
  {
    assert (before + [begin])[..|before|] == before;
    assert Exec(p, before + [begin]) == Next(p, Exec(p, before), begin);
    BestStandingGetsTheName(p, Exec(p, before), begin, acts, n);
  }

  ghost predicate DecidedByStandings(p: Params, upto: seq<Step>, acts: seq<Step>, n: Name) {
    var c0 := Exec(p, upto);
    var st := Standings(p, c0, acts, n);
    if forall k :: 0 <= k < |st| ==> st[k].None? then n !in Run(p, c0, acts).st.names
    else exists w :: Wins(st, w, |acts|) && RowAt(Run(p, c0, acts).st.names, n) == Some(WinningRow(p, c0, acts, w))
  }

  lemma WinnerOfStandings(p: Params, upto: seq<Step>, acts: seq<Step>, n: Name) returns (w: nat)
    requires DecidedByStandings(p, upto, acts, n)
    requires exists k :: 0 <= k < |acts| && Standings(p, Exec(p, upto), acts, n)[k].Some?
    ensures Wins(Standings(p, Exec(p, upto), acts, n), w, |acts|)
    ensures RowAt(Run(p, Exec(p, upto), acts).st.names, n) == Some(WinningRow(p, Exec(p, upto), acts, w))
  {
    w :| Wins(Standings(p, Exec(p, upto), acts, n), w, |acts|)
         && RowAt(Run(p, Exec(p, upto), acts).st.names, n) == Some(WinningRow(p, Exec(p, upto), acts, w));
  }

  lemma Decided(p: Params, upto: seq<Step>, acts: seq<Step>, n: Name)
    requires ValidRun(p, upto) && Exec(p, upto).rate * BILLING_UNIT < TWO_TO_THE_64
    requires DecidedByStandings(p, upto, acts, n)
    ensures if forall k: nat :: !Contends(p, upto, acts, n, k) then n !in Run(p, Exec(p, upto), acts).st.names
      else exists w: nat :: Prevails(p, upto, acts, n, w) && HasWon(p, upto, acts, n, w)
  {
    NoneStands(p, upto, acts, n);
    if exists k: nat :: Contends(p, upto, acts, n, k) {
      var w := WinnerOfStandings(p, upto, acts, n);
      WinnerPrevails(p, upto, acts, n, w);
      WinnerHasWon(p, upto, acts, n, w);
    }
  }

  /**
   Claim priority over runs. A block opens with n unowned and only claims touch n. If a claim counts, the one that
   prevails, by the place where its commit was published, ends the block owning n, unlocked, for the days its own burn
   bought; if none counts, n stays unowned.
   */
  lemma FirstPublishedGetsTheName(p: Params, before: seq<Step>, begin: Step, acts: seq<Step>, n: Name)
    requires ValidRun(p, before + [begin]) && begin.BeginBlock? && Within(acts)
    requires begin.rate * BILLING_UNIT < TWO_TO_THE_64
    requires n !in Exec(p, before + [begin]).st.names
    requires TouchedOnlyByClaims(p, Exec(p, before + [begin]), acts, n)
    ensures var upto := before + [begin];
      if forall k: nat :: !Contends(p, upto, acts, n, k) then n !in Run(p, Exec(p, upto), acts).st.names
      else exists w: nat :: Prevails(p, upto, acts, n, w) && HasWon(p, upto, acts, n, w)
  {
    StandingsDecide(p, before, begin, acts, n);
    assert (before + [begin])[..|before|] == before;
    Decided(p, before + [begin], acts, n);
  }
}
