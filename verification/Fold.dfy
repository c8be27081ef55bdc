/**
 The namespace fold as a state machine over small steps: a block begins, a transaction
 begins, a carrier acts. Every prefix of a run is itself a run, so what is proved of all
 runs holds in the middle of a block as well as at its end.
 */
module Fold {
  import opened Primitives
  import opened NameOrder
  import opened Protocol
  import opened Lease

  // ---- data ----

  datatype Status = Owned | Listed | Offered | Reserved

  datatype NameRow = NameRow(
    owner: Hash160,
    st: Status,
    leaseExpiry: int,
    seller: Hash160,
    sellerType: byte,
    price: U64,
    offerExpiry: int,
    buyer: Hash160,
    burnLeg: U64,
    payLeg: U64,
    reserveExpiry: int)

  datatype CommitRow = CommitRow(commitment: Hash256, height: int, txIndex: U32, commitTime: int)

  /** Priority of a claim: the position of its backing commit. */
  datatype Priority = Priority(height: int, txIndex: U32)

  datatype ClaimScratch = ClaimScratch(priority: Priority, owner: Hash160)

  datatype State = State(
    names: map<Name, NameRow>,
    commits: seq<CommitRow>,
    muts: map<Hash160, int>,
    scratch: map<Name, ClaimScratch>)

  const EMPTY_STATE := State(map[], [], map[], map[])

  datatype Identity = Identity(h160: Hash160, styp: byte, ok: bool)

  const NOBODY := Identity(ZERO_20, 0, false)

  datatype Output = Output(h160: Hash160, styp: byte, value: U64)

  datatype Carrier =
    | Ignore
    | Commit(commitment: Hash256)
    | Claim(salt: Hash256, name: Name)
    | Renew(anchor: Option<int>, flags: Option<Bytes>)
    | Transfer(target: Hash160, anchor: Option<int>, flags: Option<Bytes>)
    | Release(anchorAt: int, bits: Bytes)
    | RenewName(name: Name)
    | TransferName(target: Hash160, name: Name)
    | ReleaseName(name: Name)
    | Sell(price: U64, window: U32, name: Name)
    | SellTo(price: U64, buyer: Hash160, name: Name)
    | Reserve(name: Name)
    | Settle(name: Name)
    | Pay(name: Name)
    | As(index: int)
    | Trade(idxA: int, idxB: int, nameA: Name, nameB: Name)

  /** A carrier with the value of the output it rides in. */
  datatype FoldCarrier = FoldCarrier(c: Carrier, value: U64)

  datatype FoldTx = FoldTx(txIndex: U32, inputs: seq<Identity>, carriers: seq<FoldCarrier>, spend: seq<Output>)

  const NO_TX := FoldTx(0, [], [], [])

  datatype FoldBlock = FoldBlock(height: int, mtp: int, rate: U64, txs: seq<FoldTx>)

  /** The hash function and the activation height a deployment runs with. */
  datatype Params = Params(sha: Bytes -> Hash256, activation: int)

  // ---- mutation heights ----

  function BumpMut(muts: map<Hash160, int>, o: Hash160, h: int): map<Hash160, int> {
    if o !in muts || h > muts[o] then muts[o := h] else muts
  }

  function BumpAll(muts: map<Hash160, int>, os: set<Hash160>, h: int): map<Hash160, int> {
    map o | o in muts.Keys + os :: if o in os && (o !in muts || h > muts[o]) then h else muts[o]
  }

  function LastMutation(muts: map<Hash160, int>, o: Hash160): int {
    if o in muts then muts[o] else 0
  }

  // ---- time-triggered transitions ----

  function ResetMarket(r: NameRow): NameRow {
    r.(seller := ZERO_20, sellerType := 0, price := 0, offerExpiry := 0,
       buyer := ZERO_20, burnLeg := 0, payLeg := 0, reserveExpiry := 0)
  }

  function RevertReserve(r: NameRow, mtp: int): NameRow {
    if r.st == Reserved && mtp >= r.reserveExpiry
    then r.(st := Listed, buyer := ZERO_20, burnLeg := 0, payLeg := 0, reserveExpiry := 0)
    else r
  }

  function CloseOffer(r: NameRow, mtp: int): NameRow {
    if (r.st == Listed || r.st == Offered) && mtp >= r.offerExpiry
    then ResetMarket(r.(st := Owned))
    else r
  }

  function AgeRow(r: NameRow, mtp: int): NameRow {
    CloseOffer(RevertReserve(r, mtp), mtp)
  }

  function AgeNames(names: map<Name, NameRow>, mtp: int): map<Name, NameRow> {
    map n | n in names && mtp < names[n].leaseExpiry :: AgeRow(names[n], mtp)
  }

  function LapsedOwners(names: map<Name, NameRow>, mtp: int): set<Hash160> {
    set n | n in names && mtp >= names[n].leaseExpiry :: names[n].owner
  }

  function PruneCommits(commits: seq<CommitRow>, mtp: int): seq<CommitRow> {
    if commits == [] then []
    else
      var last := commits[|commits| - 1];
      PruneCommits(commits[..|commits| - 1], mtp) + if mtp > last.commitTime + COMMIT_EXPIRY then [] else [last]
  }

  function StartBlock(s: State, height: int, mtp: int): State {
    State(AgeNames(s.names, mtp),
          PruneCommits(s.commits, mtp),
          BumpAll(s.muts, LapsedOwners(s.names, mtp), height),
          map[])
  }

  // ---- owned sets and bitmaps ----

  function OwnedSet(names: map<Name, NameRow>, o: Hash160): set<Name> {
    set n | n in names && names[n].owner == o
  }

  ghost function OwnedSorted(names: map<Name, NameRow>, o: Hash160): seq<Name> {
    Sorted(OwnedSet(names, o))
  }

  /** Bit i of the flags, least significant bit first; bits past the end are clear. */
  predicate BitSet(flags: Bytes, i: nat) {
    i / 8 < |flags| && (flags[i / 8] as int / Bit(i % 8)) % 2 == 1
  }

  /** The names of the listing whose bits are set, in listing order; all of them without flags. */
  function SelectBitmap(owned: seq<Name>, flags: Option<Bytes>): (sel: seq<Name>)
    ensures forall n :: n in sel ==> n in owned
  {
    if owned == [] then []
    else
      var k := |owned| - 1;
      SelectBitmap(owned[..k], flags) + if flags.None? || BitSet(flags.value, k) then [owned[k]] else []
  }

  lemma {:induction false} SelectDistinct(owned: seq<Name>, flags: Option<Bytes>)
    requires forall i, j :: 0 <= i < j < |owned| ==> owned[i] != owned[j]
    ensures forall i, j :: 0 <= i < j < |SelectBitmap(owned, flags)| ==>
        SelectBitmap(owned, flags)[i] != SelectBitmap(owned, flags)[j]
  {
    if owned != [] {
      var k := |owned| - 1;
      SelectDistinct(owned[..k], flags);
      assert owned[k] !in SelectBitmap(owned[..k], flags);
    }
  }

  predicate AnchorOk(muts: map<Hash160, int>, owner: Hash160, anchor: int, confirm: int) {
    && 0 <= anchor <= confirm
    && confirm - anchor <= MAX_ANCHOR_AGE
    && LastMutation(muts, owner) <= anchor
  }

  // ---- set operations ----

  /** Headrooms of a list of names, in list order. */
  function Headrooms(names: map<Name, NameRow>, sel: seq<Name>, mtp: int): (h: seq<nat>)
    requires forall n :: n in sel ==> n in names
    ensures |h| == |sel|
  {
    seq(|sel|, i requires 0 <= i < |sel| => HeadroomDays(names[sel[i]].leaseExpiry, mtp))
  }

  /** Add days to the leases of a list of names. */
  function Extend(names: map<Name, NameRow>, sel: seq<Name>, add: seq<nat>): map<Name, NameRow>
    requires |sel| == |add| && forall n :: n in sel ==> n in names
  {
    if sel == [] then names
    else
      var k := |sel| - 1;
      var rest := Extend(names, sel[..k], add[..k]);
      if sel[k] in rest
      then rest[sel[k] := rest[sel[k]].(leaseExpiry := rest[sel[k]].leaseExpiry + add[k] * BILLING_UNIT)]
      else rest
  }

  ghost function FillNames(names: map<Name, NameRow>, sel: seq<Name>, t: Days, mtp: int): map<Name, NameRow>
    requires forall n :: n in sel ==> n in names
  {
    if sel == [] || (!t.huge && t.count == 0) then names
    else Extend(names, sel, Awards(Headrooms(names, sel, mtp), t))
  }

  ghost function ApplyRenew(s: State, height: int, mtp: int, rate: U64, value: U64,
                            anchor: Option<int>, flags: Option<Bytes>, actor: Hash160): State {
    if anchor.Some? && !AnchorOk(s.muts, actor, anchor.value, height) then s
    else
      var sel := SelectBitmap(OwnedSorted(s.names, actor), flags);
      s.(names := FillNames(s.names, sel, LeaseT(value, rate), mtp))
  }

  predicate Movable(names: map<Name, NameRow>, n: Name) {
    n in names && names[n].st == Owned
  }

  /** The rows after the unlocked names among some went to a new owner. */
  function MovedNames(names: map<Name, NameRow>, sel: seq<Name>, target: Hash160): map<Name, NameRow> {
    map n | n in names :: if n in sel && Movable(names, n) then names[n].(owner := target) else names[n]
  }

  /** The rows after the unlocked names among some were dropped. */
  function DroppedNames(names: map<Name, NameRow>, sel: seq<Name>): map<Name, NameRow> {
    map n | n in names && !(n in sel && Movable(names, n)) :: names[n]
  }

  ghost function ApplyTransfer(s: State, height: int, target: Hash160,
                               anchor: Option<int>, flags: Option<Bytes>, actor: Hash160): State {
    if anchor.Some? && !AnchorOk(s.muts, actor, anchor.value, height) then s
    else
      var sel := SelectBitmap(OwnedSorted(s.names, actor), flags);
      if exists n :: n in sel && Movable(s.names, n) then
        s.(names := MovedNames(s.names, sel, target),
           muts := BumpMut(BumpMut(s.muts, actor, height), target, height))
      else s
  }

  ghost function ApplyRelease(s: State, height: int, anchor: int, flags: Bytes, actor: Hash160): State {
    if !AnchorOk(s.muts, actor, anchor, height) then s
    else
      var sel := SelectBitmap(OwnedSorted(s.names, actor), Some(flags));
      if exists n :: n in sel && Movable(s.names, n) then
        s.(names := DroppedNames(s.names, sel),
           muts := BumpMut(s.muts, actor, height))
      else s
  }

  // ---- by-name operations ----

  predicate Mine(s: State, n: Name, actor: Hash160) {
    n in s.names && s.names[n].owner == actor
  }

  ghost function ApplyRenewName(s: State, mtp: int, rate: U64, value: U64, n: Name, actor: Hash160): State {
    if !Mine(s, n, actor) then s
    else s.(names := FillNames(s.names, [n], LeaseT(value, rate), mtp))
  }

  function ApplyTransferName(s: State, height: int, target: Hash160, n: Name, actor: Hash160): State {
    if !Mine(s, n, actor) || s.names[n].st != Owned then s
    else s.(names := s.names[n := s.names[n].(owner := target)],
            muts := BumpMut(BumpMut(s.muts, actor, height), target, height))
  }

  function ApplyReleaseName(s: State, height: int, n: Name, actor: Hash160): State {
    if !Mine(s, n, actor) || s.names[n].st != Owned then s
    else s.(names := s.names - {n}, muts := BumpMut(s.muts, actor, height))
  }

  // ---- claims ----

  predicate Before(a: Priority, b: Priority) {
    a.height < b.height || (a.height == b.height && a.txIndex < b.txIndex)
  }

  predicate Backs(cm: CommitRow, want: Hash256, height: int) {
    cm.commitment == want && cm.height < height
  }

  /** The best priority among the commits that back a commitment before a height. */
  function BestCommit(commits: seq<CommitRow>, want: Hash256, height: int): Option<Priority> {
    if commits == [] then None
    else
      var last := commits[|commits| - 1];
      var best := BestCommit(commits[..|commits| - 1], want, height);
      var p := Priority(last.height, last.txIndex);
      if Backs(last, want, height) && (best.None? || Before(p, best.value)) then Some(p) else best
  }

  function Commitment(sha: Bytes -> Hash256, salt: Hash256, name: Name, author: Hash160): Hash256 {
    sha(salt + name + author)
  }

  function FreshRow(owner: Hash160, leaseExpiry: int): NameRow {
    NameRow(owner, Owned, leaseExpiry, ZERO_20, 0, 0, 0, ZERO_20, 0, 0, 0)
  }

  function ApplyClaim(s: State, height: int, mtp: int, rate: U64, value: U64,
                      want: Hash256, name: Name, actor: Hash160): State {
    var best := BestCommit(s.commits, want, height);
    var add := LeaseDaysSingle(value, rate, mtp, mtp);
    if best.None? || add == 0 then s
    else
      var expiry := mtp + add * BILLING_UNIT;
      var won := s.(scratch := s.scratch[name := ClaimScratch(best.value, actor)],
                    muts := BumpMut(s.muts, actor, height));
      if name !in s.names then
        won.(names := s.names[name := FreshRow(actor, expiry)])
      else if && name in s.scratch
              && s.names[name].st == Owned && s.names[name].owner == s.scratch[name].owner
              && Before(best.value, s.scratch[name].priority) then
        won.(names := s.names[name := s.names[name].(owner := actor, leaseExpiry := expiry)])
      else s
  }

  // ---- market ----

  /** A deposit leg: basis points of the price, floored, at least the dust floor. */
  function DepositLeg(price: U64, bps: nat): U64
    requires bps <= 10000
  {
    var q := (price * bps) / 10000;
    assert price * bps <= price * 10000;
    if q < DUST_FLOOR then DUST_FLOOR else q
  }

  /** What is left of a price after both legs, in 64-bit subtraction. */
  function Remainder(r: NameRow): U64 {
    (r.price - r.burnLeg - r.payLeg) % TWO_TO_THE_64
  }

  /** The lowest output from i on that is not consumed and pays exactly the amount owed. */
  function MatchFrom(spend: seq<Output>, consumed: seq<bool>, owed: Output, i: nat): (m: Option<nat>)
    requires |spend| == |consumed| && i <= |spend|
    ensures m.Some? ==> i <= m.value < |spend| && !consumed[m.value] && spend[m.value] == owed
    ensures m.Some? ==> forall k :: i <= k < m.value ==> consumed[k] || spend[k] != owed
    ensures m.None? ==> forall k :: i <= k < |spend| ==> consumed[k] || spend[k] != owed
    decreases |spend| - i
  {
    if i == |spend| then None
    else if !consumed[i] && spend[i] == owed then Some(i)
    else MatchFrom(spend, consumed, owed, i + 1)
  }

  function ApplySell(s: State, mtp: int, price: U64, window: U32, n: Name, actor: Identity): State {
    var w := if window == 0 then RESERVE_WINDOW else window;
    if !Mine(s, n, actor.h160) || s.names[n].st != Owned || price < 3 * DUST_FLOOR
       || w < RESERVE_WINDOW || mtp + w + REORG_BUFFER > s.names[n].leaseExpiry
    then s
    else s.(names := s.names[n := s.names[n].(st := Listed, seller := actor.h160, sellerType := actor.styp,
                                              price := price, offerExpiry := mtp + w)])
  }

  function ApplySellTo(s: State, mtp: int, price: U64, buyer: Hash160, n: Name, actor: Identity): State {
    if !Mine(s, n, actor.h160) || s.names[n].st != Owned || price < DUST_FLOOR
       || mtp + DIRECT_WINDOW + REORG_BUFFER > s.names[n].leaseExpiry
    then s
    else s.(names := s.names[n := s.names[n].(st := Offered, seller := actor.h160, sellerType := actor.styp,
                                              price := price, buyer := buyer, offerExpiry := mtp + DIRECT_WINDOW)])
  }

  /** A market operation may take one output of its transaction. */
  datatype Outcome = Outcome(st: State, taken: Option<nat>)

  function Owed(r: NameRow, amount: U64): Output {
    Output(r.seller, r.sellerType, amount)
  }

  function ApplyReserve(s: State, mtp: int, value: U64, n: Name, actor: Identity,
                        spend: seq<Output>, consumed: seq<bool>): (r: Outcome)
    requires |spend| == |consumed|
  {
    if n !in s.names || s.names[n].st != Listed then Outcome(s, None)
    else
      var row := s.names[n];
      var burnLeg := DepositLeg(row.price, RESERVE_BURN_BPS);
      var payLeg := DepositLeg(row.price, RESERVE_PAY_BPS);
      var m := MatchFrom(spend, consumed, Owed(row, payLeg), 0);
      if value < burnLeg || m.None? then Outcome(s, None)
      else
        Outcome(s.(names := s.names[n := row.(st := Reserved, buyer := actor.h160, burnLeg := burnLeg, payLeg := payLeg,
                                              reserveExpiry := Min(mtp + RESERVE_WINDOW, row.offerExpiry))]), m)
  }

  /** A sold name: owned by the buyer, market fields cleared, lease conveyed. */
  function Sold(r: NameRow, buyer: Hash160): NameRow {
    ResetMarket(r.(owner := buyer, st := Owned))
  }

  function Convey(s: State, height: int, n: Name, actor: Hash160): State
    requires n in s.names
  {
    s.(names := s.names[n := Sold(s.names[n], actor)],
       muts := BumpMut(BumpMut(s.muts, actor, height), s.names[n].seller, height))
  }

  function ApplySettle(s: State, height: int, mtp: int, n: Name, actor: Identity,
                       spend: seq<Output>, consumed: seq<bool>): Outcome
    requires |spend| == |consumed|
  {
    if n !in s.names || s.names[n].st != Reserved || s.names[n].buyer != actor.h160
       || mtp >= s.names[n].reserveExpiry
    then Outcome(s, None)
    else
      var m := MatchFrom(spend, consumed, Owed(s.names[n], Remainder(s.names[n])), 0);
      if m.None? then Outcome(s, None) else Outcome(Convey(s, height, n, actor.h160), m)
  }

  function ApplyPay(s: State, height: int, mtp: int, n: Name, actor: Identity,
                    spend: seq<Output>, consumed: seq<bool>): Outcome
    requires |spend| == |consumed|
  {
    if n !in s.names || s.names[n].st != Offered || s.names[n].buyer != actor.h160
       || mtp >= s.names[n].offerExpiry
    then Outcome(s, None)
    else
      var m := MatchFrom(spend, consumed, Owed(s.names[n], s.names[n].price), 0);
      if m.None? then Outcome(s, None) else Outcome(Convey(s, height, n, actor.h160), m)
  }

  function ApplyTrade(s: State, height: int, inputs: seq<Identity>, ia: int, ib: int, na: Name, nb: Name): State {
    if !(0 <= ia < |inputs|) || !(0 <= ib < |inputs|) || ia == ib || !inputs[ia].ok || !inputs[ib].ok || na == nb
    then s
    else
      var pa, pb := inputs[ia].h160, inputs[ib].h160;
      if !Mine(s, na, pa) || !Mine(s, nb, pb) || s.names[na].st != Owned || s.names[nb].st != Owned then s
      else s.(names := s.names[na := s.names[na].(owner := pb)][nb := s.names[nb].(owner := pa)],
              muts := BumpMut(BumpMut(s.muts, pa, height), pb, height))
  }

  // ---- the machine ----

  datatype RawConfig = Config(
    st: State, height: int, mtp: int, rate: U64,
    tx: FoldTx, actor: Identity, consumed: seq<bool>)

  /** The consumed flags always belong to the current transaction's outputs. */
  type Config = c: RawConfig | |c.consumed| == |c.tx.spend|
    witness Config(EMPTY_STATE, 0, 0, 0, NO_TX, NOBODY, [])

  const INITIAL: Config := Config(EMPTY_STATE, 0, 0, 0, NO_TX, NOBODY, [])

  datatype Step =
    | BeginBlock(height: int, mtp: int, rate: U64)
    | BeginTx(tx: FoldTx)
    | Act(fc: FoldCarrier)

  function FirstInput(tx: FoldTx): Identity {
    if |tx.inputs| > 0 then tx.inputs[0] else NOBODY
  }

  function NamedInput(tx: FoldTx, k: int): Identity {
    if 0 <= k < |tx.inputs| && tx.inputs[k].ok then tx.inputs[k] else NOBODY
  }

  function Take(c: Config, r: Outcome): Config
    requires r.taken.Some? ==> r.taken.value < |c.consumed|
  {
    c.(st := r.st, consumed := if r.taken.Some? then c.consumed[r.taken.value := true] else c.consumed)
  }

  /** The height is active and the acting identity verified. */
  predicate Acting(p: Params, c: Config) {
    c.actor.ok && c.height >= p.activation
  }

  /** An action that needs a valid acting identity. */
  ghost function Perform(p: Params, c: Config, fc: FoldCarrier): Config {
    var a := c.actor;
    match fc.c
    case Commit(commitment) =>
      c.(st := c.st.(commits := c.st.commits + [CommitRow(commitment, c.height, c.tx.txIndex, c.mtp)]))
    case Claim(salt, name) =>
      c.(st := ApplyClaim(c.st, c.height, c.mtp, c.rate, fc.value, Commitment(p.sha, salt, name, a.h160), name, a.h160))
    case Renew(anchor, flags) =>
      c.(st := ApplyRenew(c.st, c.height, c.mtp, c.rate, fc.value, anchor, flags, a.h160))
    case Transfer(target, anchor, flags) =>
      c.(st := ApplyTransfer(c.st, c.height, target, anchor, flags, a.h160))
    case Release(h, bits) => c.(st := ApplyRelease(c.st, c.height, h, bits, a.h160))
    case RenewName(n) => c.(st := ApplyRenewName(c.st, c.mtp, c.rate, fc.value, n, a.h160))
    case TransferName(target, n) => c.(st := ApplyTransferName(c.st, c.height, target, n, a.h160))
    case ReleaseName(n) => c.(st := ApplyReleaseName(c.st, c.height, n, a.h160))
    case Sell(price, window, n) => c.(st := ApplySell(c.st, c.mtp, price, window, n, a))
    case SellTo(price, buyer, n) => c.(st := ApplySellTo(c.st, c.mtp, price, buyer, n, a))
    case Reserve(n) => Take(c, ApplyReserve(c.st, c.mtp, fc.value, n, a, c.tx.spend, c.consumed))
    case Settle(n) => Take(c, ApplySettle(c.st, c.height, c.mtp, n, a, c.tx.spend, c.consumed))
    case Pay(n) => Take(c, ApplyPay(c.st, c.height, c.mtp, n, a, c.tx.spend, c.consumed))
    case _ => c
  }

  ghost function Dispatch(p: Params, c: Config, fc: FoldCarrier): Config {
    if fc.c.Ignore? || c.height < p.activation then c
    else if fc.c.As? then c.(actor := NamedInput(c.tx, fc.c.index))
    else if fc.c.Trade? then
      c.(st := ApplyTrade(c.st, c.height, c.tx.inputs, fc.c.idxA, fc.c.idxB, fc.c.nameA, fc.c.nameB))
    else if !c.actor.ok then c
    else Perform(p, c, fc)
  }

  ghost function Next(p: Params, c: Config, step: Step): Config {
    match step
    case BeginBlock(height, mtp, rate) =>
      Config(StartBlock(c.st, height, mtp), height, mtp, rate, NO_TX, NOBODY, [])
    case BeginTx(tx) =>
      c.(tx := tx, actor := FirstInput(tx), consumed := seq(|tx.spend|, _ => false))
    case Act(fc) => Dispatch(p, c, fc)
  }

  ghost function Run(p: Params, c: Config, steps: seq<Step>): Config {
    if steps == [] then c
    else Next(p, Run(p, c, steps[..|steps| - 1]), steps[|steps| - 1])
  }

  /** The configuration after a whole run from genesis. */
  ghost function Exec(p: Params, steps: seq<Step>): Config {
    Run(p, INITIAL, steps)
  }

  lemma {:induction false} RunConcat(p: Params, c: Config, a: seq<Step>, b: seq<Step>)
    ensures Run(p, c, a + b) == Run(p, Run(p, c, a), b)
  {
    if b == [] {
      assert a + b == a;
    } else {
      assert (a + b)[..|a + b| - 1] == a + b[..|b| - 1];
      RunConcat(p, c, a, b[..|b| - 1]);
    }
  }

  // ---- blocks as steps ----

  function TxSteps(tx: FoldTx): seq<Step> {
    [BeginTx(tx)] + seq(|tx.carriers|, i requires 0 <= i < |tx.carriers| => Act(tx.carriers[i]))
  }

  function TxsSteps(txs: seq<FoldTx>): seq<Step> {
    if txs == [] then [] else TxsSteps(txs[..|txs| - 1]) + TxSteps(txs[|txs| - 1])
  }

  function BlockSteps(b: FoldBlock): seq<Step> {
    [BeginBlock(b.height, b.mtp, b.rate)] + TxsSteps(b.txs)
  }

  function ChainSteps(bs: seq<FoldBlock>): seq<Step> {
    if bs == [] then [] else ChainSteps(bs[..|bs| - 1]) + BlockSteps(bs[|bs| - 1])
  }

  /** A configuration about to begin a block on a state. */
  function Opening(s: State): Config {
    Config(s, 0, 0, 0, NO_TX, NOBODY, [])
  }

  /** The state a block makes of a state. */
  ghost function BlockState(p: Params, s: State, b: FoldBlock): State {
    Run(p, Opening(s), BlockSteps(b)).st
  }

  // ---- runs ----

  /** Block heights strictly increase, and from the activation height on median times never decrease. */
  ghost predicate ValidRun(p: Params, steps: seq<Step>) {
    && (steps != [] ==> steps[0].BeginBlock?)
    && forall i, j :: 0 <= i < j < |steps| && steps[i].BeginBlock? && steps[j].BeginBlock? ==>
         && steps[i].height < steps[j].height
         && (steps[i].height >= p.activation ==> steps[i].mtp <= steps[j].mtp)
  }

  lemma ValidPrefix(p: Params, steps: seq<Step>, k: nat)
    requires ValidRun(p, steps) && k <= |steps|
    ensures ValidRun(p, steps[..k])
  {
  }
}
