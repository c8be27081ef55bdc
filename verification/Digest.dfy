/** The canonical bytes a state is digested from, and when two states share them. */
module Digest {
  import opened Primitives
  import opened Digits
  import opened NameOrder
  import opened Fold
  import opened FoldInvariant

  // ---- fixed-width integers ----

  /** The low n bytes of a number, least significant first. */
  function Le(v: nat, n: nat): (r: Bytes)
    ensures |r| == n
  {
    if n == 0 then [] else [(v % 256) as byte] + Le(v / 256, n - 1)
  }

  function I64(v: int): (r: Bytes)
    ensures |r| == 8
  {
    Le(v % TWO_TO_THE_64, 8)
  }

  predicate InI64(v: int) {
    -0x8000_0000_0000_0000 <= v < 0x8000_0000_0000_0000
  }

  lemma {:induction false} LeDetermines(v: nat, w: nat, n: nat)
    requires v < Pow256(n) && w < Pow256(n) && Le(v, n) == Le(w, n)
    ensures v == w
  {
    if n > 0 {
      assert Le(v, n)[1..] == Le(v / 256, n - 1) && Le(w, n)[1..] == Le(w / 256, n - 1);
      assert Le(v, n)[0] == (v % 256) as byte && Le(w, n)[0] == (w % 256) as byte;
      LeDetermines(v / 256, w / 256, n - 1);
    }
  }

  lemma EightBytes()
    ensures Pow256(8) == TWO_TO_THE_64 && Pow256(4) == TWO_TO_THE_32
  {
    assert Pow256(4) == 0x1_0000_0000;
    Pow256Sum(4, 4);
  }

  lemma I64Determines(v: int, w: int)
    requires InI64(v) && InI64(w) && I64(v) == I64(w)
    ensures v == w
  {
    EightBytes();
    LeDetermines(v % TWO_TO_THE_64, w % TWO_TO_THE_64, 8);
    TwosComplement(v);
    TwosComplement(w);
  }

  lemma TwosComplement(v: int)
    requires InI64(v)
    ensures v % TWO_TO_THE_64 == if v >= 0 then v else v + TWO_TO_THE_64
  {
  }

  lemma U64Determines(v: U64, w: U64)
    requires Le(v, 8) == Le(w, 8)
    ensures v == w
  {
    EightBytes();
    LeDetermines(v, w, 8);
  }

  lemma U32Determines(v: nat, w: nat)
    requires v < TWO_TO_THE_32 && w < TWO_TO_THE_32 && Le(v, 4) == Le(w, 4)
    ensures v == w
  {
    EightBytes();
    LeDetermines(v, w, 4);
  }

  /** Two concatenations with first parts of one length agree part by part. */
  lemma Parts(a: Bytes, b: Bytes, x: Bytes, y: Bytes)
    requires |a| == |b| && a + x == b + y
    ensures a == b && x == y
  {
    assert (a + x)[..|a|] == a && (b + y)[..|b|] == b;
    assert (a + x)[|a|..] == x && (b + y)[|b|..] == y;
  }

  lemma Regroup(a: Bytes, b: Bytes, c: Bytes)
    ensures (a + b) + c == a + (b + c)
  {
  }

  // ---- records ----

  function StatusByte(st: Status): byte {
    match st
    case Owned => 0
    case Listed => 1
    case Offered => 2
    case Reserved => 3
  }

  function MarketBytes(r: NameRow): (b: Bytes)
    ensures |b| == 81
  {
    r.seller + ([r.sellerType] + (Le(r.price, 8) + (I64(r.offerExpiry)
    + (r.buyer + (Le(r.burnLeg, 8) + (Le(r.payLeg, 8) + I64(r.reserveExpiry)))))))
  }

  function RowBytes(r: NameRow): (b: Bytes)
    ensures |b| == 110
  {
    r.owner + ([StatusByte(r.st)] + (I64(r.leaseExpiry) + MarketBytes(r)))
  }

  predicate RowFits(r: NameRow) {
    InI64(r.leaseExpiry) && InI64(r.offerExpiry) && InI64(r.reserveExpiry)
  }

  lemma MarketDetermines(r: NameRow, q: NameRow)
    requires RowFits(r) && RowFits(q) && MarketBytes(r) == MarketBytes(q)
    ensures r.seller == q.seller && r.sellerType == q.sellerType && r.price == q.price
    ensures r.offerExpiry == q.offerExpiry && r.buyer == q.buyer && r.burnLeg == q.burnLeg
    ensures r.payLeg == q.payLeg && r.reserveExpiry == q.reserveExpiry
  {
    var r7, q7 := Le(r.payLeg, 8) + I64(r.reserveExpiry), Le(q.payLeg, 8) + I64(q.reserveExpiry);
    var r6, q6 := Le(r.burnLeg, 8) + r7, Le(q.burnLeg, 8) + q7;
    var r5, q5 := r.buyer + r6, q.buyer + q6;
    var r4, q4 := I64(r.offerExpiry) + r5, I64(q.offerExpiry) + q5;
    var r3, q3 := Le(r.price, 8) + r4, Le(q.price, 8) + q4;
    Parts(r.seller, q.seller, [r.sellerType] + r3, [q.sellerType] + q3);
    Parts([r.sellerType], [q.sellerType], r3, q3);
    Parts(Le(r.price, 8), Le(q.price, 8), r4, q4);
    Parts(I64(r.offerExpiry), I64(q.offerExpiry), r5, q5);
    Parts(r.buyer, q.buyer, r6, q6);
    Parts(Le(r.burnLeg, 8), Le(q.burnLeg, 8), r7, q7);
    Parts(Le(r.payLeg, 8), Le(q.payLeg, 8), I64(r.reserveExpiry), I64(q.reserveExpiry));
    U64Determines(r.price, q.price);
    U64Determines(r.burnLeg, q.burnLeg);
    U64Determines(r.payLeg, q.payLeg);
    I64Determines(r.offerExpiry, q.offerExpiry);
    I64Determines(r.reserveExpiry, q.reserveExpiry);
  }

  lemma RowDetermines(r: NameRow, q: NameRow)
    requires RowFits(r) && RowFits(q) && RowBytes(r) == RowBytes(q)
    ensures r == q
  {
    var r2, q2 := I64(r.leaseExpiry) + MarketBytes(r), I64(q.leaseExpiry) + MarketBytes(q);
    Parts(r.owner, q.owner, [StatusByte(r.st)] + r2, [StatusByte(q.st)] + q2);
    Parts([StatusByte(r.st)], [StatusByte(q.st)], r2, q2);
    Parts(I64(r.leaseExpiry), I64(q.leaseExpiry), MarketBytes(r), MarketBytes(q));
    I64Determines(r.leaseExpiry, q.leaseExpiry);
    MarketDetermines(r, q);
    assert [StatusByte(r.st)][0] == [StatusByte(q.st)][0];
  }

  type NameEntry = (Name, NameRow)

  function NameBytes(e: NameEntry): Bytes {
    [|e.0| as byte] + (e.0 + RowBytes(e.1))
  }

  /** A name record can be told from whatever follows it. */
  lemma NameRecord(e: NameEntry, f: NameEntry, x: Bytes, y: Bytes)
    requires RowFits(e.1) && RowFits(f.1) && NameBytes(e) + x == NameBytes(f) + y
    ensures e == f && x == y
  {
    assert (NameBytes(e) + x)[0] == |e.0| as byte && (NameBytes(f) + y)[0] == |f.0| as byte;
    Parts(NameBytes(e), NameBytes(f), x, y);
    Parts([|e.0| as byte], [|f.0| as byte], e.0 + RowBytes(e.1), f.0 + RowBytes(f.1));
    Parts(e.0, f.0, RowBytes(e.1), RowBytes(f.1));
    RowDetermines(e.1, f.1);
  }

  function CommitBytes(c: CommitRow): (b: Bytes)
    ensures |b| == 52
  {
    c.commitment + (I64(c.height) + (Le(c.txIndex, 4) + I64(c.commitTime)))
  }

  predicate CommitFits(c: CommitRow) {
    InI64(c.height) && InI64(c.commitTime)
  }

  lemma CommitRecord(c: CommitRow, d: CommitRow, x: Bytes, y: Bytes)
    requires CommitFits(c) && CommitFits(d) && CommitBytes(c) + x == CommitBytes(d) + y
    ensures c == d && x == y
  {
    Parts(CommitBytes(c), CommitBytes(d), x, y);
    var c2, d2 := Le(c.txIndex, 4) + I64(c.commitTime), Le(d.txIndex, 4) + I64(d.commitTime);
    Parts(c.commitment, d.commitment, I64(c.height) + c2, I64(d.height) + d2);
    Parts(I64(c.height), I64(d.height), c2, d2);
    Parts(Le(c.txIndex, 4), Le(d.txIndex, 4), I64(c.commitTime), I64(d.commitTime));
    I64Determines(c.height, d.height);
    U32Determines(c.txIndex, d.txIndex);
    I64Determines(c.commitTime, d.commitTime);
  }

  type MutEntry = (Hash160, int)

  function MutBytes(m: MutEntry): (b: Bytes)
    ensures |b| == 28
  {
    m.0 + I64(m.1)
  }

  lemma MutRecord(m: MutEntry, k: MutEntry, x: Bytes, y: Bytes)
    requires InI64(m.1) && InI64(k.1) && MutBytes(m) + x == MutBytes(k) + y
    ensures m == k && x == y
  {
    Parts(MutBytes(m), MutBytes(k), x, y);
    Parts(m.0, k.0, I64(m.1), I64(k.1));
    I64Determines(m.1, k.1);
  }

  // ---- where the fields stand ----

  lemma {:induction false} LeIsValue(v: nat, n: nat)
    requires v < Pow256(n)
    ensures Val(Le(v, n)) == v
  {
    if n > 0 {
      assert Le(v, n)[1..] == Le(v / 256, n - 1);
      LeIsValue(v / 256, n - 1);
    }
  }

  /** A 64-bit field is the two's complement of its number. */
  lemma I64IsTwosComplement(v: int)
    requires InI64(v)
    ensures Val(I64(v)) == if v >= 0 then v else v + TWO_TO_THE_64
  {
    EightBytes();
    LeIsValue(v % TWO_TO_THE_64, 8);
    TwosComplement(v);
  }

  /** The fixed-width part of a name row: owner, status and lease before the market fields. */
  lemma RowOffsets(r: NameRow)
    ensures var b := RowBytes(r);
      && b[..20] == r.owner && b[21..29] == I64(r.leaseExpiry)
      && b[20] == (if r.st == Owned then 0 else if r.st == Listed then 1 else if r.st == Offered then 2 else 3)
      && b[29..] == MarketBytes(r)
  {
  }

  lemma After(head: Bytes, tail: Bytes)
    ensures (head + tail)[..|head|] == head && (head + tail)[|head|..] == tail
  {
  }

  /** The market fields, present in every row whether the status uses them or not. */
  lemma MarketOffsets(r: NameRow)
    ensures var b := MarketBytes(r);
      && b[..20] == r.seller && b[20] == r.sellerType && b[21..29] == Le(r.price, 8) && b[29..37] == I64(r.offerExpiry)
      && b[37..57] == r.buyer && b[57..65] == Le(r.burnLeg, 8) && b[65..73] == Le(r.payLeg, 8)
      && b[73..] == I64(r.reserveExpiry)
  {
    var legs := Le(r.burnLeg, 8) + (Le(r.payLeg, 8) + I64(r.reserveExpiry));
    var head := r.seller + [r.sellerType] + Le(r.price, 8) + I64(r.offerExpiry);
    assert MarketBytes(r) == head + (r.buyer + legs);
    After(head, r.buyer + legs);
    assert legs[..8] == Le(r.burnLeg, 8) && legs[8..16] == Le(r.payLeg, 8) && legs[16..] == I64(r.reserveExpiry);
    assert MarketBytes(r)[57..] == legs;
  }

  lemma CommitOffsets(c: CommitRow)
    ensures var b := CommitBytes(c);
      && b[..32] == c.commitment && b[32..40] == I64(c.height)
      && b[40..44] == Le(c.txIndex, 4) && b[44..] == I64(c.commitTime)
  {
  }

  // ---- lists of records ----

  function NamesBytes(es: seq<NameEntry>): Bytes {
    if es == [] then [] else NameBytes(es[0]) + NamesBytes(es[1..])
  }

  function CommitsBytes(cs: seq<CommitRow>): Bytes {
    if cs == [] then [] else CommitBytes(cs[0]) + CommitsBytes(cs[1..])
  }

  function MutsBytes(ms: seq<MutEntry>): Bytes {
    if ms == [] then [] else MutBytes(ms[0]) + MutsBytes(ms[1..])
  }

  lemma {:induction false} NamesList(a: seq<NameEntry>, b: seq<NameEntry>, x: Bytes, y: Bytes)
    requires |a| == |b| && NamesBytes(a) + x == NamesBytes(b) + y
    requires forall i :: 0 <= i < |a| ==> RowFits(a[i].1) && RowFits(b[i].1)
    ensures a == b && x == y
  {
    if a == [] {
      assert [] + x == x && [] + y == y;
    } else {
      var p, q := NamesBytes(a[1..]), NamesBytes(b[1..]);
      Regroup(NameBytes(a[0]), p, x);
      Regroup(NameBytes(b[0]), q, y);
      NameRecord(a[0], b[0], p + x, q + y);
      NamesList(a[1..], b[1..], x, y);
      assert a == [a[0]] + a[1..] && b == [b[0]] + b[1..];
    }
  }

  lemma {:induction false} CommitsList(a: seq<CommitRow>, b: seq<CommitRow>, x: Bytes, y: Bytes)
    requires |a| == |b| && CommitsBytes(a) + x == CommitsBytes(b) + y
    requires forall i :: 0 <= i < |a| ==> CommitFits(a[i]) && CommitFits(b[i])
    ensures a == b && x == y
  {
    if a == [] {
      assert [] + x == x && [] + y == y;
    } else {
      var p, q := CommitsBytes(a[1..]), CommitsBytes(b[1..]);
      Regroup(CommitBytes(a[0]), p, x);
      Regroup(CommitBytes(b[0]), q, y);
      CommitRecord(a[0], b[0], p + x, q + y);
      CommitsList(a[1..], b[1..], x, y);
      assert a == [a[0]] + a[1..] && b == [b[0]] + b[1..];
    }
  }

  lemma {:induction false} MutsList(a: seq<MutEntry>, b: seq<MutEntry>)
    requires |a| == |b| && MutsBytes(a) == MutsBytes(b)
    requires forall i :: 0 <= i < |a| ==> InI64(a[i].1) && InI64(b[i].1)
    ensures a == b
  {
    if a != [] {
      MutRecord(a[0], b[0], MutsBytes(a[1..]), MutsBytes(b[1..]));
      MutsList(a[1..], b[1..]);
      assert a == [a[0]] + a[1..] && b == [b[0]] + b[1..];
    }
  }

  // ---- the order of commits ----

  predicate KeyLess(c: CommitRow, d: CommitRow) {
    || Less(c.commitment, d.commitment)
    || (c.commitment == d.commitment && (c.height < d.height || (c.height == d.height && c.txIndex < d.txIndex)))
  }

  predicate SameKey(c: CommitRow, d: CommitRow) {
    c.commitment == d.commitment && c.height == d.height && c.txIndex == d.txIndex
  }

  ghost predicate InOrder(cs: seq<CommitRow>) {
    forall i, j :: 0 <= i < j < |cs| ==> !KeyLess(cs[j], cs[i])
  }

  /** Rows of one block share their commit time. */
  ghost predicate TimesFollowHeights(cs: seq<CommitRow>) {
    forall c, d :: c in cs && d in cs && c.height == d.height ==> c.commitTime == d.commitTime
  }

  lemma KeysAreTotal(c: CommitRow, d: CommitRow)
    ensures KeyLess(c, d) || KeyLess(d, c) || SameKey(c, d)
    ensures !(KeyLess(c, d) && KeyLess(d, c))
  {
    LessIsTotal(c.commitment, d.commitment);
  }

  lemma KeysAreTransitive(c: CommitRow, d: CommitRow, e: CommitRow)
    requires !KeyLess(d, c) && !KeyLess(e, d)
    ensures !KeyLess(e, c)
  {
    KeysAreTotal(c, d);
    KeysAreTotal(d, e);
    LessIsTotal(c.commitment, e.commitment);
    if Less(c.commitment, d.commitment) && Less(d.commitment, e.commitment) {
      LessIsTransitive(c.commitment, d.commitment, e.commitment);
    }
  }

  /** Ties are between identical rows, so there is one ordered listing of a bag of commits. */
  lemma {:induction false} OrderIsUnique(a: seq<CommitRow>, b: seq<CommitRow>)
    requires InOrder(a) && InOrder(b) && multiset(a) == multiset(b) && TimesFollowHeights(a)
    ensures a == b
  {
    if a == [] {
      assert |multiset(b)| == 0;
    } else {
      SameFirst(a, b);
      WithoutFirst(a);
      WithoutFirst(b);
      OrderIsUnique(a[1..], b[1..]);
    }
  }

  lemma WithoutFirst(a: seq<CommitRow>)
    requires a != []
    ensures a == [a[0]] + a[1..] && multiset(a[1..]) == multiset(a) - multiset{a[0]}
  {
    assert a == [a[0]] + a[1..];
  }

  lemma SameFirst(a: seq<CommitRow>, b: seq<CommitRow>)
    requires a != [] && InOrder(a) && InOrder(b) && multiset(a) == multiset(b) && TimesFollowHeights(a)
    ensures b != [] && a[0] == b[0]
  {
    assert a[0] in multiset(b);
    var i :| 0 <= i < |b| && b[i] == a[0];
    assert b[0] in multiset(a);
    var j :| 0 <= j < |a| && a[j] == b[0];
    KeysAreTotal(a[0], b[0]);
  }

  method InsertCommit(s: seq<CommitRow>, c: CommitRow) returns (r: seq<CommitRow>)
    requires InOrder(s)
    ensures InOrder(r) && multiset(r) == multiset(s) + multiset{c}
  {
    var k := 0;
    while k < |s| && KeyLess(s[k], c)
      invariant 0 <= k <= |s|
      invariant forall i :: 0 <= i < k ==> KeyLess(s[i], c)
    {
      k := k + 1;
    }
    InsertKeepsOrder(s, k, c);
    r := s[..k] + [c] + s[k..];
    OneMoreInBag(s[..k], s[k..], c);
    assert s == s[..k] + s[k..];
  }

  lemma OneMoreInBag(a: seq<CommitRow>, b: seq<CommitRow>, c: CommitRow)
    ensures multiset(a + [c] + b) == multiset(a + b) + multiset{c}
  {
  }

  lemma InsertKeepsOrder(s: seq<CommitRow>, k: nat, c: CommitRow)
    requires InOrder(s) && k <= |s|
    requires forall i :: 0 <= i < k ==> KeyLess(s[i], c)
    requires k < |s| ==> !KeyLess(s[k], c)
    ensures InOrder(s[..k] + [c] + s[k..])
  {
    forall i | 0 <= i < k ensures !KeyLess(c, s[i]) { KeysAreTotal(s[i], c); }
    forall i | k <= i < |s| ensures !KeyLess(s[i], c) {
      if i > k { KeysAreTransitive(c, s[k], s[i]); }
    }
  }

  // ---- the preimage ----

  const MAGIC: Bytes := [0x53, 0x4d, 0x76, 0x31]

  ghost function NameEntries(names: map<Name, NameRow>): (es: seq<NameEntry>)
    ensures |es| == |names|
    ensures forall i :: 0 <= i < |es| ==> es[i].0 in names && es[i].1 == names[es[i].0]
  {
    var order := Sorted(names.Keys);
    seq(|order|, i requires 0 <= i < |order| => assert order[i] in order; (order[i], names[order[i]]))
  }

  /** Owners are byte strings too: they are listed in the same order as names. */
  ghost function OwnerNames(muts: map<Hash160, int>): (os: set<Name>)
    ensures forall n: Bytes :: n in os <==> n in muts
  {
    set n: Name | n in muts
  }

  function OwnerEntry(muts: map<Hash160, int>, o: Bytes): (e: MutEntry)
    requires o in muts
    ensures e.0 == o && e.1 == muts[o]
  {
    (o, muts[o])
  }

  ghost function MutEntries(muts: map<Hash160, int>): (ms: seq<MutEntry>)
    ensures |ms| == |OwnerNames(muts)|
    ensures forall i :: 0 <= i < |ms| ==> ms[i].0 in muts && ms[i].1 == muts[ms[i].0]
    ensures forall i :: 0 <= i < |ms| ==> ms[i].0 == Sorted(OwnerNames(muts))[i]
  {
    var order := Sorted(OwnerNames(muts));
    assert forall i :: 0 <= i < |order| ==> order[i] in muts;
    seq(|order|, i requires 0 <= i < |order| => OwnerEntry(muts, order[i]))
  }

  function Count(n: nat): Bytes { Le(n, 4) }

  /** The bytes for the three lists in the order they are written. */
  function Layout(ns: seq<NameEntry>, cs: seq<CommitRow>, ms: seq<MutEntry>): Bytes {
    MAGIC + (Count(|ns|) + (NamesBytes(ns) + (Count(|cs|) + (CommitsBytes(cs) + (Count(|ms|) + MutsBytes(ms))))))
  }

  /** A byte string that digesting the state may hash: its commits in some sorted order. */
  ghost predicate IsPreimage(s: State, b: Bytes) {
    exists cs :: IsOrderOf(s.commits, cs) && b == StateBytes(s, cs)
  }

  ghost predicate IsOrderOf(commits: seq<CommitRow>, cs: seq<CommitRow>) {
    InOrder(cs) && multiset(cs) == multiset(commits)
  }

  /** Every value of the state fits the width it is written in. */
  ghost predicate Fits(s: State) {
    && |s.names| < TWO_TO_THE_32 && |s.commits| < TWO_TO_THE_32 && |OwnerNames(s.muts)| < TWO_TO_THE_32
    && (forall n :: n in s.names ==> RowFits(s.names[n]))
    && (forall c :: c in s.commits ==> CommitFits(c))
    && (forall o :: o in s.muts ==> InI64(s.muts[o]))
  }

  ghost predicate ListsFit(ns: seq<NameEntry>, cs: seq<CommitRow>, ms: seq<MutEntry>) {
    && |ns| < TWO_TO_THE_32 && |cs| < TWO_TO_THE_32 && |ms| < TWO_TO_THE_32
    && (forall i :: 0 <= i < |ns| ==> RowFits(ns[i].1))
    && (forall i :: 0 <= i < |cs| ==> CommitFits(cs[i]))
    && (forall i :: 0 <= i < |ms| ==> InI64(ms[i].1))
  }

  lemma StateListsFit(s: State, cs: seq<CommitRow>)
    requires Fits(s) && IsOrderOf(s.commits, cs)
    ensures ListsFit(NameEntries(s.names), cs, MutEntries(s.muts))
  {
    CommitsFit(s.commits, cs);
  }

  lemma LayoutDetermines(ns: seq<NameEntry>, cs: seq<CommitRow>, ms: seq<MutEntry>,
                         ns2: seq<NameEntry>, cs2: seq<CommitRow>, ms2: seq<MutEntry>)
    requires Layout(ns, cs, ms) == Layout(ns2, cs2, ms2)
    requires ListsFit(ns, cs, ms) && ListsFit(ns2, cs2, ms2)
    ensures ns == ns2 && cs == cs2 && ms == ms2
  {
    var m, m2 := Count(|ms|) + MutsBytes(ms), Count(|ms2|) + MutsBytes(ms2);
    var c, c2 := Count(|cs|) + (CommitsBytes(cs) + m), Count(|cs2|) + (CommitsBytes(cs2) + m2);
    var n, n2 := NamesBytes(ns) + c, NamesBytes(ns2) + c2;
    Parts(MAGIC, MAGIC, Count(|ns|) + n, Count(|ns2|) + n2);
    Parts(Count(|ns|), Count(|ns2|), n, n2);
    U32Determines(|ns|, |ns2|);
    NamesList(ns, ns2, c, c2);
    Parts(Count(|cs|), Count(|cs2|), CommitsBytes(cs) + m, CommitsBytes(cs2) + m2);
    U32Determines(|cs|, |cs2|);
    CommitsList(cs, cs2, m, m2);
    Parts(Count(|ms|), Count(|ms2|), MutsBytes(ms), MutsBytes(ms2));
    U32Determines(|ms|, |ms2|);
    MutsList(ms, ms2);
  }

  lemma NameIsListed(a: map<Name, NameRow>, n: Name)
    ensures n in a <==> exists r :: (n, r) in NameEntries(a)
    ensures forall r :: (n, r) in NameEntries(a) ==> n in a && r == a[n]
  {
    var order := Sorted(a.Keys);
    if n in a {
      assert n in order;
      var i :| 0 <= i < |order| && order[i] == n;
      assert NameEntries(a)[i] == (n, a[n]);
    }
  }

  lemma NamesFromEntries(a: map<Name, NameRow>, b: map<Name, NameRow>)
    requires NameEntries(a) == NameEntries(b)
    ensures a == b
  {
    forall n: Name ensures n in a <==> n in b { NameIsListed(a, n); NameIsListed(b, n); }
    forall n | n in a ensures a[n] == b[n] { NameIsListed(a, n); NameIsListed(b, n); }
  }

  lemma MutIsListed(a: map<Hash160, int>, o: Hash160)
    ensures o in a <==> exists h :: (o, h) in MutEntries(a)
    ensures forall h :: (o, h) in MutEntries(a) ==> o in a && h == a[o]
  {
    var order := Sorted(OwnerNames(a));
    if o in a {
      assert o in order;
      var i :| 0 <= i < |order| && order[i] == o;
      assert MutEntries(a)[i] == (o, a[o]);
    }
  }

  lemma MutsFromEntries(a: map<Hash160, int>, b: map<Hash160, int>)
    requires MutEntries(a) == MutEntries(b)
    ensures a == b
  {
    forall o: Hash160 ensures o in a <==> o in b { MutIsListed(a, o); MutIsListed(b, o); }
    forall o | o in a ensures a[o] == b[o] { MutIsListed(a, o); MutIsListed(b, o); }
  }

  lemma CommitsFit(commits: seq<CommitRow>, cs: seq<CommitRow>)
    requires IsOrderOf(commits, cs)
    ensures |cs| == |commits| && forall i :: 0 <= i < |cs| ==> cs[i] in commits
  {
    assert |multiset(cs)| == |cs| && |multiset(commits)| == |commits|;
    forall i | 0 <= i < |cs| ensures cs[i] in commits { assert cs[i] in multiset(cs); }
  }

  /** The same names, the same bag of commits and the same mutation heights. */
  ghost predicate SameTables(s: State, t: State) {
    s.names == t.names && multiset(s.commits) == multiset(t.commits) && s.muts == t.muts
  }

  ghost function StateBytes(s: State, cs: seq<CommitRow>): Bytes {
    Layout(NameEntries(s.names), cs, MutEntries(s.muts))
  }

  lemma BytesGiveTables(s: State, t: State, cs: seq<CommitRow>, ct: seq<CommitRow>)
    requires Fits(s) && Fits(t) && IsOrderOf(s.commits, cs) && IsOrderOf(t.commits, ct)
    requires StateBytes(s, cs) == StateBytes(t, ct)
    ensures SameTables(s, t)
  {
    StateListsFit(s, cs);
    StateListsFit(t, ct);
    ListsGiveTables(s, t, cs, ct);
  }

  lemma ListsGiveTables(s: State, t: State, cs: seq<CommitRow>, ct: seq<CommitRow>)
    requires IsOrderOf(s.commits, cs) && IsOrderOf(t.commits, ct) && StateBytes(s, cs) == StateBytes(t, ct)
    requires ListsFit(NameEntries(s.names), cs, MutEntries(s.muts))
    requires ListsFit(NameEntries(t.names), ct, MutEntries(t.muts))
    ensures SameTables(s, t)
  {
    LayoutDetermines(NameEntries(s.names), cs, MutEntries(s.muts), NameEntries(t.names), ct, MutEntries(t.muts));
    NamesFromEntries(s.names, t.names);
    MutsFromEntries(s.muts, t.muts);
  }

  lemma TablesGiveBytes(s: State, t: State, cs: seq<CommitRow>, ct: seq<CommitRow>)
    requires TimesFollowHeights(s.commits) && IsOrderOf(s.commits, cs) && IsOrderOf(t.commits, ct)
    requires SameTables(s, t)
    ensures StateBytes(s, cs) == StateBytes(t, ct)
  {
    CommitsFit(s.commits, cs);
    OrderIsUnique(cs, ct);
  }

  /**
   * Two states are hashed from the same bytes exactly when their tables are the same: whatever
   * order a sort leaves tied commits in, and whatever order the tables were filled in.
   */
  lemma SameBytesSameTables(s: State, t: State, b: Bytes, c: Bytes)
    requires Fits(s) && Fits(t) && TimesFollowHeights(s.commits)
    requires IsPreimage(s, b) && IsPreimage(t, c)
    ensures b == c <==> SameTables(s, t)
  {
    var cs :| IsOrderOf(s.commits, cs) && b == StateBytes(s, cs);
    var ct :| IsOrderOf(t.commits, ct) && c == StateBytes(t, ct);
    if b == c { BytesGiveTables(s, t, cs, ct); }
    if SameTables(s, t) { TablesGiveBytes(s, t, cs, ct); }
  }

  // ---- reachable states ----

  /** In every reachable state tied commits are identical rows. */
  lemma ReachableTimes(p: Params, steps: seq<Step>)
    requires ValidRun(p, steps)
    ensures TimesFollowHeights(Exec(p, steps).st.commits)
  {
    RunOk(p, steps);
    var commits := Exec(p, steps).st.commits;
    forall c, d | c in commits && d in commits && c.height == d.height
      ensures c.commitTime == d.commitTime
    {
      var i :| 0 <= i < |commits| && commits[i] == c;
      var j :| 0 <= j < |commits| && commits[j] == d;
    }
  }

  /** Heights of 63 bits and times of 32, as headers carry them. */
  ghost predicate WordSized(steps: seq<Step>) {
    forall i :: 0 <= i < |steps| && steps[i].BeginBlock? ==>
      0 <= steps[i].height < 0x8000_0000_0000_0000 && 0 <= steps[i].mtp < TWO_TO_THE_32
  }

  ghost predicate SmallTables(s: State) {
    |s.names| < TWO_TO_THE_32 && |s.commits| < TWO_TO_THE_32 && |OwnerNames(s.muts)| < TWO_TO_THE_32
  }

  /** No recorded height is negative. */
  ghost predicate NoNegativeHeight(c: Config) {
    && c.height >= 0
    && (forall i :: 0 <= i < |c.st.commits| ==> c.st.commits[i].height >= 0)
    && (forall o :: o in c.st.muts ==> c.st.muts[o] >= 0)
  }

  lemma ClaimKeepsFloor(p: Params, c: Config, fc: FoldCarrier)
    requires NoNegativeHeight(c) && (fc.c.Commit? || fc.c.Claim?)
    ensures NoNegativeHeight(Perform(p, c, fc))
  {
  }

  lemma RenewKeepsFloor(p: Params, c: Config, fc: FoldCarrier)
    requires NoNegativeHeight(c) && fc.c.Renew?
    ensures NoNegativeHeight(Perform(p, c, fc))
  {
  }

  lemma TransferKeepsFloor(p: Params, c: Config, fc: FoldCarrier)
    requires NoNegativeHeight(c) && fc.c.Transfer?
    ensures NoNegativeHeight(Perform(p, c, fc))
  {
  }

  lemma ReleaseKeepsFloor(p: Params, c: Config, fc: FoldCarrier)
    requires NoNegativeHeight(c) && fc.c.Release?
    ensures NoNegativeHeight(Perform(p, c, fc))
  {
  }

  lemma ByNameKeepsFloor(p: Params, c: Config, fc: FoldCarrier)
    requires NoNegativeHeight(c) && (fc.c.RenewName? || fc.c.TransferName? || fc.c.ReleaseName?)
    ensures NoNegativeHeight(Perform(p, c, fc))
  {
  }

  lemma OfferKeepsFloor(p: Params, c: Config, fc: FoldCarrier)
    requires NoNegativeHeight(c) && (fc.c.Sell? || fc.c.SellTo? || fc.c.Reserve?)
    ensures NoNegativeHeight(Perform(p, c, fc))
  {
  }

  lemma SaleKeepsFloor(p: Params, c: Config, fc: FoldCarrier)
    requires NoNegativeHeight(c) && (fc.c.Settle? || fc.c.Pay?)
    ensures NoNegativeHeight(Perform(p, c, fc))
  {
  }

  lemma PerformKeepsFloor(p: Params, c: Config, fc: FoldCarrier)
    requires NoNegativeHeight(c)
    ensures NoNegativeHeight(Perform(p, c, fc))
  {
    match fc.c
    case Ignore =>
    case As(_) =>
    case Trade(_, _, _, _) =>
    case Commit(_) => ClaimKeepsFloor(p, c, fc);
    case Claim(_, _) => ClaimKeepsFloor(p, c, fc);
    case Renew(_, _) => RenewKeepsFloor(p, c, fc);
    case Transfer(_, _, _) => TransferKeepsFloor(p, c, fc);
    case Release(_, _) => ReleaseKeepsFloor(p, c, fc);
    case Sell(_, _, _) => OfferKeepsFloor(p, c, fc);
    case SellTo(_, _, _) => OfferKeepsFloor(p, c, fc);
    case Reserve(_) => OfferKeepsFloor(p, c, fc);
    case Settle(_) => SaleKeepsFloor(p, c, fc);
    case Pay(_) => SaleKeepsFloor(p, c, fc);
    case _ => ByNameKeepsFloor(p, c, fc);
  }

  lemma StepKeepsFloor(p: Params, c: Config, step: Step)
    requires NoNegativeHeight(c) && (step.BeginBlock? ==> step.height >= 0)
    ensures NoNegativeHeight(Next(p, c, step))
  {
    match step
    case BeginBlock(_, mtp, _) => PruneKeepsLive(c.st.commits, mtp);
    case BeginTx(_) =>
    case Act(fc) => PerformKeepsFloor(p, c, fc);
  }

  lemma {:induction false} RunKeepsFloor(p: Params, steps: seq<Step>)
    requires WordSized(steps)
    ensures NoNegativeHeight(Exec(p, steps))
  {
    if steps != [] {
      var k := |steps| - 1;
      RunKeepsFloor(p, steps[..k]);
      StepKeepsFloor(p, Exec(p, steps[..k]), steps[k]);
    }
  }

  /** A reachable state with few enough rows fits: leases and offers end within a year of a 32-bit time. */
  lemma RunFits(p: Params, steps: seq<Step>)
    requires ValidRun(p, steps) && WordSized(steps) && SmallTables(Exec(p, steps).st)
    ensures Fits(Exec(p, steps).st)
  {
    RunOk(p, steps);
    RunKeepsFloor(p, steps);
    if steps != [] {
      var j := LatestExists(steps);
      LatestBlock(p, steps, j);
    }
    SoundFits(Exec(p, steps));
  }

  lemma SoundFits(c: Config)
    requires Inv(c) && NoNegativeHeight(c) && SmallTables(c.st)
    requires c.height < 0x8000_0000_0000_0000 && 0 <= c.mtp < TWO_TO_THE_32
    ensures Fits(c.st)
  {
    forall n | n in c.st.names ensures RowFits(c.st.names[n]) {
      assert RowOk(c.st.names[n], c.mtp);
    }
    forall d | d in c.st.commits ensures CommitFits(d) {
      var i :| 0 <= i < |c.st.commits| && c.st.commits[i] == d;
    }
  }

  /** Two runs end with the same digest bytes exactly when they end with the same tables. */
  lemma RunsDigestAlike(p: Params, run: seq<Step>, q: Params, other: seq<Step>, b: Bytes, c: Bytes)
    requires ValidRun(p, run) && WordSized(run) && SmallTables(Exec(p, run).st)
    requires ValidRun(q, other) && WordSized(other) && SmallTables(Exec(q, other).st)
    requires IsPreimage(Exec(p, run).st, b) && IsPreimage(Exec(q, other).st, c)
    ensures b == c <==> SameTables(Exec(p, run).st, Exec(q, other).st)
  {
    RunFits(p, run);
    RunFits(q, other);
    ReachableTimes(p, run);
    SameBytesSameTables(Exec(p, run).st, Exec(q, other).st, b, c);
  }

  // ---- writing the bytes ----

  lemma {:induction false} NamesSnoc(es: seq<NameEntry>, e: NameEntry)
    ensures NamesBytes(es + [e]) == NamesBytes(es) + NameBytes(e)
  {
    if es == [] {
      assert [e][1..] == [] && NameBytes(e) + [] == NameBytes(e) && [] + [e] == [e];
    } else {
      NamesSnoc(es[1..], e);
      assert (es + [e])[1..] == es[1..] + [e] && (es + [e])[0] == es[0];
      Regroup(NameBytes(es[0]), NamesBytes(es[1..]), NameBytes(e));
    }
  }

  lemma {:induction false} CommitsSnoc(cs: seq<CommitRow>, c: CommitRow)
    ensures CommitsBytes(cs + [c]) == CommitsBytes(cs) + CommitBytes(c)
  {
    if cs == [] {
      assert [c][1..] == [] && CommitBytes(c) + [] == CommitBytes(c) && [] + [c] == [c];
    } else {
      CommitsSnoc(cs[1..], c);
      assert (cs + [c])[1..] == cs[1..] + [c];
    }
  }

  lemma {:induction false} MutsSnoc(ms: seq<MutEntry>, m: MutEntry)
    ensures MutsBytes(ms + [m]) == MutsBytes(ms) + MutBytes(m)
  {
    if ms == [] {
      assert [m][1..] == [] && MutBytes(m) + [] == MutBytes(m) && [] + [m] == [m];
    } else {
      MutsSnoc(ms[1..], m);
      assert (ms + [m])[1..] == ms[1..] + [m];
    }
  }

  method SortedCommits(commits: seq<CommitRow>) returns (cs: seq<CommitRow>)
    ensures IsOrderOf(commits, cs)
  {
    cs := [];
    for i := 0 to |commits|
      invariant IsOrderOf(commits[..i], cs)
    {
      cs := InsertCommit(cs, commits[i]);
      assert commits[..i + 1] == commits[..i] + [commits[i]];
    }
    assert commits[..|commits|] == commits;
  }

  method WriteNameList(b: Bytes, es: seq<NameEntry>) returns (r: Bytes)
    ensures r == b + (Count(|es|) + NamesBytes(es))
  {
    ghost var head := b + Count(|es|);
    r := b + Count(|es|);
    assert es[..0] == [] && head + [] == head;
    for i := 0 to |es|
      invariant r == head + NamesBytes(es[..i])
    {
      r := r + NameBytes(es[i]);
      NamesSnoc(es[..i], es[i]);
      assert es[..i + 1] == es[..i] + [es[i]];
      Regroup(head, NamesBytes(es[..i]), NameBytes(es[i]));
    }
    assert es[..|es|] == es;
    Regroup(b, Count(|es|), NamesBytes(es));
  }

  method WriteNames(b: Bytes, names: map<Name, NameRow>) returns (r: Bytes)
    ensures r == b + (Count(|names|) + NamesBytes(NameEntries(names)))
  {
    var keys := SortNames(names.Keys);
    assert forall i :: 0 <= i < |keys| ==> keys[i] in names;
    var es := seq(|keys|, i requires 0 <= i < |keys| => (keys[i], names[keys[i]]));
    assert es == NameEntries(names);
    r := WriteNameList(b, es);
  }

  method WriteCommits(b: Bytes, commits: seq<CommitRow>) returns (r: Bytes, ghost cs: seq<CommitRow>)
    ensures IsOrderOf(commits, cs) && r == b + (Count(|cs|) + CommitsBytes(cs))
  {
    var sorted := SortedCommits(commits);
    cs := sorted;
    ghost var head := b + Count(|cs|);
    r := b + Count(|sorted|);
    assert cs[..0] == [] && head + [] == head;
    for i := 0 to |sorted|
      invariant r == head + CommitsBytes(cs[..i])
    {
      r := r + CommitBytes(sorted[i]);
      CommitsSnoc(cs[..i], cs[i]);
      assert cs[..i + 1] == cs[..i] + [cs[i]];
      Regroup(head, CommitsBytes(cs[..i]), CommitBytes(cs[i]));
    }
    assert cs[..|sorted|] == cs;
    Regroup(b, Count(|cs|), CommitsBytes(cs));
  }

  method WriteMutList(b: Bytes, ms: seq<MutEntry>) returns (r: Bytes)
    ensures r == b + (Count(|ms|) + MutsBytes(ms))
  {
    ghost var head := b + Count(|ms|);
    r := b + Count(|ms|);
    assert ms[..0] == [] && head + [] == head;
    for i := 0 to |ms|
      invariant r == head + MutsBytes(ms[..i])
    {
      r := r + MutBytes(ms[i]);
      MutsSnoc(ms[..i], ms[i]);
      assert ms[..i + 1] == ms[..i] + [ms[i]];
      Regroup(head, MutsBytes(ms[..i]), MutBytes(ms[i]));
    }
    assert ms[..|ms|] == ms;
    Regroup(b, Count(|ms|), MutsBytes(ms));
  }

  method WriteMuts(b: Bytes, muts: map<Hash160, int>) returns (r: Bytes)
    ensures r == b + (Count(|MutEntries(muts)|) + MutsBytes(MutEntries(muts)))
  {
    var owners := set n: Name | n in muts;
    assert owners == OwnerNames(muts);
    var keys := SortNames(owners);
    assert forall i :: 0 <= i < |keys| ==> keys[i] in muts;
    var ms := seq(|keys|, i requires 0 <= i < |keys| => OwnerEntry(muts, keys[i]));
    assert ms == MutEntries(muts);
    r := WriteMutList(b, ms);
  }

  /** The digest of a state: the hash of one of its preimages. */
  method StateDigest(p: Params, s: State) returns (digest: Hash256, pre: Bytes)
    ensures IsPreimage(s, pre) && digest == p.sha(pre)
  {
    var b := WriteNames(MAGIC, s.names);
    var c;
    ghost var cs;
    c, cs := WriteCommits(b, s.commits);
    pre := WriteMuts(c, s.muts);
    Flattened(NameEntries(s.names), cs, MutEntries(s.muts), b, c, pre);
    digest := p.sha(pre);
  }

  lemma Flattened(ns: seq<NameEntry>, cs: seq<CommitRow>, ms: seq<MutEntry>, b: Bytes, c: Bytes, d: Bytes)
    requires b == MAGIC + (Count(|ns|) + NamesBytes(ns))
    requires c == b + (Count(|cs|) + CommitsBytes(cs))
    requires d == c + (Count(|ms|) + MutsBytes(ms))
    ensures d == Layout(ns, cs, ms)
  {
    var names, commits, muts := Count(|ns|) + NamesBytes(ns), Count(|cs|) + CommitsBytes(cs),
        Count(|ms|) + MutsBytes(ms);
    Regroup(MAGIC + names, commits, muts);
    Regroup(MAGIC, names, commits + muts);
    Regroup(Count(|ns|), NamesBytes(ns), commits + muts);
    Regroup(Count(|cs|), CommitsBytes(cs), muts);
  }

  // ---- where the records stand ----

  /** A name record is the name behind its length, then the row. */
  lemma NameOffsets(e: NameEntry)
    ensures var b, k := NameBytes(e), 1 + |e.0|;
      |b| == k + 110 && b[0] as int == |e.0| && b[1..k] == e.0 && b[k..] == RowBytes(e.1)
  {
  }

  lemma {:induction false} CommitAt(cs: seq<CommitRow>, i: nat)
    requires i < |cs|
    ensures |CommitsBytes(cs)| == 52 * |cs| && CommitsBytes(cs)[52 * i..52 * i + 52] == CommitBytes(cs[i])
  {
    CommitsLength(cs[1..]);
    if i > 0 {
      CommitAt(cs[1..], i - 1);
      Further(CommitBytes(cs[0]), CommitsBytes(cs[1..]), 52 * i, 52);
    }
  }

  lemma {:induction false} CommitsLength(cs: seq<CommitRow>)
    ensures |CommitsBytes(cs)| == 52 * |cs|
  {
    if cs != [] { CommitsLength(cs[1..]); }
  }

  lemma Further(head: Bytes, rest: Bytes, at: nat, len: nat)
    requires |head| <= at && at + len <= |head| + |rest|
    ensures (head + rest)[at..at + len] == rest[at - |head|..at - |head| + len]
  {
  }

  lemma {:induction false} MutAt(ms: seq<MutEntry>, i: nat)
    requires i < |ms|
    ensures |MutsBytes(ms)| == 28 * |ms|
    ensures MutsBytes(ms)[28 * i..28 * i + 28] == ms[i].0 + I64(ms[i].1)
  {
    MutsLength(ms[1..]);
    if i > 0 {
      MutAt(ms[1..], i - 1);
      Further(MutBytes(ms[0]), MutsBytes(ms[1..]), 28 * i, 28);
    }
  }

  lemma {:induction false} MutsLength(ms: seq<MutEntry>)
    ensures |MutsBytes(ms)| == 28 * |ms|
  {
    if ms != [] { MutsLength(ms[1..]); }
  }

  /** The three lists one after the other, each behind its count. */
  lemma LayoutOffsets(ns: seq<NameEntry>, cs: seq<CommitRow>, ms: seq<MutEntry>, b: Bytes, x: nat, y: nat)
    requires |ns| < TWO_TO_THE_32 && |cs| < TWO_TO_THE_32 && |ms| < TWO_TO_THE_32
    requires b == Layout(ns, cs, ms) && x == 8 + |NamesBytes(ns)| && y == x + 4 + 52 * |cs|
    ensures |b| == y + 4 + 28 * |ms| && b[..4] == [0x53, 0x4d, 0x76, 0x31]
    ensures Val(b[4..8]) == |ns| && b[8..x] == NamesBytes(ns)
    ensures Val(b[x..x + 4]) == |cs| && b[x + 4..y] == CommitsBytes(cs)
    ensures Val(b[y..y + 4]) == |ms| && b[y + 4..] == MutsBytes(ms)
  {
    CountIsValue(|ns|);
    CountIsValue(|cs|);
    CountIsValue(|ms|);
    CommitsLength(cs);
    MutsLength(ms);
    var names, commits, muts := NamesBytes(ns), CommitsBytes(cs), MutsBytes(ms);
    SevenParts(b, MAGIC, Count(|ns|), names, Count(|cs|), commits, Count(|ms|), muts, x, y);
  }

  lemma CountIsValue(n: nat)
    requires n < TWO_TO_THE_32
    ensures Val(Count(n)) == n
  {
    EightBytes();
    LeIsValue(n, 4);
  }

  lemma SevenParts(s: Bytes, a: Bytes, b: Bytes, c: Bytes, d: Bytes, e: Bytes, f: Bytes, g: Bytes, x: nat, y: nat)
    requires s == a + (b + (c + (d + (e + (f + g)))))
    requires |a| == 4 && |b| == 4 && |d| == 4 && |f| == 4 && x == 8 + |c| && y == x + 4 + |e|
    ensures |s| == y + 4 + |g| && s[..4] == a && s[4..8] == b && s[8..x] == c
    ensures s[x..x + 4] == d && s[x + 4..y] == e && s[y..y + 4] == f && s[y + 4..] == g
  {
    ThreeParts(s, 0, a, b, c, d + (e + (f + g)), 4, 8, x);
    TwoParts(s, x, d, e, f + g, x + 4, y);
    NextPart(s, y, f, g);
  }

  lemma ThreeParts(s: Bytes, at: nat, a: Bytes, b: Bytes, c: Bytes, rest: Bytes, j: nat, k: nat, m: nat)
    requires at <= |s| && s[at..] == a + (b + (c + rest))
    requires j == at + |a| && k == j + |b| && m == k + |c|
    ensures m <= |s| && s[at..j] == a && s[j..k] == b && s[k..m] == c && s[m..] == rest
  {
    NextPart(s, at, a, b + (c + rest));
    TwoParts(s, j, b, c, rest, k, m);
  }

  lemma TwoParts(s: Bytes, at: nat, a: Bytes, b: Bytes, rest: Bytes, j: nat, k: nat)
    requires at <= |s| && s[at..] == a + (b + rest) && j == at + |a| && k == j + |b|
    ensures k <= |s| && s[at..j] == a && s[j..k] == b && s[k..] == rest
  {
    NextPart(s, at, a, b + rest);
    NextPart(s, j, b, rest);
  }

  lemma NextPart(s: Bytes, at: nat, head: Bytes, tail: Bytes)
    requires at <= |s| && s[at..] == head + tail
    ensures at + |head| <= |s| && s[at..at + |head|] == head && s[at + |head|..] == tail
  {
    assert s[at..at + |head|] == s[at..][..|head|];
    assert s[at + |head|..] == s[at..][|head|..];
  }

  /** Sorted commits stand by digest, then height, then transaction index. */
  lemma CommitsStandByDigest(cs: seq<CommitRow>, i: nat, j: nat)
    requires InOrder(cs) && i < j < |cs|
    ensures var c, d := cs[i], cs[j];
      || Less(c.commitment, d.commitment)
      || (c.commitment == d.commitment && c.height < d.height)
      || (c.commitment == d.commitment && c.height == d.height && c.txIndex <= d.txIndex)
  {
    LessIsTotal(cs[i].commitment, cs[j].commitment);
  }

  /** What is hashed for a state: its names in byte order, its commits sorted, its owners in byte order. */
  lemma PreimageLists(s: State, b: Bytes) returns (ns: seq<NameEntry>, cs: seq<CommitRow>, ms: seq<MutEntry>)
    requires IsPreimage(s, b)
    ensures b == Layout(ns, cs, ms)
    ensures (forall n, r :: (n, r) in ns <==> n in s.names && s.names[n] == r)
    ensures forall i, j :: 0 <= i < j < |ns| ==> Less(ns[i].0, ns[j].0)
    ensures multiset(cs) == multiset(s.commits) && InOrder(cs)
    ensures (forall o, h :: (o, h) in ms <==> o in s.muts && s.muts[o] == h)
    ensures forall i, j :: 0 <= i < j < |ms| ==> Less(ms[i].0, ms[j].0)
  {
    cs :| IsOrderOf(s.commits, cs) && b == StateBytes(s, cs);
    ns, ms := NameEntries(s.names), MutEntries(s.muts);
    forall n, r ensures (n, r) in ns <==> n in s.names && s.names[n] == r { NameIsListed(s.names, n); }
    forall o, h ensures (o, h) in ms <==> o in s.muts && s.muts[o] == h { MutIsListed(s.muts, o); }
  }
}
