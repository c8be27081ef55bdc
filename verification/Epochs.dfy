/**
 Ownership history: rows (name, start height, owner or nobody), written only in blocks
 that folded a carrier or fired a lapse, answer who owned a name at every height as the
 fold itself would.
 */
module Epochs {
  import opened Primitives
  import opened NameOrder
  import opened Protocol
  import opened Fold
  import opened FoldInvariant
  import opened Replay

  datatype Key = Key(name: Name, start: int)

  /** An epoch row without an owner records that the name left the state at its start. */
  type Table = map<Key, Option<Hash160>>

  // ---- the latest row of a name up to a height ----

  ghost function Starts(t: Table, n: Name, h: int): set<int> {
    set k | k in t && k.name == n && k.start <= h :: k.start
  }

  ghost predicate IsMax(m: int, s: set<int>) {
    m in s && forall x :: x in s ==> x <= m
  }

  lemma {:induction false} MaxExists(s: set<int>, x: int)
    requires x in s
    ensures exists m :: IsMax(m, s)
  {
    if y: int :| y in s - {x} {
      MaxExists(s - {x}, y);
      var m: int :| IsMax(m, s - {x});
      assert forall z :: z in s ==> z == x || z in s - {x};
      if m > x { assert IsMax(m, s); } else { assert IsMax(x, s); }
    } else {
      assert forall z :: z in s ==> z == x || z in s - {x};
      assert IsMax(x, s);
    }
  }

  /** The row in force for a name at a height, if any row starts by then. */
  ghost function Recorded(t: Table, n: Name, h: int): (r: Option<Option<Hash160>>)
    ensures r.None? <==> forall m :: m !in Starts(t, n, h)
    ensures r.Some? ==> exists m :: IsMax(m, Starts(t, n, h)) && Key(n, m) in t && r.value == t[Key(n, m)]
  {
    if x: int :| x in Starts(t, n, h) then
      MaxExists(Starts(t, n, h), x);
      var m :| IsMax(m, Starts(t, n, h));
      assert Key(n, m) in t;
      Some(t[Key(n, m)])
    else None
  }

  /** The owner on record: nobody without a row or under an empty one. */
  ghost function OwnerAt(t: Table, n: Name, h: int): Option<Hash160> {
    var r := Recorded(t, n, h);
    if r.Some? then r.value else None
  }

  function Row(t: Table, k: Key): Option<Option<Hash160>> {
    if k in t then Some(t[k]) else None
  }

  /** Tables with the same rows of n up to h record the same for n at h. */
  lemma RecordedDependsOnRows(t: Table, u: Table, n: Name, h: int)
    requires forall s :: s <= h ==> Row(t, Key(n, s)) == Row(u, Key(n, s))
    ensures Recorded(t, n, h) == Recorded(u, n, h)
  {
    forall s ensures s in Starts(t, n, h) <==> s in Starts(u, n, h) {
      if s in Starts(t, n, h) { assert Key(n, s) in t; assert Row(t, Key(n, s)) == Row(u, Key(n, s)); }
      if s in Starts(u, n, h) { assert Key(n, s) in u; assert Row(t, Key(n, s)) == Row(u, Key(n, s)); }
    }
    assert Starts(t, n, h) == Starts(u, n, h);
    if m :| IsMax(m, Starts(t, n, h)) {
      assert Row(t, Key(n, m)) == Row(u, Key(n, m));
    }
  }

  lemma RecordedAtStart(t: Table, n: Name, h: int)
    requires Key(n, h) in t
    ensures Recorded(t, n, h) == Some(t[Key(n, h)])
  {
    assert h in Starts(t, n, h);
    assert IsMax(h, Starts(t, n, h));
  }

  // ---- the per-block update ----

  /** Row of n at the height of the update, after it. */
  ghost function RowAfter(t: Table, names: map<Name, NameRow>, n: Name, h: int): Option<Option<Hash160>> {
    if OwnerAt(t, n, h) == OwnerOf(names, n) then Row(t, Key(n, h))
    else Some(OwnerOf(names, n))
  }

  /** The table after the update, row by row. */
  ghost predicate Updated(t: Table, u: Table, names: map<Name, NameRow>, h: int) {
    forall k :: Row(u, k) == if k.start == h then RowAfter(t, names, k.name, h) else Row(t, k)
  }

  function NameSet(t: Table): set<Name> {
    set k | k in t :: k.name
  }

  /** The keys an update may leave a row at. */
  function Touched(t: Table, names: map<Name, NameRow>, h: int): set<Key> {
    t.Keys + set n | n in names.Keys + NameSet(t) :: Key(n, h)
  }

  ghost function RowThen(t: Table, names: map<Name, NameRow>, k: Key, h: int): Option<Option<Hash160>> {
    if k.start == h then RowAfter(t, names, k.name, h) else Row(t, k)
  }

  /** The one table an update leaves. */
  ghost function UpdatedTable(t: Table, names: map<Name, NameRow>, h: int): Table {
    map k | k in Touched(t, names, h) && RowThen(t, names, k, h).Some? :: RowThen(t, names, k, h).value
  }

  lemma UntouchedHasNoRow(t: Table, names: map<Name, NameRow>, k: Key, h: int)
    requires k !in Touched(t, names, h)
    ensures RowThen(t, names, k, h).None?
  {
    if k.start == h {
      assert k.name !in names && k.name !in NameSet(t);
      forall s ensures Row(t, Key(k.name, s)).None? {
        assert Key(k.name, s) in t ==> k.name in NameSet(t);
      }
      assert forall m :: m in Starts(t, k.name, h) ==> Row(t, Key(k.name, m)).Some?;
    }
  }

  lemma UpdatedTableIsUpdated(t: Table, names: map<Name, NameRow>, h: int)
    ensures Updated(t, UpdatedTable(t, names, h), names, h)
  {
    var u := UpdatedTable(t, names, h);
    forall k ensures Row(u, k) == if k.start == h then RowAfter(t, names, k.name, h) else Row(t, k) {
      assert RowThen(t, names, k, h) == if k.start == h then RowAfter(t, names, k.name, h) else Row(t, k);
      if k !in Touched(t, names, h) { UntouchedHasNoRow(t, names, k, h); }
    }
  }

  lemma UpdatedIsUnique(t: Table, u: Table, v: Table, names: map<Name, NameRow>, h: int)
    requires Updated(t, u, names, h) && Updated(t, v, names, h)
    ensures u == v
  {
    forall k ensures Row(u, k) == Row(v, k) {
    }
    SameRows(u, v);
  }

  lemma SameRows(u: Table, v: Table)
    requires forall k :: Row(u, k) == Row(v, k)
    ensures u == v
  {
    forall k ensures k in u <==> k in v {
      assert Row(u, k) == Row(v, k);
    }
    forall k | k in u ensures u[k] == v[k] {
      assert Row(u, k) == Row(v, k);
    }
  }

  /** After the update the table and the state agree on every owner, and earlier heights are untouched. */
  lemma UpdatedAgrees(t: Table, u: Table, names: map<Name, NameRow>, h: int, n: Name)
    requires Updated(t, u, names, h)
    ensures OwnerAt(u, n, h) == OwnerOf(names, n)
    ensures forall g :: g < h ==> Recorded(u, n, g) == Recorded(t, n, g)
  {
    forall g | g < h ensures Recorded(u, n, g) == Recorded(t, n, g) {
      assert forall s :: s <= g ==> Row(u, Key(n, s)) == Row(t, Key(n, s));
      RecordedDependsOnRows(u, t, n, g);
    }
    assert Row(u, Key(n, h)) == RowAfter(t, names, n, h);
    if OwnerAt(t, n, h) == OwnerOf(names, n) {
      assert forall s :: s <= h ==> Row(u, Key(n, s)) == Row(t, Key(n, s));
      RecordedDependsOnRows(u, t, n, h);
    } else {
      RecordedAtStart(u, n, h);
    }
  }

  /** Re-running the update over a table that already agrees changes nothing, whatever rows stand above. */
  lemma RederivingIsNoOp(t: Table, u: Table, names: map<Name, NameRow>, h: int)
    requires Updated(t, u, names, h)
    requires forall n :: OwnerAt(t, n, h) == OwnerOf(names, n)
    ensures u == t
  {
    forall k ensures Row(u, k) == Row(t, k) {
    }
    SameRows(u, t);
  }

  /** The query: newest row of a name starting by a height. */
  method Lookup(t: Table, n: Name, h: int) returns (r: Option<Option<Hash160>>)
    ensures r == Recorded(t, n, h)
  {
    r := None;
    var best := 0;
    var todo := t.Keys;
    while todo != {}
      invariant todo <= t.Keys
      invariant r.None? ==> forall k :: k in t.Keys - todo ==> !(k.name == n && k.start <= h)
      invariant r.Some? ==> Key(n, best) in t && best <= h && r.value == t[Key(n, best)]
      invariant r.Some? ==> forall k :: k in t.Keys - todo && k.name == n && k.start <= h ==> k.start <= best
      decreases todo
    {
      var k :| k in todo;
      if k.name == n && k.start <= h && (r.None? || k.start > best) {
        r, best := Some(t[k]), k.start;
        assert k == Key(n, best);
      }
      todo := todo - {k};
    }
    if r.Some? {
      assert best in Starts(t, n, h);
      assert IsMax(best, Starts(t, n, h));
    }
  }

  ghost predicate PartlyUpdated(t: Table, u: Table, names: map<Name, NameRow>, done: set<Name>, h: int) {
    forall k :: Row(u, k) == if k.start == h && k.name in done then RowAfter(t, names, k.name, h) else Row(t, k)
  }

  lemma NotYetUpdated(t: Table, u: Table, names: map<Name, NameRow>, done: set<Name>, h: int, n: Name)
    requires PartlyUpdated(t, u, names, done, h) && n !in done
    ensures Recorded(u, n, h) == Recorded(t, n, h)
  {
    assert forall s :: s <= h ==> Row(u, Key(n, s)) == Row(t, Key(n, s));
    RecordedDependsOnRows(u, t, n, h);
  }

  lemma UpdateOne(t: Table, u: Table, v: Table, names: map<Name, NameRow>, done: set<Name>, h: int, n: Name)
    requires PartlyUpdated(t, u, names, done, h) && n !in done
    requires v == if OwnerAt(t, n, h) == OwnerOf(names, n) then u else u[Key(n, h) := OwnerOf(names, n)]
    ensures PartlyUpdated(t, v, names, done + {n}, h)
  {
    forall k
      ensures Row(v, k) == if k.start == h && k.name in done + {n} then RowAfter(t, names, k.name, h) else Row(t, k)
    {
      assert Row(u, k) == if k.start == h && k.name in done then RowAfter(t, names, k.name, h) else Row(t, k);
      if k != Key(n, h) { assert Row(v, k) == Row(u, k); }
    }
  }

  /** Record every live name whose owner differs from its row. */
  method RecordLive(t: Table, names: map<Name, NameRow>, h: int) returns (u: Table)
    ensures PartlyUpdated(t, u, names, names.Keys, h)
  {
    u := t;
    var todo := names.Keys;
    ghost var done: set<Name> := {};
    while todo != {}
      invariant todo <= names.Keys && done == names.Keys - todo
      invariant PartlyUpdated(t, u, names, done, h)
      decreases todo
    {
      var n :| n in todo;
      NotYetUpdated(t, u, names, done, h, n);
      ghost var before := u;
      var r := Lookup(u, n, h);
      if r != Some(Some(names[n].owner)) {
        u := u[Key(n, h) := Some(names[n].owner)];
      }
      UpdateOne(t, before, u, names, done, h, n);
      done := done + {n};
      todo := todo - {n};
    }
  }

  /** Close the row of a name that left the state, if it is open. */
  method CloseOne(ghost t: Table, v: Table, ghost names: map<Name, NameRow>, h: int, n: Name, ghost done: set<Name>)
    returns (u: Table)
    requires PartlyUpdated(t, v, names, done, h) && n !in done && n !in names
    ensures PartlyUpdated(t, u, names, done + {n}, h)
  {
    u := v;
    NotYetUpdated(t, v, names, done, h, n);
    var r := Lookup(v, n, h);
    if r.Some? && r.value.Some? {
      u := u[Key(n, h) := None];
    }
    UpdateOne(t, v, u, names, done, h, n);
  }

  /** Close the open rows of names that left the state. */
  method CloseOpen(ghost t: Table, v: Table, names: map<Name, NameRow>, h: int) returns (u: Table)
    requires PartlyUpdated(t, v, names, names.Keys, h)
    ensures Updated(t, u, names, h)
  {
    u := v;
    var gone := (set k | k in v :: k.name) - names.Keys;
    var todo := gone;
    ghost var done := names.Keys;
    while todo != {}
      invariant todo <= gone && done == names.Keys + (gone - todo)
      invariant PartlyUpdated(t, u, names, done, h)
      decreases todo
    {
      var n :| n in todo;
      u := CloseOne(t, u, names, h, n, done);
      done := done + {n};
      todo := todo - {n};
    }
    forall k ensures Row(u, k) == if k.start == h then RowAfter(t, names, k.name, h) else Row(t, k) {
      NamesWithoutRows(t, u, v, names, done, h, k);
    }
  }

  lemma NamesWithoutRows(t: Table, u: Table, v: Table, names: map<Name, NameRow>, done: set<Name>, h: int, k: Key)
    requires PartlyUpdated(t, u, names, done, h) && PartlyUpdated(t, v, names, names.Keys, h)
    requires done == names.Keys + (set x | x in v :: x.name)
    ensures Row(u, k) == if k.start == h then RowAfter(t, names, k.name, h) else Row(t, k)
  {
    var n := k.name;
    assert Row(u, k) == if k.start == h && n in done then RowAfter(t, names, n, h) else Row(t, k);
    if n !in done {
      forall s ensures Row(t, Key(n, s)).None? {
        assert Row(v, Key(n, s)) == Row(t, Key(n, s));
        assert Key(n, s) !in v;
      }
      assert forall m :: m in Starts(t, n, h) ==> Row(t, Key(n, m)).Some?;
    }
  }

  method Update(t: Table, names: map<Name, NameRow>, h: int) returns (u: Table)
    ensures Updated(t, u, names, h)
  {
    u := RecordLive(t, names, h);
    u := CloseOpen(t, u, names, h);
  }

  // ---- history against the fold ----

  /** The state after the last block of height at most h. */
  ghost function After(p: Params, es: seq<Entry>, h: int): State {
    if es == [] then EMPTY_STATE
    else if es[|es| - 1].b.height <= h then Live(p, es)
    else After(p, es[..|es| - 1], h)
  }

  /** The history answers for every name and height what the fold held there. */
  ghost predicate Accurate(t: Table, p: Params, es: seq<Entry>) {
    forall n, h :: OwnerAt(t, n, h) == OwnerOf(After(p, es, h).names, n)
  }

  ghost predicate RightAt(t: Table, p: Params, es: seq<Entry>, n: Name, h: int) {
    OwnerAt(t, n, h) == OwnerOf(After(p, es, h).names, n)
  }

  ghost predicate RowsUpTo(t: Table, tip: int) {
    forall k :: k in t ==> k.start <= tip
  }

  /** The update runs only in a block that folded a carrier or fired a lapse. */
  ghost predicate Gate(s: State, b: FoldBlock) {
    Folds(b) || FiresLapse(s, b.mtp)
  }

  /** A block that does neither moves no name. */
  lemma UngatedBlockMovesNothing(p: Params, s: State, b: FoldBlock, n: Name)
    requires !Gate(s, b)
    ensures OwnerOf(BlockState(p, s, b).names, n) == OwnerOf(s.names, n)
  {
    IdleBlock(p, s, b);
    if n in s.names { AgeTwice(s.names[n], b.mtp, b.mtp); }
  }

  lemma {:induction false} AfterBeyondTip(p: Params, es: seq<Entry>, h: int)
    requires es == [] || es[|es| - 1].b.height <= h
    ensures After(p, es, h) == Live(p, es)
  {
  }

  lemma RowsBeyondTip(t: Table, tip: int, n: Name, h: int)
    requires RowsUpTo(t, tip) && tip <= h
    ensures Recorded(t, n, h) == Recorded(t, n, tip)
  {
    assert Starts(t, n, h) == Starts(t, n, tip);
  }

  /** The history rows connecting a block writes: those of an update if the gate is open, none otherwise. */
  ghost predicate Written(t: Table, u: Table, p: Params, es: seq<Entry>, e: Entry) {
    if Gate(Live(p, es), e.b) then Updated(t, u, Live(p, es + [e]).names, e.b.height) else u == t
  }

  /** Connecting a block keeps the history accurate, although most blocks write no row. */
  lemma ConnectKeepsAccurate(t: Table, u: Table, p: Params, es: seq<Entry>, e: Entry, tip: int)
    requires Accurate(t, p, es) && RowsUpTo(t, tip) && tip < e.b.height
    requires es != [] ==> es[|es| - 1].b.height <= tip
    requires Written(t, u, p, es, e)
    ensures Accurate(u, p, es + [e]) && RowsUpTo(u, e.b.height)
  {
    if Gate(Live(p, es), e.b) { UpdatedRowsUpTo(t, u, Live(p, es + [e]).names, e.b.height, tip); }
    forall n, h ensures OwnerAt(u, n, h) == OwnerOf(After(p, es + [e], h).names, n) {
      assert RightAt(t, p, es, n, h) && RightAt(t, p, es, n, e.b.height);
      AnswerAfterConnect(t, u, p, es, e, tip, n, h);
    }
  }

  /** The answer at the connected height and at any other whose answer was right before. */
  lemma AnswerAfterConnect(t: Table, u: Table, p: Params, es: seq<Entry>, e: Entry, tip: int, n: Name, h: int)
    requires RowsUpTo(t, tip) && tip < e.b.height
    requires RightAt(t, p, es, n, h) && RightAt(t, p, es, n, e.b.height)
    requires es != [] ==> es[|es| - 1].b.height <= tip
    requires Written(t, u, p, es, e) && RowsUpTo(u, e.b.height)
    ensures OwnerAt(u, n, h) == OwnerOf(After(p, es + [e], h).names, n)
  {
    if h < e.b.height {
      EarlierUntouched(t, u, p, es, e, n, h);
    } else {
      TipAgrees(t, u, p, es, e, tip, n);
      RowsBeyondTip(u, e.b.height, n, h);
      AfterBeyondTip(p, es + [e], h);
    }
  }

  lemma EarlierUntouched(t: Table, u: Table, p: Params, es: seq<Entry>, e: Entry, n: Name, h: int)
    requires RightAt(t, p, es, n, h) && h < e.b.height && Written(t, u, p, es, e)
    ensures OwnerAt(u, n, h) == OwnerOf(After(p, es + [e], h).names, n)
  {
    AfterBefore(p, es, e, h);
    if Gate(Live(p, es), e.b) { UpdatedAgrees(t, u, Live(p, es + [e]).names, e.b.height, n); }
  }

  lemma AfterBefore(p: Params, es: seq<Entry>, e: Entry, h: int)
    requires h < e.b.height
    ensures After(p, es + [e], h) == After(p, es, h)
  {
    assert (es + [e])[..|es|] == es;
  }

  lemma UpdatedRowsUpTo(t: Table, u: Table, names: map<Name, NameRow>, h: int, tip: int)
    requires Updated(t, u, names, h) && RowsUpTo(t, tip) && tip < h
    ensures RowsUpTo(u, h)
  {
    forall k | k in u ensures k.start <= h {
      assert Row(u, k) == if k.start == h then RowAfter(t, names, k.name, h) else Row(t, k);
    }
  }

  lemma TipAgrees(t: Table, u: Table, p: Params, es: seq<Entry>, e: Entry, tip: int, n: Name)
    requires RightAt(t, p, es, n, e.b.height) && RowsUpTo(t, tip) && tip < e.b.height
    requires es != [] ==> es[|es| - 1].b.height <= tip
    requires Written(t, u, p, es, e)
    ensures OwnerAt(u, n, e.b.height) == OwnerOf(Live(p, es + [e]).names, n)
  {
    assert (es + [e])[..|es|] == es;
    if Gate(Live(p, es), e.b) {
      UpdatedAgrees(t, u, Live(p, es + [e]).names, e.b.height, n);
    } else {
      UngatedBlockMovesNothing(p, Live(p, es), e.b, n);
      AfterBeyondTip(p, es, e.b.height);
    }
  }

  // ---- rollback and rederivation ----

  function PruneAbove(t: Table, h: int): Table {
    map k | k in t && k.start <= h :: t[k]
  }

  /** Dropping the rows above a height leaves the accurate history of the blocks up to it. */
  lemma PruneKeepsAccurate(t: Table, p: Params, es: seq<Entry>, k: nat, h: int)
    requires k <= |es| && Accurate(t, p, es) && InOrder(p, es)
    requires k > 0 ==> es[k - 1].b.height <= h
    requires k < |es| ==> es[k].b.height > h
    ensures Accurate(PruneAbove(t, h), p, es[..k]) && RowsUpTo(PruneAbove(t, h), h)
  {
    var u := PruneAbove(t, h);
    forall n, g ensures OwnerAt(u, n, g) == OwnerOf(After(p, es[..k], g).names, n) {
      var m := if g <= h then g else h;
      PrunedAnswer(t, n, g, h);
      AfterPrefix(p, es, k, h, g);
      assert OwnerAt(t, n, m) == OwnerOf(After(p, es, m).names, n);
    }
  }

  /** The pruned table answers at every height as the whole one does up to the cut. */
  lemma PrunedAnswer(t: Table, n: Name, g: int, h: int)
    ensures OwnerAt(PruneAbove(t, h), n, g) == OwnerAt(t, n, if g <= h then g else h)
  {
    var u, m := PruneAbove(t, h), if g <= h then g else h;
    assert Starts(u, n, g) == Starts(t, n, m);
    RecordedDependsOnRows(u, t, n, m);
    assert Starts(u, n, g) == Starts(u, n, m);
  }

  lemma {:induction false} AfterPrefix(p: Params, es: seq<Entry>, k: nat, h: int, g: int)
    requires k <= |es| && InOrder(p, es)
    requires k > 0 ==> es[k - 1].b.height <= h
    requires k < |es| ==> es[k].b.height > h
    ensures After(p, es[..k], g) == After(p, es, if g <= h then g else h)
  {
    if k == |es| {
      assert es[..k] == es;
      AfterBeyondTip(p, es, h);
      if g > h { AfterBeyondTip(p, es, g); }
    } else {
      var n := |es| - 1;
      assert es[n].b.height > h;
      assert es[..n][..k] == es[..k];
      AfterPrefix(p, es[..n], k, h, g);
    }
  }

  // ---- the public query ----

  datatype Answer = IsOwned(owner: Hash160) | Unowned | Unknown

  /** What the history says, given the height it is continuous from and the projected live names. */
  ghost function Query(t: Table, from: Option<int>, current: set<Name>, n: Name, h: int): Answer {
    var r := Recorded(t, n, h);
    if r.Some? then (if r.value.Some? then IsOwned(r.value.value) else Unowned)
    else if from.None? || from.value > h then Unknown
    else if exists s :: Key(n, s) in t then
      (if Key(n, from.value) in t && (forall s :: Key(n, s) in t ==> from.value <= s) then Unknown else Unowned)
    else if n in current then Unknown
    else Unowned
  }

  /** The start of a name's first row. */
  ghost predicate IsFirst(t: Table, n: Name, s: int) {
    Key(n, s) in t && forall x :: Key(n, x) in t ==> s <= x
  }

  method FirstStart(t: Table, n: Name) returns (first: Option<int>)
    ensures first.None? <==> forall s :: Key(n, s) !in t
    ensures first.Some? ==> IsFirst(t, n, first.value)
  {
    first := None;
    var todo := t.Keys;
    while todo != {}
      invariant todo <= t.Keys
      invariant first.None? ==> forall k :: k in t.Keys - todo ==> k.name != n
      invariant first.Some? ==> Key(n, first.value) in t
      invariant first.Some? ==> forall k :: k in t.Keys - todo && k.name == n ==> first.value <= k.start
      decreases todo
    {
      var k :| k in todo;
      if k.name == n && (first.None? || k.start < first.value) {
        first := Some(k.start);
        assert k == Key(n, k.start);
      }
      todo := todo - {k};
    }
    if first.None? {
      forall s ensures Key(n, s) !in t {
        assert Key(n, s) in t.Keys ==> Key(n, s).name != n;
      }
    }
  }

  /** The query over the tables. */
  method Ask(t: Table, from: Option<int>, current: set<Name>, n: Name, h: int) returns (a: Answer)
    ensures a == Query(t, from, current, n, h)
  {
    var r := Lookup(t, n, h);
    if r.Some? {
      return if r.value.Some? then IsOwned(r.value.value) else Unowned;
    }
    if from.None? || from.value > h { return Unknown; }
    var first := FirstStart(t, n);
    if first.Some? {
      assert IsFirst(t, n, first.value);
      a := if first.value == from.value then Unknown else Unowned;
    } else {
      a := if n in current then Unknown else Unowned;
    }
  }

  /** The query, marked as covered from genesis, gives the fold's answer. */
  ghost predicate AnswersTruly(t: Table, current: set<Name>, p: Params, es: seq<Entry>, n: Name, h: int) {
    Query(t, Some(0), current, n, h)
      == var o := OwnerOf(After(p, es, h).names, n); if o.Some? then IsOwned(o.value) else Unowned
  }

  ghost predicate AllAnswersTrue(t: Table, current: set<Name>, p: Params, es: seq<Entry>) {
    forall n, h :: h >= 0 ==> AnswersTruly(t, current, p, es, n, h)
  }

  /** On a history covered from genesis every answer at or above height zero is definite and is the fold's. */
  lemma GenesisHistoryIsExact(t: Table, p: Params, es: seq<Entry>, k: nat, n: Name, h: int)
    requires Accurate(t, p, es) && InOrder(p, es) && k <= |es| && h >= 0
    ensures AnswersTruly(t, Live(p, es[..k]).names.Keys, p, es, n, h)
  {
    assert OwnerAt(t, n, h) == OwnerOf(After(p, es, h).names, n);
    if Key(n, 0) in t { assert 0 in Starts(t, n, h); }
    if n in Live(p, es[..k]).names { OwnedHasRow(t, p, es, k, n); }
  }

  /** A name that was ever owned after some block has a row. */
  lemma OwnedHasRow(t: Table, p: Params, es: seq<Entry>, k: nat, n: Name)
    requires Accurate(t, p, es) && InOrder(p, es) && k <= |es| && n in Live(p, es[..k]).names
    ensures exists s :: Key(n, s) in t
  {
    var g := es[k - 1].b.height;
    AfterPrefix(p, es, k, g, g);
    AfterBeyondTip(p, es[..k], g);
    assert OwnerAt(t, n, g) == OwnerOf(After(p, es, g).names, n);
    assert Recorded(t, n, g).Some?;
  }

  // ---- a history that starts in the middle of a chain ----

  /** From this height on the history answers what the fold held, and it has no earlier row. */
  ghost predicate AccurateFrom(t: Table, p: Params, es: seq<Entry>, from: int) {
    (forall n, h :: h >= from ==> RightAt(t, p, es, n, h)) && forall k :: k in t ==> k.start >= from
  }

  /** The first rows ever written, those of one block, start an accurate history at that block. */
  lemma FirstRowsStartCoverage(u: Table, p: Params, es: seq<Entry>, e: Entry)
    requires Updated(map[], u, Live(p, es + [e]).names, e.b.height)
    ensures AccurateFrom(u, p, es + [e], e.b.height) && RowsUpTo(u, e.b.height)
  {
    var h := e.b.height;
    forall k | k in u ensures k.start == h {
      assert Row(u, k) == if k.start == h then RowAfter(map[], Live(p, es + [e]).names, k.name, h) else Row(map[], k);
    }
    forall n, g | g >= h ensures RightAt(u, p, es + [e], n, g) {
      UpdatedAgrees(map[], u, Live(p, es + [e]).names, h, n);
      RowsBeyondTip(u, h, n, g);
      AfterBeyondTip(p, es + [e], g);
    }
  }

  /** Connecting blocks keeps it accurate from the same height on. */
  lemma ConnectKeepsCoverage(t: Table, u: Table, p: Params, es: seq<Entry>, e: Entry, tip: int, from: int)
    requires AccurateFrom(t, p, es, from) && RowsUpTo(t, tip) && from <= tip < e.b.height
    requires es != [] ==> es[|es| - 1].b.height <= tip
    requires Written(t, u, p, es, e)
    ensures AccurateFrom(u, p, es + [e], from) && RowsUpTo(u, e.b.height)
  {
    if Gate(Live(p, es), e.b) {
      UpdatedRowsUpTo(t, u, Live(p, es + [e]).names, e.b.height, tip);
      UpdatedRowsFrom(t, u, Live(p, es + [e]).names, e.b.height, from);
    }
    forall n, h | h >= from ensures RightAt(u, p, es + [e], n, h) {
      assert RightAt(t, p, es, n, h) && RightAt(t, p, es, n, e.b.height);
      AnswerAfterConnect(t, u, p, es, e, tip, n, h);
    }
  }

  lemma UpdatedRowsFrom(t: Table, u: Table, names: map<Name, NameRow>, h: int, from: int)
    requires Updated(t, u, names, h) && from <= h && forall k :: k in t ==> k.start >= from
    ensures forall k :: k in u ==> k.start >= from
  {
    forall k | k in u ensures k.start >= from {
      assert Row(u, k) == if k.start == h then RowAfter(t, names, k.name, h) else Row(t, k);
    }
  }

  /** Such a history answers the fold's owner, or its absence, from its first height on, and nothing definite before. */
  lemma CoveredAnswersAreExact(t: Table, p: Params, es: seq<Entry>, from: int, n: Name, h: int)
    requires AccurateFrom(t, p, es, from) && InOrder(p, es) && es != [] && from <= es[|es| - 1].b.height
    ensures Query(t, Some(from), Live(p, es).names.Keys, n, h)
         == if h < from then Unknown
            else var o := OwnerOf(After(p, es, h).names, n); if o.Some? then IsOwned(o.value) else Unowned
  {
    if h >= from {
      assert RightAt(t, p, es, n, h);
      if Key(n, from) in t { assert from in Starts(t, n, h); }
      if n in Live(p, es).names { LiveHasRow(t, p, es, from, n); }
    } else {
      assert forall m :: m in Starts(t, n, h) ==> Key(n, m) in t;
    }
  }

  lemma LiveHasRow(t: Table, p: Params, es: seq<Entry>, from: int, n: Name)
    requires AccurateFrom(t, p, es, from) && es != [] && from <= es[|es| - 1].b.height
    requires n in Live(p, es).names
    ensures exists s :: Key(n, s) in t
  {
    var g := es[|es| - 1].b.height;
    AfterBeyondTip(p, es, g);
    assert RightAt(t, p, es, n, g);
    assert Recorded(t, n, g).Some?;
  }
}
