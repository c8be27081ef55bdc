/** The relay pool: entries indexed by transaction id and by every output they spend. */
module Mempool {
  import opened Primitives
  import opened ChainedTable
  import opened SeenRing
  import opened TxCheck

  const BUCKETS := 8192
  const MAX_TXS := 5000
  const MAX_BYTES := 64 * 1024 * 1024
  const EXPIRY_SEC := 72 * 3600

  datatype Entry = Entry(txid: Hash256, raw: Bytes, added: int, prev: seq<Prevout>)

  predicate Conflicts(e: Entry, ins: seq<Prevout>) {
    exists i :: 0 <= i < |ins| && ins[i] in e.prev
  }

  // ---- sizes ----

  ghost function TotalBytes(pool: set<Entry>): nat {
    if pool == {} then 0
    else
      var e :| e in pool;
      |e.raw| + TotalBytes(pool - {e})
  }

  /** The total does not depend on the order entries are counted in. */
  lemma {:induction false} TotalWithout(pool: set<Entry>, e: Entry)
    requires e in pool
    ensures TotalBytes(pool) == |e.raw| + TotalBytes(pool - {e})
  {
    var f :| f in pool && TotalBytes(pool) == |f.raw| + TotalBytes(pool - {f});
    if f != e {
      TotalWithout(pool - {f}, e);
      TotalWithout(pool - {e}, f);
      assert pool - {f} - {e} == pool - {e} - {f};
    }
  }

  // ---- agreement of the indexes with the entries ----

  /** One node for each entry under its id, and nothing else. */
  ghost predicate IdsAgree(pool: set<Entry>, ids: map<Bytes, Entry>) {
    && (forall e :: e in pool ==> e.txid in ids && ids[e.txid] == e)
    && (forall t :: t in ids ==> ids[t] in pool && ids[t].txid == t)
  }

  /** One node for each spent output, pointing at its only spender, and nothing else. */
  ghost predicate SpentAgree(pool: set<Entry>, spent: map<Bytes, Entry>) {
    && (forall e, p :: e in pool && p in e.prev ==> p in spent && spent[p] == e)
    && (forall p :: p in spent ==> spent[p] in pool && p in spent[p].prev)
  }

  /** The indexes and counters describe exactly these entries. */
  ghost predicate Agrees(pool: set<Entry>, ids: map<Bytes, Entry>, spent: map<Bytes, Entry>, count: int, bytes: int) {
    && IdsAgree(pool, ids)
    && SpentAgree(pool, spent)
    && (forall e :: e in pool ==> Distinct(e.prev))
    && count == |pool| && bytes == TotalBytes(pool)
  }

  ghost predicate SpendsOnce(e: Entry, f: Entry) {
    forall p :: p in e.prev && p in f.prev ==> e == f
  }

  /** No output is spent by two entries, nor twice by one. */
  ghost predicate NoDoubleSpend(pool: set<Entry>) {
    && (forall e, f :: e in pool && f in pool ==> SpendsOnce(e, f))
    && (forall e :: e in pool ==> Distinct(e.prev))
  }

  /** An index that agrees with the entries leaves no room for a double spend or a repeated id. */
  lemma AgreementExcludesDoubleSpends(pool: set<Entry>, ids: map<Bytes, Entry>, spent: map<Bytes, Entry>, count: int,
                                      bytes: int)
    requires Agrees(pool, ids, spent, count, bytes)
    ensures NoDoubleSpend(pool)
    ensures forall e, f :: e in pool && f in pool && e.txid == f.txid ==> e == f
  {
    forall e, f | e in pool && f in pool
      ensures SpendsOnce(e, f)
    {
      forall p | p in e.prev && p in f.prev
        ensures e == f
      {
        assert spent[p] == e;
      }
    }
  }

  /** Nothing kept is older than anything evicted. */
  ghost predicate OldestFirst(evicted: set<Entry>, kept: set<Entry>) {
    forall x, y :: x in evicted && y in kept ==> x.added <= y.added
  }

  lemma EvictedNext(all: set<Entry>, evicted: set<Entry>, kept: set<Entry>, e: Entry)
    requires Evicting(all, evicted, kept) && e in kept && forall x :: x in kept ==> e.added <= x.added
    ensures Evicting(all, evicted + {e}, kept - {e}) && IsNewest(e, evicted + {e})
  {
  }

  /** The entries split into evicted and kept, nothing kept older than anything evicted. */
  ghost predicate Evicting(all: set<Entry>, evicted: set<Entry>, kept: set<Entry>) {
    evicted !! kept && all == evicted + kept && OldestFirst(evicted, kept)
  }

  /** Room is being made: what is gone, what is kept, and that the last eviction was needed. */
  ghost predicate Shrinking(all: set<Entry>, evicted: set<Entry>, kept: set<Entry>, count: int, bytes: int, len: nat) {
    && count >= 0 && (count == 0 ==> bytes == 0)
    && Evicting(all, evicted, kept) && NoneTooMany(evicted, count + 1, bytes + len)
  }

  /** Putting back the newest evicted entry would break a cap. */
  ghost predicate NoneTooMany(evicted: set<Entry>, count: int, bytes: int) {
    evicted == {} || exists e :: IsNewest(e, evicted) && (count + 1 > MAX_TXS || bytes + |e.raw| > MAX_BYTES)
  }

  ghost predicate IsNewest(e: Entry, evicted: set<Entry>) {
    e in evicted && forall x :: x in evicted ==> x.added <= e.added
  }

  /** An entry came in; what made room for it was oldest first and no more than needed. */
  ghost predicate Pooled(was: set<Entry>, pool: set<Entry>, evicted: set<Entry>, e: Entry, count: int, bytes: int) {
    && evicted <= was && pool == was - evicted + {e}
    && OldestFirst(evicted, was - evicted) && NoneTooMany(evicted, count, bytes)
  }

  ghost predicate InChainBefore(chain: seq<(Bytes, Entry)>, e: Entry, x: Entry) {
    exists i, j :: 0 <= i < j < |chain| && chain[i].1 == e && chain[j].1 == x
  }

  /** The entry found at a position of a chain, or before the chain, is older than node j or as old and earlier. */
  ghost predicate AheadOf(e: Entry, at: int, chain: seq<(Bytes, Entry)>, j: nat)
    requires j < |chain|
  {
    e.added < chain[j].1.added || (e.added == chain[j].1.added && at <= j)
  }

  /** The oldest of a chain and an entry met before it; at is its position, -1 for the one before. */
  method OldestOf(chain: seq<(Bytes, Entry)>, best: Option<Entry>) returns (e: Option<Entry>, ghost at: int)
    ensures -1 <= at < |chain| && e == if at < 0 then best else Some(chain[at].1)
    ensures best.Some? ==> e.Some? && (e == best || e.value.added < best.value.added)
    ensures chain != [] ==> e.Some?
    ensures e.Some? ==> forall j :: 0 <= j < |chain| ==> AheadOf(e.value, at, chain, j)
  {
    e, at := best, -1;
    for i := 0 to |chain|
      invariant -1 <= at < i && e == if at < 0 then best else Some(chain[at].1)
      invariant best.Some? ==> e.Some? && (e == best || e.value.added < best.value.added)
      invariant i > 0 ==> e.Some?
      invariant e.Some? ==> forall j :: 0 <= j < i ==> AheadOf(e.value, at, chain, j)
    {
      ghost var was, before := e, at;
      if e.None? || chain[i].1.added < e.value.added { e, at := Some(chain[i].1), i; }
      forall j | 0 <= j <= i ensures AheadOf(e.value, at, chain, j) {
        if j < i { assert AheadOf(was.value, before, chain, j); }
      }
    }
  }

  class Pool {
    const txs: Table<Bytes, Entry>
    const spent: Table<Bytes, Entry>
    var count: int
    var bytes: int
    ghost var pool: set<Entry>

    ghost predicate Valid()
      reads this, txs, txs.buckets, spent, spent.buckets
    {
      && txs != spent && txs.buckets != spent.buckets
      && txs.Valid() && spent.Valid()
      && Agrees(pool, txs.contents, spent.contents, count, bytes)
    }

    ghost predicate WithinCaps()
      reads this
    {
      count <= MAX_TXS && bytes <= MAX_BYTES
    }

    constructor (txHash: Bytes -> nat, prevHash: Bytes -> nat)
      ensures Valid() && WithinCaps() && pool == {}
      ensures fresh(txs) && fresh(txs.buckets) && fresh(spent) && fresh(spent.buckets)
    {
      txs := new Table(txHash, BUCKETS);
      spent := new Table(prevHash, BUCKETS);
      count, bytes := 0, 0;
      pool := {};
    }

    method FindEntry(txid: Bytes) returns (e: Option<Entry>)
      requires Valid()
      ensures e.Some? ==> e.value in pool && e.value.txid == txid
      ensures e.None? ==> forall x :: x in pool ==> x.txid != txid
    {
      e := txs.Find(txid);
    }

    method PrevoutOwner(p: Prevout) returns (e: Option<Entry>)
      requires Valid()
      ensures e.Some? ==> e.value in pool && p in e.value.prev
      ensures e.None? ==> forall x :: x in pool ==> p !in x.prev
    {
      e := spent.Find(p);
    }

    method UnlinkEverywhere(e: Entry)
      requires txs != spent && txs.buckets != spent.buckets && txs.Valid() && spent.Valid() && Distinct(e.prev)
      requires e.txid in txs.contents && txs.contents[e.txid] == e
      requires forall p :: p in e.prev ==> p in spent.contents && spent.contents[p] == e
      modifies txs, txs.buckets, spent, spent.buckets
      ensures txs.Valid() && txs.contents == old(txs.contents) - {e.txid}
      ensures spent.Valid() && spent.contents == old(spent.contents) - Keys(e.prev)
    {
      txs.Unlink(e.txid, e);
      UnlinkAll(spent, e.prev, e);
    }

    method Recount(entries: int, size: int, ghost now: set<Entry>)
      modifies this
      ensures count == old(count) + entries && bytes == old(bytes) + size && pool == now
    {
      count := count + entries;
      bytes := bytes + size;
      pool := now;
    }

    /** Unlinks an entry from both indexes. */
    method RemoveEntry(e: Entry)
      requires Valid() && e in pool
      modifies this, txs, txs.buckets, spent, spent.buckets
      ensures Valid() && pool == old(pool) - {e}
      ensures count == old(count) - 1 && bytes == old(bytes) - |e.raw|
    {
      ghost var ids, outs := txs.contents, spent.contents;
      UnlinkEverywhere(e);
      RemovalAgrees(pool, ids, outs, count, bytes, e, txs.contents, spent.contents);
      Recount(-1, -|e.raw|, pool - {e});
    }

    method LinkEverywhere(e: Entry)
      requires txs != spent && txs.buckets != spent.buckets && txs.Valid() && spent.Valid() && Distinct(e.prev)
      requires e.txid !in txs.contents && forall p :: p in e.prev ==> p !in spent.contents
      modifies txs, txs.buckets, spent, spent.buckets
      ensures txs.Valid() && txs.contents == old(txs.contents)[e.txid := e]
      ensures spent.Valid() && spent.contents == old(spent.contents) + Owned(e.prev, e)
    {
      txs.Link(e.txid, e);
      LinkAll(spent, e.prev, e);
    }

    /** Links an entry into both indexes; its id and its inputs are not in them yet. */
    method InsertEntry(e: Entry)
      requires Valid() && Distinct(e.prev)
      requires e.txid !in txs.contents && forall p :: p in e.prev ==> p !in spent.contents
      modifies this, txs, txs.buckets, spent, spent.buckets
      ensures Valid() && pool == old(pool) + {e} && e !in old(pool)
      ensures count == old(count) + 1 && bytes == old(bytes) + |e.raw|
    {
      ghost var ids, outs := txs.contents, spent.contents;
      LinkEverywhere(e);
      InsertionAgrees(pool, ids, outs, count, bytes, e, txs.contents, spent.contents);
      Recount(1, |e.raw|, pool + {e});
    }

    /** One entry stands before another in the order the buckets are walked. */
    ghost predicate Sooner(e: Entry, x: Entry)
      reads this, txs, txs.buckets
    {
      && txs.buckets.Length > 0
      && (|| txs.Slot(e.txid) < txs.Slot(x.txid)
          || (txs.Slot(e.txid) == txs.Slot(x.txid) && InChainBefore(txs.buckets[txs.Slot(e.txid)], e, x)))
    }

    /** Older than any other entry, or as old and met sooner. */
    ghost predicate Foremost(e: Entry)
      reads this, txs, txs.buckets
    {
      e in pool && forall x :: x in pool && x != e ==> e.added < x.added || (e.added == x.added && Sooner(e, x))
    }

    /** The oldest entry, the first in bucket order among equals. */
    method Oldest() returns (e: Entry)
      requires Valid() && pool != {}
      ensures Foremost(e)
    {
      var best: Option<Entry> := None;
      var b := 0;
      while b < txs.buckets.Length
        invariant 0 <= b <= txs.buckets.Length
        invariant best.Some? ==> best.value in pool && txs.Slot(best.value.txid) < b
        invariant forall x :: x in pool && txs.Slot(x.txid) < b ==> best.Some? && Leads(best.value, x)
      {
        best := OldestIn(b, best);
        b := b + 1;
      }
      e := best.value;
    }

    ghost predicate Leads(e: Entry, x: Entry)
      reads this, txs, txs.buckets
    {
      x == e || e.added < x.added || (e.added == x.added && Sooner(e, x))
    }

    /** The walk of one bucket: the best so far gives way only to a strictly older entry. */
    method OldestIn(b: nat, best: Option<Entry>) returns (e: Option<Entry>)
      requires Valid() && b < txs.buckets.Length
      requires best.Some? ==> best.value in pool && txs.Slot(best.value.txid) < b
      ensures e.Some? ==> e.value in pool && txs.Slot(e.value.txid) <= b
      ensures best.Some? ==> e.Some? && (e == best || e.value.added < best.value.added)
      ensures forall x :: x in pool && txs.Slot(x.txid) == b ==> e.Some? && Leads(e.value, x)
    {
      var chain := txs.buckets[b];
      assert txs.ChainOk(b);
      ghost var at;
      e, at := OldestOf(chain, best);
      if at >= 0 { assert chain[at] in chain; }
      forall x | x in pool && txs.Slot(x.txid) == b
        ensures e.Some? && Leads(e.value, x)
      {
        assert (x.txid, x) in chain;
        var j :| 0 <= j < |chain| && chain[j] == (x.txid, x);
        assert AheadOf(e.value, at, chain, j);
      }
    }

    /** Evicts the oldest entry, of equally old ones the first met. */
    method EvictOldest() returns (ghost e: Entry)
      requires Valid() && pool != {}
      modifies this, txs, txs.buckets, spent, spent.buckets
      ensures old(Foremost(e)) && Valid() && pool == old(pool) - {e}
      ensures count == old(count) - 1 && bytes == old(bytes) - |e.raw|
    {
      var oldest := Oldest();
      e := oldest;
      RemoveEntry(oldest);
    }

    lemma EmptyExactlyAtZero()
      requires Valid()
      ensures pool == {} <==> count == 0
      ensures count == 0 ==> bytes == 0
      ensures count >= 0
    {
    }

    /** One eviction more, kept in order. */
    method EvictOne(ghost all: set<Entry>, ghost evicted: set<Entry>, len: nat) returns (ghost more: set<Entry>)
      requires Valid() && count > 0 && Evicting(all, evicted, pool)
      requires count >= MAX_TXS || bytes + len > MAX_BYTES
      modifies this, txs, txs.buckets, spent, spent.buckets
      ensures Valid() && count < old(count) && Shrinking(all, more, pool, count, bytes, len)
    {
      EmptyExactlyAtZero();
      ghost var kept := pool;
      ghost var e := EvictOldest();
      EvictedNext(all, evicted, kept, e);
      more := evicted + {e};
      EmptyExactlyAtZero();
    }

    /** Evicts from the oldest on until one more transaction of the given size fits. */
    method MakeRoom(len: nat) returns (ghost evicted: set<Entry>)
      requires Valid() && len <= TX_MAX_SIZE
      modifies this, txs, txs.buckets, spent, spent.buckets
      ensures Valid() && Evicting(old(pool), evicted, pool)
      ensures count < MAX_TXS && bytes + len <= MAX_BYTES
      ensures NoneTooMany(evicted, count + 1, bytes + len)
      ensures old(count) < MAX_TXS && old(bytes) + len <= MAX_BYTES ==> evicted == {}
    {
      ghost var all, fits := pool, count < MAX_TXS && bytes + len <= MAX_BYTES;
      evicted := {};
      EmptyExactlyAtZero();
      assert Shrinking(all, evicted, pool, count, bytes, len);
      while count >= MAX_TXS || bytes + len > MAX_BYTES
        invariant Valid() && Shrinking(all, evicted, pool, count, bytes, len)
        invariant fits ==> evicted == {} && count < MAX_TXS && bytes + len <= MAX_BYTES
        decreases count
      {
        if count == 0 { break; }
        evicted := EvictOne(all, evicted, len);
      }
    }

    /** Whether any pooled entry spends one of the given outputs. */
    method AnyOwner(ins: seq<Prevout>) returns (found: bool)
      requires Valid()
      ensures found <==> exists e :: e in pool && Conflicts(e, ins)
    {
      for i := 0 to |ins|
        invariant forall e :: e in pool ==> !Conflicts(e, ins[..i])
      {
        var owner := PrevoutOwner(ins[i]);
        if owner.Some? {
          assert Conflicts(owner.value, ins);
          return true;
        }
      }
      assert ins[..|ins|] == ins;
      return false;
    }

    /**
     Pools a standard transaction, evicting old entries when there is no room. It is refused
     exactly when it is already pooled or spends a pooled input.
     */
    method Admit(raw: Bytes, tx: Tx, now: int) returns (ok: bool, ghost evicted: set<Entry>)
      requires Valid() && WithinCaps() && Standard(raw, Some(tx))
      modifies this, txs, txs.buckets, spent, spent.buckets
      ensures Valid() && WithinCaps()
      ensures ok <==> forall e :: e in old(pool) ==> e.txid != tx.txid && !Conflicts(e, tx.ins)
      ensures !ok ==> pool == old(pool)
      ensures ok ==> Pooled(old(pool), pool, evicted, Entry(tx.txid, raw, now, tx.ins), count, bytes)
      ensures ok && old(count) < MAX_TXS && old(bytes) + |raw| <= MAX_BYTES ==> evicted == {}
    {
      evicted := {};
      var same := FindEntry(tx.txid);
      if same.Some? { return false, evicted; }
      var conflict := AnyOwner(tx.ins);
      if conflict { return false, evicted; }
      evicted := MakeRoom(|raw|);
      NothingInTheWay(tx);
      InsertEntry(Entry(tx.txid, raw, now, tx.ins));
      ok := true;
    }

    lemma NothingInTheWay(tx: Tx)
      requires Valid() && forall e :: e in pool ==> e.txid != tx.txid && !Conflicts(e, tx.ins)
      ensures tx.txid !in txs.contents && forall p :: p in tx.ins ==> p !in spent.contents
    {
      SharingIsConflict(tx.ins);
    }

    method RemoveById(txid: Hash256)
      requires Valid()
      modifies this, txs, txs.buckets, spent, spent.buckets
      ensures Valid() && pool == Unaffected(old(pool), txid, [])
    {
      ghost var was := pool;
      var e := FindEntry(txid);
      SameIdIsSame();
      OnlyWithId(was, txid);
      if e.Some? { RemoveEntry(e.value); }
    }

    lemma SameIdIsSame()
      requires Valid()
      ensures forall e, f :: e in pool && f in pool && e.txid == f.txid ==> e == f
      ensures forall e, f :: e in pool && f in pool ==> SpendsOnce(e, f)
    {
      AgreementExcludesDoubleSpends(pool, txs.contents, spent.contents, count, bytes);
    }

    method RemoveSpender(p: Prevout)
      requires Valid()
      modifies this, txs, txs.buckets, spent, spent.buckets
      ensures Valid() && pool == set e | e in old(pool) && p !in e.prev
    {
      ghost var was := pool;
      var owner := PrevoutOwner(p);
      SameIdIsSame();
      if owner.Some? {
        OnlySpender(was, owner.value, p);
        RemoveEntry(owner.value);
      }
    }

    /** A confirmed transaction leaves the pool with everything that spends one of its inputs. */
    method OnConfirmed(txid: Hash256, ins: seq<Prevout>)
      requires Valid()
      modifies this, txs, txs.buckets, spent, spent.buckets
      ensures Valid() && pool == Unaffected(old(pool), txid, ins)
    {
      EmptyExactlyAtZero();
      if count == 0 { return; }
      RemoveById(txid);
      for i := 0 to |ins|
        invariant Valid() && pool == Unaffected(old(pool), txid, ins[..i])
      {
        OneInputMore(old(pool), txid, ins, i);
        RemoveSpender(ins[i]);
      }
      assert ins[..|ins|] == ins;
    }

    /** Removes the expired entries of one bucket, walking the chain as it was. */
    method SweepBucket(b: nat, cutoff: int)
      requires Valid() && b < txs.buckets.Length
      modifies this, txs, txs.buckets, spent, spent.buckets
      ensures Valid()
      ensures pool == set e | e in old(pool) && (e.added >= cutoff || txs.Slot(e.txid) != b)
    {
      ghost var was := pool;
      var chain := txs.buckets[b];
      ChainHoldsBucket(b, chain);
      for i := 0 to |chain|
        invariant Valid()
        invariant pool == set e | e in was && (e.added >= cutoff || (e.txid, e) !in chain[..i])
      {
        var node := chain[i];
        OneNodeMore(was, chain, i, cutoff);
        if node.1.added < cutoff { RemoveEntry(node.1); }
      }
      assert chain[..|chain|] == chain;
    }

    lemma ChainHoldsBucket(b: nat, chain: seq<(Bytes, Entry)>)
      requires Valid() && b < txs.buckets.Length && chain == txs.buckets[b]
      ensures DistinctKeys(chain) && forall n :: n in chain ==> n.1 in pool && n.0 == n.1.txid
      ensures forall e :: e in pool ==> (txs.Slot(e.txid) == b <==> (e.txid, e) in chain)
    {
      assert txs.ChainOk(b);
    }

    /** Drops every entry older than the expiry. */
    method Sweep(now: int)
      requires Valid()
      modifies this, txs, txs.buckets, spent, spent.buckets
      ensures Valid() && pool == set e | e in old(pool) && e.added >= now - EXPIRY_SEC
    {
      EmptyExactlyAtZero();
      if count == 0 { return; }
      var cutoff := now - EXPIRY_SEC;
      for b := 0 to txs.buckets.Length
        invariant Valid()
        invariant pool == set e | e in old(pool) && (e.added >= cutoff || txs.Slot(e.txid) >= b)
      {
        SweepBucket(b, cutoff);
      }
    }
  }

  lemma OneNodeMore(was: set<Entry>, chain: seq<(Bytes, Entry)>, i: nat, cutoff: int)
    requires i < |chain| && DistinctKeys(chain)
    requires forall n :: n in chain ==> n.1 in was && n.0 == n.1.txid
    ensures chain[i].1.added < cutoff ==>
        chain[i].1 in set e | e in was && (e.added >= cutoff || (e.txid, e) !in chain[..i])
    ensures (set e | e in was && (e.added >= cutoff || (e.txid, e) !in chain[..i + 1]))
         == (set e | e in was && (e.added >= cutoff || (e.txid, e) !in chain[..i]))
            - (if chain[i].1.added < cutoff then {chain[i].1} else {})
  {
    assert chain[..i + 1] == chain[..i] + [chain[i]];
    assert chain[i] in chain;
  }

  function Keys(keys: seq<Prevout>): set<Prevout> {
    set p | p in keys
  }

  /** The spent outputs of one entry as the index sees them. */
  function Owned(keys: seq<Prevout>, e: Entry): map<Bytes, Entry> {
    map p | p in Keys(keys) :: e
  }

  /** Unlinks one node for every key. */
  method UnlinkAll(table: Table<Bytes, Entry>, keys: seq<Prevout>, e: Entry)
    requires table.Valid() && Distinct(keys)
    requires forall p :: p in keys ==> p in table.contents && table.contents[p] == e
    modifies table, table.buckets
    ensures table.Valid() && table.contents == old(table.contents) - Keys(keys)
  {
    ghost var before := table.contents;
    assert before - Keys(keys[..0]) == before;
    for i := 0 to |keys|
      invariant table.Valid() && table.contents == before - Keys(keys[..i])
    {
      OneKeyMore(keys, i, before);
      table.Unlink(keys[i], e);
    }
    assert keys[..|keys|] == keys;
  }

  lemma OneKeyMore(keys: seq<Prevout>, i: nat, m: map<Bytes, Entry>)
    requires i < |keys| && Distinct(keys)
    ensures keys[i] !in Keys(keys[..i])
    ensures m - Keys(keys[..i]) - {keys[i]} == m - Keys(keys[..i + 1])
  {
    assert keys[..i + 1] == keys[..i] + [keys[i]];
  }

  lemma RemovalAgrees(pool: set<Entry>, ids: map<Bytes, Entry>, spent: map<Bytes, Entry>, count: int, bytes: int,
                      e: Entry, ids2: map<Bytes, Entry>, spent2: map<Bytes, Entry>)
    requires Agrees(pool, ids, spent, count, bytes) && e in pool
    requires ids2 == ids - {e.txid} && spent2 == spent - Keys(e.prev)
    ensures Agrees(pool - {e}, ids2, spent2, count - 1, bytes - |e.raw|)
  {
    TotalWithout(pool, e);
    SpentAfterRemoval(pool, spent, e);
  }

  lemma SpentAfterRemoval(pool: set<Entry>, spent: map<Bytes, Entry>, e: Entry)
    requires SpentAgree(pool, spent) && e in pool
    ensures SpentAgree(pool - {e}, spent - Keys(e.prev))
  {
    var left := spent - Keys(e.prev);
    forall x, p | x in pool - {e} && p in x.prev
      ensures p in left && left[p] == x
    {
      assert spent[p] == x;
      assert p !in e.prev;
    }
    forall p | p in left
      ensures left[p] in pool - {e} && p in left[p].prev
    {
      assert spent[p] == e ==> p in e.prev;
    }
  }

  /** Links one node for every key. */
  method LinkAll(table: Table<Bytes, Entry>, keys: seq<Prevout>, e: Entry)
    requires table.Valid() && Distinct(keys)
    requires forall p :: p in keys ==> p !in table.contents
    modifies table, table.buckets
    ensures table.Valid() && table.contents == old(table.contents) + Owned(keys, e)
  {
    ghost var before := table.contents;
    for i := 0 to |keys|
      invariant table.Valid() && table.contents == before + Owned(keys[..i], e)
    {
      OneLinkMore(keys, i, before, e);
      table.Link(keys[i], e);
    }
    assert keys[..|keys|] == keys;
  }

  lemma OneLinkMore(keys: seq<Prevout>, i: nat, m: map<Bytes, Entry>, e: Entry)
    requires i < |keys| && Distinct(keys) && keys[i] !in m
    ensures keys[i] !in m + Owned(keys[..i], e)
    ensures (m + Owned(keys[..i], e))[keys[i] := e] == m + Owned(keys[..i + 1], e)
  {
    assert keys[..i + 1] == keys[..i] + [keys[i]];
  }

  lemma InsertionAgrees(pool: set<Entry>, ids: map<Bytes, Entry>, spent: map<Bytes, Entry>, count: int, bytes: int,
                        e: Entry, ids2: map<Bytes, Entry>, spent2: map<Bytes, Entry>)
    requires Agrees(pool, ids, spent, count, bytes) && Distinct(e.prev)
    requires e.txid !in ids && forall p :: p in e.prev ==> p !in spent
    requires ids2 == ids[e.txid := e] && spent2 == spent + Owned(e.prev, e)
    ensures e !in pool && Agrees(pool + {e}, ids2, spent2, count + 1, bytes + |e.raw|)
  {
    assert e !in pool;
    assert pool + {e} - {e} == pool;
    TotalWithout(pool + {e}, e);
    IdsAfterInsertion(pool, ids, e);
    SpentAfterInsertion(pool, spent, e);
  }

  lemma IdsAfterInsertion(pool: set<Entry>, ids: map<Bytes, Entry>, e: Entry)
    requires IdsAgree(pool, ids) && e.txid !in ids
    ensures IdsAgree(pool + {e}, ids[e.txid := e])
  {
  }

  lemma SpentAfterInsertion(pool: set<Entry>, spent: map<Bytes, Entry>, e: Entry)
    requires SpentAgree(pool, spent) && forall p :: p in e.prev ==> p !in spent
    ensures SpentAgree(pool + {e}, spent + Owned(e.prev, e))
  {
    var all := spent + Owned(e.prev, e);
    forall x, p | x in pool + {e} && p in x.prev
      ensures p in all && all[p] == x
    {
      if x in pool { assert spent[p] == x; }
    }
    forall p | p in all
      ensures all[p] in pool + {e} && p in all[p].prev
    {
      if p in e.prev { assert p in Keys(e.prev); } else { assert p in spent; }
    }
  }

  // ---- conflicts ----

  lemma SharingIsConflict(ins: seq<Prevout>)
    ensures forall e: Entry, p :: p in e.prev && p in ins ==> Conflicts(e, ins)
  {
  }

  /** What confirming a transaction leaves. */
  ghost function Unaffected(pool: set<Entry>, txid: Hash256, ins: seq<Prevout>): set<Entry> {
    set e | e in pool && e.txid != txid && !Conflicts(e, ins)
  }

  /** Without a double spend, dropping the spender of an output leaves the entries that do not spend it. */
  lemma OnlySpender(pool: set<Entry>, e: Entry, p: Prevout)
    requires p in e.prev && forall f :: f in pool ==> SpendsOnce(e, f)
    ensures pool - {e} == set x | x in pool && p !in x.prev
  {
    forall x | x in pool && p in x.prev ensures x == e {
      assert SpendsOnce(e, x);
    }
  }

  lemma OnlyWithId(pool: set<Entry>, txid: Hash256)
    ensures Unaffected(pool, txid, []) == set e | e in pool && e.txid != txid
  {
  }

  lemma OneInputMore(pool: set<Entry>, txid: Hash256, ins: seq<Prevout>, i: nat)
    requires i < |ins|
    ensures Unaffected(pool, txid, ins[..i + 1])
         == set e | e in Unaffected(pool, txid, ins[..i]) && ins[i] !in e.prev
  {
    forall e | e in pool
      ensures Conflicts(e, ins[..i + 1]) <==> Conflicts(e, ins[..i]) || ins[i] in e.prev
    {
      assert ins[..i + 1] == ins[..i] + [ins[i]];
      if Conflicts(e, ins[..i]) {
        var j :| 0 <= j < i && ins[..i][j] in e.prev;
        assert ins[..i + 1][j] in e.prev;
      }
      if ins[i] in e.prev { assert ins[..i + 1][i] in e.prev; }
    }
  }

  // ---- the pool with its ring of seen ids ----

  class Relay {
    const pool: Pool
    const ring: Ring

    ghost predicate Valid()
      reads this, pool, pool.txs, pool.txs.buckets, pool.spent, pool.spent.buckets, ring
    {
      pool.Valid() && pool.WithinCaps() && ring.Valid()
    }

    constructor (txHash: Bytes -> nat, prevHash: Bytes -> nat)
      ensures Valid() && pool.pool == {} && ring.Contents() == []
      ensures fresh(pool) && fresh(pool.txs) && fresh(pool.txs.buckets)
      ensures fresh(pool.spent) && fresh(pool.spent.buckets)
      ensures fresh(ring) && fresh(ring.slots)
    {
      pool := new Pool(txHash, prevHash);
      ring := new Ring();
    }

    /**
     Validates a transaction and pools it. It is accepted exactly when it is standard, new
     and without conflict; whatever the answer, its id is remembered if it parsed.
     */
    method Accept(raw: Bytes, parsed: Option<Tx>, now: int) returns (ok: bool, ghost evicted: set<Entry>)
      requires Valid()
      modifies pool, pool.txs, pool.txs.buckets, pool.spent, pool.spent.buckets, ring, ring.slots
      ensures Valid()
      ensures ring.Contents()
          == if parsed.Some? then Noted(old(ring.Contents()), parsed.value.txid) else old(ring.Contents())
      ensures ok <==> && Standard(raw, parsed)
                      && forall e :: e in old(pool.pool) ==>
                          e.txid != parsed.value.txid && !Conflicts(e, parsed.value.ins)
      ensures !ok ==> pool.pool == old(pool.pool)
      ensures ok ==> Pooled(old(pool.pool), pool.pool, evicted,
                            Entry(parsed.value.txid, raw, now, parsed.value.ins), pool.count, pool.bytes)
      ensures ok && old(pool.count) < MAX_TXS && old(pool.bytes) + |raw| <= MAX_BYTES ==> evicted == {}
    {
      evicted := {};
      var standard := StatelessCheck(raw, parsed);
      if parsed.Some? { ring.Note(parsed.value.txid); }
      if !standard { return false, evicted; }
      ok, evicted := pool.Admit(raw, parsed.value, now);
    }

    /** Whether an announced id needs no request: it is pooled or was seen. */
    method Seen(txid: Hash256) returns (known: bool)
      requires Valid()
      ensures known <==> txid in ring.Contents() || exists e :: e in pool.pool && e.txid == txid
    {
      var e := pool.FindEntry(txid);
      if e.Some? { return true; }
      known := ring.Seen(txid);
    }
  }
}
