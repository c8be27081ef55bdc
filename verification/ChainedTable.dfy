/** A hash table of chained buckets, as the transaction pool keeps two of. */
module ChainedTable {
  import opened Primitives

  /** No two nodes of a chain have the same key. */
  ghost predicate DistinctKeys<K, V>(chain: seq<(K, V)>) {
    forall i, j :: 0 <= i < j < |chain| ==> chain[i].0 != chain[j].0
  }

  class Table<K(==), V(==)> {
    const hash: K -> nat
    const buckets: array<seq<(K, V)>>
    ghost var contents: map<K, V>

    function Slot(k: K): (b: nat)
      requires buckets.Length > 0
      ensures b < buckets.Length
    {
      hash(k) % buckets.Length
    }

    /** Every node of a chain belongs there and is in the contents. */
    ghost predicate ChainOk(b: nat)
      requires b < buckets.Length
      reads this, buckets
    {
      && DistinctKeys(buckets[b])
      && forall n :: n in buckets[b] ==> Slot(n.0) == b && n.0 in contents && contents[n.0] == n.1
    }

    ghost predicate Valid()
      reads this, buckets
    {
      && buckets.Length > 0
      && (forall b :: 0 <= b < buckets.Length ==> ChainOk(b))
      && (forall k :: k in contents ==> (k, contents[k]) in buckets[Slot(k)])
    }

    constructor (hash: K -> nat, size: nat)
      requires size > 0
      ensures Valid() && fresh(buckets) && contents == map[] && buckets.Length == size
      ensures this.hash == hash
    {
      this.hash := hash;
      this.contents := map[];
      buckets := new seq<(K, V)>[size](_ => []);
    }

    /** Walks the key's chain to the first node with that key. */
    method Find(k: K) returns (v: Option<V>)
      requires Valid()
      ensures v == if k in contents then Some(contents[k]) else None
    {
      var b := Slot(k);
      var chain := buckets[b];
      assert ChainOk(b);
      var i := 0;
      while i < |chain|
        invariant 0 <= i <= |chain|
        invariant forall j :: 0 <= j < i ==> chain[j].0 != k
      {
        if chain[i].0 == k {
          assert chain[i] in chain;
          return Some(chain[i].1);
        }
        i := i + 1;
      }
      return None;
    }

    /** Links a new node at the head of its chain. */
    method Link(k: K, v: V)
      requires Valid() && k !in contents
      modifies this, buckets
      ensures Valid() && contents == old(contents)[k := v]
    {
      var b := Slot(k);
      assert ChainOk(b);
      buckets[b] := [(k, v)] + buckets[b];
      contents := contents[k := v];
      forall c | 0 <= c < buckets.Length
        ensures ChainOk(c)
      {
        assert old(ChainOk(c));
      }
    }

    /** Unlinks the first node with the given key and value. */
    method Unlink(k: K, v: V)
      requires Valid() && k in contents && contents[k] == v
      modifies this, buckets
      ensures Valid() && contents == old(contents) - {k}
    {
      var b := Slot(k);
      var chain := buckets[b];
      assert ChainOk(b);
      var i := 0;
      while chain[i] != (k, v)
        invariant 0 <= i < |chain| && (k, v) in chain[i..]
        decreases |chain| - i
      {
        i := i + 1;
      }
      buckets[b] := chain[..i] + chain[i + 1..];
      contents := contents - {k};
      UnlinkKeeps(chain, i);
      forall c | 0 <= c < buckets.Length
        ensures ChainOk(c)
      {
        assert old(ChainOk(c));
      }
    }
  }

  lemma UnlinkKeeps<K, V>(chain: seq<(K, V)>, i: nat)
    requires i < |chain| && DistinctKeys(chain)
    ensures DistinctKeys(chain[..i] + chain[i + 1..])
    ensures forall n :: n in chain[..i] + chain[i + 1..] <==> n in chain && n.0 != chain[i].0
  {
    var rest := chain[..i] + chain[i + 1..];
    forall n | n in chain && n.0 != chain[i].0
      ensures n in rest
    {
      var j :| 0 <= j < |chain| && chain[j] == n;
      assert n == rest[if j < i then j else j - 1];
    }
  }
}
