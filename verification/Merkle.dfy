/** The merkle root over a block's transaction ids, computed in place, and what it commits to. */
module Merkle {
  import opened Primitives

  /** The 64-byte hash of two children is a parameter: double SHA-256 in the program. */
  type NodeHash = Bytes -> Hash256

  type Ids = seq<Hash256>

  // ---- one level ----

  /** What is hashed for node i of the next level: an odd last node is paired with itself. */
  function Pair(ids: Ids, i: nat): Bytes
    requires 2 * i < |ids|
  {
    var left: Bytes := ids[2 * i];
    var right: Bytes := ids[if 2 * i + 1 < |ids| then 2 * i + 1 else 2 * i];
    left + right
  }

  function Level(hash: NodeHash, ids: Ids): (up: Ids)
    ensures |up| == (|ids| + 1) / 2
    ensures forall i :: 0 <= i < |up| ==> up[i] == hash(Pair(ids, i))
  {
    seq<Hash256>((|ids| + 1) / 2, i requires 0 <= i < (|ids| + 1) / 2 => hash(Pair(ids, i)))
  }

  function Root(hash: NodeHash, ids: Ids): Hash256
    requires |ids| > 0
    decreases |ids|
  {
    if |ids| == 1 then ids[0] else Root(hash, Level(hash, ids))
  }

  function Height(n: nat): nat {
    if n <= 1 then 0 else 1 + Height((n + 1) / 2)
  }

  // ---- the mutation flag ----

  predicate RepeatsAt(ids: Ids, i: nat) {
    2 * i + 1 < |ids| && ids[2 * i] == ids[2 * i + 1]
  }

  /** A supplied pair of equal siblings, before any padding. */
  ghost predicate Repeats(ids: Ids) {
    exists i: nat :: RepeatsAt(ids, i)
  }

  ghost predicate Mutated(hash: NodeHash, ids: Ids)
    decreases |ids|
  {
    |ids| > 1 && (Repeats(ids) || Mutated(hash, Level(hash, ids)))
  }

  // ---- the in-place computation ----

  /** Whether two sibling nodes of the current level are equal. */
  method ScanPairs(ids: array<Hash256>, n: nat) returns (found: bool)
    requires n <= ids.Length
    ensures found <==> Repeats(ids[..n])
  {
    found := false;
    var i := 0;
    while i + 1 < n
      invariant i % 2 == 0 && i <= n + 1
      invariant found <==> exists k: nat :: 2 * k < i && RepeatsAt(ids[..n], k)
    {
      assert RepeatsAt(ids[..n], i / 2) <==> ids[i] == ids[i + 1];
      if ids[i] == ids[i + 1] { found := true; }
      i := i + 2;
    }
  }

  /** Overwrites the first half of the level with the level above it. */
  method Fold(hash: NodeHash, ids: array<Hash256>, n: nat) returns (m: nat)
    requires 0 < n <= ids.Length
    modifies ids
    ensures m == (n + 1) / 2
    ensures ids[..m] == Level(hash, old(ids[..n]))
  {
    ghost var level := ids[..n];
    m := 0;
    var i := 0;
    while i < n
      invariant i == 2 * m && i <= n + 1
      invariant forall k :: i <= k < n ==> ids[k] == level[k]
      invariant forall k :: 0 <= k < m ==> ids[k] == Level(hash, level)[k]
    {
      var left: Bytes := ids[i];
      var right: Bytes := ids[if i + 1 < n then i + 1 else i];
      var buf := left + right;
      assert buf == Pair(level, m);
      ids[m] := hash(buf);
      m := m + 1;
      i := i + 2;
    }
    assert ids[..m] == Level(hash, level);
  }

  /** The root and the mutation flag of the first n ids; the ids are consumed. */
  method MerkleRoot(hash: NodeHash, ids: array<Hash256>, count: nat) returns (ok: bool, root: Hash256, mutated: bool)
    requires count <= ids.Length
    modifies ids
    ensures ok <==> count > 0
    ensures ok ==> root == Root(hash, old(ids[..count])) && (mutated <==> Mutated(hash, old(ids[..count])))
  {
    mutated := false;
    if count == 0 { return false, *, false; }
    var n := count;
    ghost var all := ids[..count];
    while n > 1
      invariant 0 < n <= ids.Length
      invariant Root(hash, ids[..n]) == Root(hash, all)
      invariant mutated || Mutated(hash, ids[..n]) <==> Mutated(hash, all)
    {
      ghost var level := ids[..n];
      var repeated := ScanPairs(ids, n);
      if repeated { mutated := true; }
      n := Fold(hash, ids, n);
      assert ids[..n] == Level(hash, level);
    }
    return true, ids[0], mutated;
  }

  // ---- the root as a tree ----

  function Leaves(height: nat): (n: nat)
    ensures n > 0
  {
    if height == 0 then 1 else 2 * Leaves(height - 1)
  }

  /** The tree form: halves hashed together, a missing right half standing for a copy of the left. */
  function Tree(hash: NodeHash, height: nat, ids: Ids): Hash256
    requires 0 < |ids| <= Leaves(height)
  {
    if height == 0 then ids[0]
    else
      var half := Leaves(height - 1);
      if |ids| <= half then
        var left := Tree(hash, height - 1, ids);
        hash(left + left)
      else
        hash(Tree(hash, height - 1, ids[..half]) + Tree(hash, height - 1, ids[half..]))
  }

  lemma LevelOfParts(hash: NodeHash, ids: Ids, k: nat)
    requires 2 * k <= |ids|
    ensures Level(hash, ids[..2 * k]) == Level(hash, ids)[..k]
    ensures Level(hash, ids[2 * k..]) == Level(hash, ids)[k..]
  {
    assert forall i :: 0 <= i < k ==> Pair(ids[..2 * k], i) == Pair(ids, i);
    assert forall i :: 0 <= i < (|ids| - 2 * k + 1) / 2 ==> Pair(ids[2 * k..], i) == Pair(ids, k + i);
  }

  /** Trees over more than half their leaves agree when their halves do. */
  lemma JoinHalves(hash: NodeHash, below: nat, ids: Ids, up: Ids)
    requires below > 0 && Leaves(below) < |ids| <= 2 * Leaves(below)
    requires Leaves(below - 1) < |up| <= Leaves(below)
    requires Tree(hash, below, ids[..Leaves(below)]) == Tree(hash, below - 1, up[..Leaves(below - 1)])
    requires Tree(hash, below, ids[Leaves(below)..]) == Tree(hash, below - 1, up[Leaves(below - 1)..])
    ensures Tree(hash, below + 1, ids) == Tree(hash, below, up)
  {
  }

  lemma FoldLeaves(hash: NodeHash, ids: Ids)
    requires 0 < |ids| <= 2
    ensures |Level(hash, ids)| == 1 && Tree(hash, 1, ids) == Level(hash, ids)[0]
  {
    assert Leaves(0) == 1;
    assert Level(hash, ids)[0] == hash(Pair(ids, 0));
  }

  /** Folding one level first makes the tree one lower. */
  lemma {:induction false} TreeOfLevel(hash: NodeHash, height: nat, ids: Ids)
    requires height > 0 && 0 < |ids| <= Leaves(height)
    ensures |Level(hash, ids)| <= Leaves(height - 1)
    ensures Tree(hash, height, ids) == Tree(hash, height - 1, Level(hash, ids))
    decreases height, 0
  {
    if height == 1 {
      FoldLeaves(hash, ids);
    } else if |ids| <= Leaves(height - 1) {
      TreeOfLevel(hash, height - 1, ids);
    } else {
      TreeOfHalves(hash, height - 1, ids);
    }
  }

  lemma {:induction false} TreeOfHalves(hash: NodeHash, below: nat, ids: Ids)
    requires below > 0 && Leaves(below) < |ids| <= 2 * Leaves(below)
    ensures |Level(hash, ids)| <= Leaves(below)
    ensures Tree(hash, below + 1, ids) == Tree(hash, below, Level(hash, ids))
    decreases below, 1
  {
    var half, k := Leaves(below), Leaves(below - 1);
    var up, left, right := Level(hash, ids), ids[..half], ids[half..];
    LevelOfParts(hash, ids, k);
    TreeOfLevel(hash, below, left);
    TreeOfLevel(hash, below, right);
    JoinHalves(hash, below, ids, up);
  }

  lemma {:induction false} HeightFits(n: nat)
    requires n > 0
    ensures n <= Leaves(Height(n))
  {
    if n > 1 { HeightFits((n + 1) / 2); }
  }

  /** The level-by-level root is the root of the balanced tree over the ids. */
  lemma {:induction false} RootIsTree(hash: NodeHash, ids: Ids)
    requires |ids| > 0
    ensures |ids| <= Leaves(Height(|ids|))
    ensures Root(hash, ids) == Tree(hash, Height(|ids|), ids)
    decreases |ids|
  {
    HeightFits(|ids|);
    if |ids| > 1 {
      RootIsTree(hash, Level(hash, ids));
      TreeOfLevel(hash, Height(|ids|), ids);
    }
  }

  // ---- soundness ----

  /** Every buffer hashed on the way to the root. */
  ghost function Hashed(hash: NodeHash, ids: Ids): set<Bytes>
    decreases |ids|
  {
    if |ids| <= 1 then {}
    else (set i | 0 <= i < (|ids| + 1) / 2 :: Pair(ids, i)) + Hashed(hash, Level(hash, ids))
  }

  ghost predicate CollisionFree(hash: NodeHash, inputs: set<Bytes>) {
    forall x, y :: x in inputs && y in inputs && hash(x) == hash(y) ==> x == y
  }

  lemma PairParts(a: Ids, b: Ids, i: nat)
    requires 2 * i < |a| && 2 * i < |b| && Pair(a, i) == Pair(b, i)
    ensures a[2 * i] == b[2 * i]
    ensures 2 * i + 1 < |a| && 2 * i + 1 < |b| ==> a[2 * i + 1] == b[2 * i + 1]
    ensures 2 * i + 1 < |a| && 2 * i + 1 >= |b| ==> RepeatsAt(a, i)
  {
    assert Pair(a, i)[..32] == a[2 * i] && Pair(b, i)[..32] == b[2 * i];
    assert Pair(a, i)[32..] == a[if 2 * i + 1 < |a| then 2 * i + 1 else 2 * i];
    assert Pair(b, i)[32..] == b[if 2 * i + 1 < |b| then 2 * i + 1 else 2 * i];
  }

  ghost predicate SamePairs(a: Ids, b: Ids) {
    && (|a| + 1) / 2 == (|b| + 1) / 2
    && forall i :: 0 <= i < (|a| + 1) / 2 ==> Pair(a, i) == Pair(b, i)
  }

  lemma LevelsShareInputs(hash: NodeHash, a: Ids, b: Ids)
    requires |a| > 1 && |b| > 1 && Level(hash, a) == Level(hash, b)
    requires CollisionFree(hash, Hashed(hash, a) + Hashed(hash, b))
    ensures SamePairs(a, b)
  {
    var up := Level(hash, a);
    forall i | 0 <= i < |up|
      ensures Pair(a, i) == Pair(b, i)
    {
      assert Pair(a, i) in Hashed(hash, a) && Pair(b, i) in Hashed(hash, b);
      assert up[i] == hash(Pair(a, i)) && Level(hash, b)[i] == hash(Pair(b, i));
    }
  }

  /** Lists with the same sibling pairs are the same, unless one of them repeats a pair. */
  lemma SamePairsSameIds(a: Ids, b: Ids)
    requires |a| > 1 && |b| > 1 && SamePairs(a, b) && !Repeats(a) && !Repeats(b)
    ensures a == b
  {
    var last := (|a| + 1) / 2 - 1;
    PairParts(a, b, last);
    PairParts(b, a, last);
    assert !RepeatsAt(a, last) && !RepeatsAt(b, last);
    assert |a| == |b|;
    forall j | 0 <= j < |a|
      ensures a[j] == b[j]
    {
      PairParts(a, b, j / 2);
    }
  }

  /**
   * Two lists of one tree height, neither flagged, have the same root only if they are the
   * same list, when no two different buffers hashed for them collide.
   */
  lemma {:induction false} RootDeterminesIds(hash: NodeHash, a: Ids, b: Ids)
    requires |a| > 0 && |b| > 0 && Height(|a|) == Height(|b|)
    requires !Mutated(hash, a) && !Mutated(hash, b)
    requires Root(hash, a) == Root(hash, b)
    requires CollisionFree(hash, Hashed(hash, a) + Hashed(hash, b))
    ensures a == b
    decreases |a|
  {
    if |a| == 1 {
      assert |b| == 1;
    } else {
      assert |b| > 1;
      var inputs := Hashed(hash, a) + Hashed(hash, b);
      assert Hashed(hash, Level(hash, a)) <= inputs && Hashed(hash, Level(hash, b)) <= inputs;
      RootDeterminesIds(hash, Level(hash, a), Level(hash, b));
      LevelsShareInputs(hash, a, b);
      SamePairsSameIds(a, b);
    }
  }

  /** Why the flag is needed: repeating an odd last id keeps the root, under every hash. */
  lemma RepeatedTailKeepsRoot(hash: NodeHash, ids: Ids)
    requires |ids| > 1 && |ids| % 2 == 1
    ensures var longer := ids + [ids[|ids| - 1]];
            Root(hash, longer) == Root(hash, ids) && Height(|longer|) == Height(|ids|) && Mutated(hash, longer)
  {
    var longer := ids + [ids[|ids| - 1]];
    forall i | 0 <= i < (|ids| + 1) / 2
      ensures Pair(longer, i) == Pair(ids, i)
    {
    }
    assert Level(hash, longer) == Level(hash, ids);
    assert RepeatsAt(longer, |ids| / 2);
  }

  lemma RootOfTwo(hash: NodeHash, a: Hash256, b: Hash256)
    ensures Root(hash, [a, b]) == hash(a + b)
  {
    assert Pair([a, b], 0) == a + b;
    assert Level(hash, [a, b]) == [hash(a + b)];
  }

  /** The first roots, written out: an odd last node is hashed with itself. */
  lemma SmallRoots(hash: NodeHash, a: Hash256, b: Hash256, c: Hash256)
    ensures Root(hash, [a]) == a && Root(hash, [a, b]) == hash(a + b)
    ensures Root(hash, [a, b, c]) == hash(hash(a + b) + hash(c + c))
  {
    RootOfTwo(hash, a, b);
    assert Pair([a, b, c], 0) == a + b && Pair([a, b, c], 1) == c + c;
    assert Level(hash, [a, b, c]) == [hash(a + b), hash(c + c)];
    RootOfTwo(hash, hash(a + b), hash(c + c));
  }
}
