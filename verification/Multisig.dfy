/** Matching m signatures against n keys in order: the two scans and what they decide. */
module Multisig {

  /** Key positions, one for each signature, in increasing order, every one verifying. */
  ghost predicate Assigns<S, K>(sigs: seq<S>, keys: seq<K>, verify: (S, K) -> bool, at: seq<nat>) {
    && |at| == |sigs|
    && (forall i :: 0 <= i < |at| ==> at[i] < |keys| && verify(sigs[i], keys[at[i]]))
    && (forall i, j :: 0 <= i < j < |at| ==> at[i] < at[j])
  }

  /** Some increasing assignment of all the signatures to verifying keys exists. */
  ghost predicate Satisfiable<S, K>(sigs: seq<S>, keys: seq<K>, verify: (S, K) -> bool) {
    exists at: seq<nat> :: Assigns(sigs, keys, verify, at)
  }

  /** The greedy scan has placed the first s signatures below key k, and nothing could do better. */
  ghost predicate Greedy<S, K>(sigs: seq<S>, keys: seq<K>, verify: (S, K) -> bool, s: nat, k: nat, at: seq<nat>) {
    && s <= |sigs| && k <= |keys|
    && Assigns(sigs[..s], keys[..k], verify, at)
    && forall other: seq<nat> :: Assigns(sigs, keys, verify, other) && s < |sigs| ==> k <= other[s]
  }

  /** A key that does not verify the next signature is of no use to any assignment. */
  lemma SkipKey<S, K>(sigs: seq<S>, keys: seq<K>, verify: (S, K) -> bool, s: nat, k: nat, at: seq<nat>)
    requires Greedy(sigs, keys, verify, s, k, at) && s < |sigs| && k < |keys|
    requires !verify(sigs[s], keys[k])
    ensures Greedy(sigs, keys, verify, s, k + 1, at)
  {
    forall other: seq<nat> | Assigns(sigs, keys, verify, other)
      ensures k + 1 <= other[s]
    {
      assert other[s] != k;
    }
  }

  /** Taking the first key that verifies leaves every assignment room. */
  lemma TakeKey<S, K>(sigs: seq<S>, keys: seq<K>, verify: (S, K) -> bool, s: nat, k: nat, at: seq<nat>)
    requires Greedy(sigs, keys, verify, s, k, at) && s < |sigs| && k < |keys|
    requires verify(sigs[s], keys[k])
    ensures Greedy(sigs, keys, verify, s + 1, k + 1, at + [k])
  {
    forall other: seq<nat> | Assigns(sigs, keys, verify, other) && s + 1 < |sigs|
      ensures k + 1 <= other[s + 1]
    {
      assert k <= other[s] < other[s + 1];
    }
  }

  lemma ScanDecides<S, K>(sigs: seq<S>, keys: seq<K>, verify: (S, K) -> bool, s: nat, k: nat, at: seq<nat>)
    requires Greedy(sigs, keys, verify, s, k, at) && (s == |sigs| || k == |keys|)
    ensures s == |sigs| <==> Satisfiable(sigs, keys, verify)
  {
    if s == |sigs| {
      assert sigs[..s] == sigs;
      assert Assigns(sigs, keys, verify, at);
    }
  }

  /** The single loop: one step of the key cursor at a time. */
  method InOrderScan<S, K>(sigs: seq<S>, keys: seq<K>, verify: (S, K) -> bool) returns (ok: bool)
    ensures ok <==> Satisfiable(sigs, keys, verify)
  {
    var si, ki := 0, 0;
    ghost var at: seq<nat> := [];
    while si < |sigs| && ki < |keys|
      invariant Greedy(sigs, keys, verify, si, ki, at)
      decreases |keys| - ki
    {
      if verify(sigs[si], keys[ki]) {
        TakeKey(sigs, keys, verify, si, ki, at);
        at := at + [ki];
        si := si + 1;
        ki := ki + 1;
      } else {
        SkipKey(sigs, keys, verify, si, ki, at);
        ki := ki + 1;
      }
    }
    ScanDecides(sigs, keys, verify, si, ki, at);
    ok := si == |sigs|;
  }

  /** The nested loops: for each signature, keys are tried until one verifies. */
  method NestedScan<S, K>(sigs: seq<S>, keys: seq<K>, verify: (S, K) -> bool) returns (ok: bool)
    ensures ok <==> Satisfiable(sigs, keys, verify)
  {
    var cursor, matched, si := 0, 0, 0;
    ghost var at: seq<nat> := [];
    while si < |sigs|
      invariant matched == si <= |sigs|
      invariant Greedy(sigs, keys, verify, si, cursor, at)
    {
      var hit := false;
      while cursor < |keys|
        invariant !hit && Greedy(sigs, keys, verify, si, cursor, at)
      {
        if verify(sigs[si], keys[cursor]) {
          TakeKey(sigs, keys, verify, si, cursor, at);
          at := at + [cursor];
          hit := true;
          cursor := cursor + 1;
          matched := matched + 1;
          break;
        }
        SkipKey(sigs, keys, verify, si, cursor, at);
        cursor := cursor + 1;
      }
      if !hit { break; }
      si := si + 1;
    }
    ScanDecides(sigs, keys, verify, matched, cursor, at);
    ok := matched == |sigs|;
  }

  /** A satisfied list stays satisfied when keys are added around the ones it uses. */
  lemma MoreKeysStillSatisfy<S, K>(sigs: seq<S>, before: seq<K>, keys: seq<K>, after: seq<K>, verify: (S, K) -> bool)
    requires Satisfiable(sigs, keys, verify)
    ensures Satisfiable(sigs, before + keys + after, verify)
  {
    var at: seq<nat> :| Assigns(sigs, keys, verify, at);
    var moved := seq(|at|, i requires 0 <= i < |at| => at[i] + |before|);
    assert Assigns(sigs, before + keys + after, verify, moved);
  }

  /** No key serves two signatures: fewer keys than signatures can never satisfy. */
  lemma {:induction false} EnoughKeys<S, K>(sigs: seq<S>, keys: seq<K>, verify: (S, K) -> bool, at: seq<nat>)
    requires Assigns(sigs, keys, verify, at)
    ensures |sigs| <= |keys|
  {
    if |sigs| > 0 {
      var s := |sigs| - 1;
      forall i | 0 <= i < s
        ensures at[i] < at[s]
      {
      }
      assert Assigns(sigs[..s], keys[..at[s]], verify, at[..s]);
      EnoughKeys(sigs[..s], keys[..at[s]], verify, at[..s]);
    }
  }
}
