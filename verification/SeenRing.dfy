/** The ring of recently seen transaction ids. */
module SeenRing {
  import opened Primitives

  const RING := 4096

  /** The newest ids kept in order of arrival, each once. */
  function Noted(seen: seq<Hash256>, id: Hash256): seq<Hash256> {
    if id in seen then seen
    else if |seen| < RING then seen + [id]
    else seen[1..] + [id]
  }

  class Ring {
    const slots: array<Hash256>
    var head: nat
    var filled: nat

    ghost predicate Valid()
      reads this
    {
      && slots.Length == RING && filled <= RING && head < RING
      && (filled < RING ==> head == filled)
    }

    /** The ids from the oldest to the newest. */
    ghost function Contents(): (s: seq<Hash256>)
      requires Valid()
      reads this, slots
      ensures |s| == filled
    {
      Window(slots[..], head, filled)
    }

    constructor ()
      ensures Valid() && fresh(slots) && Contents() == []
    {
      slots := new Hash256[RING];
      head, filled := 0, 0;
    }

    method Seen(id: Hash256) returns (found: bool)
      requires Valid()
      ensures found <==> id in Contents()
    {
      for i := 0 to filled
        invariant id !in slots[..i]
      {
        if slots[i] == id {
          InWindow(slots[..], head, filled, i);
          return true;
        }
      }
      NotInWindow(slots[..], head, filled, id);
      return false;
    }

    /** Remembers an id, forgetting the oldest one when the ring is full. */
    method Note(id: Hash256)
      requires Valid()
      modifies this, slots
      ensures Valid() && Contents() == Noted(old(Contents()), id)
    {
      var known := Seen(id);
      if known { return; }
      ghost var was := slots[..];
      slots[head] := id;
      assert slots[..] == was[head := id];
      if filled < RING { WindowGrows(was, head, id); } else { WindowTurns(was, head, id); }
      head := (head + 1) % RING;
      if filled < RING { filled := filled + 1; }
    }
  }

  /** The filled part of a ring of slots, oldest first. */
  function Window<T>(s: seq<T>, head: nat, filled: nat): (w: seq<T>)
    requires filled <= |s| && head < |s|
    ensures |w| == filled
  {
    if filled < |s| then s[..filled] else s[head..] + s[..head]
  }

  lemma InWindow<T>(s: seq<T>, head: nat, filled: nat, i: nat)
    requires i < filled <= |s| && head < |s|
    ensures s[i] in Window(s, head, filled)
  {
    if filled < |s| {
      assert s[..filled][i] == s[i];
    } else if i < head {
      assert s[..head][i] == s[i];
    } else {
      assert s[head..][i - head] == s[i];
    }
  }

  lemma NotInWindow<T>(s: seq<T>, head: nat, filled: nat, x: T)
    requires filled <= |s| && head < |s| && x !in s[..filled]
    ensures x !in Window(s, head, filled)
  {
    if filled == |s| { assert s[..filled] == s[..head] + s[head..]; }
  }

  function NextSlot(head: nat, size: nat): nat {
    if head + 1 == size then 0 else head + 1
  }

  /** Filling the next slot appends. */
  lemma WindowGrows<T>(s: seq<T>, head: nat, x: T)
    requires head < |s|
    ensures Window(s[head := x], NextSlot(head, |s|), head + 1) == Window(s, head, head) + [x]
  {
    var t := s[head := x];
    assert t[..head + 1] == s[..head] + [x];
    if head + 1 == |s| { assert t[0..] + t[..0] == t[..head + 1]; }
  }

  /** Overwriting the oldest slot of a full ring drops it and appends. */
  lemma WindowTurns<T>(s: seq<T>, head: nat, x: T)
    requires head < |s|
    ensures Window(s[head := x], NextSlot(head, |s|), |s|) == Window(s, head, |s|)[1..] + [x]
  {
    var t := s[head := x];
    assert t[..head + 1] == s[..head] + [x];
    assert t[head + 1..] == s[head..][1..];
    assert (s[head..] + s[..head])[1..] == s[head..][1..] + s[..head];
    assert t[head + 1..] + t[..head + 1] == Window(s, head, |s|)[1..] + [x];
    if head + 1 == |s| { assert t[0..] + t[..0] == t[head + 1..] + t[..head + 1]; }
  }

  /** What is kept never repeats and never outgrows the ring. */
  lemma NotedStaysDistinct(seen: seq<Hash256>, id: Hash256)
    requires |seen| <= RING && forall i, j :: 0 <= i < j < |seen| ==> seen[i] != seen[j]
    ensures var now := Noted(seen, id);
            && |now| <= RING && id in now
            && forall i, j :: 0 <= i < j < |now| ==> now[i] != now[j]
  {
    var now := Noted(seen, id);
    if id !in seen { assert now[|now| - 1] == id; }
  }

  /** What is kept after noting some ids one after the other. */
  function NotedAll(ids: seq<Hash256>): seq<Hash256> {
    if ids == [] then [] else Noted(NotedAll(ids[..|ids| - 1]), ids[|ids| - 1])
  }

  /** Of different ids the newest 4096 are kept, in the order they came. */
  lemma {:induction false} NewestAreKept(ids: seq<Hash256>)
    requires forall i, j :: 0 <= i < j < |ids| ==> ids[i] != ids[j]
    ensures NotedAll(ids) == if |ids| <= 4096 then ids else ids[|ids| - 4096..]
  {
    if ids != [] {
      var k := |ids| - 1;
      NewestAreKept(ids[..k]);
      assert ids == ids[..k] + [ids[k]];
      assert ids[k] !in ids[..k];
    }
  }
}
