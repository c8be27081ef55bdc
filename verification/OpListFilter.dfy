/** Deletion by filtering a parsed operation list, compared with the cursor form. */
module OpListFilter {
  import opened Primitives
  import opened Script
  import opened SignedScript

  /** One operation as the list parser reads it: data lengths must be minimal, 0x4e is a plain opcode. */
  function StrictLen(s: Bytes): (len: Option<nat>)
    ensures len.Some? ==> 0 < len.value <= |s|
  {
    if s == [] then None
    else
      var op := s[0] as int;
      if op < 0x4c then
        if 1 + op > |s| then None else Some(1 + op)
      else if op == 0x4c then
        if 2 > |s| || s[1] < 76 || 2 + s[1] as int > |s| then None else Some(2 + s[1] as int)
      else if op == 0x4d then
        if 3 > |s| then None
        else
          var n := s[1] as int + 0x100 * s[2] as int;
          if n < 256 || n > 520 || 3 + n > |s| then None else Some(3 + n)
      else Some(1)
  }

  /** The whole script as operations, or nothing when any part of it does not parse. */
  function StrictOps(s: Bytes): Option<seq<Bytes>>
    decreases |s|
  {
    if s == [] then Some([])
    else
      match StrictLen(s)
      case None => None
      case Some(k) =>
        match StrictOps(s[k..])
        case None => None
        case Some(rest) => Some([s[..k]] + rest)
  }

  /** Parse, filter, join; a script that does not parse is left as it is. */
  function Filtered(s: Bytes, pat: Bytes): Bytes {
    match StrictOps(s)
    case None => s
    case Some(ops) => Flatten(Without(ops, pat))
  }

  /** No operation of the script announces a four-byte length. */
  predicate NoLongPush(s: Bytes)
    decreases |s|
  {
    s == [] || (s[0] != 0x4e && (OpLen(s).Some? ==> NoLongPush(s[OpLen(s).value..])))
  }

  lemma StrictIsPlain(s: Bytes)
    requires StrictLen(s).Some? && s[0] != 0x4e
    ensures OpLen(s) == StrictLen(s)
  {
  }

  lemma {:induction false} StrictOpsAreOps(s: Bytes)
    requires StrictOps(s).Some? && NoLongPush(s)
    ensures Ops(s) == StrictOps(s).value && Tail(s) == []
    decreases |s|
  {
    if s != [] {
      StrictIsPlain(s);
      StrictOpsAreOps(s[OpLen(s).value..]);
    }
  }

  /** The two forms agree exactly when the script parses or there is nothing to delete. */
  lemma FormsAgree(s: Bytes, pat: Bytes)
    requires IsOneOp(pat) && NoLongPush(s)
    ensures Filtered(s, pat) == Deleted(s, pat) <==> StrictOps(s).Some? || pat !in Ops(s)
  {
    if StrictOps(s).Some? {
      StrictOpsAreOps(s);
      DeletionIsFilter(s, pat);
      assert Flatten(Without(Ops(s), pat)) + [] == Flatten(Without(Ops(s), pat));
    } else {
      UnchangedIffAbsent(s, pat);
    }
  }

  /** Filtering changes nothing exactly when the script does not parse or the pattern is not among its operations. */
  lemma FilterKeepsIff(s: Bytes, pat: Bytes)
    requires pat != []
    ensures Filtered(s, pat) == s <==> StrictOps(s).None? || pat !in StrictOps(s).value
  {
    if StrictOps(s).Some? {
      StrictOpsFlatten(s);
      WithoutIsShorter(StrictOps(s).value, pat);
    }
  }

  lemma {:induction false} StrictOpsFlatten(s: Bytes)
    requires StrictOps(s).Some?
    ensures Flatten(StrictOps(s).value) == s
    decreases |s|
  {
    if s != [] {
      var k := StrictLen(s).value;
      StrictOpsFlatten(s[k..]);
      FlattenStep(s[..k], StrictOps(s[k..]).value, []);
      assert Flatten(StrictOps(s).value) + [] == Flatten(StrictOps(s).value);
      assert s[k..] + [] == s[k..];
      assert s == s[..k] + s[k..];
    }
  }

  lemma {:induction false} WithoutIsShorter(ops: seq<Bytes>, pat: Bytes)
    requires pat != []
    ensures |Flatten(Without(ops, pat))| <= |Flatten(ops)|
    ensures |Flatten(Without(ops, pat))| == |Flatten(ops)| <==> pat !in ops
    ensures pat !in ops ==> Flatten(Without(ops, pat)) == Flatten(ops)
  {
    if ops != [] {
      WithoutIsShorter(ops[1..], pat);
      var kept := Without(ops[1..], pat);
      assert ops == [ops[0]] + ops[1..];
      if ops[0] == pat {
        assert [] + kept == kept;
      } else {
        assert ([ops[0]] + kept)[1..] == kept;
      }
    }
  }

  /**
   On any script, four-byte lengths or not: when only one reading contains the pattern the forms differ, when
   neither does they agree.
   */
  lemma FormsOnAnyScript(s: Bytes, pat: Bytes)
    requires IsOneOp(pat)
    requires StrictOps(s).None? || pat !in StrictOps(s).value || pat !in Ops(s)
    ensures Filtered(s, pat) == Deleted(s, pat)
        <==> (StrictOps(s).None? || pat !in StrictOps(s).value) && pat !in Ops(s)
  {
    FilterKeepsIff(s, pat);
    UnchangedIffAbsent(s, pat);
  }

  /** A script where they differ: the pushed pattern followed by a push cut short. */
  lemma FormsCanDiffer(d: byte)
    ensures var pat, s: Bytes := [0x01, d], [0x01, d, 0x02];
            IsOneOp(pat) && NoLongPush(s) && Filtered(s, pat) == s && Deleted(s, pat) == [0x02]
  {
    var pat, s: Bytes := [0x01, d], [0x01, d, 0x02];
    assert s[2..] == [0x02] && s[..2] == pat;
    assert OpLen([0x02]) == None && StrictLen([0x02]) == None;
    assert StrictOps([0x02]) == None;
    assert OpLen(s) == Some(2) && NoLongPush([0x02]);
  }

  // ---- the scripts that are filtered ----

  /** One operation both readings agree on: minimal, and without a four-byte length. */
  predicate IsPlainOp(op: Bytes) {
    StrictLen(op) == Some(|op|) && op[0] != 0x4e
  }

  lemma {:induction false} PlainScript(ops: seq<Bytes>)
    requires forall op :: op in ops ==> IsPlainOp(op)
    ensures StrictOps(Flatten(ops)) == Some(ops) && NoLongPush(Flatten(ops))
  {
    if ops != [] {
      var op, rest := ops[0], Flatten(ops[1..]);
      PlainScript(ops[1..]);
      PlainPrefix(op, rest);
      assert (op + rest)[..|op|] == op && (op + rest)[|op|..] == rest;
      assert ops == [op] + ops[1..];
    }
  }

  lemma PlainPrefix(op: Bytes, rest: Bytes)
    requires IsPlainOp(op)
    ensures StrictLen(op + rest) == Some(|op|) == OpLen(op + rest) && (op + rest)[0] != 0x4e
  {
    assert forall i :: 0 <= i < |op| ==> (op + rest)[i] == op[i];
    StrictIsPlain(op + rest);
  }

  /** A script of plain operations is filtered alike for every pattern that is one operation. */
  lemma PlainFormsAgree(ops: seq<Bytes>, pat: Bytes)
    requires IsOneOp(pat) && forall op :: op in ops ==> IsPlainOp(op)
    ensures Filtered(Flatten(ops), pat) == Deleted(Flatten(ops), pat)
  {
    PlainScript(ops);
    FormsAgree(Flatten(ops), pat);
  }

  /** So on the two templates that reach deletion the forms agree for every pattern that is one operation. */
  lemma TemplatesFilteredAlike(h: Hash160, m: nat, keys: seq<Bytes>, field: Bytes, pat: Bytes)
    requires ValidQuorum(m, keys, field) && IsOneOp(pat)
    ensures Filtered(KeyHashScript(h), pat) == Deleted(KeyHashScript(h), pat)
    ensures Filtered(Redeem(m, keys), pat) == Deleted(Redeem(m, keys), pat)
  {
    KeyHashFlattens(h);
    PlainFormsAgree(KeyHashOps(h), pat);
    var ops := RedeemOps(m, keys);
    forall i | 0 <= i < |ops| ensures IsPlainOp(ops[i]) {
      if 1 <= i <= |keys| { assert CompressedKey(keys[i - 1], field) && ops[i] == [0x21] + keys[i - 1]; }
    }
    PlainFormsAgree(ops, pat);
  }

  lemma KeyHashFlattens(h: Hash160)
    ensures Flatten(KeyHashOps(h)) == KeyHashScript(h)
    ensures forall op :: op in KeyHashOps(h) ==> IsPlainOp(op)
  {
    var ops := KeyHashOps(h);
    FlattenFive(ops);
    assert ops[0] + ops[1] + ops[2] + ops[3] + ops[4] == KeyHashScript(h);
  }

  // ---- both readings past a four-byte length ----

  /**
   Up to the first four-byte length the readings cut alike, so the forms agree exactly when they agree from there
   on.
   */
  lemma {:induction false} AgreementFromLongPush(ops: seq<Bytes>, rest: Bytes, pat: Bytes)
    requires IsOneOp(pat) && StrictOps(rest).Some? && forall op :: op in ops ==> IsPlainOp(op)
    ensures Filtered(Flatten(ops) + rest, pat) == Deleted(Flatten(ops) + rest, pat)
       <==> Filtered(rest, pat) == Deleted(rest, pat)
  {
    if ops == [] {
      assert Flatten(ops) + rest == rest;
    } else {
      var op, more := ops[0], Flatten(ops[1..]) + rest;
      AgreementFromLongPush(ops[1..], rest, pat);
      StrictOpsOfMore(ops[1..], rest);
      Regroup(op, Flatten(ops[1..]), rest);
      OneOpAgrees(op, more, pat);
    }
  }

  lemma {:induction false} StrictOpsOfMore(ops: seq<Bytes>, rest: Bytes)
    requires StrictOps(rest).Some? && forall op :: op in ops ==> IsPlainOp(op)
    ensures StrictOps(Flatten(ops) + rest).Some?
  {
    if ops == [] {
      assert Flatten(ops) + rest == rest;
    } else {
      var op, more := ops[0], Flatten(ops[1..]) + rest;
      StrictOpsOfMore(ops[1..], rest);
      Regroup(op, Flatten(ops[1..]), rest);
      PlainPrefix(op, more);
      assert (op + more)[|op|..] == more;
    }
  }

  /** One plain operation in front is kept or dropped alike. */
  lemma OneOpAgrees(op: Bytes, more: Bytes, pat: Bytes)
    requires IsPlainOp(op) && IsOneOp(pat) && StrictOps(more).Some?
    ensures Filtered(op + more, pat) == (if op == pat then [] else op) + Filtered(more, pat)
    ensures Deleted(op + more, pat) == (if op == pat then [] else op) + Deleted(more, pat)
    ensures Filtered(op + more, pat) == Deleted(op + more, pat) <==> Filtered(more, pat) == Deleted(more, pat)
  {
    PlainPrefix(op, more);
    assert (op + more)[..|op|] == op && (op + more)[|op|..] == more;
    FilterStep(op, StrictOps(more).value, [], pat);
    var kept := Flatten(Without(StrictOps(more).value, pat));
    assert kept + [] == kept && Filtered(op + more, pat) + [] == Filtered(op + more, pat);
    if StartsWith(op + more, pat) { OpLenOfPrefix(op + more, pat); }
    SameHead(if op == pat then [] else op, Filtered(more, pat), Deleted(more, pat));
  }

  lemma SameHead(a: Bytes, b: Bytes, c: Bytes)
    ensures a + b == a + c <==> b == c
  {
    if a + b == a + c { assert (a + b)[|a|..] == b && (a + c)[|a|..] == c; }
  }
}
