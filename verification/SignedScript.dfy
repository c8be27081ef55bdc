/** The scripts a signature commits to, and what deleting signature pushes does to them. */
module SignedScript {
  import opened Primitives
  import opened Der
  import opened Script

  // ---- pushes ----

  /** The minimal push of some data. */
  function PushOf(d: Bytes): (p: Bytes)
    requires |d| < 0x1_0000
    ensures |p| > |d|
  {
    if |d| < 76 then [|d| as byte] + d
    else if |d| <= 255 then [0x4c, |d| as byte] + d
    else [0x4d, (|d| % 0x100) as byte, (|d| / 0x100) as byte] + d
  }

  lemma PushIsOneOp(d: Bytes)
    requires |d| < 0x1_0000
    ensures IsOneOp(PushOf(d))
  {
  }

  // ---- the pay-to-key-hash script ----

  function KeyHashScript(h: Hash160): Bytes {
    [0x76, 0xa9, 0x14] + h + [0x88, 0xac]
  }

  function KeyHashOps(h: Hash160): seq<Bytes> {
    [[0x76], [0xa9], PushOf(h), [0x88], [0xac]]
  }

  lemma KeyHashScriptOps(h: Hash160)
    ensures Ops(KeyHashScript(h)) == KeyHashOps(h)
  {
    var ops := KeyHashOps(h);
    FlattenFive(ops);
    assert ops[0] + ops[1] + ops[2] + ops[3] + ops[4] == KeyHashScript(h);
    PushIsOneOp(h);
    forall op | op in ops
      ensures IsOneOp(op)
    {
    }
    OpsOfFlatten(ops, []);
    assert Flatten(ops) + [] == Flatten(ops);
  }

  lemma FlattenFive(ops: seq<Bytes>)
    requires |ops| == 5
    ensures Flatten(ops) == ops[0] + ops[1] + ops[2] + ops[3] + ops[4]
  {
    FlattenHead(ops[0], ops[1..]);
    FlattenHead(ops[1], ops[2..]);
    FlattenHead(ops[2], ops[3..]);
    FlattenHead(ops[3], ops[4..]);
    FlattenHead(ops[4], []);
    assert ops == [ops[0]] + ops[1..] && ops[1..] == [ops[1]] + ops[2..] && ops[2..] == [ops[2]] + ops[3..];
    assert ops[3..] == [ops[3]] + ops[4..] && ops[4..] == [ops[4]] + [];
    FiveRegrouped(ops[0], ops[1], ops[2], ops[3], ops[4]);
  }

  lemma FlattenHead(op: Bytes, rest: seq<Bytes>)
    ensures Flatten([op] + rest) == op + Flatten(rest)
  {
    assert ([op] + rest)[1..] == rest;
  }

  lemma FiveRegrouped(a: Bytes, b: Bytes, c: Bytes, d: Bytes, e: Bytes)
    ensures a + (b + (c + (d + (e + [])))) == a + b + c + d + e
  {
    assert e + [] == e;
    Regroup(c, d, e);
    Regroup(b, c + d, e);
    Regroup(b, c, d);
    Regroup(a, b + c + d, e);
    Regroup(a, b + c, d);
    Regroup(a, b, c);
  }

  lemma PushIsInjective(a: Bytes, b: Bytes)
    requires |a| < 0x1_0000 && |b| < 0x1_0000 && PushOf(a) == PushOf(b)
    ensures a == b
  {
    var h := if |a| < 76 then 1 else if |a| <= 255 then 2 else 3;
    assert PushOf(a)[h..] == a && PushOf(b)[h..] == b;
  }

  /** On the key-hash script deletion acts only for a signature equal to the hash itself. */
  lemma KeyHashScriptIsKept(h: Hash160, sig: Bytes)
    requires 0 < |sig| < 0x1_0000
    ensures Deleted(KeyHashScript(h), PushOf(sig)) == KeyHashScript(h) <==> sig != h
  {
    var pat := PushOf(sig);
    PushIsOneOp(sig);
    KeyHashScriptOps(h);
    UnchangedIffAbsent(KeyHashScript(h), pat);
    if pat == PushOf(h) { PushIsInjective(sig, h); }
    var ops := KeyHashOps(h);
    assert |pat| >= 2;
    assert pat in ops <==> pat == ops[2];
  }

  // ---- the multisignature script ----

  predicate CompressedKey(k: Bytes, field: Bytes) {
    |k| == 33 && (k[0] == 0x02 || k[0] == 0x03) && BeVal(k[1..]) < BeVal(field)
  }

  function KeyPushes(keys: seq<Bytes>): seq<Bytes> {
    seq(|keys|, i requires 0 <= i < |keys| => [0x21] + keys[i])
  }

  function RedeemOps(m: nat, keys: seq<Bytes>): seq<Bytes>
    requires m <= 15 && |keys| <= 15
  {
    [[(0x50 + m) as byte]] + KeyPushes(keys) + [[(0x50 + |keys|) as byte], [0xae]]
  }

  /** The script of an m-of-n multisignature over compressed keys. */
  function Redeem(m: nat, keys: seq<Bytes>): Bytes
    requires m <= 15 && |keys| <= 15
  {
    Flatten(RedeemOps(m, keys))
  }

  predicate ValidQuorum(m: nat, keys: seq<Bytes>, field: Bytes) {
    1 <= m <= |keys| <= 15 && forall i :: 0 <= i < |keys| ==> CompressedKey(keys[i], field)
  }

  lemma RedeemOpsParse(m: nat, keys: seq<Bytes>, field: Bytes)
    requires ValidQuorum(m, keys, field)
    ensures Ops(Redeem(m, keys)) == RedeemOps(m, keys)
  {
    var ops := RedeemOps(m, keys);
    forall i | 0 <= i < |ops|
      ensures IsOneOp(ops[i])
    {
      if 1 <= i <= |keys| { assert CompressedKey(keys[i - 1], field) && ops[i] == [0x21] + keys[i - 1]; }
    }
    OpsOfFlatten(ops, []);
    assert Flatten(ops) + [] == Flatten(ops);
  }

  /** Deleting the push of a DER signature leaves every multisignature script as it was. */
  lemma RedeemIsKept(m: nat, keys: seq<Bytes>, field: Bytes, sig: Bytes, r: Bytes, s: Bytes)
    requires ValidQuorum(m, keys, field) && Encodes(sig, r, s)
    ensures Deleted(Redeem(m, keys), PushOf(sig)) == Redeem(m, keys)
  {
    var pat := PushOf(sig);
    PushIsOneOp(sig);
    RedeemOpsParse(m, keys, field);
    UnchangedIffAbsent(Redeem(m, keys), pat);
    assert pat[1] == 0x30 && |pat| >= 10;
    var ops := RedeemOps(m, keys);
    forall i | 0 <= i < |ops|
      ensures ops[i] != pat
    {
      if 1 <= i <= |keys| {
        assert CompressedKey(keys[i - 1], field) && ops[i] == [0x21] + keys[i - 1];
        assert ops[i][1] == keys[i - 1][0];
      }
    }
  }

  /** No operation of either template has a four-byte length, so no cursor position in them has a negative one. */
  lemma TemplatesHaveNoNegativeLength(h: Hash160, m: nat, keys: seq<Bytes>, field: Bytes)
    requires ValidQuorum(m, keys, field)
    ensures forall op :: op in Ops(KeyHashScript(h)) || op in Ops(Redeem(m, keys)) ==>
        IsNarrow(op) && !NegativeLength(op)
  {
    KeyHashScriptOps(h);
    RedeemOpsParse(m, keys, field);
  }

  /** So the program's loop, signed lengths and all, does to both templates what is modelled. */
  lemma SignedLoopOnTemplates(h: Hash160, m: nat, keys: seq<Bytes>, field: Bytes, pat: Bytes)
    requires ValidQuorum(m, keys, field) && IsOneOp(pat)
    ensures SignedDeleted(KeyHashScript(h), pat) == Some(Deleted(KeyHashScript(h), pat))
    ensures SignedDeleted(Redeem(m, keys), pat) == Some(Deleted(Redeem(m, keys), pat))
  {
    TemplatesHaveNoNegativeLength(h, m, keys, field);
    TemplatesDecode(h, m, keys, field);
    NoWideOpsNoneOnTheWay(KeyHashScript(h), pat);
    NoWideOpsNoneOnTheWay(Redeem(m, keys), pat);
    SignedLoopIsDeletion(KeyHashScript(h), pat);
    SignedLoopIsDeletion(Redeem(m, keys), pat);
  }

  lemma TemplatesDecode(h: Hash160, m: nat, keys: seq<Bytes>, field: Bytes)
    requires ValidQuorum(m, keys, field)
    ensures Tail(KeyHashScript(h)) == [] && Tail(Redeem(m, keys)) == []
  {
    KeyHashScriptOps(h);
    FlattenFive(KeyHashOps(h));
    OpsAndTail(KeyHashScript(h));
    NothingLeft(KeyHashScript(h), Flatten(KeyHashOps(h)), Tail(KeyHashScript(h)));
    RedeemOpsParse(m, keys, field);
    OpsAndTail(Redeem(m, keys));
    NothingLeft(Redeem(m, keys), Flatten(RedeemOps(m, keys)), Tail(Redeem(m, keys)));
  }

  lemma NothingLeft(s: Bytes, all: Bytes, tail: Bytes)
    requires all + tail == s && |all| == |s|
    ensures tail == []
  {
  }

  /** Deleting several pushes one after the other. */
  function DeletedAll(s: Bytes, sigs: seq<Bytes>): Bytes
    requires forall i :: 0 <= i < |sigs| ==> |sigs[i]| < 0x1_0000
    decreases |sigs|
  {
    if sigs == [] then s else DeletedAll(Deleted(s, PushOf(sigs[0])), sigs[1..])
  }

  ghost predicate StrictDer(sig: Bytes) {
    exists r, s :: Encodes(sig, r, s)
  }

  /** Whatever the signatures of an input are, its multisignature script is signed unchanged. */
  lemma {:induction false} SignedUnchanged(m: nat, keys: seq<Bytes>, field: Bytes, sigs: seq<Bytes>)
    requires ValidQuorum(m, keys, field) && forall i :: 0 <= i < |sigs| ==> StrictDer(sigs[i])
    ensures forall i :: 0 <= i < |sigs| ==> |sigs[i]| < 0x1_0000
    ensures DeletedAll(Redeem(m, keys), sigs) == Redeem(m, keys)
  {
    assert forall i :: 0 <= i < |sigs| ==> StrictDer(sigs[i]) && |sigs[i]| <= 73;
    if sigs != [] {
      assert StrictDer(sigs[0]);
      var r, s :| Encodes(sigs[0], r, s);
      RedeemIsKept(m, keys, field, sigs[0], r, s);
      SignedUnchanged(m, keys, field, sigs[1..]);
    }
  }
}
