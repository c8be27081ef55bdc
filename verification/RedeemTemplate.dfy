/** Recognising a multisignature script: the left-to-right scan against the scripts it accepts. */
module RedeemTemplate {
  import opened Primitives
  import opened Der
  import opened Script
  import opened SignedScript

  ghost predicate IsRedeem(rs: Bytes, m: nat, keys: seq<Bytes>, field: Bytes) {
    ValidQuorum(m, keys, field) && rs == Redeem(m, keys)
  }

  /** The script from the i-th key on. */
  function FromKey(keys: seq<Bytes>, i: nat): Bytes
    requires i <= |keys| <= 15
    decreases |keys| - i
  {
    if i == |keys| then [(0x50 + |keys|) as byte, 0xae] else [0x21] + keys[i] + FromKey(keys, i + 1)
  }

  lemma {:induction false} FlattenFromKey(keys: seq<Bytes>, i: nat)
    requires i <= |keys| <= 15
    ensures Flatten(KeyPushes(keys)[i..] + [[(0x50 + |keys|) as byte], [0xae]]) == FromKey(keys, i)
    decreases |keys| - i
  {
    var ends: seq<Bytes> := [[(0x50 + |keys|) as byte], [0xae]];
    var ops := KeyPushes(keys)[i..] + ends;
    if i == |keys| {
      assert ops == ends && ends[1..] == [[0xae]] && [[0xae as byte]][1..] == [];
      assert Flatten(ends) == [(0x50 + |keys|) as byte] + ([0xae] + []);
    } else {
      assert ops[0] == [0x21] + keys[i] && ops[1..] == KeyPushes(keys)[i + 1..] + ends;
      FlattenFromKey(keys, i + 1);
    }
  }

  lemma FlattenHead(op: Bytes, rest: seq<Bytes>)
    ensures Flatten([op] + rest) == op + Flatten(rest)
  {
    assert ([op] + rest)[1..] == rest;
  }

  lemma RedeemIsFromKey(m: nat, keys: seq<Bytes>)
    requires m <= 15 && |keys| <= 15
    ensures Redeem(m, keys) == [(0x50 + m) as byte] + FromKey(keys, 0)
  {
    FlattenFromKey(keys, 0);
    var pushes, ends: seq<Bytes> := KeyPushes(keys), [[(0x50 + |keys|) as byte], [0xae]];
    assert pushes[0..] == pushes;
    assert RedeemOps(m, keys) == [[(0x50 + m) as byte]] + (pushes + ends);
    FlattenHead([(0x50 + m) as byte], pushes + ends);
  }

  /** The i-th key starts at a fixed offset, and so does what follows the last one. */
  lemma {:induction false} KeyOffset(rs: Bytes, m: nat, keys: seq<Bytes>, i: nat)
    requires m <= 15 && i <= |keys| <= 15 && rs == Redeem(m, keys)
    requires forall j :: 0 <= j < |keys| ==> |keys[j]| == 33
    ensures 1 + 34 * i <= |rs| && rs[1 + 34 * i..] == FromKey(keys, i)
  {
    RedeemIsFromKey(m, keys);
    if i > 0 {
      KeyOffset(rs, m, keys, i - 1);
      var at := 1 + 34 * (i - 1);
      assert rs[at + 34..] == rs[at..][34..];
      assert ([0x21] + keys[i - 1] + FromKey(keys, i))[34..] == FromKey(keys, i);
    }
  }

  /** One more key can be read at a position. */
  predicate KeyAt(rs: Bytes, pos: nat, field: Bytes) {
    pos + 34 <= |rs| && rs[pos] == 0x21 && CompressedKey(rs[pos + 1..pos + 34], field)
  }

  /** The script closes at a position with the counts it should have. */
  predicate ClosesAt(rs: Bytes, pos: nat, m: nat, count: nat) {
    && pos + 2 == |rs| && rs[pos] as int == 0x50 + count && rs[pos + 1] == 0xae
    && 1 <= m <= count <= 15
  }

  /** Every reading of the script starts with what has been read so far. */
  ghost predicate ReadSoFar(rs: Bytes, field: Bytes, m: nat, keys: seq<Bytes>) {
    forall m2: nat, ks: seq<Bytes> :: IsRedeem(rs, m2, ks, field) ==>
      m2 == m && |keys| <= |ks| && ks[..|keys|] == keys
  }

  /** Any reading goes on with a key or closes, as the bytes at the cursor say. */
  lemma ReadsOn(rs: Bytes, field: Bytes, m: nat, keys: seq<Bytes>, ks: seq<Bytes>)
    requires ReadSoFar(rs, field, m, keys) && IsRedeem(rs, m, ks, field) && |keys| <= |ks|
    ensures var pos := 1 + 34 * |keys|;
            if |ks| == |keys| then ks == keys && ClosesAt(rs, pos, m, |keys|)
            else |keys| < 15 && KeyAt(rs, pos, field) && ks[|keys|] == rs[pos + 1..pos + 34]
  {
    var i, pos := |keys|, 1 + 34 * |keys|;
    assert forall j :: 0 <= j < |ks| ==> CompressedKey(ks[j], field);
    KeyOffset(rs, m, ks, i);
    var rest := rs[pos..];
    if i == |ks| {
      assert ks[..i] == ks;
      assert rest[0] == rs[pos] && rest[1] == rs[pos + 1];
    } else {
      assert |rest| >= 34 && rest[0] == rs[pos] && rest[1..34] == rs[pos + 1..pos + 34];
      assert ([0x21] + ks[i] + FromKey(ks, i + 1))[1..34] == ks[i];
    }
  }

  lemma StartsWithQuorum(rs: Bytes, field: Bytes, m: nat)
    requires |rs| > 0 ==> rs[0] as int == 0x50 + m
    ensures ReadSoFar(rs, field, m, [])
  {
    forall m2: nat, ks: seq<Bytes> | IsRedeem(rs, m2, ks, field)
      ensures m2 == m
    {
      RedeemIsFromKey(m2, ks);
    }
  }

  lemma NoQuorum(rs: Bytes, field: Bytes)
    requires rs == [] || rs[0] < 0x51 || rs[0] > 0x60
    ensures forall m: nat, ks: seq<Bytes> :: !IsRedeem(rs, m, ks, field)
  {
    forall m: nat, ks: seq<Bytes> | IsRedeem(rs, m, ks, field)
      ensures false
    {
      RedeemIsFromKey(m, ks);
    }
  }

  lemma OneKeyMore(rs: Bytes, field: Bytes, m: nat, keys: seq<Bytes>)
    requires ReadSoFar(rs, field, m, keys) && 1 + 34 * |keys| < |rs| && rs[1 + 34 * |keys|] == 0x21
    requires KeyAt(rs, 1 + 34 * |keys|, field)
    ensures ReadSoFar(rs, field, m, keys + [rs[2 + 34 * |keys|..35 + 34 * |keys|]])
  {
    forall m2: nat, ks: seq<Bytes> | IsRedeem(rs, m2, ks, field)
      ensures |keys| < |ks| && ks[..|keys| + 1] == keys + [rs[2 + 34 * |keys|..35 + 34 * |keys|]]
    {
      ReadsOn(rs, field, m, keys, ks);
      assert ks[..|keys| + 1] == ks[..|keys|] + [ks[|keys|]];
    }
  }

  /** When the bytes at the cursor neither hold a usable key nor close, there is no reading. */
  lemma NoReading(rs: Bytes, field: Bytes, m: nat, keys: seq<Bytes>)
    requires ReadSoFar(rs, field, m, keys)
    requires |keys| >= 15 || !KeyAt(rs, 1 + 34 * |keys|, field)
    requires !ClosesAt(rs, 1 + 34 * |keys|, m, |keys|)
    ensures forall m2: nat, ks: seq<Bytes> :: !IsRedeem(rs, m2, ks, field)
  {
    forall m2: nat, ks: seq<Bytes> | IsRedeem(rs, m2, ks, field)
      ensures false
    {
      ReadsOn(rs, field, m, keys, ks);
    }
  }

  lemma ClosingCompletes(rs: Bytes, m: nat, keys: seq<Bytes>, field: Bytes)
    requires |keys| <= 15 && forall i :: 0 <= i < |keys| ==> CompressedKey(keys[i], field)
    requires ClosesAt(rs, 1 + 34 * |keys|, m, |keys|) && rs[0] as int == 0x50 + m
    requires forall i :: 0 <= i < |keys| ==> rs[1 + 34 * i] == 0x21 && rs[2 + 34 * i..35 + 34 * i] == keys[i]
    ensures IsRedeem(rs, m, keys, field)
  {
    RedeemIsFromKey(m, keys);
    KeysInPlace(rs, keys, 0);
    assert rs == [rs[0]] + rs[1..];
  }

  lemma {:induction false} KeysInPlace(rs: Bytes, keys: seq<Bytes>, i: nat)
    requires i <= |keys| <= 15 && |rs| == 3 + 34 * |keys|
    requires rs[1 + 34 * |keys|] as int == 0x50 + |keys| && rs[2 + 34 * |keys|] == 0xae
    requires forall j :: 0 <= j < |keys| ==> rs[1 + 34 * j] == 0x21 && rs[2 + 34 * j..35 + 34 * j] == keys[j]
    ensures rs[1 + 34 * i..] == FromKey(keys, i)
    decreases |keys| - i
  {
    if i < |keys| {
      KeysInPlace(rs, keys, i + 1);
      KeyThenRest(rs, 1 + 34 * i);
    } else {
      assert rs[1 + 34 * i..] == [rs[1 + 34 * i], rs[2 + 34 * i]];
    }
  }

  lemma KeyThenRest(rs: Bytes, at: nat)
    requires at + 34 <= |rs|
    ensures rs[at..] == [rs[at]] + rs[at + 1..at + 34] + rs[at + 34..]
  {
  }

  /** Accepts exactly the m-of-n scripts over compressed keys, and returns m and the keys. */
  method Recognise(rs: Bytes, field: Bytes) returns (ok: bool, m: nat, keys: seq<Bytes>)
    requires |field| == 32
    ensures ok ==> IsRedeem(rs, m, keys, field)
    ensures !ok ==> forall m: nat, keys: seq<Bytes> :: !IsRedeem(rs, m, keys, field)
  {
    m, keys := 0, [];
    if |rs| < 1 || rs[0] < 0x51 || rs[0] > 0x60 {
      NoQuorum(rs, field);
      return false, m, keys;
    }
    m := rs[0] as int - 0x50;
    StartsWithQuorum(rs, field, m);
    var pos := 1;
    while pos < |rs| && rs[pos] == 0x21
      invariant pos == 1 + 34 * |keys| <= |rs| && |keys| <= 15
      invariant ReadSoFar(rs, field, m, keys)
      invariant forall i :: 0 <= i < |keys| ==> CompressedKey(keys[i], field)
      invariant forall i :: 0 <= i < |keys| ==> rs[1 + 34 * i] == 0x21 && rs[2 + 34 * i..35 + 34 * i] == keys[i]
      decreases |rs| - pos
    {
      var usable := false;
      if pos + 34 <= |rs| && (rs[pos + 1] == 0x02 || rs[pos + 1] == 0x03) {
        var key := rs[pos + 1..pos + 34];
        var c := BeCompare(key[1..], field);
        usable := c < 0 && |keys| < 15;
        assert key[0] == rs[pos + 1];
      }
      if !usable {
        assert pos + 34 <= |rs| ==> rs[pos + 1..pos + 34][0] == rs[pos + 1];
        NoReading(rs, field, m, keys);
        return false, m, keys;
      }
      OneKeyMore(rs, field, m, keys);
      keys := keys + [rs[pos + 1..pos + 34]];
      pos := pos + 34;
    }
    if pos + 2 == |rs| && rs[pos] as int == 0x50 + |keys| && rs[pos + 1] == 0xae && 1 <= m <= |keys| {
      ClosingCompletes(rs, m, keys, field);
      return true, m, keys;
    }
    NoReading(rs, field, m, keys);
    return false, m, keys;
  }
}
