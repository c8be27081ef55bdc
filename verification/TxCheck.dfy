/** Context-free admission rules of a relayed transaction. */
module TxCheck {
  import opened Primitives
  import opened Script

  const TX_MIN_SIZE := 61
  const TX_MAX_SIZE := 100000
  const TX_MAX_SCRIPTSIG := 1650
  const TX_DUST_LIMIT := 1000000
  const TX_RELAY_CARRIER_MAX := 80
  const TX_MAX_MONEY := 10000000000 * 100000000

  /** An output reference: a transaction id and an index in four bytes. */
  type Prevout = Bytes

  /** What an output script is recognised as. */
  datatype Template = Payee | Carrier(size: nat) | Unknown

  datatype TxOut = TxOut(value: int, template: Template)

  /** What parsing gives of a transaction. */
  datatype Tx = Tx(txid: Hash256, ins: seq<Prevout>, scripts: seq<Bytes>, outs: seq<TxOut>)

  // ---- the rules ----

  predicate Distinct(s: seq<Prevout>) {
    forall i, j :: 0 <= i < j < |s| ==> s[i] != s[j]
  }

  /** The reference of a coinbase input. */
  const NULL_PREVOUT: Prevout := Zeros(32) + [0xff, 0xff, 0xff, 0xff]

  predicate IsPush(op: Bytes) {
    op != [] && op[0] <= 0x60
  }

  /** The script decodes to its end and only pushes. */
  predicate PushOnly(s: Bytes) {
    Tail(s) == [] && forall op :: op in Ops(s) ==> IsPush(op)
  }

  predicate OutputOk(o: TxOut) {
    && 0 <= o.value <= TX_MAX_MONEY
    && match o.template
       case Payee => o.value >= TX_DUST_LIMIT
       case Carrier(size) => size <= TX_RELAY_CARRIER_MAX
       case Unknown => false
  }

  function Total(outs: seq<TxOut>): int {
    if outs == [] then 0 else Total(outs[..|outs| - 1]) + outs[|outs| - 1].value
  }

  predicate OutputsOk(outs: seq<TxOut>) {
    (forall i :: 0 <= i < |outs| ==> OutputOk(outs[i])) && Total(outs) <= TX_MAX_MONEY
  }

  predicate ScriptOk(s: Bytes) {
    |s| <= TX_MAX_SCRIPTSIG && PushOnly(s)
  }

  /** A transaction the pool may hold, whatever else is in it. */
  predicate Standard(raw: Bytes, parsed: Option<Tx>) {
    && TX_MIN_SIZE <= |raw| <= TX_MAX_SIZE
    && parsed.Some? && |parsed.value.ins| >= 1 && |parsed.value.outs| >= 1
    && parsed.value.ins != [NULL_PREVOUT]
    && Distinct(parsed.value.ins)
    && (forall i :: 0 <= i < |parsed.value.scripts| ==> ScriptOk(parsed.value.scripts[i]))
    && OutputsOk(parsed.value.outs)
  }

  // ---- the loops ----

  lemma PushOnlyStep(s: Bytes)
    requires s != []
    ensures PushOnly(s) <==> s[0] <= 0x60 && OpLen(s).Some? && PushOnly(s[OpLen(s).value..])
  {
    if OpLen(s).Some? {
      var k := OpLen(s).value;
      assert Ops(s) == [s[..k]] + Ops(s[k..]);
      assert s[..k] in Ops(s) && s[..k][0] == s[0];
    }
  }

  /** Walks the script from push to push. */
  method ScriptPushOnly(s: Bytes) returns (ok: bool)
    ensures ok <==> PushOnly(s)
  {
    var i, n := 0, |s|;
    assert s[0..] == s;
    while i < n
      invariant 0 <= i <= n
      invariant PushOnly(s) <==> PushOnly(s[i..])
      decreases n - i
    {
      ghost var rest := s[i..];
      PushOnlyStep(rest);
      var op, len := s[i] as int, 0;
      i := i + 1;
      if op > 0x60 { return false; }
      if op < 0x4c {
        len := op;
      } else if op == 0x4c {
        if i + 1 > n { return false; }
        len := s[i] as int;
        i := i + 1;
      } else if op == 0x4d {
        if i + 2 > n { return false; }
        len := s[i] as int + 0x100 * s[i + 1] as int;
        i := i + 2;
      } else if op == 0x4e {
        if i + 4 > n { return false; }
        len := s[i] as int + 0x100 * s[i + 1] as int + 0x1_0000 * s[i + 2] as int + 0x100_0000 * s[i + 3] as int;
        i := i + 4;
      }
      if len > n - i { return false; }
      i := i + len;
      assert rest[OpLen(rest).value..] == s[i..];
    }
    assert s[i..] == [];
    ok := true;
  }

  lemma {:induction false} TotalGrows(outs: seq<TxOut>, k: nat)
    requires k <= |outs|
    ensures (forall i :: 0 <= i < |outs| ==> OutputOk(outs[i])) ==> Total(outs[..k]) <= Total(outs)
  {
    if k == |outs| {
      assert outs[..k] == outs;
    } else {
      assert outs[..|outs| - 1][..k] == outs[..k];
      TotalGrows(outs[..|outs| - 1], k);
    }
  }

  /** Value range, running sum, template and dust, output by output. */
  method CheckOutputs(outs: seq<TxOut>) returns (ok: bool)
    ensures ok <==> OutputsOk(outs)
  {
    var total := 0;
    for i := 0 to |outs|
      invariant 0 <= total == Total(outs[..i]) <= TX_MAX_MONEY
      invariant forall j :: 0 <= j < i ==> OutputOk(outs[j])
    {
      assert outs[..i + 1][..i] == outs[..i];
      var v := outs[i].value;
      if v < 0 || v > TX_MAX_MONEY { return false; }
      total := total + v;
      assert total == Total(outs[..i + 1]);
      if total < 0 || total > TX_MAX_MONEY {
        TotalGrows(outs, i + 1);
        return false;
      }
      match outs[i].template
      case Payee => if v < TX_DUST_LIMIT { return false; }
      case Carrier(size) => if size > TX_RELAY_CARRIER_MAX { return false; }
      case Unknown => return false;
    }
    assert outs[..|outs|] == outs;
    ok := true;
  }

  /** Compares every pair of inputs. */
  method NoDuplicates(ins: seq<Prevout>) returns (ok: bool)
    ensures ok <==> Distinct(ins)
  {
    for a := 0 to |ins|
      invariant forall i, j :: 0 <= i < a && i < j < |ins| ==> ins[i] != ins[j]
    {
      for b := a + 1 to |ins|
        invariant forall j :: a < j < b ==> ins[a] != ins[j]
      {
        if ins[a] == ins[b] { return false; }
      }
    }
    ok := true;
  }

  method CheckScripts(scripts: seq<Bytes>) returns (ok: bool)
    ensures ok <==> forall i :: 0 <= i < |scripts| ==> ScriptOk(scripts[i])
  {
    for i := 0 to |scripts|
      invariant forall j :: 0 <= j < i ==> ScriptOk(scripts[j])
    {
      if |scripts[i]| > TX_MAX_SCRIPTSIG { return false; }
      var push := ScriptPushOnly(scripts[i]);
      if !push { return false; }
    }
    ok := true;
  }

  /** Size, shape, loose coinbase, repeated input, scripts and outputs, in this order. */
  method StatelessCheck(raw: Bytes, parsed: Option<Tx>) returns (ok: bool)
    ensures ok <==> Standard(raw, parsed)
  {
    if |raw| < TX_MIN_SIZE { return false; }
    if |raw| > TX_MAX_SIZE { return false; }
    if parsed.None? { return false; }
    var tx := parsed.value;
    if |tx.ins| < 1 { return false; }
    if |tx.outs| < 1 { return false; }
    if |tx.ins| == 1 && tx.ins[0] == NULL_PREVOUT { return false; }
    assert tx.ins == [tx.ins[0]] + tx.ins[1..];
    ok := NoDuplicates(tx.ins);
    if !ok { return; }
    ok := CheckScripts(tx.scripts);
    if !ok { return; }
    ok := CheckOutputs(tx.outs);
  }
}
