/**
 Bitcoin transactions as the vault reads them: the OP_RETURN request id, the amount paid to an
 address, the return-to-self output, and what a fee bump (BIP 125 replacement) does to the outputs.
 */
module Transactions {
  import opened Wrappers

  type Byte = b: int | 0 <= b < 256
  type Script = seq<Byte>
  type Hash = seq<Byte>
  type Txid = nat

  datatype Payload =
    | PubkeyHash(hash: seq<Byte>)
    | ScriptHash(hash: seq<Byte>)
    | WitnessProgram(version: nat, program: seq<Byte>)

  datatype TxOut = TxOut(value: nat, scriptPubkey: Script)

  datatype Transaction = Transaction(txid: Txid, outputs: seq<TxOut>)

  datatype BumpError = TooManyReturnToSelfAddresses

  // ---------------------------------------------------------------- scripts

  predicate IsWitnessScript(s: Script) {
    && 4 <= |s| <= 42
    && (s[0] == 0 || 0x51 <= s[0] <= 0x60)
    && s[1] == |s| - 2
    && (s[0] == 0 ==> |s| == 22 || |s| == 34)
  }

  /** The address a script pays to; scripts of any other form pay to no address. */
  function PayloadFromScript(s: Script): Option<Payload> {
    if |s| == 25 && s[..3] == [0x76, 0xa9, 0x14] && s[23..] == [0x88, 0xac] then
      Some(PubkeyHash(s[3..23]))
    else if |s| == 23 && s[..2] == [0xa9, 0x14] && s[22] == 0x87 then
      Some(ScriptHash(s[2..22]))
    else if IsWitnessScript(s) then
      Some(WitnessProgram(if s[0] == 0 then 0 else s[0] - 0x50, s[2..]))
    else
      None
  }

  /** The request id a 34-byte OP_RETURN script carries. */
  function OpReturnId(s: Script): Option<Hash> {
    if |s| == 34 && s[0] == 0x6a && s[1] == 32 then Some(s[2..]) else None
  }

  function FirstOpReturn(outs: seq<TxOut>): Option<Hash> {
    if outs == [] then None
    else if OpReturnId(outs[0].scriptPubkey).Some? then OpReturnId(outs[0].scriptPubkey)
    else FirstOpReturn(outs[1..])
  }

  /** Only the first three outputs are considered, as on the parachain. */
  function GetOpReturn(outs: seq<TxOut>): Option<Hash> {
    FirstOpReturn(if |outs| <= 3 then outs else outs[..3])
  }

  /** The value of the first output that pays to `dest`. */
  function GetPaymentAmountTo(outs: seq<TxOut>, dest: Payload): Option<nat> {
    if outs == [] then None
    else if PayloadFromScript(outs[0].scriptPubkey) == Some(dest) then Some(outs[0].value)
    else GetPaymentAmountTo(outs[1..], dest)
  }

  /** Addresses that exist: twenty-byte hashes, and witness programs of the lengths BIP 141 allows. */
  predicate WellFormed(p: Payload) {
    match p
    case PubkeyHash(hash) => |hash| == 20
    case ScriptHash(hash) => |hash| == 20
    case WitnessProgram(version, program) =>
      version <= 16 && 2 <= |program| <= 40 && (version == 0 ==> |program| == 20 || |program| == 32)
  }

  /** The script that pays to an address. */
  function ScriptOf(p: Payload): Script
    requires WellFormed(p)
  {
    match p
    case PubkeyHash(hash) => [0x76, 0xa9, 0x14] + hash + [0x88, 0xac]
    case ScriptHash(hash) => [0xa9, 0x14] + hash + [0x87]
    case WitnessProgram(version, program) => [if version == 0 then 0 else 0x50 + version, |program|] + program
  }

  /** Addresses and the scripts that pay to them correspond one to one. */
  lemma PayloadExact(s: Script, p: Payload)
    ensures PayloadFromScript(s) == Some(p) <==> WellFormed(p) && s == ScriptOf(p)
  {
    if PayloadFromScript(s) == Some(p) {
      assert s == s[..1] + s[1..2] + s[2..];
    }
    if WellFormed(p) && s == ScriptOf(p) {
      match p
      case PubkeyHash(hash) => assert s[3..23] == hash;
      case ScriptHash(hash) => assert s[2..22] == hash;
      case WitnessProgram(version, program) => assert s[2..] == program;
    }
  }

  /** The amount is that of the first output that pays the address, and there is none when no output does. */
  lemma {:induction false} GetPaymentAmountToExact(outs: seq<TxOut>, dest: Payload)
    ensures var r := GetPaymentAmountTo(outs, dest);
            && (r.None? <==> forall i :: 0 <= i < |outs| ==> PayloadFromScript(outs[i].scriptPubkey) != Some(dest))
            && (r.Some? ==>
                  exists i :: && 0 <= i < |outs| && PayloadFromScript(outs[i].scriptPubkey) == Some(dest)
                              && outs[i].value == r.value
                              && forall j :: 0 <= j < i ==> PayloadFromScript(outs[j].scriptPubkey) != Some(dest))
  {
    hide PayloadFromScript;
    if outs != [] {
      var rest := outs[1..];
      GetPaymentAmountToExact(rest, dest);
      assert forall i :: 0 < i < |outs| ==> outs[i] == rest[i - 1];
      if PayloadFromScript(outs[0].scriptPubkey) != Some(dest) && GetPaymentAmountTo(rest, dest).Some? {
        var i :| && 0 <= i < |rest| && PayloadFromScript(rest[i].scriptPubkey) == Some(dest)
                 && rest[i].value == GetPaymentAmountTo(rest, dest).value
                 && forall j :: 0 <= j < i ==> PayloadFromScript(rest[j].scriptPubkey) != Some(dest);
        assert outs[i + 1] == rest[i];
      }
    }
  }

  /** The script is OP_RETURN, a length of 32, and these 32 bytes. */
  predicate CarriesId(s: Script, id: Hash) {
    |id| == 32 && s == [0x6a, 32] + id
  }

  lemma OpReturnIdExact(s: Script, id: Hash)
    ensures OpReturnId(s) == Some(id) <==> CarriesId(s, id)
  {
    if OpReturnId(s).Some? {
      assert s == [s[0], s[1]] + s[2..];
    }
    if CarriesId(s, id) {
      assert s[2..] == id;
    }
  }

  lemma {:induction false} FirstOpReturnExact(outs: seq<TxOut>, id: Hash)
    ensures FirstOpReturn(outs) == Some(id) <==>
            exists i :: && 0 <= i < |outs| && CarriesId(outs[i].scriptPubkey, id)
                        && forall j :: 0 <= j < i ==> OpReturnId(outs[j].scriptPubkey) == None
  {
    hide CarriesId, OpReturnId;
    if outs != [] {
      var rest := outs[1..];
      FirstOpReturnExact(rest, id);
      OpReturnIdExact(outs[0].scriptPubkey, id);
      assert forall i :: 0 < i < |outs| ==> outs[i] == rest[i - 1];
      if i :| && 0 <= i < |outs| && CarriesId(outs[i].scriptPubkey, id)
              && forall j :: 0 <= j < i ==> OpReturnId(outs[j].scriptPubkey) == None {
        if i > 0 {
          assert forall j :: 0 <= j < i - 1 ==> rest[j] == outs[j + 1];
          assert CarriesId(rest[i - 1].scriptPubkey, id);
        }
      }
      if i :| && 0 <= i < |rest| && CarriesId(rest[i].scriptPubkey, id)
              && forall j :: 0 <= j < i ==> OpReturnId(rest[j].scriptPubkey) == None {
        assert CarriesId(outs[i + 1].scriptPubkey, id);
      }
    }
  }

  /** The id is that of the first id script among the first three outputs; later outputs do not matter. */
  lemma GetOpReturnExact(outs: seq<TxOut>, id: Hash)
    ensures GetOpReturn(outs) == Some(id) <==>
            exists i :: && 0 <= i < |outs| && i < 3 && CarriesId(outs[i].scriptPubkey, id)
                        && forall j :: 0 <= j < i ==> OpReturnId(outs[j].scriptPubkey) == None
  {
    hide CarriesId, OpReturnId, FirstOpReturn;
    var considered := if |outs| <= 3 then outs else outs[..3];
    assert forall i :: 0 <= i < |considered| ==> considered[i] == outs[i];
    FirstOpReturnExact(considered, id);
  }

  // ---------------------------------------------------------------- return-to-self

  /** Index and address of every output of `outs` from position `i` on with a non-zero value. */
  function IndexedOutputAddresses(outs: seq<TxOut>, i: nat): seq<(nat, Payload)>
    requires i <= |outs|
    decreases |outs| - i
  {
    if i == |outs| then []
    else
      var payload := PayloadFromScript(outs[i].scriptPubkey);
      (if outs[i].value > 0 && payload.Some? then [(i, payload.value)] else [])
      + IndexedOutputAddresses(outs, i + 1)
  }

  function DropDestination(found: seq<(nat, Payload)>, dest: Payload): seq<(nat, Payload)> {
    if found == [] then []
    else (if found[0].1 != dest then [found[0]] else []) + DropDestination(found[1..], dest)
  }

  function ExtractReturnToSelf(outs: seq<TxOut>, dest: Payload): Result<Option<(nat, Payload)>, BumpError> {
    var found := DropDestination(IndexedOutputAddresses(outs, 0), dest);
    if |found| == 0 then Ok(None)
    else if |found| == 1 then Ok(Some(found[0]))
    else Err(TooManyReturnToSelfAddresses)
  }

  /** An output that a bump treats as return-to-self. */
  predicate IsReturn(o: TxOut, dest: Payload) {
    && o.value > 0
    && PayloadFromScript(o.scriptPubkey).Some?
    && PayloadFromScript(o.scriptPubkey) != Some(dest)
  }

  /** The collected list is exactly the return outputs, in order and each once. */
  ghost predicate ListsReturns(found: seq<(nat, Payload)>, outs: seq<TxOut>, i: nat, dest: Payload) {
    && (forall k :: 0 <= k < |found| ==>
          && i <= found[k].0 < |outs|
          && IsReturn(outs[found[k].0], dest)
          && PayloadFromScript(outs[found[k].0].scriptPubkey) == Some(found[k].1))
    && (forall k, l :: 0 <= k < l < |found| ==> found[k].0 < found[l].0)
    && (forall j :: i <= j < |outs| && IsReturn(outs[j], dest) ==> Listed(found, j))
  }

  ghost predicate Listed(found: seq<(nat, Payload)>, j: nat) {
    exists k :: 0 <= k < |found| && found[k].0 == j
  }

  lemma ListsOneMore(found: seq<(nat, Payload)>, outs: seq<TxOut>, i: nat, dest: Payload, payload: Payload)
    requires i < |outs| && IsReturn(outs[i], dest) && PayloadFromScript(outs[i].scriptPubkey) == Some(payload)
    requires ListsReturns(found, outs, i + 1, dest)
    ensures ListsReturns([(i, payload)] + found, outs, i, dest)
  {
    hide PayloadFromScript;
    var all := [(i, payload)] + found;
    forall j | i <= j < |outs| && IsReturn(outs[j], dest)
      ensures Listed(all, j)
    {
      if j == i {
        assert all[0].0 == j;
      } else {
        assert Listed(found, j);
        var k :| 0 <= k < |found| && found[k].0 == j;
        assert all[k + 1].0 == j;
      }
    }
  }

  lemma ListsSkip(found: seq<(nat, Payload)>, outs: seq<TxOut>, i: nat, dest: Payload)
    requires i < |outs| && !IsReturn(outs[i], dest)
    requires ListsReturns(found, outs, i + 1, dest)
    ensures ListsReturns(found, outs, i, dest)
  {
    hide PayloadFromScript;
    forall j | i <= j < |outs| && IsReturn(outs[j], dest)
      ensures Listed(found, j)
    {
      assert i + 1 <= j;
    }
  }

  lemma FoundUnfolds(outs: seq<TxOut>, i: nat, dest: Payload)
    requires i < |outs|
    ensures var rest := DropDestination(IndexedOutputAddresses(outs, i + 1), dest);
            DropDestination(IndexedOutputAddresses(outs, i), dest) ==
            if IsReturn(outs[i], dest) then [(i, PayloadFromScript(outs[i].scriptPubkey).value)] + rest else rest
  {
    hide PayloadFromScript;
    var rest := IndexedOutputAddresses(outs, i + 1);
    var all := IndexedOutputAddresses(outs, i);
    if all != rest {
      assert all[1..] == rest;
    }
  }

  lemma {:induction false} ReturnsListed(outs: seq<TxOut>, i: nat, dest: Payload)
    requires i <= |outs|
    ensures ListsReturns(DropDestination(IndexedOutputAddresses(outs, i), dest), outs, i, dest)
    decreases |outs| - i
  {
    hide PayloadFromScript;
    if i < |outs| {
      ReturnsListed(outs, i + 1, dest);
      FoundUnfolds(outs, i, dest);
      var rest := DropDestination(IndexedOutputAddresses(outs, i + 1), dest);
      if IsReturn(outs[i], dest) {
        ListsOneMore(rest, outs, i, dest, PayloadFromScript(outs[i].scriptPubkey).value);
      } else {
        ListsSkip(rest, outs, i, dest);
      }
    }
  }

  /** What the extraction promises: the unique return output, none, or an error when there are several. */
  lemma ExtractReturnToSelfExact(outs: seq<TxOut>, dest: Payload)
    ensures var r := ExtractReturnToSelf(outs, dest);
            && (r == Ok(None) <==> forall j :: 0 <= j < |outs| ==> !IsReturn(outs[j], dest))
            && (r.Ok? && r.value.Some? ==>
                  && r.value.value.0 < |outs|
                  && PayloadFromScript(outs[r.value.value.0].scriptPubkey) == Some(r.value.value.1)
                  && forall j :: 0 <= j < |outs| ==> (IsReturn(outs[j], dest) <==> j == r.value.value.0))
            && (r.Err? <==> exists j, k :: 0 <= j < k < |outs| && IsReturn(outs[j], dest) && IsReturn(outs[k], dest))
  {
    hide PayloadFromScript;
    ReturnsListed(outs, 0, dest);
    var found := DropDestination(IndexedOutputAddresses(outs, 0), dest);
    if |found| >= 2 {
      assert found[0].0 < found[1].0;
    }
    forall j | 0 <= j < |outs| && IsReturn(outs[j], dest)
      ensures Listed(found, j)
    {
    }
  }

  // ---------------------------------------------------------------- fee bumps

  function RemoveAt(outs: seq<TxOut>, i: nat): seq<TxOut>
    requires i < |outs|
  {
    outs[..i] + outs[i + 1..]
  }

  function InsertAt(outs: seq<TxOut>, i: nat, o: TxOut): seq<TxOut>
    requires i <= |outs|
  {
    outs[..i] + [o] + outs[i..]
  }

  /** What funding adds to the outputs: no change, or one change output at some position. */
  datatype Funding = NoChange | Change(position: nat, output: TxOut)

  function Fund(outs: seq<TxOut>, funding: Funding): seq<TxOut> {
    match funding
    case NoChange => outs
    case Change(p, o) => InsertAt(outs, if p <= |outs| then p else |outs|, o)
  }

  /** Drop the return-to-self output of a pending transaction and let the wallet fund it again. */
  function BumpFee(outs: seq<TxOut>, dest: Payload, funding: Funding): Result<seq<TxOut>, BumpError> {
    match ExtractReturnToSelf(outs, dest)
    case Err(e) => Err(e)
    case Ok(None) => Ok(Fund(outs, funding))
    case Ok(Some(found)) =>
      ExtractReturnToSelfExact(outs, dest);
      Ok(Fund(RemoveAt(outs, found.0), funding))
  }

  /** Funding adds nothing, or exactly the change output. */
  lemma FundExact(outs: seq<TxOut>, funding: Funding)
    ensures funding.NoChange? ==> Fund(outs, funding) == outs
    ensures funding.Change? ==>
              exists i :: && 0 <= i < |Fund(outs, funding)| && Fund(outs, funding)[i] == funding.output
                          && Fund(outs, funding)[..i] + Fund(outs, funding)[i + 1..] == outs
                          && (funding.position <= |outs| ==> i == funding.position)
  {
    if funding.Change? {
      var i := if funding.position <= |outs| then funding.position else |outs|;
      assert Fund(outs, funding)[..i] == outs[..i] && Fund(outs, funding)[i + 1..] == outs[i..];
    }
  }

  /** A bump fails exactly when there are several return outputs; otherwise it funds the outputs without the one there is. */
  lemma BumpFeeExact(outs: seq<TxOut>, dest: Payload, funding: Funding)
    ensures var r := BumpFee(outs, dest, funding);
            && (r.Err? <==> exists j, k :: 0 <= j < k < |outs| && IsReturn(outs[j], dest) && IsReturn(outs[k], dest))
            && ((forall j :: 0 <= j < |outs| ==> !IsReturn(outs[j], dest)) ==> r == Ok(Fund(outs, funding)))
            && (r.Ok? ==> forall j :: 0 <= j < |outs| && IsReturn(outs[j], dest) ==>
                                        r.value == Fund(outs[..j] + outs[j + 1..], funding))
  {
    hide IsReturn, PayloadFromScript, Fund;
    ExtractReturnToSelfExact(outs, dest);
  }

  /** The transaction after a series of bumps; a failed bump leaves the previous transaction in place. */
  function BumpAll(outs: seq<TxOut>, dest: Payload, fundings: seq<Funding>): seq<TxOut>
    decreases |fundings|
  {
    if fundings == [] then outs
    else
      var next := BumpFee(outs, dest, fundings[0]);
      BumpAll(if next.Ok? then next.value else outs, dest, fundings[1..])
  }

  /** A transaction with several return outputs cannot be bumped, however often it is tried. */
  lemma {:induction false} SeveralReturnsStay(outs: seq<TxOut>, dest: Payload, fundings: seq<Funding>, j: nat, k: nat)
    requires j < k < |outs| && IsReturn(outs[j], dest) && IsReturn(outs[k], dest)
    ensures BumpAll(outs, dest, fundings) == outs
    decreases |fundings|
  {
    hide IsReturn;
    if fundings != [] {
      BumpFeeExact(outs, dest, fundings[0]);
      SeveralReturnsStay(outs, dest, fundings[1..], j, k);
    }
  }

  predicate IsPayment(o: TxOut, dest: Payload, amount: nat) {
    PayloadFromScript(o.scriptPubkey) == Some(dest) && o.value == amount
  }

  predicate IsRequestId(o: TxOut, id: Hash) {
    OpReturnId(o.scriptPubkey) == Some(id)
  }

  /** Outputs made by creation and funding: the payment, the request id and at most one change, in any order. */
  ghost predicate BuiltFor(outs: seq<TxOut>, dest: Payload, amount: nat, id: Hash) {
    exists a: nat, b: nat :: BuiltAt(outs, dest, amount, id, a, b)
  }

  /** The payment is output `a`, the request id output `b`, and any third output is change. */
  ghost predicate BuiltAt(outs: seq<TxOut>, dest: Payload, amount: nat, id: Hash, a: nat, b: nat) {
    && 2 <= |outs| <= 3
    && a < |outs| && b < |outs| && a != b
    && IsPayment(outs[a], dest, amount)
    && IsRequestId(outs[b], id)
    && forall i :: 0 <= i < |outs| && i != a && i != b ==> IsReturn(outs[i], dest)
  }

  predicate PaysTo(outs: seq<TxOut>, dest: Payload, amount: nat, id: Hash) {
    GetOpReturn(outs) == Some(id) && GetPaymentAmountTo(outs, dest) == Some(amount)
  }

  /** The outputs of a fresh payment; the JSON object may list the data output first. */
  function CreateOutputs(script: Script, amount: nat, id: Hash, dataFirst: bool): seq<TxOut>
    requires |id| == 32
  {
    var payment, data := TxOut(amount, script), TxOut(0, [0x6a, 32] + id);
    if dataFirst then [data, payment] else [payment, data]
  }

  /** Change goes back to the wallet, never to the recipient, and is never empty. */
  predicate ChangeIsOurs(funding: Funding, dest: Payload) {
    funding.Change? ==> IsReturn(funding.output, dest)
  }

  lemma OpReturnPaysNobody(s: Script)
    requires OpReturnId(s).Some?
    ensures PayloadFromScript(s) == None
  {
  }

  lemma {:induction false} PaymentAt(outs: seq<TxOut>, dest: Payload, amount: nat, a: nat)
    requires a < |outs| && IsPayment(outs[a], dest, amount)
    requires forall i :: 0 <= i < a ==> PayloadFromScript(outs[i].scriptPubkey) != Some(dest)
    ensures GetPaymentAmountTo(outs, dest) == Some(amount)
  {
    hide PayloadFromScript;
    if a > 0 {
      PaymentAt(outs[1..], dest, amount, a - 1);
    }
  }

  lemma {:induction false} OpReturnAt(outs: seq<TxOut>, id: Hash, b: nat)
    requires b < |outs| && IsRequestId(outs[b], id)
    requires forall i :: 0 <= i < b ==> OpReturnId(outs[i].scriptPubkey) == None
    ensures FirstOpReturn(outs) == Some(id)
  {
    if b > 0 {
      OpReturnAt(outs[1..], id, b - 1);
    }
  }

  lemma BuiltPays(outs: seq<TxOut>, dest: Payload, amount: nat, id: Hash)
    requires BuiltFor(outs, dest, amount, id)
    ensures PaysTo(outs, dest, amount, id)
  {
    var a: nat, b: nat :| BuiltAt(outs, dest, amount, id, a, b);
    OpReturnPaysNobody(outs[b].scriptPubkey);
    PaymentAt(outs, dest, amount, a);
    forall i | 0 <= i < b
      ensures OpReturnId(outs[i].scriptPubkey) == None
    {
      if OpReturnId(outs[i].scriptPubkey).Some? {
        OpReturnPaysNobody(outs[i].scriptPubkey);
      }
    }
    OpReturnAt(outs, id, b);
  }

  lemma InsertKeepsBuilt(outs: seq<TxOut>, dest: Payload, amount: nat, id: Hash, a: nat, b: nat, p: nat, o: TxOut)
    requires |outs| == 2 && p <= 2 && BuiltAt(outs, dest, amount, id, a, b) && IsReturn(o, dest)
    ensures BuiltFor(InsertAt(outs, p, o), dest, amount, id)
  {
    hide IsPayment, IsRequestId, IsReturn;
    var next := InsertAt(outs, p, o);
    assert next[p] == o && (forall i :: 0 <= i < p ==> next[i] == outs[i]) && (forall i :: p < i < 3 ==> next[i] == outs[i - 1]);
    assert BuiltAt(next, dest, amount, id, if a < p then a else a + 1, if b < p then b else b + 1);
  }

  /** Without change there are exactly two outputs; adding one change anywhere keeps the shape. */
  lemma FundKeepsBuilt(outs: seq<TxOut>, dest: Payload, amount: nat, id: Hash, funding: Funding)
    requires |outs| == 2 && BuiltFor(outs, dest, amount, id)
    requires ChangeIsOurs(funding, dest)
    ensures BuiltFor(Fund(outs, funding), dest, amount, id)
  {
    if funding.Change? {
      var a: nat, b: nat :| BuiltAt(outs, dest, amount, id, a, b);
      InsertKeepsBuilt(outs, dest, amount, id, a, b, if funding.position <= 2 then funding.position else 2, funding.output);
    }
  }

  /** Dropping the one change output of three leaves the payment and the request id. */
  lemma RemovalKeepsBuilt(outs: seq<TxOut>, dest: Payload, amount: nat, id: Hash, a: nat, b: nat, c: nat)
    requires |outs| == 3 && c < 3 && c != a && c != b
    requires BuiltAt(outs, dest, amount, id, a, b)
    ensures BuiltFor(RemoveAt(outs, c), dest, amount, id)
  {
    hide PayloadFromScript, OpReturnId;
    var kept := RemoveAt(outs, c);
    assert forall i :: 0 <= i < 2 ==> kept[i] == if i < c then outs[i] else outs[i + 1];
    assert BuiltAt(kept, dest, amount, id, if a < c then a else a - 1, if b < c then b else b - 1);
  }

  lemma BumpKeepsBuilt(outs: seq<TxOut>, dest: Payload, amount: nat, id: Hash, funding: Funding)
    requires BuiltFor(outs, dest, amount, id)
    requires ChangeIsOurs(funding, dest)
    ensures BumpFee(outs, dest, funding).Ok?
    ensures BuiltFor(BumpFee(outs, dest, funding).value, dest, amount, id)
  {
    hide PayloadFromScript, OpReturnId;
    ExtractReturnToSelfExact(outs, dest);
    var a: nat, b: nat :| BuiltAt(outs, dest, amount, id, a, b);
    OpReturnPaysNobody(outs[b].scriptPubkey);
    assert !IsReturn(outs[a], dest) && !IsReturn(outs[b], dest);
    if |outs| == 2 {
      FundKeepsBuilt(outs, dest, amount, id, funding);
    } else {
      var c := 3 - a - b;
      assert IsReturn(outs[c], dest);
      RemovalKeepsBuilt(outs, dest, amount, id, a, b, c);
      FundKeepsBuilt(RemoveAt(outs, c), dest, amount, id, funding);
    }
  }

  lemma CreatedIsBuilt(script: Script, amount: nat, id: Hash, dataFirst: bool, dest: Payload)
    requires |id| == 32 && PayloadFromScript(script) == Some(dest)
    ensures BuiltFor(CreateOutputs(script, amount, id, dataFirst), dest, amount, id)
  {
    var outs := CreateOutputs(script, amount, id, dataFirst);
    var a, b := if dataFirst then 1 else 0, if dataFirst then 0 else 1;
    assert outs[b].scriptPubkey[2..] == id;
    assert BuiltAt(outs, dest, amount, id, a, b);
  }

  /** Any number of fee bumps leaves the request id and the amount paid as they were. */
  lemma {:induction false} BumpsKeepPayment(
    outs: seq<TxOut>, dest: Payload, amount: nat, id: Hash, fundings: seq<Funding>)
    requires BuiltFor(outs, dest, amount, id)
    requires forall k :: 0 <= k < |fundings| ==> ChangeIsOurs(fundings[k], dest)
    ensures PaysTo(BumpAll(outs, dest, fundings), dest, amount, id)
    ensures |BumpAll(outs, dest, fundings)| <= 3
    decreases |fundings|
  {
    hide PayloadFromScript;
    if fundings == [] {
      BuiltPays(outs, dest, amount, id);
    } else {
      BumpKeepsBuilt(outs, dest, amount, id, fundings[0]);
      BumpsKeepPayment(BumpFee(outs, dest, fundings[0]).value, dest, amount, id, fundings[1..]);
    }
  }

  /** A payment as the vault sends it, funded once and then bumped any number of times, still pays its request. */
  lemma SentPaymentSurvivesBumps(
    script: Script, amount: nat, id: Hash, dataFirst: bool, dest: Payload, first: Funding, bumps: seq<Funding>)
    requires |id| == 32 && PayloadFromScript(script) == Some(dest)
    requires ChangeIsOurs(first, dest)
    requires forall k :: 0 <= k < |bumps| ==> ChangeIsOurs(bumps[k], dest)
    ensures PaysTo(BumpAll(Fund(CreateOutputs(script, amount, id, dataFirst), first), dest, bumps), dest, amount, id)
  {
    CreatedIsBuilt(script, amount, id, dataFirst, dest);
    FundKeepsBuilt(CreateOutputs(script, amount, id, dataFirst), dest, amount, id, first);
    BumpsKeepPayment(Fund(CreateOutputs(script, amount, id, dataFirst), first), dest, amount, id, bumps);
  }

  /** On any transaction whatever, dropping the return output never changes the amount paid to `dest`. */
  lemma {:induction false} RemovalKeepsAmount(outs: seq<TxOut>, dest: Payload, i: nat)
    requires i < |outs| && PayloadFromScript(outs[i].scriptPubkey) != Some(dest)
    ensures GetPaymentAmountTo(RemoveAt(outs, i), dest) == GetPaymentAmountTo(outs, dest)
    decreases i
  {
    hide PayloadFromScript;
    if i == 0 {
      assert RemoveAt(outs, 0) == outs[1..];
    } else {
      RemovalKeepsAmount(outs[1..], dest, i - 1);
      assert RemoveAt(outs, i) == [outs[0]] + RemoveAt(outs[1..], i - 1);
    }
  }
}
