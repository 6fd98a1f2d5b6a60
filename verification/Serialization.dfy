/**
 The bytes of a transaction on the wire, before and after its inputs are signed with dummy signatures: the
 reference for the sizes that fees are computed from (BIP 141, "Transaction size calculations"; BIP 144).
 */
module Serialization {
  import opened Wrappers
  import opened Transactions
  import opened Wallet

  type Bytes = seq<Byte>

  // ---------------------------------------------------------------- integers

  function LittleEndian(n: nat, length: nat): (bytes: Bytes)
    ensures |bytes| == length
  {
    if length == 0 then [] else [n % 256] + LittleEndian(n / 256, length - 1)
  }

  function FromLittleEndian(bytes: Bytes): nat {
    if bytes == [] then 0 else bytes[0] + 256 * FromLittleEndian(bytes[1..])
  }

  function Pow256(k: nat): nat {
    if k == 0 then 1 else 256 * Pow256(k - 1)
  }

  lemma {:induction false} LittleEndianRoundTrip(n: nat, length: nat)
    requires n < Pow256(length)
    ensures FromLittleEndian(LittleEndian(n, length)) == n
  {
    if length > 0 {
      LittleEndianRoundTrip(n / 256, length - 1);
      assert LittleEndian(n, length)[1..] == LittleEndian(n / 256, length - 1);
    }
  }

  /** A count: one byte, or a marker byte and two, four or eight bytes. */
  function VarInt(n: nat): Bytes {
    if n < 0xFD then [n]
    else if n <= 0xFFFF then [0xFD] + LittleEndian(n, 2)
    else if n <= 0xFFFF_FFFF then [0xFE] + LittleEndian(n, 4)
    else [0xFF] + LittleEndian(n, 8)
  }

  function ReadVarInt(bytes: Bytes): Option<(nat, Bytes)> {
    if bytes == [] then None
    else
      var wide := if bytes[0] < 0xFD then 0 else if bytes[0] == 0xFD then 2 else if bytes[0] == 0xFE then 4 else 8;
      if |bytes| < 1 + wide then None
      else if wide == 0 then Some((bytes[0], bytes[1..]))
      else Some((FromLittleEndian(bytes[1..1 + wide]), bytes[1 + wide..]))
  }

  /** A reader gets every 64-bit count back, and the bytes behind it. */
  lemma VarIntRoundTrip(n: nat, rest: Bytes)
    requires n <= 0xFFFF_FFFF_FFFF_FFFF
    ensures ReadVarInt(VarInt(n) + rest) == Some((n, rest))
  {
    if n >= 0xFD {
      var wide := if n <= 0xFFFF then 2 else if n <= 0xFFFF_FFFF then 4 else 8;
      var bytes := VarInt(n) + rest;
      Pow256Values();
      LittleEndianRoundTrip(n, wide);
      assert bytes[1..1 + wide] == LittleEndian(n, wide) && bytes[1 + wide..] == rest;
    }
  }

  lemma Pow256Values()
    ensures Pow256(2) == 0x1_0000 && Pow256(4) == 0x1_0000_0000 && Pow256(8) == 0x1_0000_0000_0000_0000
  {
    assert Pow256(1) == 256 && Pow256(3) == 256 * Pow256(2);
    assert Pow256(5) == 256 * Pow256(4) && Pow256(6) == 256 * Pow256(5) && Pow256(7) == 256 * Pow256(6);
  }

  // ---------------------------------------------------------------- the parts of a transaction

  const SEQUENCE_MAX: nat := 0xFFFF_FFFF
  const VERSION: nat := 2

  function TxOutBytes(o: TxOut): Bytes {
    LittleEndian(o.value, 8) + VarInt(|o.scriptPubkey|) + o.scriptPubkey
  }

  /** An unsigned input: the transaction and output it spends, an empty script, and the sequence number. */
  function TxInBytes(u: Utxo): Bytes {
    LittleEndian(u.outpoint, 32 + 4) + VarInt(0) + LittleEndian(SEQUENCE_MAX, 4)
  }

  /** A signature of the greatest length that is still a valid encoding: two 32-byte numbers, and the hash type. */
  function DummySignature(): Bytes {
    var numberHeader, zeros := [0x02, 32], seq(31, i => 0);
    var number := [0x01] + zeros;
    [0x30, 68] + numberHeader + number + numberHeader + number + [0x01]
  }

  /** The two witness items of an input: signature and public key. */
  function WitnessBytes(u: Utxo): Bytes {
    var key := seq(u.publicKeyLen, i => 0);
    VarInt(2) + VarInt(|DummySignature()|) + DummySignature() + VarInt(|key|) + key
  }

  function AllInputs(inputs: seq<Utxo>): Bytes {
    if inputs == [] then [] else AllInputs(inputs[..|inputs| - 1]) + TxInBytes(inputs[|inputs| - 1])
  }

  function AllOutputs(outs: seq<TxOut>): Bytes {
    if outs == [] then [] else AllOutputs(outs[..|outs| - 1]) + TxOutBytes(outs[|outs| - 1])
  }

  function AllWitnesses(inputs: seq<Utxo>): Bytes {
    if inputs == [] then [] else AllWitnesses(inputs[..|inputs| - 1]) + WitnessBytes(inputs[|inputs| - 1])
  }

  /** Version, inputs, outputs and lock time. */
  function Stripped(inputs: seq<Utxo>, outs: seq<TxOut>): Bytes {
    LittleEndian(VERSION, 4) + VarInt(|inputs|) + AllInputs(inputs) + VarInt(|outs|) + AllOutputs(outs)
    + LittleEndian(0, 4)
  }

  /** The same with the segregated-witness marker and flag, and the witness of every input. */
  function Full(inputs: seq<Utxo>, outs: seq<TxOut>): Bytes {
    LittleEndian(VERSION, 4) + [0, 1] + VarInt(|inputs|) + AllInputs(inputs) + VarInt(|outs|) + AllOutputs(outs)
    + AllWitnesses(inputs) + LittleEndian(0, 4)
  }

  // ---------------------------------------------------------------- sizes are lengths

  lemma DummySignatureLength()
    ensures |DummySignature()| == 71
  {
  }

  /** The weight of one input is three times its length plus its length with witness. */
  lemma InputWeightIsLength(u: Utxo)
    ensures InputWeight(u.publicKeyLen) == 3 * |TxInBytes(u)| + |TxInBytes(u) + WitnessBytes(u)|
  {
    DummySignatureLength();
  }

  lemma {:induction false} OutputsAreLength(outs: seq<TxOut>)
    ensures OutputsSize(outs) == |AllOutputs(outs)|
  {
    if outs != [] {
      OutputsAreLength(outs[..|outs| - 1]);
    }
  }

  lemma {:induction false} InputsAreLength(inputs: seq<Utxo>)
    ensures InputsWeight(inputs) == 4 * |AllInputs(inputs)| + |AllWitnesses(inputs)|
  {
    hide WitnessBytes, TxInBytes, InputWeight;
    if inputs != [] {
      InputsAreLength(inputs[..|inputs| - 1]);
      InputWeightIsLength(inputs[|inputs| - 1]);
    }
  }

  /** BIP 141: the weight is three times the length without witness plus the length with it. */
  lemma TxWeightIsLength(inputs: seq<Utxo>, outs: seq<TxOut>)
    requires inputs != []
    ensures TxWeight(inputs, outs) == 3 * |Stripped(inputs, outs)| + |Full(inputs, outs)|
  {
    hide InputsWeight, OutputsSize, AllInputs, AllOutputs, AllWitnesses;
    InputsAreLength(inputs);
    OutputsAreLength(outs);
  }

  /** Virtual sizes are quarters of weights, rounded up. */
  lemma SignedTxSizeIsLength(inputs: seq<Utxo>, outs: seq<TxOut>)
    requires inputs != []
    ensures var weight := 3 * |Stripped(inputs, outs)| + |Full(inputs, outs)|;
            4 * (SignedTxSize(inputs, outs) - 1) < weight <= 4 * SignedTxSize(inputs, outs)
  {
    hide TxWeight, Stripped, Full;
    TxWeightIsLength(inputs, outs);
  }

  lemma SignedInputSizeIsLength(u: Utxo)
    ensures var weight := 3 * |TxInBytes(u)| + |TxInBytes(u) + WitnessBytes(u)|;
            4 * (SignedInputSize(u.publicKeyLen) - 1) < weight <= 4 * SignedInputSize(u.publicKeyLen)
  {
    hide TxInBytes, WitnessBytes, InputWeight;
    InputWeightIsLength(u);
  }

  /** What is charged besides the inputs: the stripped transaction without inputs, and two bytes for marker and flag. */
  lemma NoInputsSizeIsLength(outs: seq<TxOut>)
    ensures NoInputsSize(outs) == |Stripped([], outs)| - |VarInt(0)| + 2
    ensures forall changeScript, rate :: ChangeFee(changeScript, rate) == GetFee(rate, |TxOutBytes(TxOut(0, changeScript))|)
  {
    hide OutputsSize, AllOutputs, GetFee;
    OutputsAreLength(outs);
  }

  /**
   Fee adequacy in bytes: when no coin is worth less than its own spending fee and the counts fit, what is paid is
   at least the rate, in satoshi per thousand virtual bytes, for the transaction as it will be serialized.
   */
  lemma FeePaysForBytes(inputs: seq<Utxo>, outs: seq<TxOut>, changeScript: Script, rate: nat)
    requires Reaches(inputs, rate, Target(outs, rate))
    requires forall i :: 0 <= i < |inputs| ==> GetFee(rate, SignedInputSize(inputs[i].publicKeyLen)) <= inputs[i].value
    requires CountsFit(inputs, |outs|, |outs| + 1)
    requires rate * SignedTxSize(inputs, Complete(inputs, outs, changeScript, rate).outputs) <= 0xFFFF_FFFF_FFFF_FFFF
    ensures var p := Complete(inputs, outs, changeScript, rate);
            p.inputs == inputs
            && 4000 * FeePaid(p, rate) >= rate * (3 * |Stripped(p.inputs, p.outputs)| + |Full(p.inputs, p.outputs)|)
  {
    hide SignedTxSize, Stripped, Full, GetFee, CountsFit;
    var p := Complete(inputs, outs, changeScript, rate);
    FeeAdequate(inputs, outs, changeScript, rate);
    CompleteConserves(inputs, outs, changeScript, rate);
    SignedTxSizeIsLength(inputs, p.outputs);
    GetFeeExact(rate, SignedTxSize(inputs, p.outputs));
    QuarterRate(rate, 3 * |Stripped(inputs, p.outputs)| + |Full(inputs, p.outputs)|, SignedTxSize(inputs, p.outputs));
  }

  lemma QuarterRate(rate: nat, weight: nat, size: nat)
    requires weight <= 4 * size
    ensures rate * weight <= 4 * (rate * size)
  {
    assert rate * weight <= rate * (4 * size);
  }
}
