/**
 The light wallet's coin selection: take coins until the target is reached, add change, and give back
 what the estimate charged too much. Amounts are unsigned 64-bit integers.
 */
module Wallet {
  import opened Wrappers
  import opened Integers
  import opened Transactions

  const WITNESS_SCALE_FACTOR: nat := 4

  datatype Utxo = Utxo(outpoint: nat, value: nat, publicKeyLen: nat)

  datatype CoinOutput = CoinOutput(value: nat, fee: nat)

  datatype Psbt = Psbt(inputs: seq<Utxo>, outputs: seq<TxOut>)

  datatype FundError = NotEnoughInputs | ElectrsError

  /** An answer of the block explorer. */
  datatype Fetched<T> = Got(value: T) | Failed

  // ---------------------------------------------------------------- sizes and weights

  function VarIntLen(n: nat): nat {
    if n < 0xFD then 1 else if n <= 0xFFFF then 3 else if n <= 0xFFFF_FFFF then 5 else 9
  }

  function TxOutSize(o: TxOut): nat {
    8 + VarIntLen(|o.scriptPubkey|) + |o.scriptPubkey|
  }

  /** An input with an empty script. */
  function TxInSize(): nat {
    32 + 4 + 4 + VarIntLen(0)
  }

  /** The witness of a dummy-signed input: a 71-byte signature and the public key. */
  function WitnessSize(publicKeyLen: nat): nat {
    VarIntLen(2) + (VarIntLen(71) + 71) + (VarIntLen(publicKeyLen) + publicKeyLen)
  }

  function InputWeight(publicKeyLen: nat): nat {
    TxInSize() * (WITNESS_SCALE_FACTOR - 1) + TxInSize() + WitnessSize(publicKeyLen)
  }

  function VirtualSize(weight: nat): nat {
    (weight + WITNESS_SCALE_FACTOR - 1) / WITNESS_SCALE_FACTOR
  }

  function SignedInputSize(publicKeyLen: nat): nat {
    VirtualSize(InputWeight(publicKeyLen))
  }

  function OutputsSize(outs: seq<TxOut>): nat {
    if outs == [] then 0 else OutputsSize(outs[..|outs| - 1]) + TxOutSize(outs[|outs| - 1])
  }

  function InputsWeight(inputs: seq<Utxo>): nat {
    if inputs == [] then 0
    else InputsWeight(inputs[..|inputs| - 1]) + InputWeight(inputs[|inputs| - 1].publicKeyLen)
  }

  /** BIP 141, "Transaction size calculations": base size three times plus total size. */
  function TxWeight(inputs: seq<Utxo>, outs: seq<TxOut>): nat {
    4 * (4 + VarIntLen(|inputs|) + VarIntLen(|outs|) + OutputsSize(outs) + 4)
    + InputsWeight(inputs) + (if inputs == [] then 0 else 2)
  }

  function SignedTxSize(inputs: seq<Utxo>, outs: seq<TxOut>): nat {
    VirtualSize(TxWeight(inputs, outs))
  }

  // ---------------------------------------------------------------- fees

  /** Fee for a size, at a rate in satoshi per 1000 virtual bytes. */
  function GetFee(rate: nat, bytes: nat): nat {
    (SaturatingMulU64(rate, bytes) + 999) / 1000
  }

  /** The least fee that pays the rate for the size, a product beyond 64 bits counting as the largest number. */
  lemma GetFeeExact(rate: nat, bytes: nat)
    ensures rate * bytes <= U64_MAX ==> 1000 * (GetFee(rate, bytes) - 1) < rate * bytes <= 1000 * GetFee(rate, bytes)
    ensures rate * bytes > U64_MAX ==> 1000 * (GetFee(rate, bytes) - 1) < U64_MAX <= 1000 * GetFee(rate, bytes)
  {
  }

  lemma FeeMonotone(rate: nat, a: nat, b: nat)
    requires a <= b
    ensures GetFee(rate, a) <= GetFee(rate, b)
  {
    assert rate * a <= rate * b;
  }

  /** Saturation and rounding up never make two fees cheaper than one. */
  lemma FeeSubadditive(rate: nat, a: nat, b: nat)
    ensures GetFee(rate, a + b) <= GetFee(rate, a) + GetFee(rate, b)
  {
    assert rate * (a + b) == rate * a + rate * b;
    var x, y := SaturatingMulU64(rate, a), SaturatingMulU64(rate, b);
    assert SaturatingMulU64(rate, a + b) <= x + y;
  }

  // ---------------------------------------------------------------- selected coins

  function EffectiveValue(c: CoinOutput): nat {
    SaturatingSub(c.value, c.fee)
  }

  function SumValues(coins: seq<CoinOutput>): nat {
    if coins == [] then 0 else SumValues(coins[..|coins| - 1]) + coins[|coins| - 1].value
  }

  function SumEffective(coins: seq<CoinOutput>): nat {
    if coins == [] then 0 else SumEffective(coins[..|coins| - 1]) + EffectiveValue(coins[|coins| - 1])
  }

  function SumFees(coins: seq<CoinOutput>): nat {
    if coins == [] then 0 else SumFees(coins[..|coins| - 1]) + coins[|coins| - 1].fee
  }

  function SumOutputs(outs: seq<TxOut>): nat {
    if outs == [] then 0 else SumOutputs(outs[..|outs| - 1]) + outs[|outs| - 1].value
  }

  /** The sums count every element once. */
  lemma {:induction false} SumsSplit(a: seq<CoinOutput>, b: seq<CoinOutput>)
    ensures SumValues(a + b) == SumValues(a) + SumValues(b) && SumFees(a + b) == SumFees(a) + SumFees(b)
    ensures SumEffective(a + b) == SumEffective(a) + SumEffective(b)
    ensures forall c :: SumValues([c]) == c.value && SumFees([c]) == c.fee
    ensures forall c :: SumEffective([c]) == if c.fee <= c.value then c.value - c.fee else 0
    decreases |b|
  {
    if b == [] {
      assert a + b == a;
    } else {
      assert (a + b)[..|a + b| - 1] == a + b[..|b| - 1];
      SumsSplit(a, b[..|b| - 1]);
    }
  }

  function CoinOf(u: Utxo, rate: nat): CoinOutput {
    CoinOutput(u.value, GetFee(rate, SignedInputSize(u.publicKeyLen)))
  }

  function CoinsOf(inputs: seq<Utxo>, rate: nat): seq<CoinOutput> {
    if inputs == [] then [] else CoinsOf(inputs[..|inputs| - 1], rate) + [CoinOf(inputs[|inputs| - 1], rate)]
  }

  /** Change left over after the target and its own fee; too little change is none. */
  function ChangeOf(coins: seq<CoinOutput>, target: nat, minViableChange: nat, changeFee: nat): nat {
    var change := SaturatingSub(SaturatingSub(SumEffective(coins), target), changeFee);
    if change < minViableChange then 0 else change
  }

  /** Change is what is left exactly, unless that is less than what is viable; then there is none. */
  lemma ChangeOfExact(coins: seq<CoinOutput>, target: nat, minViableChange: nat, changeFee: nat)
    ensures var change := ChangeOf(coins, target, minViableChange, changeFee);
            && (change > 0 ==> change >= minViableChange && SumEffective(coins) == target + changeFee + change)
            && (change == 0 <==>
                SumEffective(coins) <= target + changeFee || SumEffective(coins) < target + changeFee + minViableChange)
  {
  }

  class SelectCoins {
    const targetValue: nat
    var presetInputs: seq<CoinOutput>

    constructor (target: nat)
      ensures targetValue == target && presetInputs == []
    {
      targetValue, presetInputs := target, [];
    }

    method Add(c: CoinOutput)
      modifies this
      ensures presetInputs == old(presetInputs) + [c]
    {
      presetInputs := presetInputs + [c];
    }

    method GetSelectedValue() returns (sum: nat)
      ensures sum == SumValues(presetInputs)
    {
      sum := 0;
      for i := 0 to |presetInputs|
        invariant sum == SumValues(presetInputs[..i])
      {
        assert presetInputs[..i + 1][..i] == presetInputs[..i];
        sum := sum + presetInputs[i].value;
      }
      assert presetInputs[..|presetInputs|] == presetInputs;
    }

    method GetChange(minViableChange: nat, changeFee: nat) returns (change: nat)
      ensures change == ChangeOf(presetInputs, targetValue, minViableChange, changeFee)
    {
      var sum := 0;
      for i := 0 to |presetInputs|
        invariant sum == SumEffective(presetInputs[..i])
      {
        assert presetInputs[..i + 1][..i] == presetInputs[..i];
        sum := sum + EffectiveValue(presetInputs[i]);
      }
      assert presetInputs[..|presetInputs|] == presetInputs;
      change := SaturatingSub(SaturatingSub(sum, targetValue), changeFee);
      if change < minViableChange {
        change := 0;
      }
    }
  }

  // ---------------------------------------------------------------- what funding has to achieve

  function NoInputsSize(outs: seq<TxOut>): nat {
    10 + VarIntLen(|outs|) + OutputsSize(outs)
  }

  function Target(outs: seq<TxOut>, rate: nat): nat {
    SumOutputs(outs) + GetFee(rate, NoInputsSize(outs))
  }

  function ChangeFee(changeScript: Script, rate: nat): nat {
    GetFee(rate, TxOutSize(TxOut(0, changeScript)))
  }

  /** What is paid to the miner. */
  function FeePaid(p: Psbt, rate: nat): int {
    SumValues(CoinsOf(p.inputs, rate)) - SumOutputs(p.outputs)
  }

  /** Everything the explorer lists, in order; after a failed answer nothing more is read. */
  function Listing(addresses: seq<Fetched<seq<Fetched<Utxo>>>>): seq<Fetched<Utxo>> {
    if addresses == [] then []
    else
      match addresses[0]
      case Failed => [Failed]
      case Got(utxos) => utxos + Listing(addresses[1..])
  }

  /** Addresses in order, the coins of each in order, and one failed answer at the end if there is any. */
  lemma {:induction false} ListingExact(before: seq<Fetched<seq<Fetched<Utxo>>>>, rest: seq<Fetched<seq<Fetched<Utxo>>>>)
    requires forall a :: 0 <= a < |before| ==> before[a].Got?
    ensures Listing(before + rest) == Listing(before) + Listing(rest)
    ensures Listing(before + [Failed] + rest) == Listing(before) + [Failed]
    ensures forall utxos :: Listing([Got(utxos)]) == utxos
    decreases |before|
  {
    if before == [] {
      assert before + rest == rest && before + [Failed] + rest == [Failed] + rest;
    } else {
      var later := before[1..];
      ListingExact(later, rest);
      assert (before + rest)[1..] == later + rest && (before + [Failed] + rest)[1..] == later + [Failed] + rest;
    }
  }

  /** The first `|inputs|` listed items are coins, and they are `inputs`. */
  predicate ListedFirst(items: seq<Fetched<Utxo>>, inputs: seq<Utxo>) {
    |inputs| <= |items| && forall i :: 0 <= i < |inputs| ==> items[i] == Got(inputs[i])
  }

  predicate Reaches(inputs: seq<Utxo>, rate: nat, target: nat) {
    inputs != [] && SumEffective(CoinsOf(inputs, rate)) >= target
  }

  /** Some non-empty run of listed coins from the front is worth the target after its own fees. */
  ghost predicate Fundable(items: seq<Fetched<Utxo>>, rate: nat, target: nat) {
    exists inputs :: ListedFirst(items, inputs) && Reaches(inputs, rate, target)
  }

  /** The coins used are the shortest such run: they reach the target, and without the last one they would not. */
  ghost predicate ShortestFunding(items: seq<Fetched<Utxo>>, inputs: seq<Utxo>, rate: nat, target: nat) {
    && ListedFirst(items, inputs) && Reaches(inputs, rate, target)
    && !Reaches(inputs[..|inputs| - 1], rate, target)
  }

  /** The outputs as they were, then at most one change output to the wallet. */
  predicate KeepsRecipients(outs: seq<TxOut>, final: seq<TxOut>, changeScript: Script) {
    || final == outs
    || (|final| == |outs| + 1 && final[..|outs|] == outs
        && final[|outs|].scriptPubkey == changeScript && final[|outs|].value > 0)
  }

  /** The finished transaction for a set of selected coins. */
  function Complete(inputs: seq<Utxo>, outs: seq<TxOut>, changeScript: Script, rate: nat): Psbt
    requires Reaches(inputs, rate, Target(outs, rate))
  {
    EffectiveBelowValue(CoinsOf(inputs, rate));
    var coins := CoinsOf(inputs, rate);
    var change := ChangeOf(coins, Target(outs, rate), 0, ChangeFee(changeScript, rate));
    var withChange := if change > 0 then outs + [TxOut(change, changeScript)] else outs;
    var feeNeeded := GetFee(rate, SignedTxSize(inputs, withChange));
    var feeRet := SumValues(coins) - SumOutputs(outs) - change;
    if change > 0 && feeNeeded < feeRet then
      Psbt(inputs, outs + [TxOut(change + (feeRet - feeNeeded), changeScript)])
    else
      Psbt(inputs, withChange)
  }

  lemma {:induction false} EffectiveBelowValue(coins: seq<CoinOutput>)
    ensures SumEffective(coins) <= SumValues(coins) <= SumEffective(coins) + SumFees(coins)
  {
    if coins != [] {
      EffectiveBelowValue(coins[..|coins| - 1]);
    }
  }

  /** The fee estimate never exceeds what was selected, so its subtraction cannot underflow. */
  lemma FeeRetNeverUnderflows(inputs: seq<Utxo>, outs: seq<TxOut>, changeScript: Script, rate: nat)
    requires Reaches(inputs, rate, Target(outs, rate))
    ensures var coins := CoinsOf(inputs, rate);
            var change := ChangeOf(coins, Target(outs, rate), 0, ChangeFee(changeScript, rate));
            SumOutputs(outs) + GetFee(rate, NoInputsSize(outs)) + change <= SumValues(coins)
  {
    EffectiveBelowValue(CoinsOf(inputs, rate));
  }

  lemma SumOutputsAppend(outs: seq<TxOut>, o: TxOut)
    ensures SumOutputs(outs + [o]) == SumOutputs(outs) + o.value
    ensures OutputsSize(outs + [o]) == OutputsSize(outs) + TxOutSize(o)
  {
    assert (outs + [o])[..|outs|] == outs;
  }

  /** Only the script of the change output matters for the size. */
  lemma SizeIgnoresChangeValue(inputs: seq<Utxo>, outs: seq<TxOut>, a: TxOut, b: TxOut)
    requires a.scriptPubkey == b.scriptPubkey
    ensures SignedTxSize(inputs, outs + [a]) == SignedTxSize(inputs, outs + [b])
  {
    SumOutputsAppend(outs, a);
    SumOutputsAppend(outs, b);
  }

  /** What each selected coin contributes to fees: its spending fee, or all of it if it is worth less. */
  function FeesCovered(coins: seq<CoinOutput>): nat {
    EffectiveBelowValue(coins);
    SumValues(coins) - SumEffective(coins)
  }

  lemma {:induction false} WorthwhileCoinsCoverFees(coins: seq<CoinOutput>)
    requires forall i :: 0 <= i < |coins| ==> coins[i].fee <= coins[i].value
    ensures FeesCovered(coins) == SumFees(coins)
  {
    if coins != [] {
      WorthwhileCoinsCoverFees(coins[..|coins| - 1]);
    }
  }

  /**
   Conservation and the exact fee. Inputs are recipients, change and fee; with change the fee is what the
   final size needs, capped by what the coins cover; without change it is what is left over, and lies
   between the estimates.
   */
  lemma CompleteConserves(inputs: seq<Utxo>, outs: seq<TxOut>, changeScript: Script, rate: nat)
    requires Reaches(inputs, rate, Target(outs, rate))
    ensures var p := Complete(inputs, outs, changeScript, rate);
            var coins := CoinsOf(inputs, rate);
            var noInputs, changeFee := GetFee(rate, NoInputsSize(outs)), ChangeFee(changeScript, rate);
            var needed := GetFee(rate, SignedTxSize(p.inputs, p.outputs));
            var covered := FeesCovered(coins) + noInputs + changeFee;
            && p.inputs == inputs
            && KeepsRecipients(outs, p.outputs, changeScript)
            && (p.outputs == outs ==>
                  FeesCovered(coins) + noInputs <= FeePaid(p, rate) <= covered)
            && (p.outputs != outs ==>
                  && FeePaid(p, rate) == (if needed <= covered then needed else covered)
                  && SumValues(coins) == SumOutputs(outs) + p.outputs[|outs|].value + FeePaid(p, rate))
  {
    hide CoinsOf, SignedTxSize, GetFee, NoInputsSize, SumValues, SumEffective, SumOutputs;
    var coins := CoinsOf(inputs, rate);
    EffectiveBelowValue(coins);
    var target, changeFee := Target(outs, rate), ChangeFee(changeScript, rate);
    var change := ChangeOf(coins, target, 0, changeFee);
    var p := Complete(inputs, outs, changeScript, rate);
    if change > 0 {
      var plain := TxOut(change, changeScript);
      SumOutputsAppend(outs, plain);
      SumOutputsAppend(outs, p.outputs[|outs|]);
      SizeIgnoresChangeValue(inputs, outs, plain, p.outputs[|outs|]);
      assert SumValues(coins) - SumOutputs(outs) - change
          == FeesCovered(coins) + GetFee(rate, NoInputsSize(outs)) + changeFee;
    }
  }

  /** The input sizes the coins' fees were estimated for, each rounded up by itself. */
  function InputSizes(inputs: seq<Utxo>): nat {
    if inputs == [] then 0
    else InputSizes(inputs[..|inputs| - 1]) + SignedInputSize(inputs[|inputs| - 1].publicKeyLen)
  }

  /** Weight gained by rounding the inputs up one by one. */
  function Slack(inputs: seq<Utxo>): int {
    4 * InputSizes(inputs) - InputsWeight(inputs)
  }

  /** A serialized public key, compressed or not. */
  predicate IsKeyLen(n: nat) {
    n == 33 || n == 65
  }

  /** Rounding loses nothing, and gains one unit of weight for each input signed with a real key. */
  lemma {:induction false} SlackExact(inputs: seq<Utxo>)
    ensures Slack(inputs) >= 0
    ensures (forall i :: 0 <= i < |inputs| ==> IsKeyLen(inputs[i].publicKeyLen)) ==> Slack(inputs) == |inputs|
  {
    if inputs != [] {
      SlackExact(inputs[..|inputs| - 1]);
      assert inputs[|inputs| - 1] in inputs;
    }
  }

  lemma {:induction false} InputFeesCoverSizes(inputs: seq<Utxo>, rate: nat)
    ensures GetFee(rate, InputSizes(inputs)) <= SumFees(CoinsOf(inputs, rate))
  {
    if inputs != [] {
      var init := inputs[..|inputs| - 1];
      var last := SignedInputSize(inputs[|inputs| - 1].publicKeyLen);
      InputFeesCoverSizes(init, rate);
      FeeSubadditive(rate, InputSizes(init), last);
      var coins := CoinsOf(inputs, rate);
      assert coins[..|coins| - 1] == CoinsOf(init, rate);
      assert coins[|coins| - 1].fee == GetFee(rate, last);
    }
  }

  function ChangeSize(outs: seq<TxOut>, final: seq<TxOut>, changeScript: Script): nat {
    if final == outs then 0 else TxOutSize(TxOut(0, changeScript))
  }

  /** What the estimates have to spare pays for the counts: six units of weight, and the inputs' slack. */
  predicate CountsFit(inputs: seq<Utxo>, before: nat, after: nat) {
    4 * VarIntLen(|inputs|) + 4 * (VarIntLen(after) - VarIntLen(before)) <= 6 + Slack(inputs)
  }

  /** The sizes the three estimates were made for cover the dummy-signed size exactly when the counts fit. */
  lemma SizeWithinEstimates(inputs: seq<Utxo>, outs: seq<TxOut>, final: seq<TxOut>, changeScript: Script)
    requires inputs != [] && KeepsRecipients(outs, final, changeScript)
    ensures SignedTxSize(inputs, final) <= InputSizes(inputs) + NoInputsSize(outs) + ChangeSize(outs, final, changeScript)
            <==> CountsFit(inputs, |outs|, |final|)
  {
    hide InputsWeight, InputSizes, VarIntLen;
    if final != outs {
      assert final == outs + [final[|outs|]];
      SumOutputsAppend(outs, final[|outs|]);
    }
  }

  /**
   With real keys the counts fit for any number of inputs, unless the change output lengthens the output
   count and there are too few inputs: fewer than six at the first such step.
   */
  lemma CountsFitExact(inputs: seq<Utxo>, before: nat, after: nat)
    requires inputs != [] && before <= after <= before + 1
    requires forall i :: 0 <= i < |inputs| ==> IsKeyLen(inputs[i].publicKeyLen)
    ensures CountsFit(inputs, before, after) <==> |inputs| + 2 >= 4 * (VarIntLen(after) - VarIntLen(before))
  {
    SlackExact(inputs);
  }

  lemma FeeOfParts(rate: nat, total: nat, a: nat, b: nat, c: nat)
    requires total <= a + b + c
    ensures GetFee(rate, total) <= GetFee(rate, a) + GetFee(rate, b) + GetFee(rate, c)
  {
    FeeMonotone(rate, total, a + b + c);
    FeeSubadditive(rate, a, b);
    FeeSubadditive(rate, a + b, c);
  }

  /** The three estimates together pay for the dummy-signed transaction. */
  lemma EstimatesSuffice(inputs: seq<Utxo>, outs: seq<TxOut>, final: seq<TxOut>, changeScript: Script, rate: nat)
    requires inputs != [] && KeepsRecipients(outs, final, changeScript) && CountsFit(inputs, |outs|, |final|)
    ensures GetFee(rate, SignedTxSize(inputs, final)) <=
            SumFees(CoinsOf(inputs, rate)) + GetFee(rate, NoInputsSize(outs))
            + GetFee(rate, ChangeSize(outs, final, changeScript))
  {
    hide SignedTxSize, InputSizes, NoInputsSize, ChangeSize, CountsFit, GetFee;
    InputFeesCoverSizes(inputs, rate);
    SizeWithinEstimates(inputs, outs, final, changeScript);
    FeeOfParts(rate, SignedTxSize(inputs, final), InputSizes(inputs), NoInputsSize(outs),
               ChangeSize(outs, final, changeScript));
  }

  lemma {:induction false} CoinsOfAt(inputs: seq<Utxo>, rate: nat, i: nat)
    requires i < |inputs|
    ensures |CoinsOf(inputs, rate)| == |inputs| && CoinsOf(inputs, rate)[i] == CoinOf(inputs[i], rate)
  {
    if |inputs| > 1 {
      CoinsOfAt(inputs[..|inputs| - 1], rate, if i < |inputs| - 1 then i else 0);
    }
  }

  lemma CoinsCoverFees(inputs: seq<Utxo>, rate: nat)
    requires forall i :: 0 <= i < |inputs| ==> GetFee(rate, SignedInputSize(inputs[i].publicKeyLen)) <= inputs[i].value
    ensures FeesCovered(CoinsOf(inputs, rate)) == SumFees(CoinsOf(inputs, rate))
  {
    var coins := CoinsOf(inputs, rate);
    if inputs != [] {
      CoinsOfAt(inputs, rate, 0);
    }
    forall i | 0 <= i < |coins|
      ensures coins[i].fee <= coins[i].value
    {
      CoinsOfAt(inputs, rate, i);
    }
    WorthwhileCoinsCoverFees(coins);
  }

  /**
   Fee adequacy: when no coin is worth less than its own spending fee and the counts fit, the fee paid is at
   least the fee of the dummy-signed size; it is exactly that when there is change, and otherwise at most the
   three estimates.
   */
  lemma FeeAdequate(inputs: seq<Utxo>, outs: seq<TxOut>, changeScript: Script, rate: nat)
    requires Reaches(inputs, rate, Target(outs, rate))
    requires forall i :: 0 <= i < |inputs| ==> GetFee(rate, SignedInputSize(inputs[i].publicKeyLen)) <= inputs[i].value
    requires CountsFit(inputs, |outs|, |outs| + 1)
    ensures var p := Complete(inputs, outs, changeScript, rate);
            var needed := GetFee(rate, SignedTxSize(p.inputs, p.outputs));
            && needed <= FeePaid(p, rate)
            && (p.outputs != outs ==> FeePaid(p, rate) == needed)
            && (p.outputs == outs ==>
                  FeePaid(p, rate) <= SumFees(CoinsOf(inputs, rate)) + GetFee(rate, NoInputsSize(outs))
                                      + ChangeFee(changeScript, rate))
  {
    hide Complete, SignedTxSize, NoInputsSize, GetFee, CoinsOf, SumFees, FeesCovered, Slack, SumOutputs, SumValues;
    CoinsCoverFees(inputs, rate);
    CompleteConserves(inputs, outs, changeScript, rate);
    assert GetFee(rate, 0) == 0 by { FeeOfNothing(rate); }
    EstimatesSuffice(inputs, outs, Complete(inputs, outs, changeScript, rate).outputs, changeScript, rate);
  }

  lemma FeeOfNothing(rate: nat)
    ensures GetFee(rate, 0) == 0
  {
  }

  /** At a whole number of satoshi per byte, and without saturation, fees are not rounded. */
  lemma WholeFee(perByte: nat, bytes: nat)
    requires 1000 * perByte * bytes <= U64_MAX
    ensures GetFee(1000 * perByte, bytes) == perByte * bytes
  {
  }

  lemma {:induction false} WholeInputFees(inputs: seq<Utxo>, perByte: nat)
    requires 1000 * perByte * InputSizes(inputs) <= U64_MAX
    ensures SumFees(CoinsOf(inputs, 1000 * perByte)) == perByte * InputSizes(inputs)
  {
    hide GetFee, SignedInputSize;
    if inputs != [] {
      var init, last := inputs[..|inputs| - 1], SignedInputSize(inputs[|inputs| - 1].publicKeyLen);
      assert 1000 * perByte * InputSizes(inputs) == 1000 * perByte * InputSizes(init) + 1000 * perByte * last;
      assert 1000 * perByte * InputSizes(init) >= 0 && 1000 * perByte * last >= 0;
      WholeInputFees(init, perByte);
      WholeFee(perByte, last);
      var coins := CoinsOf(inputs, 1000 * perByte);
      assert coins[..|coins| - 1] == CoinsOf(init, 1000 * perByte);
    }
  }

  /**
   The condition on the counts is exact: with change, at a whole number of satoshi per byte, the fee is
   adequate if and only if the counts fit.
   */
  lemma FeeAdequateExactly(inputs: seq<Utxo>, outs: seq<TxOut>, changeScript: Script, perByte: nat)
    requires perByte >= 1 && Reaches(inputs, 1000 * perByte, Target(outs, 1000 * perByte))
    requires forall i :: 0 <= i < |inputs| ==>
                           GetFee(1000 * perByte, SignedInputSize(inputs[i].publicKeyLen)) <= inputs[i].value
    requires Complete(inputs, outs, changeScript, 1000 * perByte).outputs != outs
    requires var p := Complete(inputs, outs, changeScript, 1000 * perByte);
             1000 * perByte * (InputSizes(inputs) + NoInputsSize(outs) + TxOutSize(TxOut(0, changeScript))
                               + SignedTxSize(p.inputs, p.outputs)) <= U64_MAX
    ensures var p := Complete(inputs, outs, changeScript, 1000 * perByte);
            GetFee(1000 * perByte, SignedTxSize(p.inputs, p.outputs)) <= FeePaid(p, 1000 * perByte)
            <==> CountsFit(inputs, |outs|, |outs| + 1)
  {
    hide Complete, SignedTxSize, NoInputsSize, GetFee, CoinsOf, SumFees, FeesCovered, SumOutputs, SumValues,
      InputSizes, CountsFit, TxOutSize, SignedInputSize;
    var rate := 1000 * perByte;
    var p := Complete(inputs, outs, changeScript, rate);
    CoinsCoverFees(inputs, rate);
    CompleteConserves(inputs, outs, changeScript, rate);
    SizeWithinEstimates(inputs, outs, p.outputs, changeScript);
    WholeParts(perByte, InputSizes(inputs), NoInputsSize(outs), TxOutSize(TxOut(0, changeScript)),
               SignedTxSize(p.inputs, p.outputs));
    WholeInputFees(inputs, perByte);
  }

  lemma ScaledOrder(k: nat, a: nat, b: nat)
    requires k >= 1
    ensures k * a <= k * b <==> a <= b
  {
    if a > b {
      assert k * a == k * b + k * (a - b);
      assert k * (a - b) >= a - b;
    } else {
      assert k * b == k * a + k * (b - a);
    }
  }

  lemma WholeFeeWithin(perByte: nat, bytes: nat, most: nat)
    requires perByte >= 1 && bytes <= most && 1000 * perByte * most <= U64_MAX
    ensures 1000 * perByte * bytes <= U64_MAX && GetFee(1000 * perByte, bytes) == perByte * bytes
  {
    ScaledOrder(1000 * perByte, bytes, most);
    WholeFee(perByte, bytes);
  }

  lemma WholeParts(perByte: nat, a: nat, b: nat, c: nat, total: nat)
    requires perByte >= 1 && 1000 * perByte * (a + b + c + total) <= U64_MAX
    ensures 1000 * perByte * a <= U64_MAX
    ensures GetFee(1000 * perByte, b) == perByte * b && GetFee(1000 * perByte, c) == perByte * c
    ensures GetFee(1000 * perByte, total) == perByte * total
    ensures perByte * total <= perByte * a + perByte * b + perByte * c <==> total <= a + b + c
  {
    hide GetFee;
    var most := a + b + c + total;
    WholeFeeWithin(perByte, a, most);
    WholeFeeWithin(perByte, b, most);
    WholeFeeWithin(perByte, c, most);
    WholeFeeWithin(perByte, total, most);
    ScaledOrder(perByte, total, a + b + c);
    assert perByte * (a + b + c) == perByte * a + perByte * b + perByte * c;
  }

  // ---------------------------------------------------------------- 64-bit amounts

  lemma {:induction false} PartialSums(outs: seq<TxOut>, k: nat)
    requires k <= |outs|
    ensures SumOutputs(outs[..k]) <= SumOutputs(outs)
    decreases |outs|
  {
    if k < |outs| {
      PartialSums(outs[..|outs| - 1], k);
      assert outs[..|outs| - 1][..k] == outs[..k];
    } else {
      assert outs[..k] == outs;
    }
  }

  lemma {:induction false} PartialCoinSums(coins: seq<CoinOutput>, k: nat)
    requires k <= |coins|
    ensures SumValues(coins[..k]) <= SumValues(coins) && SumEffective(coins[..k]) <= SumEffective(coins)
    decreases |coins|
  {
    if k < |coins| {
      PartialCoinSums(coins[..|coins| - 1], k);
      assert coins[..|coins| - 1][..k] == coins[..k];
    } else {
      assert coins[..k] == coins;
    }
  }

  /** The amounts computed before any coin is read: the running sum of the recipients, and the target. */
  ghost predicate TargetAmountsFit(outs: seq<TxOut>, rate: nat) {
    && (forall k :: 0 <= k <= |outs| ==> SumOutputs(outs[..k]) <= U64_MAX)
    && GetFee(rate, NoInputsSize(outs)) <= U64_MAX && Target(outs, rate) <= U64_MAX
  }

  /** None of these wraps exactly when the target fits in 64 bits, whether or not it is ever reached. */
  lemma TargetFits(outs: seq<TxOut>, rate: nat)
    ensures TargetAmountsFit(outs, rate) <==> Target(outs, rate) <= U64_MAX
  {
    forall k | 0 <= k <= |outs|
      ensures SumOutputs(outs[..k]) <= SumOutputs(outs)
    {
      PartialSums(outs, k);
    }
  }

  /** The amounts computed once the target is reached: the running sums over the coins, the change and the fee. */
  ghost predicate CoinAmountsFit(inputs: seq<Utxo>, outs: seq<TxOut>, changeScript: Script, rate: nat)
    requires Reaches(inputs, rate, Target(outs, rate))
  {
    var coins, p := CoinsOf(inputs, rate), Complete(inputs, outs, changeScript, rate);
    && (forall k :: 0 <= k <= |coins| ==> SumValues(coins[..k]) <= U64_MAX && SumEffective(coins[..k]) <= U64_MAX)
    && ChangeOf(coins, Target(outs, rate), 0, ChangeFee(changeScript, rate)) <= U64_MAX
    && (p.outputs != outs ==> p.outputs[|outs|].value <= U64_MAX)
    && 0 <= FeePaid(p, rate) <= U64_MAX
  }

  lemma CoinSumsFit(coins: seq<CoinOutput>)
    ensures (forall k :: 0 <= k <= |coins| ==> SumValues(coins[..k]) <= U64_MAX && SumEffective(coins[..k]) <= U64_MAX)
            <==> SumValues(coins) <= U64_MAX
  {
    hide SumValues, SumEffective;
    assert coins[..|coins|] == coins;
    EffectiveBelowValue(coins);
    forall k | 0 <= k <= |coins|
      ensures SumValues(coins[..k]) <= SumValues(coins) && SumEffective(coins[..k]) <= SumEffective(coins)
    {
      PartialCoinSums(coins, k);
    }
  }

  /** None of these wraps exactly when the selected values together fit in 64 bits; the target fits then, too. */
  lemma AmountsFit(inputs: seq<Utxo>, outs: seq<TxOut>, changeScript: Script, rate: nat)
    requires Reaches(inputs, rate, Target(outs, rate))
    ensures CoinAmountsFit(inputs, outs, changeScript, rate) <==> SumValues(CoinsOf(inputs, rate)) <= U64_MAX
    ensures CoinAmountsFit(inputs, outs, changeScript, rate) ==>
              TargetAmountsFit(outs, rate) && SumOutputs(Complete(inputs, outs, changeScript, rate).outputs) <= U64_MAX
  {
    hide SumValues, SumEffective, SumOutputs, CoinsOf, Complete, GetFee, NoInputsSize, SignedTxSize, TargetAmountsFit,
      FeesCovered;
    var coins, p := CoinsOf(inputs, rate), Complete(inputs, outs, changeScript, rate);
    CoinSumsFit(coins);
    EffectiveBelowValue(coins);
    CompleteConserves(inputs, outs, changeScript, rate);
    FeePaidWithinValues(inputs, outs, changeScript, rate);
    TargetFits(outs, rate);
  }

  /** Recipients, change and fee are each within what was selected. */
  lemma FeePaidWithinValues(inputs: seq<Utxo>, outs: seq<TxOut>, changeScript: Script, rate: nat)
    requires Reaches(inputs, rate, Target(outs, rate))
    ensures var p, sum := Complete(inputs, outs, changeScript, rate), SumValues(CoinsOf(inputs, rate));
            && 0 <= FeePaid(p, rate) <= sum && SumOutputs(p.outputs) <= sum
            && (p.outputs != outs ==> p.outputs[|outs|].value <= sum)
  {
    hide SumValues, SumEffective, CoinsOf, Complete, GetFee, NoInputsSize, SignedTxSize, ChangeOf;
    CompleteConserves(inputs, outs, changeScript, rate);
    var p := Complete(inputs, outs, changeScript, rate);
    if p.outputs != outs {
      assert p.outputs == outs + [p.outputs[|outs|]];
      SumOutputsAppend(outs, p.outputs[|outs|]);
    }
  }

  // ---------------------------------------------------------------- the selection loop

  lemma CoinsOfAppend(inputs: seq<Utxo>, u: Utxo, rate: nat)
    ensures CoinsOf(inputs + [u], rate) == CoinsOf(inputs, rate) + [CoinOf(u, rate)]
    ensures SumEffective(CoinsOf(inputs + [u], rate)) ==
            SumEffective(CoinsOf(inputs, rate)) + EffectiveValue(CoinOf(u, rate))
  {
    assert (inputs + [u])[..|inputs|] == inputs;
    var coins := CoinsOf(inputs, rate);
    assert (coins + [CoinOf(u, rate)])[..|coins|] == coins;
  }

  lemma {:induction false} PrefixWorthLess(inputs: seq<Utxo>, k: nat, rate: nat)
    requires k <= |inputs|
    ensures SumEffective(CoinsOf(inputs[..k], rate)) <= SumEffective(CoinsOf(inputs, rate))
    decreases |inputs|
  {
    if k < |inputs| {
      var init, last := inputs[..|inputs| - 1], inputs[|inputs| - 1];
      PrefixWorthLess(init, k, rate);
      CoinsOfAppend(init, last, rate);
      assert init + [last] == inputs && init[..k] == inputs[..k];
    } else {
      assert inputs[..k] == inputs;
    }
  }

  /** Any other funding run has the shortest one as its front. */
  lemma ShortestIsFront(items: seq<Fetched<Utxo>>, inputs: seq<Utxo>, other: seq<Utxo>, rate: nat, target: nat)
    requires ShortestFunding(items, inputs, rate, target)
    requires ListedFirst(items, other) && Reaches(other, rate, target)
    ensures inputs <= other
  {
    if |other| < |inputs| {
      var init := inputs[..|inputs| - 1];
      assert other == init[..|other|];
      PrefixWorthLess(init, |other|, rate);
    }
  }

  /** The loop invariant: the coins taken do not reach the target, and what is missing is exactly `value`. */
  ghost predicate Missing(items: seq<Fetched<Utxo>>, inputs: seq<Utxo>, rate: nat, target: nat, value: nat) {
    && ListedFirst(items, inputs)
    && value == SaturatingSub(target, SumEffective(CoinsOf(inputs, rate)))
    && (inputs != [] ==> value > 0)
  }

  lemma TakeCoin(items: seq<Fetched<Utxo>>, inputs: seq<Utxo>, u: Utxo, rate: nat, target: nat, value: nat)
    requires Missing(items, inputs, rate, target, value)
    requires |inputs| < |items| && items[|inputs|] == Got(u)
    ensures var rest := SaturatingSub(value, EffectiveValue(CoinOf(u, rate)));
            if rest == 0 then ShortestFunding(items, inputs + [u], rate, target)
            else Missing(items, inputs + [u], rate, target, rest)
  {
    var more := inputs + [u];
    CoinsOfAppend(inputs, u, rate);
    assert more[..|more| - 1] == inputs;
  }

  /** Nothing beyond a failed answer or the end of the listing can fund the transaction. */
  lemma SelectionFails(items: seq<Fetched<Utxo>>, inputs: seq<Utxo>, rate: nat, target: nat, value: nat)
    requires Missing(items, inputs, rate, target, value)
    requires |inputs| == |items| || items[|inputs|].Failed?
    ensures !Fundable(items, rate, target)
  {
    forall other | ListedFirst(items, other)
      ensures !Reaches(other, rate, target)
    {
      assert |other| <= |inputs|;
      assert other == inputs[..|other|];
      PrefixWorthLess(inputs, |other|, rate);
    }
  }

  /** Add the change output, then lower the fee to what the finished size needs. */
  method AddChange(selectCoins: SelectCoins, inputs: seq<Utxo>, outs: seq<TxOut>, changeScript: Script, rate: nat)
    returns (p: Psbt)
    requires selectCoins.presetInputs == CoinsOf(inputs, rate) && selectCoins.targetValue == Target(outs, rate)
    requires Reaches(inputs, rate, Target(outs, rate))
    ensures p == Complete(inputs, outs, changeScript, rate)
  {
    FeeRetNeverUnderflows(inputs, outs, changeScript, rate);
    var final := outs;
    var changeFee := GetFee(rate, TxOutSize(TxOut(0, changeScript)));
    var changeAmount := selectCoins.GetChange(0, changeFee);
    if changeAmount > 0 {
      final := outs + [TxOut(changeAmount, changeScript)];
    }
    var feeNeeded := GetFee(rate, SignedTxSize(inputs, final));
    var selected := selectCoins.GetSelectedValue();
    var feeRet := selected - SumOutputs(outs) - changeAmount;
    if changeAmount > 0 && feeNeeded < feeRet {
      var change := final[|outs|];
      final := final[|outs| := change.(value := change.value + (feeRet - feeNeeded))];
    }
    p := Psbt(inputs, final);
  }

  ghost predicate LeftToRead(items: seq<Fetched<Utxo>>, n: nat, utxos: seq<Fetched<Utxo>>, i: nat, rest: seq<Fetched<Utxo>>)
  {
    n <= |items| && i <= |utxos| && items[n..] == utxos[i..] + rest
  }

  lemma ReadOne(items: seq<Fetched<Utxo>>, n: nat, utxos: seq<Fetched<Utxo>>, i: nat, rest: seq<Fetched<Utxo>>)
    requires LeftToRead(items, n, utxos, i, rest) && i < |utxos|
    ensures n < |items| && items[n] == utxos[i] && LeftToRead(items, n + 1, utxos, i + 1, rest)
  {
    assert items[n..][0] == (utxos[i..] + rest)[0];
    assert items[n + 1..] == items[n..][1..];
  }

  lemma NextAddress(items: seq<Fetched<Utxo>>, n: nat, addresses: seq<Fetched<seq<Fetched<Utxo>>>>, a: nat)
    requires a < |addresses| && n <= |items| && items[n..] == Listing(addresses[a..])
    ensures match addresses[a]
            case Failed => n < |items| && items[n].Failed?
            case Got(utxos) => LeftToRead(items, n, utxos, 0, Listing(addresses[a + 1..]))
  {
    assert addresses[a..][1..] == addresses[a + 1..];
    if addresses[a].Failed? {
      assert items[n] == items[n..][0];
    }
  }

  datatype Progress = More | Reached | Broken

  /** The inner loop: take the coins of one address until the target is reached or an answer fails. */
  method SelectFromAddress(
    selectCoins: SelectCoins, taken: seq<Utxo>, missing: nat, utxos: seq<Fetched<Utxo>>, rate: nat,
    ghost items: seq<Fetched<Utxo>>, ghost rest: seq<Fetched<Utxo>>)
    returns (inputs: seq<Utxo>, valueToSelect: nat, progress: Progress)
    requires Missing(items, taken, rate, selectCoins.targetValue, missing)
    requires LeftToRead(items, |taken|, utxos, 0, rest)
    requires selectCoins.presetInputs == CoinsOf(taken, rate)
    modifies selectCoins
    ensures selectCoins.presetInputs == CoinsOf(inputs, rate)
    ensures progress == Reached ==> ShortestFunding(items, inputs, rate, selectCoins.targetValue)
    ensures progress != Reached ==> Missing(items, inputs, rate, selectCoins.targetValue, valueToSelect)
    ensures progress == More ==> items[|inputs|..] == rest
    ensures progress == Broken ==> |inputs| < |items| && items[|inputs|].Failed?
  {
    inputs, valueToSelect, progress := taken, missing, More;
    for i := 0 to |utxos|
      invariant Missing(items, inputs, rate, selectCoins.targetValue, valueToSelect)
      invariant LeftToRead(items, |inputs|, utxos, i, rest)
      invariant selectCoins.presetInputs == CoinsOf(inputs, rate)
    {
      ReadOne(items, |inputs|, utxos, i, rest);
      if utxos[i].Failed? {
        progress := Broken;
        return;
      }
      var utxo := utxos[i].value;
      var coin := CoinOf(utxo, rate);
      TakeCoin(items, inputs, utxo, rate, selectCoins.targetValue, valueToSelect);
      CoinsOfAppend(inputs, utxo, rate);
      selectCoins.Add(coin);
      valueToSelect := SaturatingSub(valueToSelect, EffectiveValue(coin));
      inputs := inputs + [utxo];
      if valueToSelect == 0 {
        progress := Reached;
        return;
      }
    }
  }

  /**
   Funding succeeds exactly when some non-empty run of the listed coins reaches the target, uses the
   shortest one, and finishes the transaction as `Complete` does.
   */
  method FundTransaction(
    outs: seq<TxOut>, changeScript: Script, rate: nat, addresses: seq<Fetched<seq<Fetched<Utxo>>>>)
    returns (r: Result<Psbt, FundError>)
    ensures r.Ok? <==> Fundable(Listing(addresses), rate, Target(outs, rate))
    ensures r.Ok? ==> && ShortestFunding(Listing(addresses), r.value.inputs, rate, Target(outs, rate))
                      && r.value == Complete(r.value.inputs, outs, changeScript, rate)
    ensures r == Err(NotEnoughInputs) ==> Failed !in Listing(addresses)
    ensures r == Err(ElectrsError) ==> Failed in Listing(addresses)
  {
    var selectionTarget := Target(outs, rate);
    var valueToSelect := selectionTarget;
    var inputs: seq<Utxo> := [];
    var selectCoins := new SelectCoins(selectionTarget);
    ghost var items := Listing(addresses);
    assert addresses[0..] == addresses;
    for a := 0 to |addresses|
      invariant Missing(items, inputs, rate, selectionTarget, valueToSelect)
      invariant items[|inputs|..] == Listing(addresses[a..])
      invariant selectCoins.presetInputs == CoinsOf(inputs, rate) && fresh(selectCoins)
    {
      NextAddress(items, |inputs|, addresses, a);
      if addresses[a].Failed? {
        SelectionFails(items, inputs, rate, selectionTarget, valueToSelect);
        return Err(ElectrsError);
      }
      var progress;
      inputs, valueToSelect, progress := SelectFromAddress(
        selectCoins, inputs, valueToSelect, addresses[a].value, rate, items, Listing(addresses[a + 1..]));
      if progress == Broken {
        SelectionFails(items, inputs, rate, selectionTarget, valueToSelect);
        return Err(ElectrsError);
      }
      if progress == Reached {
        var psbt := AddChange(selectCoins, inputs, outs, changeScript, rate);
        return Ok(psbt);
      }
    }
    SelectionFails(items, inputs, rate, selectionTarget, valueToSelect);
    r := Err(NotEnoughInputs);
  }
}
