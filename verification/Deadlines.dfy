/**
 The two clocks of a request: the deadline after which the paying vault no longer pays, and the
 deadline after which the receiving vault cancels.
 */
module Deadlines {
  import opened Wrappers
  import opened Integers

  const MILLISECS_PER_BLOCK: nat := 12000
  const BITCOIN_BLOCK_MILLIS: nat := 600000

  datatype Error = ArithmeticOverflow | ArithmeticUnderflow | ConversionFailed

  datatype Deadline = Deadline(parachain: U32, bitcoin: U32)

  function CheckedAdd(a: U32, b: U32): Result<U32, Error> {
    if a + b <= U32_MAX then Ok(a + b) else Err(ArithmeticOverflow)
  }

  function CheckedSub(a: U32, b: U32): Result<U32, Error> {
    if a >= b then Ok(a - b) else Err(ArithmeticUnderflow)
  }

  function BitcoinBlocksRoundedUp(parachainBlocks: U32): Result<U32, Error> {
    var millis := parachainBlocks * MILLISECS_PER_BLOCK;
    if millis > U64_MAX then Result<U32, Error>.Err(ArithmeticOverflow)
    else
      var blocks := (millis + BITCOIN_BLOCK_MILLIS - 1) / BITCOIN_BLOCK_MILLIS;
      if blocks <= U32_MAX then Ok(blocks) else Result<U32, Error>.Err(ConversionFailed)
  }

  /** Fifty parachain blocks to a Bitcoin block, rounded up; no input fails. */
  lemma RoundedUpExact(p: U32)
    ensures BitcoinBlocksRoundedUp(p).Ok?
    ensures 50 * BitcoinBlocksRoundedUp(p).value - 50 < p <= 50 * BitcoinBlocksRoundedUp(p).value
  {
  }

  function DurationToParachainBlocks(millis: nat): Result<U32, Error> {
    var blocks := millis / MILLISECS_PER_BLOCK;
    if blocks <= U32_MAX then Ok(blocks) else Result<U32, Error>.Err(ConversionFailed)
  }

  /** Add the period on one clock, then take the margin off. */
  function OneDeadline(start: U32, period: U32, margin: U32): Result<U32, Error> {
    match CheckedAdd(start, period)
    case Err(e) => Err(e)
    case Ok(sum) => CheckedSub(sum, margin)
  }

  function CalculateDeadline(opentime: U32, btcStart: U32, period: U32, marginMillis: nat): Result<Deadline, Error> {
    match DurationToParachainBlocks(marginMillis)
    case Err(e) => Err(e)
    case Ok(margin) =>
      match OneDeadline(opentime, period, margin)
      case Err(e) => Err(e)
      case Ok(parachain) =>
        match (BitcoinBlocksRoundedUp(period), BitcoinBlocksRoundedUp(margin))
        case (Err(e), _) => Err(e)
        case (_, Err(e)) => Err(e)
        case (Ok(btcPeriod), Ok(btcMargin)) =>
          match OneDeadline(btcStart, btcPeriod, btcMargin)
          case Err(e) => Err(e)
          case Ok(bitcoin) => Ok(Deadline(parachain, bitcoin))
  }

  /** The gate at the start of a payment; a request without a deadline always passes. */
  predicate PaymentRefused(deadline: Option<Deadline>, parachainHeight: nat, nodeHeight: nat) {
    deadline.Some? && parachainHeight >= deadline.value.parachain && nodeHeight >= deadline.value.bitcoin
  }

  /** The cancellation scheduler's deadline, from the longer of the global and the request's own period. */
  function CancelDeadline(opentime: U32, btcStart: U32, globalPeriod: U32, localPeriod: U32): Result<Deadline, Error> {
    var period := if globalPeriod >= localPeriod then globalPeriod else localPeriod;
    match CheckedAdd(opentime, period)
    case Err(e) => Err(e)
    case Ok(parachain) =>
      match BitcoinBlocksRoundedUp(period)
      case Err(e) => Err(e)
      case Ok(btcPeriod) =>
        match CheckedAdd(btcStart, btcPeriod)
        case Err(e) => Err(e)
        case Ok(bitcoin) => Ok(Deadline(parachain, bitcoin))
  }

  predicate Expired(deadline: Deadline, parachainHeight: nat, bitcoinHeight: nat) {
    parachainHeight > deadline.parachain && bitcoinHeight > deadline.bitcoin
  }

  lemma RoundedUpMonotone(p: U32, q: U32)
    requires p <= q
    ensures BitcoinBlocksRoundedUp(p).value <= BitcoinBlocksRoundedUp(q).value
  {
    RoundedUpExact(p);
    RoundedUpExact(q);
  }

  /**
   Pay and cancel windows never overlap: once the new vault may cancel a replace, the old vault's
   gate refuses, then and at all later heights.
   */
  lemma WindowsNeverOverlap(
    opentime: U32, btcStart: U32, period: U32, marginMillis: nat, globalPeriod: U32,
    pay: Deadline, cancel: Deadline,
    parachainHeight: nat, relayHeight: nat, laterParachain: nat, laterNode: nat)
    requires CalculateDeadline(opentime, btcStart, period, marginMillis) == Ok(pay)
    requires CancelDeadline(opentime, btcStart, globalPeriod, period) == Ok(cancel)
    requires Expired(cancel, parachainHeight, relayHeight)
    requires laterParachain >= parachainHeight && laterNode >= relayHeight
    ensures PaymentRefused(Some(pay), laterParachain, laterNode)
  {
    RoundedUpMonotone(period, if globalPeriod >= period then globalPeriod else period);
  }

  /** The gate passes exactly when more than the margin is left on at least one clock. */
  lemma GateLeavesMargin(
    opentime: U32, btcStart: U32, period: U32, marginMillis: nat, pay: Deadline,
    parachainHeight: nat, nodeHeight: nat)
    requires CalculateDeadline(opentime, btcStart, period, marginMillis) == Ok(pay)
    ensures var margin: U32 := marginMillis / MILLISECS_PER_BLOCK;
            !PaymentRefused(Some(pay), parachainHeight, nodeHeight) <==>
            || parachainHeight + margin < opentime + period
            || nodeHeight + BitcoinBlocksRoundedUp(margin).value < btcStart + BitcoinBlocksRoundedUp(period).value
  {
  }

  /** The cancel deadline on each clock is that of the longer period, and it exists exactly when both sums fit. */
  lemma CancelDeadlineExact(
    opentime: U32, btcStart: U32, globalPeriod: U32, localPeriod: U32, parachainHeight: nat, bitcoinHeight: nat)
    ensures var cancel := CancelDeadline(opentime, btcStart, globalPeriod, localPeriod);
            && (cancel.Ok? <==>
                  && opentime + globalPeriod <= U32_MAX && opentime + localPeriod <= U32_MAX
                  && btcStart + (globalPeriod + 49) / 50 <= U32_MAX && btcStart + (localPeriod + 49) / 50 <= U32_MAX)
            && (cancel.Ok? ==>
                  (Expired(cancel.value, parachainHeight, bitcoinHeight) <==>
                   && parachainHeight > opentime + globalPeriod && parachainHeight > opentime + localPeriod
                   && bitcoinHeight > btcStart + (globalPeriod + 49) / 50
                   && bitcoinHeight > btcStart + (localPeriod + 49) / 50))
  {
    var longer := if globalPeriod >= localPeriod then globalPeriod else localPeriod;
    RoundedUpExact(longer);
    assert BitcoinBlocksRoundedUp(longer).value == (longer + 49) / 50;
  }

  /** The pay gate in blocks: it refuses exactly when the period less the margin has passed on both clocks. */
  lemma GateExact(
    opentime: U32, btcStart: U32, period: U32, marginMillis: nat, pay: Deadline,
    parachainHeight: nat, nodeHeight: nat)
    requires CalculateDeadline(opentime, btcStart, period, marginMillis) == Ok(pay)
    ensures PaymentRefused(Some(pay), parachainHeight, nodeHeight) <==>
            && parachainHeight + marginMillis / 12000 >= opentime + period
            && nodeHeight + (marginMillis / 12000 + 49) / 50 >= btcStart + (period + 49) / 50
  {
    var margin: U32 := marginMillis / MILLISECS_PER_BLOCK;
    GateLeavesMargin(opentime, btcStart, period, marginMillis, pay, parachainHeight, nodeHeight);
    RoundedUpExact(period);
    RoundedUpExact(margin);
    assert BitcoinBlocksRoundedUp(period).value == (period + 49) / 50;
    assert BitcoinBlocksRoundedUp(margin).value == (margin + 49) / 50;
  }

  /** Rounding period and margin apart costs at most one Bitcoin block, and never on the late side. */
  lemma ReducedPeriodWithinOneBlock(opentime: U32, btcStart: U32, period: U32, marginMillis: nat, pay: Deadline)
    requires CalculateDeadline(opentime, btcStart, period, marginMillis) == Ok(pay)
    requires marginMillis / MILLISECS_PER_BLOCK <= period
    ensures var reduced := btcStart + BitcoinBlocksRoundedUp(period - marginMillis / MILLISECS_PER_BLOCK).value;
            pay.bitcoin <= reduced <= pay.bitcoin + 1
  {
    var margin: U32 := marginMillis / MILLISECS_PER_BLOCK;
    RoundedUpExact(period);
    RoundedUpExact(margin);
    RoundedUpExact(period - margin);
  }

  /** Exactly when a deadline exists: the sums fit in 32 bits and the margin does not reach below zero. */
  lemma DeadlineExists(opentime: U32, btcStart: U32, period: U32, marginMillis: nat)
    ensures var margin := marginMillis / MILLISECS_PER_BLOCK;
            CalculateDeadline(opentime, btcStart, period, marginMillis).Ok? <==>
            && margin <= U32_MAX
            && margin <= opentime + period <= U32_MAX
            && BitcoinBlocksRoundedUp(margin).value <= btcStart + BitcoinBlocksRoundedUp(period).value <= U32_MAX
  {
    var margin := marginMillis / MILLISECS_PER_BLOCK;
    RoundedUpExact(period);
    if margin <= U32_MAX {
      RoundedUpExact(margin);
    }
  }
}
