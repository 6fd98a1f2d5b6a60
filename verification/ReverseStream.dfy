/**
 The stream of blocks from the current tip backwards that restart recovery reads. The tip is chosen
 when the stream is first polled, not when it is created, and a failed poll is retried by the next one.
 */
module ReverseStream {
  import opened Wrappers
  import opened Transactions

  datatype Block = Block(hash: nat, prevHash: nat, txs: seq<Transaction>)

  /** What the node answers to one poll, besides its chain. */
  datatype Fault = NoFault | TipFails | BlockFails | Pruned

  datatype Item = Got(block: Block) | Failed

  /** The two fields the unfold step updates. */
  datatype StreamState = StreamState(height: Option<nat>, prevBlock: Option<Block>)

  datatype Poll = Yield(item: Item, state: StreamState) | End

  const FRESH: StreamState := StreamState(None, None)

  // ---------------------------------------------------------------- the node's chain

  ghost predicate ValidChain(chain: seq<Block>) {
    && chain != []
    && (forall i, j :: 0 <= i < j < |chain| ==> chain[i].hash != chain[j].hash)
    && (forall i :: 0 < i < |chain| ==> chain[i].prevHash == chain[i - 1].hash)
    && (forall i :: 0 <= i < |chain| ==> chain[i].hash != chain[0].prevHash)
  }

  /** `get_block` by hash; unknown hashes are an error that is not the pruned-block error. */
  function FindBlock(chain: seq<Block>, hash: nat): Option<Block> {
    if chain == [] then None
    else if chain[|chain| - 1].hash == hash then Some(chain[|chain| - 1])
    else FindBlock(chain[..|chain| - 1], hash)
  }

  lemma {:induction false} FindBlockAt(chain: seq<Block>, i: nat)
    requires i < |chain|
    requires forall i, j :: 0 <= i < j < |chain| ==> chain[i].hash != chain[j].hash
    ensures FindBlock(chain, chain[i].hash) == Some(chain[i])
  {
    if i < |chain| - 1 {
      FindBlockAt(chain[..|chain| - 1], i);
    }
  }

  lemma {:induction false} FindBlockNone(chain: seq<Block>, hash: nat)
    requires forall i :: 0 <= i < |chain| ==> chain[i].hash != hash
    ensures FindBlock(chain, hash) == None
  {
    if chain != [] {
      FindBlockNone(chain[..|chain| - 1], hash);
    }
  }

  // ---------------------------------------------------------------- one poll

  function FetchBlock(state: StreamState, chain: seq<Block>, height: nat, hash: nat, stop: nat, fault: Fault): Poll {
    if height < stop then End
    else if fault == Pruned then End
    else if fault == BlockFails then Yield(Failed, state)
    else
      match FindBlock(chain, hash)
      case Some(block) => Yield(Got(block), StreamState(Some(height), Some(block)))
      case None => Yield(Failed, state)
  }

  /** One poll, against a chain whose best height was last read as `tip`. */
  function Next(state: StreamState, chain: seq<Block>, tip: nat, stop: nat, fault: Fault): Poll
    requires tip < |chain|
  {
    if state.height.Some? && state.prevBlock.Some? then
      var height := if state.height.value == 0 then 0 else state.height.value - 1;
      FetchBlock(state, chain, height, state.prevBlock.value.prevHash, stop, fault)
    else if fault == TipFails then Yield(Failed, state)
    else FetchBlock(state, chain, tip, chain[tip].hash, stop, fault)
  }

  /** The stream object: the unfold state, and the fuse that keeps an ended stream ended. */
  class ReverseBlockStream {
    const stopHeight: nat
    var height: Option<nat>
    var prevBlock: Option<Block>
    var fused: bool

    constructor (stop: nat)
      ensures stopHeight == stop && State() == FRESH && !fused
    {
      stopHeight, height, prevBlock, fused := stop, None, None, false;
    }

    ghost function State(): StreamState
      reads this
    {
      StreamState(height, prevBlock)
    }

    method Poll(chain: seq<Block>, tip: nat, fault: Fault) returns (item: Option<Item>)
      requires tip < |chain|
      modifies this
      ensures old(fused) ==> item == None && fused && State() == old(State())
      ensures !old(fused) ==>
                match Next(old(State()), chain, tip, stopHeight, fault)
                case End => item == None && fused && State() == old(State())
                case Yield(i, s) => item == Some(i) && !fused && State() == s
    {
      if fused {
        return None;
      }
      var nextHeight, nextHash := tip, chain[tip].hash;
      if height.Some? && prevBlock.Some? {
        nextHeight := if height.value == 0 then 0 else height.value - 1;
        nextHash := prevBlock.value.prevHash;
      } else if fault == TipFails {
        return Some(Failed);
      }
      if nextHeight < stopHeight || fault == Pruned {
        fused := true;
        return None;
      }
      var found := FindBlock(chain, nextHash);
      if fault == BlockFails || found.None? {
        return Some(Failed);
      }
      height, prevBlock := Some(nextHeight), found;
      item := Some(Got(found.value));
    }
  }

  // ---------------------------------------------------------------- whole runs

  /** What the node looked like at one poll. */
  datatype View = View(chain: seq<Block>, tip: nat, fault: Fault)

  /** Chains only grow, and every poll reads a height the chain has reached. */
  ghost predicate GrowingViews(views: seq<View>) {
    && (forall k :: 0 <= k < |views| ==> ValidChain(views[k].chain) && views[k].tip < |views[k].chain|)
    && (forall k, l :: 0 <= k <= l < |views| ==> views[k].chain <= views[l].chain)
  }

  /** The blocks a run delivers, and whether it has ended. */
  function Delivered(state: StreamState, views: seq<View>, stop: nat): (seq<Block>, bool)
    requires forall k :: 0 <= k < |views| ==> views[k].tip < |views[k].chain|
    decreases |views|
  {
    if views == [] then ([], false)
    else
      match Next(state, views[0].chain, views[0].tip, stop, views[0].fault)
      case End => ([], true)
      case Yield(Failed, s) => Delivered(s, views[1..], stop)
      case Yield(Got(b), s) =>
        var (rest, ended) := Delivered(s, views[1..], stop);
        ([b] + rest, ended)
  }

  /** `chain[hi], chain[hi-1], ..., chain[lo]`. */
  function Descending(chain: seq<Block>, hi: int, lo: nat): seq<Block>
    requires hi < |chain|
    decreases if hi < lo then 0 else hi - lo + 1
  {
    if hi < lo then [] else [chain[hi]] + Descending(chain, hi - 1, lo)
  }

  lemma {:induction false} DescendingAt(chain: seq<Block>, hi: int, lo: nat, k: nat)
    requires hi < |chain| && lo + k <= hi
    ensures |Descending(chain, hi, lo)| == hi - lo + 1
    ensures Descending(chain, hi, lo)[k] == chain[hi - k]
    decreases hi - lo
  {
    if lo < hi {
      DescendingAt(chain, hi - 1, lo, if k > 0 then k - 1 else 0);
    }
  }

  /** A state between polls: nothing read yet, or standing on a block of the chain. */
  ghost predicate StandsOn(state: StreamState, chain: seq<Block>) {
    if state.height.Some? then
      state.height.value < |chain| && state.prevBlock == Some(chain[state.height.value])
    else state.prevBlock == None
  }

  /** The height the next successful poll will deliver. */
  function NextHeight(state: StreamState, tip: nat): int {
    if state.height.Some? then state.height.value - 1 else tip
  }

  /** The poll reads the best height first, and that call fails. */
  predicate TipCallFails(state: StreamState, fault: Fault) {
    state.height.None? && fault == TipFails
  }

  /**
   One poll against a valid chain, seen from the outside. It ends exactly at a pruned block or when the next
   height, saturated at zero, is below the stop height; it fails exactly when a call does or there is no block
   below genesis; otherwise it delivers the block at the next height and stands on it.
   */
  lemma PollExact(state: StreamState, chain: seq<Block>, tip: nat, stop: nat, fault: Fault)
    requires ValidChain(chain) && tip < |chain| && StandsOn(state, chain)
    ensures var h, next := NextHeight(state, tip), Next(state, chain, tip, stop, fault);
            && (next == End <==>
                !TipCallFails(state, fault) && (fault == Pruned || (if h < 0 then 0 else h) < stop))
            && (next == Yield(Failed, state) <==>
                || TipCallFails(state, fault)
                || (fault != Pruned && (if h < 0 then 0 else h) >= stop && (fault == BlockFails || h < 0)))
            && (next.Yield? && next.item.Failed? ==> next.state == state)
            && (next.Yield? && next.item.Got? ==>
                  && stop <= h && next.item.block == chain[h]
                  && next.state == StreamState(Some(h), Some(chain[h])) && StandsOn(next.state, chain))
  {
    if state.height.Some? {
      var h := state.height.value;
      if h > 0 {
        FindBlockAt(chain, h - 1);
      } else {
        FindBlockNone(chain, chain[0].prevHash);
      }
    } else {
      FindBlockAt(chain, tip);
    }
  }

  lemma LaterViews(views: seq<View>)
    requires |views| > 1 && GrowingViews(views)
    ensures GrowingViews(views[1..])
    ensures views[1..][|views[1..]| - 1] == views[|views| - 1]
    ensures views[0].chain <= views[1..][0].chain
  {
    hide ValidChain;
  }

  /** From a block on, a run delivers the next ones downwards; if it ended unpruned it delivered them all. */
  lemma {:induction false} DeliversBelow(state: StreamState, views: seq<View>, stop: nat)
    requires views != [] && GrowingViews(views)
    requires state.height.Some? && StandsOn(state, views[0].chain)
    ensures var last := views[|views| - 1].chain;
            var (blocks, ended) := Delivered(state, views, stop);
            && state.height.value < |last|
            && blocks <= Descending(last, state.height.value - 1, stop)
            && (ended && (forall k :: 0 <= k < |views| ==> views[k].fault != Pruned) ==>
                  blocks == Descending(last, state.height.value - 1, stop))
    decreases |views|
  {
    hide ValidChain, Next;
    var v := views[0];
    var last := views[|views| - 1].chain;
    var h := state.height.value;
    assert v.chain <= last;
    PollExact(state, v.chain, v.tip, stop, v.fault);
    var next := Next(state, v.chain, v.tip, stop, v.fault);
    if next.Yield? && |views| > 1 {
      var rest := views[1..];
      LaterViews(views);
      DeliversBelow(next.state, rest, stop);
    }
  }

  /** The position of the first poll that delivers a block. */
  function FirstSuccess(views: seq<View>, stop: nat): Option<nat>
    requires forall k :: 0 <= k < |views| ==> views[k].tip < |views[k].chain|
    decreases |views|
  {
    if views == [] then None
    else
      match Next(FRESH, views[0].chain, views[0].tip, stop, views[0].fault)
      case End => None
      case Yield(Got(_), _) => Some(0)
      case Yield(Failed, _) =>
        match FirstSuccess(views[1..], stop)
        case None => None
        case Some(k) => Some(k + 1)
  }

  /**
   Completeness of the stream for any schedule of errors: what is delivered is an initial piece of the
   blocks from the tip read by the first successful poll down to the stop height, and all of them once
   the stream has ended without meeting a pruned block.
   */
  lemma {:induction false} DeliversFromTip(views: seq<View>, stop: nat)
    requires views != [] && GrowingViews(views)
    ensures var last := views[|views| - 1].chain;
            var (blocks, ended) := Delivered(FRESH, views, stop);
            match FirstSuccess(views, stop)
            case None => blocks == []
            case Some(k) =>
              && k < |views| && views[k].tip < |last| && stop <= views[k].tip
              && blocks <= Descending(last, views[k].tip, stop)
              && (ended && (forall i :: 0 <= i < |views| ==> views[i].fault != Pruned) ==>
                    blocks == Descending(last, views[k].tip, stop))
    decreases |views|
  {
    hide ValidChain, Next;
    var v := views[0];
    var last := views[|views| - 1].chain;
    assert v.chain <= last;
    PollExact(FRESH, v.chain, v.tip, stop, v.fault);
    var next := Next(FRESH, v.chain, v.tip, stop, v.fault);
    if next.Yield? && |views| > 1 {
      var rest := views[1..];
      LaterViews(views);
      if next.item.Failed? {
        DeliversFromTip(rest, stop);
      } else {
        DeliversBelow(next.state, rest, stop);
      }
    }
  }

  /** The delivered blocks are linked by their previous-block hash. */
  lemma DeliveredAreLinked(views: seq<View>, stop: nat, i: nat)
    requires views != [] && GrowingViews(views)
    requires i + 1 < |Delivered(FRESH, views, stop).0|
    ensures Delivered(FRESH, views, stop).0[i].prevHash == Delivered(FRESH, views, stop).0[i + 1].hash
  {
    DeliversFromTip(views, stop);
    var last := views[|views| - 1].chain;
    var tip := views[FirstSuccess(views, stop).value].tip;
    var all := Descending(last, tip, stop);
    DescendingAt(last, tip, stop, 0);
    DescendingAt(last, tip, stop, i);
    DescendingAt(last, tip, stop, i + 1);
  }

  /** Where a run has got to: the state after all its polls, or after the one that ended it. */
  function StateAfter(state: StreamState, views: seq<View>, stop: nat): StreamState
    requires forall k :: 0 <= k < |views| ==> views[k].tip < |views[k].chain|
    decreases |views|
  {
    if views == [] then state
    else
      match Next(state, views[0].chain, views[0].tip, stop, views[0].fault)
      case End => state
      case Yield(_, s) => StateAfter(s, views[1..], stop)
  }

  /** From a block on, exactly the blocks down to where the run has got to have been delivered, ended or not. */
  lemma {:induction false} DeliveredToBelow(state: StreamState, views: seq<View>, stop: nat)
    requires views != [] && GrowingViews(views)
    requires state.height.Some? && StandsOn(state, views[0].chain)
    ensures var last, s := views[|views| - 1].chain, StateAfter(state, views, stop);
            && s.height.Some? && StandsOn(s, last) && s.height.value <= state.height.value < |last|
            && Delivered(state, views, stop).0 == Descending(last, state.height.value - 1, s.height.value)
    decreases |views|
  {
    hide ValidChain, Next;
    var v, last := views[0], views[|views| - 1].chain;
    assert v.chain <= last;
    PollExact(state, v.chain, v.tip, stop, v.fault);
    var next := Next(state, v.chain, v.tip, stop, v.fault);
    if next.Yield? && |views| > 1 {
      LaterViews(views);
      DeliveredToBelow(next.state, views[1..], stop);
    }
  }

  /** The same from the start: nothing before the first success, and from its tip down to the state afterwards. */
  lemma {:induction false} DeliveredTo(views: seq<View>, stop: nat)
    requires views != [] && GrowingViews(views)
    ensures var last, s := views[|views| - 1].chain, StateAfter(FRESH, views, stop);
            && StandsOn(s, last)
            && match FirstSuccess(views, stop)
               case None => s == FRESH && Delivered(FRESH, views, stop).0 == []
               case Some(k) => && k < |views| && s.height.Some? && s.height.value <= views[k].tip < |last|
                               && Delivered(FRESH, views, stop).0 == Descending(last, views[k].tip, s.height.value)
    decreases |views|
  {
    hide ValidChain, Next;
    var v, last := views[0], views[|views| - 1].chain;
    assert v.chain <= last;
    PollExact(FRESH, v.chain, v.tip, stop, v.fault);
    var next := Next(FRESH, v.chain, v.tip, stop, v.fault);
    if next.Yield? && |views| > 1 {
      LaterViews(views);
      if next.item.Failed? {
        DeliveredTo(views[1..], stop);
      } else {
        DeliveredToBelow(next.state, views[1..], stop);
      }
    }
  }

  /** A run continued by one more poll. */
  lemma {:induction false} OneMorePoll(state: StreamState, views: seq<View>, v: View, stop: nat)
    requires forall k :: 0 <= k < |views| ==> views[k].tip < |views[k].chain|
    requires v.tip < |v.chain| && !Delivered(state, views, stop).1
    ensures var s := StateAfter(state, views, stop);
            var (blocks, ended) := Delivered(state, views + [v], stop);
            match Next(s, v.chain, v.tip, stop, v.fault)
            case End => blocks == Delivered(state, views, stop).0 && ended && StateAfter(state, views + [v], stop) == s
            case Yield(Failed, s') => blocks == Delivered(state, views, stop).0 && !ended
            case Yield(Got(b), s') => blocks == Delivered(state, views, stop).0 + [b] && !ended
    decreases |views|
  {
    hide Next;
    if views == [] {
      assert (views + [v])[1..] == [];
    } else {
      assert (views + [v])[1..] == views[1..] + [v];
      var next := Next(state, views[0].chain, views[0].tip, stop, views[0].fault);
      if next.Yield? {
        OneMorePoll(next.state, views[1..], v, stop);
      }
    }
  }

  /**
   A pruned block truncates the run: a poll that meets one ends the stream at once, and what has been
   delivered then are exactly the blocks above it, from the tip of the first success down.
   */
  lemma EndsAtPruned(views: seq<View>, v: View, stop: nat)
    requires views != [] && GrowingViews(views) && GrowingViews(views + [v])
    requires v.fault == Pruned && !Delivered(FRESH, views, stop).1
    ensures var (blocks, ended) := Delivered(FRESH, views + [v], stop);
            var pruned := NextHeight(StateAfter(FRESH, views, stop), v.tip);
            && ended
            && match FirstSuccess(views, stop)
               case None => blocks == []
               case Some(k) => && k < |views| && views[k].tip < |v.chain|
                               && blocks == Descending(v.chain, views[k].tip, pruned + 1)
  {
    hide ValidChain, Next;
    var all := views + [v];
    assert all[|views|] == v && forall k :: 0 <= k < |views| ==> all[k] == views[k];
    DeliveredTo(views, stop);
    var s, last := StateAfter(FRESH, views, stop), views[|views| - 1].chain;
    assert last <= v.chain;
    PollExact(s, v.chain, v.tip, stop, v.fault);
    OneMorePoll(FRESH, views, v, stop);
    if FirstSuccess(views, stop).Some? {
      DescendingSame(last, v.chain, views[FirstSuccess(views, stop).value].tip, s.height.value);
    }
  }

  lemma {:induction false} DescendingSame(chain: seq<Block>, longer: seq<Block>, hi: int, lo: nat)
    requires hi < |chain| && chain <= longer
    ensures Descending(chain, hi, lo) == Descending(longer, hi, lo)
    decreases hi - lo
  {
    if hi >= lo {
      DescendingSame(chain, longer, hi - 1, lo);
    }
  }

  /** How many polls of a run meet no fault. */
  function FaultFreePolls(views: seq<View>): nat {
    if views == [] then 0
    else (if views[0].fault == NoFault then 1 else 0) + FaultFreePolls(views[1..])
  }

  /** No poll can deliver a block above `bound`. */
  ghost predicate NextAtMost(state: StreamState, views: seq<View>, bound: int) {
    forall k :: 0 <= k < |views| ==> NextHeight(state, views[k].tip) <= bound
  }

  /**
   From any point of a run: with a positive stop height the stream ends for every schedule of faults, as
   soon as more polls were spared than there are heights left, whatever happens to the others.
   */
  lemma {:induction false} EndsBelow(state: StreamState, views: seq<View>, stop: nat, bound: int)
    requires stop >= 1 && views != [] && GrowingViews(views)
    requires StandsOn(state, views[0].chain) && NextAtMost(state, views, bound)
    requires FaultFreePolls(views) > 0 && FaultFreePolls(views) > bound - stop + 1
    ensures Delivered(state, views, stop).1
    decreases |views|
  {
    hide ValidChain, Next;
    var v := views[0];
    PollExact(state, v.chain, v.tip, stop, v.fault);
    var next := Next(state, v.chain, v.tip, stop, v.fault);
    if next.Yield? {
      var rest := views[1..];
      assert NextHeight(state, v.tip) <= bound;
      LaterViews(views);
      if next.item.Failed? {
        assert forall k :: 0 <= k < |rest| ==> rest[k] == views[k + 1];
        EndsBelow(next.state, rest, stop, bound);
      } else {
        EndsBelow(next.state, rest, stop, bound - 1);
      }
    }
  }

  /**
   The stream ends for any schedule of errors when the stop height is positive: once one poll more is
   spared than there are heights from the highest tip read down to the stop height. Unless a pruned block
   was met it has then delivered every block from the tip read by the first successful poll; it has
   delivered none only when a tip below the stop height was read.
   */
  lemma EndsWhenStopPositive(views: seq<View>, stop: nat, bound: nat)
    requires stop >= 1 && views != [] && GrowingViews(views)
    requires forall k :: 0 <= k < |views| ==> views[k].tip <= bound
    requires FaultFreePolls(views) > 0 && FaultFreePolls(views) > bound - stop + 1
    ensures Delivered(FRESH, views, stop).1
    ensures (forall k :: 0 <= k < |views| ==> views[k].fault != Pruned) ==>
              match FirstSuccess(views, stop)
              case Some(k) => && k < |views| && views[k].tip < |views[|views| - 1].chain|
                              && Delivered(FRESH, views, stop).0 ==
                                   Descending(views[|views| - 1].chain, views[k].tip, stop)
              case None => exists k :: 0 <= k < |views| && views[k].tip < stop
  {
    EndsBelow(FRESH, views, stop, bound);
    DeliversFromTip(views, stop);
    if FirstSuccess(views, stop).None? {
      EndsUnreadBelowStop(views, stop);
    }
  }

  /** A run that ends without a block read a tip below the stop height, or met a pruned block. */
  lemma {:induction false} EndsUnreadBelowStop(views: seq<View>, stop: nat)
    requires views != [] && GrowingViews(views)
    requires Delivered(FRESH, views, stop).1 && FirstSuccess(views, stop).None?
    ensures exists k :: 0 <= k < |views| && (views[k].tip < stop || views[k].fault == Pruned)
    decreases |views|
  {
    hide ValidChain;
    var v := views[0];
    PollExact(FRESH, v.chain, v.tip, stop, v.fault);
    if Next(FRESH, v.chain, v.tip, stop, v.fault).Yield? && |views| > 1 {
      LaterViews(views);
      EndsUnreadBelowStop(views[1..], stop);
      var k :| 0 <= k < |views[1..]| && (views[1..][k].tip < stop || views[1..][k].fault == Pruned);
      assert views[k + 1] == views[1..][k];
    }
  }

  /** With stop height zero no run ends, however long, unless a pruned block is met. */
  lemma {:induction false} NeverEndsAtStopZero(state: StreamState, views: seq<View>)
    requires views != [] && GrowingViews(views)
    requires forall k :: 0 <= k < |views| ==> views[k].fault != Pruned
    requires StandsOn(state, views[0].chain)
    ensures !Delivered(state, views, 0).1
    decreases |views|
  {
    var v := views[0];
    if state.height.Some? && state.height.value == 0 {
      FindBlockNone(v.chain, v.chain[0].prevHash);
    }
    PollExact(state, v.chain, v.tip, 0, v.fault);
    var next := Next(state, v.chain, v.tip, 0, v.fault);
    assert next.Yield?;
    if |views| > 1 {
      assert v.chain <= views[1..][0].chain;
      NeverEndsAtStopZero(next.state, views[1..]);
    }
  }
}
