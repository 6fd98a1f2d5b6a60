/**
 Restart recovery as a concurrent machine: the scan reads one thing at a time while blocks are mined and
 transactions arrive. No request that is already paid when the scan begins is paid again.
 */
module RestartSafety {
  import opened Wrappers
  import opened Transactions
  import opened ReverseStream
  import opened Recovery

  datatype State = State(
    // the node
    chain: seq<Block>,
    mempool: set<Transaction>,
    // the scan
    stop: nat,
    snapshot: seq<Txid>,       // mempool ids still to fetch
    tipRead: Option<nat>,      // best height read by a poll that has not fetched its block yet
    stream: StreamState,
    buffer: seq<Transaction>,  // transactions of the last block still to look at
    ended: bool,
    // the requests
    open: OpenRequests,
    existing: set<Hash>,       // handed to an execute-existing task
    finished: bool,
    paid: set<Hash>)           // handed to pay-and-execute

  datatype Step =
    // environment
    | Mine(block: Block, mempool': set<Transaction>)
    | Arrive(tx: Transaction)
    // scan
    | FetchMempool(found: Option<Transaction>)
    | MempoolError
    | ReadTip
    | ReadTipFails
    | ReadBlock(fault: Fault)
    | Deliver
    | Finish

  /** The scan begins by listing the ids in the mempool. */
  ghost predicate Initial(s: State) {
    && ValidChain(s.chain)
    && WellKeyed(s.open)
    && (forall tx :: tx in s.mempool ==> tx.txid in s.snapshot)
    && s.tipRead == None && s.stream == FRESH && s.buffer == [] && !s.ended
    && s.existing == {} && !s.finished && s.paid == {}
  }

  ghost predicate InSomeBlock(chain: seq<Block>, tx: Transaction) {
    exists i :: 0 <= i < |chain| && tx in chain[i].txs
  }

  predicate ReadyForChain(s: State) {
    s.snapshot == [] && s.buffer == [] && !s.ended
  }

  ghost predicate Enabled(s: State, step: Step) {
    match step
    // blocks are only appended, and a transaction leaves the mempool only by being mined
    case Mine(block, mempool') =>
      ValidChain(s.chain + [block]) && forall tx :: tx in s.mempool ==> tx in block.txs || tx in mempool'
    case Arrive(tx) => true
    // an id still in the mempool is found; one that left it is filtered out, or found through an index
    case FetchMempool(found) =>
      && s.snapshot != []
      && (forall tx :: tx in s.mempool && tx.txid == s.snapshot[0] ==> found == Some(tx))
      && (found.Some? ==> found.value in s.mempool || InSomeBlock(s.chain, found.value))
    case MempoolError => s.snapshot != []
    case ReadTip => ReadyForChain(s) && s.stream.height.None? && s.chain != []
    case ReadTipFails => ReadyForChain(s) && s.stream.height.None?
    case ReadBlock(fault) =>
      && ReadyForChain(s) && fault != TipFails
      && (s.stream.height.Some? || s.tipRead.Some?)
      && TipOf(s) < |s.chain|
    case Deliver => s.buffer != []
    case Finish => s.ended && s.buffer == [] && !s.finished
  }

  function TipOf(s: State): nat {
    if s.tipRead.Some? then s.tipRead.value else 0
  }

  /** Look at one transaction: a match moves its request from `open` to `existing`. */
  function Look(s: State, tx: Transaction): State {
    var open := Absorb(s.open, tx);
    s.(open := open, existing := s.existing + (s.open.Keys - open.Keys))
  }

  ghost function Apply(s: State, step: Step): State
    requires Enabled(s, step)
  {
    match step
    case Mine(block, mempool') => s.(chain := s.chain + [block], mempool := mempool')
    case Arrive(tx) => s.(mempool := s.mempool + {tx})
    case FetchMempool(found) =>
      var s' := s.(snapshot := s.snapshot[1..]);
      if found.Some? then Look(s', found.value) else s'
    case MempoolError => s.(snapshot := s.snapshot[1..])
    case ReadTip => s.(tipRead := Some(|s.chain| - 1))
    case ReadTipFails => s
    case ReadBlock(fault) =>
      (match Next(s.stream, s.chain, TipOf(s), s.stop, fault)
       case End => s.(tipRead := None, ended := true)
       case Yield(Failed, stream) => s.(tipRead := None, stream := stream)
       case Yield(Got(block), stream) => s.(tipRead := None, stream := stream, buffer := block.txs))
    case Deliver => Look(s.(buffer := s.buffer[1..]), s.buffer[0])
    case Finish => s.(finished := true, paid := s.open.Keys)
  }

  ghost predicate Allowed(s: State, steps: seq<Step>)
    decreases |steps|
  {
    steps == [] || (Enabled(s, steps[0]) && Allowed(Apply(s, steps[0]), steps[1..]))
  }

  ghost function Run(s: State, steps: seq<Step>): State
    requires Allowed(s, steps)
    decreases |steps|
  {
    if steps == [] then s else Run(Apply(s, steps[0]), steps[1..])
  }

  // ---------------------------------------------------------------- the invariant

  ghost predicate Sane(s: State) {
    && ValidChain(s.chain) && StandsOn(s.stream, s.chain)
    && (s.tipRead.Some? ==> s.tipRead.value < |s.chain| && s.stream.height.None?)
    && (s.tipRead.Some? || s.stream.height.Some? || s.ended || s.buffer != [] ==> s.snapshot == [])
    && s.stop <= |s.chain|
    && WellKeyed(s.open)
    && (s.finished ==> s.ended && s.buffer == [])
  }

  /** Heights the chain scan has yet to read are below this one. */
  function Bound(s: State): nat {
    if s.stream.height.Some? then s.stream.height.value
    else if s.tipRead.Some? then s.tipRead.value + 1
    else |s.chain|
  }

  ghost predicate InWindow(s: State, p: Transaction) {
    exists i :: s.stop <= i < Bound(s) && i < |s.chain| && p in s.chain[i].txs
  }

  /** The scan is still going to look at `p`. */
  ghost predicate Ahead(s: State, p: Transaction) {
    || p in s.buffer
    || (p.txid in s.snapshot && p in s.mempool)
    || (!s.ended && InWindow(s, p))
  }

  ghost predicate Safe(s: State, p: Transaction, r: Request) {
    && Sane(s)
    && (r.hash in s.open ==> s.open[r.hash] == r)
    && (r.hash in s.open && !s.finished ==> Ahead(s, p))
    && r.hash !in s.paid
    && (s.finished ==> r.hash !in s.open)
  }

  predicate Faultless(step: Step) {
    step != MempoolError && step != ReadBlock(Pruned)
  }

  /**
   The fault hits the payment: its own mempool item fails while no unread block holds it, or the stream
   ends at a pruned block with the payment's block still unread.
   */
  ghost predicate Hits(s: State, step: Step, p: Transaction) {
    match step
    case MempoolError => s.snapshot != [] && s.snapshot[0] == p.txid && p in s.mempool && !InWindow(s, p)
    case ReadBlock(fault) => fault == Pruned && InWindow(s, p)
    case _ => false
  }

  ghost predicate Spares(s: State, steps: seq<Step>, p: Transaction)
    requires Allowed(s, steps)
    decreases |steps|
  {
    steps == [] || (!Hits(s, steps[0], p) && Spares(Apply(s, steps[0]), steps[1..], p))
  }

  lemma LookRemoves(s: State, tx: Transaction, r: Request)
    requires WellKeyed(s.open) && (r.hash in s.open ==> s.open[r.hash] == r)
    ensures WellKeyed(Look(s, tx).open)
    ensures r.hash in Look(s, tx).open ==> r.hash in s.open && Look(s, tx).open[r.hash] == r && !Satisfies(tx, r)
  {
    MatchExact(tx, s.open, r.hash);
  }

  lemma MineKeepsSafe(s: State, block: Block, mempool': set<Transaction>, p: Transaction, r: Request)
    requires Safe(s, p, r) && Enabled(s, Mine(block, mempool'))
    ensures Safe(Apply(s, Mine(block, mempool')), p, r)
  {
    var s' := Apply(s, Mine(block, mempool'));
    if r.hash in s.open && !s.finished {
      if !s.ended && InWindow(s, p) {
        var i :| s.stop <= i < Bound(s) && i < |s.chain| && p in s.chain[i].txs;
        assert s'.chain[i] == s.chain[i];
        assert InWindow(s', p);
      } else if p.txid in s.snapshot && p in s.mempool && p in block.txs {
        assert p in s'.chain[|s.chain|].txs;
        assert InWindow(s', p);
      }
    }
  }

  lemma ReadBlockKeepsSafe(s: State, fault: Fault, p: Transaction, r: Request)
    requires Safe(s, p, r) && Enabled(s, ReadBlock(fault)) && !Hits(s, ReadBlock(fault), p) && Satisfies(p, r)
    ensures Safe(Apply(s, ReadBlock(fault)), p, r)
  {
    var s' := Apply(s, ReadBlock(fault));
    PollExact(s.stream, s.chain, TipOf(s), s.stop, fault);
    if r.hash in s.open && !s.finished {
      assert InWindow(s, p);
      var i :| s.stop <= i < Bound(s) && i < |s.chain| && p in s.chain[i].txs;
      var h := NextHeight(s.stream, TipOf(s));
      assert i <= h;
      match Next(s.stream, s.chain, TipOf(s), s.stop, fault)
      case End =>
      case Yield(Failed, _) => assert InWindow(s', p);
      case Yield(Got(b), _) =>
        if i < h {
          assert InWindow(s', p);
        }
    }
  }

  lemma StepKeepsSafe(s: State, step: Step, p: Transaction, r: Request)
    requires Safe(s, p, r) && Enabled(s, step) && !Hits(s, step, p) && Satisfies(p, r)
    ensures Safe(Apply(s, step), p, r)
  {
    var s' := Apply(s, step);
    match step
    case Mine(block, mempool') => MineKeepsSafe(s, block, mempool', p, r);
    case Arrive(tx) =>
      if !s.ended && InWindow(s, p) { assert InWindow(s', p); }
    case FetchMempool(found) =>
      if !s.ended && InWindow(s, p) { assert InWindow(s', p); }
      if found.Some? {
        LookRemoves(s.(snapshot := s.snapshot[1..]), found.value, r);
      }
    case MempoolError =>
      if !s.ended && InWindow(s, p) { assert InWindow(s', p); }
    case ReadTip =>
      if InWindow(s, p) { assert InWindow(s', p); }
    case ReadTipFails =>
    case ReadBlock(fault) => ReadBlockKeepsSafe(s, fault, p, r);
    case Deliver =>
      LookRemoves(s.(buffer := s.buffer[1..]), s.buffer[0], r);
      if !s.ended && InWindow(s, p) { assert InWindow(s', p); }
    case Finish =>
  }

  lemma {:induction false} RunKeepsSafe(s: State, steps: seq<Step>, p: Transaction, r: Request)
    requires Safe(s, p, r) && Satisfies(p, r)
    requires Allowed(s, steps) && Spares(s, steps, p)
    ensures Safe(Run(s, steps), p, r)
    decreases |steps|
  {
    if steps != [] {
      StepKeepsSafe(s, steps[0], p, r);
      RunKeepsSafe(Apply(s, steps[0]), steps[1..], p, r);
    }
  }

  // ---------------------------------------------------------------- every request gets one task

  ghost predicate Partitioned(s: State, all: set<Hash>) {
    && s.existing + s.open.Keys == all && s.existing !! s.open.Keys
    && s.paid == (if s.finished then s.open.Keys else {})
    && (s.finished ==> s.ended && s.buffer == [] && s.snapshot == [])
    && (s.ended || s.buffer != [] || s.tipRead.Some? || s.stream.height.Some? ==> s.snapshot == [])
  }

  lemma StepKeepsPartition(s: State, step: Step, all: set<Hash>)
    requires Partitioned(s, all) && Enabled(s, step)
    ensures Partitioned(Apply(s, step), all)
  {
    match step
    case FetchMempool(found) =>
      if found.Some? { LookKeepsPartition(s.(snapshot := s.snapshot[1..]), found.value, all); }
    case Deliver => LookKeepsPartition(s.(buffer := s.buffer[1..]), s.buffer[0], all);
    case _ =>
  }

  lemma LookKeepsPartition(s: State, tx: Transaction, all: set<Hash>)
    requires s.existing + s.open.Keys == all && s.existing !! s.open.Keys
    ensures var s' := Look(s, tx); s'.existing + s'.open.Keys == all && s'.existing !! s'.open.Keys
    ensures s.open.Keys >= Look(s, tx).open.Keys
  {
  }

  /**
   Over every run, with or without faults: a finished recovery has split the open requests into those
   executed from an existing payment and those paid, none in both and none in neither.
   */
  lemma {:induction false} RunPartitions(s: State, steps: seq<Step>, all: set<Hash>)
    requires Partitioned(s, all) && Allowed(s, steps)
    ensures Partitioned(Run(s, steps), all)
    ensures Run(s, steps).finished ==> Run(s, steps).paid == all - Run(s, steps).existing
    decreases |steps|
  {
    if steps != [] {
      StepKeepsPartition(s, steps[0], all);
      RunPartitions(Apply(s, steps[0]), steps[1..], all);
    }
  }

  // ---------------------------------------------------------------- the safety theorem

  /** The scan's environment holds this transaction when it begins: in the mempool or in a block it will read. */
  ghost predicate Seen(s: State, p: Transaction) {
    p in s.mempool || InChainFrom(s, p)
  }

  ghost predicate InChainFrom(s: State, p: Transaction) {
    exists i :: s.stop <= i < |s.chain| && p in s.chain[i].txs
  }

  /**
   No double payment: whatever is mined and whatever arrives while the scan runs, and however often its
   reads fail, a request whose payment was in the mempool or in a block at or above the stop height when
   the scan began is never handed to pay-and-execute, unless a fault hits the payment itself;
   once the recovery has finished it has an execute-existing task.
   */
  lemma NoDoublePayment(s: State, steps: seq<Step>, p: Transaction, h: Hash)
    requires Initial(s) && s.stop <= |s.chain|
    requires Allowed(s, steps) && Spares(s, steps, p)
    requires h in s.open && Satisfies(p, s.open[h]) && Seen(s, p)
    ensures h !in Run(s, steps).paid
    ensures Run(s, steps).finished ==> h in Run(s, steps).existing
  {
    if p !in s.mempool {
      assert InWindow(s, p);
    }
    RunKeepsSafe(s, steps, p, s.open[h]);
    RunPartitions(s, steps, s.open.Keys);
  }

  /** With the stop height that recovery computes, a payment in any block since the request was made is enough. */
  lemma NoDoublePaymentSinceRequest(s: State, steps: seq<Step>, p: Transaction, h: Hash)
    requires Initial(s) && LowestHeight(s.open, Some(s.stop)) && s.stop <= |s.chain|
    requires Allowed(s, steps) && Spares(s, steps, p)
    requires h in s.open && Satisfies(p, s.open[h])
    requires p in s.mempool || exists i :: HeightOf(s.open[h]) <= i < |s.chain| && p in s.chain[i].txs
    ensures h !in Run(s, steps).paid
    ensures Run(s, steps).finished ==> h in Run(s, steps).existing
  {
    hide Satisfies, Allowed, Spares, Run;
    NoDoublePayment(s, steps, p, h);
  }

  /**
   Recovery as a whole: open requests collected from what the parachain lists, the scan stopping at the
   lowest of their heights. A pending request alone under its id, whose address has been paid its amount
   with its id in the mempool or in any block since it was made, is not paid again.
   */
  lemma RecoveryPaysNothingTwice(
    redeems: seq<(Hash, StoredRequest)>, replacements: seq<(Hash, StoredRequest)>, marginMillis: nat,
    h: Hash, entry: StoredRequest, s: State, steps: seq<Step>, p: Transaction, paid: nat)
    requires OnlyEntry(redeems, replacements, h, entry) && Constructible(entry, marginMillis)
    requires Initial(s) && s.open == OpenRequestsOf(redeems, replacements, marginMillis)
    requires LowestHeight(s.open, Some(s.stop)) && s.stop <= |s.chain|
    requires GetOpReturn(p.outputs) == Some(h)
    requires entry.payload.Some? && GetPaymentAmountTo(p.outputs, entry.payload.value) == Some(paid) && paid >= entry.amount
    requires p in s.mempool || exists i :: entry.btcHeight <= i < |s.chain| && p in s.chain[i].txs
    requires Allowed(s, steps) && Spares(s, steps, p)
    ensures h !in Run(s, steps).paid
    ensures Run(s, steps).finished ==> h in Run(s, steps).existing
  {
    hide GetOpReturn, GetPaymentAmountTo, Allowed, Spares, Run;
    OpenAsStored(redeems, replacements, marginMillis, h, entry);
    NoDoublePaymentSinceRequest(s, steps, p, h);
  }

  // ---------------------------------------------------------------- exactly when a request can be paid

  /** Some run whose only faults are among `faults` pays the request. */
  ghost predicate CanBePaid(s: State, h: Hash, faults: set<Step>) {
    exists steps :: && Allowed(s, steps)
                    && (forall k :: 0 <= k < |steps| ==> Faultless(steps[k]) || steps[k] in faults)
                    && h in Run(s, steps).paid
  }

  lemma StepBack(s: State, step: Step, h: Hash, faults: set<Step>)
    requires Enabled(s, step) && (Faultless(step) || step in faults) && CanBePaid(Apply(s, step), h, faults)
    ensures CanBePaid(s, h, faults)
  {
    var rest :| && Allowed(Apply(s, step), rest)
                && (forall k :: 0 <= k < |rest| ==> Faultless(rest[k]) || rest[k] in faults)
                && h in Run(Apply(s, step), rest).paid;
    var steps := [step] + rest;
    assert steps[1..] == rest;
    assert Allowed(s, steps) && h in Run(s, steps).paid;
  }

  lemma EndedUnmatchedIsPaid(s: State, h: Hash, faults: set<Step>)
    requires s.ended && s.buffer == [] && !s.finished && h in s.open
    ensures CanBePaid(s, h, faults)
  {
    var done := Apply(s, Finish);
    assert Allowed(done, []) && Run(done, []).paid == done.paid;
    StepBack(s, Finish, h, faults);
  }

  /** No transaction of these blocks satisfies the request. */
  ghost predicate NoneSatisfies(chain: seq<Block>, lo: nat, hi: nat, r: Request)
    requires hi <= |chain|
  {
    forall i, tx :: lo <= i < hi && tx in chain[i].txs ==> !Satisfies(tx, r)
  }

  /** A scan standing on a block pays the request if nothing buffered or still to be read satisfies it. */
  lemma {:induction false} ScanDownPays(s: State, h: Hash, faults: set<Step>)
    requires ValidChain(s.chain) && WellKeyed(s.open) && h in s.open && s.stop >= 1
    requires s.snapshot == [] && s.tipRead == None && !s.ended && !s.finished
    requires s.stream.height.Some? && StandsOn(s.stream, s.chain)
    requires NoneSatisfies(s.chain, s.stop, s.stream.height.value, s.open[h])
    requires forall tx :: tx in s.buffer ==> !Satisfies(tx, s.open[h])
    ensures CanBePaid(s, h, faults)
    decreases s.stream.height.value, |s.buffer|
  {
    hide Satisfies, ValidChain, CanBePaid;
    if s.buffer != [] {
      var looked := Apply(s, Deliver);
      MatchExact(s.buffer[0], s.open, h);
      assert h in looked.open && looked.open[h] == s.open[h];
      ScanDownPays(looked, h, faults);
      StepBack(s, Deliver, h, faults);
    } else {
      PollExact(s.stream, s.chain, TipOf(s), s.stop, NoFault);
      var read := Apply(s, ReadBlock(NoFault));
      if read.ended {
        EndedUnmatchedIsPaid(read, h, faults);
      } else {
        ScanDownPays(read, h, faults);
      }
      StepBack(s, ReadBlock(NoFault), h, faults);
    }
  }

  /** The chain scan as a whole pays the request if no block at or above the stop height satisfies it. */
  lemma ChainScanPays(s: State, h: Hash, faults: set<Step>)
    requires ValidChain(s.chain) && WellKeyed(s.open) && h in s.open && s.stop >= 1
    requires ReadyForChain(s) && s.stream == FRESH && s.tipRead == None && !s.finished
    requires NoneSatisfies(s.chain, s.stop, |s.chain|, s.open[h])
    ensures CanBePaid(s, h, faults)
  {
    hide Satisfies, CanBePaid;
    var tipped := Apply(s, ReadTip);
    PollExact(s.stream, s.chain, TipOf(tipped), s.stop, NoFault);
    var read := Apply(tipped, ReadBlock(NoFault));
    if read.ended {
      EndedUnmatchedIsPaid(read, h, faults);
    } else {
      ScanDownPays(read, h, faults);
    }
    StepBack(tipped, ReadBlock(NoFault), h, faults);
    StepBack(s, ReadTip, h, faults);
  }

  /** The mempool part of the scan can pass without a look: the items have been mined, or each of them fails. */
  lemma {:induction false} SnapshotPasses(s: State, step: Step, h: Hash, faults: set<Step>)
    requires (step == FetchMempool(None) && s.mempool == {}) || (step == MempoolError && step in faults)
    requires CanBePaid(s.(snapshot := []), h, faults)
    ensures CanBePaid(s, h, faults)
    decreases |s.snapshot|
  {
    hide CanBePaid;
    if s.snapshot == [] {
      assert s.(snapshot := []) == s;
    } else {
      var next := s.(snapshot := s.snapshot[1..]);
      assert next.(snapshot := []) == s.(snapshot := []);
      SnapshotPasses(next, step, h, faults);
      StepBack(s, step, h, faults);
    }
  }

  /** Above every hash of the chain. */
  function HashBound(chain: seq<Block>): (n: nat)
    ensures forall i :: 0 <= i < |chain| ==> chain[i].hash < n && chain[i].prevHash < n
  {
    if chain == [] then 0
    else
      var init, last := HashBound(chain[..|chain| - 1]), chain[|chain| - 1];
      init + last.hash + last.prevHash + 1
  }

  ghost function AnyOrder(txs: set<Transaction>): (r: seq<Transaction>)
    ensures forall tx :: tx in r <==> tx in txs
  {
    if txs == {} then [] else
    var tx :| tx in txs;
    [tx] + AnyOrder(txs - {tx})
  }

  /** A block holding the whole mempool can always be mined next. */
  ghost function MempoolBlock(s: State): (block: Block)
    requires ValidChain(s.chain)
    ensures ValidChain(s.chain + [block]) && forall tx :: tx in block.txs <==> tx in s.mempool
  {
    var block := Block(HashBound(s.chain), s.chain[|s.chain| - 1].hash, AnyOrder(s.mempool));
    var longer := s.chain + [block];
    assert forall i :: 0 <= i < |s.chain| ==> longer[i] == s.chain[i];
    block
  }

  /** While the mempool is listed, mine all of it: every listed item is then gone. */
  lemma MinedMempoolPasses(s: State, h: Hash, faults: set<Step>)
    requires Initial(s)
    requires var block := MempoolBlock(s);
             CanBePaid(s.(chain := s.chain + [block], mempool := {}, snapshot := []), h, faults)
    ensures CanBePaid(s, h, faults)
  {
    hide CanBePaid;
    var block := MempoolBlock(s);
    SnapshotPasses(Apply(s, Mine(block, {})), FetchMempool(None), h, faults);
    StepBack(s, Mine(block, {}), h, faults);
  }

  /** A stream with stop height zero never ends by itself, so nothing is ever paid. */
  lemma {:induction false} NothingPaidAtStopZero(s: State, steps: seq<Step>)
    requires s.stop == 0 && !s.ended && !s.finished && s.paid == {}
    requires Allowed(s, steps) && forall k :: 0 <= k < |steps| ==> steps[k] != ReadBlock(Pruned)
    ensures Run(s, steps).paid == {}
    decreases |steps|
  {
    if steps != [] {
      assert steps[0] != ReadBlock(Pruned);
      NothingPaidAtStopZero(Apply(s, steps[0]), steps[1..]);
    }
  }

  lemma {:induction false} FaultlessSpares(s: State, steps: seq<Step>, p: Transaction)
    requires Allowed(s, steps) && forall k :: 0 <= k < |steps| ==> Faultless(steps[k])
    ensures Spares(s, steps, p)
    decreases |steps|
  {
    if steps != [] {
      assert Faultless(steps[0]);
      FaultlessSpares(Apply(s, steps[0]), steps[1..], p);
    }
  }

  /**
   Exactly when recovery can pay a request without any fault: the stop height is positive, so that the scan
   ends, and either no transaction of the mempool or of the blocks to be read satisfies the request, or the
   stop height lies above the next block, so that a payment can be mined where the scan does not look.
   */
  lemma PaidExactlyWhenUnseen(s: State, h: Hash)
    requires Initial(s) && h in s.open
    ensures CanBePaid(s, h, {}) <==>
            s.stop >= 1 && (s.stop > |s.chain| || forall p :: Satisfies(p, s.open[h]) ==> !Seen(s, p))
  {
    if s.stop >= 1 && (s.stop > |s.chain| || forall p :: Satisfies(p, s.open[h]) ==> !Seen(s, p)) {
      var block := MempoolBlock(s);
      var mined := s.(chain := s.chain + [block], mempool := {}, snapshot := []);
      forall i, tx | s.stop <= i < |mined.chain| && tx in mined.chain[i].txs
        ensures !Satisfies(tx, s.open[h])
      {
        assert Seen(s, tx);
      }
      ChainScanPays(mined, h, {});
      MinedMempoolPasses(s, h, {});
    } else {
      forall steps | Allowed(s, steps) && forall k :: 0 <= k < |steps| ==> Faultless(steps[k])
        ensures h !in Run(s, steps).paid
      {
        if s.stop == 0 {
          NothingPaidAtStopZero(s, steps);
        } else {
          var p :| Satisfies(p, s.open[h]) && Seen(s, p);
          FaultlessSpares(s, steps, p);
          NoDoublePayment(s, steps, p, h);
        }
      }
    }
  }

  /** For a payment in the mempool: it can be repeated without a fault exactly when the stop height lies above the next block. */
  lemma PaidTwiceWhenNodeIsBehind(s: State, p: Transaction, h: Hash)
    requires Initial(s) && p in s.mempool && h in s.open && Satisfies(p, s.open[h])
    ensures CanBePaid(s, h, {}) <==> s.stop > |s.chain|
  {
    PaidExactlyWhenUnseen(s, h);
    assert Seen(s, p);
  }

  /** While the mempool is read, a payment in a block cannot be hit by a mempool error. */
  lemma {:induction false} MinedPaymentIsSpared(s: State, steps: seq<Step>, p: Transaction)
    requires Sane(s) && (s.snapshot != [] ==> InWindow(s, p))
    requires Allowed(s, steps) && forall k :: 0 <= k < |steps| ==> Faultless(steps[k]) || steps[k] == MempoolError
    ensures Spares(s, steps, p)
    decreases |steps|
  {
    hide ValidChain, Satisfies;
    if steps != [] {
      var s' := Apply(s, steps[0]);
      assert Faultless(steps[0]) || steps[0] == MempoolError;
      StepKeepsSane(s, steps[0]);
      if s'.snapshot != [] {
        var i :| s.stop <= i < Bound(s) && i < |s.chain| && p in s.chain[i].txs;
        assert s'.chain[i] == s.chain[i];
        assert InWindow(s', p);
      }
      MinedPaymentIsSpared(s', steps[1..], p);
    }
  }

  lemma StepKeepsSane(s: State, step: Step)
    requires Sane(s) && Enabled(s, step)
    ensures Sane(Apply(s, step))
  {
    if step.ReadBlock? {
      PollExact(s.stream, s.chain, TipOf(s), s.stop, step.fault);
    }
  }

  /**
   Exactly when unknown mempool errors let recovery pay a request: only payments that were already in a
   block the scan will read are safe from them.
   */
  lemma PaidTwiceAfterMempoolError(s: State, h: Hash)
    requires Initial(s) && h in s.open
    ensures CanBePaid(s, h, {MempoolError}) <==>
            s.stop >= 1 && (s.stop > |s.chain| || forall p :: Satisfies(p, s.open[h]) ==> !InChainFrom(s, p))
  {
    if s.stop >= 1 && (s.stop > |s.chain| || forall p :: Satisfies(p, s.open[h]) ==> !InChainFrom(s, p)) {
      forall i, tx | s.stop <= i < |s.chain| && tx in s.chain[i].txs
        ensures !Satisfies(tx, s.open[h])
      {
        assert InChainFrom(s, tx);
      }
      ChainScanPays(s.(snapshot := []), h, {MempoolError});
      SnapshotPasses(s, MempoolError, h, {MempoolError});
    } else {
      forall steps | Allowed(s, steps) && forall k :: 0 <= k < |steps| ==> Faultless(steps[k]) || steps[k] in {MempoolError}
        ensures h !in Run(s, steps).paid
      {
        if s.stop == 0 {
          NothingPaidAtStopZero(s, steps);
        } else {
          var p :| Satisfies(p, s.open[h]) && InChainFrom(s, p);
          assert InWindow(s, p);
          MinedPaymentIsSpared(s, steps, p);
          NoDoublePayment(s, steps, p, h);
        }
      }
    }
  }

  /** A pruned block ends the stream wherever it is met, so pruning alone lets recovery pay any open request. */
  lemma PaidTwiceWhenPruned(s: State, h: Hash)
    requires Initial(s) && h in s.open
    ensures CanBePaid(s, h, {ReadBlock(Pruned)})
  {
    var faults := {ReadBlock(Pruned)};
    var passed := s.(chain := s.chain + [MempoolBlock(s)], mempool := {}, snapshot := []);
    var tipped := Apply(passed, ReadTip);
    EndedUnmatchedIsPaid(Apply(tipped, ReadBlock(Pruned)), h, faults);
    StepBack(tipped, ReadBlock(Pruned), h, faults);
    StepBack(passed, ReadTip, h, faults);
    MinedMempoolPasses(s, h, faults);
  }
}
