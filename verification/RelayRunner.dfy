/** One relayer's step, and how a series of steps catches up with the node. */
module RelayRunner {
  import opened Wrappers
  import opened Integers
  import opened Relay

  datatype Config = Config(startHeight: Option<nat>, maxBatchSize: nat, btcConfirmations: nat)

  datatype Outcome = Waits | Submits(count: nat) | Fails(error: RelayError) | MissingHeader

  function ConfirmedHeight(conf: Config, tip: Block): nat {
    SaturatingSub(Height(tip), conf.btcConfirmations)
  }

  /** After storing headers the relay may switch its main chain to any stored branch. */
  function AfterStoring(r: RelayState, stored: set<Block>, nextBest: Block): RelayState {
    RelayState(r.root, stored, if nextBest in stored then nextBest else r.best)
  }

  function SubmitHeaders(r: RelayState, headers: seq<Block>, nextBest: Block): (RelayState, Outcome) {
    match StoreHeaders(r.stored, headers)
    case Ok(stored) => (AfterStoring(r, stored, nextBest), Submits(|headers|))
    case Err(e) => (r, Fails(e))
  }

  /** A relay that is not initialised yet is given the configured header, or the last confirmed one. */
  function Initialize(relay: Option<RelayState>, conf: Config, tip: Block): Option<RelayState> {
    match relay
    case Some(_) => relay
    case None =>
      var start := if conf.startHeight.Some? then conf.startHeight.value else ConfirmedHeight(conf, tip);
      if start > Height(tip) then None else Some(RelayState(At(tip, start), {At(tip, start)}, At(tip, start)))
  }

  function SubmitNext(r: RelayState, conf: Config, tip: Block, f: Faults, nextBest: Block): (RelayState, Outcome) {
    match StartHeight(r, tip, f)
    case Err(e) => (r, Fails(e))
    case Ok(current) =>
      var batch := BatchSize(current, conf.maxBatchSize, ConfirmedHeight(conf, tip));
      if batch == 0 then (r, Waits)
      else if current + batch > Height(tip) + 1 then (r, MissingHeader)
      else if batch == 1 && IsBlockStored(r, At(tip, current)) then (r, Submits(0))
      else SubmitHeaders(r, Headers(tip, current, batch), nextBest)
  }

  class Runner {
    const conf: Config
    var relay: Option<RelayState>

    constructor (conf: Config, relay: Option<RelayState>)
      ensures this.conf == conf && this.relay == relay
    {
      this.conf, this.relay := conf, relay;
    }

    method SubmitNextBlocks(tip: Block, f: Faults, nextBest: Block) returns (outcome: Outcome)
      modifies this
      ensures match Initialize(old(relay), conf, tip)
              case None => relay == None && outcome == MissingHeader
              case Some(r) => relay == Some(SubmitNext(r, conf, tip, f, nextBest).0)
                              && outcome == SubmitNext(r, conf, tip, f, nextBest).1
    {
      hide StartHeight, StoreHeaders, Headers;
      var maxHeight := SaturatingSub(Height(tip), conf.btcConfirmations);
      if relay.None? {
        var start := if conf.startHeight.Some? then conf.startHeight.value else maxHeight;
        if start > Height(tip) {
          return MissingHeader;
        }
        relay := Some(RelayState(At(tip, start), {At(tip, start)}, At(tip, start)));
      }
      var r := relay.value;
      var start := ComputeStartHeight(r, tip, f);
      if start.Err? {
        return Fails(start.error);
      }
      var current := start.value;
      var batch := BatchSize(current, conf.maxBatchSize, maxHeight);
      if batch == 0 {
        return Waits;
      }
      if current + batch > Height(tip) + 1 {
        return MissingHeader;
      }
      if batch == 1 && IsBlockStored(r, At(tip, current)) {
        return Submits(0);
      }
      var headers := CollectHeaders(current, batch, tip);
      var stored := StoreHeaders(r.stored, headers);
      if stored.Err? {
        return Fails(stored.error);
      }
      relay := Some(AfterStoring(r, stored.value, nextBest));
      outcome := Submits(|headers|);
    }
  }

  // ---------------------------------------------------------------- one step

  /** A relay the node can be compared with: initialised above height zero on the node's chain, never ahead of it. */
  ghost predicate InStep(r: RelayState, tip: Block) {
    && Sound(r) && Height(r.root) >= 1 && OnChain(r.root, tip) && Height(tip) < U32_MAX
    && forall b :: b in r.stored ==> Height(b) <= Height(tip)
  }

  function Min(a: nat, b: nat): nat {
    if a <= b then a else b
  }

  /** Blocks of the chain ending in `tip` at heights from `lo` up to but not including `hi`. */
  ghost predicate InSpan(b: Block, tip: Block, lo: nat, hi: nat) {
    lo <= Height(b) < hi && OnChain(b, tip)
  }

  /** The store gains exactly the chain's `n` headers from height `h` on. */
  ghost predicate GainsSpan(stored: set<Block>, stored': set<Block>, tip: Block, h: nat, n: nat) {
    forall b :: b in stored' <==> b in stored || InSpan(b, tip, h, h + n)
  }

  lemma NothingStoredFrom(r: RelayState, tip: Block, h: nat, l: nat)
    requires Sound(r) && Height(r.root) >= 1 && h >= 1
    requires StoredAt(r, tip, h - 1) && !StoredAt(r, tip, h) && h <= l <= Height(tip)
    ensures At(tip, l) !in r.stored
  {
    AtHeight(tip, l);
    if At(tip, l) in r.stored {
      StoredIsInterval(r, tip, h - 1, h - 1);
      StoredIsInterval(r, tip, l, h);
    }
  }

  /** The store has gained exactly the chain's headers from `h` on, `n` of them, and the next start is behind them. */
  ghost predicate Gained(r: RelayState, r': RelayState, tip: Block, h: nat, n: nat) {
    && r'.root == r.root && InStep(r', tip)
    && GainsSpan(r.stored, r'.stored, tip, h, n)
    && StartHeight(r', tip, NO_FAULTS) == Ok(h + n)
  }

  lemma SubmitGains(r: RelayState, tip: Block, h: nat, n: nat, nextBest: Block)
    requires InStep(r, tip) && AtBoundary(r, tip, h) && n > 0 && h + n <= Height(tip) + 1
    ensures SubmitHeaders(r, Headers(tip, h, n), nextBest).1 == Submits(n)
    ensures Gained(r, SubmitHeaders(r, Headers(tip, h, n), nextBest).0, tip, h, n)
  {
    forall l | h <= l < h + n
      ensures At(tip, l) !in r.stored
    {
      NothingStoredFrom(r, tip, h, l);
    }
    HeadersExtendStore(r.stored, tip, h, n);
    HeadersAt(tip, h, n, 0);
    var r' := SubmitHeaders(r, Headers(tip, h, n), nextBest).0;
    SpanKeepsClosed(r.root, r.stored, r'.stored, tip, h, n);
    NextBoundary(r, r', tip, h, n);
  }

  /** As many headers as fit: confirmed ones from `h` on, at most a batch, and fewer only if no more are confirmed. */
  predicate ConfirmedBatch(conf: Config, tip: Block, h: nat, n: nat) {
    && n <= conf.maxBatchSize
    && (n > 0 ==> h + n - 1 + conf.btcConfirmations <= Height(tip))
    && (n < conf.maxBatchSize ==> h + n + conf.btcConfirmations > Height(tip))
  }

  /**
   One step without faults submits exactly a batch of confirmed headers: at most the batch size, each
   `btcConfirmations` deep on the node's chain, and fewer only when there are no more of these. The store gains
   those headers and nothing else, and the next step starts behind them.
   */
  lemma StepExact(r: RelayState, conf: Config, tip: Block, nextBest: Block)
    requires InStep(r, tip)
    ensures StartHeight(r, tip, NO_FAULTS).Ok?
    ensures var h, top := StartHeight(r, tip, NO_FAULTS).value, ConfirmedHeight(conf, tip);
            var n := Min(conf.maxBatchSize, Gap(h, top));
            var (r', outcome) := SubmitNext(r, conf, tip, NO_FAULTS, nextBest);
            && AtBoundary(r, tip, h)
            && ConfirmedBatch(conf, tip, h, n)
            && outcome == (if n == 0 then Waits else Submits(n))
            && Gained(r, r', tip, h, n)
  {
    StartHeightAnswers(r, tip);
    StartHeightIsBoundary(r, tip, NO_FAULTS);
    var h, top := StartHeight(r, tip, NO_FAULTS).value, ConfirmedHeight(conf, tip);
    BatchSizeExact(h, conf.maxBatchSize, top);
    var n := BatchSize(h, conf.maxBatchSize, top);
    if n > 0 {
      SubmitGains(r, tip, h, n, nextBest);
      assert SubmitNext(r, conf, tip, NO_FAULTS, nextBest) == SubmitHeaders(r, Headers(tip, h, n), nextBest);
    }
  }

  /**
   A single header that turns out to be stored, because a node failure stopped the search early, is dropped
   silently; a batch that starts on one is refused whole. Either way the relay stays as it is.
   */
  lemma StoredStartChangesNothing(r: RelayState, conf: Config, tip: Block, f: Faults, nextBest: Block, h: nat, n: nat)
    requires Height(tip) < U32_MAX && StartHeight(r, tip, f) == Ok(h) && h >= 1 && StoredAt(r, tip, h)
    requires ConfirmedBatch(conf, tip, h, n) && n > 0
    ensures SubmitNext(r, conf, tip, f, nextBest) == (r, if n == 1 then Submits(0) else Fails(DuplicateBlock))
  {
    hide StartHeight;
    BatchSizeExact(h, conf.maxBatchSize, ConfirmedHeight(conf, tip));
    HeadersAt(tip, h, n, 0);
  }

  /** An uninitialised relay gets the configured header, or else the last confirmed one; then nothing but it is stored. */
  lemma InitializeExact(conf: Config, tip: Block)
    ensures var start := if conf.startHeight.Some? then conf.startHeight.value
                         else if conf.btcConfirmations <= Height(tip) then Height(tip) - conf.btcConfirmations else 0;
            && (Initialize(None, conf, tip).None? <==> start > Height(tip))
            && (start <= Height(tip) ==>
                  var r := Initialize(None, conf, tip).value;
                  && Sound(r) && r.stored == {r.root} && OnChain(r.root, tip) && Height(r.root) == start)
    ensures forall r :: Initialize(Some(r), conf, tip) == Some(r)
  {
    var start := if conf.startHeight.Some? then conf.startHeight.value
                 else if conf.btcConfirmations <= Height(tip) then Height(tip) - conf.btcConfirmations else 0;
    if start <= Height(tip) {
      AtHeight(tip, start);
    }
  }

  lemma SpanKeepsClosed(root: Block, stored: set<Block>, stored': set<Block>, tip: Block, h: nat, n: nat)
    requires Closed(root, stored) && h >= 1 && h + n <= Height(tip) + 1 && At(tip, h - 1) in stored
    requires GainsSpan(stored, stored', tip, h, n)
    ensures Closed(root, stored')
  {
    forall b | b in stored'
      ensures HasParent(b, root, stored')
    {
      if b in stored {
        assert HasParent(b, root, stored);
      } else {
        AtParent(tip, Height(b));
        AtHeight(tip, Height(b) - 1);
      }
    }
  }

  lemma SpanMovesBoundary(r: RelayState, r': RelayState, tip: Block, h: nat, n: nat)
    requires Sound(r) && Height(r.root) >= 1 && AtBoundary(r, tip, h) && n > 0 && h + n <= Height(tip) + 1
    requires GainsSpan(r.stored, r'.stored, tip, h, n)
    ensures AtBoundary(r', tip, h + n)
  {
    hide Closed, At, Height;
    AtHeight(tip, h + n - 1);
    assert InSpan(At(tip, h + n - 1), tip, h, h + n);
    if h + n <= Height(tip) {
      AtHeight(tip, h + n);
      NothingStoredFrom(r, tip, h, h + n);
      assert !InSpan(At(tip, h + n), tip, h, h + n);
    }
  }

  lemma SpanKeepsInStep(r: RelayState, r': RelayState, tip: Block, h: nat, n: nat)
    requires InStep(r, tip) && h + n <= Height(tip) + 1
    requires Sound(r') && r'.root == r.root
    requires GainsSpan(r.stored, r'.stored, tip, h, n)
    ensures InStep(r', tip)
  {
    hide Closed, OnChain, Height;
  }

  lemma NextBoundary(r: RelayState, r': RelayState, tip: Block, h: nat, n: nat)
    requires InStep(r, tip) && n > 0 && h >= 1 && h + n <= Height(tip) + 1
    requires AtBoundary(r, tip, h)
    requires Sound(r') && r'.root == r.root
    requires GainsSpan(r.stored, r'.stored, tip, h, n)
    ensures Gained(r, r', tip, h, n)
  {
    hide Closed, OnChain, Height, StoredAt, StartHeight, InSpan, GainsSpan;
    SpanKeepsInStep(r, r', tip, h, n);
    SpanMovesBoundary(r, r', tip, h, n);
    StartHeightAnswers(r', tip);
    BoundaryUnique(r', tip, h + n);
  }

  /**
   A relay with a root at height zero is stuck while its main chain and the node's do not share their first
   block, as after being initialised there: whatever is submitted, fails or is preferred, a step changes nothing.
   */
  lemma StuckAtGenesis(r: RelayState, conf: Config, tip: Block, f: Faults, nextBest: Block)
    requires Sound(r) && Height(r.root) == 0 && !ShareFirst(r.best, tip)
    ensures SubmitNext(r, conf, tip, f, nextBest).0 == r
  {
    if StartHeight(r, tip, f).Ok? {
      GenesisBoundaryExact(r, tip, f);
      AtHeight(tip, 0);
      assert At(tip, 0) == r.root;
      var batch := BatchSize(0, conf.maxBatchSize, ConfirmedHeight(conf, tip));
      if 0 < batch <= Height(tip) + 1 {
        HeadersAt(tip, 0, batch, 0);
      }
    }
  }

  // ---------------------------------------------------------------- catching up

  /** The relay after one step per entry of `nextBests`, the node standing still. */
  function Steps(r: RelayState, conf: Config, tip: Block, nextBests: seq<Block>): RelayState
    decreases |nextBests|
  {
    if nextBests == [] then r
    else Steps(SubmitNext(r, conf, tip, NO_FAULTS, nextBests[0]).0, conf, tip, nextBests[1..])
  }

  lemma GainedTwice(r: RelayState, r1: RelayState, r2: RelayState, tip: Block, h: nat, n: nat, m: nat)
    requires Gained(r, r1, tip, h, n) && Gained(r1, r2, tip, h + n, m)
    ensures Gained(r, r2, tip, h, n + m)
  {
  }

  /** Where `k` steps get to. */
  function Moved(k: nat, conf: Config, gap: nat): nat {
    Min(k * conf.maxBatchSize, gap)
  }

  lemma MovedOneMore(k: nat, conf: Config, h: nat, top: nat)
    requires k > 0
    ensures var n := Min(conf.maxBatchSize, Gap(h, top));
            n + Moved(k - 1, conf, Gap(h + n, top)) == Moved(k, conf, Gap(h, top))
  {
    assert k * conf.maxBatchSize == conf.maxBatchSize + (k - 1) * conf.maxBatchSize;
    assert (k - 1) * conf.maxBatchSize >= 0;
  }

  /** One more step in front of a series. */
  lemma StepFirst(r: RelayState, next: RelayState, last: RelayState, conf: Config, tip: Block, h: nat, k: nat)
    requires k > 0
    requires Gained(r, next, tip, h, Min(conf.maxBatchSize, Gap(h, ConfirmedHeight(conf, tip))))
    requires var h' := h + Min(conf.maxBatchSize, Gap(h, ConfirmedHeight(conf, tip)));
             Gained(next, last, tip, h', Moved(k - 1, conf, Gap(h', ConfirmedHeight(conf, tip))))
    ensures Gained(r, last, tip, h, Moved(k, conf, Gap(h, ConfirmedHeight(conf, tip))))
  {
    var top := ConfirmedHeight(conf, tip);
    var n := Min(conf.maxBatchSize, Gap(h, top));
    MovedOneMore(k, conf, h, top);
    GainedTwice(r, next, last, tip, h, n, Moved(k - 1, conf, Gap(h + n, top)));
  }

  lemma {:induction false} StepsExact(r: RelayState, conf: Config, tip: Block, nextBests: seq<Block>, h: nat)
    requires InStep(r, tip) && StartHeight(r, tip, NO_FAULTS) == Ok(h)
    ensures Gained(r, Steps(r, conf, tip, nextBests), tip, h, Moved(|nextBests|, conf, Gap(h, ConfirmedHeight(conf, tip))))
    decreases |nextBests|
  {
    if nextBests != [] {
      StepExact(r, conf, tip, nextBests[0]);
      var next := SubmitNext(r, conf, tip, NO_FAULTS, nextBests[0]).0;
      var h' := h + Min(conf.maxBatchSize, Gap(h, ConfirmedHeight(conf, tip)));
      StepsExact(next, conf, tip, nextBests[1..], h');
      StepFirst(r, next, Steps(next, conf, tip, nextBests[1..]), conf, tip, h, |nextBests|);
    }
  }

  /** How many headers from `h` on are `btcConfirmations` deep. */
  function ConfirmedFrom(h: nat, conf: Config, tip: Block): nat {
    if h + conf.btcConfirmations <= Height(tip) then Height(tip) - conf.btcConfirmations - h + 1 else 0
  }

  /** As many steps as batches of at most `maxBatchSize` headers are needed for `gap` headers. */
  predicate EnoughSteps(steps: nat, conf: Config, gap: nat)
    requires conf.maxBatchSize >= 1
  {
    steps >= (gap + conf.maxBatchSize - 1) / conf.maxBatchSize
  }

  /**
   Catching up: with batches of at least one header, `ceil(gap / batch)` steps store every header from the
   root's height up that is `btcConfirmations` deep, whatever branches the relay prefers meanwhile, and no other
   header is added; the step after that waits.
   */
  lemma CatchesUp(
    r: RelayState, conf: Config, tip: Block, nextBests: seq<Block>, nextBest: Block, start: nat, h: nat)
    requires InStep(r, tip) && conf.maxBatchSize >= 1
    requires StartHeight(r, tip, NO_FAULTS) == Ok(start)
    requires EnoughSteps(|nextBests|, conf, ConfirmedFrom(start, conf, tip))
    requires Height(r.root) <= h && h + conf.btcConfirmations <= Height(tip)
    ensures At(tip, h) in Steps(r, conf, tip, nextBests).stored
    ensures forall b :: b in Steps(r, conf, tip, nextBests).stored ==>
                          b in r.stored || Height(b) + conf.btcConfirmations <= Height(tip)
    ensures SubmitNext(Steps(r, conf, tip, nextBests), conf, tip, NO_FAULTS, nextBest).1 == Waits
  {
    hide StartHeight, SubmitNext;
    assert ConfirmedFrom(start, conf, tip) == Gap(start, ConfirmedHeight(conf, tip));
    CeilingOfGapSuffices(Gap(start, ConfirmedHeight(conf, tip)), conf.maxBatchSize, |nextBests|);
    StepsExact(r, conf, tip, nextBests, start);
    var r' := Steps(r, conf, tip, nextBests);
    StepExact(r', conf, tip, nextBest);
    StoredIsInterval(r', tip, StartHeight(r', tip, NO_FAULTS).value - 1, h);
  }

  lemma CeilingOfGapSuffices(gap: nat, batch: nat, steps: nat)
    requires batch >= 1 && steps >= (gap + batch - 1) / batch
    ensures steps * batch >= gap
  {
    assert (gap + batch - 1) / batch * batch >= gap;
    assert steps * batch >= (gap + batch - 1) / batch * batch;
  }
}
