/**
 Several relayers feeding one relay, one call at a time, each against its own node. Whatever the
 interleaving, nothing is submitted whose parent the relay lacks, and the store stays ancestor-closed.
 */
module RelaySafety {
  import opened Wrappers
  import opened Integers
  import opened Relay
  import opened RelayRunner

  /** Where a relayer is inside `submit_next`; `top` is the confirmed height it read when it began. */
  datatype Phase =
    | Idle
    | Down(tip: Block, conf: Config, top: nat, h: nat)
    | Up(tip: Block, conf: Config, top: nat, h: nat)
    | Ready(tip: Block, conf: Config, top: nat, h: nat)

  datatype State = State(relay: RelayState, phases: map<nat, Phase>)

  datatype Step =
    | Begin(id: nat, tip: Block, conf: Config)  // read the confirmed height and the relay's best height
    | NodeExtends(id: nat, tip': Block)         // the node behind a relayer grows inside a call
    | CompareDown(id: nat)                      // one comparison of the backward pass
    | CheckUp(id: nat)                          // one stored check of the forward pass
    | NodeFailsUp(id: nat)                      // the node fails in the forward pass, which then stops
    | CallFails(id: nat)                        // any other failed call ends the step
    | Submit(id: nat)
    | SwitchMainChain(best: Block)              // the relay prefers another stored branch

  ghost predicate Enabled(s: State, step: Step) {
    match step
    case Begin(id, tip, conf) => id in s.phases && s.phases[id].Idle? && Height(tip) < U32_MAX
    case NodeExtends(id, tip') =>
      id in s.phases && !s.phases[id].Idle? && OnChain(s.phases[id].tip, tip') && Height(tip') < U32_MAX
    case CompareDown(id) => id in s.phases && s.phases[id].Down?
    case CheckUp(id) => id in s.phases && s.phases[id].Up?
    case NodeFailsUp(id) => id in s.phases && s.phases[id].Up?
    case CallFails(id) => id in s.phases
    case Submit(id) => id in s.phases && s.phases[id].Ready? && HeadersKnown(s.phases[id])
    case SwitchMainChain(best) => best in s.relay.stored
  }

  /** The batch a relayer is about to submit lies on its node's chain; otherwise the header unwrap panics. */
  predicate HeadersKnown(p: Phase)
    requires p.Ready?
  {
    BatchSize(p.h, p.conf.maxBatchSize, p.top) == 0 || p.h + BatchSize(p.h, p.conf.maxBatchSize, p.top) <= Height(p.tip) + 1
  }

  function Submission(p: Phase): seq<Block>
    requires p.Ready? && HeadersKnown(p)
  {
    var n := BatchSize(p.h, p.conf.maxBatchSize, p.top);
    if n == 0 then [] else Headers(p.tip, p.h, n)
  }

  function Compare(r: RelayState, p: Phase): Phase
    requires p.Down?
  {
    if p.h > Height(p.tip) then Idle
    else if RelayHash(r, p.h) == Some(At(p.tip, p.h)) then Up(p.tip, p.conf, p.top, p.h)
    else if p.h == 0 then Idle
    else Down(p.tip, p.conf, p.top, p.h - 1)
  }

  function Check(r: RelayState, p: Phase): Phase
    requires p.Up?
  {
    if p.h <= Height(p.tip) && IsBlockStored(r, At(p.tip, p.h)) then Up(p.tip, p.conf, p.top, p.h + 1)
    else Ready(p.tip, p.conf, p.top, p.h)
  }

  ghost function Apply(s: State, step: Step): State
    requires Enabled(s, step)
  {
    match step
    case Begin(id, tip, conf) =>
      s.(phases := s.phases[id := Down(tip, conf, ConfirmedHeight(conf, tip), Height(s.relay.best))])
    case NodeExtends(id, tip') => s.(phases := s.phases[id := s.phases[id].(tip := tip')])
    case CompareDown(id) => s.(phases := s.phases[id := Compare(s.relay, s.phases[id])])
    case CheckUp(id) => s.(phases := s.phases[id := Check(s.relay, s.phases[id])])
    case NodeFailsUp(id) =>
      var p := s.phases[id];
      s.(phases := s.phases[id := Ready(p.tip, p.conf, p.top, p.h)])
    case CallFails(id) => s.(phases := s.phases[id := Idle])
    case Submit(id) =>
      var stored := StoreHeaders(s.relay.stored, Submission(s.phases[id]));
      State(if stored.Ok? then s.relay.(stored := stored.value) else s.relay, s.phases[id := Idle])
    case SwitchMainChain(best) => s.(relay := s.relay.(best := best))
  }

  // ---------------------------------------------------------------- the invariant

  /** The height reached has its parent in the store, or is itself in the store. */
  ghost predicate Grounded(stored: set<Block>, p: Phase) {
    && (!p.Idle? ==> p.top <= Height(p.tip) < U32_MAX && (p.top > 0 ==> p.top + p.conf.btcConfirmations <= Height(p.tip)))
    && (p.Up? || p.Ready? ==>
          && 1 <= p.h <= Height(p.tip) + 1
          && (At(p.tip, p.h - 1) in stored || (p.h <= Height(p.tip) && At(p.tip, p.h) in stored)))
  }

  ghost predicate Good(s: State) {
    && Sound(s.relay) && Height(s.relay.root) >= 1
    && forall id :: id in s.phases ==> Grounded(s.relay.stored, s.phases[id])
  }

  /** What a submission must look like: linked headers, the first on a stored parent unless it is the root itself. */
  ghost predicate Linked(root: Block, stored: set<Block>, headers: seq<Block>) {
    && (forall k :: 0 <= k < |headers| ==> headers[k].Child?)
    && (headers != [] ==> headers[0].parent in stored || headers[0] == root)
    && (forall k :: 0 < k < |headers| ==> headers[k].parent == headers[k - 1])
  }

  /** Every header is on the node's chain, with the configured confirmations on top. */
  ghost predicate Confirmed(p: Phase, headers: seq<Block>)
    requires p.Ready?
  {
    forall k :: 0 <= k < |headers| ==>
                  OnChain(headers[k], p.tip) && Height(headers[k]) + p.conf.btcConfirmations <= Height(p.tip)
  }

  lemma HeadersAreLinked(root: Block, stored: set<Block>, tip: Block, h: nat, n: nat)
    requires n > 0 && h >= 1 && h + n <= Height(tip) + 1
    requires Closed(root, stored) && (At(tip, h - 1) in stored || At(tip, h) in stored)
    ensures Linked(root, stored, Headers(tip, h, n))
    ensures |Headers(tip, h, n)| == n
    ensures forall k :: 0 <= k < n ==>
                          Height(Headers(tip, h, n)[k]) == h + k < h + n && OnChain(Headers(tip, h, n)[k], tip)
  {
    var headers := Headers(tip, h, n);
    HeadersAt(tip, h, n, 0);
    AtParent(tip, h);
    assert At(tip, h) in stored ==> HasParent(At(tip, h), root, stored);
    forall k | 0 <= k < |headers|
      ensures headers[k] == At(tip, h + k) && headers[k].Child? && headers[k].parent == At(tip, h + k - 1)
      ensures Height(headers[k]) == h + k && OnChain(headers[k], tip)
    {
      HeadersAt(tip, h, n, k);
      AtParent(tip, h + k);
      AtHeight(tip, h + k);
    }
  }

  /** Linked headers are never refused for a missing parent, and keep the store closed. */
  lemma {:induction false} LinkedKeepsClosed(root: Block, stored: set<Block>, headers: seq<Block>)
    requires Closed(root, stored) && Linked(root, stored, headers)
    ensures var next := StoreHeaders(stored, headers);
            && next != Err(MissingParent)
            && (next.Ok? ==> stored <= next.value && Closed(root, next.value))
    decreases |headers|
  {
    if headers != [] && headers[0] !in stored {
      var more := stored + {headers[0]};
      forall b | b in more
        ensures HasParent(b, root, more)
      {
        if b in stored {
          assert HasParent(b, root, stored);
        }
      }
      var rest := headers[1..];
      assert rest != [] ==> rest[0].parent == headers[0];
      LinkedKeepsClosed(root, more, rest);
    }
  }

  /**
   Every submission of a good state is linked to the store and within the batch size, its headers are known to
   the node, and each of them is `btcConfirmations` deep on the node's chain.
   */
  lemma SubmissionsAreLinked(s: State, id: nat)
    requires Good(s) && id in s.phases && s.phases[id].Ready?
    ensures var p := s.phases[id];
            && HeadersKnown(p)
            && Linked(s.relay.root, s.relay.stored, Submission(p))
            && |Submission(p)| <= p.conf.maxBatchSize
            && Confirmed(p, Submission(p))
  {
    var p := s.phases[id];
    assert Grounded(s.relay.stored, p);
    BatchSizeExact(p.h, p.conf.maxBatchSize, p.top);
    var n := BatchSize(p.h, p.conf.maxBatchSize, p.top);
    if n > 0 {
      HeadersAreLinked(s.relay.root, s.relay.stored, p.tip, p.h, n);
      HeadersAt(p.tip, p.h, n, 0);
    }
  }

  lemma GroundedGrows(stored: set<Block>, more: set<Block>, p: Phase)
    requires Grounded(stored, p) && stored <= more
    ensures Grounded(more, p)
  {
  }

  lemma NodeExtendsGrounded(stored: set<Block>, p: Phase, tip': Block)
    requires Grounded(stored, p) && !p.Idle? && OnChain(p.tip, tip') && Height(tip') < U32_MAX
    ensures Grounded(stored, p.(tip := tip'))
  {
    if p.Up? || p.Ready? {
      AtAt(tip', Height(p.tip), p.h - 1);
      if p.h <= Height(p.tip) {
        AtAt(tip', Height(p.tip), p.h);
      }
    }
  }

  lemma CompareGrounded(r: RelayState, p: Phase)
    requires Sound(r) && Height(r.root) >= 1 && p.Down? && Grounded(r.stored, p)
    ensures Grounded(r.stored, Compare(r, p))
  {
    if Compare(r, p).Up? {
      StoredBelow(r.root, r.stored, r.best, p.h);
    }
  }

  lemma StepKeepsGood(s: State, step: Step)
    requires Good(s) && Enabled(s, step)
    ensures Good(Apply(s, step))
    ensures s.relay.stored <= Apply(s, step).relay.stored && Apply(s, step).relay.root == s.relay.root
  {
    match step
    case NodeExtends(id, tip') => NodeExtendsGrounded(s.relay.stored, s.phases[id], tip');
    case CompareDown(id) => CompareGrounded(s.relay, s.phases[id]);
    case Submit(id) =>
      SubmissionsAreLinked(s, id);
      LinkedKeepsClosed(s.relay.root, s.relay.stored, Submission(s.phases[id]));
      var s' := Apply(s, step);
      forall other | other in s'.phases
        ensures Grounded(s'.relay.stored, s'.phases[other])
      {
        if other != id {
          GroundedGrows(s.relay.stored, s'.relay.stored, s.phases[other]);
        }
      }
    case _ =>
  }

  ghost predicate Allowed(s: State, steps: seq<Step>)
    decreases |steps|
  {
    steps == [] || (Enabled(s, steps[0]) && Allowed(Apply(s, steps[0]), steps[1..]))
  }

  ghost function Run(s: State, steps: seq<Step>): State
    requires Allowed(s, steps)
    decreases |steps|
  {
    if steps == [] then s else Run(Apply(s, steps[0]), steps[1..])
  }

  lemma {:induction false} RunKeepsGood(s: State, steps: seq<Step>)
    requires Good(s) && Allowed(s, steps)
    ensures Good(Run(s, steps))
    ensures s.relay.stored <= Run(s, steps).relay.stored && Run(s, steps).relay.root == s.relay.root
    decreases |steps|
  {
    if steps != [] {
      StepKeepsGood(s, steps[0]);
      RunKeepsGood(Apply(s, steps[0]), steps[1..]);
    }
  }

  /**
   Many relayers, one sound store: after any run from idle relayers the store is ancestor-closed and has
   only grown, and any relayer ready to submit has confirmed headers that link to it and are never refused
   for a missing parent.
   */
  lemma ManyRelayersOneStore(s: State, steps: seq<Step>)
    requires Sound(s.relay) && Height(s.relay.root) >= 1
    requires forall id :: id in s.phases ==> s.phases[id].Idle?
    requires Allowed(s, steps)
    ensures var s' := Run(s, steps);
            && Closed(s.relay.root, s'.relay.stored) && s.relay.stored <= s'.relay.stored
            && forall id :: id in s'.phases && s'.phases[id].Ready? ==>
                 && HeadersKnown(s'.phases[id]) && Confirmed(s'.phases[id], Submission(s'.phases[id]))
                 && Linked(s.relay.root, s'.relay.stored, Submission(s'.phases[id]))
                 && StoreHeaders(s'.relay.stored, Submission(s'.phases[id])) != Err(MissingParent)
  {
    RunKeepsGood(s, steps);
    var s' := Run(s, steps);
    forall id | id in s'.phases && s'.phases[id].Ready?
      ensures && HeadersKnown(s'.phases[id]) && Confirmed(s'.phases[id], Submission(s'.phases[id]))
              && Linked(s.relay.root, s'.relay.stored, Submission(s'.phases[id]))
              && StoreHeaders(s'.relay.stored, Submission(s'.phases[id])) != Err(MissingParent)
    {
      SubmissionsAreLinked(s', id);
      LinkedKeepsClosed(s.relay.root, s'.relay.stored, Submission(s'.phases[id]));
    }
  }

  // ---------------------------------------------------------------- the small steps are the relayer's step

  /** A relayer left alone: comparisons until it goes up or gives up, then stored checks until it is ready. */
  function Descend(r: RelayState, p: Phase): Phase
    decreases if p.Down? then p.h + 1 else 0
  {
    if p.Down? then Descend(r, Compare(r, p)) else p
  }

  function Ascend(r: RelayState, p: Phase): Phase
    decreases if p.Up? then Height(p.tip) + 2 - p.h else 0
  {
    if p.Up? && p.h <= Height(p.tip) + 1 then Ascend(r, Check(r, p)) else p
  }

  lemma {:induction false} DescendIsBackwardPass(r: RelayState, p: Phase)
    requires p.Down?
    ensures Descend(r, p) == match BackwardPass(r, p.tip, p.h, NO_FAULTS)
                             case Ok(h) => Up(p.tip, p.conf, p.top, h)
                             case Err(_) => Idle
    decreases p.h
  {
    var next := Compare(r, p);
    if next.Down? {
      DescendIsBackwardPass(r, next);
    }
  }

  lemma {:induction false} AscendIsForwardPass(r: RelayState, p: Phase)
    requires p.Up? && p.h <= Height(p.tip) + 1
    ensures ForwardPass(r, p.tip, p.h, NO_FAULTS).Ok?
    ensures Ascend(r, p) == Ready(p.tip, p.conf, p.top, ForwardPass(r, p.tip, p.h, NO_FAULTS).value)
    decreases Height(p.tip) + 1 - p.h
  {
    var next := Check(r, p);
    if next.Up? {
      AscendIsForwardPass(r, next);
    }
  }

  /**
   A relayer that is not interrupted ends up ready at the height `compute_start_height` returns, and submitting
   there changes the store as `submit_next` does.
   */
  lemma AloneIsSubmitNext(r: RelayState, conf: Config, tip: Block, nextBest: Block)
    requires Sound(r) && Height(r.root) >= 1 && Height(tip) < U32_MAX
    ensures var ready := Ascend(r, Descend(r, Down(tip, conf, ConfirmedHeight(conf, tip), Height(r.best))));
            match StartHeight(r, tip, NO_FAULTS)
            case Err(_) => ready == Idle
            case Ok(h) =>
              && ready == Ready(tip, conf, ConfirmedHeight(conf, tip), h) && HeadersKnown(ready)
              && SubmitNext(r, conf, tip, NO_FAULTS, nextBest).0.stored ==
                 (match StoreHeaders(r.stored, Submission(ready)) case Ok(stored) => stored case Err(_) => r.stored)
  {
    var down := Down(tip, conf, ConfirmedHeight(conf, tip), Height(r.best));
    DescendIsBackwardPass(r, down);
    BackwardPassExact(r, tip, Height(r.best), NO_FAULTS);
    var up := Descend(r, down);
    if up.Up? {
      AscendIsForwardPass(r, up);
      StartHeightIsBoundary(r, tip, NO_FAULTS);
      var h := StartHeight(r, tip, NO_FAULTS).value;
      BatchSizeExact(h, conf.maxBatchSize, ConfirmedHeight(conf, tip));
    }
  }

  ghost predicate CanReach(s: State, goal: State) {
    exists steps :: Allowed(s, steps) && Run(s, steps) == goal
  }

  lemma StepBack(s: State, step: Step, goal: State)
    requires Enabled(s, step) && CanReach(Apply(s, step), goal)
    ensures CanReach(s, goal)
  {
    var rest :| Allowed(Apply(s, step), rest) && Run(Apply(s, step), rest) == goal;
    var steps := [step] + rest;
    assert steps[1..] == rest;
    assert Allowed(s, steps) && Run(s, steps) == goal;
  }

  lemma {:induction false} DescendBack(s: State, id: nat, goal: State)
    requires id in s.phases && CanReach(s.(phases := s.phases[id := Descend(s.relay, s.phases[id])]), goal)
    ensures CanReach(s, goal)
    decreases if s.phases[id].Down? then s.phases[id].h + 1 else 0
  {
    hide CanReach;
    var p := s.phases[id];
    if p.Down? {
      var next := Apply(s, CompareDown(id));
      assert next.phases[id := Descend(s.relay, next.phases[id])] == s.phases[id := Descend(s.relay, p)];
      DescendBack(next, id, goal);
      StepBack(s, CompareDown(id), goal);
    } else {
      assert s.phases[id := p] == s.phases;
    }
  }

  lemma {:induction false} AscendBack(s: State, id: nat, goal: State)
    requires id in s.phases && CanReach(s.(phases := s.phases[id := Ascend(s.relay, s.phases[id])]), goal)
    ensures CanReach(s, goal)
    decreases if s.phases[id].Up? then Height(s.phases[id].tip) + 2 - s.phases[id].h else 0
  {
    hide CanReach;
    var p := s.phases[id];
    if p.Up? && p.h <= Height(p.tip) + 1 {
      var next := Apply(s, CheckUp(id));
      assert next.phases[id := Ascend(s.relay, next.phases[id])] == s.phases[id := Ascend(s.relay, p)];
      AscendBack(next, id, goal);
      StepBack(s, CheckUp(id), goal);
    } else {
      assert s.phases[id := p] == s.phases;
    }
  }

  /** The interleaved steps can always do what `submit_next` does: the store of its result is reached, the relayer idle again. */
  lemma SubmitNextIsReachable(s: State, id: nat, conf: Config, tip: Block, nextBest: Block)
    requires Sound(s.relay) && Height(s.relay.root) >= 1 && Height(tip) < U32_MAX
    requires id in s.phases && s.phases[id].Idle?
    ensures CanReach(s, s.(relay := s.relay.(stored := SubmitNext(s.relay, conf, tip, NO_FAULTS, nextBest).0.stored)))
  {
    hide CanReach, SubmitNext, StartHeight;
    var goal := s.(relay := s.relay.(stored := SubmitNext(s.relay, conf, tip, NO_FAULTS, nextBest).0.stored));
    AloneIsSubmitNext(s.relay, conf, tip, nextBest);
    var begun := Apply(s, Begin(id, tip, conf));
    var descended := begun.(phases := begun.phases[id := Descend(s.relay, begun.phases[id])]);
    var ready := descended.(phases := descended.phases[id := Ascend(s.relay, descended.phases[id])]);
    assert CanReach(goal, goal) by { Stays(goal); }
    if ready.phases[id].Idle? {
      NoAnswerSubmitsNothing(s.relay, conf, tip, nextBest);
      assert ready == goal by { assert ready.phases == s.phases; }
    } else {
      assert Apply(ready, Submit(id)) == goal by { assert Apply(ready, Submit(id)).phases == s.phases; }
      StepBack(ready, Submit(id), goal);
    }
    AscendBack(descended, id, goal);
    DescendBack(begun, id, goal);
    StepBack(s, Begin(id, tip, conf), goal);
  }

  lemma Stays(s: State)
    ensures CanReach(s, s)
  {
    assert Allowed(s, []) && Run(s, []) == s;
  }

  lemma NoAnswerSubmitsNothing(r: RelayState, conf: Config, tip: Block, nextBest: Block)
    ensures StartHeight(r, tip, NO_FAULTS).Err? ==> SubmitNext(r, conf, tip, NO_FAULTS, nextBest).0 == r
  {
  }
}
