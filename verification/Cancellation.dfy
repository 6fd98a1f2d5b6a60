/**
 The cancellation scheduler: a list of open requests with two-clock deadlines, refreshed from the
 parachain whenever it is marked invalid, drained of expired requests on every block.
 */
module Cancellation {
  import opened Wrappers
  import opened Integers
  import opened Deadlines

  type RequestId = nat

  datatype Event =
    | Opened
    | Executed(id: RequestId)
    | ParachainBlock(parachainHeight: nat)
    | BitcoinBlock(bitcoinHeight: nat)

  datatype ActiveRequest = ActiveRequest(id: RequestId, deadline: Deadline)

  datatype UnconvertedOpenTime = UnconvertedOpenTime(id: RequestId, parachainOpen: U32, bitcoinOpen: U32, period: U32)

  /** An issue or replace request as the parachain reports it. */
  datatype ChainRequest = ChainRequest(open: UnconvertedOpenTime, pending: bool)

  datatype ListState = Valid | Invalid

  /** What the parachain answers while one event is handled; `None` is a failed query. */
  datatype Answers = Answers(requests: Option<seq<ChainRequest>>, period: Option<U32>, failing: set<RequestId>)

  // ---------------------------------------------------------------- refreshing the list

  function OpenTimes(requests: seq<ChainRequest>): seq<UnconvertedOpenTime> {
    if requests == [] then []
    else (if requests[0].pending then [requests[0].open] else []) + OpenTimes(requests[1..])
  }

  function Convert(open: seq<UnconvertedOpenTime>, globalPeriod: U32): Result<seq<ActiveRequest>, Error> {
    if open == [] then Ok([])
    else
      match CancelDeadline(open[0].parachainOpen, open[0].bitcoinOpen, globalPeriod, open[0].period)
      case Err(e) => Err(e)
      case Ok(deadline) =>
        match Convert(open[1..], globalPeriod)
        case Err(e) => Err(e)
        case Ok(rest) => Ok([ActiveRequest(open[0].id, deadline)] + rest)
  }

  /** `None` when a query fails or a deadline does not fit; one bad request fails the whole refresh. */
  function GetOpenRequests(answers: Answers): Option<seq<ActiveRequest>> {
    match answers.requests
    case None => None
    case Some(requests) =>
      var open := OpenTimes(requests);
      if open == [] then Some([])
      else
        match answers.period
        case None => None
        case Some(period) =>
          match Convert(open, period)
          case Ok(active) => Some(active)
          case Err(_) => None
  }

  /** Exactly the pending requests are kept, in order. */
  lemma {:induction false} OpenTimesExact(requests: seq<ChainRequest>, open: UnconvertedOpenTime)
    ensures open in OpenTimes(requests) <==> exists i :: 0 <= i < |requests| && requests[i].pending && requests[i].open == open
  {
    if requests != [] {
      OpenTimesExact(requests[1..], open);
      if i :| 0 <= i < |requests| && requests[i].pending && requests[i].open == open {
        assert i > 0 ==> requests[1..][i - 1] == requests[i];
      }
      if i :| 0 <= i < |requests[1..]| && requests[1..][i].pending && requests[1..][i].open == open {
        assert requests[i + 1] == requests[1..][i];
      }
    }
  }

  lemma OpenTimesUnfolds(first: ChainRequest, rest: seq<ChainRequest>)
    ensures OpenTimes([first] + rest) == (if first.pending then [first.open] else []) + OpenTimes(rest)
  {
    assert ([first] + rest)[1..] == rest;
  }

  lemma {:induction false} OpenTimesInOrder(a: seq<ChainRequest>, b: seq<ChainRequest>)
    ensures OpenTimes(a + b) == OpenTimes(a) + OpenTimes(b)
    decreases |a|
  {
    if a == [] {
      assert a + b == b;
    } else {
      hide OpenTimes;
      assert a + b == [a[0]] + (a[1..] + b) && a == [a[0]] + a[1..];
      OpenTimesUnfolds(a[0], a[1..] + b);
      OpenTimesUnfolds(a[0], a[1..]);
      OpenTimesInOrder(a[1..], b);
    }
  }

  function Longer(a: U32, b: U32): U32 {
    if a >= b then a else b
  }

  /** Both deadlines of the request fit in 32 bits. */
  predicate DeadlinesFit(open: UnconvertedOpenTime, globalPeriod: U32) {
    && open.parachainOpen + Longer(globalPeriod, open.period) <= U32_MAX
    && open.bitcoinOpen + (Longer(globalPeriod, open.period) + 49) / 50 <= U32_MAX
  }

  /** The listed request stands for the open one: its deadlines are the longer period away on either clock. */
  predicate StandsFor(r: ActiveRequest, open: UnconvertedOpenTime, globalPeriod: U32) {
    && r.id == open.id
    && r.deadline.parachain == open.parachainOpen + Longer(globalPeriod, open.period)
    && r.deadline.bitcoin == open.bitcoinOpen + (Longer(globalPeriod, open.period) + 49) / 50
  }

  lemma DeadlineStandsFor(r: ActiveRequest, open: UnconvertedOpenTime, globalPeriod: U32)
    ensures var deadline := CancelDeadline(open.parachainOpen, open.bitcoinOpen, globalPeriod, open.period);
            && (deadline.Ok? <==> DeadlinesFit(open, globalPeriod))
            && (r.id == open.id && deadline == Ok(r.deadline) <==> DeadlinesFit(open, globalPeriod) && StandsFor(r, open, globalPeriod))
  {
    RoundedUpExact(Longer(globalPeriod, open.period));
    assert BitcoinBlocksRoundedUp(Longer(globalPeriod, open.period)).value == (Longer(globalPeriod, open.period) + 49) / 50;
  }

  /**
   A refresh succeeds exactly when the requests are answered and, if any is pending, the period is answered
   and all their deadlines fit; it then lists just the pending requests, in order.
   */
  lemma GetOpenRequestsExact(answers: Answers)
    ensures var found := GetOpenRequests(answers);
            && (found.Some? <==>
                && answers.requests.Some?
                && var open := OpenTimes(answers.requests.value);
                   open == [] || (answers.period.Some? && forall i :: 0 <= i < |open| ==> DeadlinesFit(open[i], answers.period.value)))
            && (found.Some? ==>
                  var open := OpenTimes(answers.requests.value);
                  && |found.value| == |open|
                  && forall i :: 0 <= i < |open| ==> answers.period.Some? && StandsFor(found.value[i], open[i], answers.period.value))
  {
    if answers.requests.Some? && answers.period.Some? {
      var open, period := OpenTimes(answers.requests.value), answers.period.value;
      ConvertExact(open, period);
      forall i | 0 <= i < |open|
        ensures CancelDeadline(open[i].parachainOpen, open[i].bitcoinOpen, period, open[i].period).Ok? <==> DeadlinesFit(open[i], period)
        ensures Convert(open, period).Ok? ==> StandsFor(Convert(open, period).value[i], open[i], period)
      {
        DeadlineStandsFor(ActiveRequest(open[i].id, Deadline(0, 0)), open[i], period);
        if Convert(open, period).Ok? {
          DeadlineStandsFor(Convert(open, period).value[i], open[i], period);
        }
      }
    }
  }

  lemma {:induction false} ConvertExact(open: seq<UnconvertedOpenTime>, globalPeriod: U32)
    ensures var r := Convert(open, globalPeriod);
            && (r.Ok? <==> forall i :: 0 <= i < |open| ==>
                  CancelDeadline(open[i].parachainOpen, open[i].bitcoinOpen, globalPeriod, open[i].period).Ok?)
            && (r.Ok? ==> && |r.value| == |open|
                          && forall i :: 0 <= i < |open| ==>
                               && r.value[i].id == open[i].id
                               && CancelDeadline(open[i].parachainOpen, open[i].bitcoinOpen, globalPeriod, open[i].period)
                                  == Ok(r.value[i].deadline))
  {
    if open != [] {
      var head, tail := open[0], open[1..];
      ConvertExact(tail, globalPeriod);
      var r := Convert(open, globalPeriod);
      if !CancelDeadline(head.parachainOpen, head.bitcoinOpen, globalPeriod, head.period).Ok? {
        assert r.Err?;
      } else if Convert(tail, globalPeriod).Err? {
        var i :| 0 <= i < |tail| && !CancelDeadline(tail[i].parachainOpen, tail[i].bitcoinOpen, globalPeriod, tail[i].period).Ok?;
        assert open[i + 1] == tail[i];
      } else {
        forall i | 0 <= i < |open|
          ensures && r.value[i].id == open[i].id
                  && CancelDeadline(open[i].parachainOpen, open[i].bitcoinOpen, globalPeriod, open[i].period)
                     == Ok(r.value[i].deadline)
        {
          assert i > 0 ==> open[i] == tail[i - 1] && r.value[i] == Convert(tail, globalPeriod).value[i - 1];
        }
      }
    }
  }

  // ---------------------------------------------------------------- draining and cancelling

  /** The expired requests of the list, or those not expired, in list order. */
  function Drained(active: seq<ActiveRequest>, parachainHeight: nat, bitcoinHeight: nat, expired: bool): seq<ActiveRequest> {
    if active == [] then []
    else
      var last := active[|active| - 1];
      Drained(active[..|active| - 1], parachainHeight, bitcoinHeight, expired)
      + (if Expired(last.deadline, parachainHeight, bitcoinHeight) == expired then [last] else [])
  }

  lemma NothingDrained(parachainHeight: nat, bitcoinHeight: nat)
    ensures forall expired :: Drained([], parachainHeight, bitcoinHeight, expired) == []
  {
  }

  /** Removing or keeping the element right behind `front`. */
  lemma AtFront(front: seq<ActiveRequest>, rest: seq<ActiveRequest>)
    requires rest != []
    ensures (front + rest)[|front|] == rest[0]
    ensures (front + rest)[..|front|] + (front + rest)[|front| + 1..] == front + rest[1..]
    ensures front + rest == front + [rest[0]] + rest[1..]
  {
  }

  lemma DrainedOneMore(active: seq<ActiveRequest>, j: nat, parachainHeight: nat, bitcoinHeight: nat, expired: bool)
    requires j < |active|
    ensures Drained(active[..j + 1], parachainHeight, bitcoinHeight, expired) ==
            Drained(active[..j], parachainHeight, bitcoinHeight, expired)
            + (if Expired(active[j].deadline, parachainHeight, bitcoinHeight) == expired then [active[j]] else [])
  {
    assert active[..j + 1][..j] == active[..j];
  }

  lemma {:induction false} DrainedExact(
    active: seq<ActiveRequest>, parachainHeight: nat, bitcoinHeight: nat, expired: bool, r: ActiveRequest)
    ensures r in Drained(active, parachainHeight, bitcoinHeight, expired) <==>
            r in active && Expired(r.deadline, parachainHeight, bitcoinHeight) == expired
  {
    if active != [] {
      var init, last := active[..|active| - 1], active[|active| - 1];
      DrainedExact(init, parachainHeight, bitcoinHeight, expired, r);
      assert active == init + [last];
    }
  }

  /** Filtering keeps the order and the number of times a request is listed. */
  lemma {:induction false} DrainedInOrder(
    a: seq<ActiveRequest>, b: seq<ActiveRequest>, parachainHeight: nat, bitcoinHeight: nat, expired: bool)
    ensures Drained(a + b, parachainHeight, bitcoinHeight, expired) ==
            Drained(a, parachainHeight, bitcoinHeight, expired) + Drained(b, parachainHeight, bitcoinHeight, expired)
    decreases |b|
  {
    if b == [] {
      assert a + b == a;
    } else {
      assert (a + b)[..|a + b| - 1] == a + b[..|b| - 1];
      DrainedInOrder(a, b[..|b| - 1], parachainHeight, bitcoinHeight, expired);
    }
  }

  /** Cancel in order up to the first failure: the calls made, the failed one included, and whether the list is still good. */
  function CancelAll(expired: seq<ActiveRequest>, failing: set<RequestId>): (seq<ActiveRequest>, ListState) {
    if expired == [] then ([], Valid)
    else if expired[0].id in failing then ([expired[0]], Invalid)
    else
      var (rest, state) := CancelAll(expired[1..], failing);
      ([expired[0]] + rest, state)
  }

  lemma {:induction false} CancelAllExact(expired: seq<ActiveRequest>, failing: set<RequestId>)
    ensures var (called, state) := CancelAll(expired, failing);
            && called <= expired
            && (forall i :: 0 <= i < |called| - 1 ==> called[i].id !in failing)
            && (state == Valid ==> called == expired && forall i :: 0 <= i < |called| ==> called[i].id !in failing)
            && (state == Invalid ==> called != [] && called[|called| - 1].id in failing)
  {
    if expired != [] && expired[0].id !in failing {
      CancelAllExact(expired[1..], failing);
    }
  }

  // ---------------------------------------------------------------- one event

  datatype State = State(parachainHeight: nat, bitcoinHeight: nat, active: seq<ActiveRequest>, list: ListState)

  function Refresh(s: State, answers: Answers): State {
    if s.list == Valid then s
    else
      match GetOpenRequests(answers)
      case Some(active) => s.(active := active)
      case None => s.(active := [])
  }

  function Without(active: seq<ActiveRequest>, id: RequestId): seq<ActiveRequest> {
    if active == [] then []
    else
      var last := active[|active| - 1];
      Without(active[..|active| - 1], id) + (if last.id != id then [last] else [])
  }

  lemma {:induction false} WithoutExact(active: seq<ActiveRequest>, id: RequestId, r: ActiveRequest)
    ensures r in Without(active, id) <==> r in active && r.id != id
  {
    if active != [] {
      var init, last := active[..|active| - 1], active[|active| - 1];
      WithoutExact(init, id, r);
      assert active == init + [last];
    }
  }

  function CancelExpired(s: State, failing: set<RequestId>): (State, seq<ActiveRequest>) {
    var expired := Drained(s.active, s.parachainHeight, s.bitcoinHeight, true);
    var (called, list) := CancelAll(expired, failing);
    (s.(active := Drained(s.active, s.parachainHeight, s.bitcoinHeight, false), list := list), called)
  }

  /** The state after an event, and the requests cancel was called for while handling it. */
  function Process(s: State, event: Event, answers: Answers): (State, seq<ActiveRequest>) {
    var latest := Refresh(s, answers);
    match event
    case ParachainBlock(h) => CancelExpired(latest.(parachainHeight := h), answers.failing)
    case BitcoinBlock(h) => CancelExpired(latest.(bitcoinHeight := h), answers.failing)
    case Executed(id) => (latest.(active := Without(latest.active, id), list := Valid), [])
    case Opened => (latest.(list := Invalid), [])
  }

  class CancellationScheduler {
    var parachainHeight: nat
    var bitcoinHeight: nat
    var activeRequests: seq<ActiveRequest>
    var listState: ListState

    constructor (parachainHeight: nat, bitcoinHeight: nat)
      ensures Value() == State(parachainHeight, bitcoinHeight, [], Invalid)
    {
      this.parachainHeight, this.bitcoinHeight := parachainHeight, bitcoinHeight;
      activeRequests, listState := [], Invalid;
    }

    ghost function Value(): State
      reads this
    {
      State(parachainHeight, bitcoinHeight, activeRequests, listState)
    }

    method DrainExpired() returns (expired: seq<ActiveRequest>)
      modifies this`activeRequests
      ensures expired == Drained(old(activeRequests), parachainHeight, bitcoinHeight, true)
      ensures activeRequests == Drained(old(activeRequests), parachainHeight, bitcoinHeight, false)
    {
      hide Expired, Drained;
      expired := [];
      var i := 0;
      ghost var was, j, kept := activeRequests, 0, [];
      NothingDrained(parachainHeight, bitcoinHeight);
      while i != |activeRequests|
        invariant i == |kept| && 0 <= j <= |was| && activeRequests == kept + was[j..]
        invariant kept == Drained(was[..j], parachainHeight, bitcoinHeight, false)
        invariant expired == Drained(was[..j], parachainHeight, bitcoinHeight, true)
        decreases |activeRequests| - i
      {
        AtFront(kept, was[j..]);
        DrainedOneMore(was, j, parachainHeight, bitcoinHeight, true);
        DrainedOneMore(was, j, parachainHeight, bitcoinHeight, false);
        var request := activeRequests[i];
        if Expired(request.deadline, parachainHeight, bitcoinHeight) {
          activeRequests := activeRequests[..i] + activeRequests[i + 1..];
          expired := expired + [request];
        } else {
          i := i + 1;
          kept := kept + [request];
        }
        j := j + 1;
      }
      assert was[..j] == was;
    }

    method CancelRequests(failing: set<RequestId>) returns (called: seq<ActiveRequest>)
      modifies this`activeRequests, this`listState
      ensures (Value(), called) == CancelExpired(old(Value()), failing)
    {
      var cancellable := DrainExpired();
      called := [];
      assert cancellable[0..] == cancellable;
      for i := 0 to |cancellable|
        invariant CancelAll(cancellable, failing).0 == called + CancelAll(cancellable[i..], failing).0
        invariant CancelAll(cancellable, failing).1 == CancelAll(cancellable[i..], failing).1
      {
        assert cancellable[i..][1..] == cancellable[i + 1..];
        called := called + [cancellable[i]];
        if cancellable[i].id in failing {
          listState := Invalid;
          return;
        }
      }
      assert called + [] == called;
      listState := Valid;
    }

    method ProcessEvent(event: Event, answers: Answers) returns (called: seq<ActiveRequest>)
      modifies this
      ensures (Value(), called) == Process(old(Value()), event, answers)
    {
      if listState == Invalid {
        var found := GetOpenRequests(answers);
        activeRequests := if found.Some? then found.value else [];
      }
      called := [];
      match event {
        case ParachainBlock(h) =>
          parachainHeight := h;
          called := CancelRequests(answers.failing);
        case BitcoinBlock(h) =>
          bitcoinHeight := h;
          called := CancelRequests(answers.failing);
        case Executed(id) =>
          activeRequests := Without(activeRequests, id);
          listState := Valid;
        case Opened =>
          listState := Invalid;
      }
    }
  }

  // ---------------------------------------------------------------- whole runs

  datatype Input = Input(event: Event, answers: Answers)

  /** What has happened since the last refresh that succeeded. */
  datatype History = History(
    open: seq<UnconvertedOpenTime>, period: Option<U32>, executed: set<RequestId>, cancelled: set<RequestId>)

  predicate Refreshes(s: State, answers: Answers) {
    s.list == Invalid && GetOpenRequests(answers).Some?
  }

  /** The ids whose cancel call went through. */
  ghost function Succeeded(called: seq<ActiveRequest>, failing: set<RequestId>): set<RequestId> {
    set r | r in called && r.id !in failing :: r.id
  }

  ghost function Remember(h: History, s: State, input: Input): History {
    var base := if Refreshes(s, input.answers)
                then History(OpenTimes(input.answers.requests.value), input.answers.period, {}, {})
                else h;
    var called := Process(s, input.event, input.answers).1;
    base.(executed := base.executed + (if input.event.Executed? then {input.event.id} else {}),
          cancelled := base.cancelled + Succeeded(called, input.answers.failing))
  }

  ghost predicate Listed(active: seq<ActiveRequest>, id: RequestId) {
    exists r :: r in active && r.id == id
  }

  /** Every request pending at the last refresh is still listed, executed, cancelled, or the list is invalid. */
  ghost predicate NothingLost(s: State, h: History) {
    s.list == Valid ==>
      forall i :: 0 <= i < |h.open| ==>
        Listed(s.active, h.open[i].id) || h.open[i].id in h.executed || h.open[i].id in h.cancelled
  }

  /** The request's deadlines come from the longer of the global period and its own. */
  ghost predicate FromOpen(r: ActiveRequest, h: History) {
    exists i :: && 0 <= i < |h.open| && h.period.Some? && h.open[i].id == r.id
                && CancelDeadline(h.open[i].parachainOpen, h.open[i].bitcoinOpen, h.period.value, h.open[i].period)
                   == Ok(r.deadline)
  }

  ghost predicate AllFromOpen(active: seq<ActiveRequest>, h: History) {
    forall r :: r in active ==> FromOpen(r, h)
  }

  lemma RefreshedIsComplete(answers: Answers, h: History)
    requires GetOpenRequests(answers).Some?
    requires h.open == OpenTimes(answers.requests.value) && h.period == answers.period
    ensures var active := GetOpenRequests(answers).value;
            && AllFromOpen(active, h)
            && forall i :: 0 <= i < |h.open| ==> Listed(active, h.open[i].id)
  {
    if h.open != [] {
      ConvertExact(h.open, answers.period.value);
      var active := GetOpenRequests(answers).value;
      forall i | 0 <= i < |h.open|
        ensures Listed(active, h.open[i].id)
      {
        assert active[i] in active;
      }
    }
  }

  /** The ids accounted for, given what is listed: the core of `NothingLost` while the list is valid. */
  ghost predicate Accounted(active: seq<ActiveRequest>, h: History) {
    forall i :: 0 <= i < |h.open| ==>
      Listed(active, h.open[i].id) || h.open[i].id in h.executed || h.open[i].id in h.cancelled
  }

  lemma CancelKeepsAccounted(s: State, failing: set<RequestId>, h: History)
    requires Accounted(s.active, h) && AllFromOpen(s.active, h)
    ensures var (s', called) := CancelExpired(s, failing);
            && AllFromOpen(s'.active, h)
            && (forall r :: r in called ==> FromOpen(r, h) && Expired(r.deadline, s.parachainHeight, s.bitcoinHeight))
            && (s'.list == Valid ==>
                  && Accounted(s'.active, h.(cancelled := h.cancelled + Succeeded(called, failing)))
                  && forall r :: r in s'.active ==> !Expired(r.deadline, s.parachainHeight, s.bitcoinHeight))
  {
    var (s', called) := CancelExpired(s, failing);
    var expired := Drained(s.active, s.parachainHeight, s.bitcoinHeight, true);
    CancelAllExact(expired, failing);
    forall r
      ensures r in expired <==> r in s.active && Expired(r.deadline, s.parachainHeight, s.bitcoinHeight)
      ensures r in s'.active <==> r in s.active && !Expired(r.deadline, s.parachainHeight, s.bitcoinHeight)
    {
      DrainedExact(s.active, s.parachainHeight, s.bitcoinHeight, true, r);
      DrainedExact(s.active, s.parachainHeight, s.bitcoinHeight, false, r);
    }
    forall r | r in called
      ensures r in expired
    {
      var k :| 0 <= k < |called| && called[k] == r;
      assert expired[k] == r;
    }
    if s'.list == Valid {
      forall id | Listed(s.active, id)
        ensures Listed(s'.active, id) || id in Succeeded(called, failing)
      {
        var r :| r in s.active && r.id == id;
        assert r in s'.active || r in called;
      }
    }
  }

  lemma ExecuteKeepsAccounted(active: seq<ActiveRequest>, id: RequestId, h: History)
    requires Accounted(active, h) && AllFromOpen(active, h)
    ensures AllFromOpen(Without(active, id), h)
    ensures Accounted(Without(active, id), h.(executed := h.executed + {id}))
  {
    forall r
      ensures r in Without(active, id) <==> r in active && r.id != id
    {
      WithoutExact(active, id, r);
    }
    forall i | 0 <= i < |h.open| && Listed(active, h.open[i].id) && h.open[i].id != id
      ensures Listed(Without(active, id), h.open[i].id)
    {
      var r :| r in active && r.id == h.open[i].id;
      assert r in Without(active, id);
    }
  }

  /** Adding to a history that only has different bookkeeping keeps where requests come from. */
  lemma FromOpenSame(active: seq<ActiveRequest>, h: History, h': History)
    requires AllFromOpen(active, h) && h'.open == h.open && h'.period == h.period
    ensures AllFromOpen(active, h')
  {
    forall r | r in active
      ensures FromOpen(r, h')
    {
      assert FromOpen(r, h);
    }
  }

  /** What is listed while the event is handled: the list as it is, or refreshed, or nothing after a failed refresh. */
  function ListDuring(s: State, answers: Answers): seq<ActiveRequest> {
    if s.list == Valid then s.active
    else if GetOpenRequests(answers).Some? then GetOpenRequests(answers).value
    else []
  }

  /**
   One event in full. Only the clock of the event moves; a block event removes the requests past both clocks and
   calls cancel for these only, for all of them if the list stays valid, which it does when no call fails;
   `Executed` removes that request and makes the list valid, `Opened` removes nothing and makes it invalid.
   */
  lemma EventExact(s: State, event: Event, answers: Answers)
    ensures var (s', called) := Process(s, event, answers);
            var during, isBlock := ListDuring(s, answers), event.ParachainBlock? || event.BitcoinBlock?;
            && s'.parachainHeight == (if event.ParachainBlock? then event.parachainHeight else s.parachainHeight)
            && s'.bitcoinHeight == (if event.BitcoinBlock? then event.bitcoinHeight else s.bitcoinHeight)
            && (forall r :: r in s'.active <==>
                  && r in during
                  && !(isBlock && s'.parachainHeight > r.deadline.parachain && s'.bitcoinHeight > r.deadline.bitcoin)
                  && !(event.Executed? && r.id == event.id))
            && (forall r :: r in called ==>
                  isBlock && r in during && s'.parachainHeight > r.deadline.parachain && s'.bitcoinHeight > r.deadline.bitcoin)
            && (s'.list == Valid <==> event.Executed? || (isBlock && forall r :: r in called ==> r.id !in answers.failing))
            && (isBlock && s'.list == Valid ==>
                  forall r :: r in during && r !in s'.active ==> r in called)
  {
    hide GetOpenRequests;
    match event
    case ParachainBlock(height) =>
      CancelExpiredExact(Refresh(s, answers).(parachainHeight := height), answers.failing);
    case BitcoinBlock(height) =>
      CancelExpiredExact(Refresh(s, answers).(bitcoinHeight := height), answers.failing);
    case Executed(id) =>
      forall r
        ensures r in Without(ListDuring(s, answers), id) <==> r in ListDuring(s, answers) && r.id != id
      {
        WithoutExact(ListDuring(s, answers), id, r);
      }
    case Opened =>
  }

  lemma CancelExpiredExact(s: State, failing: set<RequestId>)
    ensures var (s', called) := CancelExpired(s, failing);
            && s'.parachainHeight == s.parachainHeight && s'.bitcoinHeight == s.bitcoinHeight
            && (forall r :: r in s'.active <==> r in s.active && !Expired(r.deadline, s.parachainHeight, s.bitcoinHeight))
            && (forall r :: r in called ==> r in s.active && Expired(r.deadline, s.parachainHeight, s.bitcoinHeight))
            && (s'.list == Valid <==> forall r :: r in called ==> r.id !in failing)
            && (s'.list == Valid ==>
                  forall r :: r in s.active && Expired(r.deadline, s.parachainHeight, s.bitcoinHeight) ==> r in called)
  {
    hide Expired, Drained, CancelAll;
    var (s', called) := CancelExpired(s, failing);
    var expired := Drained(s.active, s.parachainHeight, s.bitcoinHeight, true);
    CancelAllExact(expired, failing);
    forall r
      ensures r in expired <==> r in s.active && Expired(r.deadline, s.parachainHeight, s.bitcoinHeight)
      ensures r in s'.active <==> r in s.active && !Expired(r.deadline, s.parachainHeight, s.bitcoinHeight)
    {
      DrainedExact(s.active, s.parachainHeight, s.bitcoinHeight, true, r);
      DrainedExact(s.active, s.parachainHeight, s.bitcoinHeight, false, r);
    }
    forall r | r in called
      ensures r in expired
    {
      var k :| 0 <= k < |called| && called[k] == r;
      assert expired[k] == r;
    }
    assert s'.list == Invalid ==> called[|called| - 1] in called;
  }

  /** Whatever the run before, what is listed after an event and what it cancels comes from the last refresh. */
  lemma EventFromOpen(s: State, h: History, input: Input)
    requires AllFromOpen(s.active, h)
    ensures var (s', called) := Process(s, input.event, input.answers);
            var h' := Remember(h, s, input);
            AllFromOpen(s'.active, h') && AllFromOpen(called, h')
  {
    var h' := Remember(h, s, input);
    var during := ListDuring(s, input.answers);
    assert AllFromOpen(during, h') by {
      if Refreshes(s, input.answers) {
        RefreshedIsComplete(input.answers, h');
      } else {
        FromOpenSame(s.active, h, h');
      }
    }
    EventExact(s, input.event, input.answers);
  }

  ghost predicate Sound(s: State, h: History) {
    NothingLost(s, h) && AllFromOpen(s.active, h)
  }

  /** The ids the history already accounts for, whatever is listed. */
  ghost predicate AllAccounted(h: History) {
    forall i :: 0 <= i < |h.open| ==> h.open[i].id in h.executed || h.open[i].id in h.cancelled
  }

  /**
   The event forgets no request: the list is good or is refreshed, or stays marked for a refresh, or there is
   nothing left that a failed refresh could forget.
   */
  ghost predicate Keeps(s: State, h: History, input: Input) {
    || s.list == Valid || Refreshes(s, input.answers) || input.event.Opened?
    || AllAccounted(Remember(h, s, input))
  }

  /** What one event does in any case: cancel is called only past both deadlines, and a block event leaves no expired request. */
  ghost predicate CancelsRightly(s': State, called: seq<ActiveRequest>, h': History, event: Event) {
    && (forall r :: r in called ==> FromOpen(r, h') && Expired(r.deadline, s'.parachainHeight, s'.bitcoinHeight))
    && ((event.ParachainBlock? || event.BitcoinBlock?) && s'.list == Valid ==>
          forall r :: r in s'.active ==> !Expired(r.deadline, s'.parachainHeight, s'.bitcoinHeight))
  }

  /** A refresh that fails empties the list; what is lost is then what the history does not account for. */
  lemma FailedRefreshExact(s: State, h: History, input: Input)
    requires s.list == Invalid && GetOpenRequests(input.answers).None?
    ensures var (s', called) := Process(s, input.event, input.answers);
            var h' := Remember(h, s, input);
            && AllFromOpen(s'.active, h') && CancelsRightly(s', called, h', input.event)
            && (NothingLost(s', h') <==> input.event.Opened? || AllAccounted(h'))
  {
    FailedRefreshForgets(s, input.event, input.answers);
    var s' := Process(s, input.event, input.answers).0;
    forall id
      ensures !Listed(s'.active, id)
    {
    }
  }

  /**
   One event: cancel is called only for requests expired on both clocks, and a block event that ends with a
   valid list leaves no expired request in it. Nothing is lost exactly when the event keeps the requests: a
   refresh that fails loses them unless the event is `Opened` or all of them are executed or cancelled.
   */
  lemma EventLosesNothing(s: State, h: History, input: Input)
    requires Sound(s, h)
    ensures var (s', called) := Process(s, input.event, input.answers);
            var h' := Remember(h, s, input);
            && (Sound(s', h') <==> Keeps(s, h, input))
            && AllFromOpen(s'.active, h') && CancelsRightly(s', called, h', input.event)
            && s'.parachainHeight == (if input.event.ParachainBlock? then input.event.parachainHeight else s.parachainHeight)
            && s'.bitcoinHeight == (if input.event.BitcoinBlock? then input.event.bitcoinHeight else s.bitcoinHeight)
  {
    EventExact(s, input.event, input.answers);
    if s.list == Invalid && GetOpenRequests(input.answers).None? {
      FailedRefreshExact(s, h, input);
    } else {
      RefreshedEventLosesNothing(s, h, input);
    }
  }

  lemma RefreshedEventLosesNothing(s: State, h: History, input: Input)
    requires Sound(s, h)
    requires s.list == Invalid ==> Refreshes(s, input.answers)
    ensures var (s', called) := Process(s, input.event, input.answers);
            var h' := Remember(h, s, input);
            Sound(s', h') && CancelsRightly(s', called, h', input.event)
  {
    var latest := Refresh(s, input.answers);
    var base := h;
    if s.list == Invalid {
      base := History(OpenTimes(input.answers.requests.value), input.answers.period, {}, {});
      RefreshedIsComplete(input.answers, base);
    }
    assert Accounted(latest.active, base) && AllFromOpen(latest.active, base);
    var (s', called) := Process(s, input.event, input.answers);
    var h' := Remember(h, s, input);
    match input.event
    case ParachainBlock(height) =>
      CancelKeepsAccounted(latest.(parachainHeight := height), input.answers.failing, base);
      FromOpenSame(s'.active, base, h');
      FromOpenSame(called, base, h');
    case BitcoinBlock(height) =>
      CancelKeepsAccounted(latest.(bitcoinHeight := height), input.answers.failing, base);
      FromOpenSame(s'.active, base, h');
      FromOpenSame(called, base, h');
    case Executed(id) =>
      ExecuteKeepsAccounted(latest.active, id, base);
      FromOpenSame(s'.active, base, h');
    case Opened =>
      FromOpenSame(s'.active, base, h');
  }

  ghost function Run(s: State, h: History, inputs: seq<Input>): (State, History)
    decreases |inputs|
  {
    if inputs == [] then (s, h)
    else Run(Process(s, inputs[0].event, inputs[0].answers).0, Remember(h, s, inputs[0]), inputs[1..])
  }

  /** Every event of the run keeps the requests. */
  ghost predicate AlwaysKeeps(s: State, h: History, inputs: seq<Input>)
    decreases |inputs|
  {
    inputs == [] ||
    (Keeps(s, h, inputs[0])
     && AlwaysKeeps(Process(s, inputs[0].event, inputs[0].answers).0, Remember(h, s, inputs[0]), inputs[1..]))
  }

  /** Nothing is lost after any event of the run. */
  ghost predicate NeverLoses(s: State, h: History, inputs: seq<Input>)
    decreases |inputs|
  {
    && NothingLost(s, h)
    && (inputs != [] ==>
          NeverLoses(Process(s, inputs[0].event, inputs[0].answers).0, Remember(h, s, inputs[0]), inputs[1..]))
  }

  lemma {:induction false} RunLosesNothing(s: State, h: History, inputs: seq<Input>)
    requires Sound(s, h)
    ensures NeverLoses(s, h, inputs) <==> AlwaysKeeps(s, h, inputs)
    ensures AlwaysKeeps(s, h, inputs) ==> Sound(Run(s, h, inputs).0, Run(s, h, inputs).1)
    decreases |inputs|
  {
    hide Process, Remember, NothingLost, AllFromOpen, Keeps;
    if inputs != [] {
      var s', h' := Process(s, inputs[0].event, inputs[0].answers).0, Remember(h, s, inputs[0]);
      EventLosesNothing(s, h, inputs[0]);
      if Keeps(s, h, inputs[0]) {
        RunLosesNothing(s', h', inputs[1..]);
      }
    }
  }

  /**
   Cancellation loses nothing, from the scheduler's start and over every sequence of events, exactly when
   every event keeps the requests; refreshes that all succeed are enough.
   */
  lemma CancellationLosesNothing(parachainHeight: nat, bitcoinHeight: nat, inputs: seq<Input>)
    ensures var start, none := State(parachainHeight, bitcoinHeight, [], Invalid), History([], None, {}, {});
            && (NeverLoses(start, none, inputs) <==> AlwaysKeeps(start, none, inputs))
            && (AlwaysKeeps(start, none, inputs) ==>
                  var (s, h) := Run(start, none, inputs); NothingLost(s, h) && AllFromOpen(s.active, h))
            && ((forall k :: 0 <= k < |inputs| ==> GetOpenRequests(inputs[k].answers).Some?) ==>
                  AlwaysKeeps(start, none, inputs))
  {
    var start, none := State(parachainHeight, bitcoinHeight, [], Invalid), History([], None, {}, {});
    RunLosesNothing(start, none, inputs);
    if forall k :: 0 <= k < |inputs| ==> GetOpenRequests(inputs[k].answers).Some? {
      SuccessKeeps(start, none, inputs);
    }
  }

  lemma {:induction false} SuccessKeeps(s: State, h: History, inputs: seq<Input>)
    requires forall k :: 0 <= k < |inputs| ==> GetOpenRequests(inputs[k].answers).Some?
    ensures AlwaysKeeps(s, h, inputs)
    decreases |inputs|
  {
    hide Process, Remember, GetOpenRequests;
    if inputs != [] {
      assert GetOpenRequests(inputs[0].answers).Some?;
      SuccessKeeps(Process(s, inputs[0].event, inputs[0].answers).0, Remember(h, s, inputs[0]), inputs[1..]);
    }
  }

  /** The last height a run announced on each clock; the one it started with if there was none. */
  function LastParachainHeight(initial: nat, inputs: seq<Input>): nat {
    if inputs == [] then initial
    else
      var last := inputs[|inputs| - 1].event;
      if last.ParachainBlock? then last.parachainHeight else LastParachainHeight(initial, inputs[..|inputs| - 1])
  }

  function LastBitcoinHeight(initial: nat, inputs: seq<Input>): nat {
    if inputs == [] then initial
    else
      var last := inputs[|inputs| - 1].event;
      if last.BitcoinBlock? then last.bitcoinHeight else LastBitcoinHeight(initial, inputs[..|inputs| - 1])
  }

  lemma {:induction false} RunOneMore(s: State, h: History, inputs: seq<Input>, input: Input)
    ensures var (s', h') := Run(s, h, inputs);
            Run(s, h, inputs + [input]) == (Process(s', input.event, input.answers).0, Remember(h', s', input))
    decreases |inputs|
  {
    hide Process, Remember;
    if inputs == [] {
      assert (inputs + [input])[1..] == [];
    } else {
      assert (inputs + [input])[1..] == inputs[1..] + [input];
      RunOneMore(Process(s, inputs[0].event, inputs[0].answers).0, Remember(h, s, inputs[0]), inputs[1..], input);
    }
  }

  /** After any run the heights are the last ones announced, and everything listed comes from the last refresh. */
  lemma {:induction false} RunHeights(s: State, h: History, inputs: seq<Input>)
    requires AllFromOpen(s.active, h)
    ensures var (s', h') := Run(s, h, inputs);
            && s'.parachainHeight == LastParachainHeight(s.parachainHeight, inputs)
            && s'.bitcoinHeight == LastBitcoinHeight(s.bitcoinHeight, inputs)
            && AllFromOpen(s'.active, h')
    decreases |inputs|
  {
    hide Process, Remember, AllFromOpen;
    if inputs != [] {
      var init, last := inputs[..|inputs| - 1], inputs[|inputs| - 1];
      assert inputs == init + [last];
      RunHeights(s, h, init);
      RunOneMore(s, h, init, last);
      var (mid, hMid) := Run(s, h, init);
      EventExact(mid, last.event, last.answers);
      EventFromOpen(mid, hMid, last);
    }
  }

  /** Both the global and the request's own period have passed since it was opened, on the announced clocks. */
  predicate PeriodsPassed(open: UnconvertedOpenTime, globalPeriod: U32, parachainHeight: nat, bitcoinHeight: nat) {
    && parachainHeight > open.parachainOpen + globalPeriod && parachainHeight > open.parachainOpen + open.period
    && bitcoinHeight > open.bitcoinOpen + (globalPeriod + 49) / 50
    && bitcoinHeight > open.bitcoinOpen + (open.period + 49) / 50
  }

  /**
   Nothing is cancelled early, over every sequence of events, refreshed or not: cancel is called only for a
   request that was pending at the last refresh, and only when the last announced height of either clock is
   past the longer of both periods since the request was opened.
   */
  lemma NothingIsCancelledEarly(parachainHeight: nat, bitcoinHeight: nat, inputs: seq<Input>, input: Input, r: ActiveRequest)
    requires var (s, h) := Run(State(parachainHeight, bitcoinHeight, [], Invalid), History([], None, {}, {}), inputs);
             r in Process(s, input.event, input.answers).1
    ensures var (s', h') := Run(State(parachainHeight, bitcoinHeight, [], Invalid), History([], None, {}, {}), inputs + [input]);
            exists open :: && open in h'.open && h'.period.Some? && open.id == r.id
                           && PeriodsPassed(open, h'.period.value, LastParachainHeight(parachainHeight, inputs + [input]),
                                            LastBitcoinHeight(bitcoinHeight, inputs + [input]))
  {
    hide Process, Remember;
    var start, none := State(parachainHeight, bitcoinHeight, [], Invalid), History([], None, {}, {});
    var (s, h) := Run(start, none, inputs);
    RunHeights(start, none, inputs);
    RunHeights(start, none, inputs + [input]);
    RunOneMore(start, none, inputs, input);
    var h' := Remember(h, s, input);
    EventExact(s, input.event, input.answers);
    EventFromOpen(s, h, input);
    assert FromOpen(r, h');
    var i :| && 0 <= i < |h'.open| && h'.open[i].id == r.id
             && CancelDeadline(h'.open[i].parachainOpen, h'.open[i].bitcoinOpen, h'.period.value, h'.open[i].period)
                == Ok(r.deadline);
    DeadlineStandsFor(r, h'.open[i], h'.period.value);
    assert h'.open[i] in h'.open;
  }

  /**
   A refresh that fails empties the list, and the list still counts as valid afterwards unless the event
   was `Opened`: exactly then the requests pending on the parachain are forgotten.
   */
  lemma FailedRefreshForgets(s: State, event: Event, answers: Answers)
    requires s.list == Invalid && GetOpenRequests(answers).None?
    ensures var (s', called) := Process(s, event, answers);
            && s'.active == [] && called == []
            && (s'.list == Invalid <==> event == Opened)
  {
  }
}
