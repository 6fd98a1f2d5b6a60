/**
 Restart recovery: read the mempool and then the chain backwards, hand every open request that some
 transaction already pays to an execution task, and pay only what is left.
 */
module Recovery {
  import opened Wrappers
  import opened Integers
  import opened Transactions
  import opened ReverseStream
  import opened Deadlines

  datatype RequestType = Redeem | Replace

  datatype Request = Request(
    hash: Hash,
    btcHeight: Option<U32>,
    deadline: Option<Deadline>,
    amount: nat,
    payload: Option<Payload>,
    requestType: RequestType)

  /** A redeem or replace request as the parachain stores it. */
  datatype StoredRequest = StoredRequest(
    pending: bool, opentime: U32, btcHeight: U32, period: U32, amount: nat, payload: Option<Payload>)

  type OpenRequests = map<Hash, Request>

  // ---------------------------------------------------------------- collecting open requests

  function ToRequest(hash: Hash, stored: StoredRequest, kind: RequestType, marginMillis: nat): Option<Request> {
    match CalculateDeadline(stored.opentime, stored.btcHeight, stored.period, marginMillis)
    case Ok(deadline) =>
      Some(Request(hash, Some(stored.btcHeight), Some(deadline), stored.amount, stored.payload, kind))
    case Err(_) => None
  }

  /** Pending requests that can be constructed, collected into `acc`; a later entry overwrites an earlier one. */
  function Collect(
    stored: seq<(Hash, StoredRequest)>, kind: RequestType, marginMillis: nat, acc: OpenRequests): OpenRequests
  {
    if stored == [] then acc
    else
      var (hash, request) := stored[0];
      var made := ToRequest(hash, request, kind, marginMillis);
      Collect(stored[1..], kind, marginMillis,
              if request.pending && made.Some? then acc[hash := made.value] else acc)
  }

  function OpenRequestsOf(
    redeems: seq<(Hash, StoredRequest)>, replacements: seq<(Hash, StoredRequest)>, marginMillis: nat): OpenRequests
  {
    Collect(replacements, Replace, marginMillis, Collect(redeems, Redeem, marginMillis, map[]))
  }

  predicate Constructible(stored: StoredRequest, marginMillis: nat) {
    && stored.pending
    && CalculateDeadline(stored.opentime, stored.btcHeight, stored.period, marginMillis).Ok?
  }

  /** Every request is filed under its own id. */
  ghost predicate WellKeyed(open: OpenRequests) {
    forall h :: h in open ==> open[h].hash == h
  }

  ghost predicate ConstructibleIn(stored: seq<(Hash, StoredRequest)>, marginMillis: nat, h: Hash) {
    exists i :: 0 <= i < |stored| && stored[i].0 == h && Constructible(stored[i].1, marginMillis)
  }

  /** The request made from the last constructible entry with its id. */
  ghost predicate MadeFromLast(
    request: Request, stored: seq<(Hash, StoredRequest)>, kind: RequestType, marginMillis: nat)
  {
    exists i :: && 0 <= i < |stored| && stored[i].0 == request.hash && stored[i].1.pending
                && ToRequest(request.hash, stored[i].1, kind, marginMillis) == Some(request)
                && !ConstructibleIn(stored[i + 1..], marginMillis, request.hash)
  }

  lemma ConstructibleInFront(stored: seq<(Hash, StoredRequest)>, marginMillis: nat, h: Hash)
    requires stored != []
    ensures ConstructibleIn(stored, marginMillis, h) <==>
            (stored[0].0 == h && Constructible(stored[0].1, marginMillis)) || ConstructibleIn(stored[1..], marginMillis, h)
  {
    if i :| 0 <= i < |stored| && stored[i].0 == h && Constructible(stored[i].1, marginMillis) {
      assert i > 0 ==> stored[1..][i - 1] == stored[i];
    }
    if i :| 0 <= i < |stored[1..]| && stored[1..][i].0 == h && Constructible(stored[1..][i].1, marginMillis) {
      assert stored[i + 1] == stored[1..][i];
    }
  }

  lemma MadeFromLastInTail(request: Request, stored: seq<(Hash, StoredRequest)>, kind: RequestType, marginMillis: nat)
    requires stored != [] && MadeFromLast(request, stored[1..], kind, marginMillis)
    ensures MadeFromLast(request, stored, kind, marginMillis)
  {
    var i :| && 0 <= i < |stored[1..]| && stored[1..][i].0 == request.hash && stored[1..][i].1.pending
             && ToRequest(request.hash, stored[1..][i].1, kind, marginMillis) == Some(request)
             && !ConstructibleIn(stored[1..][i + 1..], marginMillis, request.hash);
    assert stored[i + 1] == stored[1..][i] && stored[i + 2..] == stored[1..][i + 1..];
  }

  /** Collecting files the last constructible entry of every id, and keeps what it does not overwrite. */
  lemma {:induction false} CollectExact(
    stored: seq<(Hash, StoredRequest)>, kind: RequestType, marginMillis: nat, acc: OpenRequests, h: Hash)
    ensures var open := Collect(stored, kind, marginMillis, acc);
            && (h in open <==> h in acc || ConstructibleIn(stored, marginMillis, h))
            && (h in open ==>
                  if ConstructibleIn(stored, marginMillis, h) then
                    open[h].hash == h && MadeFromLast(open[h], stored, kind, marginMillis)
                  else open[h] == acc[h])
  {
    if stored != [] {
      var (hash, request) := stored[0];
      var made := ToRequest(hash, request, kind, marginMillis);
      var acc' := if request.pending && made.Some? then acc[hash := made.value] else acc;
      CollectExact(stored[1..], kind, marginMillis, acc', h);
      ConstructibleInFront(stored, marginMillis, h);
      var open := Collect(stored, kind, marginMillis, acc);
      if ConstructibleIn(stored[1..], marginMillis, h) {
        MadeFromLastInTail(open[h], stored, kind, marginMillis);
      } else if ConstructibleIn(stored, marginMillis, h) {
        assert stored[0 + 1..] == stored[1..];
        assert MadeFromLast(open[h], stored, kind, marginMillis);
      }
    }
  }

  /**
   An id is open exactly when one of its entries is pending with a computable deadline; its request is made
   from the last such entry, replacements coming after redeems.
   */
  ghost predicate FiledAsStored(
    open: OpenRequests, redeems: seq<(Hash, StoredRequest)>, replacements: seq<(Hash, StoredRequest)>,
    marginMillis: nat, h: Hash)
  {
    && (h in open <==> ConstructibleIn(redeems, marginMillis, h) || ConstructibleIn(replacements, marginMillis, h))
    && (h in open ==>
          && open[h].hash == h
          && if ConstructibleIn(replacements, marginMillis, h) then
               MadeFromLast(open[h], replacements, Replace, marginMillis)
             else MadeFromLast(open[h], redeems, Redeem, marginMillis))
  }

  lemma OpenRequestsExact(
    redeems: seq<(Hash, StoredRequest)>, replacements: seq<(Hash, StoredRequest)>, marginMillis: nat)
    ensures var open := OpenRequestsOf(redeems, replacements, marginMillis);
            WellKeyed(open) && forall h :: FiledAsStored(open, redeems, replacements, marginMillis, h)
  {
    var open := OpenRequestsOf(redeems, replacements, marginMillis);
    forall h
      ensures FiledAsStored(open, redeems, replacements, marginMillis, h)
    {
      CollectExact(redeems, Redeem, marginMillis, map[], h);
      CollectExact(replacements, Replace, marginMillis, Collect(redeems, Redeem, marginMillis, map[]), h);
    }
    assert forall h :: h in open ==> FiledAsStored(open, redeems, replacements, marginMillis, h);
  }

  /** Whatever the parachain lists under an id is this entry. */
  ghost predicate OnlyEntry(
    redeems: seq<(Hash, StoredRequest)>, replacements: seq<(Hash, StoredRequest)>, h: Hash, entry: StoredRequest)
  {
    && (h, entry) in redeems + replacements
    && forall e :: e in redeems + replacements && e.0 == h ==> e.1 == entry
  }

  /** A pending entry that is alone under its id is open with its own height, amount and address. */
  lemma OpenAsStored(
    redeems: seq<(Hash, StoredRequest)>, replacements: seq<(Hash, StoredRequest)>, marginMillis: nat,
    h: Hash, entry: StoredRequest)
    requires OnlyEntry(redeems, replacements, h, entry) && Constructible(entry, marginMillis)
    ensures var open := OpenRequestsOf(redeems, replacements, marginMillis);
            && h in open && open[h].hash == h && open[h].btcHeight == Some(entry.btcHeight)
            && open[h].amount == entry.amount && open[h].payload == entry.payload
  {
    OpenRequestsExact(redeems, replacements, marginMillis);
    var open := OpenRequestsOf(redeems, replacements, marginMillis);
    var k :| 0 <= k < |redeems + replacements| && (redeems + replacements)[k] == (h, entry);
    if k < |redeems| {
      assert redeems[k] == (h, entry);
    } else {
      assert replacements[k - |redeems|] == (h, entry);
    }
    var stored := if ConstructibleIn(replacements, marginMillis, h) then replacements else redeems;
    var kind := if ConstructibleIn(replacements, marginMillis, h) then Replace else Redeem;
    assert FiledAsStored(open, redeems, replacements, marginMillis, h);
    var i :| 0 <= i < |stored| && stored[i].0 == h && ToRequest(h, stored[i].1, kind, marginMillis) == Some(open[h]);
    assert stored[i] in redeems + replacements;
  }

  /**
   What an open request means for paying: for a pending entry alone under its id, with `m` the margin in
   parachain blocks, the gate refuses exactly when `m` blocks before the end of the period are reached on
   the parachain's clock and, in Bitcoin blocks rounded up, on Bitcoin's. Its kind is that of its list.
   */
  lemma OpenRequestIsGated(
    redeems: seq<(Hash, StoredRequest)>, replacements: seq<(Hash, StoredRequest)>, marginMillis: nat,
    h: Hash, entry: StoredRequest, parachainHeight: nat, nodeHeight: nat)
    requires OnlyEntry(redeems, replacements, h, entry) && Constructible(entry, marginMillis)
    ensures var open, m := OpenRequestsOf(redeems, replacements, marginMillis), marginMillis / 12000;
            && h in open
            && (PaymentRefused(open[h].deadline, parachainHeight, nodeHeight) <==>
                && parachainHeight + m >= entry.opentime + entry.period
                && nodeHeight + (m + 49) / 50 >= entry.btcHeight + (entry.period + 49) / 50)
            && (open[h].requestType == Replace <==> (h, entry) in replacements)
  {
    var open := OpenRequestsOf(redeems, replacements, marginMillis);
    OpenAsStored(redeems, replacements, marginMillis, h, entry);
    assert FiledAsStored(open, redeems, replacements, marginMillis, h) by {
      OpenRequestsExact(redeems, replacements, marginMillis);
    }
    var stored := if ConstructibleIn(replacements, marginMillis, h) then replacements else redeems;
    var kind := if ConstructibleIn(replacements, marginMillis, h) then Replace else Redeem;
    var i :| 0 <= i < |stored| && stored[i].0 == h && ToRequest(h, stored[i].1, kind, marginMillis) == Some(open[h]);
    assert stored[i] in redeems + replacements;
    assert CalculateDeadline(entry.opentime, entry.btcHeight, entry.period, marginMillis) == Ok(open[h].deadline.value);
    GateExact(entry.opentime, entry.btcHeight, entry.period, marginMillis, open[h].deadline.value,
              parachainHeight, nodeHeight);
    if (h, entry) in replacements {
      var k :| 0 <= k < |replacements| && replacements[k] == (h, entry);
    }
    if ConstructibleIn(replacements, marginMillis, h) {
      var k :| 0 <= k < |replacements| && replacements[k].0 == h && Constructible(replacements[k].1, marginMillis);
      assert replacements[k] in redeems + replacements;
    }
  }

  /** Which stored requests can be recovered at all: the pending ones whose sums fit and leave room for the margin. */
  lemma ConstructibleExact(stored: StoredRequest, marginMillis: nat)
    ensures var m := marginMillis / 12000;
            Constructible(stored, marginMillis) <==>
            && stored.pending && m <= U32_MAX && m <= stored.opentime + stored.period <= U32_MAX
            && (m + 49) / 50 <= stored.btcHeight + (stored.period + 49) / 50 <= U32_MAX
  {
    DeadlineExists(stored.opentime, stored.btcHeight, stored.period, marginMillis);
    RoundedUpExact(stored.period);
    if marginMillis / 12000 <= U32_MAX {
      RoundedUpExact(marginMillis / 12000);
    }
  }

  function HeightOf(request: Request): U32 {
    if request.btcHeight.Some? then request.btcHeight.value else U32_MAX
  }

  /** `start` is the lowest Bitcoin height any open request was made at, or none when nothing is open. */
  ghost predicate LowestHeight(open: OpenRequests, start: Option<nat>) {
    && (start.None? <==> open == map[])
    && (start.Some? ==> && (forall h :: h in open ==> start.value <= HeightOf(open[h]))
                        && (exists h :: h in open && HeightOf(open[h]) == start.value))
  }

  method StartHeight(open: OpenRequests) returns (start: Option<nat>)
    ensures LowestHeight(open, start)
  {
    start := None;
    var left := open.Keys;
    while left != {}
      invariant left <= open.Keys
      invariant start.None? ==> left == open.Keys
      invariant start.Some? ==> && (forall h :: h in open && h !in left ==> start.value <= HeightOf(open[h]))
                                && (exists h :: h in open && HeightOf(open[h]) == start.value)
      decreases left
    {
      var h :| h in left;
      if start.None? || HeightOf(open[h]) < start.value {
        start := Some(HeightOf(open[h]));
      }
      left := left - {h};
    }
    if start.None? {
      assert open.Keys == {};
    }
  }

  // ---------------------------------------------------------------- matching

  /** The transaction carries the request's id and pays its address at least its amount. */
  predicate Satisfies(tx: Transaction, request: Request) {
    && GetOpReturn(tx.outputs) == Some(request.hash)
    && request.payload.Some?
    && GetPaymentAmountTo(tx.outputs, request.payload.value).Some?
    && GetPaymentAmountTo(tx.outputs, request.payload.value).value >= request.amount
  }

  function GetRequestForBtcTx(tx: Transaction, open: OpenRequests): Option<Request> {
    match GetOpReturn(tx.outputs)
    case None => None
    case Some(hash) =>
      if hash !in open then None
      else
        var request := open[hash];
        match request.payload
        case None => None
        case Some(payload) =>
          match GetPaymentAmountTo(tx.outputs, payload)
          case None => None
          case Some(paid) => if paid >= request.amount then Some(request) else None
  }

  /** A transaction matches at most one request, and exactly when it satisfies it. */
  lemma MatchExact(tx: Transaction, open: OpenRequests, h: Hash)
    requires WellKeyed(open)
    ensures (GetRequestForBtcTx(tx, open).Some? && GetRequestForBtcTx(tx, open).value.hash == h)
            <==> (h in open && Satisfies(tx, open[h]))
    ensures h in open && Satisfies(tx, open[h]) <==>
            && GetOpReturn(tx.outputs) == Some(h) && h in open && open[h].payload.Some?
            && exists paid :: GetPaymentAmountTo(tx.outputs, open[h].payload.value) == Some(paid) && paid >= open[h].amount
    ensures GetRequestForBtcTx(tx, open).Some? ==>
              var r := GetRequestForBtcTx(tx, open).value; r.hash in open && open[r.hash] == r
  {
  }

  /** A bumped payment still matches the request it was sent for. */
  lemma BumpedPaymentSatisfies(
    request: Request, script: Script, dataFirst: bool, first: Funding, bumps: seq<Funding>, txid: Txid)
    requires |request.hash| == 32
    requires request.payload.Some? && PayloadFromScript(script) == request.payload
    requires ChangeIsOurs(first, request.payload.value)
    requires forall k :: 0 <= k < |bumps| ==> ChangeIsOurs(bumps[k], request.payload.value)
    ensures var sent := Fund(CreateOutputs(script, request.amount, request.hash, dataFirst), first);
            Satisfies(Transaction(txid, BumpAll(sent, request.payload.value, bumps)), request)
  {
    SentPaymentSurvivesBumps(
      script, request.amount, request.hash, dataFirst, request.payload.value, first, bumps);
  }

  function Absorb(open: OpenRequests, tx: Transaction): OpenRequests {
    match GetRequestForBtcTx(tx, open)
    case None => open
    case Some(request) => open - {request.hash}
  }

  /** An execute-existing task: a request and the transaction found for it. */
  datatype Task = Task(request: Request, txid: Txid)

  ghost predicate PaidBy(txs: seq<Result<Transaction, ()>>, request: Request) {
    exists i :: 0 <= i < |txs| && txs[i].Ok? && Satisfies(txs[i].value, request)
  }

  /** The task is for a request that was open, and for a transaction read from the stream that pays it. */
  ghost predicate TaskSound(task: Task, open: OpenRequests, txs: seq<Result<Transaction, ()>>) {
    && task.request.hash in open && open[task.request.hash] == task.request
    && exists i :: && 0 <= i < |txs| && txs[i].Ok? && txs[i].value.txid == task.txid
                   && Satisfies(txs[i].value, task.request)
  }

  ghost function TaskHashes(tasks: seq<Task>): set<Hash> {
    set k | 0 <= k < |tasks| :: tasks[k].request.hash
  }

  /** What the loop has established after reading the first `i` items. */
  ghost predicate Scanned(
    stream: seq<Result<Transaction, ()>>, i: nat, open: OpenRequests, tasks: seq<Task>, unpaid: OpenRequests)
    requires i <= |stream|
  {
    && (forall h :: h in unpaid <==> h in open && !PaidBy(stream[..i], open[h]))
    && (forall h :: h in unpaid ==> unpaid[h] == open[h])
    && (forall k :: 0 <= k < |tasks| ==> TaskSound(tasks[k], open, stream))
    && (forall k, l :: 0 <= k < l < |tasks| ==> tasks[k].request.hash != tasks[l].request.hash)
    && TaskHashes(tasks) == open.Keys - unpaid.Keys
  }

  /**
   The scan loop. It refines a set filter: a request stays to be paid if and only if no transaction of
   the stream satisfies it, and every other request gets exactly one task.
   */
  method ScanTransactions(stream: seq<Result<Transaction, ()>>, open: OpenRequests)
    returns (tasks: seq<Task>, unpaid: OpenRequests)
    requires WellKeyed(open)
    ensures forall h :: h in unpaid <==> h in open && !PaidBy(stream, open[h])
    ensures forall h :: h in unpaid ==> unpaid[h] == open[h]
    ensures forall k :: 0 <= k < |tasks| ==> TaskSound(tasks[k], open, stream)
    ensures forall k, l :: 0 <= k < l < |tasks| ==> tasks[k].request.hash != tasks[l].request.hash
    ensures TaskHashes(tasks) == open.Keys - unpaid.Keys
  {
    tasks, unpaid := [], open;
    for i := 0 to |stream|
      invariant Scanned(stream, i, open, tasks, unpaid)
    {
      if stream[i].Err? {
        ScannedSkip(stream, i, open, tasks, unpaid);
      } else {
        var tx := stream[i].value;
        var found := GetRequestForBtcTx(tx, unpaid);
        if found.None? {
          ScannedSkip(stream, i, open, tasks, unpaid);
        } else {
          ScannedMatch(stream, i, open, tasks, unpaid, found.value);
          unpaid := unpaid - {found.value.hash};
          tasks := tasks + [Task(found.value, tx.txid)];
        }
      }
    }
    assert stream[..|stream|] == stream;
  }

  lemma ScannedSkip(
    stream: seq<Result<Transaction, ()>>, i: nat, open: OpenRequests, tasks: seq<Task>, unpaid: OpenRequests)
    requires WellKeyed(open) && i < |stream| && Scanned(stream, i, open, tasks, unpaid)
    requires stream[i].Err? || GetRequestForBtcTx(stream[i].value, unpaid) == None
    ensures Scanned(stream, i + 1, open, tasks, unpaid)
  {
    forall h
      ensures h in unpaid <==> h in open && !PaidBy(stream[..i + 1], open[h])
    {
      if h in open {
        PaidByOneMore(stream, i, open[h]);
      }
      if stream[i].Ok? {
        MatchExact(stream[i].value, unpaid, h);
      }
    }
  }

  lemma ScannedMatch(
    stream: seq<Result<Transaction, ()>>, i: nat, open: OpenRequests, tasks: seq<Task>, unpaid: OpenRequests,
    found: Request)
    requires WellKeyed(open) && i < |stream| && Scanned(stream, i, open, tasks, unpaid)
    requires stream[i].Ok? && GetRequestForBtcTx(stream[i].value, unpaid) == Some(found)
    ensures Scanned(
              stream, i + 1, open, tasks + [Task(found, stream[i].value.txid)], unpaid - {found.hash})
  {
    var tx := stream[i].value;
    var task := Task(found, tx.txid);
    MatchExact(tx, unpaid, found.hash);
    forall h
      ensures h in unpaid - {found.hash} <==> h in open && !PaidBy(stream[..i + 1], open[h])
    {
      if h in open {
        PaidByOneMore(stream, i, open[h]);
      }
      MatchExact(tx, unpaid, h);
    }
    assert TaskSound(task, open, stream);
    OneMoreTask(tasks, task);
    forall k | 0 <= k < |tasks|
      ensures tasks[k].request.hash != found.hash
    {
      assert tasks[k].request.hash in TaskHashes(tasks);
    }
  }

  lemma OneMoreTask(tasks: seq<Task>, task: Task)
    ensures TaskHashes(tasks + [task]) == TaskHashes(tasks) + {task.request.hash}
  {
    var more := tasks + [task];
    forall h
      ensures h in TaskHashes(more) <==> h in TaskHashes(tasks) + {task.request.hash}
    {
      if h in TaskHashes(tasks) {
        var k :| 0 <= k < |tasks| && tasks[k].request.hash == h;
        assert more[k].request.hash == h;
      }
      if h == task.request.hash {
        assert more[|tasks|].request.hash == h;
      }
    }
  }

  lemma PaidByOneMore(stream: seq<Result<Transaction, ()>>, i: nat, request: Request)
    requires i < |stream|
    ensures PaidBy(stream[..i + 1], request) <==>
            PaidBy(stream[..i], request) || (stream[i].Ok? && Satisfies(stream[i].value, request))
  {
    var longer, shorter := stream[..i + 1], stream[..i];
    assert longer == shorter + [stream[i]];
    if PaidBy(shorter, request) {
      var k :| 0 <= k < |shorter| && shorter[k].Ok? && Satisfies(shorter[k].value, request);
      assert longer[k] == shorter[k];
    }
    if stream[i].Ok? && Satisfies(stream[i].value, request) {
      assert longer[i] == stream[i];
    }
  }
}
