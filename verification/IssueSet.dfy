/**
 The watched issue requests: a two-way map between request ids and deposit addresses, shared by the
 listeners that add and remove requests and the tasks that claim them for a payment.
 */
module IssueSet {
  import opened Wrappers
  import opened Transactions

  type IssueId = nat
  type Address = Payload

  datatype Maps = Maps(forward: map<IssueId, Address>, backward: map<Address, IssueId>)

  /** The two maps are each other's inverse. */
  ghost predicate Inverse(m: Maps) {
    && (forall k :: k in m.forward ==> m.forward[k] in m.backward && m.backward[m.forward[k]] == k)
    && (forall v :: v in m.backward ==> m.backward[v] in m.forward && m.forward[m.backward[v]] == v)
  }

  function Lookup<K, V>(m: map<K, V>, k: K): Option<V> {
    if k in m then Some(m[k]) else None
  }

  function Inserted(m: Maps, k: IssueId, v: Address): Maps {
    Maps(m.forward[k := v], m.backward[v := k])
  }

  function RemovedKey(m: Maps, k: IssueId): Maps {
    if k in m.forward then Maps(m.forward - {k}, m.backward - {m.forward[k]}) else m
  }

  function RemovedValue(m: Maps, v: Address): Maps {
    if v in m.backward then Maps(m.forward - {m.backward[v]}, m.backward - {v}) else m
  }

  class ReversibleHashMap {
    var forward: map<IssueId, Address>
    var backward: map<Address, IssueId>

    constructor ()
      ensures Value() == Maps(map[], map[])
    {
      forward, backward := map[], map[];
    }

    ghost function Value(): Maps
      reads this
    {
      Maps(forward, backward)
    }

    method Insert(k: IssueId, v: Address) returns (k2: Option<IssueId>, k1: Option<Address>)
      modifies this
      ensures Value() == Inserted(old(Value()), k, v)
      ensures k2 == Lookup(old(backward), v) && k1 == Lookup(old(forward), k)
    {
      k1 := Lookup(forward, k);
      forward := forward[k := v];
      k2 := Lookup(backward, v);
      backward := backward[v := k];
    }

    method RemoveKey(k: IssueId) returns (v: Option<Address>)
      modifies this
      ensures Value() == RemovedKey(old(Value()), k) && v == Lookup(old(forward), k)
    {
      v := Lookup(forward, k);
      if v.Some? {
        forward := forward - {k};
        backward := backward - {v.value};
      }
    }

    method RemoveValue(v: Address) returns (k: Option<IssueId>)
      modifies this
      ensures Value() == RemovedValue(old(Value()), v) && k == Lookup(old(backward), v)
    {
      k := Lookup(backward, v);
      if k.Some? {
        backward := backward - {v};
        forward := forward - {k.value};
      }
    }
  }

  /** Inserting keeps the maps inverse exactly when neither side is bound to something else. */
  lemma InsertKeepsInverse(m: Maps, k: IssueId, v: Address)
    requires Inverse(m)
    ensures Inverse(Inserted(m, k, v)) <==> (k in m.forward ==> m.forward[k] == v) && (v in m.backward ==> m.backward[v] == k)
  {
    var m' := Inserted(m, k, v);
    if k in m.forward && m.forward[k] != v {
      assert m.forward[k] in m'.backward && m'.backward[m.forward[k]] == k;
    }
    if v in m.backward && m.backward[v] != k {
      assert m.backward[v] in m'.forward && m'.forward[m.backward[v]] == v;
    }
  }

  lemma RemovalKeepsInverse(m: Maps, k: IssueId, v: Address)
    requires Inverse(m)
    ensures Inverse(RemovedKey(m, k)) && Inverse(RemovedValue(m, v))
  {
  }

  // ---------------------------------------------------------------- claiming a payment

  datatype Issue = Issue(amount: nat, fee: nat)

  /** Addresses the parachain can express. */
  predicate IsBtcAddress(p: Payload) {
    p.PubkeyHash? || p.ScriptHash? || p.version == 0
  }

  /** The first output address that is watched. */
  function FirstWatched(found: seq<(nat, Payload)>, watched: map<Address, IssueId>): (r: Option<(IssueId, Address)>)
    ensures r.Some? ==> r.value.1 in watched && watched[r.value.1] == r.value.0
    ensures r.None? ==> forall i :: 0 <= i < |found| ==> !IsBtcAddress(found[i].1) || found[i].1 !in watched
  {
    if found == [] then None
    else if IsBtcAddress(found[0].1) && found[0].1 in watched then Some((watched[found[0].1], found[0].1))
    else FirstWatched(found[1..], watched)
  }

  /** The transaction pays the address at least amount and fee. */
  predicate PaysInFull(tx: Transaction, address: Address, issue: Issue) {
    && GetPaymentAmountTo(tx.outputs, address).Some?
    && GetPaymentAmountTo(tx.outputs, address).value >= issue.amount + issue.fee
  }

  /** The request a transaction claims, if any; `issues` is what the parachain knows. */
  function Claim(tx: Transaction, m: Maps, issues: map<IssueId, Issue>): (r: Option<(IssueId, Address)>)
    ensures r.Some? ==> && r.value.1 in m.backward && m.backward[r.value.1] == r.value.0
                        && r.value.0 in issues && PaysInFull(tx, r.value.1, issues[r.value.0])
  {
    match FirstWatched(IndexedOutputAddresses(tx.outputs, 0), m.backward)
    case None => None
    case Some((id, address)) =>
      if id !in issues then None
      else
        match GetPaymentAmountTo(tx.outputs, address)
        case None => None
        case Some(transferred) =>
          if transferred < issues[id].amount + issues[id].fee then None else Some((id, address))
  }

  /** Output `i` has a value and pays a watched address. */
  ghost predicate WatchedAt(outs: seq<TxOut>, i: nat, watched: map<Address, IssueId>) {
    && i < |outs| && outs[i].value > 0
    && PayloadFromScript(outs[i].scriptPubkey).Some?
    && var address := PayloadFromScript(outs[i].scriptPubkey).value;
       (address.WitnessProgram? ==> address.version == 0) && address in watched
  }

  /** From output `from` on, `i` is the first that is watched. */
  ghost predicate FirstWatchedAt(outs: seq<TxOut>, from: nat, i: nat, watched: map<Address, IssueId>) {
    from <= i && WatchedAt(outs, i, watched) && forall j :: from <= j < i ==> !WatchedAt(outs, j, watched)
  }

  lemma {:induction false} FirstWatchedExact(outs: seq<TxOut>, from: nat, watched: map<Address, IssueId>)
    requires from <= |outs|
    ensures var r := FirstWatched(IndexedOutputAddresses(outs, from), watched);
            && (r.None? <==> forall i :: from <= i < |outs| ==> !WatchedAt(outs, i, watched))
            && (r.Some? ==> exists i: nat :: FirstWatchedAt(outs, from, i, watched)
                                        && PayloadFromScript(outs[i].scriptPubkey) == Some(r.value.1))
    decreases |outs| - from
  {
    hide PayloadFromScript;
    if from < |outs| {
      FirstWatchedExact(outs, from + 1, watched);
      var found, rest := IndexedOutputAddresses(outs, from), IndexedOutputAddresses(outs, from + 1);
      if found != rest {
        assert found[1..] == rest;
      }
      if WatchedAt(outs, from, watched) {
        assert FirstWatchedAt(outs, from, from, watched);
      } else if FirstWatched(rest, watched).Some? {
        var i: nat :| FirstWatchedAt(outs, from + 1, i, watched)
                 && PayloadFromScript(outs[i].scriptPubkey) == Some(FirstWatched(rest, watched).value.1);
        assert FirstWatchedAt(outs, from, i, watched);
      }
    }
  }

  /** A claim is made exactly for the first watched output's address, if its request is known and is paid in full. */
  lemma ClaimExact(tx: Transaction, m: Maps, issues: map<IssueId, Issue>, id: IssueId, address: Address)
    ensures Claim(tx, m, issues) == Some((id, address)) <==>
            exists i: nat :: && FirstWatchedAt(tx.outputs, 0, i, m.backward)
                        && PayloadFromScript(tx.outputs[i].scriptPubkey) == Some(address)
                        && id == m.backward[address] && id in issues
                        && exists paid :: && GetPaymentAmountTo(tx.outputs, address) == Some(paid)
                                          && paid >= issues[id].amount + issues[id].fee
  {
    hide PayloadFromScript, IsBtcAddress;
    FirstWatchedExact(tx.outputs, 0, m.backward);
    assert forall i: nat, j: nat :: FirstWatchedAt(tx.outputs, 0, i, m.backward) && FirstWatchedAt(tx.outputs, 0, j, m.backward) ==> i == j;
    if i: nat :| FirstWatchedAt(tx.outputs, 0, i, m.backward) {
      assert WatchedAt(tx.outputs, i, m.backward);
    }
  }

  // ---------------------------------------------------------------- any interleaving

  datatype Step =
    | Opened(id: IssueId, address: Address)
    | Closed(id: IssueId)   // executed or cancelled on the parachain
    | Seen(tx: Transaction, issues: map<IssueId, Issue>)

  datatype Claimed = Claimed(id: IssueId, address: Address, tx: Transaction, issue: Issue)

  /** The maps, the simple set of pairs they stand for, and what has been inserted and claimed so far. */
  datatype State = State(
    maps: Maps,
    watched: set<(IssueId, Address)>,
    inserted: multiset<(IssueId, Address)>,
    log: seq<Claimed>)

  /** How often each pair has been claimed. */
  function Claims(log: seq<Claimed>): multiset<(IssueId, Address)> {
    if log == [] then multiset{}
    else
      var last := log[|log| - 1];
      Claims(log[..|log| - 1]) + multiset{(last.id, last.address)}
  }

  function Apply(s: State, step: Step): State {
    match step
    case Opened(id, address) =>
      s.(maps := Inserted(s.maps, id, address),
         watched := s.watched + {(id, address)},
         inserted := s.inserted + multiset{(id, address)})
    case Closed(id) =>
      s.(maps := RemovedKey(s.maps, id), watched := set p | p in s.watched && p.0 != id)
    case Seen(tx, issues) =>
      var claim := Claim(tx, s.maps, issues);
      if claim.None? then s
      else
        State(RemovedValue(s.maps, claim.value.1), s.watched - {claim.value}, s.inserted,
              s.log + [Claimed(claim.value.0, claim.value.1, tx, issues[claim.value.0])])
  }

  function Run(s: State, steps: seq<Step>): State
    decreases |steps|
  {
    if steps == [] then s else Run(Apply(s, steps[0]), steps[1..])
  }

  /** What each step does to the watched pairs: an opened one is added, a closed id is gone, a claimed pair is gone. */
  lemma StepExact(s: State, step: Step, k: IssueId, v: Address)
    requires Inverse(s.maps) && Represents(s.maps, s.watched)
    ensures var was, now := Lookup(s.maps.forward, k) == Some(v), Lookup(Apply(s, step).maps.forward, k) == Some(v);
            match step
            case Opened(id, address) => now <==> (k == id && v == address) || (k != id && was)
            case Closed(id) => now <==> k != id && was
            case Seen(tx, issues) => now <==> was && Claim(tx, s.maps, issues) != Some((k, v))
  {
  }

  /** Each id has one address and each address one id, throughout. */
  ghost predicate OneToOne(address: map<IssueId, Address>) {
    forall a, b :: a in address && b in address && a != b ==> address[a] != address[b]
  }

  ghost predicate Follows(step: Step, address: map<IssueId, Address>) {
    step.Opened? ==> step.id in address && address[step.id] == step.address
  }

  /** The maps hold exactly the watched pairs. */
  ghost predicate Represents(m: Maps, watched: set<(IssueId, Address)>) {
    forall k, v :: (k, v) in watched <==> k in m.forward && m.forward[k] == v
  }

  ghost predicate Good(s: State, address: map<IssueId, Address>) {
    && Inverse(s.maps) && Represents(s.maps, s.watched)
    && (forall k :: k in s.maps.forward ==> k in address && address[k] == s.maps.forward[k])
    // a pair is watched or claimed only as often as it was inserted
    && (forall p :: Claims(s.log)[p] + (if p in s.watched then 1 else 0) <= s.inserted[p])
    // and claimed only by a transaction that pays amount and fee
    && (forall i :: 0 <= i < |s.log| ==>
          PaysInFull(s.log[i].tx, s.log[i].address, s.log[i].issue))
  }

  lemma OpenKeepsGood(s: State, id: IssueId, a: Address, address: map<IssueId, Address>)
    requires Good(s, address) && OneToOne(address) && id in address && address[id] == a
    ensures Good(Apply(s, Opened(id, a)), address)
  {
    InsertKeepsInverse(s.maps, id, a);
  }

  lemma CloseKeepsGood(s: State, id: IssueId, address: map<IssueId, Address>)
    requires Good(s, address)
    ensures Good(Apply(s, Closed(id)), address)
  {
    RemovalKeepsInverse(s.maps, id, PubkeyHash([]));
  }

  lemma ClaimKeepsGood(s: State, tx: Transaction, issues: map<IssueId, Issue>, address: map<IssueId, Address>)
    requires Good(s, address)
    ensures Good(Apply(s, Seen(tx, issues)), address)
  {
    var claim := Claim(tx, s.maps, issues);
    if claim.Some? {
      RemovalKeepsInverse(s.maps, 0, claim.value.1);
      assert claim.value in s.watched;
      assert Apply(s, Seen(tx, issues)).log[..|s.log|] == s.log;
    }
  }

  lemma StepKeepsGood(s: State, step: Step, address: map<IssueId, Address>)
    requires Good(s, address) && OneToOne(address) && Follows(step, address)
    ensures Good(Apply(s, step), address)
  {
    match step
    case Opened(id, a) => OpenKeepsGood(s, id, a, address);
    case Closed(id) => CloseKeepsGood(s, id, address);
    case Seen(tx, issues) => ClaimKeepsGood(s, tx, issues, address);
  }

  lemma {:induction false} RunKeepsGood(s: State, steps: seq<Step>, address: map<IssueId, Address>)
    requires Good(s, address) && OneToOne(address)
    requires forall i :: 0 <= i < |steps| ==> Follows(steps[i], address)
    ensures Good(Run(s, steps), address)
    decreases |steps|
  {
    if steps != [] {
      StepKeepsGood(s, steps[0], address);
      RunKeepsGood(Apply(s, steps[0]), steps[1..], address);
    }
  }

  const EMPTY := State(Maps(map[], map[]), {}, multiset{}, [])

  /**
   With one address per request, under any interleaving of opened, closed and seen-transaction steps the
   two maps are inverse and hold exactly the watched pairs, no pair is claimed more often than inserted, and
   every one of these claims was paid in full.
   */
  lemma WatchSetIsSound(steps: seq<Step>, address: map<IssueId, Address>)
    requires OneToOne(address) && forall i :: 0 <= i < |steps| ==> Follows(steps[i], address)
    ensures var s := Run(EMPTY, steps);
            && Inverse(s.maps) && Represents(s.maps, s.watched)
            && (forall p :: Claims(s.log)[p] + (if p in s.watched then 1 else 0) <= s.inserted[p])
            && forall i :: 0 <= i < |s.log| ==> PaysInFull(s.log[i].tx, s.log[i].address, s.log[i].issue)
  {
    RunKeepsGood(EMPTY, steps, address);
  }
}
