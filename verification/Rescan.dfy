/**
 Finding deposits made before the vault started: what the node still stores is rescanned locally, and
 addresses older than its pruned height are looked up page by page in a block explorer.
 */
module Rescan {
  import opened Wrappers

  const ELECTRS_TRANSACTIONS_PER_PAGE: nat := 25

  type Address = string
  type Txid = nat

  /** A past issue request; an address the network cannot express is dropped from the explorer lookup. */
  datatype PastIssue = PastIssue(btcHeight: nat, address: Option<Address>)

  datatype ElectrsTransaction = ElectrsTransaction(txid: Txid, confirmed: Option<bool>, outputs: seq<Address>)

  /** A transaction of a block, as far as a rescan looks at it. */
  datatype ChainTransaction = ChainTransaction(txid: Txid, outputs: seq<Address>)

  /** The explorer's full history of each address; for an address not in it the explorer fails. */
  type Explorer = map<Address, seq<ElectrsTransaction>>

  datatype Plan = Plan(localStart: nat, localEnd: nat, electrs: seq<Address>)

  // ---------------------------------------------------------------- the explorer's pages

  function IndexOf(history: seq<ElectrsTransaction>, txid: Txid): nat {
    if history == [] || history[0].txid == txid then 0 else 1 + IndexOf(history[1..], txid)
  }

  /** Up to a page of the history after `lastSeen`; from the beginning when there is none. */
  function Page(history: seq<ElectrsTransaction>, lastSeen: Option<Txid>): seq<ElectrsTransaction> {
    var from := if lastSeen.None? then 0 else IndexOf(history, lastSeen.value) + 1;
    if from >= |history| then []
    else if |history| - from <= ELECTRS_TRANSACTIONS_PER_PAGE then history[from..]
    else history[from..from + ELECTRS_TRANSACTIONS_PER_PAGE]
  }

  ghost predicate DistinctIds(history: seq<ElectrsTransaction>) {
    forall i, j :: 0 <= i < j < |history| ==> history[i].txid != history[j].txid
  }

  lemma {:induction false} IndexOfAt(history: seq<ElectrsTransaction>, i: nat)
    requires DistinctIds(history) && i < |history|
    ensures IndexOf(history, history[i].txid) == i
  {
    if i > 0 {
      assert history[0].txid != history[i].txid;
      IndexOfAt(history[1..], i - 1);
    }
  }

  /** The loop ends and returns the whole history, each transaction once, also when it fills its last page. */
  method GetAddressTxHistoryFull(history: seq<ElectrsTransaction>) returns (ret: seq<ElectrsTransaction>)
    requires DistinctIds(history)
    ensures ret == history
  {
    var lastSeenTxid: Option<Txid> := None;
    ret := [];
    while true
      invariant |ret| <= |history| && ret == history[..|ret|]
      invariant lastSeenTxid == if ret == [] then None else Some(ret[|ret| - 1].txid)
      decreases |history| - |ret|
    {
      if ret != [] {
        IndexOfAt(history, |ret| - 1);
      }
      var transactions := Page(history, lastSeenTxid);
      var pageSize := |transactions|;
      lastSeenTxid := if transactions == [] then None else Some(transactions[|transactions| - 1].txid);
      ret := ret + transactions;
      if pageSize < ELECTRS_TRANSACTIONS_PER_PAGE {
        break;
      }
    }
  }

  /** Only transactions that are not known to be unconfirmed and that pay the address are imported. */
  predicate Imports(tx: ElectrsTransaction, address: Address) {
    (tx.confirmed.Some? ==> tx.confirmed.value) && address in tx.outputs
  }

  /** The transactions imported for one address, in the explorer's order. */
  function ImportsOf(history: seq<ElectrsTransaction>, address: Address): seq<ElectrsTransaction> {
    if history == [] then []
    else
      var last := history[|history| - 1];
      ImportsOf(history[..|history| - 1], address) + (if Imports(last, address) then [last] else [])
  }

  /** What looking up the addresses imports, up to the first one the explorer fails for. */
  function Imported(explorer: Explorer, addresses: seq<Address>): seq<ElectrsTransaction> {
    if addresses == [] || addresses[0] !in explorer then []
    else ImportsOf(explorer[addresses[0]], addresses[0]) + Imported(explorer, addresses[1..])
  }

  lemma {:induction false} ImportsOfExact(history: seq<ElectrsTransaction>, address: Address, tx: ElectrsTransaction)
    ensures tx in ImportsOf(history, address) <==> tx in history && Imports(tx, address)
  {
    if history != [] {
      var init, last := history[..|history| - 1], history[|history| - 1];
      ImportsOfExact(init, address, tx);
      assert history == init + [last];
    }
  }

  lemma {:induction false} ImportedExact(explorer: Explorer, addresses: seq<Address>, tx: ElectrsTransaction)
    requires forall k :: 0 <= k < |addresses| ==> addresses[k] in explorer
    ensures tx in Imported(explorer, addresses) <==>
            exists k :: 0 <= k < |addresses| && tx in explorer[addresses[k]]
                           && tx.confirmed != Some(false) && addresses[k] in tx.outputs
  {
    if addresses != [] {
      var first, rest := addresses[0], addresses[1..];
      ImportsOfExact(explorer[first], first, tx);
      ImportedExact(explorer, rest, tx);
      if k :| 0 <= k < |addresses| && tx in explorer[addresses[k]] && Imports(tx, addresses[k]) {
        assert k > 0 ==> rest[k - 1] == addresses[k];
      }
      if k :| 0 <= k < |rest| && tx in explorer[rest[k]] && Imports(tx, rest[k]) {
        assert addresses[k + 1] == rest[k];
      }
    }
  }

  method ConfirmedPaymentsTo(all: seq<ElectrsTransaction>, address: Address) returns (payments: seq<ElectrsTransaction>)
    ensures payments == ImportsOf(all, address)
  {
    payments := [];
    for i := 0 to |all|
      invariant payments == ImportsOf(all[..i], address)
    {
      assert all[..i + 1][..i] == all[..i];
      if Imports(all[i], address) {
        payments := payments + [all[i]];
      }
    }
    assert all[..|all|] == all;
  }

  /** Address by address: the full history by pages, then an import for every confirmed payment to the address. */
  method RescanElectrsForAddresses(explorer: Explorer, addresses: seq<Address>)
    returns (imported: seq<ElectrsTransaction>, ok: bool)
    requires forall a :: a in explorer ==> DistinctIds(explorer[a])
    ensures imported == Imported(explorer, addresses)
    ensures ok <==> forall k :: 0 <= k < |addresses| ==> addresses[k] in explorer
  {
    hide DistinctIds, ImportsOf;
    imported, ok := [], true;
    assert addresses[0..] == addresses;
    for k := 0 to |addresses|
      invariant forall j :: 0 <= j < k ==> addresses[j] in explorer
      invariant Imported(explorer, addresses) == imported + Imported(explorer, addresses[k..])
    {
      assert addresses[k..][1..] == addresses[k + 1..];
      var address := addresses[k];
      if address !in explorer {
        return imported, false;
      }
      var all := GetAddressTxHistoryFull(explorer[address]);
      var payments := ConfirmedPaymentsTo(all, address);
      imported := imported + payments;
    }
  }

  // ---------------------------------------------------------------- splitting the range

  function MinHeight(issues: seq<PastIssue>): nat
    requires issues != []
  {
    if |issues| == 1 then issues[0].btcHeight
    else
      var rest := MinHeight(issues[1..]);
      if issues[0].btcHeight <= rest then issues[0].btcHeight else rest
  }

  function OldAddresses(issues: seq<PastIssue>, prunedHeight: nat): seq<Address> {
    if issues == [] then []
    else
      (if issues[0].btcHeight < prunedHeight && issues[0].address.Some? then [issues[0].address.value] else [])
      + OldAddresses(issues[1..], prunedHeight)
  }

  /** What to rescan, given the node's block count and pruned height; nothing when there are no requests. */
  function RescanPlan(issues: seq<PastIssue>, blockCount: nat, prunedHeight: nat): Option<Plan>
    requires blockCount >= 1
  {
    if issues == [] then None
    else
      var start := MinHeight(issues);
      Some(Plan(if start >= prunedHeight then start else prunedHeight,
                blockCount - 1,
                if start < prunedHeight then OldAddresses(issues, prunedHeight) else []))
  }

  lemma {:induction false} MinHeightIsLowest(issues: seq<PastIssue>, i: nat)
    requires i < |issues|
    ensures MinHeight(issues) <= issues[i].btcHeight
  {
    if |issues| > 1 {
      MinHeightIsLowest(issues[1..], if i > 0 then i - 1 else 0);
    }
  }

  lemma {:induction false} MinHeightIsReached(issues: seq<PastIssue>) returns (i: nat)
    requires issues != []
    ensures i < |issues| && issues[i].btcHeight == MinHeight(issues)
  {
    i := 0;
    if |issues| > 1 {
      var j := MinHeightIsReached(issues[1..]);
      if issues[0].btcHeight > MinHeight(issues[1..]) {
        i := j + 1;
      }
    }
  }

  /**
   The plan in full: no requests, no rescan; otherwise the local range runs from the oldest request's height, but
   not below the pruned height, up to the block before the last, and the explorer is asked about every address
   of a request older than the pruned height.
   */
  lemma RescanPlanExact(issues: seq<PastIssue>, blockCount: nat, prunedHeight: nat)
    requires blockCount >= 1
    ensures var plan := RescanPlan(issues, blockCount, prunedHeight);
            && (plan.None? <==> issues == [])
            && (plan.Some? ==>
                  && plan.value.localEnd == blockCount - 1
                  && prunedHeight <= plan.value.localStart
                  && (plan.value.localStart == prunedHeight ==> exists i :: 0 <= i < |issues| && issues[i].btcHeight <= prunedHeight)
                  && (plan.value.localStart > prunedHeight ==>
                        && (exists i :: 0 <= i < |issues| && issues[i].btcHeight == plan.value.localStart)
                        && forall i :: 0 <= i < |issues| ==> plan.value.localStart <= issues[i].btcHeight)
                  && forall a :: a in plan.value.electrs <==>
                                 exists i :: 0 <= i < |issues| && issues[i].btcHeight < prunedHeight && issues[i].address == Some(a))
  {
    if issues != [] {
      var lowest := MinHeightIsReached(issues);
      forall i | 0 <= i < |issues|
        ensures MinHeight(issues) <= issues[i].btcHeight
      {
        MinHeightIsLowest(issues, i);
      }
      forall a
        ensures a in OldAddresses(issues, prunedHeight) <==>
                exists i :: 0 <= i < |issues| && issues[i].btcHeight < prunedHeight && issues[i].address == Some(a)
      {
        OldAddressesExact(issues, prunedHeight, a);
      }
    }
  }

  lemma {:induction false} OldAddressesExact(issues: seq<PastIssue>, prunedHeight: nat, address: Address)
    ensures address in OldAddresses(issues, prunedHeight) <==>
            exists i :: 0 <= i < |issues| && issues[i].btcHeight < prunedHeight && issues[i].address == Some(address)
  {
    if issues != [] {
      OldAddressesExact(issues[1..], prunedHeight, address);
      if i :| 0 <= i < |issues| && issues[i].btcHeight < prunedHeight && issues[i].address == Some(address) {
        assert i > 0 ==> issues[1..][i - 1] == issues[i];
      }
      if i :| 0 <= i < |issues[1..]| && issues[1..][i].btcHeight < prunedHeight && issues[1..][i].address == Some(address) {
        assert issues[i + 1] == issues[1..][i];
      }
    }
  }

  /** The rescan of one vault: the local range, and what the explorer adds. */
  method AddKeysFromPastIssueRequest(issues: seq<PastIssue>, blockCount: nat, prunedHeight: nat, explorer: Explorer)
    returns (plan: Option<Plan>, imported: seq<ElectrsTransaction>, ok: bool)
    requires blockCount >= 1
    requires forall a :: a in explorer ==> DistinctIds(explorer[a])
    ensures plan == RescanPlan(issues, blockCount, prunedHeight)
    ensures imported == if plan.None? then [] else Imported(explorer, plan.value.electrs)
    ensures ok <==> (plan.Some? ==> forall k :: 0 <= k < |plan.value.electrs| ==> plan.value.electrs[k] in explorer)
  {
    plan, imported, ok := RescanPlan(issues, blockCount, prunedHeight), [], true;
    if plan.Some? {
      imported, ok := RescanElectrsForAddresses(explorer, plan.value.electrs);
    }
  }

  /** The explorer knows every payment of the chain to every address it answers for, and not as unconfirmed. */
  ghost predicate KnowsChain(explorer: Explorer, chain: seq<seq<ChainTransaction>>) {
    forall a, h, tx :: a in explorer && 0 <= h < |chain| && tx in chain[h] && a in tx.outputs ==>
                         exists e :: && e in explorer[a] && e.txid == tx.txid && e.outputs == tx.outputs
                                     && e.confirmed != Some(false)
  }

  /** The node has this transaction after the rescan: from a block it rescanned, or by import. */
  ghost predicate Found(
    plan: Plan, chain: seq<seq<ChainTransaction>>, imported: seq<ElectrsTransaction>, txid: Txid)
  {
    || (exists h, tx :: plan.localStart <= h <= plan.localEnd && h < |chain| && tx in chain[h] && tx.txid == txid)
    || (exists e :: e in imported && e.txid == txid)
  }

  /**
   Every payment to a past request's address, in any block from the request's height up to the end of the
   rescan, is found: in a block rescanned locally, or among the imports when the explorer has answered for
   every address it was asked about. The local range never asks the node for a block it has pruned.
   */
  lemma EveryDepositIsFound(
    issues: seq<PastIssue>, i: nat, blockCount: nat, prunedHeight: nat, explorer: Explorer,
    chain: seq<seq<ChainTransaction>>, height: nat, tx: ChainTransaction)
    requires i < |issues| && issues[i].address.Some? && blockCount >= 1
    requires issues[i].btcHeight <= height <= blockCount - 1 && height < |chain|
    requires tx in chain[height] && issues[i].address.value in tx.outputs
    requires KnowsChain(explorer, chain)
    ensures var plan := RescanPlan(issues, blockCount, prunedHeight).value;
            && plan.localStart >= prunedHeight
            && ((forall k :: 0 <= k < |plan.electrs| ==> plan.electrs[k] in explorer) ==>
                  Found(plan, chain, Imported(explorer, plan.electrs), tx.txid))
  {
    var address := issues[i].address.value;
    var plan := RescanPlan(issues, blockCount, prunedHeight).value;
    MinHeightIsLowest(issues, i);
    if height < plan.localStart && forall k :: 0 <= k < |plan.electrs| ==> plan.electrs[k] in explorer {
      OldAddressesExact(issues, prunedHeight, address);
      var k :| 0 <= k < |plan.electrs| && plan.electrs[k] == address;
      var e :| && e in explorer[address] && e.txid == tx.txid && e.outputs == tx.outputs
               && e.confirmed != Some(false);
      ImportedExact(explorer, plan.electrs, e);
    }
  }
}
