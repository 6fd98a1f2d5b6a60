/**
 The delay before a vault acts on something every vault can act on: vaults are ranked by a seeded hash,
 and the wait is the logarithm of the rank.
 */
module Delay {
  type Account = nat

  /** The seeded hash of an account; SHA-256 is a parameter here. */
  type Hashing = Account -> nat

  /** How many listed entries hash below `self`; an account listed twice counts twice. */
  function Rank(vaults: seq<Account>, hash: Hashing, self: Account): nat {
    if vaults == [] then 0
    else (if hash(vaults[0]) < hash(self) then 1 else 0) + Rank(vaults[1..], hash, self)
  }

  function Log2(n: nat): nat
    requires n >= 1
  {
    if n == 1 then 0 else 1 + Log2(n / 2)
  }

  function DelayBlocks(vaults: seq<Account>, hash: Hashing, self: Account): nat {
    Log2(Rank(vaults, hash, self) + 1)
  }

  function Pow2(d: nat): nat {
    if d == 0 then 1 else 2 * Pow2(d - 1)
  }

  lemma {:induction false} Log2Exact(n: nat)
    requires n >= 1
    ensures Pow2(Log2(n)) <= n < 2 * Pow2(Log2(n))
  {
    if n > 1 {
      Log2Exact(n / 2);
    }
  }

  lemma {:induction false} RankOneMore(vaults: seq<Account>, hash: Hashing, self: Account, last: Account)
    ensures Rank(vaults + [last], hash, self) == Rank(vaults, hash, self) + if hash(last) < hash(self) then 1 else 0
  {
    if vaults == [] {
      assert (vaults + [last])[1..] == [];
    } else {
      assert (vaults + [last])[1..] == vaults[1..] + [last];
      RankOneMore(vaults[1..], hash, self, last);
    }
  }

  /** The positions of the list whose entries hash lower. */
  ghost function Lower(vaults: seq<Account>, hash: Hashing, self: Account): set<int> {
    set i | 0 <= i < |vaults| && hash(vaults[i]) < hash(self)
  }

  /** The rank is the number of listed entries that hash lower. */
  lemma {:induction false} RankCounts(vaults: seq<Account>, hash: Hashing, self: Account)
    ensures Rank(vaults, hash, self) == |Lower(vaults, hash, self)|
    decreases |vaults|
  {
    if vaults != [] {
      var n := |vaults| - 1;
      var init := vaults[..n];
      RankCounts(init, hash, self);
      assert vaults == init + [vaults[n]];
      RankOneMore(init, hash, self, vaults[n]);
      assert Lower(vaults, hash, self) == Lower(init, hash, self) + if hash(vaults[n]) < hash(self) then {n} else {};
    }
  }

  /** The wait in blocks: `d` exactly when between `2^d - 1` and `2^(d+1) - 2` entries hash lower. */
  lemma DelayExact(vaults: seq<Account>, hash: Hashing, self: Account)
    ensures var lower := |Lower(vaults, hash, self)|;
            Pow2(DelayBlocks(vaults, hash, self)) <= lower + 1 < 2 * Pow2(DelayBlocks(vaults, hash, self))
  {
    RankCounts(vaults, hash, self);
    Log2Exact(Rank(vaults, hash, self) + 1);
  }

  ghost predicate DistinctHashes(vaults: seq<Account>, hash: Hashing) {
    forall a, b :: a in vaults && b in vaults && a != b ==> hash(a) != hash(b)
  }

  /** A smaller hash never ranks higher, and ranks strictly lower than any other listed account. */
  lemma {:induction false} RankMonotone(vaults: seq<Account>, hash: Hashing, a: Account, b: Account)
    requires hash(a) < hash(b)
    ensures Rank(vaults, hash, a) + (if a in vaults then 1 else 0) <= Rank(vaults, hash, b)
  {
    if vaults != [] {
      RankMonotone(vaults[1..], hash, a, b);
    }
  }

  lemma {:induction false} Pigeonhole(accounts: set<Account>, rank: Account -> nat, lo: nat, hi: nat)
    requires lo <= hi
    requires forall a :: a in accounts ==> lo <= rank(a) < hi
    requires forall a, b :: a in accounts && b in accounts && a != b ==> rank(a) != rank(b)
    ensures |accounts| <= hi - lo
    decreases hi
  {
    if accounts == {} {
    } else if a :| a in accounts && rank(a) == hi - 1 {
      Pigeonhole(accounts - {a}, rank, lo, hi - 1);
    } else {
      var b :| b in accounts;
      Pigeonhole(accounts, rank, lo, hi - 1);
    }
  }

  /** Logarithmic falloff: at most `2^d` distinct listed accounts wait `d` blocks. */
  lemma FewWaitLittle(vaults: seq<Account>, hash: Hashing, d: nat)
    requires DistinctHashes(vaults, hash)
    ensures |set a | a in vaults && DelayBlocks(vaults, hash, a) == d| <= Pow2(d)
  {
    var waiting := set a | a in vaults && DelayBlocks(vaults, hash, a) == d;
    var rank := (a: Account) => Rank(vaults, hash, a) + 1;
    forall a | a in waiting
      ensures Pow2(d) <= rank(a) < 2 * Pow2(d)
    {
      Log2Exact(rank(a));
    }
    forall a, b | a in waiting && b in waiting && a != b
      ensures rank(a) != rank(b)
    {
      if hash(a) < hash(b) {
        RankMonotone(vaults, hash, a, b);
      } else {
        RankMonotone(vaults, hash, b, a);
      }
    }
    Pigeonhole(waiting, rank, Pow2(d), 2 * Pow2(d));
  }

  lemma {:induction false} LowestExists(vaults: seq<Account>, hash: Hashing) returns (first: Account)
    requires vaults != []
    ensures first in vaults && forall a :: a in vaults ==> hash(first) <= hash(a)
  {
    first := vaults[0];
    if |vaults| > 1 {
      var rest := LowestExists(vaults[1..], hash);
      if hash(rest) < hash(first) {
        first := rest;
      }
    }
  }

  lemma {:induction false} LowestRanksZero(vaults: seq<Account>, hash: Hashing, first: Account)
    requires forall a :: a in vaults ==> hash(first) <= hash(a)
    ensures Rank(vaults, hash, first) == 0
  {
    if vaults != [] {
      LowestRanksZero(vaults[1..], hash, first);
    }
  }

  /** In a non-empty list exactly one distinct account waits for nothing: the one that hashes lowest. */
  lemma OneWaitsZero(vaults: seq<Account>, hash: Hashing)
    requires vaults != [] && DistinctHashes(vaults, hash)
    ensures exists first :: && first in vaults && (forall a :: a in vaults ==> hash(first) <= hash(a))
                            && forall a :: a in vaults ==> (DelayBlocks(vaults, hash, a) == 0 <==> a == first)
  {
    var first := LowestExists(vaults, hash);
    LowestRanksZero(vaults, hash, first);
    forall a | a in vaults && a != first
      ensures DelayBlocks(vaults, hash, a) != 0
    {
      RankMonotone(vaults, hash, first, a);
    }
  }
}
