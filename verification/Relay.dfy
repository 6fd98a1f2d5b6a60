/**
 The header relayer: find where the relay's stored headers end on the node's chain, then submit the
 confirmed headers that follow, in batches.

 A block is identified with its whole ancestry, which is what a collision-free block hash stands for.
 */
module Relay {
  import opened Wrappers
  import opened Integers

  datatype Block = Genesis | Child(parent: Block, id: nat)

  datatype RelayError = NotInitialized | RpcFailed | DuplicateBlock | MissingParent

  function Height(b: Block): nat {
    match b
    case Genesis => 0
    case Child(parent, _) => Height(parent) + 1
  }

  /** The block at height `h` of the chain that ends in `b`. */
  function At(b: Block, h: nat): Block
    requires h <= Height(b)
  {
    if h == Height(b) then b else At(b.parent, h)
  }

  predicate OnChain(a: Block, tip: Block) {
    Height(a) <= Height(tip) && At(tip, Height(a)) == a
  }

  lemma {:induction false} AtHeight(b: Block, h: nat)
    requires h <= Height(b)
    ensures Height(At(b, h)) == h
  {
    if h < Height(b) {
      AtHeight(b.parent, h);
    }
  }

  lemma {:induction false} AtParent(b: Block, h: nat)
    requires 0 < h <= Height(b)
    ensures At(b, h).Child? && At(b, h).parent == At(b, h - 1)
  {
    if h < Height(b) {
      AtParent(b.parent, h);
    }
  }

  lemma {:induction false} AtAt(b: Block, h: nat, l: nat)
    requires l <= h <= Height(b)
    ensures Height(At(b, h)) == h && At(At(b, h), l) == At(b, l)
  {
    AtHeight(b, h);
    if h < Height(b) {
      AtAt(b.parent, h, l);
    }
  }

  // ---------------------------------------------------------------- the relay's store

  /** Stored headers and the tip of the main chain, which may be any stored branch. */
  datatype RelayState = RelayState(root: Block, stored: set<Block>, best: Block)

  /** Ancestor-closed down to the header it was initialised with. */
  ghost predicate Closed(root: Block, stored: set<Block>) {
    root in stored && forall b {:trigger HasParent(b, root, stored)} :: b in stored ==> HasParent(b, root, stored)
  }

  predicate HasParent(b: Block, root: Block, stored: set<Block>) {
    b == root || (b.Child? && b.parent in stored)
  }

  ghost predicate Sound(r: RelayState) {
    Closed(r.root, r.stored) && r.best in r.stored
  }

  /** Main-chain hash at a height; absent heights read as the zero hash. */
  function RelayHash(r: RelayState, h: nat): Option<Block> {
    if Height(r.root) <= h <= Height(r.best) then Some(At(r.best, h)) else None
  }

  /** A missing header reads as height zero, so height zero counts as not stored. */
  predicate IsBlockStored(r: RelayState, b: Block) {
    b in r.stored && Height(b) > 0
  }

  predicate StoredAt(r: RelayState, tip: Block, h: nat) {
    h <= Height(tip) && IsBlockStored(r, At(tip, h))
  }

  /** Everything stored descends from the root, and so do all its ancestors down to it. */
  lemma {:induction false} StoredBelow(root: Block, stored: set<Block>, b: Block, h: nat)
    requires Closed(root, stored) && b in stored
    requires h <= Height(b)
    ensures OnChain(root, b)
    ensures Height(root) <= h ==> At(b, h) in stored
  {
    assert HasParent(b, root, stored);
    if b != root {
      StoredBelow(root, stored, b.parent, if h < Height(b) then h else Height(b.parent));
    }
  }

  // ---------------------------------------------------------------- where to start

  /** Heights at which a call fails: relay hash, node hash on the way down and up, stored check. */
  datatype Faults = Faults(bestHeight: bool, relayHash: set<nat>, nodeHash: set<nat>, nodeUp: set<nat>, storedCheck: set<nat>)

  const NO_FAULTS := Faults(false, {}, {}, {}, {})

  function BackwardPass(r: RelayState, tip: Block, h: nat, f: Faults): Result<nat, RelayError> {
    if h in f.relayHash || h in f.nodeHash || h > Height(tip) then Err(RpcFailed)
    else if RelayHash(r, h) == Some(At(tip, h)) then Ok(h)
    else if h == 0 then Err(NotInitialized)
    else BackwardPass(r, tip, h - 1, f)
  }

  /** A failed or missing node block stops the pass; a failed stored check is an error. */
  function ForwardPass(r: RelayState, tip: Block, h: nat, f: Faults): Result<nat, RelayError>
    decreases Height(tip) + 1 - h
  {
    if h > Height(tip) || h in f.nodeUp then Ok(h)
    else if h in f.storedCheck then Err(RpcFailed)
    else if IsBlockStored(r, At(tip, h)) then ForwardPass(r, tip, h + 1, f)
    else Ok(h)
  }

  function StartHeight(r: RelayState, tip: Block, f: Faults): Result<nat, RelayError> {
    if f.bestHeight then Err(RpcFailed)
    else
      match BackwardPass(r, tip, Height(r.best), f)
      case Err(e) => Err(e)
      case Ok(h) => ForwardPass(r, tip, h, f)
  }

  /** The two loops over `start_height`, as the relayer runs them. */
  method ComputeStartHeight(r: RelayState, tip: Block, f: Faults) returns (start: Result<nat, RelayError>)
    ensures start == StartHeight(r, tip, f)
  {
    if f.bestHeight {
      return Err(RpcFailed);
    }
    var startHeight: nat := Height(r.best);
    if startHeight in f.relayHash || startHeight in f.nodeHash || startHeight > Height(tip) {
      return Err(RpcFailed);
    }
    var relayHash, btcHash := RelayHash(r, startHeight), Some(At(tip, startHeight));
    while relayHash != btcHash
      invariant startHeight <= Height(tip) && startHeight !in f.relayHash && startHeight !in f.nodeHash
      invariant relayHash == RelayHash(r, startHeight) && btcHash == Some(At(tip, startHeight))
      invariant BackwardPass(r, tip, Height(r.best), f) == BackwardPass(r, tip, startHeight, f)
      decreases startHeight
    {
      if startHeight == 0 {
        return Err(NotInitialized);
      }
      startHeight := startHeight - 1;
      if startHeight in f.relayHash || startHeight in f.nodeHash {
        return Err(RpcFailed);
      }
      relayHash, btcHash := RelayHash(r, startHeight), Some(At(tip, startHeight));
    }
    while startHeight <= Height(tip) && startHeight !in f.nodeUp
      invariant StartHeight(r, tip, f) == ForwardPass(r, tip, startHeight, f)
      decreases Height(tip) + 1 - startHeight
    {
      if startHeight in f.storedCheck {
        return Err(RpcFailed);
      }
      if !IsBlockStored(r, At(tip, startHeight)) {
        break;
      }
      startHeight := startHeight + 1;
    }
    start := Ok(startHeight);
  }

  lemma {:induction false} BackwardPassExact(r: RelayState, tip: Block, h: nat, f: Faults)
    ensures var back := BackwardPass(r, tip, h, f);
            && (back.Ok? ==>
                  && back.value <= h <= Height(tip) && RelayHash(r, back.value) == Some(At(tip, back.value))
                  && (forall l :: back.value < l <= h ==> RelayHash(r, l) != Some(At(tip, l)))
                  && BackwardPass(r, tip, h, NO_FAULTS) == back)
            && (back == Err(NotInitialized) ==>
                  forall l :: 0 <= l <= h ==> l <= Height(tip) && RelayHash(r, l) != Some(At(tip, l)))
            && (f == NO_FAULTS && h <= Height(tip) ==> back.Ok? || back == Err(NotInitialized))
  {
    if h > 0 {
      BackwardPassExact(r, tip, h - 1, f);
    }
  }

  lemma {:induction false} ForwardPassExact(r: RelayState, tip: Block, h: nat, f: Faults)
    ensures var up := ForwardPass(r, tip, h, f);
            && (up.Ok? ==>
                  && h <= up.value
                  && (forall l :: h <= l < up.value ==> StoredAt(r, tip, l))
                  && (up.value !in f.nodeUp ==> !StoredAt(r, tip, up.value)))
            && (up.Err? ==> f.storedCheck != {})
    decreases Height(tip) + 1 - h
  {
    if h <= Height(tip) && h !in f.nodeUp && h !in f.storedCheck && IsBlockStored(r, At(tip, h)) {
      ForwardPassExact(r, tip, h + 1, f);
    }
  }

  /** The stored heights of any chain form an interval that starts at the root. */
  lemma StoredIsInterval(r: RelayState, tip: Block, h: nat, l: nat)
    requires Sound(r) && StoredAt(r, tip, h)
    ensures Height(r.root) <= h && OnChain(r.root, tip)
    ensures Height(r.root) <= l <= h && l > 0 ==> StoredAt(r, tip, l)
  {
    AtAt(tip, h, if l <= h then l else h);
    AtHeight(tip, if l <= h then l else h);
    StoredBelow(r.root, r.stored, At(tip, h), if l <= h then l else h);
    AtAt(tip, h, Height(r.root));
  }

  /** The block before the height is stored, and the one at it is not. */
  ghost predicate AtBoundary(r: RelayState, tip: Block, h: nat) {
    h >= 1 && StoredAt(r, tip, h - 1) && !StoredAt(r, tip, h)
  }

  /** The height the backward pass comes down to: the highest block the main chain shares with the node's. */
  lemma ForwardFromCommon(r: RelayState, tip: Block, f: Faults) returns (common: nat)
    requires Sound(r) && StartHeight(r, tip, f).Ok?
    ensures common <= Height(r.best) <= Height(tip)
    ensures BackwardPass(r, tip, Height(r.best), f) == BackwardPass(r, tip, Height(r.best), NO_FAULTS) == Ok(common)
    ensures Height(r.root) <= common && At(r.best, common) == At(tip, common) && At(tip, common) in r.stored
    ensures forall l :: common < l <= Height(r.best) ==> RelayHash(r, l) != Some(At(tip, l))
    ensures common > 0 ==> StoredAt(r, tip, common)
  {
    BackwardPassExact(r, tip, Height(r.best), f);
    common := BackwardPass(r, tip, Height(r.best), f).value;
    StoredBelow(r.root, r.stored, r.best, common);
    AtHeight(tip, common);
  }

  /**
   Exact boundary: for a store initialised above height zero, the height returned has its predecessor
   stored and is itself missing or not stored, except exactly when the node failed to answer for a height
   whose block is stored. The predecessor is stored unless the answer is the root's own height.
   */
  lemma StartHeightIsBoundary(r: RelayState, tip: Block, f: Faults)
    requires Sound(r) && Height(r.root) >= 1
    requires StartHeight(r, tip, f).Ok?
    ensures var h := StartHeight(r, tip, f).value;
            && h >= 1
            && (AtBoundary(r, tip, h) <==> !(h in f.nodeUp && StoredAt(r, tip, h)))
            && (StoredAt(r, tip, h - 1) <==> h > Height(r.root))
  {
    var c := ForwardFromCommon(r, tip, f);
    ForwardPassExact(r, tip, c, f);
    StoredIsInterval(r, tip, c, c - 1);
    var h := StartHeight(r, tip, f).value;
    if StoredAt(r, tip, h - 1) {
      StoredIsInterval(r, tip, h - 1, h - 1);
    }
  }

  lemma {:induction false} ForwardPassStopsEarly(r: RelayState, tip: Block, h: nat, f: Faults)
    requires ForwardPass(r, tip, h, f).Ok?
    ensures ForwardPass(r, tip, h, NO_FAULTS).Ok?
    ensures var up, top := ForwardPass(r, tip, h, f).value, ForwardPass(r, tip, h, NO_FAULTS).value;
            && h <= up <= top
            && (forall l :: h <= l < up ==> l !in f.nodeUp)
            && (up < top ==> up in f.nodeUp)
    decreases Height(tip) + 1 - h
  {
    if h <= Height(tip) && IsBlockStored(r, At(tip, h)) {
      if h in f.nodeUp {
        ForwardPassExact(r, tip, h, NO_FAULTS);
      } else {
        ForwardPassStopsEarly(r, tip, h + 1, f);
      }
    }
  }

  /**
   A faulty run answers like a faultless one exactly when the node answers for every height from the highest
   common block up to the boundary; otherwise it answers with the lowest of these the node failed for.
   */
  lemma EarlyStopExact(r: RelayState, tip: Block, f: Faults)
    requires Sound(r) && StartHeight(r, tip, f).Ok?
    ensures BackwardPass(r, tip, Height(r.best), NO_FAULTS).Ok? && StartHeight(r, tip, NO_FAULTS).Ok?
    ensures var common := BackwardPass(r, tip, Height(r.best), NO_FAULTS).value;
            var h, boundary := StartHeight(r, tip, f).value, StartHeight(r, tip, NO_FAULTS).value;
            && common <= h <= boundary
            && (h == boundary <==> forall l :: common <= l < boundary ==> l !in f.nodeUp)
            && (h < boundary ==> h in f.nodeUp && forall l :: common <= l < h ==> l !in f.nodeUp)
  {
    var common := ForwardFromCommon(r, tip, f);
    ForwardPassStopsEarly(r, tip, common, f);
  }

  lemma {:induction false} BackwardPassFails(r: RelayState, tip: Block, h: nat, f: Faults)
    requires h <= Height(tip) && BackwardPass(r, tip, h, NO_FAULTS).Ok?
    ensures var common, back := BackwardPass(r, tip, h, NO_FAULTS).value, BackwardPass(r, tip, h, f);
            && common <= h
            && (back.Ok? <==> forall l :: common <= l <= h ==> l !in f.relayHash && l !in f.nodeHash)
            && (back.Ok? ==> back.value == common) && (back.Err? ==> back.error == RpcFailed)
  {
    if h > 0 && RelayHash(r, h) != Some(At(tip, h)) {
      BackwardPassFails(r, tip, h - 1, f);
    }
  }

  lemma {:induction false} ForwardPassFails(r: RelayState, tip: Block, h: nat, f: Faults)
    ensures ForwardPass(r, tip, h, NO_FAULTS).Ok?
    ensures var top, up := ForwardPass(r, tip, h, NO_FAULTS).value, ForwardPass(r, tip, h, f);
            && h <= top
            && (up.Err? <==> exists l :: h <= l <= top && CheckFailsAt(tip, h, f, l))
            && (up.Err? ==> up.error == RpcFailed)
    decreases Height(tip) + 1 - h
  {
    if h <= Height(tip) && IsBlockStored(r, At(tip, h)) {
      hide IsBlockStored, At;
      var next := h + 1;
      ForwardPassFails(r, tip, next, f);
      var top := ForwardPass(r, tip, h, NO_FAULTS).value;
      if h !in f.nodeUp && h !in f.storedCheck {
        if l :| h <= l <= top && CheckFailsAt(tip, h, f, l) {
          assert CheckFailsAt(tip, next, f, l);
        }
        if l :| next <= l <= top && CheckFailsAt(tip, next, f, l) {
          assert CheckFailsAt(tip, h, f, l);
        }
      }
    }
    if h <= Height(tip) && h !in f.nodeUp && h in f.storedCheck {
      assert CheckFailsAt(tip, h, f, h);
    } else if h in f.nodeUp {
      assert forall l :: !CheckFailsAt(tip, h, f, l);
    }
  }

  /** Going up from `h`, the node answers for every height up to `l`, and the stored check of `l` fails. */
  ghost predicate CheckFailsAt(tip: Block, h: nat, f: Faults, l: int) {
    h <= l <= Height(tip) && l in f.storedCheck && forall m :: h <= m <= l ==> m !in f.nodeUp
  }

  /**
   Exactly when calls that fail make the search fail, and not just stop early: the best height, a hash read on the
   way down to the common block, or a stored check on the way up to the boundary.
   */
  lemma StartHeightFails(r: RelayState, tip: Block, f: Faults)
    requires Sound(r) && StartHeight(r, tip, NO_FAULTS).Ok?
    ensures var boundary := StartHeight(r, tip, NO_FAULTS).value;
            var common := BackwardPass(r, tip, Height(r.best), NO_FAULTS).value;
            && (StartHeight(r, tip, f).Err? <==>
                || f.bestHeight
                || (exists l :: common <= l <= Height(r.best) && (l in f.relayHash || l in f.nodeHash))
                || (exists l :: common <= l <= boundary && CheckFailsAt(tip, common, f, l)))
            && (StartHeight(r, tip, f).Err? ==> StartHeight(r, tip, f).error == RpcFailed)
  {
    var common := ForwardFromCommon(r, tip, NO_FAULTS);
    BackwardPassFails(r, tip, Height(r.best), f);
    ForwardPassFails(r, tip, common, f);
  }

  /** It happens to every relay: a node that fails just once, for the highest common block, is answered with a stored height. */
  lemma EarlyStopWitness(r: RelayState, tip: Block)
    requires Sound(r) && Height(r.root) >= 1 && StartHeight(r, tip, NO_FAULTS).Ok?
    ensures exists h :: var f := NO_FAULTS.(nodeUp := {h});
                        StartHeight(r, tip, f) == Ok(h) && StoredAt(r, tip, h) && !AtBoundary(r, tip, h)
  {
    var common := ForwardFromCommon(r, tip, NO_FAULTS);
    var f := NO_FAULTS.(nodeUp := {common});
    BackwardPassIgnoresNodeUp(r, tip, Height(r.best), f.nodeUp);
    assert StartHeight(r, tip, f) == Ok(common);
  }

  lemma {:induction false} BackwardPassIgnoresNodeUp(r: RelayState, tip: Block, h: nat, nodeUp: set<nat>)
    ensures BackwardPass(r, tip, h, NO_FAULTS.(nodeUp := nodeUp)) == BackwardPass(r, tip, h, NO_FAULTS)
  {
    if h > 0 {
      BackwardPassIgnoresNodeUp(r, tip, h - 1, nodeUp);
    }
  }

  /** The relay's main chain and the node's share the first block after genesis. */
  predicate ShareFirst(best: Block, tip: Block) {
    Height(best) >= 1 && Height(tip) >= 1 && At(best, 1) == At(tip, 1)
  }

  lemma SharedFirstIsFound(r: RelayState, tip: Block, common: nat)
    requires Height(r.root) == 0 && ShareFirst(r.best, tip) && Height(r.best) <= Height(tip)
    requires forall l :: common < l <= Height(r.best) ==> RelayHash(r, l) != Some(At(tip, l))
    ensures common >= 1
  {
    assert RelayHash(r, 1) == Some(At(tip, 1));
  }

  /**
   A store initialised at height zero has the boundary exactly when, besides, the main chain shares its
   first block with the node's. Otherwise the answer is height zero, the genesis header that counts as not
   stored.
   */
  lemma GenesisBoundaryExact(r: RelayState, tip: Block, f: Faults)
    requires Sound(r) && Height(r.root) == 0
    requires StartHeight(r, tip, f).Ok?
    ensures var h := StartHeight(r, tip, f).value;
            && (AtBoundary(r, tip, h) <==> ShareFirst(r.best, tip) && !(h in f.nodeUp && StoredAt(r, tip, h)))
            && (h == 0 <==> !ShareFirst(r.best, tip))
  {
    var c := ForwardFromCommon(r, tip, f);
    ForwardPassExact(r, tip, c, f);
    AtHeight(tip, 0);
    if ShareFirst(r.best, tip) {
      SharedFirstIsFound(r, tip, c);
    }
    if c > 0 {
      AtAt(r.best, c, 1);
      AtAt(tip, c, 1);
      if c > 1 {
        StoredIsInterval(r, tip, c, c - 1);
      }
    }
  }

  /** There is only one such boundary. */
  lemma BoundaryUnique(r: RelayState, tip: Block, h: nat)
    requires Sound(r) && Height(r.root) >= 1
    requires AtBoundary(r, tip, h)
    requires StartHeight(r, tip, NO_FAULTS).Ok?
    ensures StartHeight(r, tip, NO_FAULTS) == Ok(h)
  {
    StartHeightIsBoundary(r, tip, NO_FAULTS);
    var a := StartHeight(r, tip, NO_FAULTS).value;
    StoredIsInterval(r, tip, a - 1, h);
    StoredIsInterval(r, tip, h - 1, a);
  }

  /** Without faults the answer depends on the stored headers alone, not on which branch is the main chain. */
  lemma StartHeightIgnoresMainChain(r: RelayState, other: RelayState, tip: Block)
    requires Sound(r) && Sound(other) && r.root == other.root && r.stored == other.stored && Height(r.root) >= 1
    requires StartHeight(r, tip, NO_FAULTS).Ok? && StartHeight(other, tip, NO_FAULTS).Ok?
    ensures StartHeight(r, tip, NO_FAULTS) == StartHeight(other, tip, NO_FAULTS)
  {
    StartHeightIsBoundary(other, tip, NO_FAULTS);
    BoundaryUnique(r, tip, StartHeight(other, tip, NO_FAULTS).value);
  }

  /** It answers exactly when the node has reached the relay's best height and the root is on the node's chain. */
  lemma StartHeightAnswers(r: RelayState, tip: Block)
    requires Sound(r)
    ensures StartHeight(r, tip, NO_FAULTS).Ok? <==> Height(r.best) <= Height(tip) && OnChain(r.root, tip)
    ensures StartHeight(r, tip, NO_FAULTS) == Err(NotInitialized) <==>
            Height(r.best) <= Height(tip) && !OnChain(r.root, tip)
  {
    StoredBelow(r.root, r.stored, r.best, Height(r.best));
    BackwardPassExact(r, tip, Height(r.best), NO_FAULTS);
    var back := BackwardPass(r, tip, Height(r.best), NO_FAULTS);
    assert RelayHash(r, Height(r.root)) == Some(r.root);
    if Height(r.best) > Height(tip) {
      assert back == Err(RpcFailed);
    } else if back.Ok? {
      ForwardPassExact(r, tip, back.value, NO_FAULTS);
      AtAt(r.best, back.value, Height(r.root));
      AtAt(tip, back.value, Height(r.root));
    } else {
      assert RelayHash(r, Height(r.root)) != Some(At(tip, Height(r.root)));
    }
  }

  // ---------------------------------------------------------------- submitting

  /** The relay takes headers in order, all or none; each must be new and have its parent stored. */
  function StoreHeaders(stored: set<Block>, headers: seq<Block>): Result<set<Block>, RelayError>
    decreases |headers|
  {
    if headers == [] then Ok(stored)
    else if headers[0] in stored then Err(DuplicateBlock)
    else if headers[0] == Genesis || headers[0].parent !in stored then Err(MissingParent)
    else StoreHeaders(stored + {headers[0]}, headers[1..])
  }

  /** The header is new, and its parent is stored or comes earlier in the list. */
  ghost predicate Fits(stored: set<Block>, headers: seq<Block>, k: nat)
    requires k < |headers|
  {
    && headers[k] !in stored && headers[k] !in headers[..k]
    && headers[k].Child? && (headers[k].parent in stored || headers[k].parent in headers[..k])
  }

  /** All headers are taken when each of them fits, and none otherwise. */
  lemma {:induction false} StoreHeadersExact(stored: set<Block>, headers: seq<Block>)
    ensures StoreHeaders(stored, headers).Ok? <==> forall k :: 0 <= k < |headers| ==> Fits(stored, headers, k)
    ensures StoreHeaders(stored, headers).Ok? ==>
              StoreHeaders(stored, headers).value == stored + set b | b in headers
    decreases |headers|
  {
    if headers != [] {
      var more, rest := stored + {headers[0]}, headers[1..];
      StoreHeadersExact(more, rest);
      forall k | 0 <= k < |rest|
        ensures headers[0] !in stored ==> (Fits(more, rest, k) <==> Fits(stored, headers, k + 1))
      {
        assert headers[..k + 1] == [headers[0]] + rest[..k];
      }
      if forall k :: 0 <= k < |headers| ==> Fits(stored, headers, k) {
        assert Fits(stored, headers, 0);
        forall k | 0 <= k < |rest|
          ensures Fits(more, rest, k)
        {
          assert Fits(stored, headers, k + 1);
        }
      }
      if StoreHeaders(stored, headers).Ok? {
        forall k | 0 <= k < |headers|
          ensures Fits(stored, headers, k)
        {
          assert k > 0 ==> Fits(more, rest, k - 1);
        }
        assert headers == [headers[0]] + rest;
      }
    }
  }

  function Headers(tip: Block, h: nat, count: nat): seq<Block>
    requires h + count <= Height(tip) + 1
    decreases count
  {
    if count == 0 then [] else [At(tip, h)] + Headers(tip, h + 1, count - 1)
  }

  method CollectHeaders(height: nat, batch: nat, tip: Block) returns (headers: seq<Block>)
    requires height + batch <= Height(tip) + 1
    ensures headers == Headers(tip, height, batch)
  {
    headers := [];
    for h := height to height + batch
      invariant headers + Headers(tip, h, height + batch - h) == Headers(tip, height, batch)
    {
      headers := headers + [At(tip, h)];
    }
  }

  lemma {:induction false} HeadersAt(tip: Block, h: nat, count: nat, k: nat)
    requires h + count <= Height(tip) + 1 && k < count
    ensures |Headers(tip, h, count)| == count && Headers(tip, h, count)[k] == At(tip, h + k)
    decreases count
  {
    if count > 1 {
      HeadersAt(tip, h + 1, count - 1, if k > 0 then k - 1 else 0);
    }
  }

  function BatchSize(current: nat, maxBatch: nat, maxHeight: nat): nat {
    if SaturatingAddU32(current, maxBatch) > maxHeight then
      SaturatingSub(SaturatingAddU32(maxHeight, 1), current)
    else
      maxBatch
  }

  /** Headers still to submit up to the confirmed height. */
  function Gap(current: nat, maxHeight: nat): nat {
    SaturatingSub(maxHeight + 1, current)
  }

  lemma BatchSizeExact(current: nat, maxBatch: nat, maxHeight: nat)
    requires maxHeight < U32_MAX
    ensures BatchSize(current, maxBatch, maxHeight) ==
            if maxBatch <= Gap(current, maxHeight) then maxBatch else Gap(current, maxHeight)
  {
  }

  /** From a stored block on, the headers that follow it on the chain are taken. */
  lemma {:induction false} HeadersExtendStore(stored: set<Block>, tip: Block, h: nat, count: nat)
    requires h >= 1 && h + count <= Height(tip) + 1
    requires At(tip, h - 1) in stored
    requires forall l :: h <= l < h + count ==> At(tip, l) !in stored
    ensures var next := StoreHeaders(stored, Headers(tip, h, count));
            next.Ok? && forall b :: b in next.value <==> b in stored || (h <= Height(b) < h + count && OnChain(b, tip))
    decreases count
  {
    if count > 0 {
      AtParent(tip, h);
      AtHeight(tip, h);
      forall l | h + 1 <= l < h + count
        ensures At(tip, l) !in stored + {At(tip, h)}
      {
        AtHeight(tip, l);
      }
      HeadersExtendStore(stored + {At(tip, h)}, tip, h + 1, count - 1);
      assert Headers(tip, h, count)[1..] == Headers(tip, h + 1, count - 1);
      forall b | h <= Height(b) < h + count && OnChain(b, tip)
        ensures b == At(tip, h) || h + 1 <= Height(b)
      {
      }
    }
  }
}
