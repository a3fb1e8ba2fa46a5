/**
 * The chain as a sequence of blocks, and what the ledger computes from it: the block that
 * `_addBlock` appends, the lookups by hash, by height and by wallet address, and the list of
 * heights `validateChain` reports. Everything here is a function of the sequence, so it also
 * describes chains whose blocks were altered after they were stored.
 */
module Chain {
  import opened Results
  import opened Blocks

  /**
   * The block `_addBlock` stores when `data` is appended to `chain` at clock text `time`: its
   * height is the old length, its predecessor hash is the old tip's hash (`null` on an empty
   * chain) and its hash is the digest of those fields.
   */
  function NextBlock(digest: Digest, chain: seq<Block>, time: string, data: Payload): Block {
    var prev := if |chain| > 0 then Some(chain[|chain| - 1].hash) else None;
    Seal(digest, |chain|, time, prev, data)
  }

  /**
   * A chain no one has altered: every block sits at its own height and passes its integrity
   * check, the first block has no predecessor, and every later block names its predecessor's hash.
   */
  ghost predicate Intact(digest: Digest, chain: seq<Block>) {
    && (forall i :: 0 <= i < |chain| ==> chain[i].height == i && Validates(digest, chain[i]))
    && (|chain| > 0 ==> chain[0].prev == None)
    && (forall i :: 0 < i < |chain| ==> chain[i].prev == Some(chain[i - 1].hash))
  }

  /** Appending the block `_addBlock` builds keeps a chain intact. */
  lemma AppendKeepsIntact(digest: Digest, chain: seq<Block>, time: string, data: Payload)
    requires Intact(digest, chain)
    ensures Intact(digest, chain + [NextBlock(digest, chain, time, data)])
  {
  }

  /** The chain obtained from the empty one by appending each (clock text, body) entry in turn through `_addBlock`. */
  function Build(digest: Digest, entries: seq<(string, Payload)>): (chain: seq<Block>)
    ensures |chain| == |entries|
    decreases |entries|
  {
    if entries == [] then []
    else
      var before := Build(digest, entries[..|entries| - 1]);
      var last := entries[|entries| - 1];
      before + [NextBlock(digest, before, last.0, last.1)]
  }

  /** A chain grown only through `_addBlock` is intact. */
  lemma {:induction false} BuiltChainIsIntact(digest: Digest, entries: seq<(string, Payload)>)
    ensures Intact(digest, Build(digest, entries))
    decreases |entries|
  {
    if entries != [] {
      var init := entries[..|entries| - 1];
      var last := entries[|entries| - 1];
      BuiltChainIsIntact(digest, init);
      AppendKeepsIntact(digest, Build(digest, init), last.0, last.1);
    }
  }

  /** `Array.prototype.find` (and `filter(p)[0]`): the index of the first block that satisfies `p`. */
  function FindFirst(chain: seq<Block>, p: Block -> bool): (r: Option<nat>)
    ensures r.Some? ==> r.value < |chain| && p(chain[r.value])
    ensures r.Some? ==> forall j :: 0 <= j < r.value ==> !p(chain[j])
    ensures r.None? ==> forall j :: 0 <= j < |chain| ==> !p(chain[j])
    decreases |chain|
  {
    if chain == [] then None
    else if p(chain[0]) then Some(0)
    else
      match FindFirst(chain[1..], p)
      case None => None
      case Some(k) => Some(k + 1)
  }

  /** `getBlockByHash`: the first block carrying `hash`, or `BlockNotFound` when none does. */
  function BlockByHash(chain: seq<Block>, hash: string): (r: Result<Block>)
    ensures r.Err? <==> forall j :: 0 <= j < |chain| ==> chain[j].hash != hash
    ensures r.Err? ==> r.failure == BlockNotFound
    ensures r.Ok? ==> exists i :: 0 <= i < |chain| && chain[i] == r.value && chain[i].hash == hash
                                   && forall j :: 0 <= j < i ==> chain[j].hash != hash
  {
    match FindFirst(chain, (b: Block) => b.hash == hash)
    case Some(i) => Ok(chain[i])
    case None => Err(BlockNotFound)
  }

  /** `getBlockByHeight`: the first block whose height field is `height`, or `None` (`null`); never an error. */
  function BlockByHeight(chain: seq<Block>, height: int): (r: Option<Block>)
    ensures r.None? <==> forall j :: 0 <= j < |chain| ==> chain[j].height != height
    ensures r.Some? ==> exists i :: 0 <= i < |chain| && chain[i] == r.value && chain[i].height == height
                                    && forall j :: 0 <= j < i ==> chain[j].height != height
  {
    match FindFirst(chain, (b: Block) => b.height == height)
    case Some(i) => Some(chain[i])
    case None => None
  }

  /** On an intact chain the lookup by height is plain indexing, and absent exactly outside `0 .. |chain| - 1`. */
  lemma IntactHeightLookup(digest: Digest, chain: seq<Block>, height: int)
    requires Intact(digest, chain)
    ensures BlockByHeight(chain, height) == if 0 <= height < |chain| then Some(chain[height]) else None
  {
  }

  /** The claim a block contributes to `getStarsByWalletAddress(address)`: its decoded body when that is a claim by `address`. */
  function StarOf(b: Block, address: string): seq<StarClaim> {
    match BData(b)
    case Some(c) => if c.address == address then [c] else []
    case None => []
  }

  /** `getStarsByWalletAddress`: the decoded claims by `address`, in chain order. */
  function StarsOf(chain: seq<Block>, address: string): seq<StarClaim>
    decreases |chain|
  {
    if chain == [] then []
    else StarsOf(chain[..|chain| - 1], address) + StarOf(chain[|chain| - 1], address)
  }

  /** Appending a block adds its claim, if it is one by `address`, after the stars found so far. */
  lemma StarsOfAppend(chain: seq<Block>, b: Block, address: string)
    ensures StarsOf(chain + [b], address) == StarsOf(chain, address) + StarOf(b, address)
  {
  }

  /** The scan follows the chain's order: the stars of two consecutive stretches are those of the first, then those of the second. */
  lemma {:induction false} StarsOfConcat(first: seq<Block>, second: seq<Block>, address: string)
    ensures StarsOf(first + second, address) == StarsOf(first, address) + StarsOf(second, address)
    decreases |second|
  {
    if second != [] {
      var init := second[..|second| - 1];
      assert (first + second)[..|first + second| - 1] == first + init;
      StarsOfConcat(first, init, address);
    } else {
      assert first + second == first;
    }
  }

  /**
   * Exactly the claims by `address` are listed: a claim is in the result if and only if some
   * block decodes to it and its address matches. Blocks that decode to nothing, the genesis
   * block among them, contribute nothing.
   */
  lemma {:induction false} StarsOfExactly(chain: seq<Block>, address: string, s: StarClaim)
    ensures s in StarsOf(chain, address) <==>
              exists i :: 0 <= i < |chain| && BData(chain[i]) == Some(s) && s.address == address
    decreases |chain|
  {
    if chain != [] {
      var init := chain[..|chain| - 1];
      StarsOfExactly(init, address, s);
      if s in StarsOf(init, address) {
        var i :| 0 <= i < |init| && BData(init[i]) == Some(s) && s.address == address;
        assert chain[i] == init[i];
      }
      if exists i :: 0 <= i < |chain| && BData(chain[i]) == Some(s) && s.address == address {
        var i :| 0 <= i < |chain| && BData(chain[i]) == Some(s) && s.address == address;
        if i < |init| {
          assert init[i] == chain[i];
        }
      }
    }
  }

  /** Whether `validateChain` records the block at index `i`: it fails its own check, or it passes, has a positive height and does not name its predecessor's hash. */
  predicate Flagged(digest: Digest, chain: seq<Block>, i: nat)
    requires i < |chain|
  {
    var b := chain[i];
    !Validates(digest, b) || (0 < i && 0 < b.height && b.prev != Some(chain[i - 1].hash))
  }

  /**
   * Whether `validateChain` never settles: the first block passes its own check but has a
   * positive height, so the linkage check reads `chain[-1].hash`, throws, and the throw is lost
   * inside the promise's executor.
   */
  predicate Unsettles(digest: Digest, chain: seq<Block>) {
    |chain| > 0 && Validates(digest, chain[0]) && chain[0].height > 0
  }

  /** The indices among the first `n` that `validateChain` records: ascending, each once, and every flagged index among them. */
  function FlaggedIndices(digest: Digest, chain: seq<Block>, n: nat): (r: seq<nat>)
    requires n <= |chain|
    ensures forall k :: 0 <= k < |r| ==> r[k] < n && Flagged(digest, chain, r[k])
    ensures forall k, l :: 0 <= k < l < |r| ==> r[k] < r[l]
    ensures forall i :: 0 <= i < n && Flagged(digest, chain, i) ==> i in r
    decreases n
  {
    if n == 0 then []
    else FlaggedIndices(digest, chain, n - 1) + (if Flagged(digest, chain, n - 1) then [n - 1] else [])
  }

  /** The height fields of the blocks at the indices `idx`, in that order. */
  function Heights(chain: seq<Block>, idx: seq<nat>): seq<int>
    requires forall k :: 0 <= k < |idx| ==> idx[k] < |chain|
  {
    seq(|idx|, k requires 0 <= k < |idx| => chain[idx[k]].height)
  }

  /** The error log after the first `n` blocks: the height fields of the flagged blocks, in chain order. */
  function ErrorLog(digest: Digest, chain: seq<Block>, n: nat): seq<int>
    requires n <= |chain|
  {
    Heights(chain, FlaggedIndices(digest, chain, n))
  }

  /** What `validateChain` settles with: the whole error log, unless it never settles. */
  function Validation(digest: Digest, chain: seq<Block>): Result<seq<int>> {
    if Unsettles(digest, chain) then Err(MissingPredecessor) else Ok(ErrorLog(digest, chain, |chain|))
  }

  /** One more recorded index adds its block's height at the end of the log. */
  lemma HeightsSnoc(chain: seq<Block>, idx: seq<nat>, i: nat)
    requires forall k :: 0 <= k < |idx| ==> idx[k] < |chain|
    requires i < |chain|
    ensures Heights(chain, idx + [i]) == Heights(chain, idx) + [chain[i].height]
  {
  }

  /** When the flagged block is exactly the one at index `i`, the recorded indices are `[i]` once the scan has passed it. */
  lemma {:induction false} FlaggedIndicesExactly(digest: Digest, chain: seq<Block>, i: nat, n: nat)
    requires n <= |chain|
    requires forall j :: 0 <= j < |chain| ==> (Flagged(digest, chain, j) <==> j == i)
    ensures FlaggedIndices(digest, chain, n) == if i < n then [i] else []
    decreases n
  {
    if n > 0 {
      FlaggedIndicesExactly(digest, chain, i, n - 1);
    }
  }

  /** When no block is flagged, nothing is recorded. */
  lemma {:induction false} FlaggedIndicesNone(digest: Digest, chain: seq<Block>, n: nat)
    requires n <= |chain|
    requires forall j :: 0 <= j < |chain| ==> !Flagged(digest, chain, j)
    ensures FlaggedIndices(digest, chain, n) == []
    decreases n
  {
    if n > 0 {
      FlaggedIndicesNone(digest, chain, n - 1);
    }
  }

  /** An intact chain validates: `validateChain` settles with the empty list. */
  lemma IntactChainValidates(digest: Digest, chain: seq<Block>)
    requires Intact(digest, chain)
    ensures Validation(digest, chain) == Ok([])
  {
    forall j | 0 <= j < |chain|
      ensures !Flagged(digest, chain, j)
    {
      assert chain[j].height == j && Validates(digest, chain[j]);
    }
    FlaggedIndicesNone(digest, chain, |chain|);
    assert Heights(chain, []) == [];
  }

  /** A chain grown only through `_addBlock` makes `validateChain` settle with the empty list. */
  lemma BuiltChainValidates(digest: Digest, entries: seq<(string, Payload)>)
    ensures Validation(digest, Build(digest, entries)) == Ok([])
  {
    BuiltChainIsIntact(digest, entries);
    IntactChainValidates(digest, Build(digest, entries));
  }

  /**
   * After the block at index `i` is replaced by `t`, every other block keeps passing the scan,
   * except the successor when the stored hash changed.
   */
  lemma UnalteredNotFlagged(digest: Digest, chain: seq<Block>, i: nat, t: Block, j: nat)
    requires Intact(digest, chain) && i < |chain| && j < |chain| && j != i
    requires j == i + 1 ==> t.hash == chain[i].hash
    ensures !Flagged(digest, chain[i := t], j)
  {
  }

  /**
   * Altering the fields of the block at index `i` while leaving its stored hash alone, in a way
   * that changes their digest, makes `validateChain` report that block, and only it, by its
   * (possibly altered) height field.
   */
  lemma TamperedBlockReported(digest: Digest, chain: seq<Block>, i: nat, t: Block)
    requires Intact(digest, chain) && i < |chain|
    requires t.hash == chain[i].hash
    requires digest(t.height, t.time, t.prev, t.data) != chain[i].hash
    ensures Validation(digest, chain[i := t]) == Ok([t.height])
  {
    var altered := chain[i := t];
    forall j | 0 <= j < |altered|
      ensures Flagged(digest, altered, j) <==> j == i
    {
      if j != i {
        UnalteredNotFlagged(digest, chain, i, t, j);
      }
    }
    FlaggedIndicesExactly(digest, altered, i, |altered|);
    assert !Unsettles(digest, altered) by {
      if i != 0 {
        assert altered[0] == chain[0];
      }
    }
    assert Heights(altered, [i]) == [t.height];
  }

  /**
   * Altering the time or body of the block at index `i`, keeping its height and predecessor
   * hash, and storing the digest of its new fields as its hash, so
   * that the block passes its own check, makes `validateChain` report the next block instead,
   * whose predecessor hash no longer matches. Altering the tip this way goes unreported.
   */
  lemma RehashedBlockReportsSuccessor(digest: Digest, chain: seq<Block>, i: nat, t: Block)
    requires Intact(digest, chain) && i < |chain|
    requires t.height == chain[i].height && t.prev == chain[i].prev && Validates(digest, t)
    requires t.hash != chain[i].hash
    ensures Validation(digest, chain[i := t]) == Ok(if i + 1 < |chain| then [i + 1] else [])
  {
    var altered := chain[i := t];
    if i + 1 < |chain| {
      forall j | 0 <= j < |altered|
        ensures Flagged(digest, altered, j) <==> j == i + 1
      {
        if j == i {
          assert altered[j] == t;
          if j > 0 {
            assert chain[j].prev == Some(chain[j - 1].hash);
            assert altered[j - 1] == chain[j - 1];
          }
        } else if j != i + 1 {
          UnalteredNotFlagged(digest, chain, i, t, j);
        }
      }
      FlaggedIndicesExactly(digest, altered, i + 1, |altered|);
      assert Heights(altered, [i + 1]) == [i + 1];
    } else {
      assert Intact(digest, altered);
      IntactChainValidates(digest, altered);
    }
    assert !Unsettles(digest, altered);
  }

  /**
   * Altering the time or body of the tip, keeping its height and predecessor hash, re-hashing it
   * consistently, then appending through `_addBlock`, leaves
   * no trace: the new block links to the forged tip and `validateChain` settles with the empty
   * list.
   */
  lemma RehashedTipThenAppendValidates(digest: Digest, chain: seq<Block>, t: Block, time: string, data: Payload)
    requires Intact(digest, chain) && |chain| > 0
    requires t.height == chain[|chain| - 1].height && t.prev == chain[|chain| - 1].prev && Validates(digest, t)
    ensures var altered := chain[|chain| - 1 := t];
            Validation(digest, altered + [NextBlock(digest, altered, time, data)]) == Ok([])
  {
    var altered := chain[|chain| - 1 := t];
    assert Intact(digest, altered);
    AppendKeepsIntact(digest, altered, time, data);
    IntactChainValidates(digest, altered + [NextBlock(digest, altered, time, data)]);
  }
}
