/**
 * The `Blockchain` class: an in-memory, append-only, hash-linked chain of blocks together with
 * the height of its tip. `AddBlock` is its only mutator; `InitializeChain` and `SubmitStar` go
 * through it. The clock is the parameter `nowMs` (what `new Date().getTime()` returns), the
 * digest is fixed when the chain is created, and the signature check is passed in.
 */
module Registry {
  import opened Results
  import opened JsText
  import opened Blocks
  import opened Chain
  import opened Ownership

  class Blockchain {
    var chain: seq<Block>
    var height: int
    const digest: Digest

    /** The height is the index of the tip (-1 for the empty chain). Every method keeps this, whatever was done to the blocks. */
    ghost predicate Sized()
      reads this
    {
      height == |chain| - 1
    }

    /** Sized, and no block has been altered since it was stored. */
    ghost predicate Valid()
      reads this
    {
      Sized() && Intact(digest, chain)
    }

    /** A new chain holding only its genesis block, stamped with the clock at creation. */
    constructor (digest: Digest, nowMs: nat)
      ensures Valid() && this.digest == digest
      ensures height == 0 && |chain| == 1
      ensures chain[0] == NextBlock(digest, [], ClockSeconds(nowMs), GenesisPayload)
      ensures chain[0].height == 0 && chain[0].prev == None && chain[0].data == GenesisPayload
    {
      this.digest := digest;
      chain := [];
      height := -1;
      new;
      InitializeChain(nowMs);
    }

    /**
     * `initializeChain`: appends the genesis block when the height is still -1 and does
     * nothing otherwise, so a second call leaves the chain as it is.
     */
    method InitializeChain(nowMs: nat)
      requires Valid()
      modifies this
      ensures Valid()
      ensures old(height) == -1 ==> chain == [NextBlock(digest, [], ClockSeconds(nowMs), GenesisPayload)]
      ensures old(height) != -1 ==> chain == old(chain) && height == old(height)
      ensures |chain| >= 1 && chain[0].height == 0 && chain[0].prev == None
    {
      if height == -1 {
        var genesis := AddBlock(GenesisPayload, nowMs);
      }
    }

    /** `getChainHeight`: the height of the tip, one less than the number of blocks. */
    method GetChainHeight() returns (h: int)
      requires Sized()
      ensures h == height && h == |chain| - 1
    {
      h := height;
    }

    /**
     * `_addBlock`: stamps the block with the next height, the clock text and the tip's hash
     * (`null` on an empty chain), seals it with the digest, appends it, and advances the height
     * by one. Every earlier block stays as it was, and an intact chain stays intact. The chain
     * need not be intact: the block links to whatever the tip now holds.
     */
    method AddBlock(data: Payload, nowMs: nat) returns (block: Block)
      requires Sized()
      modifies this
      ensures Sized() && (old(Intact(digest, chain)) ==> Intact(digest, chain))
      ensures chain == old(chain) + [block] && height == old(height) + 1
      ensures block == NextBlock(digest, old(chain), ClockSeconds(nowMs), data)
      ensures block.height == |old(chain)| && block.time == ClockSeconds(nowMs) && block.data == data
      ensures block.prev == if old(chain) == [] then None else Some(old(chain)[|old(chain)| - 1].hash)
      ensures Validates(digest, block)
    {
      var h := |chain|;
      var time := ClockSeconds(nowMs);
      var prev := if |chain| > 0 then Some(chain[|chain| - 1].hash) else None;
      block := Block(h, time, prev, digest(h, time, prev, data), data);
      if Intact(digest, chain) {
        AppendKeepsIntact(digest, chain, time, data);
      }
      chain := chain + [block];
      height := height + 1;
    }

    /** `requestMessageOwnershipVerification`: the challenge for `address` at the current clock seconds; the chain is not touched. */
    method RequestMessageOwnershipVerification(address: string, nowMs: nat) returns (message: string)
      ensures message == Challenge(address, ClockSeconds(nowMs))
      ensures ':' !in address && nowMs >= 1000 ==> MessageTime(message) == Some(nowMs / 1000)
    {
      message := address + ":" + ClockSeconds(nowMs) + ":" + RegistryTag;
      if ':' !in address && nowMs >= 1000 {
        ChallengeFields(address, nowMs);
      }
    }

    /**
     * `submitStar`: when the challenge is less than five minutes old and the signature
     * verifies, appends one block holding the claim and returns it; otherwise rejects with
     * the reason and leaves the chain and its height as they were. The claim then shows up,
     * last, among the stars of its address. The ledger need not be intact: a claim admitted on
     * an altered ledger is linked to its current tip.
     */
    method SubmitStar(address: string, message: string, signature: string, star: string, nowMs: nat, verify: Verifier)
      returns (r: Result<Block>)
      requires Sized()
      modifies this
      ensures Sized() && (old(Intact(digest, chain)) ==> Intact(digest, chain))
      ensures var gate := Admit(address, message, signature, star, nowMs, verify);
              gate.Err? ==> r == Err(gate.failure) && chain == old(chain) && height == old(height)
      ensures var gate := Admit(address, message, signature, star, nowMs, verify);
              gate.Ok? ==> r.Ok? && chain == old(chain) + [r.value] && height == old(height) + 1
                           && r.value == NextBlock(digest, old(chain), ClockSeconds(nowMs), Claim(gate.value))
      ensures r.Ok? ==> StarsOf(chain, address) == StarsOf(old(chain), address) + [StarClaim(address, message, signature, star)]
    {
      var gate := Admit(address, message, signature, star, nowMs, verify);
      if gate.Err? {
        r := Err(gate.failure);
      } else {
        var block := AddBlock(Claim(gate.value), nowMs);
        StarsOfAppend(old(chain), block, address);
        r := Ok(block);
      }
    }

    /** `getBlockByHash`: the first block carrying `hash`, or `BlockNotFound`; the chain is not touched. */
    method GetBlockByHash(hash: string) returns (r: Result<Block>)
      ensures r == BlockByHash(chain, hash)
      ensures r.Ok? ==> r.value in chain && r.value.hash == hash
      ensures r.Err? ==> r.failure == BlockNotFound && forall j :: 0 <= j < |chain| ==> chain[j].hash != hash
    {
      r := BlockByHash(chain, hash);
    }

    /** `getBlockByHeight`: on a valid chain, the block at that index, or `None` (`null`) out of range; never an error. */
    method GetBlockByHeight(h: int) returns (r: Option<Block>)
      ensures r == BlockByHeight(chain, h)
      ensures Valid() ==> r == if 0 <= h < |chain| then Some(chain[h]) else None
    {
      r := BlockByHeight(chain, h);
      if Valid() {
        IntactHeightLookup(digest, chain, h);
      }
    }

    /** `getStarsByWalletAddress`: the decoded claims whose address is `address`, in chain order; it never rejects. */
    method GetStarsByWalletAddress(address: string) returns (stars: seq<StarClaim>)
      ensures stars == StarsOf(chain, address)
      ensures forall s :: s in stars ==> s.address == address
    {
      stars := [];
      var i := 0;
      while i < |chain|
        invariant 0 <= i <= |chain|
        invariant stars == StarsOf(chain[..i], address)
      {
        var bData := BData(chain[i]);
        if bData.Some? && bData.value.address == address {
          stars := stars + [bData.value];
        }
        assert chain[..i + 1][..i] == chain[..i];
        i := i + 1;
      }
      assert chain[..i] == chain;
      forall s | s in stars
        ensures s.address == address
      {
        StarsOfExactly(chain, address, s);
      }
    }

    /**
     * `validateChain`: scans the blocks in order and logs the height of each one that fails its
     * own check or, passing it, does not name its predecessor's hash; settles with the log
     * (empty on a valid chain), or never settles when the first block passes its own check but
     * claims a positive height.
     */
    method ValidateChain() returns (r: Result<seq<int>>)
      ensures r == Validation(digest, chain)
      ensures Valid() ==> r == Ok([])
    {
      var errorLog: seq<int> := [];
      var index := 0;
      while index < |chain|
        invariant 0 <= index <= |chain|
        invariant errorLog == ErrorLog(digest, chain, index)
        invariant index > 0 ==> !Unsettles(digest, chain)
      {
        var block := chain[index];
        if Validates(digest, block) {
          if block.height > 0 {
            if index == 0 {
              return Err(MissingPredecessor);
            }
            if block.prev != Some(chain[index - 1].hash) {
              HeightsSnoc(chain, FlaggedIndices(digest, chain, index), index);
              errorLog := errorLog + [block.height];
            }
          }
        } else {
          HeightsSnoc(chain, FlaggedIndices(digest, chain, index), index);
          errorLog := errorLog + [block.height];
        }
        index := index + 1;
      }
      r := Ok(errorLog);
      if Valid() {
        IntactChainValidates(digest, chain);
      }
    }
  }
}
