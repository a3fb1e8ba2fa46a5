/**
 * The interface of a block as the ledger uses it. The block's own class lives in `block.js`,
 * which is not part of this model: a block is a value here, its digest is a parameter, its
 * integrity check is `Validates` and its decoded body is `BData`.
 */
module Blocks {
  import opened Results

  /** What a successful ownership proof stores: the wallet address, the signed challenge, the signature and the star. */
  datatype StarClaim = StarClaim(address: string, message: string, signature: string, star: string)

  /** The decoded body of a block: the genesis marker `{data: ...}` or a star claim. */
  datatype Payload = Marker(text: string) | Claim(claim: StarClaim)

  /** The body of the genesis block. */
  const GenesisPayload := Marker("Genesis Block")

  /**
   * A stored block. `time` is the clock text the ledger wrote; `prev` is `None` where the
   * ledger wrote `null`. Every field is as it currently stands, so a block that was altered
   * after it was stored is a value like any other.
   */
  datatype Block = Block(height: int, time: string, prev: Option<string>, hash: string, data: Payload)

  /** The digest of a block's fields other than its hash (height, time, predecessor hash, body). */
  type Digest = (int, string, Option<string>, Payload) -> string

  /** A block with these fields, its hash computed over them. */
  function Seal(digest: Digest, height: int, time: string, prev: Option<string>, data: Payload): Block {
    Block(height, time, prev, digest(height, time, prev, data), data)
  }

  /** `block.validate()`: the stored hash is the digest of the other fields as they stand. */
  predicate Validates(digest: Digest, b: Block) {
    b.hash == digest(b.height, b.time, b.prev, b.data)
  }

  /** `block.getBData()`: the decoded star claim, or `None` (`undefined`) for a block that holds none. */
  function BData(b: Block): Option<StarClaim> {
    match b.data
    case Claim(c) => Some(c)
    case Marker(_) => None
  }
}
