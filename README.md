# Private star registry blockchain, modelled in Dafny

This project models `src/blockchain.js` of a small private blockchain that records star
ownership claims. The `Blockchain` class keeps an in-memory chain of blocks. Each block has
its position (`height`), a clock stamp (`time`), the hash of its predecessor
(`previousBlockHash`, `null` for the genesis block), its own hash and an encoded body.

- Appending happens only through `_addBlock`.
- The constructor creates the genesis block through `initializeChain`.
- A wallet owner asks for a challenge message `address:seconds:starRegistry`, signs it, and
  submits it with a star. `submitStar` appends the claim only when the challenge is less than
  300 seconds old and the signature verifies.
- Blocks can be looked up by hash, by height and by wallet address.
- `validateChain` re-checks every block's hash and its link to the predecessor and lists the
  heights of the bad ones.

Layout, one module per file:

- `results.dfy` (`Results`): `Option`, the failure kinds and `Result`.
- `js_text.dfy` (`JsText`): the JavaScript behaviour the ledger relies on to write the clock as
  text and read it back. That is `toString()` of an integer, `slice(0, -3)`, `split(':')` and
  `parseInt`.
- `blocks.dfy` (`Blocks`): the block as a value. The digest is a parameter, `validate()` is
  `Validates` and `getBData()` is `BData`.
- `chain.dfy` (`Chain`): everything the ledger computes from its sequence of blocks, with the
  lemmas about intact and altered chains.
- `ownership.dfy` (`Ownership`): the challenge message and the gate of `submitStar`.
- `registry.dfy` (`Registry`): the `Blockchain` class. Its fields are `chain: seq<Block>`,
  `height: int` and the digest. Its methods mutate the chain or scan it with loops.

The digest (SHA-256 of the block's JSON) is a function-valued parameter fixed when a chain is
created. Nothing is assumed about it, so every hash property is stated for any digest. Where
detecting an alteration needs the digest to change, the lemma says so in its `requires`. The
signature check is a function-valued parameter of `SubmitStar`. The clock is the parameter
`nowMs`, the milliseconds that `new Date().getTime()` returns.

Where the behaviour of the code differs from what its own doc comments promise (the comments
on `getStarsByWalletAddress` and `validateChain`, src/blockchain.js:197-202 and 226-231) or
leaves a branch unreachable (src/blockchain.js:220-221 and 253-254), the model follows the code:

- `validateChain` decides whether to check a block's link by the block's `height` field, not
  by its position. If the first block passes its own check but claims a positive height, the
  code reads `chain[-1].hash` and throws inside the promise executor, so the promise never
  settles. The model reports this case as `Err(MissingPredecessor)` (`Chain.Unsettles`).
- `validateChain` always resolves with the list, even an empty one. The "no error" message is
  unreachable because `errorLog != []` is always true.
- `getStarsByWalletAddress` never rejects, for the same reason (`stars != []`). It resolves
  with an empty list when nothing matches.
- The time stored in a block is text, the clock's decimal digits without the last three. The
  challenge's time field is read back with `parseInt`. A non-numeric field, or a message
  without a second `:`-separated field, gives `NaN`, and `NaN` always fails the window check.

## Model

| member | source | states |
|---|---|---|
| JsText.Decimal | src/blockchain.js:72 | the decimal text of a clock reading is non-empty and made of decimal digits only |
| JsText.DecimalValue | src/blockchain.js:127 | reading the decimal text of `n` back as digits gives `n` |
| JsText.ParseDigits | src/blockchain.js:126-127 | `parseInt` of a non-empty run of decimal digits is the number those digits denote |
| JsText.ParseDecimal | src/blockchain.js:126-127 | `parseInt` inverts `toString` on non-negative integers |
| JsText.ClockSecondsIsSeconds | src/blockchain.js:72 | `getTime().toString().slice(0, -3)` is the decimal text of the whole seconds once the clock reads at least 1000 ms, and empty before that |
| JsText.ParseClockSeconds | src/blockchain.js:127 | `parseInt` of the clock text is the whole seconds, and `NaN` before the first second |
| JsText.Split | src/blockchain.js:126 | `split(sep)` gives at least one piece, and no piece contains the separator |
| JsText.SplitWithoutSeparator | src/blockchain.js:126 | a text without the separator splits into itself alone |
| JsText.SplitAtSeparator | src/blockchain.js:126 | the first piece ends at the first separator, and the rest is split on its own |
| Chain.AppendKeepsIntact | src/blockchain.js:71-82 | appending the block `_addBlock` builds keeps every height, self-check and link of an intact chain |
| Chain.BuiltChainIsIntact | src/blockchain.js:67-85 | any chain grown from empty only through `_addBlock` is intact: heights are positions, genesis has no predecessor, each block names its predecessor's hash and passes its own check |
| Chain.BuiltChainValidates | src/blockchain.js:237-255 | a chain grown only through `_addBlock` makes `validateChain` settle with the empty list |
| Chain.FindFirst | src/blockchain.js:165 | `find` returns the first index whose block satisfies the predicate, or none when no block does |
| Chain.BlockByHash | src/blockchain.js:163-173 | `getBlockByHash` gives the first block carrying the hash, and fails with `BlockNotFound` exactly when no block carries it |
| Chain.BlockByHeight | src/blockchain.js:185-193 | `getBlockByHeight` gives the first block whose height field matches, and absent (`null`) exactly when none does; it never fails |
| Chain.IntactHeightLookup | src/blockchain.js:186-192 | on an intact chain, lookup by height is indexing, and absent exactly when the height is not an index of the chain |
| Chain.StarsOfConcat | src/blockchain.js:208-214 | the scan keeps chain order: the stars of two consecutive stretches are those of the first followed by those of the second |
| Chain.StarsOfExactly | src/blockchain.js:208-214 | a claim is listed iff some block decodes to it and its address matches; blocks that decode to nothing, such as genesis, are skipped |
| Chain.FlaggedIndices | src/blockchain.js:237-249 | the recorded indices are ascending, each recorded at most once, each flagged, and every flagged index is recorded |
| Chain.IntactChainValidates | src/blockchain.js:237-255 | an intact chain makes `validateChain` settle with the empty list |
| Chain.TamperedBlockReported | src/blockchain.js:238-248 | altering a block's fields but keeping its stored hash, with the digest changing, makes `validateChain` report exactly that block's height |
| Chain.RehashedBlockReportsSuccessor | src/blockchain.js:238-244 | altering the time or body of block `i`, keeping its height and predecessor hash, and re-hashing it consistently makes `validateChain` report exactly `i + 1`, and nothing when `i` is the tip |
| Chain.RehashedTipThenAppendValidates | src/blockchain.js:71-82 | altering the time or body of the tip, keeping its height and predecessor hash, re-hashing it consistently and then appending through `_addBlock` links the new block to the forged tip, and `validateChain` settles with the empty list |
| Ownership.Admit | src/blockchain.js:126-150 | `submitStar` admits a claim iff `currentTime - messageTime < 300` and the signature verifies; an expired or `NaN` time is rejected as expired whatever the signature, and a bad signature inside the window as not verified |
| Ownership.SplitChallenge | src/blockchain.js:98 | a challenge whose address and time hold no `:` splits back into address, time and `starRegistry` |
| Ownership.ChallengeFields | src/blockchain.js:97-98 | the embedded time of a challenge for a `:`-free address reads back as the seconds it was issued at |
| Ownership.ChallengeAnswerWindow | src/blockchain.js:95-149 | a challenge issued at one clock reading and answered at another is admitted iff fewer than 300 whole seconds lie between them and the signature verifies; at 300 seconds or more it is expired whatever the signature |
| Ownership.MessageWithoutTimeExpires | src/blockchain.js:126-131 | a message without a second field reads as `NaN` and is rejected as expired whatever the clock and signature |
| Registry.Blockchain.constructor | src/blockchain.js:25-29 | a new chain holds exactly the genesis block (height 0, no predecessor, the genesis body), and the chain's height is 0 |
| Registry.Blockchain.InitializeChain | src/blockchain.js:36-43 | appends the genesis block only when the height is -1, and is a no-op otherwise; afterwards block 0 has height 0 and no predecessor |
| Registry.Blockchain.GetChainHeight | src/blockchain.js:48-53 | returns the height, which is one less than the number of blocks, whether or not stored blocks were altered |
| Registry.Blockchain.AddBlock | src/blockchain.js:67-85 | on any chain, altered or not, appends one block at the end and changes no earlier block; the new block's height is the old length, its predecessor hash is the current tip's hash (`null` on an empty chain), it passes its own check, the height field goes up by one, and an intact chain stays intact |
| Registry.Blockchain.RequestMessageOwnershipVerification | src/blockchain.js:95-103 | the message is `address:seconds:starRegistry`, and for a `:`-free address its time field reads back as the current seconds |
| Registry.Blockchain.SubmitStar | src/blockchain.js:122-152 | on any chain, altered or not, appends exactly one block holding `{address, message, signature, star}` iff the gate admits it; otherwise it rejects with the gate's reason and leaves chain and height unchanged; a stored claim becomes the last star of its address; an intact chain stays intact |
| Registry.Blockchain.GetBlockByHash | src/blockchain.js:160-175 | returns a block of the chain that carries the hash, or `BlockNotFound` when no block does |
| Registry.Blockchain.GetBlockByHeight | src/blockchain.js:182-195 | on a valid chain returns the block at that index, or absent out of range; never an error |
| Registry.Blockchain.GetStarsByWalletAddress | src/blockchain.js:203-224 | the loop collects exactly the scan `StarsOf`: the decoded claims by that address in chain order, each with that address |
| Registry.Blockchain.ValidateChain | src/blockchain.js:232-257 | the loop settles with `Validation`: the height fields of the flagged blocks, in chain order, or never settles when the first block passes its own check but claims a positive height; on a valid chain the log is empty |

## Left out

- Logging with `console.log` is left out. It has no effect on the chain.
- Promises, `async`/`await` and `resolve`/`reject` are left out. Every operation is synchronous and returns its value or a `Result`.
- The JSON-and-SHA-256 hash is not modelled. It is the `digest` parameter over the height, time, predecessor hash and body.
- The way `bitcoinjs-message` checks signatures is not modelled. It is the `verify` parameter. When it throws on a malformed address or signature, the code leaves the promise pending; the model does not cover that case.
- The wall clock is not modelled. It is the `nowMs` parameter, and clock readings before 1970 (negative) are not covered.
- Registry.Blockchain.SubmitStar: uses one clock reading for the window check and for the block's stamp. The code reads the clock twice, once in `submitStar` and once in `_addBlock`, a few milliseconds apart.
- `block.js` is not part of this model. That covers the `Block` constructor, the hex/JSON encoding of the body, `validate()` and `getBData()`. They appear only through `Validates` (stored hash equals the digest of the other fields) and `BData` (the claim, or nothing for the genesis marker). Encoding and decoding the body is lossless by construction.
- `toString()` of a number is modelled as plain decimal digits; JavaScript switches to exponent notation from 10^21 on, far beyond any clock reading (`Date` values stay below 8.64·10^15).
- `parseInt` returns a double. Precision loss beyond 2^53 is not modelled; the model reads digits as unbounded integers.
- JavaScript strings are UTF-16 code units, but the model's characters are Unicode scalar values.
- Comparisons with `==`/`!=` between strings are modelled as equality.
- Blocks are values, not shared objects. `_addBlock` writes the height, time, predecessor hash and hash onto the caller's block object in place, and `submitStar`, `getBlockByHash` and `getBlockByHeight` resolve with the very object stored in the chain, so a caller that changes a returned block changes the chain. The model returns copies and does not capture this aliasing or the in-place update; an alteration of the chain is stated as replacing a block (`chain[i := t]`).
- The star of a claim is a JSON object in the code; the model keeps it as an uninterpreted `string`, since nothing in the ledger looks inside it.
- Altering a block so that a field takes another type (a height that is a string, say) is not modelled. Neither is calling `getBlockByHeight` with a non-number, which never matches under `===`.
- Persistence, the REST layer and concurrent writers are not modelled. None of them is in this file.
