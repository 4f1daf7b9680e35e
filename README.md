# hello-blockchain ledger core, modelled in Dafny

This project models the `Chain` type of `src/blockchain.rs`: a single-owner,
append-only ledger. A `Chain` holds a list of mined blocks, a pool of pending
transactions, a difficulty, the miner's address and a block reward.
`generate_new_block` builds the next block from:

- the reward transaction (sender `"Root"`, receiver the miner, amount the reward), followed by the drained pool;
- a header that links to the fingerprint of the previous header (or to 64 `'0'`s on an empty chain);
- the Merkle root of the final transaction list, taken before mining;
- a nonce found by proof of work.

The block is then appended.

Modules, one file each:

- `Types` (`types.dfy`): `Transaction`, `BlockHeader`, `Block`, the `u32`/`i32`/byte ranges and the `as u32` cast.
- `Hex` (`hex.dfy`): `hex_to_string`, which writes each digest byte with `{:x}`. The output has no zero padding, so a byte below 16 gives one character. This quirk is kept throughout.
- `Hashing` (`hashing.dfy`): `Chain::hash` is `HexOf(digest(v))`. `digest` stands for SHA-256 over the JSON serialisation and is a function parameter. The only thing assumed about it is that it returns 32 bytes.
- `Merkle` (`merkle.dfy`): `get_merkle` as a method with its two loops. It is proved equal to `MerkleRoot`, a front-to-back queue reduction. The queue functions are generic in the fingerprint function and in the merge, so the pairing-order lemmas hold for any hash.
- `Mining` (`mining.dfy`): `str::parse::<u32>`, the acceptance test, and `proof_of_work` as a loop bounded by fuel.
- `Blockchain` (`blockchain.dfy`): the class `Chain`, whose fields are the source's fields. Its `Valid()` invariant says that:
  - each block starts with a reward transaction to the miner;
  - `count` is the length cast to `u32`;
  - `merkle` is the Merkle root of the block's transactions;
  - every header passes proof of work;
  - each `pre_hash` is `last_hash` of the chain before that block.

Two details follow the code rather than the intuitive reading:

- The code stores `count` as `transactions.len() as u32`, so `count` equals the length only below 2^32 transactions.
- `parse::<u32>` also accepts a leading `+`. It can never appear in a fingerprint, so acceptance means exactly: `difficulty` is positive and the fingerprint starts with that many `'0'`s.

## Model

| member | source | states |
|---|---|---|
| `Types.AsU32` | src/blockchain.rs:82 | `len() as u32` keeps the low 32 bits; it is the length itself whenever the length is below 2^32 |
| `Hex.HexByte` | src/blockchain.rs:181 | `{:x}` of a byte: lower-case hex digits only; two characters exactly when the byte is at least 16, otherwise one |
| `Hex.HexByteRoundTrip` | src/blockchain.rs:181 | reading the rendering back as a hex numeral gives the byte, and there is no leading zero (except for 0 itself) |
| `Hex.HexOf` | src/blockchain.rs:178-185 | the rendering of n bytes is made of hex digits and has between n and 2n characters |
| `Hex.HexToString` | src/blockchain.rs:178-185 | the appending loop returns exactly `HexOf(bytes)` |
| `Hex.HexOfAppend` | src/blockchain.rs:180-182 | rendering distributes over concatenation, so the output follows the input byte order |
| `Hex.HexOfCons` | src/blockchain.rs:180-182 | the first byte's rendering comes first in the output |
| `Hex.ZeroByteFirst` | src/blockchain.rs:180-182 | an output that starts with `0` starts with a zero byte, which renders as the single character `0` |
| `Hex.LeadingZeros` | src/blockchain.rs:178-185 | an output that starts with k `'0'`s comes from at least k bytes |
| `Hex.HexOfLength` | src/blockchain.rs:178-185 | the length is between n and 2n; it is exactly 2n iff every byte is ≥ 16, and exactly n iff every byte is < 16 |
| `Hex.HexNotInjective` | src/blockchain.rs:178-185 | two different byte strings of equal length render to the same text (`[0x01,0x23]` and `[0x12,0x03]` both give `"123"`) |
| `Hashing.Hash` | src/blockchain.rs:167-176 | a fingerprint is made of hex digits; with a 32-byte digest it has 32 to 64 characters |
| `Hashing.HashWithShaped` | src/blockchain.rs:167-176 | a 32-byte digest makes every fingerprint 32–64 lower-case hex characters |
| `Merkle.Leaves` | src/blockchain.rs:124-127 | one fingerprint per transaction, in input order |
| `Merkle.Padded` | src/blockchain.rs:129-132 | after padding the queue has even length, the original entries come first, and an added entry is a copy of the last one |
| `Merkle.PaddedEven` | src/blockchain.rs:129-132 | for a non-empty transaction list the padded queue is even and holds at least two entries |
| `Merkle.PairHash` | src/blockchain.rs:135-138 | definition: two popped entries merge into `hash` of the first followed by the second |
| `Merkle.Step` | src/blockchain.rs:134-140 | one loop iteration (pop two, push one) shrinks the queue by exactly one |
| `Merkle.Reduce` | src/blockchain.rs:134-142 | definition: repeat the loop step until one entry is left, and return it |
| `Merkle.ReduceIsMerge` | src/blockchain.rs:134-140 | from two entries on, the entry left at the end is the result of a merge, never an entry passed through |
| `Merkle.MerkleRoot` | src/blockchain.rs:121-143 | definition: hash the transactions, pad to an even count, reduce |
| `Merkle.MerkleRootIsHash` | src/blockchain.rs:124-142 | the root is always `hash` of a concatenation, even for one transaction; with a 32-byte digest it is a 32–64-character hex fingerprint |
| `Merkle.GetMerkle` | src/blockchain.rs:121-143 | for a non-empty list, the hashing loop, the odd padding and the pairing loop return `MerkleRoot` (an empty list panics in the source) |
| `Merkle.IterateStep` | src/blockchain.rs:134-140 | after k iterations the queue has length − k entries, and iteration k+1 is one more step on that queue |
| `Merkle.IterateShape` | src/blockchain.rs:134-140 | iterating never changes the entry the loop finally returns |
| `Merkle.QueueEndsWithRoot` | src/blockchain.rs:134-142 | the loop ends after exactly (padded length − 1) iterations, holding one entry, the root that is popped |
| `Merkle.MerkleSingle` | src/blockchain.rs:124-139 | `get_merkle([t]) == hash(hash(t) ++ hash(t))` |
| `Merkle.MerkleThree` | src/blockchain.rs:124-139 | `get_merkle([a,b,c]) == hash(hash(ha ++ hb) ++ hash(hc ++ hc))`, with the first-popped entry on the left |
| `Merkle.ReduceSix` | src/blockchain.rs:134-140 | with six entries, the pair `ef` becomes the LEFT operand of the final merge with `abcd`: queue order, not tree order |
| `Merkle.IterateHalf` | src/blockchain.rs:134-140 | popping the front half of the pairs of `q ++ r` leaves `r` followed by one tree level of `q` |
| `Merkle.ReduceMatchesTree` | src/blockchain.rs:134-140 | for 2^k entries the queue pairing equals a level-by-level binary tree (an independent reference definition) |
| `Mining.ParseU32` | src/blockchain.rs:150 | a successful `parse::<u32>` needs a non-empty string |
| `Mining.DecimalZero` | src/blockchain.rs:150-152 | a decimal numeral is 0 iff all its digits are `'0'` |
| `Mining.ParseZero` | src/blockchain.rs:150-158 | `parse::<u32>` yields 0 iff the string is a non-empty run of `'0'`s, optionally after `'+'` |
| `Mining.Accepted` | src/blockchain.rs:147-152 | definition: the first `difficulty` characters of the header's fingerprint exist and parse as the `u32` 0 |
| `Mining.AcceptedMeansLeadingZeros` | src/blockchain.rs:147-158 | a header is accepted iff `0 < difficulty ≤ |fingerprint|` and the fingerprint's first `difficulty` characters are all `'0'` |
| `Mining.ZeroDifficultyNeverAccepted` | src/blockchain.rs:146-164 | with difficulty 0 the empty slice never parses, so no header is accepted and the source's loop never exits |
| `Mining.AcceptedDifficultyBound` | src/blockchain.rs:145-165 | with a 32-byte digest no header with a difficulty above 32 is ever accepted |
| `Mining.ProofOfWork` | src/blockchain.rs:145-165 | only `nonce` changes and never drops below its start; it rises by one per rejected attempt; on success the header is accepted and no nonce between the start and the result was |
| `Blockchain.RewardTransaction` | src/blockchain.rs:68-72 | definition: `"Root"` pays the miner the current reward |
| `Blockchain.GenesisIsZeros` | src/blockchain.rs:105 | the empty-chain sentinel is exactly 64 `'0'`s |
| `Blockchain.LastHashOf` | src/blockchain.rs:102-109 | definition: 64 `'0'`s for no blocks, otherwise `hash` of the last block's header |
| `Blockchain.LastHashShaped` | src/blockchain.rs:102-109 | `last_hash` is always 32–64 lower-case hex characters, the 64-zero sentinel included |
| `Blockchain.LinkedAppend` | src/blockchain.rs:63 | a block extends a linked chain iff its `pre_hash` is the chain's `last_hash` |
| `Blockchain.ChainExtends` | src/blockchain.rs:54-90 | appending a well-formed block that points at `last_hash` keeps the chain well formed |
| `Blockchain.LinkedMeansHashLinks` | src/blockchain.rs:102-109 | in a linked chain, block 0 carries 64 `'0'`s and each later block carries `hash` of the previous header |
| `Blockchain.MinedFrom` | src/blockchain.rs:74-84 | definition: a block holds the given transactions and their count as `u32`; its header has the given fields, their Merkle root, and the first accepted nonce, below `fuel` |
| `Blockchain.NoNonceBelow` | src/blockchain.rs:145-165 | definition: no nonce below `fuel` gets the header for these inputs accepted |
| `Blockchain.MineBlock` | src/blockchain.rs:74-84 | `found` is true exactly when some nonce below `fuel` is accepted: then the block is `MinedFrom` its inputs, otherwise `NoNonceBelow` holds |
| `Blockchain.AppendMined` | src/blockchain.rs:80-87 | pushing a block mined from the reward to the miner followed by the pool, linked to `last_hash`, keeps the chain invariant and the earlier blocks |
| `Blockchain.Chain.Init` | src/blockchain.rs:41-47 | the struct literal: no blocks, an empty pool, reward 100.0, the given miner and difficulty |
| `Blockchain.Chain.New` | src/blockchain.rs:40-52 | the pool is empty and the reward is 100.0; `ok` is false exactly when no nonce below `fuel` is accepted for the genesis header; otherwise the chain holds one block mined from the sole 100.0 reward to the miner, with `pre_hash` 64 `'0'`s |
| `Blockchain.Chain.LastHash` | src/blockchain.rs:102-109 | 64 `'0'`s on an empty chain, otherwise `hash` of the last block's header |
| `Blockchain.Chain.GenerateNewBlock` | src/blockchain.rs:54-90 | see the list below this table |
| `Blockchain.Chain.NewTransaction` | src/blockchain.rs:92-100 | appends the transfer to the pool, changes nothing else, returns true |
| `Blockchain.Chain.UpdateDifficulty` | src/blockchain.rs:111-114 | sets `difficulty`, changes nothing else, returns true |
| `Blockchain.Chain.UpdateReward` | src/blockchain.rs:116-119 | sets `reward`, changes nothing else, returns true |

`Blockchain.Chain.GenerateNewBlock` promises that:

- the chain grows by exactly one block and the earlier blocks are unchanged;
- the new block's transactions are the reward (`"Root"` → miner, reward) followed by the old pool, in order;
- the pool is empty afterwards;
- `count` is the length cast to `u32`;
- `pre_hash` is the old `last_hash`;
- `merkle` is `get_merkle` of the transactions;
- `difficulty` and `timestamp` are the configured and given values;
- `ok` is true exactly when some nonce below `fuel` is accepted; then the block's nonce is the first accepted one, and otherwise no nonce below `fuel` is accepted;
- the chain invariant is kept.

## Left out

- SHA-256 and `serde_json` (src/blockchain.rs:167-176) are foreign code. Together they are the `digest` parameter. The only assumption is that every digest is 32 bytes; nothing is assumed about collisions.
- The clock read and its `as i32` truncation (src/blockchain.rs:55-61) are not modelled. The timestamp is a parameter.
- The `println!` dumps (src/blockchain.rs:86, 155) are console output and are not modelled.
- `f32` amounts and the reward are modelled as `real`. They are only copied and stored, so rounding plays no part.
- `Chain` holds the fingerprint function as a constant built from the digest when it is constructed. The source calls `Chain::hash` directly.
- `Merkle.GetMerkle` receives `Chain::hash` as a parameter for the same reason.
- `Mining.ProofOfWork`: the source loops without bound. The model makes at most `fuel` attempts. `found` is false when the fuel runs out first.
- `Blockchain.Chain.GenerateNewBlock`: returns false instead of never returning when no nonce below `fuel` is accepted. No block is appended then, and the pool is already drained, as in the source while it is still searching.
- `Blockchain.Chain.New`: when no nonce below `fuel` is accepted for the genesis block, it returns a chain with no blocks and `ok` false.
- A `u32` overflow of `nonce` (src/blockchain.rs:153, 160) is excluded by a precondition: the starting nonce plus the fuel stays below 2^32.
- The slice panic when `difficulty` exceeds the fingerprint length (src/blockchain.rs:148) is excluded by the precondition `difficulty <= 32`. Nothing with a working outcome is lost: `Mining.AcceptedDifficultyBound` shows that no header with a difficulty above 32 is ever accepted, so the source either panics or never returns there.
- The `pop().unwrap()` panic of `get_merkle` on an empty list (src/blockchain.rs:142) is excluded by a precondition. The chain always passes at least the reward transaction.
