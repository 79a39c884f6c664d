# A verified model of a single-node proof-of-work ledger

This project models `blockchain.py`, a small single-node ledger, in Dafny. The ledger has four classes:

- **Transaction** moves an amount from a sender to a receiver. It stores a SHA-256 content hash over its four data fields. It can carry an RSA signature over that hash.
- **Block** holds an index, a list of transactions, the hash of the block before it, a timestamp, a nonce and its own hash. The hash covers all of these fields. Mining counts the nonce up until the hash starts with `difficulty` zeros.
- **Blockchain** starts with a genesis block.
  - `add_block` builds the next block, linked to the latest hash, mines it, and appends it only if it is valid.
  - `is_chain_valid` walks the chain and checks each block and each link.
- **TransactionPool** is a first-in, first-out queue. It admits only structurally valid transactions and hands them out in batches from the front.

## How the model is organised

| module | file | models |
|---|---|---|
| `Wrappers` | wrappers.dfy | `Option`, `Result`, `Outcome`: Python's `None`, and the exceptions the code raises |
| `Slices` | slices.dfy | Python's `s[:k]` and `s[k:]` for every integer `k`, negative ones included |
| `Encoding` | encoding.dfy | `str()` of an integer, and lower-case hexadecimal of bytes |
| `Serialization` | serialization.dfy | `t.__dict__`, and `json.dumps([...], sort_keys=True)` over a transaction list |
| `Hashing` | hashing.dfy | SHA-256 hex digests, and the mining target `hash[:d] == "0" * d` |
| `Transactions` | transactions.dfy | class `Transaction`, and the raising constructor as `NewTransaction` |
| `Blocks` | blocks.dfy | class `Block`: its hash input, the hash itself, mining and validity |
| `Pool` | pool.dfy | class `TransactionPool` |
| `Ledger` | ledger.dfy | class `Blockchain`, plus chain validity and its preservation |

**Attributes.**
- Attributes that the code assigns after construction are `var` fields:
  - the signature of a transaction;
  - the nonce and hash of a block;
  - the chain and the pool's list.
- The hash of a transaction is also a `var` field. The code sets it only in the constructor, but a field that can be overwritten lets the model state what tampering with a stored hash does.
- Every other attribute is a `const` field. The code never reassigns any of them, and that includes the chain's difficulty and its pool.
- Methods name what they change in their `modifies` clauses. Functions name what they read in their `reads` clauses.

**Foreign parts become parameters.**
- SHA-256 is a parameter `h: Hasher`. It is an arbitrary function from strings to 64-character lower-case hex digests. Nothing else about it is assumed: equal inputs give equal digests.
- RSA signing is a `Signer` parameter and verification is a `Verifier` parameter.
- The clock reading `time.time()` is the parameter `now`.

**The hash input.**
- The f-string `f"{index}{previous_hash}{timestamp}{nonce}{json.dumps(...)}"` is a list of interpolated parts (`Blocks.Part`), rendered one after another by `Blocks.Render`.
- The JSON part is the corrected serialisation `Serialization.Dumps`, not the one as written, which raises on a signed transaction (see "## Findings").
- `Blocks.BlockDigestInputIsConcatenation` proves that this is exactly the plain concatenation of the five texts.

## Model

| member | source | states |
|---|---|---|
| `Slices.TakeDropSplit` | blockchain.py:105-106 | `s[:k] + s[k:] == s` for every integer `k`: the two slices lose, duplicate or reorder nothing. |
| `Slices.TakeFront` | blockchain.py:105 | For `k >= 0`, `s[:k]` is the first `min(k, len(s))` elements of `s`, and `s[k:]` holds the rest. |
| `Slices.TakeDropNegative` | blockchain.py:105-106 | For `k < 0`, `s[k:]` is the last `min(-k, len(s))` elements of `s`, and `s[:k]` is everything before them. |
| `Encoding.NatToDecimalRoundTrip` | blockchain.py:20 | `str(n)` of a natural number is all decimal digits and reads back as `n`. |
| `Encoding.IntToDecimalRoundTrip` | blockchain.py:53 | `int(str(i)) == i` for every integer, negative ones included: `str()` alone is injective. Concatenated fields are not; see the two ambiguity lemmas below. |
| `Encoding.BytesToHex` | blockchain.py:54 | In the corrected serialisation, a signature's bytes are written as lower-case hexadecimal, and digit pair `i` is the encoding of byte `i`. |
| `Encoding.ByteToHex` | blockchain.py:54 | A byte is written as two lower-case hexadecimal digits, the high one first, whose values give the byte back. |
| `Encoding.BytesToHexRoundTrip` | blockchain.py:54 | Reading the hexadecimal form back gives the same bytes, so the corrected serialisation puts the whole signature into the hash input. |
| `Serialization.DumpsAsWrittenFailsIffSigned` | blockchain.py:54 | `json.dumps` of the transactions' `__dict__`s, as written, fails exactly when some transaction in the list carries a signature. |
| `Serialization.DumpsExtendsAsWritten` | blockchain.py:54 | Wherever the serialisation as written succeeds, the corrected serialisation produces the same text. |
| `Hashing.MeetsTargetIff` | blockchain.py:58-59 | `hash[:d] == "0" * d` holds exactly when one of two things is true: `0 <= d <= len(hash)` and the first `d` characters are zeros; or `d < 0` and the hash has at most `-d` characters. |
| `Hashing.DigestTargetRange` | blockchain.py:58-59 | No SHA-256 hex digest meets a difficulty above 64, or between -64 and 0. |
| `Transactions.TxDigestInputAmbiguous` | blockchain.py:20 | The transaction hash input does not determine the fields: amount 1 with timestamp 23 and amount 12 with timestamp 3 give the same input for every sender and receiver. |
| `Transactions.Transaction.constructor` | blockchain.py:13-18 | A new transaction holds its arguments, has no signature, and has a stored hash equal to the recomputed one, so it is structurally valid. |
| `Transactions.NewTransaction` | blockchain.py:8-18 | Construction fails with the amount error exactly when `amount <= 0`, and with the address error exactly when the amount is positive but an endpoint is empty. Otherwise it yields a fresh, unsigned, valid transaction. |
| `Transactions.Transaction.SignTransaction` | blockchain.py:22-28 | On a signer failure it raises and keeps the old signature. Otherwise the signature is the signer's output over the stored hash. Structural validity never changes. |
| `Transactions.Transaction.VerifySignature` | blockchain.py:29-38 | A missing or empty signature never verifies. A non-empty one verifies exactly when the verifier accepts it over the stored hash. |
| `Transactions.SignedTransactionVerifies` | blockchain.py:22-38 | A transaction signed with the private key of a key pair verifies under the public key. |
| `Blocks.BlockDigestInputIsConcatenation` | blockchain.py:53-54 | The block's hash input is `str(index) + previous_hash + str(timestamp) + str(nonce) + json`, with nothing between the parts. |
| `Blocks.BlockDigestInputAmbiguous` | blockchain.py:53-54 | The same holds for blocks: timestamp 1 with nonce 23 and timestamp 12 with nonce 3 give the same hash input, whatever the other fields. |
| `Blocks.AllValidIff` | blockchain.py:65 | `all(t.is_valid() for t in txs)`, checked from the front, holds exactly when every transaction is valid. |
| `Blocks.AllValidUnchanged` | blockchain.py:39-41 | Transactions whose attributes did not change are exactly as valid as before. |
| `Blocks.RecordsUnchanged` | blockchain.py:54 | Transactions whose attributes did not change give the same `__dict__`s, hence the same block hash input. |
| `Blocks.Block.constructor` | blockchain.py:44-50 | A new block holds its arguments. Its timestamp is `timestamp or now`, its nonce is 0, and its stored hash equals the recomputed one. |
| `Blocks.Block.MineBlock` | blockchain.py:57-61 | After mining, the hash meets the target and the nonce has not decreased. If the nonce moved, the hash matches the new fields. Every nonce skipped misses the target. Only nonce and hash change. A block whose hash matched its fields is valid exactly when all its transactions are. |
| `Blocks.SearchNonce` | blockchain.py:58-61 | The mining loop returns the first nonce after the start whose hash meets the target, or the start itself when its hash already does. |
| `Blocks.UnreachableDifficultyCannotBeMined` | blockchain.py:58-61 | At a difficulty no digest can meet, no nonce ends the mining loop. |
| `Pool.TransactionPool.constructor` | blockchain.py:95-96 | A new pool is empty. |
| `Pool.TransactionPool.AddTransaction` | blockchain.py:98-102 | Appends `t` and answers true exactly when `t` is valid. Otherwise the pool is unchanged. A pool of valid transactions stays one. |
| `Pool.TransactionPool.SelectTransactions` | blockchain.py:104-107 | With `k` defaulting to 10, returns `old[:k]` and keeps `old[k:]`, so selected plus remaining is the old queue. For `k >= 0` it hands out `min(k, len(old))` transactions. A pool of valid transactions stays one. |
| `Pool.TransactionPool.Clear` | blockchain.py:109-110 | The pool is empty afterwards. |
| `Ledger.TamperedHashBreaksChain` | blockchain.py:84-92 | A block after the genesis block whose stored hash differs from its recomputed hash makes the chain invalid. |
| `Ledger.ForeignHashBreaksChain` | blockchain.py:84-92 | A block after the genesis block whose stored hash is not a hex digest makes the chain invalid. |
| `Ledger.ValidChainAppend` | blockchain.py:77-83 | Appending a valid block that names the latest hash keeps a valid chain valid. |
| `Ledger.ChainValidUnchanged` | blockchain.py:84-92 | Chain validity depends only on the blocks and the transactions they hold. |
| `Ledger.BlockUnchanged` | blockchain.py:64-65 | Block validity depends only on the block and the transactions it holds. |
| `Ledger.MineNewBlock` | blockchain.py:78-79 | The new block is fresh, holds the given contents stamped `now`, and meets the target. It is valid exactly when every transaction in it is. |
| `Ledger.Blockchain.constructor` | blockchain.py:69-72 | The difficulty is the one given, 4 by default. The chain is one fresh genesis block: index 0, no transactions, previous hash `"0"`, nonce 0 and a matching hash. The chain is valid, and the pool is fresh and empty. |
| `Ledger.Blockchain.CreateGenesisBlock` | blockchain.py:73-74 | The genesis block has index 0, no transactions, previous hash `"0"`, nonce 0, and a hash that matches its fields. |
| `Ledger.Blockchain.LatestBlock` | blockchain.py:75-76 | `chain[-1]`: the chain is its other blocks followed by this one. |
| `Ledger.Blockchain.AddBlock` | blockchain.py:77-83 | Returns true exactly when every given transaction is valid. When true, it appends exactly one fresh block and keeps all earlier blocks. That block is valid, has index `len(old chain)`, names the old latest hash, and meets the target. When false, the chain is unchanged. A valid chain stays valid. |
| `Ledger.Blockchain.IsChainValid` | blockchain.py:84-92 | The loop with early returns answers true exactly when every block from index 1 on is valid and names its predecessor's hash. |

## Left out

- `main()` (blockchain.py:112-169) is left out: it is console input and output and key generation. The `print` in `mine_block` (blockchain.py:62) is left out for the same reason.
- The internals of SHA-256, and RSA key import, signing and verification, are not modelled. They are foreign libraries and are parameters here. No property depends on a changed field changing a hash. Tampering is stated as "the stored hash differs from the recomputed one".
- Amounts and timestamps are integers. Float amounts, the float returned by `time.time()`, and Python's formatting of floats inside hash inputs are not modelled. The `isinstance` check on the amount is therefore always true here.
- JSON string escaping, of quotes, backslashes and non-ASCII characters, is not modelled: strings are written between quotes as they are. `str.encode()` before hashing is left inside the hash function.
- `Blocks.Block.MineBlock`: termination is not proved. The loop may never end, for example at a difficulty above 64. Only runs that end are modelled: the precondition asks that the stored hash already meets the target or that some larger nonce does.
- `Blocks.Block.MineBlock`: the search runs over local values, and nonce and hash are stored once it ends. The intermediate values of the two fields during the loop are not observable in the model.
- `Ledger.Blockchain.AddBlock`: its precondition asks that some nonce makes the new block meet the difficulty, as mining requires.
- The `const` fields are never assigned from outside their class in the model, although Python allows it. Overwriting a stored hash, of a block or of a transaction, and overwriting a signature are modelled.
- `Blocks.Block.constructor`, `Blocks.Block.CalculateHash`, `Blocks.Block.IsValid`, `Blocks.Block.MineBlock`, `Ledger.MineNewBlock`, `Ledger.Blockchain.AddBlock`, `Ledger.Blockchain.IsChainValid`: these hash with the corrected serialisation, which writes a signature as hexadecimal. So they return normally on a block holding a signed transaction. The source raises `TypeError` in all of them there (blockchain.py:50, 54, 61, 65, 78, 88). The failure as written is modelled only by `Serialization.DumpsAsWritten`.
- Python lists are modelled as values. Aliasing between the list passed to `add_block` and the one in the chain is not modelled.
- The tests pass an RSA key object rather than key bytes to `sign_transaction` (test_blockchain.py:13-14). As written, `RSA.import_key` (blockchain.py:24) rejects it, so signing raises `ValueError` there. In the model, that is a `Signer` that returns `None` for such a key.

## Findings

| source | as written | input that shows it | evidently intended | confidence | as-written member | corrected member |
|---|---|---|---|---|---|---|
| blockchain.py:54 | `json.dumps([t.__dict__ for t in self.transactions], sort_keys=True)` meets the `bytes` signature that `sign_transaction` stores (blockchain.py:26) and raises `TypeError`. So a block cannot be built, hashed or mined over a signed transaction. | `main()` with a signed transaction in the pool: the exported PEM key (blockchain.py:115) signs it (blockchain.py:139), menu choice 4 calls `add_block` (blockchain.py:151-152), which builds `Block(...)` (blockchain.py:78) and hashes it (blockchain.py:50), and `json.dumps` raises an uncaught `TypeError` | The signature is serialised as a string (here: hexadecimal), so every transaction list has a hash input | high, not executed | `Serialization.DumpsAsWritten` with `Serialization.DumpsAsWrittenFailsIffSigned` | `Serialization.Dumps` with `Serialization.DumpsExtendsAsWritten` |
