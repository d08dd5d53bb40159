# A verified model of a minimal proof-of-work ledger

This project models the ledger engine of a small Python blockchain (`blockchain.py`):
the `Blockchain` object, which holds a chain of blocks and a pool of pending
transfers (`current_transaction`), and the body of the `/mine` request handler.

- `Blocks` (blocks.dfy): transfers, blocks, the two kinds of value stored as a
  block's `previous_hash` (the integer sentinel `1` of the genesis block, or a hex
  digest), Python truthiness of that value, the index invariant
  (`chain[i].index == i + 1`) and the flattening of all sealed transfers.
- `Decimal` (decimal.dfy): the decimal text that `f'{n}'` produces for an `int`,
  with its inverse and the round-trip lemmas.
- `Chain` (chain.dfy): `hash`, `is_valid_proof` (the digest of
  `f'{last_proof}{crnt_proof}'` starts with `"0000"`), the hash-linking predicate
  and the class `Blockchain` with `__init__`, `last_block`, `new_block`,
  `new_transaction` and `proof_of_work`.
- `Node` (node.dfy): `Mine`, the state-changing part of `/mine`.
- `Session` (session.dfy): a client of the above that replays the exchange
  "submit A→B 5, then mine" on a fresh ledger.

SHA-256 hexdigest and `json.dumps(..., sort_keys=True)` are library calls; they
are the two function-valued constants `sha256Hex` and `sortedJson` of a
`Blockchain`, fixed by its constructor, and every property is proved for every
choice of them. The block hash is `sha256Hex(sortedJson(block))`. Because a block
is a Dafny value, two blocks with equal fields are equal, so the hash cannot
depend on the order in which fields were written. The clock (`time()`) and the
node identity (`uuid4`) are parameters.

Invariants kept by the class:
- `Valid()`: the chain is never empty and block i (0-based) has index i + 1.
  The constructor establishes it. `new_transaction`, `new_block` and mining
  preserve it.
- `Linked()`: every block after the first carries `Digest(hash(predecessor))`.
  The constructor establishes it. Mining and `new_block` without a truthy
  `previous_hash` preserve it.
- `Accepted()`, the sealed transfers followed by the pool, only grows at the end.
  `new_transaction` appends the new record, mining appends the reward, and
  `new_block` leaves it unchanged. So the pool moves into exactly one block:
  nothing is lost and nothing is duplicated.

Two details of the code shape the model:
- `new_block` takes an optional `previous_hash` and keeps it when it is truthy.
  It hashes the last block only when the argument is omitted, `0` or `""`.
- `new_transaction` returns `last_block['index'] + 1`, not a chain length. The
  two are equal under the index invariant, and the model proves that.

## Model

| member | source | states |
|---|---|---|
| Decimal.Dec | blockchain.py:93 | the decimal text of a natural is never empty, and it starts with '0' exactly when the number is zero (no leading zeros) |
| Decimal.DecDigits | blockchain.py:93 | the decimal text of a natural consists of digits only |
| Decimal.DecRoundTrip | blockchain.py:93 | reading the decimal text back gives the number |
| Decimal.DecInjective | blockchain.py:93 | distinct naturals have distinct decimal texts |
| Decimal.Text | blockchain.py:93 | `f'{i}'` is never empty, and it starts with '-' exactly when i is negative |
| Decimal.TextWellFormed | blockchain.py:93 | `f'{i}'` is digits, optionally after one '-' |
| Decimal.TextRoundTrip | blockchain.py:93 | reading `f'{i}'` back gives i, negative values included |
| Decimal.TextInjective | blockchain.py:93 | distinct integers have distinct texts |
| Blocks.AllTransactionsAppend | blockchain.py:25-35 | appending a block extends the sequence of sealed transfers by exactly that block's transfers |
| Blocks.IndexedAppend | blockchain.py:26 | an indexed chain stays indexed after an append exactly when the new block's index is the old length + 1 |
| Chain.HashDeterministic | blockchain.py:55-63 | `Hash` (`sha256Hex` of `sortedJson` of the block) gives equal digests to blocks with equal field values, whatever order their fields were written in |
| Chain.LinkedAppend | blockchain.py:30 | a hash-linked chain stays linked after an append exactly when the new block carries `Digest(Hash(old last block))` |
| Chain.GuessInjective | blockchain.py:78-93 | `Guess` (the last proof's text followed directly by the candidate's) gives distinct texts for distinct candidates when the previous proof is fixed |
| Chain.GuessAmbiguous | blockchain.py:93-96 | `Guess` has no separator, so (1, 23) and (12, 3) give the same text and the same verdict |
| Chain.IsValidProof | blockchain.py:85-96 | a proof is valid exactly when the digest of `Guess` has at least four characters and the first four are '0'; `Head` models Python's `[:4]`, which returns a shorter string whole |
| Chain.Blockchain.LastBlock | blockchain.py:65-67 | the last block; under the index invariant its index is the chain length |
| Chain.Blockchain.constructor | blockchain.py:12-15 | one genesis block (index 1, no transfers, proof 100, previous hash sentinel 1), an empty pool, both invariants hold |
| Chain.Blockchain.NewBlock | blockchain.py:17-36 | appends exactly one block with index old length + 1, the old pool as its transfers, the given proof and timestamp, and previous hash = the argument when `Supplied` (given, and by `Truthy` neither 0 nor the empty string), else the digest of the old last block; the pool is emptied; the invariants are preserved |
| Chain.Blockchain.NewTransaction | blockchain.py:38-52 | appends exactly one record to the end of the pool, leaves the chain unchanged, and returns last index + 1, which is chain length + 1 under the index invariant |
| Chain.Blockchain.ProofOfWork | blockchain.py:69-82 | returns the least non-negative valid proof: it is valid and no smaller natural is |
| Node.Mine | blockchain.py:121-134 | appends exactly one block whose transfers are the old pool followed by `Reward` ("0" to the node, amount 1), whose proof is the least valid one against the old last proof, and whose previous hash is the digest of the old last block; the pool is emptied and both invariants are preserved |
| Session.SubmitThenMine | blockchain.py:114-134 | on a fresh ledger, submitting A→B 5 predicts block 2; mining then seals block 2 holding that transfer and `Reward(nodeId)` (sender "0", amount 1), linked to the genesis block, and the chain has length 2 |

## Left out

- Flask routes, JSON request parsing, the `'Missing values'` rejection, `jsonify` responses and `app.run` (blockchain.py:99, 106-117, 136-157): transport, not ledger logic. The `/chain` route only reads the `chain` field, which is public in the model.
- `uuid4` node identity (blockchain.py:101): random; the node id is a parameter of `Mine`.
- `time()` (blockchain.py:27): wall clock; the timestamp is a parameter, with no ordering assumed.
- SHA-256, `json.dumps(..., sort_keys=True)` and `.encode()` (blockchain.py:62-63, 93-94): library code; they are arbitrary functions, with the UTF-8 encoding folded into `sha256Hex`. Nothing is claimed about digest distribution, so no expected running time or difficulty scaling is stated.
- Chain.Blockchain.ProofOfWork: requires a ghost `knownValid` proof that is valid, because the source loop has no bound and Dafny admits only terminating loops; the least valid proof is found whatever `knownValid` is.
- Node.Mine: requires the same ghost `knownValid` proof, for the same reason.
- Amounts are integers, the type the source documents; a JSON request could carry any JSON value there.
- The `previous_hash` argument is an integer or a string; other Python values it could be given are not modelled.
- Object aliasing: `new_block` returns the same dictionary it stores in the chain, and the sealed list is the old pool object. Blocks are values here, so a caller cannot mutate a sealed block through the returned reference.
- Concurrency: the model runs one operation at a time; requests that the Flask server may handle concurrently (a transfer arriving while `/mine` searches for a proof) are not modelled.
- The `IndexError` that `self.chain[-1]` raises on an empty chain (blockchain.py:30, 52, 67) is not modelled: `NewBlock`, `NewTransaction` and `LastBlock` require a non-empty chain (or, for `NewBlock`, a truthy `previous_hash`). No call in the program reaches that case: `__init__` passes `1`, and every other call comes after construction.
- The module-level singleton `blockchain` (blockchain.py:103): the ledger is an explicit object passed to `Mine`.
