# Blockchain ledger model

A Dafny model of the `Blockchain` class of a small proof-of-work
cryptocurrency node (`cryptocurrency.py`). The ledger keeps a hash-linked
chain of blocks and a list of pending transactions. Its operations:

- creating the genesis block at construction;
- creating a block that takes in every pending transaction;
- staging a transaction;
- searching for a proof of work;
- validating a chain;
- replacing the local chain with the longest valid chain that peers report
  (longest-chain consensus);
- one mining step: the body of the `mine_block` HTTP handler.

Layout:

- `blocks.dfy`, module `Blocks`: the `Transaction` and `Block` values, the
  genesis constants (proof 1, previous hash `"0"`), and `Result`/`Fault` for
  the two ways the original raises.
- `validity.dfy`, module `Validity`: the puzzle `proof² − previous_proof²`,
  the leading-zeros test against `"0000"`, the link between two blocks,
  chain validity, and lemmas about them.
- `consensus.dfy`, module `Consensus`: the peer scan of `replace_chain` as a
  left fold (`ScanStep`, `ScanAll`, `Resolve`), and lemmas saying what the
  fold adopts.
- `blockchain.dfy`, module `Cryptocurrency`: the class `Blockchain`. Its
  `chain` and `transactions` fields are updated in place, and its methods
  keep the loops of the original. Each method is proved against the
  functions above.

The two SHA-256 computations are foreign code, so they are not interpreted.
A value `Hashes(ofBlock, ofNumber)` holds two arbitrary functions:

- `ofBlock` is the hex digest of a block's sorted-key JSON text. It stands
  for the `hash` method.
- `ofNumber` is the hex digest of an integer's decimal text.

The ledger stores this value as a constant. Every result holds for every
choice of the two functions. The proof-of-work test is written out around
`ofNumber`: `digest[:4] == "0000"`, which is false for a digest shorter
than four characters.

The system's documented intent differs from the code in a few places. The
model follows the code:

- **Ties between peers.** The documented intent is a peer scan whose result
  does not depend on the order of the peers. The code compares with a
  strict `>` against a running maximum. Of several valid answers with the
  same largest reported length, the first one scanned is adopted, so the
  order matters (`TieGoesToFirstScanned`).
- **Unreachable peers.** The documented intent is that every failed fetch
  is skipped. The code skips only responses whose status is not 200. A
  request that raises (the peer cannot be reached) is not caught, and it
  ends `replace_chain` (`PeerUnreachable`).
- **Empty peer chains.** A 200 answer whose reported length beats the
  running maximum but whose chain is empty makes `is_chain_valid` raise on
  `chain[0]` (`EmptyChain`). The documented intent is that validation
  returns false on empty input. Whether the empty chain raises also
  depends on scan order: it raises only when no longer valid answer was
  scanned before it (`EmptyChainFaultDependsOnOrder`).
- **Reported lengths.** The length a peer reports is trusted and is never
  compared with the length of the chain it sends. When every reported
  length is honest, resolving a second time adopts nothing
  (`ResolveIdempotent`). An over-reported length can break this. A lone
  answer with a valid non-empty chain and an over-reported length is
  adopted again on the next call (`OverreportedLengthAdoptedAgain`).
- **The `if longest_chain:` test.** Python treats an empty list as false
  here. An adopted chain has passed validation and so is never empty, so
  the model's `longestChain.Some?` means the same thing.

## Model

| member | source | states |
|---|---|---|
| `Cryptocurrency.Blockchain.constructor` | cryptocurrency.py:12-17 | the new ledger's chain is exactly one block (index 1, the given timestamp, proof 1, previous hash "0", no transactions); nothing is pending; the chain is well indexed and valid |
| `Cryptocurrency.Blockchain.CreateBlock` | cryptocurrency.py:20-30 | exactly one block is appended; its index is the old length + 1; its transactions are the pending list as it was before the call; the pending list is then empty; earlier blocks are unchanged; a well-indexed chain stays well indexed |
| `Cryptocurrency.Blockchain.PreviousBlock` | cryptocurrency.py:32-33 | the result is the block that ends the chain: the chain is its prefix followed by the result |
| `Cryptocurrency.Blockchain.ProofOfWork` | cryptocurrency.py:38-50 | when some proof from 1 upward solves the puzzle, the result is at least 1, solves the puzzle of `previousProof`, and no smaller candidate from 1 does, so it is the least solution |
| `Validity.LeastProofUnique` | cryptocurrency.py:38-50 | two least solutions for the same previous proof are equal: the search result depends only on `previous_proof` |
| `Cryptocurrency.Blockchain.IsChainValid` | cryptocurrency.py:56-72 | an empty chain raises (`Err(EmptyChain)`); otherwise the answer is true exactly when every block after the first carries the digest of its predecessor and its proof solves the predecessor's puzzle |
| `Validity.SingleBlockValid` | cryptocurrency.py:57-59 | a one-block chain is always valid |
| `Validity.ChainValidAppend` | cryptocurrency.py:56-72 | a non-empty chain with one block appended is valid if and only if the old chain is valid and the new block is linked to the old last block |
| `Validity.CorruptedLinkInvalid` | cryptocurrency.py:59-62 | replacing the previous hash of any block after the first with a wrong digest makes the chain invalid |
| `Cryptocurrency.Blockchain.AddTransactions` | cryptocurrency.py:74-79 | exactly one `{sender, receiver, amount}` record is appended to the pending list; the chain is not modified; the answer is the last block's index + 1, which equals the chain length + 1 on a well-indexed chain |
| `Cryptocurrency.Blockchain.ReplaceChain` | cryptocurrency.py:85-100 | the scan loop computes `Resolve` over the peers' answers: on a fault the chain is unchanged and the fault is returned; otherwise the answer is whether a chain was adopted, the chain becomes the adopted one or stays as it was, and it is never empty |
| `Consensus.ScanFindsFirstLongest` | cryptocurrency.py:87-96 | a scan that ends without a fault saw no unreachable peer. It never lowers the running maximum. With no qualifying answer it leaves the state unchanged. Otherwise it keeps the chain of a qualifying answer whose reported length is the largest of all qualifying answers and is strictly larger than every earlier qualifying answer |
| `Consensus.ResolveAdoptsFirstLongest` | cryptocurrency.py:85-100 | when resolution ends without a fault, a chain is adopted if and only if some 200 answer reports a length above the local chain's length and carries a valid non-empty chain; the adopted chain is the first of the longest such answers |
| `Consensus.ScanWithoutFaults` | cryptocurrency.py:89-94 | a scan cannot fail when every peer is reachable and no 200 answer reporting a length above the start has an empty chain; non-200 answers are skipped |
| `Consensus.ResolveFaults` | cryptocurrency.py:89-94 | resolution fails only if some peer is unreachable, or answers with an empty chain whose reported length is above the local length |
| `Consensus.ResolveIdempotent` | cryptocurrency.py:85-100 | when every peer reports its true length, resolving again against the same answers after a successful resolution adopts nothing |
| `Consensus.OverreportedLengthAdoptedAgain` | cryptocurrency.py:92-98 | when it is the only answer and its chain is valid and non-empty, a peer whose reported length exceeds both its chain's length and the local length is adopted, and adopted again on the next call from the chain it supplied |
| `Consensus.TieGoesToFirstScanned` | cryptocurrency.py:94-96 | of two valid answers with the same reported length above the local length, the one scanned first is adopted, in either order |
| `Consensus.LongerInvalidSkipped` | cryptocurrency.py:94-96 | local length 3, a peer reporting 5 blocks with an invalid chain, then a peer reporting 4 blocks with a valid chain: the valid shorter chain is adopted |
| `Consensus.EmptyChainFaultDependsOnOrder` | cryptocurrency.py:89-96 | from a one-block local chain, an empty chain reported with length 3 followed by a valid chain reported with length 5 raises `EmptyChain`; in the reverse order the valid chain is adopted |
| `Cryptocurrency.Blockchain.MineBlock` | cryptocurrency.py:113-117 | one mining step appends exactly one block: its proof is the least solution for the last block's proof, it carries the last block's digest and the pending transactions, and its index is the old length + 1; the pending list is then empty; a valid chain stays valid |
| `Validity.MinedBlockKeepsValid` | cryptocurrency.py:113-117 | appending a block whose proof solves the last block's puzzle and which carries the last block's digest keeps a valid chain valid, whatever its index, timestamp and transactions |
| `Cryptocurrency.MineTwoBlocksFromGenesis` | cryptocurrency.py:108-117 | a new ledger mined twice, with every puzzle solvable, holds three well-indexed blocks and is valid |

## Left out

- The Flask application and its route handlers (`get_chain`, `is_chain_valid`, the response dictionaries, `app.run`): HTTP plumbing. Only the composition inside `mine_block` is modelled, as `MineBlock`.
- `add_node` and the `nodes` set: URL parsing by a foreign library. The set only feeds the peer scan, so `ReplaceChain` takes the peers' answers, in scan order, as a sequence.
- `requests.get` and the decoding of its JSON body: network I/O. Each answer is given as a `PeerResponse`. A body without the `length` or `chain` keys, or with blocks of the wrong shape, is not modelled.
- `hashlib.sha256`, `json.dumps(sort_keys=True)` and `str(...).encode()`: foreign code. They are the arbitrary functions of `Hashes`, so properties that depend on SHA-256 are not modelled: determinism of the JSON text, collision resistance, and whether any particular puzzle has a solution.
- `datetime.datetime.now()`: a clock read. The timestamp is a parameter of the constructor, `CreateBlock` and `MineBlock`.
- `ProofOfWork`: the original loop has no bound. The model requires that some proof from 1 upward solves the puzzle. Without that requirement the search never ends, so that case is not modelled.
- Transaction amounts and the lengths peers report are integers. A JSON number that is not an integer (floating point) is not modelled, although `length > max_length` would compare one just as well.
- Concurrent requests against one ledger are not modelled: every operation runs alone.
