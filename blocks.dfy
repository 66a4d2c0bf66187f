/** Values stored in the ledger: transactions, blocks, and the error outcomes of
    the operations that can raise in the original program. */
module Blocks {

  /** One staged transfer, `{sender, receiver, amount}`. */
  datatype Transaction = Transaction(sender: string, receiver: string, amount: int)

  /** One ledger entry. `timestamp` is whatever the clock produced when the
      block was created; `previousHash` is the digest of the preceding block. */
  datatype Block = Block(
    index: int,
    timestamp: string,
    proof: int,
    previousHash: string,
    transactions: seq<Transaction>)

  /** The genesis block is created with these two values. */
  const GenesisProof: int := 1
  const GenesisPreviousHash: string := "0"

  datatype Option<T> = None | Some(value: T)

  /** Why an operation stopped before producing a result: indexing `chain[0]`
      of an empty chain, or a peer that could not be contacted at all. */
  datatype Fault = EmptyChain | PeerUnreachable

  datatype Result<T> = Ok(value: T) | Err(fault: Fault)

  /** Block `i` (0-based position) carries index `i + 1`: true of every chain
      built locally by block creation, not checked on chains taken from peers. */
  predicate WellIndexed(chain: seq<Block>)
  {
    forall i :: 0 <= i < |chain| ==> chain[i].index == i + 1
  }
}
