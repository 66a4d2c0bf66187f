/** The proof-of-work puzzle and the validity of a chain, stated over two
    digests that the model does not interpret: the SHA-256 hex digest of a
    block's sorted-key JSON text, and the SHA-256 hex digest of an integer's
    decimal text. */
module Validity {
  import opened Blocks

  /** The two foreign digests the ledger depends on. */
  datatype Hashes = Hashes(ofBlock: Block -> string, ofNumber: int -> string)

  /** A puzzle digest passes when it begins with this run of zeros. */
  const Target: string := "0000"

  /** `digest[:4] == "0000"`: a digest shorter than the target never passes. */
  predicate LeadingZeros(digest: string)
  {
    |digest| >= |Target| && digest[..|Target|] == Target
  }

  /** The number whose digest is tested for a candidate proof against the
      proof of the preceding block: a difference of squares. */
  function Puzzle(proof: int, previousProof: int): (n: int)
  {
    proof * proof - previousProof * previousProof
  }

  /** Candidate `proof` solves the puzzle posed by `previousProof`. */
  predicate Solves(h: Hashes, previousProof: int, proof: int)
  {
    LeadingZeros(h.ofNumber(Puzzle(proof, previousProof)))
  }

  /** Some proof from 1 upward solves the puzzle, so the search ends. */
  ghost predicate Solvable(h: Hashes, previousProof: int)
  {
    exists n :: n >= 1 && Solves(h, previousProof, n)
  }

  /** `proof` is the first solution met by a search counting up from 1. */
  ghost predicate IsLeastProof(h: Hashes, previousProof: int, proof: int)
  {
    && proof >= 1
    && Solves(h, previousProof, proof)
    && forall k :: 1 <= k < proof ==> !Solves(h, previousProof, k)
  }

  /** The least proof is determined by the previous proof alone. */
  lemma LeastProofUnique(h: Hashes, previousProof: int, p1: int, p2: int)
    requires IsLeastProof(h, previousProof, p1)
    requires IsLeastProof(h, previousProof, p2)
    ensures p1 == p2
  {
  }

  /** `block` correctly follows `previous`: hash link and proof of work. */
  predicate Linked(h: Hashes, previous: Block, block: Block)
  {
    block.previousHash == h.ofBlock(previous) && Solves(h, previous.proof, block.proof)
  }

  /** Every block after the first is linked to its predecessor. */
  predicate ChainValid(h: Hashes, chain: seq<Block>)
  {
    forall i :: 1 <= i < |chain| ==> Linked(h, chain[i - 1], chain[i])
  }

  /** A one-block chain has no link to check. */
  lemma SingleBlockValid(h: Hashes, b: Block)
    ensures ChainValid(h, [b])
  {
  }

  /** Appending one block keeps a chain valid exactly when the block is
      linked to the old last block. */
  lemma ChainValidAppend(h: Hashes, chain: seq<Block>, b: Block)
    requires chain != []
    ensures ChainValid(h, chain + [b]) <==> ChainValid(h, chain) && Linked(h, chain[|chain| - 1], b)
  {
    var c := chain + [b];
    if ChainValid(h, c) {
      forall i | 1 <= i < |chain| ensures Linked(h, chain[i - 1], chain[i]) {
        assert c[i - 1] == chain[i - 1] && c[i] == chain[i];
      }
      assert c[|chain| - 1] == chain[|chain| - 1] && c[|chain|] == b;
    }
    if ChainValid(h, chain) && Linked(h, chain[|chain| - 1], b) {
      forall i | 1 <= i < |c| ensures Linked(h, c[i - 1], c[i]) {
        if i < |chain| {
          assert c[i - 1] == chain[i - 1] && c[i] == chain[i];
        } else {
          assert c[i - 1] == chain[|chain| - 1] && c[i] == b;
        }
      }
    }
  }

  /** Overwriting the previous-hash field of any block after the first with a
      wrong digest invalidates the whole chain. */
  lemma CorruptedLinkInvalid(h: Hashes, chain: seq<Block>, i: int, bad: string)
    requires 1 <= i < |chain|
    requires bad != h.ofBlock(chain[i - 1])
    ensures !ChainValid(h, chain[i := chain[i].(previousHash := bad)])
  {
    var c := chain[i := chain[i].(previousHash := bad)];
    assert !Linked(h, c[i - 1], c[i]);
  }

  /** The block that mining appends: its proof solves the puzzle of the last
      block and it carries the last block's digest, so a valid chain stays
      valid, whatever index, timestamp and transactions the block carries. */
  lemma MinedBlockKeepsValid(h: Hashes, chain: seq<Block>, proof: int, index: int,
                             timestamp: string, transactions: seq<Transaction>)
    requires chain != [] && ChainValid(h, chain)
    requires Solves(h, chain[|chain| - 1].proof, proof)
    ensures ChainValid(h, chain + [Block(index, timestamp, proof, h.ofBlock(chain[|chain| - 1]), transactions)])
  {
    ChainValidAppend(h, chain, Block(index, timestamp, proof, h.ofBlock(chain[|chain| - 1]), transactions));
  }
}
