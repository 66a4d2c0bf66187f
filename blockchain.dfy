/** The ledger object: the chain, the pending transactions, and the
    operations that mine, stage, validate and resolve. */
module Cryptocurrency {
  import opened Blocks
  import opened Validity
  import opened Consensus

  class Blockchain {
    /** The block digest and the puzzle digest, fixed for the object's life. */
    const hashes: Hashes
    var chain: seq<Block>
    var transactions: seq<Transaction>

    /** The chain always holds at least its genesis block (or the non-empty
        chain that replaced it). */
    ghost predicate Valid()
      reads this
    {
      |chain| >= 1
    }

    /** A new ledger holds only the genesis block and nothing is pending.
        `timestamp` stands for the clock reading at construction. */
    constructor (hashes: Hashes, timestamp: string)
      ensures Valid() && this.hashes == hashes
      ensures chain == [Block(1, timestamp, GenesisProof, GenesisPreviousHash, [])]
      ensures transactions == []
      ensures WellIndexed(chain) && ChainValid(hashes, chain)
    {
      this.hashes := hashes;
      chain := [];
      transactions := [];
      new;
      var genesis := CreateBlock(GenesisProof, GenesisPreviousHash, timestamp);
      SingleBlockValid(hashes, genesis);
    }

    /** Moves every pending transaction into a new block appended to the
        chain; the block's index is one more than the old chain length. */
    method CreateBlock(proof: int, previousHash: string, timestamp: string) returns (block: Block)
      modifies this
      ensures Valid()
      ensures block == Block(|old(chain)| + 1, timestamp, proof, previousHash, old(transactions))
      ensures chain == old(chain) + [block]
      ensures transactions == []
      ensures WellIndexed(old(chain)) ==> WellIndexed(chain)
    {
      block := Block(|chain| + 1, timestamp, proof, previousHash, transactions);
      transactions := [];
      chain := chain + [block];
    }

    /** The last block of the chain. */
    function PreviousBlock(): (b: Block)
      reads this
      requires Valid()
      ensures chain == chain[..|chain| - 1] + [b]
    {
      chain[|chain| - 1]
    }

    /** Counts up from 1 to the first proof that solves the puzzle posed by
        `previousProof`. The original loop is unbounded; here a solution is
        required to exist, which is what makes the search finish. */
    method ProofOfWork(previousProof: int) returns (newProof: int)
      requires Solvable(hashes, previousProof)
      ensures newProof >= 1 && Solves(hashes, previousProof, newProof)
      ensures forall k :: 1 <= k < newProof ==> !Solves(hashes, previousProof, k)
    {
      ghost var bound :| bound >= 1 && Solves(hashes, previousProof, bound);
      newProof := 1;
      var checkProof := false;
      while !checkProof
        invariant 1 <= newProof <= bound
        invariant forall k :: 1 <= k < newProof ==> !Solves(hashes, previousProof, k)
        invariant checkProof ==> Solves(hashes, previousProof, newProof)
        decreases bound - newProof, !checkProof
      {
        var hashOperation := hashes.ofNumber(Puzzle(newProof, previousProof));
        if LeadingZeros(hashOperation) {
          checkProof := true;
        } else {
          newProof := newProof + 1;
        }
      }
    }

    /** One pass over `candidate`, stopping at the first block whose hash
        link or proof does not match its predecessor. An empty candidate
        raises, because its first block is read before the loop. */
    method IsChainValid(candidate: seq<Block>) returns (r: Result<bool>)
      ensures candidate == [] ==> r == Err(EmptyChain)
      ensures candidate != [] ==> r == Ok(ChainValid(hashes, candidate))
    {
      if |candidate| == 0 {
        return Err(EmptyChain);
      }
      var previousBlock := candidate[0];
      var blockIndex := 1;
      while blockIndex < |candidate|
        invariant 1 <= blockIndex <= |candidate|
        invariant previousBlock == candidate[blockIndex - 1]
        invariant forall i :: 1 <= i < blockIndex ==> Linked(hashes, candidate[i - 1], candidate[i])
      {
        var block := candidate[blockIndex];
        if block.previousHash != hashes.ofBlock(previousBlock) {
          return Ok(false);
        }
        var previousProof := previousBlock.proof;
        var proof := block.proof;
        var hashOperation := hashes.ofNumber(Puzzle(proof, previousProof));
        if !LeadingZeros(hashOperation) {
          return Ok(false);
        }
        previousBlock := block;
        blockIndex := blockIndex + 1;
      }
      return Ok(true);
    }

    /** Appends one transaction to the pending list and answers the index of
        the block it is expected to land in: the last block's index plus 1. */
    method AddTransactions(sender: string, receiver: string, amount: int) returns (next: int)
      requires Valid()
      modifies this`transactions
      ensures Valid()
      ensures transactions == old(transactions) + [Transaction(sender, receiver, amount)]
      ensures next == chain[|chain| - 1].index + 1
      ensures WellIndexed(chain) ==> next == |chain| + 1
    {
      transactions := transactions + [Transaction(sender, receiver, amount)];
      var previousBlock := PreviousBlock();
      next := previousBlock.index + 1;
    }

    /** Scans the peers' answers in order, keeping the longest valid chain
        reported strictly longer than the best so far, and adopts it if there
        is one. A peer that cannot be reached, or an empty chain that needs
        validating, aborts the scan with the chain unchanged. */
    method ReplaceChain(peers: seq<PeerResponse>) returns (r: Result<bool>)
      requires Valid()
      modifies this`chain
      ensures Valid()
      ensures Resolve(hashes, old(chain), peers).Err? ==>
        r == Err(Resolve(hashes, old(chain), peers).fault) && chain == old(chain)
      ensures Resolve(hashes, old(chain), peers).Ok? ==>
        r == Ok(Resolve(hashes, old(chain), peers).value.Some?) &&
        chain == AfterResolve(old(chain), Resolve(hashes, old(chain), peers).value)
    {
      var longestChain: Option<seq<Block>> := None;
      var maxLength := |chain|;
      var i := 0;
      while i < |peers|
        invariant 0 <= i <= |peers|
        invariant chain == old(chain)
        invariant longestChain.Some? ==> longestChain.value != []
        invariant ScanAll(hashes, Scan(|chain|, None), peers) == ScanAll(hashes, Scan(maxLength, longestChain), peers[i..])
      {
        assert peers[i..][0] == peers[i] && peers[i..][1..] == peers[i + 1..];
        match peers[i] {
          case Unreachable =>
            return Err(PeerUnreachable);
          case NotOk =>
          case Chain(length, candidate) =>
            if length > maxLength {
              var valid := IsChainValid(candidate);
              if valid.Err? {
                return Err(valid.fault);
              }
              if valid.value {
                maxLength := length;
                longestChain := Some(candidate);
              }
            }
        }
        i := i + 1;
      }
      if longestChain.Some? {
        chain := longestChain.value;
        return Ok(true);
      }
      return Ok(false);
    }

    /** One mining step: solve the puzzle of the last block, take its digest,
        and create the next block from them. The chain grows by exactly that
        block, and a valid chain stays valid. */
    method MineBlock(timestamp: string) returns (block: Block)
      requires Valid()
      requires Solvable(hashes, chain[|chain| - 1].proof)
      modifies this
      ensures Valid()
      ensures chain == old(chain) + [block]
      ensures IsLeastProof(hashes, old(chain)[|old(chain)| - 1].proof, block.proof)
      ensures block.index == |old(chain)| + 1 && block.timestamp == timestamp
      ensures block.previousHash == hashes.ofBlock(old(chain)[|old(chain)| - 1])
      ensures block.transactions == old(transactions) && transactions == []
      ensures ChainValid(hashes, old(chain)) ==> ChainValid(hashes, chain)
    {
      var previousBlock := PreviousBlock();
      var previousProof := previousBlock.proof;
      var blockProof := ProofOfWork(previousProof);
      var previousHash := hashes.ofBlock(previousBlock);
      ghost var before := chain;
      block := CreateBlock(blockProof, previousHash, timestamp);
      if ChainValid(hashes, before) {
        MinedBlockKeepsValid(hashes, before, blockProof, block.index, timestamp, block.transactions);
      }
    }
  }

  /** A fresh ledger mined twice, with a difficulty under which every puzzle
      has a solution, holds three blocks and is valid. */
  method MineTwoBlocksFromGenesis(hashes: Hashes, t0: string, t1: string, t2: string)
    returns (chain: seq<Block>)
    requires forall p :: Solvable(hashes, p)
    ensures |chain| == 3 && WellIndexed(chain) && ChainValid(hashes, chain)
  {
    var ledger := new Blockchain(hashes, t0);
    var b1 := ledger.MineBlock(t1);
    var b2 := ledger.MineBlock(t2);
    chain := ledger.chain;
    assert chain[2] == b2 && chain[1] == b1;
  }
}
