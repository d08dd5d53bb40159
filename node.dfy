/** The state-changing part of the `/mine` request handler, with the HTTP layer
    removed: find the next proof, credit the miner, seal the block. */
module Node {
  import opened Blocks
  import opened Chain

  /** Sender and amount of the reward transfer credited to the miner. */
  const RewardSender := "0"
  const RewardAmount := 1

  function Reward(nodeId: string): Transaction {
    Transaction(RewardSender, nodeId, RewardAmount)
  }

  /** Mines one block on `blockchain`. The source loops for ever when no proof is
      valid against the last proof; `knownValid`, some valid proof, rules that out. */
  method Mine(blockchain: Blockchain, nodeId: string, timestamp: real, ghost knownValid: nat)
      returns (block: Block)
    requires |blockchain.chain| > 0
    requires IsValidProof(blockchain.sha256Hex, blockchain.LastBlock().proof, knownValid)
    modifies blockchain
    ensures blockchain.chain == old(blockchain.chain) + [block]
    ensures block.index == old(|blockchain.chain|) + 1
    ensures block.timestamp == timestamp
    ensures block.transactions == old(blockchain.currentTransaction) + [Reward(nodeId)]
    ensures IsValidProof(blockchain.sha256Hex, old(blockchain.LastBlock().proof), block.proof)
    ensures block.proof >= 0
    ensures forall q: nat :: q < block.proof ==>
              !IsValidProof(blockchain.sha256Hex, old(blockchain.LastBlock().proof), q)
    ensures block.previousHash
            == Digest(Hash(blockchain.sha256Hex, blockchain.sortedJson, old(blockchain.LastBlock())))
    ensures blockchain.currentTransaction == []
    ensures old(blockchain.Valid()) ==> blockchain.Valid()
    ensures old(blockchain.Linked()) ==> blockchain.Linked()
    ensures blockchain.Accepted() == old(blockchain.Accepted()) + [Reward(nodeId)]
  {
    var lastBlock := blockchain.LastBlock();
    var lastProof := lastBlock.proof;
    var proof := blockchain.ProofOfWork(lastProof, knownValid);
    var predicted := blockchain.NewTransaction(RewardSender, nodeId, RewardAmount);
    block := blockchain.NewBlock(proof, None, timestamp);
  }
}
