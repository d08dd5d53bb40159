/** A fresh node that accepts one transfer and then mines: the exchange a client
    sees through `/transactions/new`, `/mine` and `/chain`. */
module Session {
  import opened Blocks
  import opened Chain
  import opened Node

  method SubmitThenMine(sha256Hex: string -> string, sortedJson: Block -> string,
                        startTime: real, mineTime: real, nodeId: string, ghost knownValid: nat)
      returns (predicted: int, block: Block, length: int)
    requires IsValidProof(sha256Hex, GenesisProof, knownValid)
    ensures predicted == 2 && block.index == predicted && length == 2
    ensures block.transactions == [Transaction("A", "B", 5), Transaction("0", nodeId, 1)]
    ensures block.previousHash
            == Digest(Hash(sha256Hex, sortedJson, Block(1, startTime, [], 100, Sentinel(1))))
    ensures IsValidProof(sha256Hex, 100, block.proof)
  {
    var blockchain := new Blockchain(sha256Hex, sortedJson, startTime);
    predicted := blockchain.NewTransaction("A", "B", 5);
    block := Mine(blockchain, nodeId, mineTime, knownValid);
    length := |blockchain.chain|;
  }
}
