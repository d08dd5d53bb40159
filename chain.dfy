/** The ledger engine: block hashing, the proof-of-work puzzle and the
    `Blockchain` object that owns the chain and the pool of pending transfers. */
module Chain {
  import opened Blocks
  import opened Decimal

  /** `Blockchain.hash`: the SHA-256 hex digest of the key-sorted JSON text of a
      block. Both library calls are parameters: `sha256Hex` stands for
      `hashlib.sha256(text.encode()).hexdigest()` and `sortedJson` for
      `json.dumps(block, sort_keys=True)`. */
  function Hash(sha256Hex: string -> string, sortedJson: Block -> string, b: Block): string {
    sha256Hex(sortedJson(b))
  }

  /** Blocks with equal fields hash alike, whatever order their fields were
      written in: a block is a value, and the hash sees nothing but its fields. */
  lemma HashDeterministic(sha256Hex: string -> string, sortedJson: Block -> string, b1: Block, b2: Block)
    requires b1.index == b2.index && b1.timestamp == b2.timestamp
    requires b1.transactions == b2.transactions && b1.proof == b2.proof
    requires b1.previousHash == b2.previousHash
    ensures Hash(sha256Hex, sortedJson, b1) == Hash(sha256Hex, sortedJson, b2)
  {
  }

  /** Every block after the first carries the digest of its predecessor. */
  predicate HashLinked(sha256Hex: string -> string, sortedJson: Block -> string, chain: seq<Block>) {
    forall i :: 1 <= i < |chain| ==> chain[i].previousHash == Digest(Hash(sha256Hex, sortedJson, chain[i - 1]))
  }

  lemma LinkedAppend(sha256Hex: string -> string, sortedJson: Block -> string, chain: seq<Block>, b: Block)
    requires |chain| > 0 && HashLinked(sha256Hex, sortedJson, chain)
    ensures HashLinked(sha256Hex, sortedJson, chain + [b])
        <==> b.previousHash == Digest(Hash(sha256Hex, sortedJson, chain[|chain| - 1]))
  {
    var c := chain + [b];
    assert c[|chain|] == b && c[|chain| - 1] == chain[|chain| - 1];
  }

  /** The text that is hashed when checking a proof: the two integers in
      decimal, with no separator. */
  function Guess(lastProof: int, crntProof: int): string {
    Text(lastProof) + Text(crntProof)
  }

  /** With the previous proof fixed, distinct candidates give distinct guesses,
      so the search never hashes the same text twice. */
  lemma GuessInjective(lastProof: int, p: int, q: int)
    requires Guess(lastProof, p) == Guess(lastProof, q)
    ensures p == q
  {
    var t := Text(lastProof);
    assert Text(p) == (t + Text(p))[|t|..];
    assert Text(q) == (t + Text(q))[|t|..];
    TextInjective(p, q);
  }

  /** Without a separator, different pairs can give the same guess. */
  lemma GuessAmbiguous(sha256Hex: string -> string)
    ensures Guess(1, 23) == Guess(12, 3)
    ensures IsValidProof(sha256Hex, 1, 23) == IsValidProof(sha256Hex, 12, 3)
  {
  }

  /** Python's slice `s[:n]`. */
  function Head(s: string, n: nat): string {
    if |s| <= n then s else s[..n]
  }

  /** The required prefix of a valid proof's digest. */
  const Difficulty := "0000"

  /** `Blockchain.is_valid_proof`: `guess_hash[:4] == "0000"`, that is, the
      digest of the guess starts with four '0' characters. */
  function IsValidProof(sha256Hex: string -> string, lastProof: int, crntProof: int): (r: bool)
    ensures r <==> |sha256Hex(Guess(lastProof, crntProof))| >= 4
                   && forall i :: 0 <= i < 4 ==> sha256Hex(Guess(lastProof, crntProof))[i] == '0'
  {
    Head(sha256Hex(Guess(lastProof, crntProof)), |Difficulty|) == Difficulty
  }

  /** No natural below n is a valid proof against `lastProof`. */
  predicate NoValidProofBelow(sha256Hex: string -> string, lastProof: int, n: nat) {
    forall q: nat :: q < n ==> !IsValidProof(sha256Hex, lastProof, q)
  }

  lemma NoValidProofBelowStep(sha256Hex: string -> string, lastProof: int, n: nat)
    requires NoValidProofBelow(sha256Hex, lastProof, n) && !IsValidProof(sha256Hex, lastProof, n)
    ensures NoValidProofBelow(sha256Hex, lastProof, n + 1)
  {
  }

  /** Proof and previous hash of the block the constructor seals first. */
  const GenesisProof := 100
  const GenesisPreviousHash := Sentinel(1)

  class Blockchain {
    const sha256Hex: string -> string
    const sortedJson: Block -> string
    var chain: seq<Block>
    var currentTransaction: seq<Transaction>

    /** The chain is never empty and block i (0-based) has index i + 1. */
    predicate Valid()
      reads this
    {
      |chain| > 0 && IndexedFrom1(chain)
    }

    predicate Linked()
      reads this
    {
      HashLinked(sha256Hex, sortedJson, chain)
    }

    /** Every transfer accepted so far, sealed ones first, in order. */
    function Accepted(): seq<Transaction>
      reads this
    {
      AllTransactions(chain) + currentTransaction
    }

    /** `last_block`. */
    function LastBlock(): (b: Block)
      reads this
      requires |chain| > 0
      ensures b == chain[|chain| - 1]
      ensures IndexedFrom1(chain) ==> b.index == |chain|
    {
      chain[|chain| - 1]
    }

    constructor (sha256Hex: string -> string, sortedJson: Block -> string, timestamp: real)
      ensures this.sha256Hex == sha256Hex && this.sortedJson == sortedJson
      ensures chain == [Block(1, timestamp, [], GenesisProof, GenesisPreviousHash)]
      ensures currentTransaction == []
      ensures Valid() && Linked()
    {
      this.sha256Hex := sha256Hex;
      this.sortedJson := sortedJson;
      chain := [];
      currentTransaction := [];
      new;
      var genesis := NewBlock(GenesisProof, Some(GenesisPreviousHash), timestamp);
    }

    /** `new_block`: seals the pool into the next block and empties the pool.
        `previous_hash or self.hash(self.chain[-1])` keeps a truthy argument and
        otherwise hashes the last block, which must then exist. */
    method NewBlock(proof: int, previousHash: Option<PrevHash>, timestamp: real) returns (block: Block)
      requires |chain| > 0 || Supplied(previousHash)
      modifies this
      ensures block.index == old(|chain|) + 1
      ensures block.timestamp == timestamp && block.proof == proof
      ensures block.transactions == old(currentTransaction)
      ensures Supplied(previousHash) ==> block.previousHash == previousHash.value
      ensures !Supplied(previousHash) ==>
                block.previousHash == Digest(Hash(sha256Hex, sortedJson, old(chain[|chain| - 1])))
      ensures chain == old(chain) + [block]
      ensures currentTransaction == []
      ensures LastBlock() == block
      ensures old(IndexedFrom1(chain)) ==> Valid()
      ensures old(Linked()) && (old(|chain|) == 0 || !Supplied(previousHash)) ==> Linked()
      ensures Accepted() == old(Accepted())
    {
      var prev := if Supplied(previousHash) then previousHash.value
                  else Digest(Hash(sha256Hex, sortedJson, chain[|chain| - 1]));
      block := Block(|chain| + 1, timestamp, currentTransaction, proof, prev);
      AllTransactionsAppend(chain, block);
      if |chain| > 0 && IndexedFrom1(chain) {
        IndexedAppend(chain, block);
      }
      if |chain| > 0 && Linked() {
        LinkedAppend(sha256Hex, sortedJson, chain, block);
      }
      currentTransaction := [];
      chain := chain + [block];
    }

    /** `new_transaction`: queues one transfer and returns the index of the
        block that the next sealing will create. */
    method NewTransaction(sender: string, recipient: string, amount: int) returns (index: int)
      requires |chain| > 0
      modifies this`currentTransaction
      ensures currentTransaction == old(currentTransaction) + [Transaction(sender, recipient, amount)]
      ensures chain == old(chain)
      ensures index == LastBlock().index + 1
      ensures IndexedFrom1(chain) ==> index == |chain| + 1
      ensures Accepted() == old(Accepted()) + [Transaction(sender, recipient, amount)]
    {
      currentTransaction := currentTransaction + [Transaction(sender, recipient, amount)];
      index := LastBlock().index + 1;
    }

    /** `proof_of_work`: counts up from 0 to the first valid proof. The source
        loop has no bound; `knownValid`, some valid proof, bounds it here. */
    method ProofOfWork(lastProof: int, ghost knownValid: nat) returns (proof: nat)
      requires IsValidProof(sha256Hex, lastProof, knownValid)
      ensures IsValidProof(sha256Hex, lastProof, proof)
      ensures forall q: nat :: q < proof ==> !IsValidProof(sha256Hex, lastProof, q)
    {
      proof := 0;
      while !IsValidProof(sha256Hex, lastProof, proof)
        invariant proof <= knownValid
        invariant NoValidProofBelow(sha256Hex, lastProof, proof)
        decreases knownValid - proof
      {
        NoValidProofBelowStep(sha256Hex, lastProof, proof);
        proof := proof + 1;
      }
    }
  }
}
