/** The ledger's values: transfer records, blocks and the value stored as a
    block's previous hash. */
module Blocks {

  datatype Option<T> = None | Some(value: T)

  /** One transfer record `{sender, recipient, amount}`. */
  datatype Transaction = Transaction(sender: string, recipient: string, amount: int)

  /** `previous_hash` holds either the integer sentinel given to the genesis
      block or the hex digest of the preceding block. */
  datatype PrevHash = Sentinel(n: int) | Digest(hex: string)

  /** One sealed block. `timestamp` is the float returned by the clock. */
  datatype Block = Block(
    index: int,
    timestamp: real,
    transactions: seq<Transaction>,
    proof: int,
    previousHash: PrevHash)

  /** Python truthiness of the value passed as `previous_hash`:
      `0` and `""` are falsy. */
  predicate Truthy(h: PrevHash) {
    match h
    case Sentinel(n) => n != 0
    case Digest(hex) => hex != ""
  }

  /** Whether `previous_hash or ...` keeps the supplied argument. */
  predicate Supplied(h: Option<PrevHash>) {
    h.Some? && Truthy(h.value)
  }

  /** The block at position i (0-based) has index i + 1. */
  predicate IndexedFrom1(chain: seq<Block>) {
    forall i :: 0 <= i < |chain| ==> chain[i].index == i + 1
  }

  /** Every transaction sealed in `chain`, block by block, in order. */
  function AllTransactions(chain: seq<Block>): seq<Transaction> {
    if chain == [] then [] else chain[0].transactions + AllTransactions(chain[1..])
  }

  lemma {:induction false} AllTransactionsAppend(chain: seq<Block>, b: Block)
    ensures AllTransactions(chain + [b]) == AllTransactions(chain) + b.transactions
  {
    if chain == [] {
      assert [b][1..] == [];
    } else {
      assert (chain + [b])[1..] == chain[1..] + [b];
      AllTransactionsAppend(chain[1..], b);
    }
  }

  lemma IndexedAppend(chain: seq<Block>, b: Block)
    requires IndexedFrom1(chain)
    ensures IndexedFrom1(chain + [b]) <==> b.index == |chain| + 1
  {
    assert (chain + [b])[|chain|] == b;
  }
}
