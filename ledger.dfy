/**
 The blockchain: a list of blocks starting with a genesis block, each later
 block naming the hash of the one before it, plus the mining difficulty and a
 transaction pool.
 */
module Ledger {
  import Wrappers
  import opened Hashing
  import opened Transactions
  import opened Blocks
  import opened Pool

  /** The difficulty a blockchain mines at when it is not told. */
  const DefaultDifficulty: int := 4

  /** Every transaction object held by some block of `chain`. */
  function TxFootprint(chain: seq<Block>): set<object>
  {
    set i, t | 0 <= i < |chain| && t in chain[i].transactions :: t
  }

  /** Block `i` is structurally valid and names the hash of block `i - 1`. */
  predicate LinkValid(chain: seq<Block>, i: int, h: Hasher)
    requires 1 <= i < |chain|
    reads chain, TxFootprint(chain)
  {
    assert forall t :: t in chain[i].transactions ==> t in TxFootprint(chain);
    chain[i].IsValid(h) && chain[i].previousHash == chain[i - 1].hash
  }

  /** `is_chain_valid`: every block after the first is valid and linked to its predecessor. */
  predicate ChainValid(chain: seq<Block>, h: Hasher)
    reads chain, TxFootprint(chain)
  {
    forall i :: 1 <= i < |chain| ==> LinkValid(chain, i, h)
  }

  /** A block whose stored hash no longer matches its fields makes the chain invalid. */
  lemma TamperedHashBreaksChain(chain: seq<Block>, i: int, h: Hasher)
    requires 1 <= i < |chain|
    requires chain[i].hash != chain[i].CalculateHash(h)
    ensures !ChainValid(chain, h)
  {
    assert !LinkValid(chain, i, h);
  }

  /** In particular a stored hash that is not a SHA-256 hex digest, such as `"invalid_hash"`, does. */
  lemma ForeignHashBreaksChain(chain: seq<Block>, i: int, h: Hasher)
    requires 1 <= i < |chain|
    requires !IsHexDigest(chain[i].hash)
    ensures !ChainValid(chain, h)
  {
    TamperedHashBreaksChain(chain, i, h);
  }

  /** Appending a valid block that names the last hash keeps a valid chain valid. */
  lemma ValidChainAppend(chain: seq<Block>, b: Block, h: Hasher)
    requires 1 <= |chain|
    requires ChainValid(chain, h)
    requires b.IsValid(h) && b.previousHash == chain[|chain| - 1].hash
    ensures ChainValid(chain + [b], h)
  {
    var longer := chain + [b];
    forall i | 1 <= i < |longer| ensures LinkValid(longer, i, h) {
      if i < |chain| {
        assert longer[i] == chain[i] && longer[i - 1] == chain[i - 1];
        assert LinkValid(chain, i, h);
      } else {
        assert longer[i] == b && longer[i - 1] == chain[|chain| - 1];
      }
    }
  }

  /** Validity of a chain depends only on its blocks and the transactions they hold. */
  twostate lemma ChainValidUnchanged(chain: seq<Block>)
    requires forall i :: 0 <= i < |chain| ==> unchanged(chain[i])
    requires forall t :: t in TxFootprint(chain) ==> unchanged(t)
    ensures forall h: Hasher :: ChainValid(chain, h) == old(ChainValid(chain, h))
  {
  }

  /** Validity of a block depends only on the block and the transactions it holds. */
  twostate lemma BlockUnchanged(b: Block)
    requires unchanged(b)
    requires forall t :: t in b.transactions ==> unchanged(t)
    ensures forall h: Hasher :: b.IsValid(h) == old(b.IsValid(h))
  {
    RecordsUnchanged(b.transactions);
    AllValidUnchanged(b.transactions);
  }

  /**
   The first two steps of `add_block`: a fresh block over the given contents,
   stamped `now`, mined at `difficulty`. It is valid exactly when every
   transaction in it is, since mining leaves its stored hash matching its fields.
   */
  method MineNewBlock(index: int, transactions: seq<Transaction>, previousHash: string, now: int, h: Hasher, difficulty: int)
    returns (b: Block)
    requires Minable(h, index, previousHash, now, Records(transactions), difficulty)
    ensures fresh(b)
    ensures b.index == index && b.transactions == transactions && b.previousHash == previousHash && b.timestamp == now
    ensures MeetsTarget(b.hash, difficulty)
    ensures b.IsValid(h) <==> forall i :: 0 <= i < |transactions| ==> transactions[i].IsValid(h)
  {
    b := new Block(index, transactions, previousHash, Wrappers.None, now, h);
    ghost var n :| 0 <= n && MeetsTarget(HashWith(h, index, previousHash, now, n, Records(transactions)), difficulty);
    assert MeetsTarget(b.HashAt(h, n), difficulty);
    b.MineBlock(h, difficulty);
    AllValidIff(transactions, h);
  }

  class Blockchain {
    var chain: seq<Block>
    const difficulty: int
    const transactionPool: TransactionPool

    /** The chain always holds at least the genesis block. */
    predicate Valid()
      reads this
    {
      |chain| >= 1
    }

    /** A chain holding only a fresh genesis block, created at time `now`, and an empty pool; the difficulty is 4 unless given. */
    constructor (now: int, h: Hasher, difficulty: int := DefaultDifficulty)
      ensures Valid() && |chain| == 1 && fresh(chain[0])
      ensures chain[0].index == 0 && chain[0].transactions == [] && chain[0].previousHash == "0"
      ensures chain[0].timestamp == now && chain[0].nonce == 0
      ensures chain[0].hash == chain[0].CalculateHash(h)
      ensures ChainValid(chain, h)
      ensures this.difficulty == difficulty
      ensures fresh(transactionPool) && transactionPool.transactions == []
    {
      var genesis := CreateGenesisBlock(now, h);
      chain := [genesis];
      this.difficulty := difficulty;
      transactionPool := new TransactionPool();
    }

    /** Block 0: no transactions, previous hash `"0"`, stamped with the current time. */
    static method CreateGenesisBlock(now: int, h: Hasher) returns (b: Block)
      ensures fresh(b)
      ensures b.index == 0 && b.transactions == [] && b.previousHash == "0"
      ensures b.timestamp == now && b.nonce == 0
      ensures b.hash == b.CalculateHash(h)
    {
      b := new Block(0, [], "0", Wrappers.None, now, h);
    }

    /** `chain[-1]` */
    function LatestBlock(): (b: Block)
      requires Valid()
      reads this
      ensures chain == chain[..|chain| - 1] + [b]
    {
      chain[|chain| - 1]
    }

    /**
     Creates the next block over `transactions` at time `now`, mines it at the
     chain's difficulty and appends it if it is valid, which is exactly when every
     transaction in it is. Only a mining run that ends is modelled: some nonce
     must give the block a hash that meets the difficulty. Earlier blocks are
     left alone and a valid chain stays valid.
     */
    method AddBlock(transactions: seq<Transaction>, now: int, h: Hasher) returns (ok: bool)
      requires Valid()
      requires Minable(h, |chain|, LatestBlock().hash, now, Records(transactions), difficulty)
      modifies this`chain
      ensures Valid()
      ensures ok <==> forall i :: 0 <= i < |transactions| ==> transactions[i].IsValid(h)
      ensures !ok ==> chain == old(chain)
      ensures ok ==> |chain| == |old(chain)| + 1 && chain[..|old(chain)|] == old(chain)
      ensures ok ==> fresh(LatestBlock())
      ensures ok ==> LatestBlock().index == |old(chain)| && LatestBlock().previousHash == old(LatestBlock().hash)
      ensures ok ==> LatestBlock().transactions == transactions && LatestBlock().timestamp == now
      ensures ok ==> LatestBlock().IsValid(h) && MeetsTarget(LatestBlock().hash, difficulty)
      ensures old(ChainValid(chain, h)) ==> ChainValid(chain, h)
    {
      var blocks := chain;
      ghost var wasValid := ChainValid(blocks, h);
      var block := MineNewBlock(|chain|, transactions, LatestBlock().hash, now, h, difficulty);
      ChainValidUnchanged(blocks);
      if block.IsValid(h) {
        if wasValid {
          ValidChainAppend(blocks, block, h);
        }
        label Mined:
        chain := blocks + [block];
        ChainValidUnchanged@Mined(chain);
        BlockUnchanged@Mined(block);
        return true;
      }
      return false;
    }

    /** `is_chain_valid`: checks the blocks after the first in order and stops at the first bad one. */
    method IsChainValid(h: Hasher) returns (r: bool)
      requires Valid()
      ensures r == ChainValid(chain, h)
    {
      var i := 1;
      while i < |chain|
        invariant 1 <= i <= |chain|
        invariant forall k :: 1 <= k < i ==> LinkValid(chain, k, h)
      {
        var current := chain[i];
        var previous := chain[i - 1];
        if !current.IsValid(h) || current.previousHash != previous.hash {
          assert !LinkValid(chain, i, h);
          return false;
        }
        i := i + 1;
      }
      return true;
    }
  }
}
