/**
 The transaction pool: transactions waiting to be put into a block, in the
 order they were admitted.
 */
module Pool {
  import Slices
  import opened Hashing
  import opened Transactions

  /** How many transactions `select_transactions` hands out when it is not told. */
  const DefaultMaxTransactions: int := 10

  class TransactionPool {
    var transactions: seq<Transaction>

    /** An empty pool. */
    constructor ()
      ensures transactions == []
    {
      transactions := [];
    }

    /** Every transaction waiting in the pool is structurally valid. */
    predicate Admitted(h: Hasher)
      reads this, transactions
    {
      forall i :: 0 <= i < |transactions| ==> transactions[i].IsValid(h)
    }

    /**
     Admits `t` at the end of the queue when it is structurally valid and reports
     whether it did; an invalid transaction leaves the pool as it was.
     */
    method AddTransaction(t: Transaction, h: Hasher) returns (ok: bool)
      modifies this`transactions
      ensures ok == t.IsValid(h)
      ensures transactions == if ok then old(transactions) + [t] else old(transactions)
      ensures old(Admitted(h)) ==> Admitted(h)
    {
      if t.IsValid(h) {
        transactions := transactions + [t];
        return true;
      }
      return false;
    }

    /**
     Hands out the oldest `maxTransactions` transactions (10 unless given), with
     Python's slice meaning for the bound, and keeps the rest waiting in their order.
     */
    method SelectTransactions(maxTransactions: int := DefaultMaxTransactions) returns (selected: seq<Transaction>)
      modifies this`transactions
      ensures selected == Slices.Take(old(transactions), maxTransactions)
      ensures transactions == Slices.Drop(old(transactions), maxTransactions)
      ensures selected + transactions == old(transactions)
      ensures 0 <= maxTransactions ==> |selected| == if maxTransactions <= |old(transactions)| then maxTransactions else |old(transactions)|
      ensures forall h: Hasher :: old(Admitted(h)) ==> Admitted(h)
    {
      selected := Slices.Take(transactions, maxTransactions);
      Slices.TakeDropSplit(transactions, maxTransactions);
      transactions := Slices.Drop(transactions, maxTransactions);
    }

    /** Empties the pool. */
    method Clear()
      modifies this`transactions
      ensures transactions == []
    {
      transactions := [];
    }
  }
}
