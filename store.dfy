/** The in-memory transaction collection and its three actions
    (src/lib/store.ts). */
module Store {
  import opened Types

  /** The application state: one field, `transactions`. */
  class TransactionStore {
    var transactions: seq<Transaction>

    /** The collection starts out empty. */
    constructor ()
      ensures transactions == []
    {
      transactions := [];
    }

    /** `setTransactions(txns)`: the collection is replaced wholesale. */
    method SetTransactions(txns: seq<Transaction>)
      modifies this
      ensures transactions == txns
    {
      transactions := txns;
    }

    /** `addTransaction(txn)`: txn goes on top, the old collection follows
        unchanged and in order. */
    method AddTransaction(txn: Transaction)
      modifies this
      ensures transactions == [txn] + old(transactions)
      ensures |transactions| == |old(transactions)| + 1
      ensures transactions[0] == txn && transactions[1..] == old(transactions)
    {
      transactions := [txn] + transactions;
    }

    /** `clearTransactions()`: the collection becomes empty. */
    method ClearTransactions()
      modifies this
      ensures transactions == []
    {
      transactions := [];
    }
  }
}
