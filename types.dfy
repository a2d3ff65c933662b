/** The record shapes and closed enumerations shared by the importer, the
    categorizer, the store and the dashboard (src/lib/types.ts). */
module Types {

  datatype Option<T> = None | Some(value: T)

  /** `TransactionType`: money leaving ('debit') or arriving ('credit'). */
  datatype TxnType = Debit | Credit

  /** `Category`, in declaration order. */
  datatype Category =
    | Food
    | Transport
    | Utilities
    | Shopping
    | Transfer
    | Salary
    | Entertainment  // betting
    | Fees           // bank charges
    | Internal       // own-wallet movements such as auto-save
    | Uncategorized

  /** The string literal each category is written as. */
  function CategoryName(c: Category): string {
    match c
    case Food => "Food"
    case Transport => "Transport"
    case Utilities => "Utilities"
    case Shopping => "Shopping"
    case Transfer => "Transfer"
    case Salary => "Salary"
    case Entertainment => "Entertainment"
    case Fees => "Fees"
    case Internal => "Internal"
    case Uncategorized => "Uncategorized"
  }

  /** Position of a category in the declaration of `Category`. */
  function Ordinal(c: Category): (i: nat)
    ensures i < 10
  {
    match c
    case Food => 0
    case Transport => 1
    case Utilities => 2
    case Shopping => 3
    case Transfer => 4
    case Salary => 5
    case Entertainment => 6
    case Fees => 7
    case Internal => 8
    case Uncategorized => 9
  }

  /** `RawTransaction`: one movement read from a statement row. `type` is
      optional in the record shape. */
  datatype RawTransaction = RawTransaction(
    date: string,
    amount: real,
    receiver: string,
    description: string,
    txnType: Option<TxnType>)

  /** `Transaction`: a `RawTransaction` plus `id` and `category`. */
  datatype Transaction = Transaction(
    date: string,
    amount: real,
    receiver: string,
    description: string,
    txnType: Option<TxnType>,
    id: string,
    category: Category)
  {
    /** The `RawTransaction` part of the record. */
    function Raw(): RawTransaction {
      RawTransaction(date, amount, receiver, description, txnType)
    }
  }

  /** `txn.type === 'debit'`: a record without a type is not a debit. */
  predicate IsDebit(t: Transaction) {
    t.txnType == Some(Debit)
  }

  datatype CategoryInfo = CategoryInfo(name: Category, color: string)

  /** `CATEGORIES`: every category with its display colour. */
  const CATEGORIES: seq<CategoryInfo> := [
    CategoryInfo(Food, "#F97316"),
    CategoryInfo(Transport, "#3B82F6"),
    CategoryInfo(Utilities, "#A855F7"),
    CategoryInfo(Shopping, "#EC4899"),
    CategoryInfo(Transfer, "#10B981"),
    CategoryInfo(Salary, "#14B8A6"),
    CategoryInfo(Entertainment, "#F43F5E"),
    CategoryInfo(Fees, "#64748B"),
    CategoryInfo(Internal, "#94A3B8"),
    CategoryInfo(Uncategorized, "#CBD5E1")
  ]

  /** The colour `CATEGORIES` gives a category. */
  function CategoryColor(c: Category): (color: string)
    ensures exists i :: 0 <= i < |CATEGORIES| && CATEGORIES[i] == CategoryInfo(c, color)
  {
    assert CATEGORIES[Ordinal(c)].name == c;
    CATEGORIES[Ordinal(c)].color
  }

  /** `CATEGORIES` lists each category exactly once, in declaration order. */
  lemma CategoriesInDeclarationOrder()
    ensures |CATEGORIES| == 10
    ensures forall i :: 0 <= i < |CATEGORIES| ==> Ordinal(CATEGORIES[i].name) == i
    ensures forall c: Category :: CATEGORIES[Ordinal(c)].name == c
    ensures forall i, j :: 0 <= i < j < |CATEGORIES| ==> CATEGORIES[i].name != CATEGORIES[j].name
  {
  }

  /** Distinct categories are written as distinct strings. */
  lemma CategoryNamesDistinct(a: Category, b: Category)
    ensures CategoryName(a) == CategoryName(b) ==> a == b
  {
    if a != b {
      assert Ordinal(a) != Ordinal(b);
      var na, nb := CategoryName(a), CategoryName(b);
      assert |na| != |nb| || na[0] != nb[0] || na[1] != nb[1];
    }
  }
}
