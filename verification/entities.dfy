/**
 The entity model of the finance ledger: the two transaction types, categories,
 transactions, the fixed category registry and lookup of a category by name.
 */
module Options {

  /** Conventional optional value; `None` stands for Python's `None`. */
  datatype Option<+T> = None | Some(value: T)
}

module Entities {
  import opened Options

  /** The two-valued enum of the ledger: every category is either income or expense. */
  datatype TransactionType = Income | Expense

  /** The human-readable label of a type, written to the `Type` column of the file. */
  function Label(k: TransactionType): string
  {
    match k
    case Income => "Доход"
    case Expense => "Расход"
  }

  /** The multiplier a type contributes to balances: +1 for income, -1 for expense. */
  function Sign(k: TransactionType): int
  {
    match k
    case Income => 1
    case Expense => -1
  }

  /** Labels tell the two types apart, so the `Type` column is not ambiguous. */
  lemma LabelInjective(k1: TransactionType, k2: TransactionType)
    ensures Label(k1) == Label(k2) <==> k1 == k2
  {
  }

  /** A named bucket with a fixed polarity. (`type` is a Dafny keyword, hence `kind`.) */
  datatype Category = Category(name: string, kind: TransactionType)

  /**
   A recorded monetary event. `amount` is the magnitude; its sign is derived
   from the category's type and never stored.
   */
  datatype Transaction = Transaction(amount: int, category: Category, date: string, description: string)

  /** The signed contribution of one transaction to the balance: added for income, subtracted for expense. */
  function Signed(t: Transaction): int
  {
    match t.category.kind
    case Income => t.amount
    case Expense => -t.amount
  }

  /** The signed contribution is the amount scaled by the type's multiplier. */
  lemma SignedIsScaled(t: Transaction)
    ensures Signed(t) == Sign(t.category.kind) * t.amount
  {
  }

  /** The built-in category list the manager is constructed with. */
  const Registry: seq<Category> := [
    Category("Зарплата", Income),
    Category("Инвестиции", Income),
    Category("Продукты", Expense),
    Category("Транспорт", Expense),
    Category("Развлечения", Expense)
  ]

  /** No two entries of `reg` share a name. */
  predicate DistinctNames(reg: seq<Category>)
  {
    forall i, j :: 0 <= i < j < |reg| ==> reg[i].name != reg[j].name
  }

  /** Number of entries of `reg` of type `k`. */
  function CountOfKind(reg: seq<Category>, k: TransactionType): nat
  {
    if |reg| == 0 then 0
    else (if reg[0].kind == k then 1 else 0) + CountOfKind(reg[1..], k)
  }

  /** The registry holds five categories with distinct names: two income, three expense. */
  lemma RegistryShape()
    ensures |Registry| == 5
    ensures DistinctNames(Registry)
    ensures CountOfKind(Registry, Income) == 2 && CountOfKind(Registry, Expense) == 3
  {
  }

  /**
   The first entry of `reg` whose name equals `name` exactly, or `None`.
   Unknown names are a normal outcome, not an error.
   */
  function Lookup(reg: seq<Category>, name: string): (r: Option<Category>)
    ensures r.None? <==> forall i :: 0 <= i < |reg| ==> reg[i].name != name
    ensures r.Some? ==> r.value.name == name
    ensures r.Some? ==> exists i :: 0 <= i < |reg| && reg[i] == r.value
                                  && forall j :: 0 <= j < i ==> reg[j].name != name
  {
    if |reg| == 0 then None
    else if reg[0].name == name then Some(reg[0])
    else
      var r := Lookup(reg[1..], name);
      assert r.Some? ==> exists i :: 0 <= i < |reg| && reg[i] == r.value
                                   && forall j :: 0 <= j < i ==> reg[j].name != name by {
        if r.Some? {
          var i :| 0 <= i < |reg[1..]| && reg[1..][i] == r.value
                   && forall j :: 0 <= j < i ==> reg[1..][j].name != name;
          assert reg[i + 1] == r.value;
          assert forall j :: 0 <= j < i + 1 ==> reg[j].name != name by {
            forall j | 0 <= j < i + 1 ensures reg[j].name != name {
              if j > 0 { assert reg[j] == reg[1..][j - 1]; }
            }
          }
        }
      }
      r
  }

  /** In a registry with distinct names, a member is found by its own name. */
  lemma LookupMember(reg: seq<Category>, c: Category)
    requires DistinctNames(reg)
    requires c in reg
    ensures Lookup(reg, c.name) == Some(c)
  {
  }
}
