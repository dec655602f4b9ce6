/**
 The finance manager: one transaction store, the category registry it was built
 with, and the backing file. Every mutating operation rewrites the whole file
 (write-through); a missing file reads as `None`.
 */
module Manager {
  import opened Options
  import opened Entities
  import opened Ledger
  import opened Summary
  import opened Persistence

  /** Manager state. `disk` is the content of the backing file; `None` if it does not exist. */
  datatype FinanceManager = FinanceManager(
    categories: seq<Category>,
    transactions: seq<Transaction>,
    disk: Option<seq<Row>>)

  /** The file holds exactly the rows of the current store. */
  predicate Synced(m: FinanceManager)
  {
    m.disk == Some(Save(m.transactions))
  }

  /** Every stored transaction refers to a category of the manager's registry. */
  predicate CategoriesKnown(m: FinanceManager)
  {
    forall i :: 0 <= i < |m.transactions| ==> m.transactions[i].category in m.categories
  }

  /** `save_to_file`: overwrite the file with the rows of the whole store; the store is untouched. */
  function SaveToFile(m: FinanceManager): (r: FinanceManager)
    ensures Synced(r)
    ensures r.transactions == m.transactions && r.categories == m.categories
  {
    m.(disk := Some(Save(m.transactions)))
  }

  /**
   `load_from_file`: a missing file leaves an empty store; otherwise the resolved
   rows are appended to the store, in file order. The file itself is not changed.
   */
  function LoadFromFile(m: FinanceManager): (r: FinanceManager)
    ensures r.categories == m.categories && r.disk == m.disk
    ensures m.disk.None? ==> r.transactions == []
    ensures m.disk.Some? ==> |r.transactions| == |m.transactions| + CountResolvable(m.categories, m.disk.value)
    ensures m.disk.Some? ==> r.transactions[..|m.transactions|] == m.transactions
    ensures m.disk.Some? ==> r.transactions == m.transactions + Resolve(m.categories, m.disk.value)
  {
    match m.disk
    case None => m.(transactions := [])
    case Some(rows) =>
      ResolveLength(m.categories, rows);
      var r := m.(transactions := m.transactions + Resolve(m.categories, rows));
      assert r.transactions[..|m.transactions|] == m.transactions;
      r
  }

  /** `FinanceManager.__init__`: the built-in registry, an empty store, then one load. */
  function Create(disk: Option<seq<Row>>): (r: FinanceManager)
    ensures r.categories == Registry && r.disk == disk
    ensures CategoriesKnown(r)
    ensures disk.None? ==> r.transactions == []
    ensures disk.Some? ==> |r.transactions| == CountResolvable(Registry, disk.value)
    ensures disk.Some? ==> r.transactions == Resolve(Registry, disk.value)
  {
    var r := LoadFromFile(FinanceManager(Registry, [], disk));
    assert disk.Some? ==> [] + Resolve(Registry, disk.value) == Resolve(Registry, disk.value);
    forall i | 0 <= i < |r.transactions| ensures r.transactions[i].category in Registry {
      var c := r.transactions[i].category;
      assert Lookup(Registry, c.name) == Some(c);
    }
    r
  }

  /** `add_transaction`: append, then rewrite the file. */
  function AddTransaction(m: FinanceManager, t: Transaction): (r: FinanceManager)
    ensures |r.transactions| == |m.transactions| + 1
    ensures forall j :: 0 <= j < |m.transactions| ==> r.transactions[j] == m.transactions[j]
    ensures r.transactions[|m.transactions|] == t
    ensures r.categories == m.categories
    ensures Synced(r)
  {
    SaveToFile(m.(transactions := Add(m.transactions, t)))
  }

  /**
   `delete_transaction`: an index in range removes that transaction and rewrites
   the file; any other index leaves the manager, file included, as it was.
   */
  function DeleteTransaction(m: FinanceManager, index: int): (r: FinanceManager)
    ensures 0 <= index < |m.transactions| ==> r.transactions == Delete(m.transactions, index) && Synced(r)
    ensures 0 <= index < |m.transactions| ==> |r.transactions| == |m.transactions| - 1
    ensures !(0 <= index < |m.transactions|) ==> r == m
    ensures r.categories == m.categories
  {
    if 0 <= index < |m.transactions| then
      SaveToFile(m.(transactions := Delete(m.transactions, index)))
    else m
  }

  /** `get_balance` over the current store. */
  function GetBalance(m: FinanceManager): (b: int)
    ensures b == SignedTotal(m.transactions)
  {
    BalanceIsSignedTotal(m.transactions);
    Balance(m.transactions)
  }

  /** `get_category_summary` over the current store. */
  function GetCategorySummary(m: FinanceManager): (r: seq<Entry>)
    ensures IsSummaryOf(m.transactions, r)
  {
    Summarize(m.transactions)
  }

  /** Adding a transaction whose category is in the registry keeps every category known. */
  lemma AddKeepsCategoriesKnown(m: FinanceManager, t: Transaction)
    requires CategoriesKnown(m) && t.category in m.categories
    ensures CategoriesKnown(AddTransaction(m, t))
  {
  }

  /** Deleting never introduces an unknown category. */
  lemma DeleteKeepsCategoriesKnown(m: FinanceManager, index: int)
    requires CategoriesKnown(m)
    ensures CategoriesKnown(DeleteTransaction(m, index))
  {
    if 0 <= index < |m.transactions| {
      var r := DeleteTransaction(m, index);
      forall j | 0 <= j < |r.transactions| ensures r.transactions[j].category in m.categories {
        if j < index {
          assert r.transactions[j] == m.transactions[j];
        } else {
          assert r.transactions[j] == m.transactions[j + 1];
        }
      }
    }
  }

  /**
   Reopening: after a write-through, constructing a fresh manager from the file
   gives back the same store, provided every category came from the registry.
   */
  lemma Reopen(m: FinanceManager)
    requires m.categories == Registry
    requires Synced(m) && CategoriesKnown(m)
    ensures Create(m.disk).transactions == m.transactions
  {
    RegistryShape();
    SaveThenResolve(Registry, m.transactions);
    assert [] + Resolve(Registry, Save(m.transactions)) == m.transactions;
  }

  /**
   The worked example: salary 5000 then groceries 1200 on a fresh ledger give a
   balance of 3800 and a summary {salary: 5000, groceries: -1200}, in that order.
   */
  lemma SalaryThenGroceries()
    ensures var m := AddTransaction(AddTransaction(Create(None),
                       Transaction(5000, Registry[0], "2024-01-01", "")),
                       Transaction(1200, Registry[2], "2024-01-02", "groceries"));
            && GetBalance(m) == 3800
            && GetCategorySummary(m) == [Entry("Зарплата", 5000), Entry("Продукты", -1200)]
  {
    var t1 := Transaction(5000, Registry[0], "2024-01-01", "");
    var t2 := Transaction(1200, Registry[2], "2024-01-02", "groceries");
    var m := AddTransaction(AddTransaction(Create(None), t1), t2);
    assert m.transactions == [t1, t2];
    assert [t1, t2][..1] == [t1];
    assert [t1][..0] == [];
    assert Summarize([t1]) == [Entry("Зарплата", 5000)];
    assert Summarize([t1, t2]) == [Entry("Зарплата", 5000), Entry("Продукты", -1200)];
    assert [t1, t2][1..] == [t2];
    assert [t2][1..] == [];
  }
}
