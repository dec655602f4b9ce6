# Finance ledger — Dafny model

A model of the ledger and persistence engine of a personal finance manager.
The engine keeps an ordered list of income and expense transactions. Each
transaction is filed under one of five built-in categories. The engine
computes the balance and the signed total of each category. It stores the
list in a five-column delimited file and rewrites that file after every
change (write-through).

Modules, following the structure of `classes.py`:

- `Options`: the optional value used for "no match" and for a missing file.
- `Entities` (`entities.dfy`): `TransactionType` with its display label,
  `Category`, `Transaction`, the built-in `Registry`, and lookup of a
  category by name (first match).
- `Ledger` (`ledger.dfy`): the store as `seq<Transaction>`, with `Add`,
  `Delete` (by position; an out-of-range index is a no-op) and `Balance`,
  plus the laws relating them.
- `Summary` (`summary.dfy`): the per-category summary. Python's
  insertion-ordered dict is modelled as a list of `Entry` values. `Summarize`
  runs the loop of `get_category_summary`. `IsSummaryOf` is an independent description of the
  result, and `SummaryUnique` proves that this description fixes the result.
- `Persistence` (`persistence.dfy`): the row each transaction is saved as,
  and the load loop. Load resolves each row's category by name against the
  registry, drops the rows that do not resolve, and keeps the rest in file
  order.
- `Manager` (`manager.dfy`): the `FinanceManager` state (registry, store,
  file content as `Option<seq<Row>>`), construction by loading, and the
  write-through operations.

Amounts are `int` (for example cents). The backing file is a value
`disk: Option<seq<Row>>`, where `None` means the file does not exist.
Saving replaces `disk` with `Some(rows)`. Rows are records that are already
split into their five named fields.

Two facts about the code that the model keeps:

- Amounts are not constrained to be non-negative: `add_transaction` never
  checks the sign, so the model allows any `int`.
- Load appends the resolved rows to the current list; only a missing file
  resets it to empty. At construction the list is empty, so the store then
  holds exactly the resolved rows. `LoadFromFile` keeps the appending behaviour.

## Model

| member | source | states |
|---|---|---|
| Entities.LabelInjective | classes.py:5-7 | The two type labels are distinct, so the `Type` column tells Income from Expense |
| Entities.SignedIsScaled | classes.py:56-59 | A transaction's signed contribution is its amount times +1 for Income and -1 for Expense |
| Entities.RegistryShape | classes.py:25-31 | The registry has five categories with distinct names: two Income and three Expense |
| Entities.Lookup | classes.py:80-81 | Lookup returns None iff no registry entry has the name. Otherwise it returns an entry with that exact name, and no earlier entry has that name (first match) |
| Entities.LookupMember | classes.py:80-81 | If registry names are distinct, looking up a member's own name finds that member |
| Ledger.Add | classes.py:34-35 | Length grows by one, every earlier position is unchanged, and the new transaction is last |
| Ledger.Delete | classes.py:38-40 | For `0 <= i < n`: length drops by one, earlier positions are kept, later ones shift down by one, and exactly one copy of `s[i]` leaves the multiset. Any other index leaves the store unchanged |
| Ledger.DeleteUndoesAdd | classes.py:34-40 | Deleting the position just appended restores the previous store |
| Ledger.BalanceEmpty | classes.py:43-48 | The empty store has balance 0 |
| Ledger.BalanceIsSignedTotal | classes.py:43-48 | Income sum minus expense sum equals the sum of every transaction's signed amount |
| Ledger.SumOfAppend | classes.py:44-47 | Each per-type sum distributes over concatenation of stores |
| Ledger.BalanceAppend | classes.py:43-48 | The balance of a concatenation is the sum of the balances of its parts |
| Ledger.BalanceSingleton | classes.py:43-48 | A one-transaction store has that transaction's signed amount as its balance |
| Ledger.BalanceAfterAdd | classes.py:43-48 | Appending `t` changes the balance by exactly the signed amount of `t` |
| Ledger.BalanceAfterDelete | classes.py:38-48 | Deleting position `i` changes the balance by minus the signed amount of `s[i]`. An ignored delete leaves it unchanged |
| Summary.FirstIndex | classes.py:52-55 | Returns the first position whose category has the name, or the store length when the name never occurs |
| Summary.Find | classes.py:54 | Returns the position of a key in the summary, or its length when the key is absent (the `not in summary` test) |
| Summary.Summarize | classes.py:50-60 | The result has distinct keys, one for each name that occurs in the store and no others. Each value is the name's income minus expense. Keys are ordered by first appearance, and the values sum to the balance |
| Summary.AccumulateStep | classes.py:52-59 | One loop iteration keeps the summary invariant: a new name becomes a new last key, and a known name's value moves by the signed amount |
| Summary.AccumulateNew | classes.py:54-59 | A name not yet in the summary is appended with the transaction's signed amount, and the invariant holds for the longer store |
| Summary.AccumulateKnown | classes.py:56-59 | A known name's entry is updated in place, and the invariant holds for the longer store |
| Summary.MentionsAppend | classes.py:52-53 | A name occurs in `s + [t]` iff it occurs in `s` or is the name of `t` |
| Summary.FirstIndexAppend | classes.py:52-55 | Appending does not move the first occurrence of a name already present. A new name first occurs at the old length |
| Summary.OfNameAppend | classes.py:52-59 | Filtering the store by category name distributes over concatenation |
| Summary.OfNameAbsent | classes.py:52-55 | A name that never occurs has no transactions, so its net amount is 0 |
| Summary.NetForAppend | classes.py:56-59 | Appending `t` changes the net amount of the name of `t` by its signed amount and leaves every other name's net amount unchanged |
| Summary.TotalAppend | classes.py:54-55 | Adding a key adds its value to the sum of the summary |
| Summary.TotalUpdate | classes.py:56-59 | Updating one key's value changes the sum by the difference |
| Summary.SummaryUnique | classes.py:50-60 | At most one summary has distinct keys, exactly the names in the store, net values and first-appearance order |
| Summary.FirstAppearanceOrderUnique | classes.py:51-55 | Two name lists with the same members, each strictly ordered by first appearance, are equal |
| Persistence.Save | classes.py:66-73 | One row per transaction, in store order, holding amount, category name, type label, date and description |
| Persistence.Resolve | classes.py:79-89 | Load never keeps more rows than the file has, and every kept transaction's category is the registry's first match for its name |
| Persistence.ResolveLength | classes.py:79-89 | The loaded store has as many transactions as the file has rows whose category resolves |
| Persistence.ResolveAppend | classes.py:79-89 | Load is a filter-map: it distributes over concatenation of row lists, so the kept rows stay in file order |
| Persistence.ResolveAllResolvable | classes.py:79-89 | If every row resolves, the k-th transaction is the k-th row with its category resolved |
| Persistence.DropsUnresolvedRow | classes.py:80-89 | With rows good, bad, good, load gives exactly the two good transactions in file order |
| Persistence.LoadIgnoresType | classes.py:80-88 | Rows that differ only in the `Type` column load the same. The type comes from the registry |
| Persistence.SaveThenResolve | classes.py:67-88 | Row round trip: if registry names are distinct and every category is a registry entry, loading the saved rows returns the same store |
| Manager.SaveToFile | classes.py:62-73 | After saving, the file holds exactly the rows of the store, and the store and registry are unchanged |
| Manager.LoadFromFile | classes.py:75-91 | A missing file empties the store. Otherwise the resolved rows are appended, in file order, after the unchanged current store; the store grows by the number of resolvable rows, and the file is untouched |
| Manager.Create | classes.py:22-32 | A new manager has the built-in registry. It is empty when the file is missing, and otherwise holds exactly the resolved rows in file order, one per resolvable row, each with a registry category |
| Manager.AddTransaction | classes.py:34-36 | Appends `t` after the unchanged earlier transactions, then rewrites the file to match the new store |
| Manager.DeleteTransaction | classes.py:38-41 | An in-range delete removes that position and rewrites the file. An out-of-range index changes nothing, not even the file |
| Manager.GetBalance | classes.py:43-48 | The balance is the sum of the signed amounts over the current store |
| Manager.GetCategorySummary | classes.py:50-60 | The summary of the current store meets every property of `IsSummaryOf` |
| Manager.AddKeepsCategoriesKnown | classes.py:34-36 | Adding a transaction whose category is in the registry keeps every category in the registry |
| Manager.DeleteKeepsCategoriesKnown | classes.py:38-41 | Deleting never adds a category that is not in the registry |
| Manager.Reopen | classes.py:62-91 | A new manager built from a written-through file gets back the same store |
| Manager.SalaryThenGroceries | classes.py:34-60 | Adding salary 5000 and then groceries 1200 gives balance 3800 and the summary [salary: 5000, groceries: -1200], in that order |

## Left out

- The desktop front-end (`gui.py`): widget layout, event handlers, message boxes and formatting. It has no ledger logic beyond a repeated category lookup.
- Real file I/O: opening the file, UTF-8 encoding, and catching only `FileNotFoundError`. The file is the value `Option<seq<Row>>`. An I/O error while saving or loading propagates in the source and is not modelled.
- Delimited-text quoting and escaping, done by the `csv` library. Rows are records that are already split into their five named fields, so the header row itself is not modelled.
- Amounts are floats in the source. The model uses unbounded `int`, so float rounding, decimal formatting on save, and parsing on load (including a malformed amount) are not modelled.
- Dates are opaque strings, and the `datetime` import plays no part in the core.
- Persistence.Resolve: its own contract gives only a length bound and registry membership. The exact content of the result is stated by `ResolveLength`, `ResolveAppend` and `ResolveAllResolvable` together.
