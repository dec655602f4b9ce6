/**
 The transaction store and the ledger operations over it: append, delete by
 position, and the balance. The store is an ordered sequence whose positions
 are always the contiguous range 0..N-1.
 */
module Ledger {
  import opened Entities

  /** `add_transaction`: the new transaction goes to the end; nothing before it moves. */
  function Add(s: seq<Transaction>, t: Transaction): (r: seq<Transaction>)
    ensures |r| == |s| + 1
    ensures forall j :: 0 <= j < |s| ==> r[j] == s[j]
    ensures r[|s|] == t
  {
    s + [t]
  }

  /**
   `delete_transaction`: removes position `i` and shifts the later ones down by
   one; an index outside `0 <= i < |s|` is silently ignored.
   */
  function Delete(s: seq<Transaction>, i: int): (r: seq<Transaction>)
    ensures 0 <= i < |s| ==> |r| == |s| - 1
    ensures 0 <= i < |s| ==> forall j :: 0 <= j < i ==> r[j] == s[j]
    ensures 0 <= i < |s| ==> forall j :: i <= j < |r| ==> r[j] == s[j + 1]
    ensures 0 <= i < |s| ==> multiset(r) + multiset{s[i]} == multiset(s)
    ensures !(0 <= i < |s|) ==> r == s
  {
    if 0 <= i < |s| then
      assert s == s[..i] + [s[i]] + s[i + 1..];
      s[..i] + s[i + 1..]
    else s
  }

  /** Deleting the element just added gives back the store as it was. */
  lemma DeleteUndoesAdd(s: seq<Transaction>, t: Transaction)
    ensures Delete(Add(s, t), |s|) == s
  {
    assert Add(s, t)[..|s|] == s;
  }

  /** Sum of the amounts of the transactions whose category has type `k`. */
  function SumOf(s: seq<Transaction>, k: TransactionType): int
  {
    if |s| == 0 then 0
    else (if s[0].category.kind == k then s[0].amount else 0) + SumOf(s[1..], k)
  }

  /** `get_balance`: income amounts minus expense amounts, recomputed over the whole store. */
  function Balance(s: seq<Transaction>): int
  {
    SumOf(s, Income) - SumOf(s, Expense)
  }

  /** Reference definition: the sum of every transaction's signed contribution. */
  function SignedTotal(s: seq<Transaction>): int
  {
    if |s| == 0 then 0 else Signed(s[0]) + SignedTotal(s[1..])
  }

  /** The empty store has balance zero. */
  lemma BalanceEmpty()
    ensures Balance([]) == 0
  {
  }

  /** The two-sum balance equals the sum of signed contributions (the {+1, -1} multiplier view). */
  lemma {:induction false} BalanceIsSignedTotal(s: seq<Transaction>)
    ensures Balance(s) == SignedTotal(s)
  {
    if |s| > 0 {
      BalanceIsSignedTotal(s[1..]);
    }
  }

  /** The per-type sum distributes over concatenation. */
  lemma {:induction false} SumOfAppend(a: seq<Transaction>, b: seq<Transaction>, k: TransactionType)
    ensures SumOf(a + b, k) == SumOf(a, k) + SumOf(b, k)
  {
    if |a| > 0 {
      assert (a + b)[1..] == a[1..] + b;
      SumOfAppend(a[1..], b, k);
    } else {
      assert a + b == b;
    }
  }

  /** The balance of a concatenation is the sum of the balances of its parts. */
  lemma BalanceAppend(a: seq<Transaction>, b: seq<Transaction>)
    ensures Balance(a + b) == Balance(a) + Balance(b)
  {
    SumOfAppend(a, b, Income);
    SumOfAppend(a, b, Expense);
  }

  /** A single transaction moves the balance by its signed amount. */
  lemma BalanceSingleton(t: Transaction)
    ensures Balance([t]) == Signed(t)
  {
    assert [t][1..] == [];
    assert SumOf([t], Income) == (if t.category.kind == Income then t.amount else 0);
    assert SumOf([t], Expense) == (if t.category.kind == Expense then t.amount else 0);
  }

  /** Adding a transaction moves the balance by exactly its signed amount. */
  lemma BalanceAfterAdd(s: seq<Transaction>, t: Transaction)
    ensures Balance(Add(s, t)) == Balance(s) + Signed(t)
  {
    BalanceAppend(s, [t]);
    BalanceSingleton(t);
  }

  /** Deleting position `i` removes exactly its signed amount; an ignored delete changes nothing. */
  lemma BalanceAfterDelete(s: seq<Transaction>, i: int)
    ensures 0 <= i < |s| ==> Balance(Delete(s, i)) == Balance(s) - Signed(s[i])
    ensures !(0 <= i < |s|) ==> Balance(Delete(s, i)) == Balance(s)
  {
    if 0 <= i < |s| {
      assert s == s[..i] + ([s[i]] + s[i + 1..]);
      BalanceAppend(s[..i], [s[i]] + s[i + 1..]);
      BalanceAppend([s[i]], s[i + 1..]);
      BalanceAppend(s[..i], s[i + 1..]);
      BalanceSingleton(s[i]);
    }
  }
}
