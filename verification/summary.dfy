/**
 The per-category summary: signed totals keyed by category name, one entry per
 name that occurs in the store, in order of first appearance. The insertion-ordered
 dict built by `get_category_summary` is an association list of `Entry` values.
 */
module Summary {
  import opened Entities
  import opened Ledger

  /** One key/value pair of the summary. */
  datatype Entry = Entry(name: string, total: int)

  /** Some transaction of `s` is filed under a category named `n`. */
  predicate Mentions(s: seq<Transaction>, n: string)
  {
    exists i :: 0 <= i < |s| && s[i].category.name == n
  }

  /** The position where `n` first occurs in `s`, or `|s|` when it never does. */
  function FirstIndex(s: seq<Transaction>, n: string): (k: nat)
    ensures k <= |s|
    ensures k < |s| ==> s[k].category.name == n
    ensures forall j :: 0 <= j < k ==> s[j].category.name != n
  {
    if |s| == 0 then 0
    else if s[0].category.name == n then 0
    else
      var k := 1 + FirstIndex(s[1..], n);
      assert forall j :: 0 < j < k ==> s[j] == s[1..][j - 1];
      k
  }

  /** The sub-ledger of the transactions filed under name `n`, in store order. */
  function OfName(s: seq<Transaction>, n: string): seq<Transaction>
  {
    if |s| == 0 then []
    else (if s[0].category.name == n then [s[0]] else []) + OfName(s[1..], n)
  }

  /**
   Reference value of the summary entry for `n`: income amounts filed under `n`
   minus expense amounts filed under `n`.
   */
  function NetFor(s: seq<Transaction>, n: string): int
  {
    Balance(OfName(s, n))
  }

  /** Some entry of `es` has key `n`. */
  predicate HasKey(es: seq<Entry>, n: string)
  {
    exists i :: 0 <= i < |es| && es[i].name == n
  }

  /** No key occurs twice, as in a dictionary. */
  predicate KeysDistinct(es: seq<Entry>)
  {
    forall i, j :: 0 <= i < j < |es| ==> es[i].name != es[j].name
  }

  /** The sum of the values of a summary. */
  function Total(es: seq<Entry>): int
  {
    if |es| == 0 then 0 else es[0].total + Total(es[1..])
  }

  /**
   `es` is the summary of `s`: distinct keys, exactly the names occurring in `s`,
   each mapped to its net amount, ordered by first appearance, and together
   summing to the balance of `s`.
   */
  ghost predicate IsSummaryOf(s: seq<Transaction>, es: seq<Entry>)
  {
    && KeysDistinct(es)
    && KeysAreNames(s, es)
    && ValuesAreNet(s, es)
    && InFirstAppearanceOrder(s, es)
    && Total(es) == Balance(s)
  }

  /** The keys of `es` are exactly the names occurring in `s`. */
  ghost predicate KeysAreNames(s: seq<Transaction>, es: seq<Entry>)
  {
    forall n :: HasKey(es, n) <==> Mentions(s, n)
  }

  /** Every value of `es` is the net amount of its key over `s`. */
  ghost predicate ValuesAreNet(s: seq<Transaction>, es: seq<Entry>)
  {
    forall i :: 0 <= i < |es| ==> es[i].total == NetFor(s, es[i].name)
  }

  /** Earlier keys of `es` first occur earlier in `s`. */
  ghost predicate InFirstAppearanceOrder(s: seq<Transaction>, es: seq<Entry>)
  {
    forall i, j :: 0 <= i < j < |es| ==> FirstIndex(s, es[i].name) < FirstIndex(s, es[j].name)
  }

  /** Position of key `n` in `es`, or `|es|` when absent (the `not in summary` test). */
  function Find(es: seq<Entry>, n: string): (k: nat)
    ensures k <= |es|
    ensures k < |es| ==> es[k].name == n
    ensures k == |es| <==> !HasKey(es, n)
  {
    if |es| == 0 then 0
    else if es[0].name == n then 0
    else
      var k := 1 + Find(es[1..], n);
      assert forall j :: 0 < j < |es| ==> es[j] == es[1..][j - 1];
      assert HasKey(es, n) ==> HasKey(es[1..], n);
      k
  }

  /**
   One iteration of the summary loop: a new name enters with value 0 and then,
   like a known name, receives the transaction's amount, added for income and
   subtracted for expense.
   */
  function Accumulate(es: seq<Entry>, t: Transaction): seq<Entry>
  {
    var n := t.category.name;
    var k := Find(es, n);
    var delta := if t.category.kind == Income then t.amount else -t.amount;
    if k == |es| then es + [Entry(n, 0 + delta)]
    else es[k := Entry(n, es[k].total + delta)]
  }

  /** `get_category_summary`: the loop over the store, in store order. */
  function Summarize(s: seq<Transaction>): (r: seq<Entry>)
    ensures IsSummaryOf(s, r)
    decreases |s|
  {
    if |s| == 0 then []
    else
      var prev := Summarize(s[..|s| - 1]);
      assert s == s[..|s| - 1] + [s[|s| - 1]];
      AccumulateStep(s[..|s| - 1], prev, s[|s| - 1]);
      Accumulate(prev, s[|s| - 1])
  }

  /** A name occurs after an append iff it occurred before or is the new transaction's name. */
  lemma {:induction false} MentionsAppend(s: seq<Transaction>, t: Transaction, m: string)
    ensures Mentions(s + [t], m) <==> Mentions(s, m) || t.category.name == m
  {
    if Mentions(s, m) {
      var i :| 0 <= i < |s| && s[i].category.name == m;
      assert (s + [t])[i] == s[i];
    }
    if t.category.name == m {
      assert (s + [t])[|s|] == t;
    }
    if Mentions(s + [t], m) && !(t.category.name == m) {
      var i :| 0 <= i < |s + [t]| && (s + [t])[i].category.name == m;
      assert i < |s| && s[i] == (s + [t])[i];
    }
  }

  /** Appending a transaction does not move the first occurrence of a name already present. */
  lemma FirstIndexAppend(s: seq<Transaction>, t: Transaction, m: string)
    ensures Mentions(s, m) ==> FirstIndex(s + [t], m) == FirstIndex(s, m) < |s|
    ensures !Mentions(s, m) && t.category.name == m ==> FirstIndex(s + [t], m) == |s|
  {
    var k := FirstIndex(s, m);
    var k' := FirstIndex(s + [t], m);
    if Mentions(s, m) {
      var i :| 0 <= i < |s| && s[i].category.name == m;
      assert k <= i;
      assert (s + [t])[k] == s[k];
      assert k' <= k;
      assert (s + [t])[k'] == s[k'];
    } else if t.category.name == m {
      assert (s + [t])[|s|] == t;
    }
  }

  /** Filtering by name distributes over concatenation. */
  lemma {:induction false} OfNameAppend(a: seq<Transaction>, b: seq<Transaction>, n: string)
    ensures OfName(a + b, n) == OfName(a, n) + OfName(b, n)
  {
    if |a| == 0 {
      assert a + b == b;
    } else {
      assert (a + b)[1..] == a[1..] + b;
      OfNameAppend(a[1..], b, n);
    }
  }

  /** A name that never occurs has an empty sub-ledger. */
  lemma {:induction false} OfNameAbsent(s: seq<Transaction>, n: string)
    requires !Mentions(s, n)
    ensures OfName(s, n) == []
  {
    if |s| > 0 {
      assert s[0].category.name != n;
      assert forall i :: 0 <= i < |s[1..]| ==> s[1..][i] == s[i + 1];
      OfNameAbsent(s[1..], n);
    }
  }

  /** Appending a transaction moves the net amount of its own name only. */
  lemma NetForAppend(s: seq<Transaction>, t: Transaction, m: string)
    ensures NetFor(s + [t], m) == NetFor(s, m) + (if t.category.name == m then Signed(t) else 0)
  {
    OfNameAppend(s, [t], m);
    assert [t][1..] == [];
    assert OfName([t], m) == (if t.category.name == m then [t] else []);
    BalanceAppend(OfName(s, m), OfName([t], m));
    BalanceSingleton(t);
    assert OfName(s, m) + [] == OfName(s, m);
  }

  /** Appending an entry adds its value to the total. */
  lemma {:induction false} TotalAppend(es: seq<Entry>, e: Entry)
    ensures Total(es + [e]) == Total(es) + e.total
  {
    if |es| > 0 {
      assert (es + [e])[1..] == es[1..] + [e];
      TotalAppend(es[1..], e);
    } else {
      assert [e][1..] == [];
    }
  }

  /** Replacing one entry changes the total by the difference of the two values. */
  lemma {:induction false} TotalUpdate(es: seq<Entry>, k: nat, e: Entry)
    requires k < |es|
    ensures Total(es[k := e]) == Total(es) - es[k].total + e.total
  {
    if k > 0 {
      assert es[k := e][1..] == es[1..][k - 1 := e];
      TotalUpdate(es[1..], k - 1, e);
    } else {
      assert es[k := e][1..] == es[1..];
    }
  }

  /** Adding a key the summary lacks keeps the keys distinct. */
  lemma NewKeyDistinct(es: seq<Entry>, e: Entry)
    requires KeysDistinct(es) && !HasKey(es, e.name)
    ensures KeysDistinct(es + [e])
  {
    forall i, j | 0 <= i < j < |es + [e]| ensures (es + [e])[i].name != (es + [e])[j].name {
      if j == |es| {
        assert (es + [e])[i] == es[i];
        assert !(es[i].name == e.name);
      }
    }
  }

  /** A new name of the store gets a new key. */
  lemma NewKeyNames(s: seq<Transaction>, es: seq<Entry>, t: Transaction, v: int)
    requires KeysAreNames(s, es)
    ensures KeysAreNames(s + [t], es + [Entry(t.category.name, v)])
  {
    var es' := es + [Entry(t.category.name, v)];
    forall m ensures HasKey(es', m) <==> Mentions(s + [t], m) {
      MentionsAppend(s, t, m);
      if HasKey(es', m) {
        var i :| 0 <= i < |es'| && es'[i].name == m;
        if i < |es| { assert es[i] == es'[i]; assert HasKey(es, m); }
      }
      if HasKey(es, m) {
        var i :| 0 <= i < |es| && es[i].name == m;
        assert es'[i] == es[i];
      }
      assert es'[|es|].name == t.category.name;
    }
  }

  /** A new name's value starts at the transaction's signed amount; other values stay right. */
  lemma NewKeyValues(s: seq<Transaction>, es: seq<Entry>, t: Transaction)
    requires KeysAreNames(s, es) && ValuesAreNet(s, es)
    requires !HasKey(es, t.category.name)
    ensures ValuesAreNet(s + [t], es + [Entry(t.category.name, Signed(t))])
  {
    var n := t.category.name;
    var es' := es + [Entry(n, Signed(t))];
    forall i | 0 <= i < |es'| ensures es'[i].total == NetFor(s + [t], es'[i].name) {
      NetForAppend(s, t, es'[i].name);
      if i < |es| {
        assert es'[i] == es[i];
        assert es[i].name != n by { assert HasKey(es, es[i].name); }
      } else {
        assert !Mentions(s, n);
        OfNameAbsent(s, n);
      }
    }
  }

  /** A new name first occurs after every name already present. */
  lemma NewKeyOrder(s: seq<Transaction>, es: seq<Entry>, t: Transaction, v: int)
    requires KeysAreNames(s, es) && InFirstAppearanceOrder(s, es)
    requires !HasKey(es, t.category.name)
    ensures InFirstAppearanceOrder(s + [t], es + [Entry(t.category.name, v)])
  {
    var n := t.category.name;
    var es' := es + [Entry(n, v)];
    assert !Mentions(s, n);
    FirstIndexAppend(s, t, n);
    forall i | 0 <= i < |es| ensures es'[i] == es[i] && Mentions(s, es[i].name)
      && FirstIndex(s + [t], es[i].name) == FirstIndex(s, es[i].name) < |s| {
      assert HasKey(es, es[i].name);
      FirstIndexAppend(s, t, es[i].name);
    }
  }

  /** The loop step for a name not yet in the summary: a new last entry. */
  lemma AccumulateNew(s: seq<Transaction>, es: seq<Entry>, t: Transaction)
    requires IsSummaryOf(s, es)
    requires !HasKey(es, t.category.name)
    ensures IsSummaryOf(s + [t], es + [Entry(t.category.name, Signed(t))])
  {
    var e := Entry(t.category.name, Signed(t));
    NewKeyDistinct(es, e);
    NewKeyNames(s, es, t, Signed(t));
    NewKeyValues(s, es, t);
    NewKeyOrder(s, es, t, Signed(t));
    TotalAppend(es, e);
    BalanceAppend(s, [t]);
    BalanceSingleton(t);
  }

  /** Updating the value of key `k` keeps keys, their order and their distinctness. */
  lemma KnownKeyShape(s: seq<Transaction>, es: seq<Entry>, t: Transaction, k: nat, v: int)
    requires KeysDistinct(es) && KeysAreNames(s, es) && InFirstAppearanceOrder(s, es)
    requires k < |es| && es[k].name == t.category.name
    ensures KeysDistinct(es[k := Entry(t.category.name, v)])
    ensures KeysAreNames(s + [t], es[k := Entry(t.category.name, v)])
    ensures InFirstAppearanceOrder(s + [t], es[k := Entry(t.category.name, v)])
  {
    var es' := es[k := Entry(t.category.name, v)];
    assert forall i :: 0 <= i < |es| ==> es'[i].name == es[i].name;
    forall m ensures HasKey(es', m) <==> Mentions(s + [t], m) {
      MentionsAppend(s, t, m);
      if HasKey(es', m) {
        var i :| 0 <= i < |es'| && es'[i].name == m;
        assert HasKey(es, m);
      }
      if HasKey(es, m) {
        var i :| 0 <= i < |es| && es[i].name == m;
        assert es'[i].name == m;
      }
      assert es[k].name == t.category.name;
    }
    forall i | 0 <= i < |es| ensures FirstIndex(s + [t], es[i].name) == FirstIndex(s, es[i].name) {
      assert HasKey(es, es[i].name);
      FirstIndexAppend(s, t, es[i].name);
    }
  }

  /** Updating the value of key `k` by the signed amount keeps every value right. */
  lemma KnownKeyValues(s: seq<Transaction>, es: seq<Entry>, t: Transaction, k: nat)
    requires KeysDistinct(es) && ValuesAreNet(s, es)
    requires k < |es| && es[k].name == t.category.name
    ensures ValuesAreNet(s + [t], es[k := Entry(t.category.name, es[k].total + Signed(t))])
  {
    var es' := es[k := Entry(t.category.name, es[k].total + Signed(t))];
    forall i | 0 <= i < |es'| ensures es'[i].total == NetFor(s + [t], es'[i].name) {
      NetForAppend(s, t, es'[i].name);
      if i != k {
        assert es'[i] == es[i];
        assert es[i].name != es[k].name;
      }
    }
  }

  /** The loop step for a name already in the summary: its entry is updated in place. */
  lemma AccumulateKnown(s: seq<Transaction>, es: seq<Entry>, t: Transaction, k: nat)
    requires IsSummaryOf(s, es)
    requires k < |es| && es[k].name == t.category.name
    ensures IsSummaryOf(s + [t], es[k := Entry(t.category.name, es[k].total + Signed(t))])
  {
    var e := Entry(t.category.name, es[k].total + Signed(t));
    KnownKeyShape(s, es, t, k, e.total);
    KnownKeyValues(s, es, t, k);
    TotalUpdate(es, k, e);
    BalanceAppend(s, [t]);
    BalanceSingleton(t);
  }

  /** The summary loop keeps its invariant across one more transaction. */
  lemma AccumulateStep(s: seq<Transaction>, es: seq<Entry>, t: Transaction)
    requires IsSummaryOf(s, es)
    ensures IsSummaryOf(s + [t], Accumulate(es, t))
  {
    var n := t.category.name;
    var k := Find(es, n);
    var delta := if t.category.kind == Income then t.amount else -t.amount;
    assert delta == Signed(t);
    if k == |es| {
      assert Accumulate(es, t) == es + [Entry(n, Signed(t))];
      AccumulateNew(s, es, t);
    } else {
      assert Accumulate(es, t) == es[k := Entry(n, es[k].total + Signed(t))];
      AccumulateKnown(s, es, t, k);
    }
  }

  /** The keys of a summary, in order. */
  function Keys(es: seq<Entry>): (ks: seq<string>)
    ensures |ks| == |es| && forall i :: 0 <= i < |es| ==> ks[i] == es[i].name
  {
    seq(|es|, i requires 0 <= i < |es| => es[i].name)
  }

  /** Names strictly ordered by first appearance in `s`. */
  ghost predicate StrictlyByFirst(s: seq<Transaction>, a: seq<string>)
  {
    forall i, j :: 0 <= i < j < |a| ==> FirstIndex(s, a[i]) < FirstIndex(s, a[j])
  }

  /** In a strictly ordered sequence the head does not recur, and the tail is still ordered. */
  lemma TailOfStrict(s: seq<Transaction>, a: seq<string>)
    requires StrictlyByFirst(s, a) && |a| > 0
    ensures StrictlyByFirst(s, a[1..])
    ensures forall x :: x in a[1..] <==> x in a && x != a[0]
  {
    assert forall i :: 0 <= i < |a[1..]| ==> a[1..][i] == a[i + 1];
    forall x ensures x in a[1..] <==> x in a && x != a[0] {
      if x in a && x != a[0] {
        var j :| 0 <= j < |a| && a[j] == x;
        assert a[1..][j - 1] == x;
      }
      if x in a[1..] {
        var j :| 0 <= j < |a[1..]| && a[1..][j] == x;
        assert FirstIndex(s, a[0]) < FirstIndex(s, a[j + 1]);
      }
    }
  }

  /** The head of a strictly ordered sequence occurs first. */
  lemma HeadFirst(s: seq<Transaction>, a: seq<string>)
    requires StrictlyByFirst(s, a) && |a| > 0
    ensures forall j :: 0 <= j < |a| ==> FirstIndex(s, a[0]) <= FirstIndex(s, a[j])
  {
    forall j | 0 < j < |a| ensures FirstIndex(s, a[0]) < FirstIndex(s, a[j]) {
    }
  }

  /** A non-empty sequence has a member. */
  lemma NonEmptyHasHead(b: seq<string>)
    ensures |b| == 0 || b[0] in b
  {
  }

  /** Two strictly ordered sequences with the same names start with the same name. */
  lemma SameFirst(s: seq<Transaction>, a: seq<string>, b: seq<string>)
    requires forall x :: x in a <==> x in b
    requires forall x :: x in a ==> Mentions(s, x)
    requires StrictlyByFirst(s, a) && StrictlyByFirst(s, b)
    requires |a| > 0
    ensures |b| > 0 && a[0] == b[0]
  {
    assert a[0] in b;
    assert b[0] in a;
    var k :| 0 <= k < |b| && b[k] == a[0];
    var k' :| 0 <= k' < |a| && a[k'] == b[0];
    HeadFirst(s, a);
    HeadFirst(s, b);
    assert FirstIndex(s, b[0]) <= FirstIndex(s, b[k]);
    assert FirstIndex(s, a[0]) <= FirstIndex(s, a[k']);
    assert FirstIndex(s, a[0]) <= FirstIndex(s, b[0]);
    var f := FirstIndex(s, a[0]);
    assert Mentions(s, a[0]);
    var w :| 0 <= w < |s| && s[w].category.name == a[0];
    assert f < |s|;
    assert a[0] == s[f].category.name == b[0];
  }

  /**
   Two sequences of names occurring in `s`, each strictly ordered by first
   appearance and holding the same names, are the same sequence.
   */
  lemma {:induction false} FirstAppearanceOrderUnique(s: seq<Transaction>, a: seq<string>, b: seq<string>)
    requires forall x :: x in a <==> x in b
    requires forall x :: x in a ==> Mentions(s, x)
    requires StrictlyByFirst(s, a) && StrictlyByFirst(s, b)
    ensures a == b
  {
    if |a| == 0 {
      NonEmptyHasHead(b);
    } else {
      SameFirst(s, a, b);
      TailOfStrict(s, a);
      TailOfStrict(s, b);
      FirstAppearanceOrderUnique(s, a[1..], b[1..]);
      assert a == [a[0]] + a[1..] && b == [b[0]] + b[1..];
    }
  }

  /** The summary properties determine the summary completely: there is only one. */
  lemma SummaryUnique(s: seq<Transaction>, es1: seq<Entry>, es2: seq<Entry>)
    requires IsSummaryOf(s, es1) && IsSummaryOf(s, es2)
    ensures es1 == es2
  {
    var a, b := Keys(es1), Keys(es2);
    forall x ensures x in a <==> x in b {
      if x in a {
        var i :| 0 <= i < |a| && a[i] == x;
        assert HasKey(es1, x);
        assert HasKey(es2, x);
        var j :| 0 <= j < |es2| && es2[j].name == x;
        assert b[j] == x;
      }
      if x in b {
        var i :| 0 <= i < |b| && b[i] == x;
        assert HasKey(es2, x);
        assert HasKey(es1, x);
        var j :| 0 <= j < |es1| && es1[j].name == x;
        assert a[j] == x;
      }
    }
    forall x | x in a ensures Mentions(s, x) {
      var i :| 0 <= i < |a| && a[i] == x;
      assert HasKey(es1, x);
    }
    FirstAppearanceOrderUnique(s, a, b);
    assert forall i :: 0 <= i < |es1| ==> es1[i] == Entry(a[i], NetFor(s, a[i])) == es2[i];
  }
}
