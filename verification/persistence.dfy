/**
 The row mapping of the persistence adapter. A file is a header followed by
 five-field rows; rows are modelled as already-split records, so delimited-text
 quoting and number formatting are outside the model.
 */
module Persistence {
  import opened Options
  import opened Entities

  /**
   One data row of the file, its fields named by the header columns
   `Amount`, `Category`, `Type`, `Date` and `Description`.
   */
  datatype Row = Row(amount: int, category: string, kind: string, date: string, description: string)

  /** The row written for one transaction. */
  function ToRow(t: Transaction): Row
  {
    Row(t.amount, t.category.name, Label(t.category.kind), t.date, t.description)
  }

  /**
   `save_to_file`: one row per transaction, in store order: amount, category name,
   type label, date, description.
   */
  function Save(s: seq<Transaction>): (rows: seq<Row>)
    ensures |rows| == |s|
    ensures forall i :: 0 <= i < |s| ==>
      && rows[i].amount == s[i].amount
      && rows[i].category == s[i].category.name
      && rows[i].kind == Label(s[i].category.kind)
      && rows[i].date == s[i].date
      && rows[i].description == s[i].description
  {
    if |s| == 0 then []
    else
      var rest := Save(s[1..]);
      assert forall i :: 1 <= i < |s| ==> s[i] == s[1..][i - 1];
      [ToRow(s[0])] + rest
  }

  /** A row is kept on load iff its `Category` field names a registry entry. */
  predicate Resolvable(reg: seq<Category>, row: Row)
  {
    Lookup(reg, row.category).Some?
  }

  /**
   The transaction a row loads as: the category is the first registry entry with
   the row's category name; the `Type` field is not read.
   */
  function FromRow(reg: seq<Category>, row: Row): Option<Transaction>
  {
    match Lookup(reg, row.category)
    case None => None
    case Some(c) => Some(Transaction(row.amount, c, row.date, row.description))
  }

  /**
   The row loop of `load_from_file`: resolve each row's category by name, drop the
   rows that do not resolve, keep the rest in file order.
   */
  function Resolve(reg: seq<Category>, rows: seq<Row>): (r: seq<Transaction>)
    ensures |r| <= |rows|
    ensures forall i :: 0 <= i < |r| ==> Lookup(reg, r[i].category.name) == Some(r[i].category)
  {
    if |rows| == 0 then []
    else
      var rest := Resolve(reg, rows[1..]);
      var head := Kept(reg, rows[0]);
      assert forall i :: |head| <= i < |head + rest| ==> (head + rest)[i] == rest[i - |head|];
      head + rest
  }

  /** What one row contributes to the store on load: its transaction, or nothing. */
  function Kept(reg: seq<Category>, row: Row): seq<Transaction>
  {
    match FromRow(reg, row)
    case Some(t) => [t]
    case None => []
  }

  /** Number of rows whose category resolves. */
  function CountResolvable(reg: seq<Category>, rows: seq<Row>): nat
  {
    if |rows| == 0 then 0
    else (if Resolvable(reg, rows[0]) then 1 else 0) + CountResolvable(reg, rows[1..])
  }

  /** Load keeps exactly as many transactions as there are resolvable rows. */
  lemma {:induction false} ResolveLength(reg: seq<Category>, rows: seq<Row>)
    ensures |Resolve(reg, rows)| == CountResolvable(reg, rows)
  {
    if |rows| > 0 {
      ResolveLength(reg, rows[1..]);
    }
  }

  /** Loading is a filter-map: it distributes over concatenation of row sequences, so order is kept. */
  lemma {:induction false} ResolveAppend(reg: seq<Category>, a: seq<Row>, b: seq<Row>)
    ensures Resolve(reg, a + b) == Resolve(reg, a) + Resolve(reg, b)
  {
    if |a| == 0 {
      assert a + b == b;
    } else {
      assert (a + b)[0] == a[0];
      assert (a + b)[1..] == a[1..] + b;
      ResolveAppend(reg, a[1..], b);
      calc {
        Resolve(reg, a + b);
        Kept(reg, a[0]) + Resolve(reg, a[1..] + b);
        Kept(reg, a[0]) + (Resolve(reg, a[1..]) + Resolve(reg, b));
        (Kept(reg, a[0]) + Resolve(reg, a[1..])) + Resolve(reg, b);
      }
    }
  }

  /** When every row resolves, load keeps every row, position for position. */
  lemma {:induction false} ResolveAllResolvable(reg: seq<Category>, rows: seq<Row>)
    requires forall i :: 0 <= i < |rows| ==> Resolvable(reg, rows[i])
    ensures |Resolve(reg, rows)| == |rows|
    ensures forall i :: 0 <= i < |rows| ==> FromRow(reg, rows[i]) == Some(Resolve(reg, rows)[i])
  {
    if |rows| > 0 {
      ResolveAllResolvable(reg, rows[1..]);
      assert forall i :: 1 <= i < |rows| ==> rows[i] == rows[1..][i - 1];
    }
  }

  /** An unresolvable row between two resolvable ones is dropped; the other two keep their order. */
  lemma DropsUnresolvedRow(reg: seq<Category>, a: Row, bad: Row, b: Row)
    requires Resolvable(reg, a) && Resolvable(reg, b) && !Resolvable(reg, bad)
    ensures Resolve(reg, [a, bad, b]) == [FromRow(reg, a).value, FromRow(reg, b).value]
  {
    assert [a, bad, b][1..] == [bad, b];
    assert [bad, b][1..] == [b];
    assert [b][1..] == [];
    assert Kept(reg, bad) == [];
    assert Resolve(reg, [b]) == [FromRow(reg, b).value];
    assert Resolve(reg, [bad, b]) == [FromRow(reg, b).value];
  }

  /** `a` and `b` are the same rows except possibly in the `Type` column. */
  predicate SameExceptType(a: seq<Row>, b: seq<Row>)
  {
    |a| == |b| && forall i :: 0 <= i < |a| ==> a[i].(kind := "") == b[i].(kind := "")
  }

  /** Load does not read the `Type` column: the type comes from the registry. */
  lemma {:induction false} LoadIgnoresType(reg: seq<Category>, a: seq<Row>, b: seq<Row>)
    requires SameExceptType(a, b)
    ensures Resolve(reg, a) == Resolve(reg, b)
  {
    if |a| > 0 {
      assert a[0].(kind := "") == b[0].(kind := "");
      assert a[0].category == b[0].category;
      assert SameExceptType(a[1..], b[1..]) by {
        forall i | 0 <= i < |a[1..]| ensures a[1..][i].(kind := "") == b[1..][i].(kind := "") {
          assert a[1..][i] == a[i + 1] && b[1..][i] == b[i + 1];
        }
      }
      LoadIgnoresType(reg, a[1..], b[1..]);
    }
  }

  /**
   Row round trip: the rows saved for a store whose categories all come from a
   registry with distinct names load back as that same store.
   */
  lemma {:induction false} SaveThenResolve(reg: seq<Category>, s: seq<Transaction>)
    requires DistinctNames(reg)
    requires forall i :: 0 <= i < |s| ==> s[i].category in reg
    ensures Resolve(reg, Save(s)) == s
  {
    if |s| > 0 {
      LookupMember(reg, s[0].category);
      assert Save(s)[1..] == Save(s[1..]);
      assert forall i :: 0 <= i < |s[1..]| ==> s[1..][i] == s[i + 1];
      SaveThenResolve(reg, s[1..]);
      assert s == [s[0]] + s[1..];
    }
  }
}
