/** ConsoleApp4, the queries: `TransactionProcessor` holds the list read from the file and
    answers LINQ queries over it. The list is never changed, so the processor is a value and
    every query a function of it. */
module TransactionProcessing {
  import opened Wrappers
  import opened Numbers
  import opened Transactions

  /** The sort key of OrderBy / OrderByDescending: the amount's numeric value. */
  function Key(t: Transaction): real
  {
    Value(t.amount)
  }

  /** `a` may stand before `b` in the requested order (non-decreasing, or non-increasing when `descending`). */
  predicate InOrder(a: Transaction, b: Transaction, descending: bool)
  {
    if descending then Key(a) >= Key(b) else Key(a) <= Key(b)
  }

  predicate Sorted(s: seq<Transaction>, descending: bool)
  {
    forall i, j :: 0 <= i < j < |s| ==> InOrder(s[i], s[j], descending)
  }

  /** The transactions of `s` whose key is `k`, in the order of `s`. */
  function WithKey(s: seq<Transaction>, k: real): (r: seq<Transaction>)
    ensures |r| <= |s|
  {
    if s == [] then []
    else (if Key(s[0]) == k then [s[0]] else []) + WithKey(s[1..], k)
  }

  /** A sort is stable when, for every key, the transactions with that key keep their relative order. */
  ghost predicate Stable(sorted: seq<Transaction>, original: seq<Transaction>)
  {
    forall k :: WithKey(sorted, k) == WithKey(original, k)
  }

  /** Inserts `x` into a sorted list, after every element that must precede it and before the
      rest, so that `x` goes before the elements with an equal key. */
  function Insert(x: Transaction, s: seq<Transaction>, descending: bool): (r: seq<Transaction>)
    requires Sorted(s, descending)
    ensures Sorted(r, descending)
    ensures multiset(r) == multiset(s) + multiset{x}
    ensures forall i :: 0 <= i < |r| ==> r[i] == x || r[i] in s
  {
    if s == [] || InOrder(x, s[0], descending) then
      ConsSorted(x, s, descending);
      [x] + s
    else
      var rest := Insert(x, s[1..], descending);
      assert forall i :: 0 <= i < |rest| ==> InOrder(s[0], rest[i], descending) by {
        forall i | 0 <= i < |rest| ensures InOrder(s[0], rest[i], descending) {
          if rest[i] != x {
            assert rest[i] in s[1..];
            var j :| 0 <= j < |s[1..]| && s[1..][j] == rest[i];
            assert s[j + 1] == rest[i];
            assert InOrder(s[0], s[j + 1], descending);
          } else {
            assert !InOrder(x, s[0], descending);
          }
        }
      }
      ConsSorted(s[0], rest, descending);
      assert s == [s[0]] + s[1..];
      [s[0]] + rest
  }

  /** An element that may precede every element of a sorted list may be put in front of it. */
  lemma ConsSorted(y: Transaction, s: seq<Transaction>, descending: bool)
    requires Sorted(s, descending)
    requires forall i :: 0 <= i < |s| ==> InOrder(y, s[i], descending)
    ensures Sorted([y] + s, descending)
  {
    var r := [y] + s;
    forall i, j | 0 <= i < j < |r| ensures InOrder(r[i], r[j], descending) {
      assert r[j] == s[j - 1];
      if i > 0 { assert r[i] == s[i - 1]; }
    }
  }

  /** A stable insertion sort: sort the tail, then insert the head before its equals. */
  function InsertionSort(s: seq<Transaction>, descending: bool): (r: seq<Transaction>)
    ensures Sorted(r, descending)
    ensures multiset(r) == multiset(s)
  {
    if s == [] then []
    else
      assert s == [s[0]] + s[1..];
      Insert(s[0], InsertionSort(s[1..], descending), descending)
  }

  /** Inserting `x` adds it in front of the elements with its own key and leaves the other keys alone. */
  lemma {:induction false} InsertWithKey(x: Transaction, s: seq<Transaction>, descending: bool, k: real)
    requires Sorted(s, descending)
    ensures WithKey(Insert(x, s, descending), k) == (if Key(x) == k then [x] else []) + WithKey(s, k)
  {
    if s == [] || InOrder(x, s[0], descending) {
    } else {
      assert Key(s[0]) != Key(x);
      InsertWithKey(x, s[1..], descending, k);
      var rest := Insert(x, s[1..], descending);
      assert ([s[0]] + rest)[1..] == rest;
    }
  }

  /** The insertion sort is stable. */
  lemma {:induction false} InsertionSortStable(s: seq<Transaction>, descending: bool)
    ensures Stable(InsertionSort(s, descending), s)
  {
    if s != [] {
      InsertionSortStable(s[1..], descending);
      forall k ensures WithKey(InsertionSort(s, descending), k) == WithKey(s, k) {
        InsertWithKey(s[0], InsertionSort(s[1..], descending), descending, k);
      }
    }
  }

  /** The elements of `s` whose amount is at least `minAmount`, in the order of `s`. */
  function AtLeast(s: seq<Transaction>, minAmount: Decimal): (r: seq<Transaction>)
    ensures |r| <= |s|
    ensures forall i :: 0 <= i < |r| ==> Value(r[i].amount) >= Value(minAmount)
    ensures forall i :: 0 <= i < |s| && Value(s[i].amount) >= Value(minAmount) ==> s[i] in r
    ensures forall t :: t in r ==> t in s
  {
    if s == [] then []
    else (if Value(s[0].amount) >= Value(minAmount) then [s[0]] else []) + AtLeast(s[1..], minAmount)
  }

  /** Filtering keeps order: filtering two stretches of a list one after the other is filtering the whole. */
  lemma {:induction false} AtLeastConcat(a: seq<Transaction>, b: seq<Transaction>, minAmount: Decimal)
    ensures AtLeast(a + b, minAmount) == AtLeast(a, minAmount) + AtLeast(b, minAmount)
  {
    if a == [] {
      assert a + b == b;
    } else {
      assert (a + b)[1..] == a[1..] + b;
      AtLeastConcat(a[1..], b, minAmount);
    }
  }

  /** The first transaction of `s` with Id `id`, if any. */
  function FirstWithId(s: seq<Transaction>, id: int32): (r: Option<Transaction>)
    ensures r.None? <==> forall i :: 0 <= i < |s| ==> s[i].id != id
    ensures r.Some? ==>
      exists i :: 0 <= i < |s| && s[i] == r.value && r.value.id == id && forall j :: 0 <= j < i ==> s[j].id != id
  {
    if s == [] then None
    else if s[0].id == id then Some(s[0])
    else
      var r := FirstWithId(s[1..], id);
      assert forall i :: 1 <= i < |s| ==> s[i] == s[1..][i - 1];
      r
  }

  /** `TransactionProcessor`: the list read from the file, and the queries over it. */
  datatype TransactionProcessor = TransactionProcessor(transactions: seq<Transaction>)
  {
    /** `FilterByAmount`: the transactions with an amount of at least `minAmount`, in stored order
        and with their multiplicity, which is `AtLeast` (see `AtLeastConcat` for the order). */
    function FilterByAmount(minAmount: Decimal): (r: seq<Transaction>)
      ensures forall i :: 0 <= i < |r| ==> Value(r[i].amount) >= Value(minAmount)
      ensures forall i :: 0 <= i < |transactions| ==>
        (Value(transactions[i].amount) >= Value(minAmount) ==> transactions[i] in r)
      ensures multiset(r) <= multiset(transactions)
      ensures r == AtLeast(transactions, minAmount)
    {
      AtLeastSubMultiset(transactions, minAmount);
      AtLeast(transactions, minAmount)
    }

    /** `SortByAmount`: a stable permutation of the list in non-decreasing amount. */
    function SortByAmount(): (r: seq<Transaction>)
      ensures forall i, j :: 0 <= i < j < |r| ==> Value(r[i].amount) <= Value(r[j].amount)
      ensures multiset(r) == multiset(transactions)
      ensures Stable(r, transactions)
    {
      InsertionSortStable(transactions, false);
      InsertionSort(transactions, false)
    }

    /** `SortByAmountDescending`: a stable permutation of the list in non-increasing amount;
        equal amounts keep their stored order. */
    function SortByAmountDescending(): (r: seq<Transaction>)
      ensures forall i, j :: 0 <= i < j < |r| ==> Value(r[i].amount) >= Value(r[j].amount)
      ensures multiset(r) == multiset(transactions)
      ensures Stable(r, transactions)
    {
      InsertionSortStable(transactions, true);
      InsertionSort(transactions, true)
    }

    /** `FindById`: the first transaction with Id `id`, or None (null) when no transaction has it. */
    function FindById(id: int32): (r: Option<Transaction>)
      ensures r.None? <==> forall i :: 0 <= i < |transactions| ==> transactions[i].id != id
      ensures r.Some? ==>
        exists i :: 0 <= i < |transactions| && transactions[i] == r.value && r.value.id == id &&
          forall j :: 0 <= j < i ==> transactions[j].id != id
    {
      FirstWithId(transactions, id)
    }

    /** `GetAllTransactions`: a copy with the same transactions in the same order. */
    function GetAllTransactions(): (r: seq<Transaction>)
      ensures |r| == |transactions| && forall i :: 0 <= i < |r| ==> r[i] == transactions[i]
    {
      transactions
    }
  }

  lemma {:induction false} AtLeastSubMultiset(s: seq<Transaction>, minAmount: Decimal)
    ensures multiset(AtLeast(s, minAmount)) <= multiset(s)
  {
    if s != [] {
      var head := if Value(s[0].amount) >= Value(minAmount) then [s[0]] else [];
      AtLeastSubMultiset(s[1..], minAmount);
      assert AtLeast(s, minAmount) == head + AtLeast(s[1..], minAmount);
      assert s == [s[0]] + s[1..];
      assert multiset(s) == multiset{s[0]} + multiset(s[1..]);
    }
  }

  /** A stable sort is unique: any sorted list that is stable with respect to `s` is the insertion
      sort of `s`, so the two sorts above are exactly LINQ's OrderBy and OrderByDescending. */
  lemma {:induction false} StableSortUnique(r: seq<Transaction>, s: seq<Transaction>, descending: bool)
    requires Sorted(r, descending) && Stable(r, s)
    ensures r == InsertionSort(s, descending)
  {
    var q := InsertionSort(s, descending);
    InsertionSortStable(s, descending);
    SortedStableEqual(r, q, descending);
  }

  /** Two lists sorted by the same order with the same transactions per key are equal. */
  lemma {:induction false} SortedStableEqual(r: seq<Transaction>, q: seq<Transaction>, descending: bool)
    requires Sorted(r, descending) && Sorted(q, descending)
    requires forall k :: WithKey(r, k) == WithKey(q, k)
    ensures r == q
    decreases |r| + |q|
  {
    if r == [] && q == [] {
    } else if r == [] {
      // q's first key has a transaction in q and none in r.
      WithKeyHead(q);
      assert false;
    } else if q == [] {
      WithKeyHead(r);
      assert false;
    } else {
      // The first elements have the same key: each is extreme in the order, so neither key can differ.
      FirstKeysEqual(r, q, descending);
      var k := Key(r[0]);
      WithKeyHead(r);
      WithKeyHead(q);
      assert r[0] == WithKey(r, k)[0] == WithKey(q, k)[0] == q[0];
      forall k' ensures WithKey(r[1..], k') == WithKey(q[1..], k') {
        WithKeyTail(r, k');
        WithKeyTail(q, k');
        var front := if Key(r[0]) == k' then [r[0]] else [];
        assert (front + WithKey(r[1..], k'))[|front|..] == WithKey(r[1..], k');
        assert (front + WithKey(q[1..], k'))[|front|..] == WithKey(q[1..], k');
      }
      SortedTail(r, descending);
      SortedTail(q, descending);
      SortedStableEqual(r[1..], q[1..], descending);
      assert r == [r[0]] + r[1..] && q == [q[0]] + q[1..];
    }
  }

  lemma WithKeyHead(s: seq<Transaction>)
    requires s != []
    ensures WithKey(s, Key(s[0])) != [] && WithKey(s, Key(s[0]))[0] == s[0]
  {
  }

  lemma WithKeyTail(s: seq<Transaction>, k: real)
    requires s != []
    ensures WithKey(s, k) == (if Key(s[0]) == k then [s[0]] else []) + WithKey(s[1..], k)
  {
  }

  lemma SortedTail(s: seq<Transaction>, descending: bool)
    requires s != [] && Sorted(s, descending)
    ensures Sorted(s[1..], descending)
  {
  }

  /** Every transaction with key `k` in `s` appears in `WithKey(s, k)`. */
  lemma {:induction false} InWithKey(s: seq<Transaction>, i: nat)
    requires i < |s|
    ensures s[i] in WithKey(s, Key(s[i]))
  {
    if i > 0 {
      InWithKey(s[1..], i - 1);
      assert s[1..][i - 1] == s[i];
    }
  }

  /** Members of `WithKey(s, k)` are members of `s` with key `k`. */
  lemma {:induction false} WithKeyMember(s: seq<Transaction>, k: real, t: Transaction)
    requires t in WithKey(s, k)
    ensures t in s && Key(t) == k
  {
    if s != [] {
      if t != s[0] || Key(s[0]) != k {
        WithKeyMember(s[1..], k, t);
      }
    }
  }

  lemma FirstKeysEqual(r: seq<Transaction>, q: seq<Transaction>, descending: bool)
    requires r != [] && q != []
    requires Sorted(r, descending) && Sorted(q, descending)
    requires forall k :: WithKey(r, k) == WithKey(q, k)
    ensures Key(r[0]) == Key(q[0])
  {
    // q[0] occurs in r, so r[0] may precede it; r[0] occurs in q, so q[0] may precede it.
    InWithKey(q, 0);
    assert q[0] in WithKey(r, Key(q[0]));
    WithKeyMember(r, Key(q[0]), q[0]);
    var i :| 0 <= i < |r| && r[i] == q[0];
    assert InOrder(r[0], q[0], descending) by { if i > 0 { assert InOrder(r[0], r[i], descending); } }
    InWithKey(r, 0);
    assert r[0] in WithKey(q, Key(r[0]));
    WithKeyMember(q, Key(r[0]), r[0]);
    var j :| 0 <= j < |q| && q[j] == r[0];
    assert InOrder(q[0], r[0], descending) by { if j > 0 { assert InOrder(q[0], q[j], descending); } }
  }
}
