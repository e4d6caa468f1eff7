/** Ordering one row of seats by seat number. The page sorts each row in place with
    `Array.prototype.sort` and the comparator `(a, b) => key(a) - key(b)`; that sort is
    stable, so its result is the stable sort of the row by key, which `SortByKey`
    defines as an insertion sort and `SortRow` computes in place on an array. The key
    is a parameter here; the seat map passes the seat-number key. */
module StableSort {

  ghost predicate SortedByKey<T>(key: T -> nat, row: seq<T>) {
    forall i, j :: 0 <= i < j < |row| ==> key(row[i]) <= key(row[j])
  }

  /** The elements of `row` whose key is `k`, in their order in `row`. */
  function WithKey<T>(key: T -> nat, row: seq<T>, k: nat): seq<T> {
    if row == [] then []
    else WithKey(key, row[..|row| - 1], k) + (if key(row[|row| - 1]) == k then [row[|row| - 1]] else [])
  }

  /** Places `x` after every element whose key is at most x's and before the larger ones:
      one step of a stable insertion sort. */
  function Insert<T>(key: T -> nat, row: seq<T>, x: T): seq<T> {
    if row == [] then [x]
    else if key(row[|row| - 1]) > key(x) then Insert(key, row[..|row| - 1], x) + [row[|row| - 1]]
    else row + [x]
  }

  /** The row stably sorted by key. */
  function SortByKey<T>(key: T -> nat, row: seq<T>): seq<T> {
    if row == [] then [] else Insert(key, SortByKey(key, row[..|row| - 1]), row[|row| - 1])
  }

  lemma {:induction false} WithKeyAppend<T>(key: T -> nat, a: seq<T>, b: seq<T>, k: nat)
    ensures WithKey(key, a + b, k) == WithKey(key, a, k) + WithKey(key, b, k)
  {
    if b != [] {
      assert (a + b)[..|a + b| - 1] == a + b[..|b| - 1];
      WithKeyAppend(key, a, b[..|b| - 1], k);
    } else {
      assert a + b == a;
    }
  }

  lemma {:induction false} InsertPermutes<T>(key: T -> nat, row: seq<T>, x: T)
    ensures multiset(Insert(key, row, x)) == multiset(row) + multiset{x}
  {
    if row != [] {
      var init, last := row[..|row| - 1], row[|row| - 1];
      assert row == init + [last];
      InsertPermutes(key, init, x);
    }
  }

  /** Inserting adds `x` and nothing else, so a bound on the keys of `row` and of `x`
      bounds the keys of the result. */
  lemma InsertBounded<T>(key: T -> nat, row: seq<T>, x: T, bound: nat)
    requires forall e :: e in row ==> key(e) <= bound
    requires key(x) <= bound
    ensures forall e :: e in Insert(key, row, x) ==> key(e) <= bound
  {
    InsertPermutes(key, row, x);
    forall e | e in Insert(key, row, x) ensures key(e) <= bound {
      assert e in multiset(Insert(key, row, x));
    }
  }

  /** A sorted row followed by an element with a key at least all of its keys is sorted. */
  lemma SortedSnoc<T>(key: T -> nat, row: seq<T>, last: T)
    requires SortedByKey(key, row)
    requires forall e :: e in row ==> key(e) <= key(last)
    ensures SortedByKey(key, row + [last])
  {
    forall i, j | 0 <= i < j < |row| + 1 ensures key((row + [last])[i]) <= key((row + [last])[j]) {
      if j == |row| {
        assert (row + [last])[i] in row;
      }
    }
  }

  lemma {:induction false} InsertSorted<T>(key: T -> nat, row: seq<T>, x: T)
    requires SortedByKey(key, row)
    ensures SortedByKey(key, Insert(key, row, x))
  {
    if row == [] {
      return;
    }
    var init, last := row[..|row| - 1], row[|row| - 1];
    if key(last) > key(x) {
      InsertSorted(key, init, x);
      forall e | e in init ensures key(e) <= key(last) {
        var m :| 0 <= m < |init| && init[m] == e;
        assert row[m] == e;
      }
      InsertBounded(key, init, x, key(last));
      SortedSnoc(key, Insert(key, init, x), last);
    } else {
      forall e | e in row ensures key(e) <= key(x) {
        var m :| 0 <= m < |row| && row[m] == e;
      }
      SortedSnoc(key, row, x);
    }
  }

  lemma {:induction false} InsertStable<T>(key: T -> nat, row: seq<T>, x: T, k: nat)
    ensures WithKey(key, Insert(key, row, x), k) == WithKey(key, row, k) + WithKey(key, [x], k)
  {
    assert [x][..0] == [];
    if row == [] {
      return;
    }
    var init, last := row[..|row| - 1], row[|row| - 1];
    assert row == init + [last];
    if key(last) > key(x) {
      InsertStable(key, init, x, k);
      var ins := Insert(key, init, x);
      WithKeyAppend(key, ins, [last], k);
      WithKeyAppend(key, init, [last], k);
      assert [last][..0] == [];
    } else {
      WithKeyAppend(key, row, [x], k);
    }
  }

  /** The sorted row is ordered by key, is a permutation of the row, and keeps the
      input order among elements with the same key (stability). */
  lemma {:induction false} SortByKeyCorrect<T>(key: T -> nat, row: seq<T>)
    ensures SortedByKey(key, SortByKey(key, row))
    ensures multiset(SortByKey(key, row)) == multiset(row)
    ensures forall k: nat :: WithKey(key, SortByKey(key, row), k) == WithKey(key, row, k)
  {
    if row != [] {
      var init, last := row[..|row| - 1], row[|row| - 1];
      assert row == init + [last];
      SortByKeyCorrect(key, init);
      InsertPermutes(key, SortByKey(key, init), last);
      InsertSorted(key, SortByKey(key, init), last);
      forall k: nat ensures WithKey(key, SortByKey(key, row), k) == WithKey(key, row, k) {
        InsertStable(key, SortByKey(key, init), last, k);
        WithKeyAppend(key, init, [last], k);
        assert [last][..0] == [];
      }
    }
  }

  /** Sorting a row that is already ordered changes nothing; in particular sorting is
      idempotent, so grouping the same snapshot again gives the same rows. */
  lemma {:induction false} SortSortedIsIdentity<T>(key: T -> nat, row: seq<T>)
    requires SortedByKey(key, row)
    ensures SortByKey(key, row) == row
  {
    if row != [] {
      var init, last := row[..|row| - 1], row[|row| - 1];
      SortSortedIsIdentity(key, init);
      assert Insert(key, init, last) == init + [last] by {
        if init != [] {
          assert key(init[|init| - 1]) <= key(last);
        }
      }
    }
  }

  lemma SortIsIdempotent<T>(key: T -> nat, row: seq<T>)
    ensures SortByKey(key, SortByKey(key, row)) == SortByKey(key, row)
  {
    SortByKeyCorrect(key, row);
    SortSortedIsIdentity(key, SortByKey(key, row));
  }

  /** Inserting `x` at position `j` of `s` is `Insert` when the elements after `j` are the
      ones larger than `x`. */
  lemma {:induction false} InsertAt<T>(key: T -> nat, s: seq<T>, x: T, j: nat)
    requires j <= |s|
    requires forall k :: j <= k < |s| ==> key(s[k]) > key(x)
    requires j == 0 || key(s[j - 1]) <= key(x)
    ensures Insert(key, s, x) == s[..j] + [x] + s[j..]
    decreases |s| - j
  {
    if j < |s| {
      var init := s[..|s| - 1];
      InsertAt(key, init, x, j);
      assert s[..j] == init[..j];
      assert s[j..] == init[j..] + [s[|s| - 1]];
    }
  }

  /** One pass of the insertion sort: with a[..i] sorted, shifts the elements of a[..i]
      with a larger key than a[i] one place right and puts a[i] in the gap. */
  method InsertInPlace<T>(key: T -> nat, a: array<T>, i: nat)
    requires i < a.Length
    modifies a
    ensures a[..i + 1] == Insert(key, old(a[..i]), old(a[i]))
    ensures forall k :: i < k < a.Length ==> a[k] == old(a[k])
  {
    ghost var sorted := a[..i];
    var x := a[i];
    var kx := key(x);
    var j := i;
    while j > 0 && key(a[j - 1]) > kx
      invariant 0 <= j <= i
      invariant forall k :: 0 <= k < j ==> a[k] == sorted[k]
      invariant forall k :: j < k <= i ==> a[k] == sorted[k - 1]
      invariant forall k :: j <= k < i ==> key(sorted[k]) > kx
      invariant forall k :: i < k < a.Length ==> a[k] == old(a[k])
    {
      a[j] := a[j - 1];
      j := j - 1;
    }
    a[j] := x;
    InsertAt(key, sorted, x, j);
    assert a[..i + 1] == sorted[..j] + [x] + sorted[j..];
  }

  /** Stable insertion sort of the array in place. */
  method SortRow<T>(key: T -> nat, a: array<T>)
    modifies a
    ensures a[..] == SortByKey(key, old(a[..]))
  {
    ghost var input := a[..];
    var i := 0;
    while i < a.Length
      invariant 0 <= i <= a.Length
      invariant a[..i] == SortByKey(key, input[..i])
      invariant forall k :: i <= k < a.Length ==> a[k] == input[k]
    {
      InsertInPlace(key, a, i);
      assert input[..i + 1] == input[..i] + [input[i]];
      i := i + 1;
    }
    assert input[..a.Length] == input;
  }

  /** The row sorted in a fresh array. */
  method SortedCopy<T>(key: T -> nat, row: seq<T>) returns (r: seq<T>)
    ensures r == SortByKey(key, row)
  {
    var a := new T[|row|](k requires 0 <= k < |row| => row[k]);
    assert a[..] == row;
    SortRow(key, a);
    r := a[..];
  }
}
