/** Sorting rows in descending order of an integer column, as
    `DataFrame.sort_values(by=..., ascending=False)` does. The contract
    promises a sorted permutation and nothing about the order of ties. */
module Sorting {

  ghost predicate SortedDesc<T>(s: seq<T>, key: T -> int) {
    forall i, j :: 0 <= i < j < |s| ==> key(s[i]) >= key(s[j])
  }

  /** The column `key` of `s`, in row order. */
  function Column<T, U>(s: seq<T>, key: T -> U): (c: seq<U>)
    ensures |c| == |s|
    ensures forall i :: 0 <= i < |s| ==> c[i] == key(s[i])
  {
    seq(|s|, i requires 0 <= i < |s| => key(s[i]))
  }

  /** Places `x` into the descending sequence `s`. */
  function Insert<T>(x: T, s: seq<T>, key: T -> int): (r: seq<T>)
    requires SortedDesc(s, key)
    ensures SortedDesc(r, key)
    ensures multiset(r) == multiset(s) + multiset{x}
    ensures |r| == |s| + 1
    ensures r[0] == x || (|s| > 0 && r[0] == s[0])
  {
    if |s| == 0 || key(x) >= key(s[0]) then
      SortedCons(x, s, key);
      [x] + s
    else
      SortedTailOf(s, key);
      var rest := Insert(x, s[1..], key);
      assert s == [s[0]] + s[1..];
      assert key(s[0]) >= key(rest[0]);
      SortedCons(s[0], rest, key);
      [s[0]] + rest
  }

  /** A sorted sequence stays sorted under a first element no smaller than
      its head. */
  lemma SortedCons<T>(y: T, t: seq<T>, key: T -> int)
    requires SortedDesc(t, key)
    requires |t| == 0 || key(y) >= key(t[0])
    ensures SortedDesc([y] + t, key)
  {
    var r := [y] + t;
    forall i, j | 0 <= i < j < |r|
      ensures key(r[i]) >= key(r[j])
    {
      if i == 0 {
        assert key(t[0]) >= key(t[j - 1]);
      } else {
        assert r[i] == t[i - 1] && r[j] == t[j - 1];
      }
    }
  }

  /** Dropping the first element keeps a sequence sorted. */
  lemma SortedTailOf<T>(s: seq<T>, key: T -> int)
    requires SortedDesc(s, key) && |s| > 0
    ensures SortedDesc(s[1..], key)
  {
    forall i, j | 0 <= i < j < |s| - 1
      ensures key(s[1..][i]) >= key(s[1..][j])
    {
      assert s[1..][i] == s[i + 1] && s[1..][j] == s[j + 1];
    }
  }

  /** Sorts `s` in descending order of `key`. */
  function SortDesc<T>(s: seq<T>, key: T -> int): (r: seq<T>)
    ensures SortedDesc(r, key)
    ensures multiset(r) == multiset(s)
    ensures |r| == |s|
  {
    if |s| == 0 then []
    else
      assert s == [s[0]] + s[1..];
      Insert(s[0], SortDesc(s[1..], key), key)
  }

  lemma ColumnAppend<T, U>(a: seq<T>, b: seq<T>, key: T -> U)
    ensures Column(a + b, key) == Column(a, key) + Column(b, key)
  {
  }

  /** Taking the first row off `a` takes its key out of the column. */
  lemma ColumnWithoutHead<T, U>(a: seq<T>, key: T -> U)
    requires |a| > 0
    ensures multiset(Column(a, key)) == multiset(Column(a[1..], key)) + multiset{key(a[0])}
  {
    assert Column(a, key) == [key(a[0])] + Column(a[1..], key);
  }

  /** Taking row `j` out of `b` takes its key out of the column. */
  lemma ColumnWithout<T, U>(b: seq<T>, j: int, key: T -> U)
    requires 0 <= j < |b|
    ensures multiset(Column(b, key)) == multiset(Column(b[..j] + b[j + 1..], key)) + multiset{key(b[j])}
  {
    var front, back := b[..j], b[j + 1..];
    assert b == front + [b[j]] + back;
    ColumnAppend(front + [b[j]], back, key);
    ColumnAppend(front, [b[j]], key);
    ColumnAppend(front, back, key);
  }

  /** Taking out the element at `j` takes one occurrence of it out of the
      multiset. */
  lemma MultisetWithout<T>(b: seq<T>, j: int)
    requires 0 <= j < |b|
    ensures multiset(b[..j] + b[j + 1..]) == multiset(b) - multiset{b[j]}
  {
    assert b == b[..j] + [b[j]] + b[j + 1..];
  }

  /** The first element of `a` occurs in its permutation `b` at some `j`,
      and taking it out of both leaves permutations of each other. */
  lemma RemoveMatching<T>(a: seq<T>, b: seq<T>) returns (j: int)
    requires multiset(a) == multiset(b)
    requires |a| > 0
    ensures 0 <= j < |b| && b[j] == a[0]
    ensures multiset(a[1..]) == multiset(b[..j] + b[j + 1..])
  {
    assert a[0] in b by {
      assert a[0] in multiset(a);
    }
    j :| 0 <= j < |b| && b[j] == a[0];
    MultisetWithout(b, j);
    assert multiset(a[1..]) == multiset(a) - multiset{a[0]} by {
      assert a == [a[0]] + a[1..];
    }
  }

  /** Permutations have permuted columns. */
  lemma {:induction false} ColumnOfPermutation<T, U>(a: seq<T>, b: seq<T>, key: T -> U)
    requires multiset(a) == multiset(b)
    ensures multiset(Column(a, key)) == multiset(Column(b, key))
    decreases |a|
  {
    if |a| == 0 {
      assert |b| == |multiset(b)| == 0;
    } else {
      var j := RemoveMatching(a, b);
      var b' := b[..j] + b[j + 1..];
      ColumnOfPermutation(a[1..], b', key);
      ColumnWithoutHead(a, key);
      ColumnWithout(b, j, key);
    }
  }

  /** The identity key: a column of integers sorted by its own values. */
  function Id(x: int): int {
    x
  }

  /** Two non-empty descending sequences holding the same values start with
      the same value: the largest one. */
  lemma SortedHeadsEqual(a: seq<int>, b: seq<int>)
    requires SortedDesc(a, Id) && SortedDesc(b, Id)
    requires multiset(a) == multiset(b)
    requires |a| > 0 && |b| > 0
    ensures a[0] == b[0]
  {
    assert a[0] in multiset(b) && b[0] in multiset(a);
    var i :| 0 <= i < |b| && b[i] == a[0];
    var j :| 0 <= j < |a| && a[j] == b[0];
    assert Id(b[0]) >= Id(b[i]) && Id(a[0]) >= Id(a[j]);
  }

  /** Dropping the first element drops one occurrence of it. */
  lemma MultisetTail<T>(a: seq<T>)
    requires |a| > 0
    ensures multiset(a[1..]) == multiset(a) - multiset{a[0]}
  {
    assert a == [a[0]] + a[1..];
  }

  /** Two descending integer sequences holding the same values are equal. */
  lemma {:induction false} SortedIntsUnique(a: seq<int>, b: seq<int>)
    requires SortedDesc(a, Id) && SortedDesc(b, Id)
    requires multiset(a) == multiset(b)
    ensures a == b
    decreases |a|
  {
    assert |b| == |multiset(b)| == |multiset(a)| == |a|;
    if |a| > 0 {
      SortedTailsAgree(a, b);
      SortedIntsUnique(a[1..], b[1..]);
      assert a == [a[0]] + a[1..] && b == [b[0]] + b[1..];
    }
  }

  /** Past equal heads, two descending sequences holding the same values
      continue as descending sequences holding the same values. */
  lemma SortedTailsAgree(a: seq<int>, b: seq<int>)
    requires SortedDesc(a, Id) && SortedDesc(b, Id)
    requires multiset(a) == multiset(b)
    requires |a| > 0 && |b| > 0
    ensures a[0] == b[0]
    ensures SortedDesc(a[1..], Id) && SortedDesc(b[1..], Id)
    ensures multiset(a[1..]) == multiset(b[1..])
  {
    SortedHeadsEqual(a, b);
    MultisetTail(a);
    MultisetTail(b);
    SortedTailOf(a, Id);
    SortedTailOf(b, Id);
  }

  /** However ties are broken, every sorted permutation of the same rows has
      the same `key` column: the order of tied rows is the only freedom. */
  lemma SortedPermutationsAgreeOnKey<T>(a: seq<T>, b: seq<T>, key: T -> int)
    requires SortedDesc(a, key) && SortedDesc(b, key)
    requires multiset(a) == multiset(b)
    ensures Column(a, key) == Column(b, key)
  {
    ColumnOfPermutation(a, b, key);
    SortedIntsUnique(Column(a, key), Column(b, key));
  }
}
