// std::sort by its contract: the sorted rearrangement, which is unique when the comparison is a
// strict total order.
module Sorting {

  predicate Distinct(s: seq<nat>) {
    forall i, j | 0 <= i < j < |s| :: s[i] != s[j]
  }

  // How many numbers below n satisfy p.
  function Tally(p: int -> bool, n: nat): nat {
    if n == 0 then 0 else Tally(p, n - 1) + (if p(n - 1) then 1 else 0)
  }

  lemma {:induction false} TallyIsSize(p: int -> bool, n: nat)
    ensures Tally(p, n) == |NumbersBelow(p, n)| == |set i | 0 <= i < n && p(i)|
  {
    if n == 0 {
      assert NumbersBelow(p, 0) == {};
    } else {
      TallyIsSize(p, n - 1);
      NumbersStep(p, n);
    }
    assert NumbersBelow(p, n) == set i | 0 <= i < n && p(i);
  }

  ghost function NumbersBelow(p: int -> bool, n: nat): set<int> {
    set i | 0 <= i < n && p(i)
  }

  lemma NumbersStep(p: int -> bool, n: nat)
    requires n > 0
    ensures |NumbersBelow(p, n)| == |NumbersBelow(p, n - 1)| + (if p(n - 1) then 1 else 0)
  {
    if p(n - 1) {
      assert NumbersBelow(p, n) == NumbersBelow(p, n - 1) + {n - 1};
    } else {
      assert NumbersBelow(p, n) == NumbersBelow(p, n - 1);
    }
  }

  // The parent of a position of a binary heap.
  function Parent(i: nat): (p: nat)
    ensures i > 0 ==> p < i
  {
    if i == 0 then 0 else (i - 1) / 2
  }

  ghost predicate StrictTotal<T(!new)>(less: (T, T) -> bool) {
    && (forall a :: !less(a, a))
    && (forall a, b, c :: less(a, b) && less(b, c) ==> less(a, c))
    && (forall a, b :: a != b ==> less(a, b) || less(b, a))
  }

  ghost predicate Sorted<T>(less: (T, T) -> bool, s: seq<T>) {
    forall i, j | 0 <= i < j < |s| :: !less(s[j], s[i])
  }

  function InsertSorted<T>(less: (T, T) -> bool, x: T, s: seq<T>): seq<T> {
    if s == [] || !less(s[0], x) then [x] + s else [s[0]] + InsertSorted(less, x, s[1..])
  }

  function Sort<T>(less: (T, T) -> bool, s: seq<T>): seq<T> {
    if s == [] then [] else InsertSorted(less, s[0], Sort(less, s[1..]))
  }

  lemma {:induction false} InsertPermutes<T>(less: (T, T) -> bool, x: T, s: seq<T>)
    ensures multiset(InsertSorted(less, x, s)) == multiset(s) + multiset{x}
  {
    if s != [] && less(s[0], x) {
      InsertPermutes(less, x, s[1..]);
      assert s == [s[0]] + s[1..];
    }
  }

  lemma {:induction false} SortPermutes<T>(less: (T, T) -> bool, s: seq<T>)
    ensures multiset(Sort(less, s)) == multiset(s)
    ensures |Sort(less, s)| == |s|
  {
    if s != [] {
      SortPermutes(less, s[1..]);
      InsertPermutes(less, s[0], Sort(less, s[1..]));
      assert s == [s[0]] + s[1..];
      assert |Sort(less, s)| == |multiset(Sort(less, s))| == |multiset(s)|;
    }
  }

  lemma {:induction false} InsertKeepsSorted<T(!new)>(less: (T, T) -> bool, x: T, s: seq<T>)
    requires StrictTotal(less) && Sorted(less, s)
    ensures Sorted(less, InsertSorted(less, x, s))
  {
    var r := InsertSorted(less, x, s);
    if s == [] {
    } else if !less(s[0], x) {
      forall j | 1 <= j < |r|
        ensures !less(r[j], x)
      {
        assert r[j] == s[j - 1];
        assert j > 1 ==> !less(s[j - 1], s[0]);
      }
      assert forall i, j | 1 <= i < j < |r| :: r[i] == s[i - 1] && r[j] == s[j - 1];
    } else {
      var t := InsertSorted(less, x, s[1..]);
      InsertKeepsSorted(less, x, s[1..]);
      InsertPermutes(less, x, s[1..]);
      forall j | 0 <= j < |t|
        ensures !less(t[j], s[0])
      {
        assert t[j] in multiset(t);
        if t[j] != x {
          assert t[j] in s[1..];
        }
      }
    }
  }

  lemma {:induction false} SortSorts<T(!new)>(less: (T, T) -> bool, s: seq<T>)
    requires StrictTotal(less)
    ensures Sorted(less, Sort(less, s))
  {
    if s != [] {
      SortSorts(less, s[1..]);
      InsertKeepsSorted(less, s[0], Sort(less, s[1..]));
    }
  }

  lemma WithoutFirst<T>(s: seq<T>)
    requires s != []
    ensures multiset(s[1..]) == multiset(s) - multiset{s[0]}
  {
    assert s == [s[0]] + s[1..];
  }

  lemma SortedTail<T>(less: (T, T) -> bool, s: seq<T>)
    requires Sorted(less, s) && s != []
    ensures Sorted(less, s[1..])
  {
  }

  lemma {:induction false} SortedUnique<T(!new)>(less: (T, T) -> bool, a: seq<T>, b: seq<T>)
    requires StrictTotal(less) && Sorted(less, a) && Sorted(less, b) && multiset(a) == multiset(b)
    ensures a == b
  {
    hide Sorted;
    SameSize(a, b);
    if a != [] {
      FirstIsLeast(less, a, b);
      FirstIsLeast(less, b, a);
      assert a[0] == b[0];
      WithoutFirst(a);
      WithoutFirst(b);
      SortedTail(less, a);
      SortedTail(less, b);
      SortedUnique(less, a[1..], b[1..]);
      assert a == [a[0]] + a[1..] && b == [b[0]] + b[1..];
    }
  }

  lemma SameSize<T>(a: seq<T>, b: seq<T>)
    requires multiset(a) == multiset(b)
    ensures |a| == |b|
  {
    assert |a| == |multiset(a)| == |multiset(b)| == |b|;
  }

  lemma FirstIsLeast<T(!new)>(less: (T, T) -> bool, a: seq<T>, b: seq<T>)
    requires StrictTotal(less) && Sorted(less, a) && multiset(a) == multiset(b) && |a| == |b| > 0
    ensures !less(b[0], a[0])
  {
    assert b[0] in multiset(a);
    var i :| 0 <= i < |a| && a[i] == b[0];
    assert i > 0 ==> !less(a[i], a[0]);
  }

  // Order of arrival does not matter.
  lemma SortIgnoresOrder<T(!new)>(less: (T, T) -> bool, a: seq<T>, b: seq<T>)
    requires StrictTotal(less) && multiset(a) == multiset(b)
    ensures Sort(less, a) == Sort(less, b)
  {
    SortSorts(less, a);
    SortSorts(less, b);
    SortPermutes(less, a);
    SortPermutes(less, b);
    SortedUnique(less, Sort(less, a), Sort(less, b));
  }
}
