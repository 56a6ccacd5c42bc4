/**
 Sequence operations the source performs with pandas: boolean-mask selection
 (`Filter`), column projection (`Project`) and `drop_duplicates` keeping the
 first occurrence (`Dedup`), with the counting facts the aggregations rely on.
 */
module Seqs {

  predicate NoDuplicates<T(==)>(s: seq<T>)
  {
    forall i, j :: 0 <= i < j < |s| ==> s[i] != s[j]
  }

  /** Rows satisfying `p`, in their original order. */
  function Filter<T(!new)>(s: seq<T>, p: T -> bool): (r: seq<T>)
    ensures |r| <= |s|
    ensures forall x :: x in r <==> x in s && p(x)
    ensures multiset(r) <= multiset(s)
  {
    if |s| == 0 then []
    else
      assert s == [s[0]] + s[1..];
      (if p(s[0]) then [s[0]] else []) + Filter(s[1..], p)
  }

  lemma {:induction false} FilterConcat<T(!new)>(a: seq<T>, b: seq<T>, p: T -> bool)
    ensures Filter(a + b, p) == Filter(a, p) + Filter(b, p)
    decreases |a|
  {
    if |a| > 0 {
      assert (a + b)[1..] == a[1..] + b;
      FilterConcat(a[1..], b, p);
    } else {
      assert a + b == b;
    }
  }

  /** When no element satisfies `p`, nothing is selected. */
  lemma {:induction false} FilterNone<T(!new)>(s: seq<T>, p: T -> bool)
    requires forall i :: 0 <= i < |s| ==> !p(s[i])
    ensures Filter(s, p) == []
    decreases |s|
  {
    if |s| > 0 {
      FilterNone(s[1..], p);
    }
  }

  /** When every element satisfies `p`, everything is selected. */
  lemma {:induction false} FilterAll<T(!new)>(s: seq<T>, p: T -> bool)
    requires forall i :: 0 <= i < |s| ==> p(s[i])
    ensures Filter(s, p) == s
    decreases |s|
  {
    if |s| > 0 {
      FilterAll(s[1..], p);
      assert s == [s[0]] + s[1..];
    }
  }

  /** When exactly the element at position k satisfies `p`, the selection is that element alone. */
  lemma {:induction false} FilterUnique<T(!new)>(s: seq<T>, p: T -> bool, k: int)
    requires 0 <= k < |s| && p(s[k])
    requires forall j :: 0 <= j < |s| && j != k ==> !p(s[j])
    ensures Filter(s, p) == [s[k]]
    decreases |s|
  {
    if k == 0 {
      FilterNone(s[1..], p);
    } else {
      FilterUnique(s[1..], p, k - 1);
    }
  }

  /** Selection keeps every occurrence of a value that satisfies `p` and none of the others. */
  lemma {:induction false} FilterCount<T(!new)>(s: seq<T>, p: T -> bool, x: T)
    ensures multiset(Filter(s, p))[x] == if p(x) then multiset(s)[x] else 0
    decreases |s|
  {
    if |s| > 0 {
      FilterCount(s[1..], p, x);
      assert s == [s[0]] + s[1..];
    }
  }

  /** A column of `s`: `f` applied to every row, in order. */
  function Project<T, U>(s: seq<T>, f: T -> U): (r: seq<U>)
    ensures |r| == |s|
    ensures forall i :: 0 <= i < |s| ==> r[i] == f(s[i])
  {
    seq(|s|, i requires 0 <= i < |s| => f(s[i]))
  }

  /** `drop_duplicates()`: the first occurrence of every value, in order of first occurrence. */
  function Dedup<T(==,!new)>(s: seq<T>): (r: seq<T>)
    ensures NoDuplicates(r)
    ensures forall x :: x in r <==> x in s
    ensures |r| <= |s|
  {
    if |s| == 0 then []
    else
      var d := Dedup(s[..|s| - 1]);
      assert s == s[..|s| - 1] + [s[|s| - 1]];
      if s[|s| - 1] in d then d else d + [s[|s| - 1]]
  }

  /** Appending values that already occur does not change `drop_duplicates`. */
  lemma {:induction false} DedupAbsorbs<T(!new)>(s: seq<T>, u: seq<T>)
    requires forall x :: x in u ==> x in s
    ensures Dedup(s + u) == Dedup(s)
    decreases |u|
  {
    if |u| == 0 {
      assert s + u == s;
    } else {
      var u' := u[..|u| - 1];
      assert (s + u)[..|s + u| - 1] == s + u';
      DedupAbsorbs(s, u');
    }
  }

  /** A sequence without duplicates is its own `drop_duplicates`. */
  lemma {:induction false} DedupOfDistinct<T(!new)>(s: seq<T>)
    requires NoDuplicates(s)
    ensures Dedup(s) == s
    decreases |s|
  {
    if |s| > 0 {
      var p := s[..|s| - 1];
      DedupOfDistinct(p);
      assert s[|s| - 1] !in p;
      assert s == p + [s[|s| - 1]];
    }
  }

  /** Dropping the last element keeps a sequence free of duplicates, and that element does not recur. */
  lemma NoDuplicatesInit<T>(s: seq<T>)
    requires NoDuplicates(s) && |s| > 0
    ensures NoDuplicates(s[..|s| - 1]) && s[|s| - 1] !in s[..|s| - 1]
  {
    var p := s[..|s| - 1];
    forall i | 0 <= i < |p|
      ensures p[i] != s[|s| - 1]
    {
      assert p[i] == s[i];
    }
  }

  /** Appending a new element to a sequence adds it to its group, if its key is the group's. */
  lemma GroupSnoc<T, K>(p: seq<T>, x: T, f: T -> K, k: K)
    requires x !in p
    ensures |set y | y in p + [x] && f(y) == k| == |set y | y in p && f(y) == k| + (if f(x) == k then 1 else 0)
  {
    var before := set y | y in p && f(y) == k;
    var after := set y | y in p + [x] && f(y) == k;
    var added: set<T> := if f(x) == k then {x} else {};
    forall y
      ensures y in after <==> y in before + added
    {
      assert y in p + [x] <==> y in p || y == x;
    }
    assert after == before + added;
    assert x !in before;
  }

  /**
   In a sequence without duplicates, the number of elements whose key is `k`
   (a group-by count) is the size of the set of such elements.
   */
  lemma {:induction false} CountDistinct<T, K>(s: seq<T>, f: T -> K, k: K)
    requires NoDuplicates(s)
    ensures multiset(Project(s, f))[k] == |set x | x in s && f(x) == k|
    decreases |s|
  {
    if |s| == 0 {
      assert (set x | x in s && f(x) == k) == {};
    } else {
      var p := s[..|s| - 1];
      var x := s[|s| - 1];
      NoDuplicatesInit(s);
      CountDistinct(p, f, k);
      assert Project(s, f) == Project(p, f) + [f(x)];
      GroupSnoc(p, x, f, k);
      assert s == p + [x];
    }
  }

  /** A group-by count after `drop_duplicates` is the number of distinct values in the group. */
  lemma CountDedup<T(!new), K>(s: seq<T>, f: T -> K, k: K, group: set<T>)
    requires forall x :: x in group <==> x in s && f(x) == k
    ensures multiset(Project(Dedup(s), f))[k] == |group|
  {
    var d := Dedup(s);
    CountDistinct(d, f, k);
    var a := set x | x in d && f(x) == k;
    forall x
      ensures x in a <==> x in group
    {
    }
    assert a == group;
  }

  /** The same count when only the rows satisfying `p` are grouped. */
  lemma {:induction false} CountFilterDedup<T(!new), K>(s: seq<T>, p: T -> bool, f: T -> K, k: K, group: set<T>)
    requires forall x :: x in group <==> x in s && p(x) && f(x) == k
    ensures multiset(Project(Filter(Dedup(s), p), f))[k] == |group|
  {
    var d := Dedup(s);
    var kept := Filter(d, p);
    NoDuplicatesSub(d, kept);
    CountDistinct(kept, f, k);
    var a := set x | x in kept && f(x) == k;
    forall x
      ensures x in a <==> x in group
    {
    }
    assert a == group;
  }

  /** Two equal positions make the element count at least two. */
  lemma CountTwo<T>(s: seq<T>, i: int, j: int)
    requires 0 <= i < j < |s| && s[i] == s[j]
    ensures multiset(s)[s[i]] >= 2
  {
    assert s == s[..j] + [s[j]] + s[j + 1..];
    assert s[i] in s[..j];
  }

  /** An element counted twice sits at two distinct positions. */
  lemma {:induction false} TwoPositions<T>(s: seq<T>, x: T) returns (i: int, j: int)
    requires multiset(s)[x] >= 2
    ensures 0 <= i < j < |s| && s[i] == x && s[j] == x
    decreases |s|
  {
    assert s == [s[0]] + s[1..];
    if s[0] == x {
      assert x in multiset(s[1..]);
      var k :| 0 <= k < |s[1..]| && s[1..][k] == x;
      i, j := 0, k + 1;
    } else {
      var i', j' := TwoPositions(s[1..], x);
      i, j := i' + 1, j' + 1;
    }
  }

  /** Distinctness survives taking a sub-multiset, in particular reordering or filtering. */
  lemma NoDuplicatesSub<T>(a: seq<T>, b: seq<T>)
    requires NoDuplicates(a) && multiset(b) <= multiset(a)
    ensures NoDuplicates(b)
  {
    forall i, j | 0 <= i < j < |b|
      ensures b[i] != b[j]
    {
      if b[i] == b[j] {
        CountTwo(b, i, j);
        var p, q := TwoPositions(a, b[i]);
      }
    }
  }
}
