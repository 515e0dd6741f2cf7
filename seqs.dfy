/** Sequence vocabulary shared by the reports: the list comprehension with a
    condition (`[x for x in s if keep(x)]`), the one without
    (`[f(x) for x in s]`), de-duplication in first-occurrence order (the key
    order of a Python dict or Counter built from `s`), and Python's `s[:n]`. */
module Seqs {

  function Min(a: int, b: int): int { if a <= b then a else b }
  function Max(a: int, b: int): int { if a <= b then b else a }

  /** No element occurs twice. */
  ghost predicate NoDup<T>(s: seq<T>) {
    forall i, j :: 0 <= i < j < |s| ==> s[i] != s[j]
  }

  lemma NoDupSnoc<T>(s: seq<T>, x: T)
    ensures NoDup(s + [x]) <==> NoDup(s) && x !in s
  {
    if NoDup(s + [x]) {
      forall i, j | 0 <= i < j < |s|
        ensures s[i] != s[j]
      {
        assert s[i] == (s + [x])[i] && s[j] == (s + [x])[j];
      }
      forall i | 0 <= i < |s|
        ensures s[i] != x
      {
        assert s[i] == (s + [x])[i] && x == (s + [x])[|s|];
      }
    }
  }

  /** Without repetitions, no element occurs more than once. */
  lemma {:induction false} NoDupCount<T>(s: seq<T>)
    requires NoDup(s)
    ensures forall x :: multiset(s)[x] <= 1
  {
    if s != [] {
      var s', y := s[..|s| - 1], s[|s| - 1];
      assert s == s' + [y];
      NoDupSnoc(s', y);
      NoDupCount(s');
    }
  }

  /** A permutation of a sequence without repetitions has none either. */
  lemma NoDupPermutation<T>(a: seq<T>, b: seq<T>)
    requires NoDup(a) && multiset(a) == multiset(b)
    ensures NoDup(b)
  {
    NoDupCount(a);
    forall i, j | 0 <= i < j < |b|
      ensures b[i] != b[j]
    {
      assert b == b[..j] + [b[j]] + b[j + 1..];
      assert b[..j][i] == b[i];
      assert multiset(b)[b[j]] >= multiset(b[..j])[b[j]] + 1;
    }
  }

  /** `a` is obtained from `b` by deleting elements, keeping the order of the rest. */
  ghost predicate IsSubsequence<T>(a: seq<T>, b: seq<T>)
    decreases |b|
  {
    a == [] || (b != [] && ((a[0] == b[0] && IsSubsequence(a[1..], b[1..])) || IsSubsequence(a, b[1..])))
  }

  /** `[f(x) for x in s]` */
  function MapSeq<A, B>(s: seq<A>, f: A -> B): seq<B> {
    seq(|s|, i requires 0 <= i < |s| => f(s[i]))
  }

  lemma MapSeqConcat<A, B>(a: seq<A>, b: seq<A>, f: A -> B)
    ensures MapSeq(a + b, f) == MapSeq(a, f) + MapSeq(b, f)
  {
  }

  lemma MapSeqIn<A, B>(s: seq<A>, f: A -> B, y: B)
    ensures y in MapSeq(s, f) <==> exists x :: x in s && f(x) == y
  {
    if x :| x in s && f(x) == y {
      var i :| 0 <= i < |s| && s[i] == x;
      assert MapSeq(s, f)[i] == y;
    }
  }

  /** The test `key(x) == k`, built in one place so that every filter on the
      same key and value is the same function. */
  function HasKey<T(!new), K(==)>(key: T -> K, k: K): (f: T -> bool)
    ensures forall x :: f(x) <==> key(x) == k
  {
    x => key(x) == k
  }

  /** `[x for x in s if keep(x)]` */
  function Filter<T(!new)>(s: seq<T>, keep: T -> bool): (r: seq<T>)
    ensures |r| <= |s|
    ensures forall x :: x in r ==> x in s && keep(x)
  {
    if s == [] then []
    else if keep(s[0]) then [s[0]] + Filter(s[1..], keep)
    else Filter(s[1..], keep)
  }

  /** The filter keeps exactly the elements that pass, each as often as in
      `s`, in their order in `s`. */
  lemma {:induction false} FilterElements<T(!new)>(s: seq<T>, keep: T -> bool)
    ensures forall x :: multiset(Filter(s, keep))[x] == if keep(x) then multiset(s)[x] else 0
    ensures IsSubsequence(Filter(s, keep), s)
  {
    if s != [] {
      var rest := Filter(s[1..], keep);
      FilterElements(s[1..], keep);
      assert s == [s[0]] + s[1..];
      if keep(s[0]) {
        assert ([s[0]] + rest)[1..] == rest;
      }
    }
  }

  /** An element that passes is kept. */
  lemma FilterKeeps<T(!new)>(s: seq<T>, keep: T -> bool, i: nat)
    requires i < |s| && keep(s[i])
    ensures s[i] in Filter(s, keep)
  {
    FilterElements(s, keep);
    assert s[i] in multiset(s);
    assert s[i] in multiset(Filter(s, keep));
  }

  /** Filtering a non-empty sequence keeps or drops its head, then filters the rest. */
  lemma FilterCons<T(!new)>(s: seq<T>, f: T -> bool)
    requires s != []
    ensures Filter(s, f) == (if f(s[0]) then [s[0]] else []) + Filter(s[1..], f)
  {
  }

  lemma {:induction false} FilterConcat<T(!new)>(a: seq<T>, b: seq<T>, keep: T -> bool)
    ensures Filter(a + b, keep) == Filter(a, keep) + Filter(b, keep)
  {
    if a == [] {
      assert a + b == b;
    } else {
      assert (a + b)[0] == a[0];
      assert (a + b)[1..] == a[1..] + b;
      FilterConcat(a[1..], b, keep);
    }
  }

  /** Appending one element, as the loops of the source do. */
  lemma FilterSnoc<T(!new)>(s: seq<T>, x: T, keep: T -> bool)
    ensures Filter(s + [x], keep) == Filter(s, keep) + (if keep(x) then [x] else [])
  {
    FilterConcat(s, [x], keep);
    assert [x][1..] == [];
  }

  /** Two tests that agree on every element select the same elements. */
  lemma {:induction false} FilterSameTest<T(!new)>(s: seq<T>, f: T -> bool, g: T -> bool)
    requires forall x :: x in s ==> f(x) == g(x)
    ensures Filter(s, f) == Filter(s, g)
  {
    if s != [] {
      FilterSameTest(s[1..], f, g);
    }
  }

  /** The number of elements whose key is `k` is the number of times `k`
      occurs among the keys. */
  lemma {:induction false} FilterHasKeyCount<T(!new), K>(s: seq<T>, key: T -> K, k: K)
    ensures |Filter(s, HasKey(key, k))| == multiset(MapSeq(s, key))[k]
  {
    if s != [] {
      FilterHasKeyCount(s[1..], key, k);
      assert MapSeq(s, key) == [key(s[0])] + MapSeq(s[1..], key);
    }
  }

  /** Keeping only the elements that pass both tests, one after the other. */
  lemma {:induction false} FilterFilter<T(!new)>(s: seq<T>, f: T -> bool, g: T -> bool, both: T -> bool)
    requires forall x :: both(x) == (f(x) && g(x))
    ensures Filter(Filter(s, f), g) == Filter(s, both)
  {
    if s != [] {
      FilterFilter(s[1..], f, g, both);
      FilterConcat(if f(s[0]) then [s[0]] else [], Filter(s[1..], f), g);
      assert Filter([s[0]], g) == (if g(s[0]) then [s[0]] else []) + Filter([s[0]][1..], g);
    }
  }

  /** Index of the first occurrence of `x` in `s`. */
  function FirstIndex<T(==)>(s: seq<T>, x: T): (i: nat)
    requires x in s
    ensures i < |s| && s[i] == x
    ensures forall j :: 0 <= j < i ==> s[j] != x
  {
    if s[0] == x then 0 else 1 + FirstIndex(s[1..], x)
  }

  lemma FirstIndexPrefix<T>(a: seq<T>, b: seq<T>, x: T)
    requires x in a
    ensures FirstIndex(a + b, x) == FirstIndex(a, x)
  {
    var i, j := FirstIndex(a + b, x), FirstIndex(a, x);
    assert (a + b)[j] == x;
  }

  /** The distinct elements of `s` in the order they first occur: the key
      order of a dict that is filled while walking `s`. */
  function Distinct<T(==, !new)>(s: seq<T>): (r: seq<T>)
    ensures NoDup(r)
    ensures forall x :: x in r <==> x in s
    ensures |r| <= |s|
  {
    if s == [] then []
    else
      var d := Distinct(s[..|s| - 1]);
      assert s == s[..|s| - 1] + [s[|s| - 1]];
      if s[|s| - 1] in d then d else d + [s[|s| - 1]]
  }

  lemma DistinctSnoc<T(!new)>(s: seq<T>, x: T)
    ensures Distinct(s + [x]) == if x in s then Distinct(s) else Distinct(s) + [x]
  {
    assert (s + [x])[..|s + [x]| - 1] == s;
  }

  /** The elements of `Distinct(s)` are in the order of their first
      occurrences in `s`. */
  lemma {:induction false} DistinctFirstOccurrence<T(!new)>(s: seq<T>)
    ensures forall i, j :: 0 <= i < j < |Distinct(s)| ==>
              FirstIndex(s, Distinct(s)[i]) < FirstIndex(s, Distinct(s)[j])
  {
    if s != [] {
      var s', y := s[..|s| - 1], s[|s| - 1];
      assert s == s' + [y];
      DistinctFirstOccurrence(s');
      var d', d := Distinct(s'), Distinct(s);
      forall i, j | 0 <= i < j < |d|
        ensures FirstIndex(s, d[i]) < FirstIndex(s, d[j])
      {
        FirstIndexPrefix(s', [y], d[i]);
        if j < |d'| {
          FirstIndexPrefix(s', [y], d[j]);
        } else {
          assert d[j] == y && y !in s';
        }
      }
    }
  }

  /** A sequence without repetitions is its own de-duplication. */
  lemma {:induction false} DistinctOfNoDup<T(!new)>(s: seq<T>)
    requires NoDup(s)
    ensures Distinct(s) == s
  {
    if s != [] {
      var s' := s[..|s| - 1];
      DistinctOfNoDup(s');
      assert s[|s| - 1] !in s';
    }
  }

  /** Python's `s[:n]` for any integer `n`: a negative `n` counts from the end. */
  function SliceTo<T>(s: seq<T>, n: int): (r: seq<T>)
    ensures |r| == if n >= 0 then Min(n, |s|) else Max(0, |s| + n)
    ensures r == s[..|r|]
  {
    if n >= 0 then (if n <= |s| then s[..n] else s)
    else if -n <= |s| then s[..|s| + n]
    else []
  }

  /** The sum of the second components. */
  /** `x[0]`, the label of a pair. */
  function Label<T>(x: (T, int)): T { x.0 }

  function Total<T>(s: seq<(T, int)>): int {
    if s == [] then 0 else s[0].1 + Total(s[1..])
  }

  lemma {:induction false} TotalConcat<T>(a: seq<(T, int)>, b: seq<(T, int)>)
    ensures Total(a + b) == Total(a) + Total(b)
  {
    if a == [] {
      assert a + b == b;
    } else {
      assert (a + b)[1..] == a[1..] + b;
      TotalConcat(a[1..], b);
    }
  }

  /** Adding `d` to the value at one position adds `d` to the total. */
  lemma {:induction false} TotalUpdate<T>(s: seq<(T, int)>, i: nat, d: int)
    requires i < |s|
    ensures Total(s[i := (s[i].0, s[i].1 + d)]) == Total(s) + d
  {
    if i > 0 {
      TotalUpdate(s[1..], i - 1, d);
      assert s[i := (s[i].0, s[i].1 + d)][1..] == s[1..][i - 1 := (s[i].0, s[i].1 + d)];
    }
  }
}
