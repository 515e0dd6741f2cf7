/** The two sorts the reports use. Python's `list.sort` and `sorted` are
    stable; with `key=lambda x: x[1], reverse=True` they order a list of
    pairs by decreasing second component and keep pairs with equal second
    components in their original order. `sorted` on a list of integers
    puts them in increasing order. */
module Ordenacion {
  import opened Seqs

  /** `lambda x: x[1]`, the sort key of both pair sorts. */
  function Value<T>(x: (T, int)): int { x.1 }


  ghost predicate SortedDesc<T>(s: seq<(T, int)>) {
    forall i, j :: 0 <= i < j < |s| ==> s[i].1 >= s[j].1
  }

  /** For every value `v`, the pairs valued `v` come in the same order in
      `r` as in `s`: what a stable sort keeps. */
  ghost predicate SameTies<T(!new)>(r: seq<(T, int)>, s: seq<(T, int)>) {
    forall v :: Filter(r, HasKey(Value, v)) == Filter(s, HasKey(Value, v))
  }

  /** Places `x` after every trailing element valued at least as high,
      scanning from the end: one step of the insertion sort below. */
  function InsertDesc<T>(s: seq<(T, int)>, x: (T, int)): (r: seq<(T, int)>)
    ensures |r| == |s| + 1
  {
    if s == [] || s[|s| - 1].1 >= x.1 then s + [x]
    else InsertDesc(s[..|s| - 1], x) + [s[|s| - 1]]
  }

  /** Inserting adds `x` and loses nothing. */
  lemma {:induction false} InsertDescElements<T>(s: seq<(T, int)>, x: (T, int))
    ensures multiset(InsertDesc(s, x)) == multiset(s) + multiset{x}
  {
    if s != [] && s[|s| - 1].1 < x.1 {
      var s', l := s[..|s| - 1], s[|s| - 1];
      assert s == s' + [l];
      InsertDescElements(s', x);
    }
  }

  /** In a sequence sorted by decreasing value, the last value is the least. */
  lemma SortedDescLast<T>(s: seq<(T, int)>)
    requires s != [] && SortedDesc(s)
    ensures forall y :: y in s ==> y.1 >= s[|s| - 1].1
  {
  }

  /** Appending an element valued at most every element keeps the order. */
  lemma SortedDescSnoc<T>(s: seq<(T, int)>, l: (T, int))
    requires SortedDesc(s)
    requires forall y :: y in s ==> y.1 >= l.1
    ensures SortedDesc(s + [l])
  {
    forall i, j | 0 <= i < j < |s + [l]|
      ensures (s + [l])[i].1 >= (s + [l])[j].1
    {
      if j == |s| {
        assert (s + [l])[i] == s[i] && s[i] in s;
      }
    }
  }

  lemma {:induction false} InsertDescSorted<T>(s: seq<(T, int)>, x: (T, int))
    requires SortedDesc(s)
    ensures SortedDesc(InsertDesc(s, x))
  {
    if s == [] || s[|s| - 1].1 >= x.1 {
      if s != [] {
        SortedDescLast(s);
      }
      SortedDescSnoc(s, x);
    } else {
      var s', l := s[..|s| - 1], s[|s| - 1];
      assert SortedDesc(s');
      SortedDescLast(s);
      InsertDescSorted(s', x);
      var r' := InsertDesc(s', x);
      InsertDescElements(s', x);
      forall y | y in r'
        ensures y.1 >= l.1
      {
        assert y in multiset(r');
        if y != x {
          assert y in s;
        }
      }
      SortedDescSnoc(r', l);
    }
  }

  /** The stable insertion sort by decreasing value. */
  function SortDesc<T>(s: seq<(T, int)>): (r: seq<(T, int)>)
    ensures multiset(r) == multiset(s)
    ensures SortedDesc(r)
    ensures |r| == |s|
  {
    if s == [] then []
    else
      var s' := s[..|s| - 1];
      assert s == s' + [s[|s| - 1]];
      InsertDescSorted(SortDesc(s'), s[|s| - 1]);
      InsertDescElements(SortDesc(s'), s[|s| - 1]);
      InsertDesc(SortDesc(s'), s[|s| - 1])
  }

  lemma {:induction false} InsertDescTies<T(!new)>(s: seq<(T, int)>, x: (T, int), v: int)
    ensures Filter(InsertDesc(s, x), HasKey(Value, v)) ==
            Filter(s, HasKey(Value, v)) + (if x.1 == v then [x] else [])
  {
    var f := HasKey(Value, v);
    if s == [] || s[|s| - 1].1 >= x.1 {
      FilterSnoc(s, x, f);
    } else {
      var s', l := s[..|s| - 1], s[|s| - 1];
      assert s == s' + [l];
      var onlyX := if x.1 == v then [x] else [];
      var onlyL := if l.1 == v then [l] else [];
      assert onlyX == [] || onlyL == [];
      calc {
        Filter(InsertDesc(s, x), f);
        Filter(InsertDesc(s', x) + [l], f);
        { FilterSnoc(InsertDesc(s', x), l, f); }
        Filter(InsertDesc(s', x), f) + onlyL;
        { InsertDescTies(s', x, v); }
        Filter(s', f) + onlyX + onlyL;
        Filter(s', f) + onlyL + onlyX;
        { FilterSnoc(s', l, f); }
        Filter(s, f) + onlyX;
      }
    }
  }

  /** The sort is stable. */
  lemma {:induction false} SortDescTies<T(!new)>(s: seq<(T, int)>)
    ensures SameTies(SortDesc(s), s)
  {
    if s != [] {
      var s', x := s[..|s| - 1], s[|s| - 1];
      assert s == s' + [x];
      SortDescTies(s');
      forall v
        ensures Filter(SortDesc(s), HasKey(Value, v)) == Filter(s, HasKey(Value, v))
      {
        InsertDescTies(SortDesc(s'), x, v);
        FilterSnoc(s', x, HasKey(Value, v));
      }
    }
  }

  /** Two non-empty sequences sorted by decreasing value with the same ties
      start with the same element. */
  lemma SortedTiesHead<T(!new)>(a: seq<(T, int)>, b: seq<(T, int)>)
    requires a != [] && b != []
    requires SortedDesc(a) && SortedDesc(b) && SameTies(a, b)
    ensures a[0] == b[0]
  {
    SortedTiesHeadValue(a, b);
    SortedTiesHeadValue(b, a);
    var f := HasKey(Value, a[0].1);
    FilterCons(a, f);
    FilterCons(b, f);
    assert Filter(a, f) == Filter(b, f);
    assert Filter(a, f)[0] == a[0] && Filter(b, f)[0] == b[0];
  }

  /** The first value of `b` occurs in `a`, so it is at most the first value of `a`. */
  lemma SortedTiesHeadValue<T(!new)>(a: seq<(T, int)>, b: seq<(T, int)>)
    requires a != [] && b != []
    requires SortedDesc(a) && SameTies(a, b)
    ensures b[0].1 <= a[0].1
  {
    var f := HasKey(Value, b[0].1);
    FilterCons(b, f);
    assert Filter(a, f) == Filter(b, f);
    assert b[0] in Filter(a, f);
    var i :| 0 <= i < |a| && a[i] == b[0];
    assert a[0].1 >= a[i].1;
  }

  /** Removing a common first element keeps the ties equal. */
  lemma SameTiesTail<T(!new)>(a: seq<(T, int)>, b: seq<(T, int)>)
    requires a != [] && b != [] && a[0] == b[0] && SameTies(a, b)
    ensures SameTies(a[1..], b[1..])
  {
    forall v
      ensures Filter(a[1..], HasKey(Value, v)) == Filter(b[1..], HasKey(Value, v))
    {
      var f := HasKey(Value, v);
      var p := if f(a[0]) then [a[0]] else [];
      assert p + Filter(a[1..], f) == p + Filter(b[1..], f) by {
        FilterCons(a, f);
        FilterCons(b, f);
        assert Filter(a, f) == Filter(b, f);
      }
      assert (p + Filter(a[1..], f))[|p|..] == Filter(a[1..], f);
      assert (p + Filter(b[1..], f))[|p|..] == Filter(b[1..], f);
    }
  }

  /** Only the empty sequence has the ties of the empty sequence. */
  lemma SameTiesEmpty<T(!new)>(a: seq<(T, int)>)
    requires SameTies(a, [])
    ensures a == []
  {
    if a != [] {
      FilterCons(a, HasKey(Value, a[0].1));
    }
  }

  /** Sorted by decreasing value with the ties in the same order determines
      the sequence: every stable sort by decreasing value, the one Python
      runs included, gives the result of `SortDesc`. */
  lemma {:induction false} SortedTiesUnique<T(!new)>(a: seq<(T, int)>, b: seq<(T, int)>)
    requires SortedDesc(a) && SortedDesc(b) && SameTies(a, b)
    ensures a == b
    decreases |a| + |b|
  {
    if b == [] {
      SameTiesEmpty(a);
    } else if a == [] {
      SameTiesEmpty(b);
    } else {
      SortedTiesHead(a, b);
      SameTiesTail(a, b);
      SortedTiesUnique(a[1..], b[1..]);
      assert a == [a[0]] + a[1..] && b == [b[0]] + b[1..];
    }
  }

  /** `SortDesc(s)` is the one sequence sorted by decreasing value that
      keeps the ties of `s` in order. */
  lemma StableSortIsSortDesc<T(!new)>(s: seq<(T, int)>, r: seq<(T, int)>)
    requires SortedDesc(r) && SameTies(r, s)
    ensures r == SortDesc(s)
  {
    SortDescTies(s);
    SortedTiesUnique(r, SortDesc(s));
  }

  lemma {:induction false} InsertDescTotal<T>(s: seq<(T, int)>, x: (T, int))
    ensures Total(InsertDesc(s, x)) == Total(s) + x.1
  {
    if s == [] || s[|s| - 1].1 >= x.1 {
      TotalConcat(s, [x]);
    } else {
      var s', l := s[..|s| - 1], s[|s| - 1];
      assert s == s' + [l];
      InsertDescTotal(s', x);
      TotalConcat(InsertDesc(s', x), [l]);
      TotalConcat(s', [l]);
    }
  }

  /** Sorting does not change the sum of the values. */
  lemma {:induction false} SortDescTotal<T>(s: seq<(T, int)>)
    ensures Total(SortDesc(s)) == Total(s)
  {
    if s != [] {
      var s', x := s[..|s| - 1], s[|s| - 1];
      assert s == s' + [x];
      SortDescTotal(s');
      InsertDescTotal(SortDesc(s'), x);
      TotalConcat(s', [x]);
    }
  }

  lemma LabelIn<T>(s: seq<(T, int)>, k: T)
    ensures k in MapSeq(s, Label) <==> exists y :: y in s && y.0 == k
  {
    if k in MapSeq(s, Label) {
      var i :| 0 <= i < |s| && MapSeq(s, Label)[i] == k;
      assert s[i] in s;
    }
    if y :| y in s && y.0 == k {
      var i :| 0 <= i < |s| && s[i] == y;
      assert MapSeq(s, Label)[i] == k;
    }
  }

  lemma MapSeqSnoc<T>(s: seq<(T, int)>, x: (T, int))
    ensures MapSeq(s + [x], Label) == MapSeq(s, Label) + [x.0]
  {
    MapSeqConcat(s, [x], Label);
    assert MapSeq([x], Label) == [x.0];
  }

  lemma {:induction false} InsertDescLabels<T>(s: seq<(T, int)>, x: (T, int))
    requires NoDup(MapSeq(s, Label)) && x.0 !in MapSeq(s, Label)
    ensures NoDup(MapSeq(InsertDesc(s, x), Label))
  {
    if s == [] || s[|s| - 1].1 >= x.1 {
      MapSeqSnoc(s, x);
      NoDupSnoc(MapSeq(s, Label), x.0);
    } else {
      var s', l := s[..|s| - 1], s[|s| - 1];
      assert s == s' + [l];
      MapSeqSnoc(s', l);
      NoDupSnoc(MapSeq(s', Label), l.0);
      assert x.0 != l.0;
      InsertDescLabels(s', x);
      var r' := InsertDesc(s', x);
      InsertDescElements(s', x);
      MapSeqSnoc(r', l);
      LabelIn(r', l.0);
      LabelIn(s', l.0);
      forall y | y in r'
        ensures y.0 != l.0
      {
        assert y in multiset(r');
        if y != x {
          assert y in s';
        }
      }
      NoDupSnoc(MapSeq(r', Label), l.0);
    }
  }

  /** Two sequences with the same elements have the same labels. */
  lemma LabelsOfPermutation<T>(a: seq<(T, int)>, b: seq<(T, int)>)
    requires multiset(a) == multiset(b)
    ensures forall k :: k in MapSeq(a, Label) <==> k in MapSeq(b, Label)
  {
    forall k
      ensures k in MapSeq(a, Label) <==> k in MapSeq(b, Label)
    {
      LabelIn(a, k);
      LabelIn(b, k);
      assert forall y :: y in a <==> y in multiset(b);
    }
  }

  /** Sorting keeps the labels, and keeps them distinct when they were. */
  lemma {:induction false} SortDescLabels<T>(s: seq<(T, int)>)
    ensures forall k :: k in MapSeq(SortDesc(s), Label) <==> k in MapSeq(s, Label)
    ensures NoDup(MapSeq(s, Label)) ==> NoDup(MapSeq(SortDesc(s), Label))
  {
    LabelsOfPermutation(SortDesc(s), s);
    if s != [] && NoDup(MapSeq(s, Label)) {
      var s', x := s[..|s| - 1], s[|s| - 1];
      assert s == s' + [x];
      MapSeqSnoc(s', x);
      NoDupSnoc(MapSeq(s', Label), x.0);
      SortDescLabels(s');
      InsertDescLabels(SortDesc(s'), x);
    }
  }

  /** Where `InsertDesc` puts `x`: after the last element valued at least
      `x.1`, when every element from there on is valued lower. */
  lemma {:induction false} InsertDescAt<T>(s: seq<(T, int)>, j: nat, x: (T, int))
    requires j <= |s|
    requires forall k :: j <= k < |s| ==> s[k].1 < x.1
    requires j == 0 || s[j - 1].1 >= x.1
    ensures InsertDesc(s, x) == s[..j] + [x] + s[j..]
    decreases |s|
  {
    if j == |s| {
      assert s[..j] == s && s[j..] == [];
    } else {
      var s', l := s[..|s| - 1], s[|s| - 1];
      assert InsertDesc(s, x) == InsertDesc(s', x) + [l] by {
        assert l.1 < x.1;
      }
      InsertDescAt(s', j, x);
      assert s'[..j] == s[..j];
      assert s[j..] == s'[j..] + [l];
      assert (s'[..j] + [x] + s'[j..]) + [l] == s'[..j] + [x] + (s'[j..] + [l]);
    }
  }

  /** The sequence the inner loop of the insertion sort leaves behind. */
  lemma InsertDescShifted<T>(b: seq<(T, int)>, s: seq<(T, int)>, j: nat, x: (T, int))
    requires |b| == |s| + 1 && j <= |s|
    requires forall k :: 0 <= k < j ==> b[k] == s[k]
    requires b[j] == x
    requires forall k :: j < k < |b| ==> b[k] == s[k - 1]
    requires forall k :: j <= k < |s| ==> s[k].1 < x.1
    requires j == 0 || s[j - 1].1 >= x.1
    ensures b == InsertDesc(s, x)
  {
    InsertDescAt(s, j, x);
    var r := s[..j] + [x] + s[j..];
    forall k | 0 <= k < |b|
      ensures b[k] == r[k]
    {
      if k < j {
        assert r[k] == s[k];
      } else if k > j {
        assert r[k] == s[k - 1];
      }
    }
  }

  /** One pass of the insertion sort: `a[..i]` is sorted, and `a[i]` is
      shifted left past the elements valued lower than it. */
  method InsertInPlace<T>(a: array<(T, int)>, i: nat)
    requires i < a.Length
    modifies a
    ensures a[..i + 1] == InsertDesc(old(a[..i]), old(a[i]))
    ensures a[i + 1..] == old(a[i + 1..])
  {
    ghost var done := a[..i];
    var x := a[i];
    var j := i;
    while j > 0 && a[j - 1].1 < x.1
      invariant 0 <= j <= i
      invariant forall k :: 0 <= k < j ==> a[k] == done[k]
      invariant forall k :: j < k <= i ==> a[k] == done[k - 1]
      invariant forall k :: i < k < a.Length ==> a[k] == old(a[k])
      invariant forall k :: j <= k < i ==> done[k].1 < x.1
    {
      a[j] := a[j - 1];
      j := j - 1;
    }
    a[j] := x;
    InsertDescShifted(a[..i + 1], done, j, x);
  }

  lemma SortDescPrefix<T>(s: seq<(T, int)>, i: nat)
    requires i < |s|
    ensures SortDesc(s[..i + 1]) == InsertDesc(SortDesc(s[..i]), s[i])
  {
    assert s[..i + 1][..i] == s[..i];
  }

  /** `a.sort(key=lambda x: x[1], reverse=True)`, run as an insertion sort:
      Python's sort is a different stable sort, and `SortedTiesUnique` shows
      that every stable sort yields the same list. */
  method SortInPlace<T>(a: array<(T, int)>)
    modifies a
    ensures a[..] == SortDesc(old(a[..]))
  {
    ghost var s := a[..];
    var i := 0;
    while i < a.Length
      invariant 0 <= i <= a.Length
      invariant a[..i] == SortDesc(s[..i])
      invariant a[i..] == s[i..]
    {
      SortDescPrefix(s, i);
      assert a[i] == a[i..][0] == s[i];
      assert a[i + 1..] == a[i..][1..] == s[i + 1..];
      InsertInPlace(a, i);
      i := i + 1;
    }
    assert a[..] == a[..a.Length] && s == s[..a.Length];
  }

  ghost predicate Ascending(s: seq<int>) {
    forall i, j :: 0 <= i < j < |s| ==> s[i] <= s[j]
  }

  function InsertAsc(s: seq<int>, x: int): (r: seq<int>)
    ensures multiset(r) == multiset(s) + multiset{x}
  {
    if s == [] || s[|s| - 1] <= x then s + [x]
    else
      assert s == s[..|s| - 1] + [s[|s| - 1]];
      InsertAsc(s[..|s| - 1], x) + [s[|s| - 1]]
  }

  lemma {:induction false} InsertAscSorted(s: seq<int>, x: int)
    requires Ascending(s)
    ensures Ascending(InsertAsc(s, x))
  {
    if s != [] && s[|s| - 1] > x {
      var s', l := s[..|s| - 1], s[|s| - 1];
      assert s == s' + [l];
      InsertAscSorted(s', x);
      var r' := InsertAsc(s', x);
      forall i | 0 <= i < |r'|
        ensures r'[i] <= l
      {
        assert r'[i] in multiset(r');
        if r'[i] != x {
          assert r'[i] in s';
        }
      }
    }
  }

  /** `sorted(s)` for a list of integers. */
  function SortAsc(s: seq<int>): (r: seq<int>)
    ensures multiset(r) == multiset(s)
    ensures Ascending(r)
  {
    if s == [] then []
    else
      var s' := s[..|s| - 1];
      assert s == s' + [s[|s| - 1]];
      InsertAscSorted(SortAsc(s'), s[|s| - 1]);
      InsertAsc(SortAsc(s'), s[|s| - 1])
  }

  /** Sorting a list already in increasing order leaves it as it is. */
  lemma {:induction false} SortAscOfAscending(s: seq<int>)
    requires Ascending(s)
    ensures SortAsc(s) == s
  {
    if s != [] {
      var s' := s[..|s| - 1];
      assert s == s' + [s[|s| - 1]];
      SortAscOfAscending(s');
    }
  }

  /** Sorting a list without repetitions gives its elements in strictly
      increasing order. */
  lemma SortAscStrict(s: seq<int>)
    requires NoDup(s)
    ensures forall i, j :: 0 <= i < j < |SortAsc(s)| ==> SortAsc(s)[i] < SortAsc(s)[j]
    ensures forall x :: x in SortAsc(s) <==> x in s
  {
    var r := SortAsc(s);
    NoDupPermutation(s, r);
    forall i, j | 0 <= i < j < |r|
      ensures r[i] < r[j]
    {
      assert r[i] <= r[j] && r[i] != r[j];
    }
    forall x
      ensures x in r <==> x in s
    {
      assert x in r <==> x in multiset(r);
    }
  }
}
