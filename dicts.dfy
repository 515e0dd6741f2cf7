/** Python's insertion-ordered `dict` as a value: `dict.get`, `d[k] = v`,
    `d.items()`, and the two ways the reports fill a dict while walking a
    list, `collections.Counter` and grouping under a key. */
module Dicts {
  import opened Seqs

  /** `keys` lists the keys in insertion order; `entries` maps each key to its value. */
  datatype Dict<K, V> = Dict(keys: seq<K>, entries: map<K, V>)

  ghost predicate Valid<K(!new), V>(d: Dict<K, V>) {
    NoDup(d.keys) && forall k :: k in d.entries <==> k in d.keys
  }

  /** `dict()` */
  function Empty<K, V>(): Dict<K, V> {
    Dict([], map[])
  }

  /** `d.get(k, default)` */
  function Get<K, V>(d: Dict<K, V>, k: K, default: V): V {
    if k in d.entries then d.entries[k] else default
  }

  /** `d[k] = v`: a new key goes last, a key already present keeps its place. */
  function Put<K(!new), V>(d: Dict<K, V>, k: K, v: V): (r: Dict<K, V>)
    requires Valid(d)
    ensures Valid(r)
  {
    Dict(if k in d.entries then d.keys else d.keys + [k], d.entries[k := v])
  }

  /** `list(d.items())` */
  function Items<K(!new), V>(d: Dict<K, V>): (r: seq<(K, V)>)
    requires Valid(d)
  {
    seq(|d.keys|, i requires 0 <= i < |d.keys| => (d.keys[i], d.entries[d.keys[i]]))
  }

  lemma {:induction false} ItemsPutExisting<K(!new), V>(d: Dict<K, V>, k: K, v: V)
    requires Valid(d) && k in d.entries
    ensures Items(Put(d, k, v)) == Items(d)[FirstIndex(d.keys, k) := (k, v)]
  {
  }

  lemma {:induction false} ItemsPutNew<K(!new), V>(d: Dict<K, V>, k: K, v: V)
    requires Valid(d) && k !in d.entries
    ensures Items(Put(d, k, v)) == Items(d) + [(k, v)]
  {
  }

  /** After `d[k] = v`, `k` reads `v` and every other key reads as before;
      the keys already present keep their places and a new key goes last. */
  lemma PutGet<K(!new), V>(d: Dict<K, V>, k: K, v: V)
    requires Valid(d)
    ensures forall j, default: V :: Get(Put(d, k, v), j, default) == if j == k then v else Get(d, j, default)
    ensures Put(d, k, v).keys == if k in d.keys then d.keys else d.keys + [k]
  {
  }

  /** The labels of `d.items()` are the keys, in order. */
  lemma ItemsLabels<K(!new)>(d: Dict<K, int>)
    requires Valid(d)
    ensures MapSeq(Items(d), Label) == d.keys
  {
    forall i | 0 <= i < |d.keys|
      ensures MapSeq(Items(d), Label)[i] == d.keys[i]
    {
      assert MapSeq(Items(d), Label)[i] == Label(Items(d)[i]);
    }
  }

  /** `Counter(s)`, built the way the counting loops build it: one
      element at a time, incrementing the count of an element already seen
      and adding an element not yet seen last with a count of one. */
  function Counter<K(!new)>(s: seq<K>): (c: Dict<K, int>)
    ensures Valid(c)
  {
    if s == [] then Empty() else Increment(Counter(s[..|s| - 1]), s[|s| - 1])
  }

  /** `if k in d: d[k] += 1 else: d[k] = 1` */
  function Increment<K(!new)>(d: Dict<K, int>, k: K): (r: Dict<K, int>)
    requires Valid(d)
    ensures Valid(r)
  {
    Put(d, k, Get(d, k, 0) + 1)
  }

  /** `if contar: (if k in d: d[k] += 1 else: d[k] = 1)`, written out
      with its branches, is `Increment` when `contar` holds and changes
      nothing otherwise. */
  lemma IncrementCases<K(!new)>(d: Dict<K, int>, k: K, contar: bool, r: Dict<K, int>)
    requires Valid(d)
    requires r == if !contar then d else if k in d.entries then Put(d, k, d.entries[k] + 1) else Put(d, k, 1)
    ensures r == if contar then Increment(d, k) else d
  {
  }

  /** Counting one more element is one more step of the counting loop. */
  lemma CounterSnoc<K(!new)>(s: seq<K>, x: K)
    ensures Counter(s + [x]) == Increment(Counter(s), x)
  {
    var t := s + [x];
    assert t[..|t| - 1] == s && t[|t| - 1] == x;
  }

  /** What `Counter(s)` holds: the distinct elements of `s` in the order they
      first occur, each mapped to the number of times it occurs in `s`. */
  lemma {:induction false} CounterCounts<K(!new)>(s: seq<K>)
    ensures Counter(s).keys == Distinct(s)
    ensures forall k :: k in Counter(s).entries <==> k in s
    ensures forall k :: Get(Counter(s), k, 0) == multiset(s)[k]
  {
    if s != [] {
      var s', x := s[..|s| - 1], s[|s| - 1];
      assert s == s' + [x];
      CounterCounts(s');
      DistinctSnoc(s', x);
      assert multiset(s) == multiset(s') + multiset{x};
    }
  }

  /** Incrementing one count, or adding a new count of one, adds one to the total. */
  lemma {:induction false} TotalIncrement<K(!new)>(d: Dict<K, int>, x: K)
    requires Valid(d)
    ensures Total(Items(Increment(d, x))) == Total(Items(d)) + 1
  {
    var v := Get(d, x, 0) + 1;
    var it := Items(d);
    if x in d.entries {
      var i := FirstIndex(d.keys, x);
      ItemsPutExisting(d, x, v);
      assert it[i] == (x, d.entries[x]);
      TotalUpdate(it, i, 1);
      assert it[i := (it[i].0, it[i].1 + 1)] == Items(Put(d, x, v));
    } else {
      ItemsPutNew(d, x, v);
      TotalConcat(it, [(x, 1)]);
      assert Total([(x, 1)]) == 1;
    }
  }

  /** The counts add up to the number of elements counted. */
  lemma {:induction false} CounterTotal<K(!new)>(s: seq<K>)
    ensures Total(Items(Counter(s))) == |s|
  {
    if s != [] {
      CounterTotal(s[..|s| - 1]);
      TotalIncrement(Counter(s[..|s| - 1]), s[|s| - 1]);
    }
  }

  /** The dict that `for x in s: d.setdefault(key(x), []).append(x)` builds. */
  function GroupBy<T(!new), K(!new)>(s: seq<T>, key: T -> K): (g: Dict<K, seq<T>>)
    ensures Valid(g)
  {
    if s == [] then Empty()
    else
      var g' := GroupBy(s[..|s| - 1], key);
      var x := s[|s| - 1];
      Put(g', key(x), Get(g', key(x), []) + [x])
  }

  /** Grouping one more element appends it to the group of its key, which
      is created empty, at the end of the key order, when it is new. */
  lemma GroupBySnoc<T(!new), K(!new)>(s: seq<T>, x: T, key: T -> K)
    ensures GroupBy(s + [x], key) == Put(GroupBy(s, key), key(x), Get(GroupBy(s, key), key(x), []) + [x])
  {
    var t := s + [x];
    assert t[..|t| - 1] == s && t[|t| - 1] == x;
  }

  lemma {:induction false} FilterHasKeyAbsent<T(!new), K>(s: seq<T>, key: T -> K, k: K)
    requires k !in MapSeq(s, key)
    ensures Filter(s, HasKey(key, k)) == []
  {
    FilterHasKeyCount(s, key, k);
  }

  /** What `GroupBy(s, key)` holds: one key per distinct key value, in the
      order they first occur, mapped to the elements with that key in their
      order in `s`; an absent key stands for an empty group. */
  lemma {:induction false} GroupByGroups<T(!new), K(!new)>(s: seq<T>, key: T -> K)
    ensures GroupBy(s, key).keys == Distinct(MapSeq(s, key))
    ensures forall k :: k in GroupBy(s, key).entries <==> k in MapSeq(s, key)
    ensures forall k :: Get(GroupBy(s, key), k, []) == Filter(s, HasKey(key, k))
  {
    if s != [] {
      var s', x := s[..|s| - 1], s[|s| - 1];
      assert s == s' + [x];
      GroupByGroups(s', key);
      assert MapSeq(s, key) == MapSeq(s', key) + [key(x)];
      DistinctSnoc(MapSeq(s', key), key(x));
      forall k
        ensures Get(GroupBy(s, key), k, []) == Filter(s, HasKey(key, k))
      {
        FilterSnoc(s', x, HasKey(key, k));
      }
    }
  }

  /** Every element lies in the group of its own key. */
  lemma GroupByCovers<T(!new), K(!new)>(s: seq<T>, key: T -> K)
    ensures forall i :: 0 <= i < |s| ==>
              key(s[i]) in GroupBy(s, key).entries && s[i] in GroupBy(s, key).entries[key(s[i])]
  {
    GroupByGroups(s, key);
    forall i | 0 <= i < |s|
      ensures key(s[i]) in GroupBy(s, key).entries && s[i] in GroupBy(s, key).entries[key(s[i])]
    {
      assert MapSeq(s, key)[i] == key(s[i]);
      FilterKeeps(s, HasKey(key, key(s[i])), i);
    }
  }

  /** Each group is non-empty, holds only elements of its own key (so no
      element lies in two groups), and keeps the order of `s`. */
  lemma GroupByMembers<T(!new), K(!new)>(s: seq<T>, key: T -> K)
    ensures forall k, x :: k in GroupBy(s, key).entries && x in GroupBy(s, key).entries[k] ==> key(x) == k
    ensures forall k :: k in GroupBy(s, key).entries ==>
              GroupBy(s, key).entries[k] != [] && IsSubsequence(GroupBy(s, key).entries[k], s)
  {
    GroupByGroups(s, key);
    forall k | k in GroupBy(s, key).entries
      ensures GroupBy(s, key).entries[k] != [] && IsSubsequence(GroupBy(s, key).entries[k], s)
    {
      var i :| 0 <= i < |s| && MapSeq(s, key)[i] == k;
      FilterKeeps(s, HasKey(key, k), i);
      FilterElements(s, HasKey(key, k));
    }
  }

  /** `{k: len(v) for k, v in g.items()}` */
  function Sizes<K(!new), T>(g: Dict<K, seq<T>>): Dict<K, int>
    requires Valid(g)
  {
    Dict(g.keys, map k | k in g.entries :: |g.entries[k]|)
  }

  /** The size of each group is the number of times its key occurs. */
  lemma {:induction false} GroupBySizes<T(!new), K(!new)>(s: seq<T>, key: T -> K)
    ensures Sizes(GroupBy(s, key)) == Counter(MapSeq(s, key))
  {
    var g := GroupBy(s, key);
    var a, b := Sizes(g), Counter(MapSeq(s, key));
    GroupByGroups(s, key);
    CounterCounts(MapSeq(s, key));
    assert a.keys == b.keys;
    assert a.entries.Keys == b.entries.Keys;
    assert a.entries == b.entries by {
      forall k | k in a.entries
        ensures a.entries[k] == b.entries[k]
      {
        FilterHasKeyCount(s, key, k);
        assert Get(b, k, 0) == b.entries[k];
      }
    }
  }

  /** The group sizes add up to the number of elements grouped. */
  lemma {:induction false} GroupByTotal<T(!new), K(!new)>(s: seq<T>, key: T -> K)
    ensures Total(Items(Sizes(GroupBy(s, key)))) == |s|
  {
    GroupBySizes(s, key);
    CounterTotal(MapSeq(s, key));
  }
}
