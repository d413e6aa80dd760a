/**
  A dictionary that remembers insertion order, as Python's `dict` and `OrderedDict` do:
  `keys` is the iteration order and `at` the contents.
 */
module InsertionDict {

  ghost predicate NoDuplicates<T>(s: seq<T>)
    decreases |s|
  {
    s == [] || (s[|s| - 1] !in s[..|s| - 1] && NoDuplicates(s[..|s| - 1]))
  }

  lemma {:induction false} DistinctPositions<T>(s: seq<T>)
    ensures NoDuplicates(s) <==> forall i, j :: 0 <= i < j < |s| ==> s[i] != s[j]
    decreases |s|
  {
    if s != [] {
      DistinctPositions(s[..|s| - 1]);
    }
  }

  lemma NoDuplicatesTail<T>(s: seq<T>)
    requires s != []
    ensures NoDuplicates(s) ==> NoDuplicates(s[1..]) && s[0] !in s[1..]
  {
    DistinctPositions(s);
    DistinctPositions(s[1..]);
  }

  lemma PrependFresh<T>(x: T, s: seq<T>)
    requires NoDuplicates(s) && x !in s
    ensures NoDuplicates([x] + s)
  {
    DistinctPositions(s);
    DistinctPositions([x] + s);
  }

  lemma AppendFresh<T>(s: seq<T>, x: T)
    requires NoDuplicates(s) && x !in s
    ensures NoDuplicates(s + [x])
  {
    assert (s + [x])[..|s|] == s;
  }

  lemma {:induction false} DistinctConcat<T>(a: seq<T>, b: seq<T>)
    ensures NoDuplicates(a + b) <==> NoDuplicates(a) && NoDuplicates(b) && forall x :: x in a ==> x !in b
    decreases |b|
  {
    if b == [] {
      assert a + b == a;
    } else {
      var front, last := b[..|b| - 1], b[|b| - 1];
      assert (a + b)[..|a + b| - 1] == a + front && b == front + [last];
      DistinctConcat(a, front);
    }
  }

  /** `some` is `all` with members left out. */
  ghost predicate Subsequence<T>(some: seq<T>, all: seq<T>)
    decreases |all|
  {
    || some == []
    || (all != [] && some[0] == all[0] && Subsequence(some[1..], all[1..]))
    || (all != [] && Subsequence(some, all[1..]))
  }

  lemma {:induction false} SubsequenceOf<T>(some: seq<T>, more: seq<T>, all: seq<T>)
    requires Subsequence(some, more) && Subsequence(more, all)
    ensures Subsequence(some, all)
    decreases |all|
  {
    if some != [] {
      if Subsequence(more, all[1..]) {
        SubsequenceOf(some, more, all[1..]);
      } else if some[0] == more[0] && Subsequence(some[1..], more[1..]) {
        SubsequenceOf(some[1..], more[1..], all[1..]);
      } else {
        SubsequenceOf(some, more[1..], all[1..]);
      }
    }
  }

  lemma {:induction false} SubsequenceSnoc<T>(some: seq<T>, all: seq<T>, x: T)
    requires Subsequence(some, all)
    ensures Subsequence(some, all + [x]) && Subsequence(some + [x], all + [x])
    decreases |all|
  {
    if all == [] {
      assert ([x])[1..] == [];
    } else {
      assert (all + [x])[1..] == all[1..] + [x];
      if Subsequence(some, all[1..]) {
        SubsequenceSnoc(some, all[1..], x);
      } else {
        SubsequenceSnoc(some[1..], all[1..], x);
        assert (some + [x])[1..] == some[1..] + [x];
      }
    }
  }

  /** Drops every occurrence of `k`, keeping the order of the rest. */
  function Without<T(==,!new)>(s: seq<T>, k: T): (r: seq<T>)
    ensures forall x :: x in r <==> x in s && x != k
    ensures NoDuplicates(s) ==> NoDuplicates(r)
    decreases |s|
  {
    if s == [] then []
    else
      var front, last := s[..|s| - 1], s[|s| - 1];
      var rest := Without(front, k);
      assert s == front + [last];
      if last == k then rest
      else
        assert (rest + [last])[..|rest|] == rest;
        rest + [last]
  }

  datatype Dict<K(==,!new), V> = Dict(keys: seq<K>, at: map<K, V>) {

    ghost predicate Valid() {
      && NoDuplicates(keys)
      && forall k :: k in keys <==> k in at
    }

    function Put(k: K, v: V): Dict<K, V> {
      if k in at then Dict(keys, at[k := v]) else Dict(keys + [k], at[k := v])
    }

    function Remove(k: K): Dict<K, V> {
      if k in at then Dict(Without(keys, k), at - {k}) else this
    }

    function Values(): seq<V>
      requires forall k :: k in keys ==> k in at
    {
      seq(|keys|, i requires 0 <= i < |keys| => at[keys[i]])
    }
  }

  function Empty<K(==,!new), V>(): Dict<K, V> {
    Dict([], map[])
  }

  lemma EmptyIsValid<K(!new), V>()
    ensures Empty<K, V>().Valid() && Empty<K, V>().at == map[]
  {
  }

  lemma PutKeepsValid<K(!new), V>(d: Dict<K, V>, k: K, v: V)
    requires d.Valid()
    ensures d.Put(k, v).Valid()
    ensures d.Put(k, v).at == d.at[k := v]
  {
    if k !in d.at {
      AppendFresh(d.keys, k);
    }
  }

  lemma RemoveKeepsValid<K(!new), V>(d: Dict<K, V>, k: K)
    requires d.Valid()
    ensures d.Remove(k).Valid()
    ensures d.Remove(k).at == d.at - {k}
  {
  }

  lemma SizeOfValid<K(!new), V>(d: Dict<K, V>)
    requires d.Valid()
    ensures |d.keys| == |d.at|
  {
    SizeOfDistinct(d.keys);
    assert (set k | k in d.keys) == d.at.Keys;
  }

  lemma {:induction false} SizeOfDistinct<T>(s: seq<T>)
    requires NoDuplicates(s)
    ensures |(set x | x in s)| == |s|
    decreases |s|
  {
    if s != [] {
      var front, last := s[..|s| - 1], s[|s| - 1];
      SizeOfDistinct(front);
      assert s == front + [last];
      assert (set x | x in s) == (set x | x in front) + {last};
    }
  }

  lemma SubsetSize<T>(small: set<T>, large: set<T>)
    requires small <= large
    ensures |small| <= |large|
  {
    if x :| x in small {
      SubsetSize(small - {x}, large - {x});
    }
  }
}
