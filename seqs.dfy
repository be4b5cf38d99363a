/** Order-preserving selections over sequences: the sequential stream `filter`,
    the subsequence relation, and uniqueness of keys along a sequence. */
module Seqs {

  /** The elements of xs whose flag in keep is set, in their order in xs. */
  function Select<T>(xs: seq<T>, keep: seq<bool>): (r: seq<T>)
    requires |keep| == |xs|
    ensures |r| <= |xs|
    decreases |xs|
  {
    if xs == [] then []
    else
      var n := |xs| - 1;
      Select(xs[..n], keep[..n]) + (if keep[n] then [xs[n]] else [])
  }

  /** r arises from xs by deleting elements and keeping the order of the rest. */
  ghost predicate IsSubsequence<T>(r: seq<T>, xs: seq<T>) {
    exists keep: seq<bool> :: |keep| == |xs| && r == Select(xs, keep)
  }

  /** Stream.filter(p).toList() over a sequential stream. */
  function Filter<T>(xs: seq<T>, p: T -> bool): (r: seq<T>)
    ensures |r| <= |xs|
    decreases |xs|
  {
    if xs == [] then []
    else
      var n := |xs| - 1;
      Filter(xs[..n], p) + (if p(xs[n]) then [xs[n]] else [])
  }

  /** The flags p(xs[i]), position by position. */
  function Mask<T>(xs: seq<T>, p: T -> bool): (keep: seq<bool>)
    ensures |keep| == |xs|
    ensures forall i :: 0 <= i < |xs| ==> keep[i] == p(xs[i])
  {
    seq(|xs|, i requires 0 <= i < |xs| => p(xs[i]))
  }

  lemma {:induction false} FilterIsSelect<T>(xs: seq<T>, p: T -> bool)
    ensures Filter(xs, p) == Select(xs, Mask(xs, p))
    decreases |xs|
  {
    if xs != [] {
      var n := |xs| - 1;
      FilterIsSelect(xs[..n], p);
      assert Mask(xs, p)[..n] == Mask(xs[..n], p);
    }
  }

  /** A filter keeps the order of what it retains. */
  lemma FilterIsSubsequence<T>(xs: seq<T>, p: T -> bool)
    ensures IsSubsequence(Filter(xs, p), xs)
  {
    FilterIsSelect(xs, p);
  }

  lemma {:induction false} FilterAppend<T>(a: seq<T>, b: seq<T>, p: T -> bool)
    ensures Filter(a + b, p) == Filter(a, p) + Filter(b, p)
    decreases |b|
  {
    if b == [] {
      assert a + b == a;
    } else {
      var n := |b| - 1;
      FilterAppend(a, b[..n], p);
      assert (a + b)[..|a + b| - 1] == a + b[..n];
      assert (a + b)[|a + b| - 1] == b[n];
    }
  }

  lemma FilterSingleton<T>(x: T, p: T -> bool)
    ensures Filter([x], p) == if p(x) then [x] else []
  {
    assert [x][..0] == [];
  }

  lemma FilterPair<T>(x: T, y: T, p: T -> bool)
    ensures Filter([x, y], p) == (if p(x) then [x] else []) + (if p(y) then [y] else [])
  {
    assert [x, y] == [x] + [y];
    FilterAppend([x], [y], p);
    FilterSingleton(x, p);
    FilterSingleton(y, p);
  }

  lemma FilterTriple<T>(x: T, y: T, z: T, p: T -> bool)
    ensures Filter([x, y, z], p) ==
      (if p(x) then [x] else []) + (if p(y) then [y] else []) + (if p(z) then [z] else [])
  {
    assert [x, y, z] == [x, y] + [z];
    FilterAppend([x, y], [z], p);
    FilterPair(x, y, p);
    FilterSingleton(z, p);
  }

  /** Every occurrence of an element satisfying p survives, every other one is dropped. */
  lemma {:induction false} FilterCount<T>(xs: seq<T>, p: T -> bool, x: T)
    ensures multiset(Filter(xs, p))[x] == if p(x) then multiset(xs)[x] else 0
    decreases |xs|
  {
    if xs != [] {
      var n := |xs| - 1;
      FilterCount(xs[..n], p, x);
      assert xs == xs[..n] + [xs[n]];
    }
  }

  lemma FilterMembership<T>(xs: seq<T>, p: T -> bool, x: T)
    ensures x in Filter(xs, p) <==> x in xs && p(x)
  {
    FilterCount(xs, p, x);
    assert x in Filter(xs, p) <==> x in multiset(Filter(xs, p));
    assert x in xs <==> x in multiset(xs);
  }

  /** A filter depends only on the values of p at the elements of xs. */
  lemma {:induction false} FilterCongruent<T>(xs: seq<T>, p: T -> bool, q: T -> bool)
    requires forall x :: x in xs ==> p(x) == q(x)
    ensures Filter(xs, p) == Filter(xs, q)
    decreases |xs|
  {
    if xs != [] {
      var n := |xs| - 1;
      assert forall x :: x in xs[..n] ==> x in xs;
      FilterCongruent(xs[..n], p, q);
    }
  }

  lemma {:induction false} FilterNone<T>(xs: seq<T>, p: T -> bool)
    requires forall x :: x in xs ==> !p(x)
    ensures Filter(xs, p) == []
    decreases |xs|
  {
    if xs != [] {
      var n := |xs| - 1;
      assert forall x :: x in xs[..n] ==> x in xs;
      FilterNone(xs[..n], p);
    }
  }

  /** Keeping the head of s in front of u: when u filters to the tail of s filtered and
      extended, [s[0]] + u filters to s filtered and extended in the same way. */
  lemma FilterConsExtended<T>(s: seq<T>, u: seq<T>, p: T -> bool, extra: seq<T>)
    requires s != [] && Filter(u, p) == Filter(s[1..], p) + extra
    ensures Filter([s[0]] + u, p) == Filter(s, p) + extra
  {
    calc {
      Filter([s[0]] + u, p);
      { FilterAppend([s[0]], u, p); }
      Filter([s[0]], p) + Filter(u, p);
      Filter([s[0]], p) + (Filter(s[1..], p) + extra);
      (Filter([s[0]], p) + Filter(s[1..], p)) + extra;
      { FilterAppend([s[0]], s[1..], p); assert [s[0]] + s[1..] == s; }
      Filter(s, p) + extra;
    }
  }

  /** Filtering by a weaker predicate first changes nothing. */
  lemma {:induction false} FilterFilter<T>(xs: seq<T>, p: T -> bool, q: T -> bool)
    requires forall x :: x in xs && p(x) ==> q(x)
    ensures Filter(Filter(xs, q), p) == Filter(xs, p)
    decreases |xs|
  {
    if xs != [] {
      var n := |xs| - 1;
      var init, last := xs[..n], xs[n];
      assert forall x :: x in init ==> x in xs;
      FilterFilter(init, p, q);
      assert p(last) ==> q(last) by { assert last in xs; }
      if q(last) {
        assert Filter(xs, q) == Filter(init, q) + [last];
        FilterAppend(Filter(init, q), [last], p);
        FilterSingleton(last, p);
      } else {
        assert Filter(xs, q) == Filter(init, q);
        assert Filter(xs, p) == Filter(init, p);
      }
    }
  }

  /** Filtering by a predicate that excludes p first leaves nothing satisfying p. */
  lemma FilterDisjoint<T>(xs: seq<T>, p: T -> bool, q: T -> bool)
    requires forall x :: x in xs && q(x) ==> !p(x)
    ensures Filter(Filter(xs, q), p) == []
  {
    forall x | x in Filter(xs, q)
      ensures !p(x)
    {
      FilterMembership(xs, q, x);
    }
    FilterNone(Filter(xs, q), p);
  }

  // Keys along a sequence.

  function KeysOf<T>(s: seq<T>, key: T -> string): set<string> {
    set i | 0 <= i < |s| :: key(s[i])
  }

  /** No two positions of s carry the same key. */
  predicate UniqueKeys<T>(s: seq<T>, key: T -> string) {
    forall i, j :: 0 <= i < j < |s| ==> key(s[i]) != key(s[j])
  }

  lemma KeysOfSnoc<T>(s: seq<T>, x: T, key: T -> string)
    ensures KeysOf(s + [x], key) == KeysOf(s, key) + {key(x)}
  {
    var l, r := KeysOf(s + [x], key), KeysOf(s, key) + {key(x)};
    forall k | k in l ensures k in r {
      var i :| 0 <= i < |s| + 1 && key((s + [x])[i]) == k;
      if i < |s| {
        assert (s + [x])[i] == s[i];
      }
    }
    forall k | k in r ensures k in l {
      if k == key(x) {
        assert (s + [x])[|s|] == x;
      } else {
        var i :| 0 <= i < |s| && key(s[i]) == k;
        assert (s + [x])[i] == s[i];
      }
    }
  }

  /** Two positions that hold the same element make that element count at least twice. */
  lemma CountTwice<T>(s: seq<T>, i: nat, j: nat)
    requires i < j < |s| && s[i] == s[j]
    ensures multiset(s)[s[i]] >= 2
  {
    assert s == s[..j] + [s[j]] + s[j + 1..];
    assert s[..j][i] == s[i];
    assert s[i] in multiset(s[..j]);
  }

  /** An element counted twice sits at two distinct positions. */
  lemma TwoPositions<T>(s: seq<T>, x: T) returns (p: nat, q: nat)
    requires multiset(s)[x] >= 2
    ensures p < |s| && q < |s| && p != q && s[p] == x && s[q] == x
  {
    assert x in multiset(s);
    p :| 0 <= p < |s| && s[p] == x;
    var rest := s[..p] + s[p + 1..];
    assert s == s[..p] + [s[p]] + s[p + 1..];
    assert multiset(rest)[x] >= 1;
    assert x in rest;
    var k :| 0 <= k < |rest| && rest[k] == x;
    if k < p {
      q := k;
      assert rest[k] == s[k];
    } else {
      q := k + 1;
      assert rest[k] == s[k + 1];
    }
  }

  /** Reordering a sequence cannot create two positions with the same key. */
  lemma UniqueKeysPermutation<T>(a: seq<T>, b: seq<T>, key: T -> string)
    requires multiset(a) == multiset(b)
    requires UniqueKeys(b, key)
    ensures UniqueKeys(a, key)
  {
    forall i, j | 0 <= i < j < |a|
      ensures key(a[i]) != key(a[j])
    {
      var p, q := Positions(a, b, i, j);
      if p < q {
        assert key(b[p]) != key(b[q]);
      } else {
        assert key(b[q]) != key(b[p]);
      }
    }
  }

  lemma Positions<T>(a: seq<T>, b: seq<T>, i: nat, j: nat) returns (p: nat, q: nat)
    requires multiset(a) == multiset(b)
    requires i < j < |a|
    ensures p < |b| && q < |b| && p != q && b[p] == a[i] && b[q] == a[j]
  {
    if a[i] == a[j] {
      CountTwice(a, i, j);
      p, q := TwoPositions(b, a[i]);
    } else {
      assert a[i] in multiset(b) && a[j] in multiset(b);
      p :| 0 <= p < |b| && b[p] == a[i];
      q :| 0 <= q < |b| && b[q] == a[j];
    }
  }
}
