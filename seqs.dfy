/** Order-preserving filters and maps over sequences: the shape of Python's list comprehensions. */
module Seqs {
  import opened Wrappers


  /** `[x for x in s if p(x)]` */
  function Filter<T>(s: seq<T>, p: T -> bool): (r: seq<T>)
    ensures |r| <= |s|
  {
    if s == [] then [] else (if p(s[0]) then [s[0]] else []) + Filter(s[1..], p)
  }

  /** `[f(x) for x in s]` */
  function Map<T, U>(s: seq<T>, f: T -> U): (r: seq<U>)
    ensures |r| == |s|
    ensures forall i :: 0 <= i < |s| ==> r[i] == f(s[i])
  {
    seq(|s|, i requires 0 <= i < |s| => f(s[i]))
  }

  /** `a` can be obtained from `b` by deleting elements; the survivors keep their order. */
  ghost predicate IsSubsequence<T>(a: seq<T>, b: seq<T>)
    decreases |b|
  {
    if a == [] then true
    else if b == [] then false
    else (a[0] == b[0] && IsSubsequence(a[1..], b[1..])) || IsSubsequence(a, b[1..])
  }

  lemma {:induction false} FilterConcat<T>(a: seq<T>, b: seq<T>, p: T -> bool)
    ensures Filter(a + b, p) == Filter(a, p) + Filter(b, p)
  {
    if a == [] {
      assert a + b == b;
    } else {
      var head := if p(a[0]) then [a[0]] else [];
      assert (a + b)[0] == a[0];
      assert (a + b)[1..] == a[1..] + b;
      assert Filter(a + b, p) == head + Filter(a[1..] + b, p);
      FilterConcat(a[1..], b, p);
      assert Filter(a, p) == head + Filter(a[1..], p);
    }
  }

  /** Filtering a prefix one element longer adds that element exactly when it passes. */
  lemma FilterSnoc<T>(s: seq<T>, i: nat, p: T -> bool)
    requires i < |s|
    ensures Filter(s[..i + 1], p) == Filter(s[..i], p) + (if p(s[i]) then [s[i]] else [])
  {
    assert s[..i + 1] == s[..i] + [s[i]];
    FilterConcat(s[..i], [s[i]], p);
  }

  /** A relation that holds between every element and each later one still holds after
      filtering, which only deletes elements. */
  lemma {:induction false} FilterPairwise<T>(s: seq<T>, p: T -> bool, rel: (T, T) -> bool)
    requires forall i, j :: 0 <= i < j < |s| ==> rel(s[i], s[j])
    ensures forall i, j :: 0 <= i < j < |Filter(s, p)| ==> rel(Filter(s, p)[i], Filter(s, p)[j])
  {
    if s != [] {
      var tail := Filter(s[1..], p);
      FilterPairwise(s[1..], p, rel);
      if p(s[0]) {
        var r := [s[0]] + tail;
        forall i, j | 0 <= i < j < |r| ensures rel(r[i], r[j]) {
          if i == 0 {
            assert r[j] == tail[j - 1];
            FilterMembership(s[1..], p, tail[j - 1]);
            var k :| 0 <= k < |s[1..]| && s[1..][k] == tail[j - 1];
            assert s[k + 1] == r[j];
          } else {
            assert r[i] == tail[i - 1] && r[j] == tail[j - 1];
          }
        }
      }
    }
  }

  /** Filtering twice is filtering once by the conjunction, wherever the two agree on `s`. */
  lemma {:induction false} FilterCompose<T>(s: seq<T>, p: T -> bool, q: T -> bool, pq: T -> bool)
    requires forall x :: x in s ==> pq(x) == (p(x) && q(x))
    ensures Filter(Filter(s, p), q) == Filter(s, pq)
  {
    if s != [] {
      assert forall x :: x in s[1..] ==> x in s;
      FilterCompose(s[1..], p, q, pq);
      var tail := Filter(s[1..], p);
      assert s[0] in s;
      if p(s[0]) {
        var f := [s[0]] + tail;
        assert Filter(s, p) == f;
        assert f[0] == s[0] && f[1..] == tail;
        assert Filter(f, q) == (if q(s[0]) then [s[0]] else []) + Filter(tail, q);
      } else {
        assert Filter(s, p) == tail;
      }
    }
  }

  lemma {:induction false} FilterNone<T>(s: seq<T>, p: T -> bool)
    requires forall x :: x in s ==> !p(x)
    ensures Filter(s, p) == []
  {
    if s != [] {
      assert s[0] in s;
      assert forall x :: x in s[1..] ==> x in s;
      FilterNone(s[1..], p);
    }
  }

  lemma {:induction false} FilterMembership<T>(s: seq<T>, p: T -> bool, x: T)
    ensures x in Filter(s, p) <==> x in s && p(x)
  {
    if s != [] {
      FilterMembership(s[1..], p, x);
      assert s == [s[0]] + s[1..];
    }
  }

  lemma {:induction false} FilterIsSubsequence<T>(s: seq<T>, p: T -> bool)
    ensures IsSubsequence(Filter(s, p), s)
  {
    if s != [] {
      FilterIsSubsequence(s[1..], p);
      var r := Filter(s, p);
      if p(s[0]) {
        assert r == [s[0]] + Filter(s[1..], p);
        assert r[1..] == Filter(s[1..], p);
      } else {
        assert r == Filter(s[1..], p);
        SubsequenceOfTail(r, s);
      }
    }
  }

  /** Extending the longer sequence keeps a subsequence a subsequence, whether or not the
      new element is also appended to the shorter one. */
  lemma {:induction false} SubsequenceSnoc<T>(a: seq<T>, b: seq<T>, x: T)
    requires IsSubsequence(a, b)
    ensures IsSubsequence(a, b + [x]) && IsSubsequence(a + [x], b + [x])
    decreases |b|
  {
    if a == [] {
      assert IsSubsequence([x], [x]) by { assert [x][1..] == []; }
      SubsequenceOfPrefix([x], b, x);
      assert a + [x] == [x];
    } else if b != [] {
      assert (b + [x])[1..] == b[1..] + [x];
      assert (a + [x])[1..] == a[1..] + [x];
      if a[0] == b[0] && IsSubsequence(a[1..], b[1..]) {
        SubsequenceSnoc(a[1..], b[1..], x);
      } else {
        SubsequenceSnoc(a, b[1..], x);
      }
    }
  }

  lemma {:induction false} SubsequenceOfPrefix<T>(a: seq<T>, b: seq<T>, x: T)
    requires IsSubsequence(a, [x])
    ensures IsSubsequence(a, b + [x])
    decreases |b|
  {
    if b != [] {
      assert (b + [x])[1..] == b[1..] + [x];
      SubsequenceOfPrefix(a, b[1..], x);
    } else {
      assert b + [x] == [x];
    }
  }

  lemma SubsequenceOfTail<T>(a: seq<T>, b: seq<T>)
    requires b != [] && IsSubsequence(a, b[1..])
    ensures IsSubsequence(a, b)
  {
  }

  lemma {:induction false} SubsequenceOfSuffix<T>(a: seq<T>, b: seq<T>, k: nat)
    requires k <= |b| && IsSubsequence(a, b[k..])
    ensures IsSubsequence(a, b)
  {
    if k > 0 {
      assert b[1..][k - 1..] == b[k..];
      SubsequenceOfSuffix(a, b[1..], k - 1);
    }
  }

  lemma {:induction false} FilterAll<T>(s: seq<T>, p: T -> bool)
    requires forall x :: x in s ==> p(x)
    ensures Filter(s, p) == s
  {
    if s != [] {
      FilterAll(s[1..], p);
      assert s == [s[0]] + s[1..];
    }
  }

  lemma MapConcat<T, U>(a: seq<T>, b: seq<T>, f: T -> U)
    ensures Map(a + b, f) == Map(a, f) + Map(b, f)
  {
  }

  /** Mapping a longer input extends an accumulated result by the mapped tail. */
  lemma MapConcatAfter<T, U>(done: seq<U>, a: seq<T>, b: seq<T>, f: T -> U)
    ensures done + Map(a + b, f) == (done + Map(a, f)) + Map(b, f)
  {
    MapConcat(a, b, f);
  }

  lemma MapSnoc<T, U>(a: seq<T>, x: T, f: T -> U)
    ensures Map(a + [x], f) == Map(a, f) + [f(x)]
  {
    MapConcat(a, [x], f);
    assert Map([x], f) == [f(x)];
  }

  /** The first position at or after `from` whose element satisfies `p`, if any. */
  function FirstIndex<T>(s: seq<T>, p: T -> bool, from: nat): (r: Option<nat>)
    requires from <= |s|
    ensures r.Some? ==> from <= r.value < |s| && p(s[r.value])
    ensures r.Some? ==> forall j :: from <= j < r.value ==> !p(s[j])
    ensures r.None? ==> forall j :: from <= j < |s| ==> !p(s[j])
    decreases |s| - from
  {
    if from == |s| then None
    else if p(s[from]) then Some(from)
    else FirstIndex(s, p, from + 1)
  }

  /** Python's `s.index(x)`: the position of the first element equal to `x`. */
  function IndexOf<T(==)>(s: seq<T>, x: T): (k: nat)
    requires x in s
    ensures k < |s| && s[k] == x && forall j :: 0 <= j < k ==> s[j] != x
  {
    if s[0] == x then 0 else 1 + IndexOf(s[1..], x)
  }

  /** Python's `s.remove(x)`: deletes the first element equal to `x`. */
  function RemoveFirst<T(==)>(s: seq<T>, x: T): (r: seq<T>)
    requires x in s
    ensures |r| == |s| - 1
    ensures multiset(r) == multiset(s) - multiset{x}
  {
    var k := IndexOf(s, x);
    assert s == s[..k] + [x] + s[k + 1..];
    s[..k] + s[k + 1..]
  }

  /** Removing the first element's value removes the first element. */
  lemma RemoveFirstHead<T>(s: seq<T>)
    requires s != []
    ensures RemoveFirst(s, s[0]) == s[1..]
  {
    assert IndexOf(s, s[0]) == 0;
  }

  /** `s.remove(x)` keeps only elements of `s`. */
  lemma RemoveFirstMembers<T>(s: seq<T>, x: T, y: T)
    requires x in s && y in RemoveFirst(s, x)
    ensures y in s
  {
    assert y in multiset(RemoveFirst(s, x));
  }

  /** The head and tail of a concatenation whose first part is not empty. */
  lemma ConcatHeadTail<T>(a: seq<T>, b: seq<T>)
    requires a != []
    ensures (a + b)[0] == a[0] && (a + b)[1..] == a[1..] + b
    ensures [a[0]] + (a[1..] + b) == a + b
  {
  }
}
