/** Facts about sequences, their multisets of elements, and element-wise maps. */
module Sequences {

  /** `[f(x) for x in s]` */
  function Map<A, B>(f: A -> B, s: seq<A>): (r: seq<B>)
    ensures |r| == |s|
    ensures forall i :: 0 <= i < |s| ==> r[i] == f(s[i])
  {
    if |s| == 0 then [] else [f(s[0])] + Map(f, s[1..])
  }

  /** Python's `s[k:]`, which is empty when `k` is past the end. */
  function Drop<T>(s: seq<T>, k: nat): (r: seq<T>)
    ensures k <= |s| ==> r == s[k..]
    ensures k > |s| ==> r == []
  {
    if k <= |s| then s[k..] else []
  }

  lemma MultisetTail<T>(s: seq<T>)
    requires |s| > 0
    ensures multiset(s[1..]) == multiset(s) - multiset{s[0]}
  {
    assert s == [s[0]] + s[1..];
  }

  lemma PermutationLength<T>(a: seq<T>, b: seq<T>)
    requires multiset(a) == multiset(b)
    ensures |a| == |b|
  {
    assert |multiset(a)| == |a| && |multiset(b)| == |b|;
  }

  lemma SameHeadAndTail<T>(a: seq<T>, b: seq<T>)
    requires |a| > 0 && |b| > 0
    requires a[0] == b[0] && a[1..] == b[1..]
    ensures a == b
  {
    assert a == [a[0]] + a[1..] && b == [b[0]] + b[1..];
  }

  /** Taking out the element at `k`. */
  lemma MultisetRemoveAt<T>(s: seq<T>, k: int)
    requires 0 <= k < |s|
    ensures multiset(s[..k] + s[k + 1..]) == multiset(s) - multiset{s[k]}
  {
    assert s == s[..k] + [s[k]] + s[k + 1..];
  }

  /** Adding back the element that was taken out of both sides. */
  lemma MultisetRebuild<T>(a: multiset<T>, b: multiset<T>, m: multiset<T>, x: T)
    requires x in a && x in b
    requires a - multiset{x} == m && b - multiset{x} == m
    ensures a == b
  {
    assert a == m + multiset{x};
    assert b == m + multiset{x};
  }

  lemma MapRemoveAt<A, B>(f: A -> B, t: seq<A>, k: int)
    requires 0 <= k < |t|
    ensures Map(f, t[..k] + t[k + 1..]) == Map(f, t)[..k] + Map(f, t)[k + 1..]
  {
    var u := t[..k] + t[k + 1..];
    var l, r := Map(f, u), Map(f, t)[..k] + Map(f, t)[k + 1..];
    forall i | 0 <= i < |l|
      ensures l[i] == r[i]
    {
      if i < k {
        assert u[i] == t[i];
      } else {
        assert u[i] == t[i + 1];
      }
    }
  }

  /** Mapping a function over two permutations of each other gives two
      permutations of each other. */
  lemma {:induction false} MapPermutation<A, B>(f: A -> B, s: seq<A>, t: seq<A>)
    requires multiset(s) == multiset(t)
    ensures multiset(Map(f, s)) == multiset(Map(f, t))
  {
    PermutationLength(s, t);
    if |s| > 0 {
      var x := s[0];
      assert x in multiset(t);
      var k :| 0 <= k < |t| && t[k] == x;
      var rest := t[..k] + t[k + 1..];
      MultisetTail(s);
      MultisetRemoveAt(t, k);
      MapPermutation(f, s[1..], rest);
      var fs, ft := Map(f, s), Map(f, t);
      MultisetTail(fs);
      MultisetRemoveAt(ft, k);
      assert fs[1..] == Map(f, s[1..]);
      MapRemoveAt(f, t, k);
      assert fs[0] in multiset(fs) && ft[k] in multiset(ft);
      MultisetRebuild(multiset(fs), multiset(ft), multiset(Map(f, rest)), f(x));
    }
  }

  /* ---------------- distinct elements ---------------- */

  predicate Distinct<T(==)>(s: seq<T>) {
    forall i, j :: 0 <= i < j < |s| ==> s[i] != s[j]
  }

  /** In a sequence without repetitions every element occurs once. */
  lemma {:induction false} DistinctOnce<T>(s: seq<T>, x: T)
    requires Distinct(s)
    ensures multiset(s)[x] <= 1
  {
    if |s| > 0 {
      assert s == [s[0]] + s[1..];
      assert Distinct(s[1..]) by {
        forall i, j | 0 <= i < j < |s[1..]|
          ensures s[1..][i] != s[1..][j]
        {
          assert s[1..][i] == s[i + 1] && s[1..][j] == s[j + 1];
        }
      }
      DistinctOnce(s[1..], x);
      if s[0] == x {
        assert x !in s[1..] by {
          forall k | 0 <= k < |s[1..]|
            ensures s[1..][k] != x
          {
            assert s[1..][k] == s[k + 1];
          }
        }
      }
    }
  }

  /** An element that occurs at most once is not found at two positions. */
  lemma OncePositions<T>(s: seq<T>, i: int, j: int)
    requires 0 <= i < j < |s| && multiset(s)[s[i]] <= 1
    ensures s[i] != s[j]
  {
    assert s == s[..j] + [s[j]] + s[j + 1..];
    assert s[..j][i] == s[i];
    assert s[i] in multiset(s[..j]);
  }

  /** Rearranging a sequence without repetitions gives one without repetitions. */
  lemma DistinctPermutation<T>(a: seq<T>, b: seq<T>)
    requires Distinct(a) && multiset(a) == multiset(b)
    ensures Distinct(b)
  {
    forall i, j | 0 <= i < j < |b|
      ensures b[i] != b[j]
    {
      DistinctOnce(a, b[i]);
      OncePositions(b, i, j);
    }
  }
}
