/** Generic sequence operations that the store and the queries are built from. */
module Seqs {
  import opened Wrappers

  /** `a` is obtained from `b` by dropping elements; the rest keep their relative order. */
  predicate IsSubsequence<T(==)>(a: seq<T>, b: seq<T>)
    decreases |b|
  {
    if a == [] then true
    else if b == [] then false
    else if a[0] == b[0] then IsSubsequence(a[1..], b[1..])
    else IsSubsequence(a, b[1..])
  }

  /** `key` never increases along `s` (equal keys may come in any order). */
  predicate NonIncreasing<T>(s: seq<T>, key: T -> int)
  {
    forall i, j :: 0 <= i < j < |s| ==> key(s[j]) <= key(s[i])
  }

  /** No two positions of `s` carry the same `f` value. */
  predicate Distinct<T, K(==)>(s: seq<T>, f: T -> K)
  {
    forall i, j :: 0 <= i < j < |s| ==> f(s[i]) != f(s[j])
  }

  /** The elements of `s` satisfying `keep`, in their original order. */
  function Filter<T(==,!new)>(s: seq<T>, keep: T -> bool): (r: seq<T>)
    ensures |r| <= |s|
    ensures forall x :: x in r <==> x in s && keep(x)
    ensures IsSubsequence(r, s)
  {
    if s == [] then []
    else if keep(s[0]) then [s[0]] + Filter(s[1..], keep)
    else Filter(s[1..], keep)
  }

  /** The first element of `s` satisfying `pick`, if there is one. */
  function First<T(==,!new)>(s: seq<T>, pick: T -> bool): (r: Option<T>)
    ensures r.Some? <==> exists x :: x in s && pick(x)
    ensures r.Some? ==> r.value in s && pick(r.value)
  {
    if s == [] then None
    else if pick(s[0]) then Some(s[0])
    else First(s[1..], pick)
  }

  /** Where `x` goes in a `key`-descending sequence: after every element whose key is at least `x`'s. */
  function InsertionPoint<T>(s: seq<T>, x: T, key: T -> int): (k: nat)
    ensures k <= |s|
    ensures forall i :: 0 <= i < k ==> key(x) <= key(s[i])
    ensures k < |s| ==> key(s[k]) < key(x)
  {
    if s == [] || key(s[0]) < key(x) then 0
    else 1 + InsertionPoint(s[1..], x, key)
  }

  /** `s` with `x` inserted at its place in `key`-descending order. */
  function InsertInOrder<T>(s: seq<T>, x: T, key: T -> int): (r: seq<T>)
    ensures |r| == |s| + 1
    ensures multiset(r) == multiset(s) + multiset{x}
    ensures exists k :: 0 <= k <= |s| && r == s[..k] + [x] + s[k..]
    ensures NonIncreasing(s, key) ==> NonIncreasing(r, key)
  {
    var k := InsertionPoint(s, x, key);
    assert s == s[..k] + s[k..];
    var r := s[..k] + [x] + s[k..];
    assert NonIncreasing(s, key) ==> NonIncreasing(r, key) by {
      if NonIncreasing(s, key) {
        forall i, j | 0 <= i < j < |r| ensures key(r[j]) <= key(r[i]) {
          if j < k {
            assert r[i] == s[i] && r[j] == s[j];
          } else if j == k {
            assert r[i] == s[i];
          } else if i < k {
            assert r[i] == s[i] && r[j] == s[j - 1];
          } else if i == k {
            assert r[j] == s[j - 1] && key(s[j - 1]) <= key(s[k]);
          } else {
            assert r[i] == s[i - 1] && r[j] == s[j - 1];
          }
        }
      }
    }
    r
  }

  lemma {:induction false} SubsequenceMembers<T>(a: seq<T>, b: seq<T>)
    requires IsSubsequence(a, b)
    ensures forall x :: x in a ==> x in b
    decreases |b|
  {
    if a != [] {
      if a[0] == b[0] {
        SubsequenceMembers(a[1..], b[1..]);
        forall x | x in a ensures x in b {
          if x != a[0] {
            assert x in a[1..];
          }
        }
      } else {
        SubsequenceMembers(a, b[1..]);
      }
    }
  }

  /** Dropping elements keeps a descending order descending. */
  lemma {:induction false} SubsequenceKeepsOrder<T>(a: seq<T>, b: seq<T>, key: T -> int)
    requires IsSubsequence(a, b)
    requires NonIncreasing(b, key)
    ensures NonIncreasing(a, key)
    decreases |b|
  {
    if a == [] {
    } else if a[0] == b[0] {
      SubsequenceKeepsOrder(a[1..], b[1..], key);
      SubsequenceMembers(a[1..], b[1..]);
      forall i, j | 0 <= i < j < |a| ensures key(a[j]) <= key(a[i]) {
        assert a[j] == a[1..][j - 1];
        if i == 0 {
          assert a[j] in b[1..];
          var m :| 0 <= m < |b[1..]| && b[1..][m] == a[j];
          assert b[m + 1] == a[j];
        } else {
          assert a[i] == a[1..][i - 1];
        }
      }
    } else {
      SubsequenceKeepsOrder(a, b[1..], key);
    }
  }

  /** Dropping elements keeps distinct keys distinct. */
  lemma {:induction false} SubsequenceKeepsDistinct<T, K>(a: seq<T>, b: seq<T>, f: T -> K)
    requires IsSubsequence(a, b)
    requires Distinct(b, f)
    ensures Distinct(a, f)
    decreases |b|
  {
    if a == [] {
    } else if a[0] == b[0] {
      SubsequenceKeepsDistinct(a[1..], b[1..], f);
      SubsequenceMembers(a[1..], b[1..]);
      forall i, j | 0 <= i < j < |a| ensures f(a[i]) != f(a[j]) {
        assert a[j] == a[1..][j - 1];
        if i == 0 {
          assert a[j] in b[1..];
          var m :| 0 <= m < |b[1..]| && b[1..][m] == a[j];
          assert b[m + 1] == a[j];
        } else {
          assert a[i] == a[1..][i - 1];
        }
      }
    } else {
      SubsequenceKeepsDistinct(a, b[1..], f);
    }
  }

  /** Filtering with a stronger condition yields a subsequence of filtering with a weaker one. */
  lemma {:induction false} FilterStrongerIsSubsequence<T(!new)>(s: seq<T>, strong: T -> bool, weak: T -> bool)
    requires forall x :: x in s && strong(x) ==> weak(x)
    ensures IsSubsequence(Filter(s, strong), Filter(s, weak))
  {
    if s != [] {
      FilterStrongerIsSubsequence(s[1..], strong, weak);
      var a, b := Filter(s[1..], strong), Filter(s[1..], weak);
      if strong(s[0]) {
        assert Filter(s, strong) == [s[0]] + a;
        assert Filter(s, weak) == [s[0]] + b;
        assert ([s[0]] + a)[1..] == a && ([s[0]] + b)[1..] == b;
      } else if weak(s[0]) {
        assert Filter(s, weak) == [s[0]] + b;
        assert ([s[0]] + b)[1..] == b;
        if a != [] {
          assert a[0] in a;
          assert a[0] != s[0];
        }
      }
    }
  }

  /** Under distinct keys, the key determines the element. */
  lemma DistinctIdentifies<T, K>(s: seq<T>, f: T -> K, x: T, y: T)
    requires Distinct(s, f)
    requires x in s && y in s && f(x) == f(y)
    ensures x == y
  {
    var i :| 0 <= i < |s| && s[i] == x;
    var j :| 0 <= j < |s| && s[j] == y;
    assert f(s[i]) == f(s[j]);
  }

  /** Appending an element with a fresh key keeps the keys distinct. */
  lemma DistinctAppend<T, K>(s: seq<T>, x: T, f: T -> K)
    requires Distinct(s, f)
    requires forall y :: y in s ==> f(y) != f(x)
    ensures Distinct(s + [x], f)
  {
    var r := s + [x];
    forall i, j | 0 <= i < j < |r| ensures f(r[i]) != f(r[j]) {
      assert r[i] == s[i];
      if j < |s| {
        assert r[j] == s[j];
      } else {
        assert s[i] in s;
      }
    }
  }

  /** Inserting an element with a fresh key anywhere keeps the keys distinct. */
  lemma DistinctInsert<T, K>(s: seq<T>, x: T, f: T -> K, k: nat)
    requires k <= |s|
    requires Distinct(s, f)
    requires forall y :: y in s ==> f(y) != f(x)
    ensures Distinct(s[..k] + [x] + s[k..], f)
  {
    var r := s[..k] + [x] + s[k..];
    forall i, j | 0 <= i < j < |r| ensures f(r[i]) != f(r[j]) {
      if j < k {
        assert r[i] == s[i] && r[j] == s[j];
      } else if j == k {
        assert r[i] == s[i] && s[i] in s;
      } else if i < k {
        assert r[i] == s[i] && r[j] == s[j - 1];
      } else if i == k {
        assert r[j] == s[j - 1] && s[j - 1] in s;
      } else {
        assert r[i] == s[i - 1] && r[j] == s[j - 1];
      }
    }
  }
}
