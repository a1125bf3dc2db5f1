/** Order-preserving filtering of sequences, the shape of every `SELECT ... WHERE`
    and of every list comprehension with an `if` in the modelled code. */
module Seqs {

  /** `r` is `s` with some elements dropped and the rest kept in order. */
  predicate IsSubseq<T(==)>(r: seq<T>, s: seq<T>)
    decreases |s|
  {
    if r == [] then true
    else if s == [] then false
    else (r[0] == s[0] && IsSubseq(r[1..], s[1..])) || IsSubseq(r, s[1..])
  }

  /** The elements of `s` that satisfy `p`, in the order of `s`. */
  function Filter<T(!new)>(p: T -> bool, s: seq<T>): (r: seq<T>)
    ensures |r| <= |s|
    ensures forall x :: x in r <==> x in s && p(x)
    ensures (forall x :: x in s ==> p(x)) ==> r == s
    ensures (exists x :: x in s && !p(x)) ==> |r| < |s|
    decreases |s|
  {
    if s == [] then []
    else
      var rest := Filter(p, s[1..]);
      assert forall x :: x in s[1..] ==> x in s;
      if p(s[0]) then [s[0]] + rest else rest
  }

  lemma {:induction false} FilterIsSubseq<T(!new)>(p: T -> bool, s: seq<T>)
    ensures IsSubseq(Filter(p, s), s)
    decreases |s|
  {
    if s != [] {
      FilterIsSubseq(p, s[1..]);
      var rest := Filter(p, s[1..]);
      if p(s[0]) {
        assert Filter(p, s) == [s[0]] + rest;
        assert ([s[0]] + rest)[1..] == rest;
      } else {
        SubseqOfTail(rest, s);
      }
    }
  }

  /** Filtering keeps every copy of an element that satisfies `p` and no copy of the others. */
  lemma {:induction false} FilterCounts<T(!new)>(p: T -> bool, s: seq<T>)
    ensures forall x :: multiset(Filter(p, s))[x] == if p(x) then multiset(s)[x] else 0
    decreases |s|
  {
    if s != [] {
      FilterCounts(p, s[1..]);
      assert s == [s[0]] + s[1..];
      assert multiset(s) == multiset{s[0]} + multiset(s[1..]);
      if p(s[0]) {
        assert Filter(p, s) == [s[0]] + Filter(p, s[1..]);
        assert multiset(Filter(p, s)) == multiset{s[0]} + multiset(Filter(p, s[1..]));
      }
    }
  }

  lemma {:induction false} SubseqOfTail<T>(r: seq<T>, s: seq<T>)
    requires s != [] && IsSubseq(r, s[1..])
    ensures IsSubseq(r, s)
  {
  }

  /** Filtering with `q` after `p` is filtering with `q` alone when `q` implies `p`. */
  lemma {:induction false} FilterOfFilter<T(!new)>(q: T -> bool, p: T -> bool, s: seq<T>)
    requires forall x :: x in s && q(x) ==> p(x)
    ensures Filter(q, Filter(p, s)) == Filter(q, s)
    decreases |s|
  {
    if s != [] {
      assert forall x :: x in s[1..] ==> x in s;
      FilterOfFilter(q, p, s[1..]);
      var rest := Filter(p, s[1..]);
      if p(s[0]) {
        assert Filter(p, s) == [s[0]] + rest;
        assert ([s[0]] + rest)[1..] == rest;
      }
    }
  }

  /** No two elements of `s` share a key. */
  predicate KeyUnique<T, K(==)>(key: T -> K, s: seq<T>)
  {
    forall i, j :: 0 <= i < j < |s| ==> key(s[i]) != key(s[j])
  }

  lemma {:induction false} FilterKeyUnique<T(!new), K>(key: T -> K, p: T -> bool, s: seq<T>)
    ensures KeyUnique(key, s) ==> KeyUnique(key, Filter(p, s))
    decreases |s|
  {
    if s != [] && KeyUnique(key, s) {
      assert KeyUnique(key, s[1..]) by {
        forall i, j | 0 <= i < j < |s[1..]|
          ensures key(s[1..][i]) != key(s[1..][j])
        {
          assert s[1..][i] == s[i + 1] && s[1..][j] == s[j + 1];
        }
      }
      FilterKeyUnique(key, p, s[1..]);
      var rest := Filter(p, s[1..]);
      if p(s[0]) {
        var r := [s[0]] + rest;
        forall i, j | 0 <= i < j < |r| ensures key(r[i]) != key(r[j]) {
          if i == 0 {
            assert r[j] in s[1..];
            var k :| 0 <= k < |s[1..]| && s[1..][k] == r[j];
            assert s[k + 1] == r[j];
          } else {
            assert r[i] == rest[i - 1] && r[j] == rest[j - 1];
          }
        }
      }
    }
  }

  /** Under unique keys, the elements with one given key number at most one. */
  lemma {:induction false} AtMostOneWithKey<T, K>(key: T -> K, r: seq<T>, k: K)
    requires KeyUnique(key, r)
    requires forall x :: x in r ==> key(x) == k
    ensures |r| <= 1
  {
    if |r| > 1 {
      FirstTwo(r);
      assert false;
    }
  }

  lemma FirstTwo<T>(r: seq<T>)
    requires |r| > 1
    ensures r[0] in r && r[1] in r
  {
  }
}
