/**
  * Sequence helpers standing for the array methods the program uses
  * (`filter`, `map`) and for the row sets its SQL statements select.
  */
module Seqs {

  /** `s.filter(p)`: the elements of `s` satisfying `p`, in their original order. */
  function Filter<T(!new)>(p: T -> bool, s: seq<T>): (r: seq<T>)
    ensures |r| <= |s|
    ensures forall x :: x in r <==> x in s && p(x)
    decreases |s|
  {
    if s == [] then []
    else (if p(s[0]) then [s[0]] else []) + Filter(p, s[1..])
  }

  /** `s.map(f)`. */
  function Map<T, U>(f: T -> U, s: seq<T>): (r: seq<U>)
    ensures |r| == |s|
    ensures forall k :: 0 <= k < |s| ==> r[k] == f(s[k])
  {
    seq(|s|, k requires 0 <= k < |s| => f(s[k]))
  }

  /** The identity, as a key for sequences whose elements are themselves the keys. */
  function Id<T>(x: T): T { x }

  /** Filtering a sequence with a given first element. */
  lemma FilterCons<T(!new)>(p: T -> bool, x: T, s: seq<T>)
    ensures Filter(p, [x] + s) == (if p(x) then [x] else []) + Filter(p, s)
  {
    assert ([x] + s)[1..] == s;
  }

  /** Mapping a sequence with a given first element. */
  lemma MapCons<T, U>(f: T -> U, x: T, s: seq<T>)
    ensures Map(f, [x] + s) == [f(x)] + Map(f, s)
  {
    var m, n := Map(f, [x] + s), [f(x)] + Map(f, s);
    forall k | 0 <= k < |m| ensures m[k] == n[k] {
      if k > 0 { assert ([x] + s)[k] == s[k - 1]; }
    }
  }

  /** Mapping a sequence with a given last element. */
  lemma MapSnoc<T, U>(f: T -> U, s: seq<T>, x: T)
    ensures Map(f, s + [x]) == Map(f, s) + [f(x)]
  {
    var m, n := Map(f, s + [x]), Map(f, s) + [f(x)];
    forall k | 0 <= k < |m| ensures m[k] == n[k] {
      if k < |s| { assert (s + [x])[k] == s[k]; }
    }
  }

  /** Filtering after a map is mapping after filtering by the composed test. */
  lemma {:induction false} FilterMap<T(!new), U(!new)>(p: U -> bool, f: T -> U, q: T -> bool, s: seq<T>)
    requires forall x :: q(x) == p(f(x))
    ensures Filter(p, Map(f, s)) == Map(f, Filter(q, s))
    decreases |s|
  {
    if s != [] {
      var x, rest := s[0], s[1..];
      assert s == [x] + rest;
      FilterMap(p, f, q, rest);
      MapCons(f, x, rest);
      FilterCons(p, f(x), Map(f, rest));
      FilterCons(q, x, rest);
      if q(x) {
        MapCons(f, x, Filter(q, rest));
      }
    }
  }

  /** Two tests that agree on every element of `s` filter it alike. */
  lemma {:induction false} FilterSame<T(!new)>(p: T -> bool, q: T -> bool, s: seq<T>)
    requires forall x :: x in s ==> p(x) == q(x)
    ensures Filter(p, s) == Filter(q, s)
    decreases |s|
  {
    if s != [] {
      assert s[0] in s;
      assert forall x :: x in s[1..] ==> x in s;
      FilterSame(p, q, s[1..]);
    }
  }

  /** No two positions of `s` carry the same key. */
  ghost predicate DistinctBy<T, K>(s: seq<T>, key: T -> K) {
    forall i, j :: 0 <= i < j < |s| ==> key(s[i]) != key(s[j])
  }

  /** Filtering distributes over concatenation. */
  lemma {:induction false} FilterAppend<T(!new)>(p: T -> bool, a: seq<T>, b: seq<T>)
    ensures Filter(p, a + b) == Filter(p, a) + Filter(p, b)
    decreases |a|
  {
    if a == [] {
      assert a + b == b;
    } else {
      assert (a + b)[1..] == a[1..] + b;
      FilterAppend(p, a[1..], b);
    }
  }

  /** Appending after a concatenation appends to its second part. */
  lemma AppendSnoc<T>(a: seq<T>, b: seq<T>, x: T)
    ensures (a + b) + [x] == a + (b + [x])
  {
  }

  /** Filtering one more element at the end. */
  lemma FilterSnoc<T(!new)>(p: T -> bool, s: seq<T>, x: T)
    ensures Filter(p, s + [x]) == Filter(p, s) + (if p(x) then [x] else [])
  {
    FilterAppend(p, s, [x]);
    assert Filter(p, [x]) == (if p(x) then [x] else []) + Filter(p, []);
  }

  /** A sequence whose elements all satisfy `p` is its own filter. */
  lemma {:induction false} FilterAll<T(!new)>(p: T -> bool, s: seq<T>)
    requires forall x :: x in s ==> p(x)
    ensures Filter(p, s) == s
    decreases |s|
  {
    if s != [] {
      FilterAll(p, s[1..]);
    }
  }

  /** No element satisfies `p`: the filter is empty. */
  lemma {:induction false} FilterNone<T(!new)>(p: T -> bool, s: seq<T>)
    requires forall x :: x in s ==> !p(x)
    ensures Filter(p, s) == []
    decreases |s|
  {
    if s != [] {
      FilterNone(p, s[1..]);
    }
  }

  /** Filtering twice by the same predicate is filtering once. */
  lemma FilterIdempotent<T(!new)>(p: T -> bool, s: seq<T>)
    ensures Filter(p, Filter(p, s)) == Filter(p, s)
  {
    FilterAll(p, Filter(p, s));
  }

  /** The first element of a filter is the first element of `s` that satisfies `p`. */
  lemma {:induction false} FilterFirst<T(!new)>(p: T -> bool, s: seq<T>)
    requires Filter(p, s) != []
    ensures exists k :: 0 <= k < |s| && s[k] == Filter(p, s)[0] && p(s[k]) &&
                        forall j :: 0 <= j < k ==> !p(s[j])
    decreases |s|
  {
    if p(s[0]) {
      assert s[0] == Filter(p, s)[0];
    } else {
      assert Filter(p, s) == Filter(p, s[1..]);
      FilterFirst(p, s[1..]);
      var k :| 0 <= k < |s[1..]| && s[1..][k] == Filter(p, s[1..])[0] && p(s[1..][k]) &&
                forall j :: 0 <= j < k ==> !p(s[1..][j]);
      assert s[k + 1] == Filter(p, s)[0];
      forall j | 0 <= j < k + 1 ensures !p(s[j]) {
        if j > 0 { assert s[j] == s[1..][j - 1]; }
      }
    }
  }

  /** Elements are split between a filter and the filter of the complement, counting repeats. */
  lemma {:induction false} FilterPartition<T(!new)>(p: T -> bool, q: T -> bool, s: seq<T>)
    requires forall x :: q(x) == !p(x)
    ensures multiset(Filter(p, s)) + multiset(Filter(q, s)) == multiset(s)
    decreases |s|
  {
    if s != [] {
      var x, rest := s[0], s[1..];
      FilterPartition(p, q, rest);
      assert s == [x] + rest;
      var fp, fq := Filter(p, rest), Filter(q, rest);
      assert multiset(s) == multiset{x} + multiset(rest);
      if p(x) {
        assert Filter(p, s) == [x] + fp;
        assert Filter(q, s) == fq by { assert !q(x); }
        assert multiset([x] + fp) == multiset{x} + multiset(fp);
      } else {
        assert Filter(p, s) == fp;
        assert Filter(q, s) == [x] + fq by { assert q(x); }
        assert multiset([x] + fq) == multiset{x} + multiset(fq);
      }
    }
  }

  /** A filter by "p or q", for tests that never both hold, has as many elements as the two filters together. */
  lemma {:induction false} FilterDisjointCount<T(!new)>(p: T -> bool, q: T -> bool, r: T -> bool, s: seq<T>)
    requires forall x :: r(x) == (p(x) || q(x))
    requires forall x :: !(p(x) && q(x))
    ensures |Filter(r, s)| == |Filter(p, s)| + |Filter(q, s)|
    decreases |s|
  {
    if s != [] {
      FilterDisjointCount(p, q, r, s[1..]);
    }
  }

  /** Filtering by a stricter predicate after a looser one is filtering by the stricter one. */
  lemma {:induction false} FilterNarrow<T(!new)>(p: T -> bool, q: T -> bool, s: seq<T>)
    requires forall x :: p(x) ==> q(x)
    ensures Filter(p, Filter(q, s)) == Filter(p, s)
    decreases |s|
  {
    if s != [] {
      FilterNarrow(p, q, s[1..]);
      var head := if q(s[0]) then [s[0]] else [];
      FilterAppend(p, head, Filter(q, s[1..]));
      assert Filter(p, head) == if p(s[0]) then [s[0]] else [];
    }
  }

  /** Filtering keeps keys distinct. */
  lemma {:induction false} FilterKeepsDistinct<T(!new), K>(p: T -> bool, key: T -> K, s: seq<T>)
    requires DistinctBy(s, key)
    ensures DistinctBy(Filter(p, s), key)
    decreases |s|
  {
    if s != [] {
      var tail := Filter(p, s[1..]);
      assert DistinctBy(s[1..], key) by {
        forall i, j | 0 <= i < j < |s[1..]| ensures key(s[1..][i]) != key(s[1..][j]) {
          assert s[1..][i] == s[i + 1] && s[1..][j] == s[j + 1];
        }
      }
      FilterKeepsDistinct(p, key, s[1..]);
      if p(s[0]) {
        forall x | x in tail ensures key(x) != key(s[0]) {
          var j :| 0 <= j < |s[1..]| && s[1..][j] == x;
          assert x == s[j + 1];
        }
        DistinctCons(s[0], tail, key);
      }
    }
  }

  /** Putting an element with a new key in front keeps keys distinct. */
  lemma DistinctCons<T(!new), K>(x: T, s: seq<T>, key: T -> K)
    requires DistinctBy(s, key)
    requires forall y :: y in s ==> key(y) != key(x)
    ensures DistinctBy([x] + s, key)
  {
    var t := [x] + s;
    forall i, j | 0 <= i < j < |t| ensures key(t[i]) != key(t[j]) {
      assert t[j] == s[j - 1];
      if i > 0 { assert t[i] == s[i - 1]; }
    }
  }

  /** Keys stay distinct after appending `x` exactly when they were and `x` brings a new key. */
  lemma DistinctSnocIff<T(!new), K>(s: seq<T>, x: T, key: T -> K)
    ensures DistinctBy(s + [x], key) <==> DistinctBy(s, key) && forall y :: y in s ==> key(y) != key(x)
  {
    var t := s + [x];
    if DistinctBy(t, key) {
      forall i, j | 0 <= i < j < |s| ensures key(s[i]) != key(s[j]) {
        assert t[i] == s[i] && t[j] == s[j];
      }
      forall y | y in s ensures key(y) != key(x) {
        var i :| 0 <= i < |s| && s[i] == y;
        assert t[i] == y && t[|s|] == x;
      }
    }
    if DistinctBy(s, key) && forall y :: y in s ==> key(y) != key(x) {
      DistinctSnoc(s, x, key);
    }
  }

  /** Appending an element with a new key keeps keys distinct. */
  lemma DistinctSnoc<T(!new), K>(s: seq<T>, x: T, key: T -> K)
    requires DistinctBy(s, key)
    requires forall y :: y in s ==> key(y) != key(x)
    ensures DistinctBy(s + [x], key)
  {
    var t := s + [x];
    forall i, j | 0 <= i < j < |t| ensures key(t[i]) != key(t[j]) {
      assert t[i] == s[i];
      if j < |s| { assert t[j] == s[j]; }
    }
  }
}
