/** Sequence combinators standing for JavaScript's `Array.prototype.map` and
    `Array.prototype.filter`, with the laws the note store relies on: a filter
    keeps a subsequence, counts each kept value exactly, is idempotent and
    monotone, and removing by a unique key drops exactly one record. */
module Seqs {

  /** `s.map(f)`. */
  function Map<A, B>(f: A -> B, s: seq<A>): (r: seq<B>)
    ensures |r| == |s|
    ensures forall i :: 0 <= i < |s| ==> r[i] == f(s[i])
    decreases |s|
  {
    if s == [] then [] else [f(s[0])] + Map(f, s[1..])
  }

  /** `s.filter(p)`: the elements satisfying `p`, in their original order. */
  function Filter<T>(p: T -> bool, s: seq<T>): (r: seq<T>)
    ensures |r| <= |s|
    ensures forall x :: x in r ==> x in s && p(x)
    decreases |s|
  {
    if s == [] then []
    else if p(s[0]) then [s[0]] + Filter(p, s[1..])
    else Filter(p, s[1..])
  }

  /** `s` can be obtained from `t` by deleting elements: it keeps `t`'s relative order. */
  ghost predicate Subseq<T>(s: seq<T>, t: seq<T>)
    decreases |t|
  {
    s == [] || (t != [] && ((s[0] == t[0] && Subseq(s[1..], t[1..])) || Subseq(s, t[1..])))
  }

  /** No value occurs twice in `s`. */
  ghost predicate Distinct<T>(s: seq<T>) {
    forall i, j :: 0 <= i < j < |s| ==> s[i] != s[j]
  }

  /** Holds of a record whose key differs from `k`: the test removal by id filters with. */
  function KeyIsNot<T(!new), K(==)>(key: T -> K, k: K): (p: T -> bool)
    ensures forall x :: p(x) <==> key(x) != k
  {
    x => key(x) != k
  }

  // ---------------------------------------------------------------------------
  // Laws of Filter

  lemma {:induction false} FilterIsSubseq<T>(p: T -> bool, s: seq<T>)
    ensures Subseq(Filter(p, s), s)
    decreases |s|
  {
    if s != [] {
      FilterIsSubseq(p, s[1..]);
      if p(s[0]) {
        assert Filter(p, s)[1..] == Filter(p, s[1..]);
      }
    }
  }

  lemma {:induction false} FilterMembers<T>(p: T -> bool, s: seq<T>)
    ensures forall x :: x in Filter(p, s) <==> x in s && p(x)
    decreases |s|
  {
    if s != [] {
      FilterMembers(p, s[1..]);
      assert s == [s[0]] + s[1..];
    }
  }

  lemma {:induction false} FilterAll<T>(p: T -> bool, s: seq<T>)
    requires forall x :: x in s ==> p(x)
    ensures Filter(p, s) == s
    decreases |s|
  {
    if s != [] {
      assert s == [s[0]] + s[1..];
      FilterAll(p, s[1..]);
    }
  }

  lemma {:induction false} FilterNone<T>(p: T -> bool, s: seq<T>)
    requires forall x :: x in s ==> !p(x)
    ensures Filter(p, s) == []
    decreases |s|
  {
    if s != [] {
      assert s == [s[0]] + s[1..];
      FilterNone(p, s[1..]);
    }
  }

  lemma {:induction false} FilterIdempotent<T>(p: T -> bool, s: seq<T>)
    ensures Filter(p, Filter(p, s)) == Filter(p, s)
  {
    FilterAll(p, Filter(p, s));
  }

  /** A weaker predicate keeps at least as much, in the same order. */
  lemma {:induction false} FilterMonotone<T>(p: T -> bool, q: T -> bool, s: seq<T>)
    requires forall x :: x in s && p(x) ==> q(x)
    ensures Subseq(Filter(p, s), Filter(q, s))
    decreases |s|
  {
    if s != [] {
      assert s == [s[0]] + s[1..];
      FilterMonotone(p, q, s[1..]);
      if p(s[0]) {
        assert Filter(p, s)[1..] == Filter(p, s[1..]);
        assert Filter(q, s)[1..] == Filter(q, s[1..]);
      } else if q(s[0]) {
        assert Filter(q, s)[1..] == Filter(q, s[1..]);
      }
    }
  }

  /** A filter keeps every occurrence of a value that passes, and none of one that fails. */
  lemma {:induction false} FilterCount<T>(p: T -> bool, s: seq<T>, x: T)
    ensures multiset(Filter(p, s))[x] == if p(x) then multiset(s)[x] else 0
    decreases |s|
  {
    if s != [] {
      assert s == [s[0]] + s[1..];
      FilterCount(p, s[1..], x);
    }
  }

  // ---------------------------------------------------------------------------
  // Subsequences

  lemma {:induction false} SubseqCounts<T>(s: seq<T>, t: seq<T>)
    requires Subseq(s, t)
    ensures multiset(s) <= multiset(t)
    decreases |t|
  {
    if s != [] {
      assert t == [t[0]] + t[1..];
      if s[0] == t[0] && Subseq(s[1..], t[1..]) {
        assert s == [s[0]] + s[1..];
        SubseqCounts(s[1..], t[1..]);
      } else {
        SubseqCounts(s, t[1..]);
      }
    }
  }

  /** The filter is the only subsequence of `t` that keeps exactly the
      occurrences of the values passing `p`. */
  lemma {:induction false} FilterUnique<T>(p: T -> bool, s: seq<T>, t: seq<T>)
    requires Subseq(s, t)
    requires forall x :: multiset(s)[x] == if p(x) then multiset(t)[x] else 0
    ensures s == Filter(p, t)
    decreases |t|
  {
    if t == [] {
    } else if s == [] {
      forall x | x in t ensures !p(x) {
        assert multiset(s)[x] == 0;
      }
      FilterNone(p, t);
    } else {
      assert t == [t[0]] + t[1..];
      assert s == [s[0]] + s[1..];
      if s[0] == t[0] && Subseq(s[1..], t[1..]) {
        assert p(t[0]) by {
          assert multiset(s)[s[0]] > 0;
        }
        forall x ensures multiset(s[1..])[x] == if p(x) then multiset(t[1..])[x] else 0 {
          assert multiset(s)[x] == multiset(s[1..])[x] + (if x == s[0] then 1 else 0);
          assert multiset(t)[x] == multiset(t[1..])[x] + (if x == t[0] then 1 else 0);
        }
        FilterUnique(p, s[1..], t[1..]);
      } else {
        SubseqCounts(s, t[1..]);
        assert !p(t[0]) by {
          assert multiset(t)[t[0]] == multiset(t[1..])[t[0]] + 1;
          assert multiset(s)[t[0]] <= multiset(t[1..])[t[0]];
        }
        forall x ensures multiset(s)[x] == if p(x) then multiset(t[1..])[x] else 0 {
          assert multiset(t)[x] == multiset(t[1..])[x] + (if x == t[0] then 1 else 0);
        }
        FilterUnique(p, s, t[1..]);
      }
    }
  }

  lemma {:induction false} SubseqMap<A, B>(f: A -> B, s: seq<A>, t: seq<A>)
    requires Subseq(s, t)
    ensures Subseq(Map(f, s), Map(f, t))
    decreases |t|
  {
    if s != [] {
      assert Map(f, t)[1..] == Map(f, t[1..]);
      if s[0] == t[0] && Subseq(s[1..], t[1..]) {
        assert Map(f, s)[1..] == Map(f, s[1..]);
        SubseqMap(f, s[1..], t[1..]);
      } else {
        SubseqMap(f, s, t[1..]);
      }
    }
  }

  // ---------------------------------------------------------------------------
  // Distinctness

  lemma DistinctCons<T>(s: seq<T>)
    requires s != []
    ensures Distinct(s) <==> s[0] !in s[1..] && Distinct(s[1..])
  {
    if s[0] !in s[1..] && Distinct(s[1..]) {
      forall i, j | 0 <= i < j < |s| ensures s[i] != s[j] {
        assert s[j] == s[1..][j - 1];
        if i > 0 {
          assert s[i] == s[1..][i - 1];
        }
      }
    }
    if Distinct(s) {
      forall i, j | 0 <= i < j < |s[1..]| ensures s[1..][i] != s[1..][j] {
        assert s[1..][i] == s[i + 1] && s[1..][j] == s[j + 1];
      }
      forall j | 0 <= j < |s[1..]| ensures s[1..][j] != s[0] {
        assert s[1..][j] == s[j + 1];
      }
    }
  }

  lemma {:induction false} DistinctCount<T>(s: seq<T>, x: T)
    requires Distinct(s)
    ensures multiset(s)[x] <= 1
    decreases |s|
  {
    if s != [] {
      assert s == [s[0]] + s[1..];
      DistinctCons(s);
      DistinctCount(s[1..], x);
    }
  }

  lemma {:induction false} SubseqDistinct<T>(s: seq<T>, t: seq<T>)
    requires Subseq(s, t) && Distinct(t)
    ensures Distinct(s)
    decreases |t|
  {
    if s != [] {
      DistinctCons(t);
      if s[0] == t[0] && Subseq(s[1..], t[1..]) {
        SubseqDistinct(s[1..], t[1..]);
        SubseqCounts(s[1..], t[1..]);
        assert s[0] !in s[1..] by {
          assert multiset(t[1..])[t[0]] == 0;
        }
        DistinctCons(s);
      } else {
        SubseqDistinct(s, t[1..]);
      }
    }
  }

  lemma MapMember<A, B>(f: A -> B, s: seq<A>, y: B)
    ensures y in Map(f, s) <==> exists x :: x in s && f(x) == y
  {
    if y in Map(f, s) {
      var i :| 0 <= i < |s| && Map(f, s)[i] == y;
      assert s[i] in s;
    }
    if exists x :: x in s && f(x) == y {
      var x :| x in s && f(x) == y;
      var i :| 0 <= i < |s| && s[i] == x;
      assert Map(f, s)[i] == y;
    }
  }

  lemma DistinctKeysDistinct<T, K>(key: T -> K, s: seq<T>)
    requires Distinct(Map(key, s))
    ensures Distinct(s)
  {
    forall i, j | 0 <= i < j < |s| ensures s[i] != s[j] {
      assert Map(key, s)[i] != Map(key, s)[j];
    }
  }

  lemma DistinctKeysInjective<T, K>(key: T -> K, s: seq<T>, x: T, y: T)
    requires Distinct(Map(key, s))
    requires x in s && y in s && key(x) == key(y)
    ensures x == y
  {
    var i :| 0 <= i < |s| && s[i] == x;
    var j :| 0 <= j < |s| && s[j] == y;
    assert Map(key, s)[i] == Map(key, s)[j];
  }

  lemma FilterKeepsDistinctKeys<T, K>(key: T -> K, p: T -> bool, s: seq<T>)
    requires Distinct(Map(key, s))
    ensures Distinct(Map(key, Filter(p, s)))
  {
    FilterIsSubseq(p, s);
    SubseqMap(key, Filter(p, s), s);
    SubseqDistinct(Map(key, Filter(p, s)), Map(key, s));
  }

  lemma AppendKeepsDistinctKeys<T, K>(key: T -> K, s: seq<T>, x: T)
    requires Distinct(Map(key, s)) && key(x) !in Map(key, s)
    ensures Distinct(Map(key, s + [x]))
  {
    var ks := Map(key, s + [x]);
    assert ks == Map(key, s) + [key(x)];
    forall i, j | 0 <= i < j < |ks| ensures ks[i] != ks[j] {
      if j == |s| {
        assert ks[i] == Map(key, s)[i];
      } else {
        assert ks[i] == Map(key, s)[i] && ks[j] == Map(key, s)[j];
      }
    }
  }

  // ---------------------------------------------------------------------------
  // Removing records by key

  /** Removing a key that no record carries changes nothing. */
  lemma RemoveKeyAbsent<T(!new), K>(key: T -> K, s: seq<T>, k: K)
    requires k !in Map(key, s)
    ensures Filter(KeyIsNot(key, k), s) == s
  {
    forall x | x in s ensures KeyIsNot(key, k)(x) {
      MapMember(key, s, key(x));
    }
    FilterAll(KeyIsNot(key, k), s);
  }

  /** With unique keys, removing a key that is present drops exactly one record. */
  lemma {:induction false} RemoveKeyLength<T(!new), K>(key: T -> K, s: seq<T>, k: K)
    requires Distinct(Map(key, s)) && k in Map(key, s)
    ensures |Filter(KeyIsNot(key, k), s)| == |s| - 1
    decreases |s|
  {
    var ks := Map(key, s);
    assert ks == [key(s[0])] + Map(key, s[1..]);
    DistinctCons(ks);
    if key(s[0]) == k {
      RemoveKeyAbsent(key, s[1..], k);
    } else {
      RemoveKeyLength(key, s[1..], k);
    }
  }
}
