/** Order-preserving filtering of sequences: the model of JavaScript's
    `Array.prototype.filter`, which every query over cards and sessions uses. */
module Seqs {

  /** The elements of `s` that satisfy `p`, in their original order. */
  function Filter<T(!new)>(s: seq<T>, p: T -> bool): (r: seq<T>)
    ensures |r| <= |s|
    ensures forall i :: 0 <= i < |r| ==> p(r[i])
    ensures forall x :: x in r <==> x in s && p(x)
  {
    if s == [] then []
    else
      assert s == [s[0]] + s[1..];
      (if p(s[0]) then [s[0]] else []) + Filter(s[1..], p)
  }

  /** Filtering a sequence with one element in front filters that element
      and then the rest. */
  lemma FilterCons<T(!new)>(x: T, s: seq<T>, p: T -> bool)
    ensures Filter([x] + s, p) == (if p(x) then [x] else []) + Filter(s, p)
  {
    assert ([x] + s)[1..] == s;
  }

  /** An element placed after a head that the filter drops, or in front of
      everything the filter keeps, comes first among the kept elements. */
  lemma FilterSkipHead<T(!new)>(head: T, x: T, rest: seq<T>, tail: seq<T>, p: T -> bool)
    requires Filter(rest, p) == (if p(x) then [x] else []) + Filter(tail, p)
    requires p(x) ==> !p(head)
    ensures Filter([head] + rest, p) == (if p(x) then [x] else []) + Filter([head] + tail, p)
  {
    FilterCons(head, rest, p);
    FilterCons(head, tail, p);
  }

  /** Filtering distributes over concatenation: the relative order of kept
      elements is the order they had in the input. */
  lemma {:induction false} FilterConcat<T(!new)>(a: seq<T>, b: seq<T>, p: T -> bool)
    ensures Filter(a + b, p) == Filter(a, p) + Filter(b, p)
  {
    if a == [] {
      assert a + b == b;
    } else {
      assert (a + b)[0] == a[0];
      assert (a + b)[1..] == a[1..] + b;
      FilterConcat(a[1..], b, p);
    }
  }

  /** A filter whose predicate holds everywhere keeps the whole sequence. */
  lemma {:induction false} FilterKeepsAll<T(!new)>(s: seq<T>, p: T -> bool)
    requires forall i :: 0 <= i < |s| ==> p(s[i])
    ensures Filter(s, p) == s
  {
    if s != [] {
      FilterKeepsAll(s[1..], p);
    }
  }

  /** Filtering by `p` and then by `q` is filtering once by a predicate
      that holds where both do, on every element of `s`. */
  lemma {:induction false} FilterFilter<T(!new)>(s: seq<T>, p: T -> bool, q: T -> bool, both: T -> bool)
    requires forall i :: 0 <= i < |s| ==> both(s[i]) == (p(s[i]) && q(s[i]))
    ensures Filter(Filter(s, p), q) == Filter(s, both)
  {
    if s != [] {
      FilterFilter(s[1..], p, q, both);
      if p(s[0]) {
        assert Filter(s, p) == [s[0]] + Filter(s[1..], p);
        assert Filter(s, p)[1..] == Filter(s[1..], p);
      } else {
        assert Filter(s, p) == Filter(s[1..], p);
      }
    }
  }

  /** A filter whose predicate holds nowhere keeps nothing. */
  lemma {:induction false} FilterKeepsNone<T(!new)>(s: seq<T>, p: T -> bool)
    requires forall i :: 0 <= i < |s| ==> !p(s[i])
    ensures Filter(s, p) == []
  {
    if s != [] {
      FilterKeepsNone(s[1..], p);
    }
  }

  /** Filters with predicates that agree on every element give the same result. */
  lemma {:induction false} FilterCongruent<T(!new)>(s: seq<T>, p: T -> bool, q: T -> bool)
    requires forall i :: 0 <= i < |s| ==> p(s[i]) == q(s[i])
    ensures Filter(s, p) == Filter(s, q)
  {
    if s != [] {
      FilterCongruent(s[1..], p, q);
    }
  }

  /** The number of elements satisfying `p`. */
  function Count<T(!new)>(s: seq<T>, p: T -> bool): (n: nat)
    ensures n <= |s|
  {
    |Filter(s, p)|
  }

  /** Appending one element adds one to the count exactly when it satisfies `p`. */
  lemma CountAppend<T(!new)>(s: seq<T>, x: T, p: T -> bool)
    ensures Count(s + [x], p) == Count(s, p) + (if p(x) then 1 else 0)
  {
    FilterConcat(s, [x], p);
    assert [x][1..] == [];
  }

  /** Counting over all but the last element. */
  lemma CountDropLast<T(!new)>(s: seq<T>, p: T -> bool)
    requires |s| > 0
    ensures Count(s, p) == Count(s[..|s| - 1], p) + (if p(s[|s| - 1]) then 1 else 0)
  {
    assert s == s[..|s| - 1] + [s[|s| - 1]];
    CountAppend(s[..|s| - 1], s[|s| - 1], p);
  }

  /** An element is kept or dropped, never both: counting by `p` and by its
      negation accounts for every element exactly once. */
  lemma {:induction false} CountSplits<T(!new)>(s: seq<T>, p: T -> bool, notP: T -> bool)
    requires forall i :: 0 <= i < |s| ==> notP(s[i]) == !p(s[i])
    ensures Count(s, p) + Count(s, notP) == |s|
  {
    if s != [] {
      CountSplits(s[1..], p, notP);
    }
  }

  /** Filtering by a weaker predicate keeps at least as many elements. */
  lemma {:induction false} CountMonotone<T(!new)>(s: seq<T>, p: T -> bool, q: T -> bool)
    requires forall i :: 0 <= i < |s| ==> p(s[i]) ==> q(s[i])
    ensures Count(s, p) <= Count(s, q)
  {
    if s != [] {
      CountMonotone(s[1..], p, q);
    }
  }

  /** The indices of the elements satisfying `p`, in increasing order. */
  function IndicesWhere<T>(s: seq<T>, p: T -> bool): seq<nat> {
    if s == [] then []
    else IndicesWhere(s[..|s| - 1], p) + (if p(s[|s| - 1]) then [|s| - 1] else [])
  }

  /** An index is listed exactly when its element satisfies `p`. */
  lemma {:induction false} InIndicesWhere<T>(s: seq<T>, p: T -> bool, i: int)
    ensures i in IndicesWhere(s, p) <==> 0 <= i < |s| && p(s[i])
  {
    if s != [] {
      var n := |s| - 1;
      InIndicesWhere(s[..n], p, i);
      if 0 <= i < n {
        assert s[..n][i] == s[i];
      }
    }
  }

  /** The listed indices increase strictly, so they name the elements in
      their original order. */
  lemma {:induction false} IndicesWhereIncreasing<T>(s: seq<T>, p: T -> bool)
    ensures forall a, b :: 0 <= a < b < |IndicesWhere(s, p)| ==> IndicesWhere(s, p)[a] < IndicesWhere(s, p)[b]
  {
    if s != [] {
      var n := |s| - 1;
      var before := IndicesWhere(s[..n], p);
      var ix := IndicesWhere(s, p);
      IndicesWhereIncreasing(s[..n], p);
      assert ix == before + (if p(s[n]) then [n] else []);
      forall a, b | 0 <= a < b < |ix| ensures ix[a] < ix[b] {
        if b < |before| {
          assert ix[a] == before[a] && ix[b] == before[b];
          assert before[a] < before[b];
        } else {
          assert before[a] in before && ix[a] == before[a] && ix[b] == n;
          InIndicesWhere(s[..n], p, before[a]);
          assert before[a] < n;
        }
      }
    }
  }

  /** The filter keeps exactly the elements at the listed indices, one for
      each and in the same order. */
  lemma {:induction false} FilterAtIndices<T(!new)>(s: seq<T>, p: T -> bool)
    ensures var r, ix := Filter(s, p), IndicesWhere(s, p);
      |r| == |ix| && forall k :: 0 <= k < |r| ==> ix[k] < |s| && r[k] == s[ix[k]]
  {
    if s != [] {
      var n := |s| - 1;
      var init := s[..n];
      FilterAtIndices(init, p);
      assert s == init + [s[n]];
      FilterConcat(init, [s[n]], p);
      FilterCons(s[n], [], p);
      assert [s[n]] + [] == [s[n]];
    }
  }

  /** Two sequences of equal length whose tests agree position by position
      list the same indices. */
  lemma {:induction false} IndicesWhereCongruent<T, U>(s: seq<T>, p: T -> bool, t: seq<U>, q: U -> bool)
    requires |s| == |t| && forall i :: 0 <= i < |s| ==> p(s[i]) == q(t[i])
    ensures IndicesWhere(s, p) == IndicesWhere(t, q)
  {
    if s != [] {
      var n := |s| - 1;
      IndicesWhereCongruent(s[..n], p, t[..n], q);
    }
  }

  /** The sum of `f` over the elements of `s`. */
  function SumOf<T>(s: seq<T>, f: T -> nat): nat {
    if s == [] then 0 else f(s[0]) + SumOf(s[1..], f)
  }

  lemma {:induction false} SumOfAppend<T>(s: seq<T>, x: T, f: T -> nat)
    ensures SumOf(s + [x], f) == SumOf(s, f) + f(x)
  {
    if s != [] {
      assert (s + [x])[1..] == s[1..] + [x];
      SumOfAppend(s[1..], x, f);
    }
  }

  /** Summing over the elements kept by a weaker predicate gives at least
      as much. */
  lemma {:induction false} SumOfFilterMonotone<T(!new)>(s: seq<T>, p: T -> bool, q: T -> bool, f: T -> nat)
    requires forall i :: 0 <= i < |s| ==> p(s[i]) ==> q(s[i])
    ensures SumOf(Filter(s, p), f) <= SumOf(Filter(s, q), f)
  {
    if s != [] {
      SumOfFilterMonotone(s[1..], p, q, f);
      var fp, fq := Filter(s[1..], p), Filter(s[1..], q);
      if p(s[0]) {
        assert Filter(s, p) == [s[0]] + fp;
        SumOfCons(s[0], fp, f);
      } else {
        assert Filter(s, p) == fp;
      }
      if q(s[0]) {
        assert Filter(s, q) == [s[0]] + fq;
        SumOfCons(s[0], fq, f);
      } else {
        assert Filter(s, q) == fq;
      }
    }
  }

  /** A sum of terms each at most the matching term of another sum is at
      most that sum. */
  lemma {:induction false} SumOfPointwise<T>(s: seq<T>, f: T -> nat, g: T -> nat)
    requires forall i :: 0 <= i < |s| ==> f(s[i]) <= g(s[i])
    ensures SumOf(s, f) <= SumOf(s, g)
  {
    if s != [] {
      SumOfPointwise(s[1..], f, g);
    }
  }

  lemma SumOfCons<T>(x: T, s: seq<T>, f: T -> nat)
    ensures SumOf([x] + s, f) == f(x) + SumOf(s, f)
  {
    assert ([x] + s)[1..] == s;
  }
}
