/** Order-preserving filtering of sequences (LINQ's `Where(...).ToList()`),
    with the facts the callers need about it. */
module Lists {

  /** The elements of `xs` satisfying `keep`, in their original order. The contract
      gives membership; multiplicity is `FilterMultiplicity`, and the order is pinned
      down by `FilterConcat`, `FilterKeepsAll` and `FilterKeepsNone` together. */
  function Filter<T>(xs: seq<T>, keep: T -> bool): (r: seq<T>)
    ensures |r| <= |xs|
    ensures forall i :: 0 <= i < |r| ==> keep(r[i]) && r[i] in xs
    ensures forall i :: 0 <= i < |xs| && keep(xs[i]) ==> xs[i] in r
  {
    if |xs| == 0 then []
    else (if keep(xs[0]) then [xs[0]] else []) + Filter(xs[1..], keep)
  }

  /** Filtering never repeats an element: every element occurs in the result at most
      as often as in `xs`, and every kept element exactly as often. */
  lemma {:induction false} FilterMultiplicity<T>(xs: seq<T>, keep: T -> bool, x: T)
    ensures multiset(Filter(xs, keep))[x] == if keep(x) then multiset(xs)[x] else 0
    decreases |xs|
  {
    if |xs| > 0 {
      FilterMultiplicity(xs[1..], keep, x);
      assert xs == [xs[0]] + xs[1..];
      assert multiset(xs) == multiset([xs[0]]) + multiset(xs[1..]);
    }
  }

  /** Filtering distributes over concatenation. */
  lemma {:induction false} FilterConcat<T>(a: seq<T>, b: seq<T>, keep: T -> bool)
    ensures Filter(a + b, keep) == Filter(a, keep) + Filter(b, keep)
    decreases |a|
  {
    if |a| > 0 {
      var head := if keep(a[0]) then [a[0]] else [];
      assert (a + b)[0] == a[0];
      assert (a + b)[1..] == a[1..] + b;
      FilterConcat(a[1..], b, keep);
      calc {
        Filter(a + b, keep);
        head + Filter(a[1..] + b, keep);
        head + (Filter(a[1..], keep) + Filter(b, keep));
        (head + Filter(a[1..], keep)) + Filter(b, keep);
        Filter(a, keep) + Filter(b, keep);
      }
    } else {
      assert a + b == b;
    }
  }

  /** Filtering a sequence all of whose elements are kept changes nothing. */
  lemma {:induction false} FilterKeepsAll<T>(xs: seq<T>, keep: T -> bool)
    requires forall i :: 0 <= i < |xs| ==> keep(xs[i])
    ensures Filter(xs, keep) == xs
    decreases |xs|
  {
    if |xs| > 0 {
      FilterKeepsAll(xs[1..], keep);
    }
  }

  /** Filtering a sequence none of whose elements is kept gives the empty sequence. */
  lemma {:induction false} FilterKeepsNone<T>(xs: seq<T>, keep: T -> bool)
    requires forall i :: 0 <= i < |xs| ==> !keep(xs[i])
    ensures Filter(xs, keep) == []
    decreases |xs|
  {
    if |xs| > 0 {
      FilterKeepsNone(xs[1..], keep);
    }
  }

  /** Two tests that agree on every element of `xs` filter it alike. */
  lemma {:induction false} FilterAgree<T>(xs: seq<T>, f: T -> bool, g: T -> bool)
    requires forall i :: 0 <= i < |xs| ==> f(xs[i]) == g(xs[i])
    ensures Filter(xs, f) == Filter(xs, g)
    decreases |xs|
  {
    if |xs| > 0 {
      FilterAgree(xs[1..], f, g);
    }
  }

  /** How many elements are kept, with the first one split off. */
  lemma FilterLengthCons<T>(xs: seq<T>, keep: T -> bool)
    requires |xs| > 0
    ensures |Filter(xs, keep)| == (if keep(xs[0]) then 1 else 0) + |Filter(xs[1..], keep)|
  {
  }

  /** Filtering with the last element split off. */
  lemma FilterSnoc<T>(xs: seq<T>, x: T, keep: T -> bool)
    ensures Filter(xs + [x], keep) == Filter(xs, keep) + (if keep(x) then [x] else [])
  {
    FilterConcat(xs, [x], keep);
    assert Filter([x], keep) == (if keep(x) then [x] else []) + Filter([x][1..], keep);
  }

  /** Filtering twice is filtering once with the conjunction of the two tests. */
  lemma {:induction false} FilterFilter<T>(xs: seq<T>, f: T -> bool, g: T -> bool, both: T -> bool)
    requires forall i :: 0 <= i < |xs| ==> both(xs[i]) == (f(xs[i]) && g(xs[i]))
    ensures Filter(Filter(xs, f), g) == Filter(xs, both)
    decreases |xs|
  {
    if |xs| > 0 {
      var head := if f(xs[0]) then [xs[0]] else [];
      FilterFilter(xs[1..], f, g, both);
      FilterConcat(head, Filter(xs[1..], f), g);
      assert Filter(head, g) == (if both(xs[0]) then [xs[0]] else []) by {
        if f(xs[0]) {
          assert Filter(head, g) == (if g(xs[0]) then [xs[0]] else []) + Filter(head[1..], g);
        }
      }
    }
  }

  /** No two elements of `xs` share a key. */
  predicate DistinctKeys<T, K(==)>(xs: seq<T>, key: T -> K) {
    forall i, j :: 0 <= i < j < |xs| ==> key(xs[i]) != key(xs[j])
  }

  /** Appending an element whose key is new keeps keys distinct. */
  lemma DistinctKeysSnoc<T, K>(xs: seq<T>, x: T, key: T -> K)
    requires DistinctKeys(xs, key)
    requires forall i :: 0 <= i < |xs| ==> key(xs[i]) != key(x)
    ensures DistinctKeys(xs + [x], key)
  {
    var ys := xs + [x];
    forall i, j | 0 <= i < j < |ys| ensures key(ys[i]) != key(ys[j]) {
      assert ys[i] == xs[i];
      if j < |xs| {
        assert ys[j] == xs[j];
      }
    }
  }

  /** Filtering keeps keys distinct: the result is a subsequence. */
  lemma {:induction false} FilterDistinctKeys<T, K>(xs: seq<T>, keep: T -> bool, key: T -> K)
    requires DistinctKeys(xs, key)
    ensures DistinctKeys(Filter(xs, keep), key)
    decreases |xs|
  {
    if |xs| > 0 {
      var rest := xs[1..];
      assert DistinctKeys(rest, key) by {
        forall i, j | 0 <= i < j < |rest| ensures key(rest[i]) != key(rest[j]) {
          assert rest[i] == xs[i + 1] && rest[j] == xs[j + 1];
        }
      }
      FilterDistinctKeys(rest, keep, key);
      var fr := Filter(rest, keep);
      forall i | 0 <= i < |fr| ensures key(fr[i]) != key(xs[0]) {
        var k :| 0 <= k < |rest| && rest[k] == fr[i];
        assert rest[k] == xs[k + 1];
      }
    }
  }

  /** Filtering out exactly one position cuts that position out. */
  lemma {:induction false} FilterCut<T>(xs: seq<T>, m: nat, keep: T -> bool)
    requires m < |xs| && !keep(xs[m])
    requires forall i :: 0 <= i < |xs| && i != m ==> keep(xs[i])
    ensures Filter(xs, keep) == xs[..m] + xs[m + 1..]
    decreases m
  {
    var rest := xs[1..];
    if m == 0 {
      KeepAllAfter(xs, keep);
      assert xs[..m] + xs[m + 1..] == rest;
    } else {
      FilterCutStep(xs, m, keep);
      FilterCut(rest, m - 1, keep);
      CutOfTail(xs, m);
    }
  }

  /** Cutting position `m` of `xs` is keeping the head and cutting position `m - 1`
      of the tail. */
  lemma CutOfTail<T>(xs: seq<T>, m: nat)
    requires 0 < m < |xs|
    ensures [xs[0]] + (xs[1..][..m - 1] + xs[1..][m..]) == xs[..m] + xs[m + 1..]
  {
    assert xs[..m] == [xs[0]] + xs[1..][..m - 1];
    assert xs[m + 1..] == xs[1..][m..];
  }

  /** When every element after the first is kept and the first is not, the filter
      is the tail. */
  lemma KeepAllAfter<T>(xs: seq<T>, keep: T -> bool)
    requires |xs| > 0 && !keep(xs[0])
    requires forall i :: 0 < i < |xs| ==> keep(xs[i])
    ensures Filter(xs, keep) == xs[1..]
  {
    var rest := xs[1..];
    assert forall j :: 0 <= j < |rest| ==> rest[j] == xs[j + 1];
    FilterKeepsAll(rest, keep);
  }

  /** One step of `FilterCut`: a kept head stays in front, and the tail meets the
      lemma's requirements one position earlier. */
  lemma FilterCutStep<T>(xs: seq<T>, m: nat, keep: T -> bool)
    requires 0 < m < |xs| && !keep(xs[m])
    requires forall i :: 0 <= i < |xs| && i != m ==> keep(xs[i])
    ensures Filter(xs, keep) == [xs[0]] + Filter(xs[1..], keep)
    ensures !keep(xs[1..][m - 1])
    ensures forall i :: 0 <= i < |xs[1..]| && i != m - 1 ==> keep(xs[1..][i])
  {
    assert keep(xs[0]);
  }
}
