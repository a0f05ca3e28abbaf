/** The JavaScript array operations the source composes (`filter`, the index
    list a filter-then-map produces, `reduce` with `||` and `&&`), as functions
    on sequences with the properties the rest of the model relies on. */
module Sequences {
  import opened Wrappers

  /** `s.filter(p)`: the elements of `s` that satisfy `p`, in their order in `s`. */
  function Filter<T>(s: seq<T>, p: T -> bool): (r: seq<T>)
    ensures |r| <= |s|
  {
    if |s| == 0 then [] else (if p(s[0]) then [s[0]] else []) + Filter(s[1..], p)
  }

  /** The filter keeps exactly the elements that pass: each element of the
      result is an element of `s` that passes, and each passing element of `s`
      is in the result. */
  lemma {:induction false} FilterMembers<T>(s: seq<T>, p: T -> bool)
    ensures forall i :: 0 <= i < |Filter(s, p)| ==> Filter(s, p)[i] in s && p(Filter(s, p)[i])
    ensures forall i :: 0 <= i < |s| && p(s[i]) ==> s[i] in Filter(s, p)
  {
    if |s| > 0 {
      FilterMembers(s[1..], p);
      var r, rest := Filter(s, p), Filter(s[1..], p);
      if p(s[0]) {
        assert r == [s[0]] + rest;
        forall i | 0 <= i < |r| ensures r[i] in s && p(r[i]) {
          if i > 0 {
            assert r[i] == rest[i - 1];
            assert rest[i - 1] in s[1..];
          }
        }
      } else {
        assert r == rest;
        forall i | 0 <= i < |r| ensures r[i] in s && p(r[i]) {
          assert r[i] in s[1..];
        }
      }
      forall i | 0 <= i < |s| && p(s[i]) ensures s[i] in r {
        if i > 0 {
          assert s[i] == s[1..][i - 1];
        }
      }
    }
  }

  /** Filtering distributes over concatenation. */
  lemma {:induction false} FilterAppend<T>(a: seq<T>, b: seq<T>, p: T -> bool)
    ensures Filter(a + b, p) == Filter(a, p) + Filter(b, p)
  {
    if |a| == 0 {
      assert a + b == b;
    } else {
      assert (a + b)[0] == a[0];
      assert (a + b)[1..] == a[1..] + b;
      FilterAppend(a[1..], b, p);
      var h := if p(a[0]) then [a[0]] else [];
      assert Filter(a + b, p) == h + Filter(a[1..] + b, p);
      assert Filter(a, p) == h + Filter(a[1..], p);
    }
  }

  /** A filter that every element passes changes nothing. */
  lemma {:induction false} FilterKeepsAll<T>(s: seq<T>, p: T -> bool)
    requires forall i :: 0 <= i < |s| ==> p(s[i])
    ensures Filter(s, p) == s
  {
    if |s| > 0 {
      FilterKeepsAll(s[1..], p);
    }
  }

  /** A filter that no element passes yields the empty sequence. */
  lemma {:induction false} FilterDropsAll<T>(s: seq<T>, p: T -> bool)
    requires forall i :: 0 <= i < |s| ==> !p(s[i])
    ensures Filter(s, p) == []
  {
    if |s| > 0 {
      FilterDropsAll(s[1..], p);
    }
  }

  /** Filtering twice by the same predicate is filtering once. */
  lemma FilterIdempotent<T>(s: seq<T>, p: T -> bool)
    ensures Filter(Filter(s, p), p) == Filter(s, p)
  {
    var f := Filter(s, p);
    FilterMembers(s, p);
    FilterKeepsAll(f, p);
  }

  /** Two filters in a row are one filter by the conjunction of their predicates. */
  lemma {:induction false} FilterFilter<T>(s: seq<T>, p: T -> bool, q: T -> bool, pq: T -> bool)
    requires forall x :: pq(x) == (p(x) && q(x))
    ensures Filter(Filter(s, p), q) == Filter(s, pq)
  {
    if |s| > 0 {
      FilterFilter(s[1..], p, q, pq);
      if p(s[0]) {
        assert Filter(s, p) == [s[0]] + Filter(s[1..], p);
        assert Filter(s, p)[1..] == Filter(s[1..], p);
      } else {
        assert Filter(s, p) == Filter(s[1..], p);
      }
    }
  }

  /** The indices from `from` on of the elements of `s` that satisfy `p`,
      ascending: what `s.filter(p).map(item => indexOf(item))` produces when
      `from` is 0. */
  function FilterIndices<T>(s: seq<T>, p: T -> bool, from: nat): (r: seq<nat>)
    requires from <= |s|
    decreases |s| - from
    ensures forall m :: 0 <= m < |r| ==> from <= r[m] < |s| && p(s[r[m]])
    ensures forall m, n :: 0 <= m < n < |r| ==> r[m] < r[n]
    ensures forall k :: from <= k < |s| && p(s[k]) ==> k in r
  {
    if from == |s| then []
    else
      var rest := FilterIndices(s, p, from + 1);
      if p(s[from]) then [from] + rest else rest
  }

  /** Between two consecutive entries `lo` and `hi` of `FilterIndices(s, p, 0)`
      (-1 and `|s|` at the ends) no element satisfies `p`. */
  lemma FilterIndicesGap<T>(s: seq<T>, p: T -> bool, j: nat, lo: int, hi: int)
    requires j <= |FilterIndices(s, p, 0)|
    requires if j > 0 then lo == FilterIndices(s, p, 0)[j - 1] else lo == -1
    requires if j < |FilterIndices(s, p, 0)| then hi == FilterIndices(s, p, 0)[j] else hi == |s|
    ensures forall k :: 0 <= k < |s| && lo < k < hi ==> !p(s[k])
  {
    AscendingAvoidsGap(FilterIndices(s, p, 0), j, lo, hi);
  }

  /** No entry of an ascending sequence lies strictly between two consecutive
      entries `lo` and `hi` (-1 and anything at least the last entry at the ends). */
  lemma AscendingAvoidsGap(idx: seq<nat>, j: nat, lo: int, hi: int)
    requires forall m, n :: 0 <= m < n < |idx| ==> idx[m] < idx[n]
    requires j <= |idx|
    requires if j > 0 then lo == idx[j - 1] else lo == -1
    requires j < |idx| ==> hi == idx[j]
    ensures forall n :: 0 <= n < |idx| ==> idx[n] <= lo || hi <= idx[n]
  {
    forall n | 0 <= n < |idx| ensures idx[n] <= lo || hi <= idx[n] {
      if n < j {
        assert idx[n] <= idx[j - 1];
      } else {
        assert idx[j] <= idx[n];
      }
    }
  }

  /** Filtering from a failing element at `q` up to `hi`, before which every
      element passes: the failing one goes, the passing ones stay. */
  lemma {:induction false} FilterAcrossGap<T>(s: seq<T>, p: T -> bool, q: nat, hi: nat)
    requires q < hi <= |s|
    requires !p(s[q])
    requires forall k :: q < k < hi ==> p(s[k])
    ensures Filter(s[q..], p) == s[q + 1..hi] + Filter(s[hi..], p)
  {
    var gap := s[q + 1..hi];
    assert s[q..] == [s[q]] + (gap + s[hi..]);
    FilterAppend([s[q]], gap + s[hi..], p);
    FilterAppend(gap, s[hi..], p);
    assert forall i :: 0 <= i < |gap| ==> gap[i] == s[q + 1 + i];
    FilterKeepsAll(gap, p);
    assert Filter([s[q]], p) == [];
  }

  /** In a sequence filtered from `hi` on, removing a failing element at `q`
      before `hi`, with only passing elements between them, moves the
      filtered part's start down to `q`. */
  lemma RemoveBeforeFiltered<T>(s: seq<T>, p: T -> bool, q: nat, hi: nat)
    requires q < hi <= |s|
    requires !p(s[q])
    requires forall k :: q < k < hi ==> p(s[k])
    ensures var cur := s[..hi] + Filter(s[hi..], p);
      q < |cur| && cur[..q] + cur[q + 1..] == s[..q] + Filter(s[q..], p)
  {
    FilterAcrossGap(s, p, q, hi);
    var tail := Filter(s[hi..], p);
    var cur := s[..hi] + tail;
    assert cur[..q] == s[..q];
    assert cur[q + 1..] == s[q + 1..hi] + tail;
  }

  /** When every element before `hi` passes, keeping them and filtering the
      rest is filtering the whole. */
  lemma FilterAfterPassingPrefix<T>(s: seq<T>, p: T -> bool, hi: nat)
    requires hi <= |s|
    requires forall k :: 0 <= k < hi ==> p(s[k])
    ensures s[..hi] + Filter(s[hi..], p) == Filter(s, p)
  {
    FilterKeepsAll(s[..hi], p);
    FilterAppend(s[..hi], s[hi..], p);
    assert s[..hi] + s[hi..] == s;
  }

  /** One step of deleting, from the back, the elements at the indices
      `FilterIndices(s, p, 0)`: when everything from `hi` on is already
      filtered by `q`, the negation of `p`, deleting the element at the
      index before `hi` moves the filtered part's start down to that index. */
  lemma DeleteIndexBefore<T>(s: seq<T>, p: T -> bool, q: T -> bool, j: nat, hi: nat)
    requires forall x :: q(x) == !p(x)
    requires 0 < j <= |FilterIndices(s, p, 0)|
    requires if j < |FilterIndices(s, p, 0)| then hi == FilterIndices(s, p, 0)[j] else hi == |s|
    ensures var lo := FilterIndices(s, p, 0)[j - 1];
      var cur := s[..hi] + Filter(s[hi..], q);
      lo < hi <= |s| && lo < |cur| && cur[..lo] + cur[lo + 1..] == s[..lo] + Filter(s[lo..], q)
  {
    var idx := FilterIndices(s, p, 0);
    var lo := idx[j - 1];
    FilterIndicesGap(s, p, j, lo, hi);
    RemoveBeforeFiltered(s, q, lo, hi);
  }

  /** Once every index of `FilterIndices(s, p, 0)` has been deleted, what is
      left is the filter of `s` by `q`, the negation of `p`. */
  lemma DeletedAllIndices<T>(s: seq<T>, p: T -> bool, q: T -> bool, hi: nat)
    requires forall x :: q(x) == !p(x)
    requires if 0 < |FilterIndices(s, p, 0)| then hi == FilterIndices(s, p, 0)[0] else hi == |s|
    ensures hi <= |s| && s[..hi] + Filter(s[hi..], q) == Filter(s, q)
  {
    FilterIndicesGap(s, p, 0, -1, hi);
    FilterAfterPassingPrefix(s, q, hi);
  }

  /** Element `m` of `Filter(s[from..], p)` is the element of `s` at index `m`
      of `FilterIndices(s, p, from)`: the filter keeps exactly the elements at
      those indices, in ascending order of index. */
  lemma {:induction false} FilterAtIndices<T>(s: seq<T>, p: T -> bool, from: nat)
    requires from <= |s|
    decreases |s| - from
    ensures |Filter(s[from..], p)| == |FilterIndices(s, p, from)|
    ensures forall m :: 0 <= m < |FilterIndices(s, p, from)| ==>
      Filter(s[from..], p)[m] == s[FilterIndices(s, p, from)[m]]
  {
    if from < |s| {
      FilterAtIndices(s, p, from + 1);
      var f, r := Filter(s[from..], p), FilterIndices(s, p, from);
      var f', r' := Filter(s[from + 1..], p), FilterIndices(s, p, from + 1);
      assert s[from..][1..] == s[from + 1..];
      assert f == (if p(s[from]) then [s[from]] else []) + f';
      if p(s[from]) {
        assert r == [from] + r';
        forall m | 0 <= m < |r| ensures f[m] == s[r[m]] {
          if m > 0 {
            assert f[m] == f'[m - 1] && r[m] == r'[m - 1];
          }
        }
      } else {
        assert f == f' && r == r';
      }
    }
  }

  /** The present values of a sequence of options, in order: the
      `filter((x): x is T => x != null)` idiom. */
  function Present<T>(s: seq<Option<T>>): (r: seq<T>)
    ensures forall i :: 0 <= i < |r| ==> Some(r[i]) in s
    ensures forall i :: 0 <= i < |s| && s[i].Some? ==> s[i].value in r
  {
    if |s| == 0 then []
    else (if s[0].Some? then [s[0].value] else []) + Present(s[1..])
  }

  /** Dropping absent values distributes over concatenation. */
  lemma {:induction false} PresentAppend<T>(a: seq<Option<T>>, b: seq<Option<T>>)
    ensures Present(a + b) == Present(a) + Present(b)
  {
    if |a| == 0 {
      assert a + b == b;
    } else {
      assert (a + b)[1..] == a[1..] + b;
      PresentAppend(a[1..], b);
    }
  }

  /** `bs.reduce((a, b) => a || b, false)`, folded from the left. */
  function OrFold(bs: seq<bool>): (r: bool)
    ensures r <==> exists i :: 0 <= i < |bs| && bs[i]
  {
    if |bs| == 0 then false
    else
      var init := bs[..|bs| - 1];
      assert forall i :: 0 <= i < |init| ==> init[i] == bs[i];
      OrFold(init) || bs[|bs| - 1]
  }

  /** `bs.reduce((a, b) => a && b, true)`, folded from the left. */
  function AndFold(bs: seq<bool>): (r: bool)
    ensures r <==> forall i :: 0 <= i < |bs| ==> bs[i]
  {
    if |bs| == 0 then true
    else
      var init := bs[..|bs| - 1];
      assert forall i :: 0 <= i < |init| ==> init[i] == bs[i];
      AndFold(init) && bs[|bs| - 1]
  }
}
