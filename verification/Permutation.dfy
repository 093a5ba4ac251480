/** Reordering an array in place along an index array, by walking the cycles of the indices.  */
module Permutation {

  /** Every index is in range and none occurs twice. */
  ghost predicate IsPermutation(p: seq<int>) {
    && (forall i | 0 <= i < |p| :: 0 <= p[i] < |p|)
    && (forall i, j | 0 <= i < j < |p| :: p[i] != p[j])
  }

  function Range(n: nat): (s: set<int>)
    ensures forall i :: i in s <==> 0 <= i < n
  {
    if n == 0 then {} else Range(n - 1) + {n - 1}
  }

  lemma {:induction false} RangeSize(n: nat)
    ensures |Range(n)| == n
  {
    if n > 0 {
      RangeSize(n - 1);
    }
  }

  lemma SubsetOfRange(s: set<int>, n: nat)
    requires s <= Range(n)
    ensures |s| <= n && (|s| == n ==> s == Range(n))
  {
    RangeSize(n);
    SubsetSize(s, Range(n));
  }

  lemma SubsetSize(s: set<int>, t: set<int>)
    requires s <= t
    ensures |s| <= |t| && (|s| == |t| ==> s == t)
  {
    assert t == s + (t - s);
    assert |t| == |s| + |t - s|;
  }

  function Image(p: seq<int>, n: nat): set<int>
    requires n <= |p|
  {
    set i | 0 <= i < n :: p[i]
  }

  lemma {:induction false} ImageSize(p: seq<int>, n: nat)
    requires n <= |p| && forall i, j | 0 <= i < j < |p| :: p[i] != p[j]
    ensures |Image(p, n)| == n
  {
    if n > 0 {
      ImageSize(p, n - 1);
      assert Image(p, n) == Image(p, n - 1) + {p[n - 1]};
    }
  }

  /** A permutation reaches every index. */
  lemma Reaches(p: seq<int>, k: int)
    requires IsPermutation(p) && 0 <= k < |p|
    ensures exists i :: 0 <= i < |p| && p[i] == k
  {
    ImageSize(p, |p|);
    assert Image(p, |p|) <= Range(|p|);
    SubsetOfRange(Image(p, |p|), |p|);
    assert k in Image(p, |p|);
  }

  ghost function PositionOf(p: seq<int>, k: int): (i: int)
    requires IsPermutation(p) && 0 <= k < |p|
    ensures 0 <= i < |p| && p[i] == k
  {
    Reaches(p, k);
    var i :| 0 <= i < |p| && p[i] == k;
    i
  }

  ghost predicate IsInverse(p: seq<int>, back: seq<int>) {
    && |back| == |p|
    && (forall k | 0 <= k < |p| :: 0 <= p[k] < |p| && back[p[k]] == k)
    && (forall k | 0 <= k < |p| :: 0 <= back[k] < |p| && p[back[k]] == k)
  }

  ghost function InverseOf(p: seq<int>): (back: seq<int>)
    requires IsPermutation(p)
    ensures IsInverse(p, back)
  {
    var back := seq(|p|, k requires 0 <= k < |p| => PositionOf(p, k));
    assert forall k | 0 <= k < |p| :: back[p[k]] == k;
    back
  }

  /** Item k becomes the item that p names at k. */
  function Gather<T>(items: seq<T>, p: seq<int>): (r: seq<T>)
    requires |items| == |p| && IsPermutation(p)
    ensures |r| == |p| && forall k | 0 <= k < |p| :: r[k] == items[p[k]]
  {
    seq(|p|, k requires 0 <= k < |p| => items[p[k]])
  }

  /** Item k moves to the position that p names at k. */
  ghost predicate IsScatter<T>(items: seq<T>, p: seq<int>, r: seq<T>) {
    |items| == |p| == |r| && IsPermutation(p) && forall k | 0 <= k < |p| :: r[p[k]] == items[k]
  }

  function Swapped<T>(s: seq<T>, i: int, j: int): (r: seq<T>)
    requires 0 <= i < |s| && 0 <= j < |s|
    ensures |r| == |s|
  {
    s[i := s[j]][j := s[i]]
  }

  method Swap<T>(a: array<T>, i: int, j: int)
    requires 0 <= i < a.Length && 0 <= j < a.Length
    modifies a
    ensures a[..] == Swapped(old(a[..]), i, j)
  {
    a[i], a[j] := a[j], a[i];
  }

  ghost predicate IsIdentity(p: seq<int>) {
    forall k | 0 <= k < |p| :: p[k] == k
  }

  lemma ScatterUnique<T>(items: seq<T>, p: seq<int>, r: seq<T>, s: seq<T>)
    requires IsScatter(items, p, r) && IsScatter(items, p, s)
    ensures r == s
  {
    forall k | 0 <= k < |p| ensures r[k] == s[k] {
      Reaches(p, k);
    }
  }

  /** Gathering and then scattering along the same indices restores the items... */
  lemma ScatterUndoesGather<T>(items: seq<T>, p: seq<int>, r: seq<T>)
    requires |items| == |p| && IsPermutation(p) && IsScatter(Gather(items, p), p, r)
    ensures r == items
  {
    assert IsScatter(Gather(items, p), p, items);
    ScatterUnique(Gather(items, p), p, r, items);
  }

  /** ... and so does scattering first. */
  lemma GatherUndoesScatter<T>(items: seq<T>, p: seq<int>, r: seq<T>)
    requires IsScatter(items, p, r)
    ensures Gather(r, p) == items
  {
  }

  // ---------- apply_permutation ----------

  /** Positions in done have their final item and index; the others are as at the start, except
      that position cur carries the item that was at i. */
  ghost predicate Walking<T>(items: seq<T>, ind: seq<int>, items0: seq<T>, p: seq<int>, done: set<int>, i: int, cur: int) {
    && |items| == |ind| == |items0| == |p|
    && (forall k | 0 <= k < |p| :: 0 <= p[k] < |p|)
    && (forall k | 0 <= k < |p| && k in done :: ind[k] == k && items[k] == items0[p[k]])
    && (forall k | 0 <= k < |p| && k !in done :: ind[k] == p[k])
    && (forall k | 0 <= k < |p| && k !in done && k != cur :: items[k] == items0[k])
    && (0 <= i < |p| && 0 <= cur < |p| ==> items[cur] == items0[i])
  }

  /** Between walks the finished positions make up whole cycles. */
  ghost predicate Closed(p: seq<int>, back: seq<int>, done: set<int>) {
    && IsInverse(p, back) && done <= Range(|p|)
    && forall k | k in done :: p[k] in done && back[k] in done
  }

  /** During the walk from i, only the step into cur leaves the finished positions, and only the
      step into i enters them. */
  ghost predicate Open(p: seq<int>, back: seq<int>, done: set<int>, i: int, cur: int) {
    && IsInverse(p, back) && done <= Range(|p|)
    && 0 <= i < |p| && 0 <= cur < |p| && cur !in done
    && (forall k | k in done :: p[k] in done || p[k] == cur)
    && (forall k | k in done :: back[k] in done || k == i)
    && (cur != i ==> i in done && back[cur] in done)
  }

  lemma OpenStep(p: seq<int>, back: seq<int>, done: set<int>, i: int, cur: int)
    requires Open(p, back, done, i, cur) && p[cur] != i
    ensures p[cur] != cur && Open(p, back, done + {cur}, i, p[cur])
  {
    assert back[p[cur]] == cur;
  }

  lemma OpenEnd(p: seq<int>, back: seq<int>, done: set<int>, i: int, cur: int)
    requires Open(p, back, done, i, cur) && p[cur] == i
    ensures Closed(p, back, done + {cur})
  {
    assert back[i] == cur;
  }

  /** One turn of the inner loop: swap the items, fix the index and move on along the cycle. */
  lemma WalkStep<T>(items: seq<T>, ind: seq<int>, items0: seq<T>, p: seq<int>, back: seq<int>,
                    done: set<int>, i: int, cur: int)
    requires Walking(items, ind, items0, p, done, i, cur) && Open(p, back, done, i, cur) && ind[cur] != i
    ensures 0 <= ind[cur] < |p| && ind[cur] != cur
    ensures Walking(Swapped(items, cur, ind[cur]), ind[cur := cur], items0, p, done + {cur}, i, ind[cur])
    ensures Open(p, back, done + {cur}, i, ind[cur])
    ensures |done| < |done + {cur}| <= |p|
  {
    hide Swapped;
    OpenStep(p, back, done, i, cur);
    WalkMoves(items, ind, items0, p, done, i, cur);
    SubsetOfRange(done + {cur}, |p|);
  }

  lemma WalkMoves<T>(items: seq<T>, ind: seq<int>, items0: seq<T>, p: seq<int>, done: set<int>, i: int, cur: int)
    requires Walking(items, ind, items0, p, done, i, cur) && 0 <= i < |p| && 0 <= cur < |p|
    requires cur !in done && p[cur] !in done && p[cur] != cur
    ensures ind[cur] == p[cur]
    ensures Walking(Swapped(items, cur, p[cur]), ind[cur := cur], items0, p, done + {cur}, i, p[cur])
  {
  }

  /** The end of a walk, or a position that an earlier walk has already finished. */
  lemma WalkEnd<T>(items: seq<T>, ind: seq<int>, items0: seq<T>, p: seq<int>, back: seq<int>,
                   done: set<int>, i: int, cur: int, finished: bool)
    requires Walk(items, ind, items0, p, back, done, i, cur, finished) && ind[cur] == i
    ensures Walking(items, ind[cur := cur], items0, p, done + {cur}, -1, -1)
    ensures Closed(p, back, done + {cur}) && i in done + {cur}
  {
    if finished {
      assert done + {cur} == done;
      assert ind[cur := cur] == ind;
    } else {
      OpenEnd(p, back, done, i, cur);
      LastMove(items, ind, items0, p, done, i, cur);
    }
  }

  lemma LastMove<T>(items: seq<T>, ind: seq<int>, items0: seq<T>, p: seq<int>, done: set<int>, i: int, cur: int)
    requires Walking(items, ind, items0, p, done, i, cur) && 0 <= i < |p| && 0 <= cur < |p| && p[cur] == i
    ensures Walking(items, ind[cur := cur], items0, p, done + {cur}, -1, -1)
  {
  }

  lemma ClosedSize(p: seq<int>, back: seq<int>, done: set<int>, cur: int)
    requires Closed(p, back, done + {cur})
    ensures |done| <= |done + {cur}| <= |p|
  {
    SubsetSize(done, done + {cur});
    SubsetOfRange(done + {cur}, |p|);
  }

  ghost predicate Walk<T>(items: seq<T>, ind: seq<int>, items0: seq<T>, p: seq<int>, back: seq<int>,
                          done: set<int>, i: int, cur: int, finished: bool) {
    && 0 <= cur < |p| && 0 <= i < |p|
    && if finished then
         cur == i && i in done && Walking(items, ind, items0, p, done, -1, -1) && Closed(p, back, done)
       else
         Walking(items, ind, items0, p, done, i, cur) && Open(p, back, done, i, cur)
  }

  lemma WalkStart<T>(items: seq<T>, ind: seq<int>, items0: seq<T>, p: seq<int>, back: seq<int>, done: set<int>, i: int)
    requires Walking(items, ind, items0, p, done, -1, -1) && Closed(p, back, done) && 0 <= i < |p|
    ensures Walk(items, ind, items0, p, back, done, i, i, i in done)
    ensures i in done ==> ind[i] == i
  {
  }

  lemma WalkAll<T>(items: seq<T>, ind: seq<int>, items0: seq<T>, p: seq<int>, done: set<int>)
    requires Walking(items, ind, items0, p, done, -1, -1) && Range(|p|) <= done && IsPermutation(p)
    ensures items == Gather(items0, p) && IsIdentity(ind)
  {
  }

  method ApplyPermutation<T>(items: array<T>, ind: array<int>) returns (ghost swaps: nat)
    requires items.Length == ind.Length && items as object != ind && IsPermutation(ind[..])
    modifies items, ind
    ensures items[..] == Gather(old(items[..]), old(ind[..]))
    ensures IsIdentity(ind[..])
    ensures swaps <= items.Length
  {
    hide *;
    ghost var p, items0 := ind[..], items[..];
    ghost var back := InverseOf(p);
    ghost var done: set<int> := {};
    var size := items.Length;
    swaps := 0;
    AtStart(items0, p, back);
    for i := 0 to size
      invariant Walking(items[..], ind[..], items0, p, done, -1, -1) && Closed(p, back, done)
      invariant Range(i) <= done && swaps <= |done| <= size
    {
      var current := i;
      ghost var finished := i in done;
      WalkStart(items[..], ind[..], items0, p, back, done, i);
      while i != ind[current]
        invariant 0 <= current < size && Range(i) <= done && swaps <= |done| <= size
        invariant finished ==> ind[current] == i
        invariant Walk(items[..], ind[..], items0, p, back, done, i, current, finished)
        decreases size - |done|
      {
        var next := ind[current];
        ghost var xs, ps := items[..], ind[..];
        Unfinished(xs, ps, items0, p, back, done, i, current);
        WalkStep(xs, ps, items0, p, back, done, i, current);
        Swap(items, current, next);
        swaps := swaps + 1;
        ind[current] := current;
        assert ind[..] == ps[current := current];
        done := done + {current};
        current := next;
        Unfinished(items[..], ind[..], items0, p, back, done, i, current);
      }
      ghost var ps := ind[..];
      WalkEnd(items[..], ps, items0, p, back, done, i, current, finished);
      ClosedSize(p, back, done, current);
      ind[current] := current;
      assert ind[..] == ps[current := current];
      done := done + {current};
      RangeNext(i);
    }
    WalkAll(items[..], ind[..], items0, p, done);
  }

  lemma AtStart<T>(items: seq<T>, p: seq<int>, back: seq<int>)
    requires |items| == |p| && IsPermutation(p) && IsInverse(p, back)
    ensures Walking(items, p, items, p, {}, -1, -1) && Closed(p, back, {}) && Range(0) == {}
  {
  }

  lemma Unfinished<T>(items: seq<T>, ind: seq<int>, items0: seq<T>, p: seq<int>, back: seq<int>,
                      done: set<int>, i: int, cur: int)
    requires 0 <= i < |p| && 0 <= cur < |p|
    ensures Walk(items, ind, items0, p, back, done, i, cur, false)
        <==> Walking(items, ind, items0, p, done, i, cur) && Open(p, back, done, i, cur)
  {
  }

  lemma RangeNext(i: nat)
    ensures Range(i + 1) == Range(i) + {i}
  {
  }

  // ---------- apply_reverse_permutation ----------

  function Moved(ind: seq<int>): set<int> {
    set k | 0 <= k < |ind| && ind[k] != k
  }

  /** Swapping position i with the one that its index names puts that index in place. */
  lemma SwapFixes(ind: seq<int>, i: int)
    requires IsPermutation(ind) && 0 <= i < |ind| && ind[i] != i
    ensures IsPermutation(Swapped(ind, i, ind[i]))
    ensures |Moved(Swapped(ind, i, ind[i]))| < |Moved(ind)|
    ensures forall k | 0 <= k < |ind| && ind[k] == k :: Swapped(ind, i, ind[i])[k] == k
  {
    var next := ind[i];
    var ind' := Swapped(ind, i, next);
    assert ind'[next] == next;
    assert ind[next] != next;
    assert next in Moved(ind) && next !in Moved(ind');
    forall k | k in Moved(ind') ensures k in Moved(ind) {
    }
    assert Moved(ind') <= Moved(ind) - {next};
    SubsetSize(Moved(ind'), Moved(ind) - {next});
  }

  /** Items and indices travel together: each item is still beside the position it must reach. */
  ghost predicate Paired<T>(items: seq<T>, ind: seq<int>, items0: seq<T>, p: seq<int>, back: seq<int>) {
    && |items| == |ind| == |items0| == |p| && IsPermutation(ind) && IsInverse(p, back)
    && forall k | 0 <= k < |p| :: items[k] == items0[back[ind[k]]]
  }

  lemma SwapKeepsPaired<T>(items: seq<T>, ind: seq<int>, items0: seq<T>, p: seq<int>, back: seq<int>, i: int)
    requires Paired(items, ind, items0, p, back) && 0 <= i < |p| && ind[i] != i
    ensures 0 <= ind[i] < |p| && Paired(Swapped(items, i, ind[i]), Swapped(ind, i, ind[i]), items0, p, back)
    ensures |Moved(Swapped(ind, i, ind[i]))| < |Moved(ind)|
    ensures forall k | 0 <= k < |ind| && ind[k] == k :: Swapped(ind, i, ind[i])[k] == k
  {
    SwapFixes(ind, i);
  }

  lemma PairedAtStart<T>(items: seq<T>, p: seq<int>, back: seq<int>)
    requires |items| == |p| && IsPermutation(p) && IsInverse(p, back)
    ensures Paired(items, p, items, p, back)
  {
  }

  lemma PairedAtEnd<T>(items: seq<T>, ind: seq<int>, items0: seq<T>, p: seq<int>, back: seq<int>)
    requires Paired(items, ind, items0, p, back) && IsPermutation(p) && forall k | 0 <= k < |p| :: ind[k] == k
    ensures IsScatter(items0, p, items) && IsIdentity(ind)
  {
    assert forall k | 0 <= k < |p| :: items[p[k]] == items0[back[ind[p[k]]]];
  }

  lemma MovedWithin(ind: seq<int>)
    ensures |Moved(ind)| <= |ind|
  {
    SubsetOfRange(Moved(ind), |ind|);
  }

  method ApplyReversePermutation<T>(items: array<T>, ind: array<int>) returns (ghost swaps: nat)
    requires items.Length == ind.Length && items as object != ind && IsPermutation(ind[..])
    modifies items, ind
    ensures IsScatter(old(items[..]), old(ind[..]), items[..])
    ensures IsIdentity(ind[..])
    ensures swaps <= items.Length
  {
    hide *;
    ghost var p, items0 := ind[..], items[..];
    ghost var back := InverseOf(p);
    var length := items.Length;
    swaps := 0;
    MovedWithin(p);
    PairedAtStart(items0, p, back);
    for i := 0 to length
      invariant Paired(items[..], ind[..], items0, p, back)
      invariant forall k | 0 <= k < i :: ind[..][k] == k
      invariant swaps + |Moved(ind[..])| <= length
    {
      while i != ind[i]
        invariant Paired(items[..], ind[..], items0, p, back)
        invariant forall k | 0 <= k < i :: ind[..][k] == k
        invariant swaps + |Moved(ind[..])| <= length
        decreases |Moved(ind[..])|
      {
        var next := ind[i];
        SwapKeepsPaired(items[..], ind[..], items0, p, back, i);
        Swap(items, i, next);
        swaps := swaps + 1;
        Swap(ind, i, next);
      }
    }
    PairedAtEnd(items[..], ind[..], items0, p, back);
  }

  /** The two functions, run one after the other on copies of the same indices, restore the items. */
  method ApplyThenReverse<T>(items: array<T>, ind: array<int>, copy: array<int>)
    requires items.Length == ind.Length == copy.Length && ind != copy && items as object != ind && items as object != copy
    requires IsPermutation(ind[..]) && ind[..] == copy[..]
    modifies items, ind, copy
    ensures items[..] == old(items[..])
  {
    ghost var items0, p := items[..], ind[..];
    ghost var there := ApplyPermutation(items, ind);
    ghost var back := ApplyReversePermutation(items, copy);
    ScatterUndoesGather(items0, p, items[..]);
  }
}
