/** Minimum and maximum in one pass over pairs, against the two simple scans.

    A position is an index into the sequence; the length of the sequence stands for the past-the-end
    iterator, which every function returns for an empty range.  */
module MinMax {

  /** What the comparison object has to be. */
  ghost predicate StrictWeakOrder<T(!new)>(less: (T, T) -> bool) {
    && (forall x :: !less(x, x))
    && (forall x, y, z :: less(x, y) && less(y, z) ==> less(x, z))
    && (forall x, y, z :: !less(x, y) && !less(y, x) && !less(y, z) && !less(z, y) ==> !less(x, z) && !less(z, x))
  }

  /** The form in which the order is used: "not less" is transitive, and less passes through it. */
  lemma Passes<T(!new)>(less: (T, T) -> bool, x: T, y: T, z: T)
    requires StrictWeakOrder(less)
    ensures !less(y, x) && !less(z, y) ==> !less(z, x)
    ensures less(x, y) && !less(z, y) ==> less(x, z)
    ensures !less(y, x) && less(y, z) ==> less(x, z)
  {
  }

  lemma OneWay<T(!new)>(less: (T, T) -> bool, x: T, y: T)
    requires StrictWeakOrder(less)
    ensures !less(x, x) && !(less(x, y) && less(y, x))
  {
  }

  // ---------- what a result position means, over the first n elements ----------

  ghost predicate IsMin<T(!new)>(a: seq<T>, less: (T, T) -> bool, n: int, r: int) {
    0 <= r < n <= |a| && forall k | 0 <= k < n :: !less(a[k], a[r])
  }

  ghost predicate IsMax<T(!new)>(a: seq<T>, less: (T, T) -> bool, n: int, r: int) {
    0 <= r < n <= |a| && forall k | 0 <= k < n :: !less(a[r], a[k])
  }

  ghost predicate IsFirstMin<T(!new)>(a: seq<T>, less: (T, T) -> bool, n: int, r: int) {
    IsMin(a, less, n, r) && forall k | 0 <= k < r :: less(a[r], a[k])
  }

  ghost predicate IsLastMin<T(!new)>(a: seq<T>, less: (T, T) -> bool, n: int, r: int) {
    IsMin(a, less, n, r) && forall k | r < k < n :: less(a[r], a[k])
  }

  ghost predicate IsFirstMax<T(!new)>(a: seq<T>, less: (T, T) -> bool, n: int, r: int) {
    IsMax(a, less, n, r) && forall k | 0 <= k < r :: less(a[k], a[r])
  }

  ghost predicate IsLastMax<T(!new)>(a: seq<T>, less: (T, T) -> bool, n: int, r: int) {
    IsMax(a, less, n, r) && forall k | r < k < n :: less(a[k], a[r])
  }

  /** Each description fits one position only, so the pairwise functions return the positions of the
      simple scans. */
  lemma PositionsUnique<T(!new)>(a: seq<T>, less: (T, T) -> bool, r: int, s: int)
    requires StrictWeakOrder(less)
    ensures IsFirstMin(a, less, |a|, r) && IsFirstMin(a, less, |a|, s) ==> r == s
    ensures IsLastMin(a, less, |a|, r) && IsLastMin(a, less, |a|, s) ==> r == s
    ensures IsFirstMax(a, less, |a|, r) && IsFirstMax(a, less, |a|, s) ==> r == s
    ensures IsLastMax(a, less, |a|, r) && IsLastMax(a, less, |a|, s) ==> r == s
  {
    if 0 <= r < |a| && 0 <= s < |a| && r != s {
      assert less(a[r], a[s]) || !less(a[r], a[s]);
      assert less(a[s], a[r]) || !less(a[s], a[r]);
    }
  }

  // ---------- one more element ----------

  lemma FirstMinNext<T(!new)>(a: seq<T>, less: (T, T) -> bool, n: int, r: int)
    requires StrictWeakOrder(less) && IsFirstMin(a, less, n, r) && n < |a|
    ensures IsFirstMin(a, less, n + 1, if less(a[n], a[r]) then n else r)
  {
    forall k | 0 <= k < n {
      Passes(less, a[n], a[r], a[k]);
    }
  }

  lemma LastMinNext<T(!new)>(a: seq<T>, less: (T, T) -> bool, n: int, r: int)
    requires StrictWeakOrder(less) && IsLastMin(a, less, n, r) && n < |a|
    ensures IsLastMin(a, less, n + 1, if !less(a[r], a[n]) then n else r)
  {
    forall k | 0 <= k < n {
      Passes(less, a[n], a[r], a[k]);
    }
  }

  lemma FirstMaxNext<T(!new)>(a: seq<T>, less: (T, T) -> bool, n: int, r: int)
    requires StrictWeakOrder(less) && IsFirstMax(a, less, n, r) && n < |a|
    ensures IsFirstMax(a, less, n + 1, if less(a[r], a[n]) then n else r)
  {
    forall k | 0 <= k < n {
      Passes(less, a[k], a[r], a[n]);
    }
  }

  lemma LastMaxNext<T(!new)>(a: seq<T>, less: (T, T) -> bool, n: int, r: int)
    requires StrictWeakOrder(less) && IsLastMax(a, less, n, r) && n < |a|
    ensures IsLastMax(a, less, n + 1, if !less(a[n], a[r]) then n else r)
  {
    forall k | 0 <= k < n {
      Passes(less, a[k], a[r], a[n]);
    }
  }

  // ---------- the simple scans ----------

  method BasicFirstMinElement<T(!new)>(a: seq<T>, less: (T, T) -> bool) returns (minResult: int)
    requires StrictWeakOrder(less)
    ensures if a == [] then minResult == |a| else IsFirstMin(a, less, |a|, minResult)
  {
    if |a| == 0 {
      return |a|;
    }
    minResult := 0;
    var first := 1;
    while first != |a|
      invariant 1 <= first <= |a| && IsFirstMin(a, less, first, minResult)
      decreases |a| - first
    {
      FirstMinNext(a, less, first, minResult);
      if less(a[first], a[minResult]) {
        minResult := first;
      }
      first := first + 1;
    }
  }

  method BasicLastMinElement<T(!new)>(a: seq<T>, less: (T, T) -> bool) returns (minResult: int)
    requires StrictWeakOrder(less)
    ensures if a == [] then minResult == |a| else IsLastMin(a, less, |a|, minResult)
  {
    if |a| == 0 {
      return |a|;
    }
    minResult := 0;
    var first := 1;
    while first != |a|
      invariant 1 <= first <= |a| && IsLastMin(a, less, first, minResult)
      decreases |a| - first
    {
      LastMinNext(a, less, first, minResult);
      if !less(a[minResult], a[first]) {
        minResult := first;
      }
      first := first + 1;
    }
  }

  method BasicFirstMaxElement<T(!new)>(a: seq<T>, less: (T, T) -> bool) returns (maxResult: int)
    requires StrictWeakOrder(less)
    ensures if a == [] then maxResult == |a| else IsFirstMax(a, less, |a|, maxResult)
  {
    if |a| == 0 {
      return |a|;
    }
    maxResult := 0;
    var first := 1;
    while first != |a|
      invariant 1 <= first <= |a| && IsFirstMax(a, less, first, maxResult)
      decreases |a| - first
    {
      FirstMaxNext(a, less, first, maxResult);
      if less(a[maxResult], a[first]) {
        maxResult := first;
      }
      first := first + 1;
    }
  }

  method BasicLastMaxElement<T(!new)>(a: seq<T>, less: (T, T) -> bool) returns (maxResult: int)
    requires StrictWeakOrder(less)
    ensures if a == [] then maxResult == |a| else IsLastMax(a, less, |a|, maxResult)
  {
    if |a| == 0 {
      return |a|;
    }
    maxResult := 0;
    var first := 1;
    while first != |a|
      invariant 1 <= first <= |a| && IsLastMax(a, less, first, maxResult)
      decreases |a| - first
    {
      LastMaxNext(a, less, first, maxResult);
      if !less(a[first], a[maxResult]) {
        maxResult := first;
      }
      first := first + 1;
    }
  }

  // ---------- two more elements, of which the first comparison rules one out ----------

  lemma FirstMinPair<T(!new)>(a: seq<T>, less: (T, T) -> bool, n: int, r: int)
    requires StrictWeakOrder(less) && IsFirstMin(a, less, n, r) && n + 1 < |a|
    ensures IsFirstMin(a, less, n + 2,
              if !less(a[n + 1], a[n])
              then (if less(a[n], a[r]) then n else r)
              else (if less(a[n + 1], a[r]) then n + 1 else r))
  {
    FirstMinNext(a, less, n, r);
    var m := if less(a[n], a[r]) then n else r;
    FirstMinNext(a, less, n + 1, m);
    Passes(less, a[n], a[n + 1], a[r]);
    Passes(less, a[n + 1], a[n], a[r]);
    Passes(less, a[r], a[n], a[n + 1]);
    Passes(less, a[r], a[n + 1], a[n]);
  }

  lemma LastMinPair<T(!new)>(a: seq<T>, less: (T, T) -> bool, n: int, r: int)
    requires StrictWeakOrder(less) && IsLastMin(a, less, n, r) && n + 1 < |a|
    ensures IsLastMin(a, less, n + 2,
              if less(a[n], a[n + 1])
              then (if !less(a[r], a[n]) then n else r)
              else (if !less(a[r], a[n + 1]) then n + 1 else r))
  {
    LastMinNext(a, less, n, r);
    var m := if !less(a[r], a[n]) then n else r;
    LastMinNext(a, less, n + 1, m);
    Passes(less, a[n], a[n + 1], a[r]);
    Passes(less, a[n + 1], a[n], a[r]);
    Passes(less, a[r], a[n], a[n + 1]);
    Passes(less, a[r], a[n + 1], a[n]);
  }

  lemma FirstMaxPair<T(!new)>(a: seq<T>, less: (T, T) -> bool, n: int, r: int)
    requires StrictWeakOrder(less) && IsFirstMax(a, less, n, r) && n + 1 < |a|
    ensures IsFirstMax(a, less, n + 2,
              if less(a[n], a[n + 1])
              then (if less(a[r], a[n + 1]) then n + 1 else r)
              else (if less(a[r], a[n]) then n else r))
  {
    FirstMaxNext(a, less, n, r);
    var m := if less(a[r], a[n]) then n else r;
    FirstMaxNext(a, less, n + 1, m);
    Passes(less, a[n], a[n + 1], a[r]);
    Passes(less, a[n + 1], a[n], a[r]);
    Passes(less, a[r], a[n], a[n + 1]);
    Passes(less, a[r], a[n + 1], a[n]);
  }

  lemma LastMaxPair<T(!new)>(a: seq<T>, less: (T, T) -> bool, n: int, r: int)
    requires StrictWeakOrder(less) && IsLastMax(a, less, n, r) && n + 1 < |a|
    ensures IsLastMax(a, less, n + 2,
              if !less(a[n + 1], a[n])
              then (if !less(a[n + 1], a[r]) then n + 1 else r)
              else (if !less(a[n], a[r]) then n else r))
  {
    LastMaxNext(a, less, n, r);
    var m := if !less(a[n], a[r]) then n else r;
    LastMaxNext(a, less, n + 1, m);
    Passes(less, a[n], a[n + 1], a[r]);
    Passes(less, a[n + 1], a[n], a[r]);
    Passes(less, a[r], a[n], a[n + 1]);
    Passes(less, a[r], a[n + 1], a[n]);
  }

  /** The minimum found by pairs, which may be one position too far right: the position that
      remains in doubt is kept beside it (last stands for none). */
  ghost predicate NearFirstMin<T(!new)>(a: seq<T>, less: (T, T) -> bool, n: int, r: int, potential: int) {
    && IsMin(a, less, n, r)
    && (potential == |a| || potential == r - 1 >= 0)
    && forall k | 0 <= k < r && k != potential :: less(a[r], a[k])
  }

  /** The maximum found by pairs, which may be one position too far left. */
  ghost predicate NearLastMax<T(!new)>(a: seq<T>, less: (T, T) -> bool, n: int, r: int, potential: int) {
    && IsMax(a, less, n, r)
    && (potential == |a| || potential == r + 1 < n)
    && forall k | r < k < n && k != potential :: less(a[k], a[r])
  }

  lemma NearFirstMinPair<T(!new)>(a: seq<T>, less: (T, T) -> bool, n: int, r: int, potential: int)
    requires StrictWeakOrder(less) && NearFirstMin(a, less, n, r, potential) && n + 1 < |a|
    ensures if less(a[n], a[n + 1]) then
              if less(a[n], a[r]) then NearFirstMin(a, less, n + 2, n, |a|) else NearFirstMin(a, less, n + 2, r, potential)
            else
              if less(a[n + 1], a[r]) then NearFirstMin(a, less, n + 2, n + 1, n) else NearFirstMin(a, less, n + 2, r, potential)
  {
    forall k | 0 <= k < n
      ensures less(a[n], a[r]) ==> less(a[n], a[k])
      ensures less(a[n + 1], a[r]) ==> less(a[n + 1], a[k])
    {
      Passes(less, a[n], a[r], a[k]);
      Passes(less, a[n + 1], a[r], a[k]);
    }
    Passes(less, a[n], a[n + 1], a[r]);
    Passes(less, a[r], a[n + 1], a[n]);
    Passes(less, a[r], a[n], a[n + 1]);
  }

  lemma NearFirstMinNext<T(!new)>(a: seq<T>, less: (T, T) -> bool, n: int, r: int, potential: int)
    requires StrictWeakOrder(less) && NearFirstMin(a, less, n, r, potential) && n < |a|
    ensures if less(a[n], a[r]) then NearFirstMin(a, less, n + 1, n, |a|) else NearFirstMin(a, less, n + 1, r, potential)
  {
    forall k | 0 <= k < n {
      Passes(less, a[n], a[r], a[k]);
    }
  }

  lemma NearFirstMinEnd<T(!new)>(a: seq<T>, less: (T, T) -> bool, r: int, potential: int)
    requires StrictWeakOrder(less) && NearFirstMin(a, less, |a|, r, potential)
    ensures IsFirstMin(a, less, |a|, if potential != |a| && !less(a[r], a[potential]) then potential else r)
  {
    if potential != |a| {
      forall k | 0 <= k < |a| {
        Passes(less, a[potential], a[r], a[k]);
      }
    }
  }

  lemma NearLastMaxPair<T(!new)>(a: seq<T>, less: (T, T) -> bool, n: int, r: int, potential: int)
    requires StrictWeakOrder(less) && NearLastMax(a, less, n, r, potential) && n + 1 < |a|
    ensures if less(a[n], a[n + 1]) then
              if !less(a[n + 1], a[r]) then NearLastMax(a, less, n + 2, n + 1, |a|) else NearLastMax(a, less, n + 2, r, potential)
            else
              if !less(a[n], a[r]) then NearLastMax(a, less, n + 2, n, n + 1) else NearLastMax(a, less, n + 2, r, potential)
  {
    forall k | 0 <= k < n
      ensures !less(a[n], a[r]) ==> !less(a[n], a[k])
      ensures !less(a[n + 1], a[r]) ==> !less(a[n + 1], a[k])
    {
      Passes(less, a[k], a[r], a[n]);
      Passes(less, a[k], a[r], a[n + 1]);
    }
    Passes(less, a[n], a[n + 1], a[r]);
    Passes(less, a[n + 1], a[n], a[r]);
  }

  lemma NearLastMaxNext<T(!new)>(a: seq<T>, less: (T, T) -> bool, n: int, r: int, potential: int)
    requires StrictWeakOrder(less) && NearLastMax(a, less, n, r, potential) && n < |a|
    ensures if !less(a[n], a[r]) then NearLastMax(a, less, n + 1, n, |a|) else NearLastMax(a, less, n + 1, r, potential)
  {
    forall k | 0 <= k < n {
      Passes(less, a[k], a[r], a[n]);
    }
  }

  lemma NearLastMaxEnd<T(!new)>(a: seq<T>, less: (T, T) -> bool, r: int, potential: int)
    requires StrictWeakOrder(less) && NearLastMax(a, less, |a|, r, potential)
    ensures IsLastMax(a, less, |a|, if potential != |a| && !less(a[potential], a[r]) then potential else r)
  {
    if potential != |a| {
      forall k | 0 <= k < |a| {
        Passes(less, a[k], a[r], a[potential]);
      }
    }
  }

  // ---------- the pairwise loops ----------

  method BasicMinmaxElement<T(!new)>(a: seq<T>, less: (T, T) -> bool)
    returns (minResult: int, maxResult: int, ghost comparisons: nat)
    requires StrictWeakOrder(less)
    ensures if a == [] then minResult == maxResult == |a|
            else IsFirstMin(a, less, |a|, minResult) && IsFirstMax(a, less, |a|, maxResult)
    ensures comparisons <= 3 * |a| / 2
  {
    hide StrictWeakOrder;
    var first, last := 0, |a|;
    comparisons := 0;
    if first == last {
      return last, last, comparisons;
    }
    minResult, maxResult := first, first;
    var second := first + 1;
    OneWay(less, a[0], a[0]);
    if second == last {
      return;
    }
    var potentialMinResult := last;
    OneWay(less, a[0], a[1]);
    OneWay(less, a[1], a[0]);
    comparisons := comparisons + 1;
    if less(a[first], a[second]) {
      maxResult := second;
    } else {
      minResult := second;
      potentialMinResult := first;
    }
    second := second + 1;
    first := second;
    if first != last {
      second := second + 1;
    }
    while second != last
      invariant 2 <= first <= last && second == (if first < last then first + 1 else last)
      invariant NearFirstMin(a, less, first, minResult, potentialMinResult) && IsFirstMax(a, less, first, maxResult)
      invariant 2 * comparisons + 4 == 3 * first
      decreases last - first
    {
      NearFirstMinPair(a, less, first, minResult, potentialMinResult);
      FirstMaxPair(a, less, first, maxResult);
      comparisons := comparisons + 3;
      if less(a[first], a[second]) {
        if less(a[first], a[minResult]) {
          minResult := first;
          potentialMinResult := last;
        }
        if less(a[maxResult], a[second]) {
          maxResult := second;
        }
      } else {
        if less(a[second], a[minResult]) {
          minResult := second;
          potentialMinResult := first;
        }
        if less(a[maxResult], a[first]) {
          maxResult := first;
        }
      }
      second := second + 1;
      first := second;
      if first != last {
        second := second + 1;
      }
    }
    if first != last {
      NearFirstMinNext(a, less, first, minResult, potentialMinResult);
      FirstMaxNext(a, less, first, maxResult);
      comparisons := comparisons + 1;
      if less(a[first], a[minResult]) {
        minResult := first;
        potentialMinResult := last;
      } else {
        comparisons := comparisons + 1;
        if less(a[maxResult], a[first]) {
          maxResult := first;
        }
      }
    }
    NearFirstMinEnd(a, less, minResult, potentialMinResult);
    if potentialMinResult != last {
      comparisons := comparisons + 1;
      if !less(a[minResult], a[potentialMinResult]) {
        minResult := potentialMinResult;
      }
    }
  }

  method BasicFirstMinLastMaxElement<T(!new)>(a: seq<T>, less: (T, T) -> bool)
    returns (minResult: int, maxResult: int, ghost comparisons: nat)
    requires StrictWeakOrder(less)
    ensures if a == [] then minResult == maxResult == |a|
            else IsFirstMin(a, less, |a|, minResult) && IsLastMax(a, less, |a|, maxResult)
    ensures comparisons <= 3 * |a| / 2
  {
    hide StrictWeakOrder;
    var first, last := 0, |a|;
    comparisons := 0;
    if first == last {
      return last, last, comparisons;
    }
    minResult, maxResult := first, first;
    var second := first + 1;
    OneWay(less, a[0], a[0]);
    if second == last {
      return;
    }
    OneWay(less, a[0], a[1]);
    OneWay(less, a[1], a[0]);
    comparisons := comparisons + 1;
    if less(a[second], a[minResult]) {
      minResult := second;
    } else {
      maxResult := second;
    }
    second := second + 1;
    first := second;
    if first != last {
      second := second + 1;
    }
    while second != last
      invariant 2 <= first <= last && second == (if first < last then first + 1 else last)
      invariant IsFirstMin(a, less, first, minResult) && IsLastMax(a, less, first, maxResult)
      invariant 2 * comparisons + 4 == 3 * first
      decreases last - first
    {
      FirstMinPair(a, less, first, minResult);
      LastMaxPair(a, less, first, maxResult);
      comparisons := comparisons + 3;
      if !less(a[second], a[first]) {
        if less(a[first], a[minResult]) {
          minResult := first;
        }
        if !less(a[second], a[maxResult]) {
          maxResult := second;
        }
      } else {
        if less(a[second], a[minResult]) {
          minResult := second;
        }
        if !less(a[first], a[maxResult]) {
          maxResult := first;
        }
      }
      second := second + 1;
      first := second;
      if first != last {
        second := second + 1;
      }
    }
    if first != last {
      FirstMinNext(a, less, first, minResult);
      LastMaxNext(a, less, first, maxResult);
      comparisons := comparisons + 1;
      if less(a[first], a[minResult]) {
        minResult := first;
      } else {
        comparisons := comparisons + 1;
        if !less(a[first], a[maxResult]) {
          maxResult := first;
        }
      }
    }
  }

  method BasicLastMinFirstMaxElement<T(!new)>(a: seq<T>, less: (T, T) -> bool)
    returns (minResult: int, maxResult: int, ghost comparisons: nat)
    requires StrictWeakOrder(less)
    ensures if a == [] then minResult == maxResult == |a|
            else IsLastMin(a, less, |a|, minResult) && IsFirstMax(a, less, |a|, maxResult)
    ensures comparisons <= 3 * |a| / 2
  {
    hide StrictWeakOrder;
    var first, last := 0, |a|;
    comparisons := 0;
    if first == last {
      return last, last, comparisons;
    }
    minResult, maxResult := first, first;
    var second := first + 1;
    OneWay(less, a[0], a[0]);
    if second == last {
      return;
    }
    OneWay(less, a[0], a[1]);
    OneWay(less, a[1], a[0]);
    comparisons := comparisons + 1;
    if less(a[maxResult], a[second]) {
      maxResult := second;
    } else {
      minResult := second;
    }
    second := second + 1;
    first := second;
    if first != last {
      second := second + 1;
    }
    while second != last
      invariant 2 <= first <= last && second == (if first < last then first + 1 else last)
      invariant IsLastMin(a, less, first, minResult) && IsFirstMax(a, less, first, maxResult)
      invariant 2 * comparisons + 4 == 3 * first
      decreases last - first
    {
      LastMinPair(a, less, first, minResult);
      FirstMaxPair(a, less, first, maxResult);
      comparisons := comparisons + 3;
      if less(a[first], a[second]) {
        if !less(a[minResult], a[first]) {
          minResult := first;
        }
        if less(a[maxResult], a[second]) {
          maxResult := second;
        }
      } else {
        if !less(a[minResult], a[second]) {
          minResult := second;
        }
        if less(a[maxResult], a[first]) {
          maxResult := first;
        }
      }
      second := second + 1;
      first := second;
      if first != last {
        second := second + 1;
      }
    }
    if first != last {
      LastMinNext(a, less, first, minResult);
      FirstMaxNext(a, less, first, maxResult);
      comparisons := comparisons + 1;
      if !less(a[minResult], a[first]) {
        minResult := first;
      } else {
        comparisons := comparisons + 1;
        if less(a[maxResult], a[first]) {
          maxResult := first;
        }
      }
    }
  }

  method BasicLastMinLastMaxElement<T(!new)>(a: seq<T>, less: (T, T) -> bool)
    returns (minResult: int, maxResult: int, ghost comparisons: nat)
    requires StrictWeakOrder(less)
    ensures if a == [] then minResult == maxResult == |a|
            else IsLastMin(a, less, |a|, minResult) && IsLastMax(a, less, |a|, maxResult)
    ensures comparisons <= 3 * |a| / 2
  {
    hide StrictWeakOrder;
    var first, last := 0, |a|;
    comparisons := 0;
    if first == last {
      return last, last, comparisons;
    }
    minResult, maxResult := first, first;
    var second := first + 1;
    OneWay(less, a[0], a[0]);
    if second == last {
      return;
    }
    var potentialMaxResult := last;
    OneWay(less, a[0], a[1]);
    OneWay(less, a[1], a[0]);
    comparisons := comparisons + 1;
    if less(a[first], a[second]) {
      maxResult := second;
    } else {
      minResult := second;
      potentialMaxResult := second;
    }
    second := second + 1;
    first := second;
    if first != last {
      second := second + 1;
    }
    while second != last
      invariant 2 <= first <= last && second == (if first < last then first + 1 else last)
      invariant IsLastMin(a, less, first, minResult) && NearLastMax(a, less, first, maxResult, potentialMaxResult)
      invariant 2 * comparisons + 4 == 3 * first
      decreases last - first
    {
      LastMinPair(a, less, first, minResult);
      NearLastMaxPair(a, less, first, maxResult, potentialMaxResult);
      comparisons := comparisons + 3;
      if less(a[first], a[second]) {
        if !less(a[minResult], a[first]) {
          minResult := first;
        }
        if !less(a[second], a[maxResult]) {
          maxResult := second;
          potentialMaxResult := last;
        }
      } else {
        if !less(a[minResult], a[second]) {
          minResult := second;
        }
        if !less(a[first], a[maxResult]) {
          maxResult := first;
          potentialMaxResult := second;
        }
      }
      second := second + 1;
      first := second;
      if first != last {
        second := second + 1;
      }
    }
    if first != last {
      LastMinNext(a, less, first, minResult);
      NearLastMaxNext(a, less, first, maxResult, potentialMaxResult);
      comparisons := comparisons + 2;
      if !less(a[minResult], a[first]) {
        minResult := first;
      }
      if !less(a[first], a[maxResult]) {
        maxResult := first;
        potentialMaxResult := last;
      }
    }
    NearLastMaxEnd(a, less, maxResult, potentialMaxResult);
    if potentialMaxResult != last {
      comparisons := comparisons + 1;
      if !less(a[potentialMaxResult], a[maxResult]) {
        maxResult := potentialMaxResult;
      }
    }
  }
}
