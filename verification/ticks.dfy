/**
 * Timestamps as integer hour ticks, the frequency table, the evenly spaced
 * grid a frequency induces, and the sorted, de-duplicated view of a
 * timestamp column.
 */
module Ticks {
  import opened Common

  /**
   * Hours between consecutive timestamps of each recognised frequency.
   * Calendar months and quarters are taken as fixed steps of 730 and
   * 2190 hours.
   */
  function StepOf(frequency: string): (step: Option<int>)
    ensures step.Some? <==> frequency in {"hourly", "daily", "weekly", "monthly", "quarterly"}
    ensures step.Some? ==> step.value > 0
  {
    if frequency == "hourly" then Some(1)
    else if frequency == "daily" then Some(24)
    else if frequency == "weekly" then Some(168)
    else if frequency == "monthly" then Some(730)
    else if frequency == "quarterly" then Some(2190)
    else None
  }

  predicate StrictlyIncreasing(s: seq<int>) {
    forall i, j | 0 <= i < j < |s| :: s[i] < s[j]
  }

  /** The ticks `lo, lo + step, ...` up to and including the last one not after `hi`. */
  function Grid(lo: int, hi: int, step: int): (g: seq<int>)
    requires step > 0
    ensures StrictlyIncreasing(g)
    ensures g == [] <==> hi < lo
    ensures g != [] ==> g[0] == lo && Last(g) <= hi < Last(g) + step
    ensures forall k | 0 <= k < |g| :: g[k] == lo + k * step
  {
    if hi < lo then []
    else
      var n := (hi - lo) / step;
      var g := seq(n + 1, k requires 0 <= k <= n => lo + k * step);
      assert forall i, j | 0 <= i < j < |g| :: g[i] < g[j] by {
        forall i, j | 0 <= i < j < |g| ensures g[i] < g[j] {
          MulStrictlyMonotone(i, j, step);
        }
      }
      assert Last(g) == lo + n * step;
      DivBounds(hi - lo, step);
      g
  }

  lemma MulStrictlyMonotone(i: int, j: int, step: int)
    requires i < j && step > 0
    ensures i * step < j * step
  {
    assert j * step - i * step == (j - i) * step;
  }

  /** `n / step` is the number of whole steps that fit in `n`. */
  lemma DivBounds(n: int, step: int)
    requires n >= 0 && step > 0
    ensures (n / step) * step <= n < (n / step) * step + step
  {
  }

  /** Exactly the ticks of the grid are on it: `lo <= t <= hi` and a whole number of steps after `lo`. */
  lemma GridMembership(lo: int, hi: int, step: int, t: int)
    requires step > 0
    ensures t in Grid(lo, hi, step) <==> lo <= t <= hi && (t - lo) % step == 0
  {
    if t in Grid(lo, hi, step) {
      OnGridIsTick(lo, hi, step, t);
    }
    if lo <= t <= hi && (t - lo) % step == 0 {
      TickIsOnGrid(lo, hi, step, t);
    }
  }

  /** A grid value lies between the ends, a whole number of steps after `lo`. */
  lemma OnGridIsTick(lo: int, hi: int, step: int, t: int)
    requires step > 0 && t in Grid(lo, hi, step)
    ensures lo <= t <= hi && (t - lo) % step == 0
  {
    var g := Grid(lo, hi, step);
    var k :| 0 <= k < |g| && g[k] == t;
    assert t - lo == k * step;
    MulMod(k, step);
    if k > 0 {
      assert g[0] < g[k] <= Last(g);
    }
  }

  /** A value between the ends, a whole number of steps after `lo`, is on the grid. */
  lemma TickIsOnGrid(lo: int, hi: int, step: int, t: int)
    requires step > 0 && lo <= t <= hi && (t - lo) % step == 0
    ensures t in Grid(lo, hi, step)
  {
    var g := Grid(lo, hi, step);
    var k := (t - lo) / step;
    WholeSteps(t - lo, step);
    assert hi < lo + (|g| - 1) * step + step;
    assert (|g| - 1) * step + step == |g| * step;
    CancelStep(k, |g|, step);
    assert g[k] == t;
  }

  /** A non-negative multiple of `step` is its quotient times `step`. */
  lemma WholeSteps(d: int, step: int)
    requires step > 0 && d >= 0 && d % step == 0
    ensures d / step >= 0 && d == (d / step) * step
  {
  }

  /** Multiplying by a positive step preserves a strict order, so it can be cancelled. */
  lemma CancelStep(k: int, n: int, step: int)
    requires step > 0 && k * step < n * step
    ensures k < n
  {
    if n <= k {
      MulMonotone(n, k, step);
    }
  }

  lemma MulMonotone(i: int, j: int, step: int)
    requires i <= j && step > 0
    ensures i * step <= j * step
  {
    assert j * step - i * step == (j - i) * step;
  }

  /** At least one whole step is at least one step long. */
  lemma MulAtLeast(x: int, step: int)
    requires x >= 1 && step > 0
    ensures x * step >= step
  {
    assert x * step == step + (x - 1) * step;
  }

  /** Division and remainder are the unique quotient and remainder. */
  lemma DivModUnique(a: int, step: int, q: int, r: int)
    requires step > 0 && 0 <= r < step && a == q * step + r
    ensures a / step == q && a % step == r
  {
    var q', r' := a / step, a % step;
    assert a == q' * step + r';
    assert (q - q') * step == r' - r;
    if q > q' {
      MulAtLeast(q - q', step);
    } else if q < q' {
      assert (q' - q) * step == r - r';
      MulAtLeast(q' - q, step);
    }
  }

  lemma MulMod(k: int, step: int)
    requires step > 0
    ensures (k * step) % step == 0 && (k * step) / step == k
  {
    DivModUnique(k * step, step, k, 0);
  }

  lemma DivMonotone(a: int, b: int, step: int)
    requires 0 <= a <= b && step > 0
    ensures a / step <= b / step
  {
    var qa, qb := a / step, b / step;
    assert a == qa * step + a % step && b == qb * step + b % step;
    if qa > qb {
      assert (qa - qb) * step == qa * step - qb * step;
      MulAtLeast(qa - qb, step);
    }
  }

  /** Rebuilding the grid between its own first and last tick gives it back. */
  lemma GridOfOwnEnds(lo: int, hi: int, step: int)
    requires step > 0 && lo <= hi
    ensures var g := Grid(lo, hi, step); Grid(g[0], Last(g), step) == g
  {
    var g := Grid(lo, hi, step);
    var n := (hi - lo) / step;
    assert Last(g) - lo == n * step;
    MulMod(n, step);
  }

  /** The smallest element of a non-empty sequence. */
  function SeqMin(xs: seq<int>): (m: int)
    requires xs != []
    ensures m in xs && forall x | x in xs :: m <= x
  {
    if |xs| == 1 then xs[0]
    else
      var m := SeqMin(xs[1..]);
      assert xs == [xs[0]] + xs[1..];
      if xs[0] <= m then xs[0] else m
  }

  /** The largest element of a non-empty sequence. */
  function SeqMax(xs: seq<int>): (m: int)
    requires xs != []
    ensures m in xs && forall x | x in xs :: x <= m
  {
    if |xs| == 1 then xs[0]
    else
      var m := SeqMax(xs[1..]);
      assert xs == [xs[0]] + xs[1..];
      if xs[0] >= m then xs[0] else m
  }

  /** `xs` with every occurrence of `v` removed. */
  function Without(xs: seq<int>, v: int): (r: seq<int>)
    ensures forall x :: x in r <==> x in xs && x != v
    ensures |r| <= |xs|
    ensures v in xs ==> |r| < |xs|
  {
    if xs == [] then []
    else
      assert xs == [xs[0]] + xs[1..];
      (if xs[0] == v then [] else [xs[0]]) + Without(xs[1..], v)
  }

  /**
   * The distinct values of `xs` in ascending order (pandas
   * `sort_values().drop_duplicates()`).
   */
  function SortedDistinct(xs: seq<int>): (r: seq<int>)
    ensures StrictlyIncreasing(r)
    ensures forall x :: x in r <==> x in xs
    decreases |xs|
  {
    if xs == [] then []
    else
      var m := SeqMin(xs);
      var rest := SortedDistinct(Without(xs, m));
      assert forall x | x in rest :: m < x;
      var r := [m] + rest;
      assert forall i | 0 < i < |r| :: r[i] == rest[i - 1] && rest[i - 1] in rest;
      r
  }

  /** A strictly increasing sequence is determined by its elements. */
  lemma {:induction false} IncreasingUnique(a: seq<int>, b: seq<int>)
    requires StrictlyIncreasing(a) && StrictlyIncreasing(b)
    requires forall x :: x in a <==> x in b
    ensures a == b
    decreases |a|
  {
    IncreasingCardinality(a);
    IncreasingCardinality(b);
    assert (set x | x in a) == (set x | x in b);
    if a != [] {
      SameHead(a, b);
      TailOnly(a, b);
      TailOnly(b, a);
      IncreasingUnique(a[1..], b[1..]);
      assert a == [a[0]] + a[1..] && b == [b[0]] + b[1..];
    }
  }

  /** Two non-empty strictly increasing sequences with the same elements start alike. */
  lemma SameHead(a: seq<int>, b: seq<int>)
    requires StrictlyIncreasing(a) && StrictlyIncreasing(b) && a != [] && b != []
    requires forall x :: x in a <==> x in b
    ensures a[0] == b[0]
  {
    assert a[0] in b && b[0] in a;
    var i :| 0 <= i < |a| && a[i] == b[0];
    var j :| 0 <= j < |b| && b[j] == a[0];
    assert a[0] <= a[i] && b[0] <= b[j];
  }

  /** What follows the shared head of `a` also follows it in `b`. */
  lemma TailOnly(a: seq<int>, b: seq<int>)
    requires StrictlyIncreasing(a) && StrictlyIncreasing(b) && a != [] && b != [] && a[0] == b[0]
    requires forall x :: x in a ==> x in b
    ensures forall x | x in a[1..] :: x in b[1..]
  {
    forall x | x in a[1..] ensures x in b[1..] {
      var k :| 1 <= k < |a| && a[k] == x;
      assert x > a[0] && x in b;
      var l :| 0 <= l < |b| && b[l] == x;
      assert l != 0 && b[1..][l - 1] == x;
    }
  }

  /** A strictly increasing sequence starts at its minimum and ends at its maximum. */
  lemma IncreasingEnds(s: seq<int>)
    requires StrictlyIncreasing(s) && s != []
    ensures forall x | x in s :: s[0] <= x <= Last(s)
  {
    forall x | x in s ensures s[0] <= x <= Last(s) {
      var k :| 0 <= k < |s| && s[k] == x;
      if 0 < k {
        assert s[0] < s[k];
      }
      if k < |s| - 1 {
        assert s[k] < s[|s| - 1];
      }
    }
  }

  /** A strictly increasing sequence is its own sorted, de-duplicated view. */
  lemma SortedDistinctOfIncreasing(xs: seq<int>)
    requires StrictlyIncreasing(xs)
    ensures SortedDistinct(xs) == xs
  {
    IncreasingUnique(SortedDistinct(xs), xs);
  }

  /** The number of distinct values of a strictly increasing sequence is its length. */
  lemma {:induction false} IncreasingCardinality(s: seq<int>)
    requires StrictlyIncreasing(s)
    ensures |set x | x in s| == |s|
    decreases |s|
  {
    if s != [] {
      IncreasingCardinality(s[1..]);
      assert (set x | x in s) == {s[0]} + (set x | x in s[1..]);
      assert s[0] !in s[1..];
    }
  }
}
