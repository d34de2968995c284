/**
 * The linear-interpolation quantile that pandas computes for a column:
 * the present values are sorted and the quantile `num/den` is read off at
 * position `(num/den) * (n - 1)`, interpolating between neighbours.
 */
module Quantiles {
  import opened Common
  import Ticks

  predicate Sorted(s: seq<real>) {
    forall i, j | 0 <= i < j < |s| :: s[i] <= s[j]
  }

  /** `x` placed into the sorted sequence `s`. */
  function Insert(x: real, s: seq<real>): (r: seq<real>)
    requires Sorted(s)
    ensures Sorted(r)
    ensures multiset(r) == multiset(s) + multiset{x}
    ensures forall v | v in r :: v == x || v in s
  {
    if s == [] then [x]
    else if x <= s[0] then
      ConsSorted(x, s);
      [x] + s
    else
      var rest := Insert(x, s[1..]);
      assert s == [s[0]] + s[1..];
      assert forall v | v in s[1..] :: s[0] <= v;
      ConsSorted(s[0], rest);
      [s[0]] + rest
  }

  /** A value at most every element of a sorted sequence can head it. */
  lemma ConsSorted(h: real, t: seq<real>)
    requires Sorted(t) && forall v | v in t :: h <= v
    ensures Sorted([h] + t)
  {
    forall i, j | 0 <= i < j < |[h] + t| ensures ([h] + t)[i] <= ([h] + t)[j] {
      assert ([h] + t)[j] == t[j - 1];
      if i > 0 {
        assert ([h] + t)[i] == t[i - 1];
      } else {
        assert t[j - 1] in t;
      }
    }
  }

  /** The values of `xs` in ascending order. */
  function Sort(xs: seq<real>): (r: seq<real>)
    ensures Sorted(r)
    ensures multiset(r) == multiset(xs)
    ensures |r| == |xs|
  {
    if xs == [] then []
    else
      assert xs == [xs[0]] + xs[1..];
      Insert(xs[0], Sort(xs[1..]))
  }

  /**
   * Where the quantile `num/den` of `n` sorted values falls: the index of
   * the value at or below it, and the remainder (in units of `1/den`) left
   * to interpolate towards the next value.
   */
  lemma QuantileIndex(n: int, num: int, den: int)
    requires n >= 1 && 0 <= num <= den && den > 0
    ensures 0 <= (num * (n - 1)) / den < n
    ensures (num * (n - 1)) % den != 0 ==> (num * (n - 1)) / den + 1 < n
  {
    var pos := num * (n - 1);
    ScaledWithin(num, den, n - 1);
    Ticks.DivMonotone(pos, (n - 1) * den, den);
    Ticks.MulMod(n - 1, den);
    if pos % den != 0 {
      BelowWholeSteps(pos, n - 1, den);
    }
  }

  /** `num/den` of `m` whole steps lies within them. */
  lemma ScaledWithin(num: int, den: int, m: int)
    requires 0 <= num <= den && m >= 0
    ensures 0 <= num * m <= m * den
  {
    assert m * den - num * m == (den - num) * m;
  }

  /** A position within `m` whole steps that is not itself a whole step lies before the `m`-th. */
  lemma BelowWholeSteps(pos: int, m: int, den: int)
    requires den > 0 && 0 <= pos <= m * den && pos % den != 0
    ensures pos / den < m
  {
    assert pos == (pos / den) * den + pos % den;
  }

  /** The quantile `num/den` of the sorted, non-empty `s`, by linear interpolation. */
  function Quantile(s: seq<real>, num: int, den: int): (q: real)
    requires Sorted(s) && s != [] && 0 <= num <= den && den > 0
    ensures s[0] <= q <= Last(s)
  {
    QuantileIndex(|s|, num, den);
    var pos := num * (|s| - 1);
    Fraction(pos % den, den);
    ReadAt(s, pos / den, (pos % den) as real / den as real)
  }

  /** A remainder below the divisor is a fraction in `[0, 1)`, zero only when the remainder is. */
  lemma Fraction(rem: int, den: int)
    requires 0 <= rem < den
    ensures 0.0 <= rem as real / den as real < 1.0
    ensures rem as real / den as real == 0.0 <==> rem == 0
  {
  }

  lemma FractionMonotone(r1: int, r2: int, den: int)
    requires 0 <= r1 <= r2 && den > 0
    ensures r1 as real / den as real <= r2 as real / den as real
  {
  }

  /** The value the fraction `frac` of the way from `s[lo]` to the next element. */
  function ReadAt(s: seq<real>, lo: int, frac: real): (q: real)
    requires Sorted(s) && 0 <= lo < |s| && 0.0 <= frac < 1.0 && (frac != 0.0 ==> lo + 1 < |s|)
    ensures s[0] <= q <= Last(s)
  {
    if frac == 0.0 then s[lo]
    else
      Interpolated(s[lo], s[lo + 1], frac);
      Interpolate(s[lo], s[lo + 1], frac)
  }

  /** The point the fraction `frac` of the way from `a` to `b`. */
  function Interpolate(a: real, b: real, frac: real): real {
    a + (b - a) * frac
  }

  /** Interpolating between `a <= b` stays between them. */
  lemma Interpolated(a: real, b: real, frac: real)
    requires a <= b && 0.0 <= frac <= 1.0
    ensures a <= Interpolate(a, b, frac) <= b
  {
    assert (b - a) * frac >= 0.0 by {
      MulNonNegative(b - a, frac);
    }
    assert (b - a) - (b - a) * frac == (b - a) * (1.0 - frac);
    MulNonNegative(b - a, 1.0 - frac);
  }

  lemma MulNonNegative(x: real, y: real)
    requires x >= 0.0 && y >= 0.0
    ensures x * y >= 0.0
  {
  }

  /** Interpolating further from `a` towards `b >= a` never moves back. */
  lemma InterpolationMonotone(a: real, b: real, f1: real, f2: real)
    requires a <= b && f1 <= f2
    ensures Interpolate(a, b, f1) <= Interpolate(a, b, f2)
  {
    assert (b - a) * f2 - (b - a) * f1 == (b - a) * (f2 - f1);
  }

  /** A larger fraction of the same count lands on the same index or a later one, and on the same index with no smaller remainder. */
  lemma PositionsOrdered(n: int, num1: int, num2: int, den: int)
    requires n >= 1 && 0 <= num1 <= num2 && den > 0
    ensures var p1, p2 := num1 * (n - 1), num2 * (n - 1);
      && p1 / den <= p2 / den
      && (p1 / den == p2 / den ==> p1 % den <= p2 % den)
  {
    var p1, p2 := num1 * (n - 1), num2 * (n - 1);
    assert 0 <= p1 <= p2 by {
      assert p2 - p1 == (num2 - num1) * (n - 1);
    }
    Ticks.DivMonotone(p1, p2, den);
  }

  /** Reading further along a sorted sequence never gives a smaller value. */
  lemma ReadAtMonotone(s: seq<real>, lo1: int, f1: real, lo2: int, f2: real)
    requires Sorted(s) && 0 <= lo1 < |s| && 0.0 <= f1 < 1.0 && (f1 != 0.0 ==> lo1 + 1 < |s|)
    requires 0 <= lo2 < |s| && 0.0 <= f2 < 1.0 && (f2 != 0.0 ==> lo2 + 1 < |s|)
    requires lo1 < lo2 || (lo1 == lo2 && f1 <= f2)
    ensures ReadAt(s, lo1, f1) <= ReadAt(s, lo2, f2)
  {
    if lo1 == lo2 {
      if f2 != 0.0 {
        assert s[lo1] <= s[lo1 + 1];
        InterpolationMonotone(s[lo1], s[lo1 + 1], f1, f2);
        assert Interpolate(s[lo1], s[lo1 + 1], 0.0) == s[lo1];
      }
    } else {
      // the first read lies at or below s[lo1 + 1], the second at or above s[lo2]
      if f1 != 0.0 {
        Interpolated(s[lo1], s[lo1 + 1], f1);
        assert s[lo1 + 1] <= s[lo2];
      } else {
        assert s[lo1] <= s[lo2];
      }
      if f2 != 0.0 {
        assert s[lo2] <= s[lo2 + 1];
        Interpolated(s[lo2], s[lo2 + 1], f2);
      }
    }
  }

  /** A larger quantile of the same values is never smaller: the first quartile is at most the third. */
  lemma QuantileMonotone(s: seq<real>, num1: int, num2: int, den: int)
    requires Sorted(s) && s != [] && 0 <= num1 <= num2 <= den && den > 0
    ensures Quantile(s, num1, den) <= Quantile(s, num2, den)
  {
    var n := |s|;
    QuantileIndex(n, num1, den);
    QuantileIndex(n, num2, den);
    PositionsOrdered(n, num1, num2, den);
    var p1, p2 := num1 * (n - 1), num2 * (n - 1);
    var r1, r2 := p1 % den, p2 % den;
    Fraction(r1, den);
    Fraction(r2, den);
    if p1 / den == p2 / den {
      FractionMonotone(r1, r2, den);
    }
    ReadAtMonotone(s, p1 / den, r1 as real / den as real, p2 / den, r2 as real / den as real);
  }

  /** The first quartile of the non-empty `xs`. */
  function Q1(xs: seq<real>): (q: real)
    requires xs != []
  {
    Quantile(Sort(xs), 1, 4)
  }

  /** The third quartile of the non-empty `xs`. */
  function Q3(xs: seq<real>): (q: real)
    requires xs != []
  {
    Quantile(Sort(xs), 3, 4)
  }

  /** Both quartiles lie within the range of the values, and the first is at most the third. */
  lemma QuartilesOrdered(xs: seq<real>)
    requires xs != []
    ensures Q1(xs) <= Q3(xs)
    ensures exists a | a in xs :: a <= Q1(xs)
    ensures exists b | b in xs :: Q3(xs) <= b
  {
    var s := Sort(xs);
    QuantileMonotone(s, 1, 3, 4);
    assert s[0] in multiset(s) && Last(s) in multiset(s);
    assert s[0] in xs && Last(s) in xs;
  }
}
