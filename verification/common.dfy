/** Value wrappers shared by every stage of the forecasting pipeline. */
module Common {

  /** A value that may be absent. */
  datatype Option<+T> = None | Some(value: T) {
    function GetOr(default: T): T {
      if Some? then value else default
    }
  }

  /** The outcome of a stage that may raise: `Err` carries the exception. */
  datatype Result<+T, +E> = Ok(value: T) | Err(error: E)

  /** A floating-point result that may be not-a-number. */
  datatype Num = Value(v: real) | NaN

  /** The last element of a non-empty sequence. */
  function Last<T>(s: seq<T>): T
    requires s != []
  {
    s[|s| - 1]
  }

  /** The sum of a sequence of reals, accumulated left to right. */
  function Sum(xs: seq<real>): real {
    if xs == [] then 0.0 else Sum(xs[..|xs| - 1]) + Last(xs)
  }

  /** The arithmetic mean (numpy `mean`): not-a-number for an empty sequence. */
  function Mean(xs: seq<real>): (m: Num)
    ensures m.NaN? <==> xs == []
  {
    if xs == [] then NaN else Value(Sum(xs) / |xs| as real)
  }

  /** A sum of non-negative terms is non-negative. */
  lemma {:induction false} SumNonNegative(xs: seq<real>)
    requires forall x | x in xs :: x >= 0.0
    ensures Sum(xs) >= 0.0
  {
    if xs != [] {
      var init := xs[..|xs| - 1];
      assert xs == init + [Last(xs)];
      assert forall x | x in init :: x in xs;
      assert Last(xs) in xs;
      SumNonNegative(init);
      assert Sum(xs) == Sum(init) + Last(xs);
    }
  }

  /** Every element of `s` differs from every other one. */
  predicate Distinct<T(==)>(s: seq<T>) {
    forall i, j | 0 <= i < j < |s| :: s[i] != s[j]
  }
}

/** The demand table: one row per record, after timestamp coercion. */
module Table {
  import opened Common

  /**
   * One row of the table. A timestamp that is missing or cannot be parsed
   * is `None` (NaT); a missing demand is `None` (NaN). `others` holds the
   * remaining columns, a missing cell being `None`.
   */
  datatype Row = Row(ts: Option<int>, demand: Option<real>, others: seq<Option<real>>)

  /** The demand column. */
  function Demands(rows: seq<Row>): (d: seq<Option<real>>)
    ensures |d| == |rows|
    ensures forall i | 0 <= i < |rows| :: d[i] == rows[i].demand
  {
    seq(|rows|, i requires 0 <= i < |rows| => rows[i].demand)
  }

  /** The non-missing cells of a column, in order (pandas `dropna`). */
  function Present(cells: seq<Option<real>>): (xs: seq<real>)
    ensures |xs| <= |cells|
    ensures forall x :: x in xs <==> Some(x) in cells
  {
    if cells == [] then []
    else
      var init := Present(cells[..|cells| - 1]);
      assert cells == cells[..|cells| - 1] + [Last(cells)];
      match Last(cells)
      case Some(x) => init + [x]
      case None => init
  }
}
