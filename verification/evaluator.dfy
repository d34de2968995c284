/**
 * Forecast accuracy metrics: mean absolute error, root mean squared error
 * (kept as its square, the mean squared error) and the weighted mean
 * absolute percentage error, over one pair of actuals and predictions.
 */
module Evaluator {
  import opened Common

  /**
   * Why a metric raises: the two arrays cannot be broadcast together,
   * their shapes differ (WMAPE), or an actual value is negative (WMAPE).
   */
  datatype MetricError = BroadcastError | ShapeMismatch | NegativeActual

  function Abs(x: real): (r: real)
    ensures r >= 0.0 && (r == 0.0 <==> x == 0.0)
  {
    if x < 0.0 then -x else x
  }

  /**
   * `yTrue - yPred` with numpy broadcasting of one-dimensional arrays:
   * equal lengths subtract elementwise, a length-one side is repeated
   * against the other, and any other pair raises.
   */
  function Residuals(yTrue: seq<real>, yPred: seq<real>): (r: Result<seq<real>, MetricError>)
    ensures r.Ok? <==> |yTrue| == |yPred| || |yTrue| == 1 || |yPred| == 1
    ensures r.Ok? ==> |r.value| == if |yTrue| == 1 then |yPred| else |yTrue|
    ensures r.Ok? && |yTrue| == |yPred| ==>
      forall i | 0 <= i < |yTrue| :: r.value[i] == yTrue[i] - yPred[i]
  {
    if |yTrue| == |yPred| then Ok(seq(|yTrue|, i requires 0 <= i < |yTrue| => yTrue[i] - yPred[i]))
    else if |yTrue| == 1 then Ok(seq(|yPred|, i requires 0 <= i < |yPred| => yTrue[0] - yPred[i]))
    else if |yPred| == 1 then Ok(seq(|yTrue|, i requires 0 <= i < |yTrue| => yTrue[i] - yPred[0]))
    else Err(BroadcastError)
  }

  function AbsAll(xs: seq<real>): (r: seq<real>)
    ensures |r| == |xs| && forall i | 0 <= i < |xs| :: r[i] == Abs(xs[i])
  {
    seq(|xs|, i requires 0 <= i < |xs| => Abs(xs[i]))
  }

  /** `x` squared: never negative. */
  function Square(x: real): (y: real)
    ensures y >= 0.0
    ensures x == 0.0 ==> y == 0.0
  {
    x * x
  }

  function SquareAll(xs: seq<real>): (r: seq<real>)
    ensures |r| == |xs| && forall i | 0 <= i < |xs| :: r[i] == Square(xs[i])
  {
    seq(|xs|, i requires 0 <= i < |xs| => Square(xs[i]))
  }

  /** Mean absolute error: raises when the arrays cannot be broadcast, NaN when either is empty. */
  function Mae(yTrue: seq<real>, yPred: seq<real>): (r: Result<Num, MetricError>)
    ensures r.Ok? <==> |yTrue| == |yPred| || |yTrue| == 1 || |yPred| == 1
    ensures r.Ok? ==> (r.value.NaN? <==> yTrue == [] || yPred == [])
  {
    match Residuals(yTrue, yPred)
    case Err(e) => Err(e)
    case Ok(d) => Ok(Mean(AbsAll(d)))
  }

  /**
   * Mean squared error, the square of the root mean squared error: raises
   * when the arrays cannot be broadcast, NaN when either is empty.
   */
  function RmseSquared(yTrue: seq<real>, yPred: seq<real>): (r: Result<Num, MetricError>)
    ensures r.Ok? <==> |yTrue| == |yPred| || |yTrue| == 1 || |yPred| == 1
    ensures r.Ok? ==> (r.value.NaN? <==> yTrue == [] || yPred == [])
  {
    match Residuals(yTrue, yPred)
    case Err(e) => Err(e)
    case Ok(d) => Ok(Mean(SquareAll(d)))
  }

  /**
   * Weighted mean absolute percentage error, `100 * sum |yTrue - yPred| /
   * sum yTrue`. The shape check comes before the sign check; a zero total
   * gives NaN rather than an error.
   */
  function Wmape(yTrue: seq<real>, yPred: seq<real>): (r: Result<Num, MetricError>)
    ensures |yTrue| != |yPred| ==> r == Err(ShapeMismatch)
    ensures |yTrue| == |yPred| ==>
      (r == Err(NegativeActual) <==> exists i | 0 <= i < |yTrue| :: yTrue[i] < 0.0)
    ensures r.Ok? ==> (r.value.NaN? <==> Sum(yTrue) == 0.0)
  {
    if |yTrue| != |yPred| then Err(ShapeMismatch)
    else if exists i | 0 <= i < |yTrue| :: yTrue[i] < 0.0 then Err(NegativeActual)
    else
      var total := Sum(yTrue);
      if total == 0.0 then Ok(NaN)
      else
        var d := Residuals(yTrue, yPred).value;
        Ok(Value(Sum(AbsAll(d)) / total * 100.0))
  }

  /** The three scores of one evaluation, in the order they are reported. */
  datatype Scores = Scores(mae: Num, rmseSquared: Num, wmape: Num)

  /** Computes MAE, then RMSE, then WMAPE from the same pair; the first metric that raises stops the evaluation. */
  function ModelEvaluator(yTrue: seq<real>, yPred: seq<real>): (r: Result<Scores, MetricError>)
    ensures r.Ok? ==>
      && Mae(yTrue, yPred) == Ok(r.value.mae)
      && RmseSquared(yTrue, yPred) == Ok(r.value.rmseSquared)
      && Wmape(yTrue, yPred) == Ok(r.value.wmape)
    ensures r.Err? <==> Mae(yTrue, yPred).Err? || RmseSquared(yTrue, yPred).Err? || Wmape(yTrue, yPred).Err?
  {
    match Mae(yTrue, yPred)
    case Err(e) => Err(e)
    case Ok(mae) =>
      match RmseSquared(yTrue, yPred)
      case Err(e) => Err(e)
      case Ok(rmse) =>
        match Wmape(yTrue, yPred)
        case Err(e) => Err(e)
        case Ok(wmape) => Ok(Scores(mae, rmse, wmape))
  }

  // ---------------------------------------------------------------------
  // What the metrics promise
  // ---------------------------------------------------------------------

  /** A sum of non-negative terms is zero exactly when every term is. */
  lemma {:induction false} SumZeroIffAllZero(xs: seq<real>)
    requires forall i | 0 <= i < |xs| :: xs[i] >= 0.0
    ensures Sum(xs) >= 0.0
    ensures Sum(xs) == 0.0 <==> forall i | 0 <= i < |xs| :: xs[i] == 0.0
  {
    SumNonNegative(xs);
    if xs != [] {
      var init := xs[..|xs| - 1];
      SumZeroIffAllZero(init);
      assert forall i | 0 <= i < |init| :: init[i] == xs[i];
    }
  }

  /** The mean of non-negative terms is non-negative, and zero exactly when every term is. */
  lemma MeanZeroIffAllZero(xs: seq<real>)
    requires xs != [] && forall i | 0 <= i < |xs| :: xs[i] >= 0.0
    ensures Mean(xs).v >= 0.0
    ensures Mean(xs) == Value(0.0) <==> forall i | 0 <= i < |xs| :: xs[i] == 0.0
  {
    SumZeroIffAllZero(xs);
  }

  /** Sequences of equal length whose differences all vanish are equal. */
  lemma NoResidualMeansEqual(yTrue: seq<real>, yPred: seq<real>)
    requires |yTrue| == |yPred|
    ensures (forall i | 0 <= i < |yTrue| :: yTrue[i] - yPred[i] == 0.0) <==> yTrue == yPred
  {
  }

  /** MAE is never negative, and on equal-length non-empty input it is zero exactly when the predictions equal the actuals. */
  lemma MaeZeroIffExact(yTrue: seq<real>, yPred: seq<real>)
    ensures Mae(yTrue, yPred).Ok? && Mae(yTrue, yPred).value.Value? ==> Mae(yTrue, yPred).value.v >= 0.0
    ensures |yTrue| == |yPred| && yTrue != [] ==> (Mae(yTrue, yPred) == Ok(Value(0.0)) <==> yTrue == yPred)
  {
    var r := Residuals(yTrue, yPred);
    if r.Ok? && r.value != [] {
      var a := AbsAll(r.value);
      MeanZeroIffAllZero(a);
      if |yTrue| == |yPred| {
        NoResidualMeansEqual(yTrue, yPred);
      }
    }
  }

  /** The squared RMSE is never negative, and it is zero when the predictions equal the actuals. */
  lemma RmseZeroWhenExact(yTrue: seq<real>, yPred: seq<real>)
    ensures RmseSquared(yTrue, yPred).Ok? && RmseSquared(yTrue, yPred).value.Value? ==> RmseSquared(yTrue, yPred).value.v >= 0.0
    ensures yTrue == yPred && yTrue != [] ==> RmseSquared(yTrue, yPred) == Ok(Value(0.0))
  {
    var r := Residuals(yTrue, yPred);
    if r.Ok? && r.value != [] {
      var s := SquareAll(r.value);
      MeanZeroIffAllZero(s);
    }
  }

  /** A non-negative numerator over a positive total. */
  lemma PercentNonNegative(num: real, total: real)
    requires num >= 0.0 && total > 0.0
    ensures num / total * 100.0 >= 0.0
    ensures num / total * 100.0 == 0.0 <==> num == 0.0
  {
  }

  /** WMAPE is never negative, and with a positive total it is zero exactly when the predictions equal the actuals. */
  lemma WmapeZeroIffExact(yTrue: seq<real>, yPred: seq<real>)
    ensures Wmape(yTrue, yPred).Ok? && Wmape(yTrue, yPred).value.Value? ==> Wmape(yTrue, yPred).value.v >= 0.0
    ensures Wmape(yTrue, yPred).Ok? && Sum(yTrue) != 0.0 ==>
      (Wmape(yTrue, yPred) == Ok(Value(0.0)) <==> yTrue == yPred)
  {
    var w := Wmape(yTrue, yPred);
    if w.Ok? && Sum(yTrue) != 0.0 {
      SumZeroIffAllZero(yTrue);
      var d := Residuals(yTrue, yPred).value;
      var a := AbsAll(d);
      SumZeroIffAllZero(a);
      PercentNonNegative(Sum(a), Sum(yTrue));
      NoResidualMeansEqual(yTrue, yPred);
    }
  }

  /** Perfect predictions of a series with positive total score zero on all three metrics. */
  lemma PerfectForecastScoresZero(y: seq<real>)
    requires y != [] && (forall i | 0 <= i < |y| :: y[i] >= 0.0) && Sum(y) != 0.0
    ensures ModelEvaluator(y, y) == Ok(Scores(Value(0.0), Value(0.0), Value(0.0)))
  {
    MaeZeroIffExact(y, y);
    RmseZeroWhenExact(y, y);
    WmapeZeroIffExact(y, y);
  }

  /** The five perfectly predicted points 100, 200, 150, 175, 125 score 0, 0 and 0. */
  lemma PerfectFiveScoresZero(y: seq<real>)
    requires y == [100.0, 200.0, 150.0, 175.0, 125.0]
    ensures ModelEvaluator(y, y) == Ok(Scores(Value(0.0), Value(0.0), Value(0.0)))
  {
    assert Sum(y[..1]) == 100.0 by {
      assert y[..1][..0] == [];
    }
    assert Sum(y[..2]) == 300.0 by {
      assert y[..2][..1] == y[..1];
    }
    assert Sum(y[..3]) == 450.0 by {
      assert y[..3][..2] == y[..2];
    }
    assert Sum(y[..4]) == 625.0 by {
      assert y[..4][..3] == y[..3];
    }
    assert Sum(y) == 750.0 by {
      assert y[..4] == y[..|y| - 1];
    }
    PerfectForecastScoresZero(y);
  }

  /**
   * Errors in order: an unbroadcastable pair fails the first metric; a
   * broadcastable pair of different lengths fails only WMAPE's shape
   * check; equal lengths with a negative actual fail WMAPE's sign check.
   */
  lemma EvaluatorErrors(yTrue: seq<real>, yPred: seq<real>)
    ensures Residuals(yTrue, yPred).Err? ==> ModelEvaluator(yTrue, yPred) == Err(BroadcastError)
    ensures Residuals(yTrue, yPred).Ok? && |yTrue| != |yPred| ==> ModelEvaluator(yTrue, yPred) == Err(ShapeMismatch)
    ensures |yTrue| == |yPred| && (exists i | 0 <= i < |yTrue| :: yTrue[i] < 0.0) ==>
      ModelEvaluator(yTrue, yPred) == Err(NegativeActual)
  {
  }
}
