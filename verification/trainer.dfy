/**
 * Fold selection: fit a model on each fold's training slice, forecast
 * the fold's test horizon, score the forecast, and keep the fold with the
 * strictly smallest score. The folds, the fitter and the forecaster are
 * inputs.
 */
module Trainer {
  import opened Common
  import opened Evaluator

  /** The positions of one fold's training and test slices. */
  datatype Fold = Fold(train: seq<nat>, test: seq<nat>)

  /** The best score so far: infinity until some fold scores a number. */
  datatype BestScore = Infinity | Finite(v: real)

  /** What the trainer returns: the best fold's model, test targets, predictions, and its score. */
  datatype Training<M> = Training(model: Option<M>, yTest: Option<seq<real>>, preds: Option<seq<real>>, score: BestScore)

  predicate InRange(y: seq<real>, idx: seq<nat>) {
    forall k | 0 <= k < |idx| :: idx[k] < |y|
  }

  /** Every position of every fold is a position of the series. */
  predicate FoldsInRange(y: seq<real>, folds: seq<Fold>) {
    forall k | 0 <= k < |folds| :: InRange(y, folds[k].train) && InRange(y, folds[k].test)
  }

  /** The series at the given positions (pandas `iloc`). */
  function Take(y: seq<real>, idx: seq<nat>): (r: seq<real>)
    requires InRange(y, idx)
    ensures |r| == |idx| && forall k | 0 <= k < |idx| :: r[k] == y[idx[k]]
  {
    seq(|idx|, k requires 0 <= k < |idx| => y[idx[k]])
  }

  /**
   * Fitting a model on a training slice (`model.fit`); `None` when fitting
   * raises.
   */
  type Fitter<M> = seq<real> -> Option<M>

  /**
   * Forecasting a horizon with a fitted model (`predict(steps=...)`);
   * `None` when predicting raises.
   */
  type Forecaster<!M> = (M, nat) -> Option<seq<real>>

  /** Why training a fold raises: the fit, the prediction, or the RMSE. */
  datatype TrainError = FitFailed | PredictFailed | Metric(cause: MetricError)

  /** The fold's score: the squared RMSE of its forecast against its test slice, or the first error on the way. */
  function FoldScore<M>(y: seq<real>, f: Fold, fit: Fitter<M>, forecast: Forecaster<M>): Result<Num, TrainError>
    requires InRange(y, f.train) && InRange(y, f.test)
  {
    match fit(Take(y, f.train))
    case None => Err(FitFailed)
    case Some(model) =>
      match forecast(model, |f.test|)
      case None => Err(PredictFailed)
      case Some(preds) =>
        match RmseSquared(Take(y, f.test), preds)
        case Err(e) => Err(Metric(e))
        case Ok(score) => Ok(score)
  }

  /** Nothing selected yet. */
  function Initial<M>(): Training<M> {
    Training(None, None, None, Infinity)
  }

  /** The training result that records fold `f`, which trained without raising, with score `s`. */
  function Chosen<M>(y: seq<real>, f: Fold, fit: Fitter<M>, forecast: Forecaster<M>, s: real): Training<M>
    requires InRange(y, f.train) && InRange(y, f.test) && FoldScore(y, f, fit, forecast).Ok?
  {
    var model := fit(Take(y, f.train)).value;
    Training(Some(model), Some(Take(y, f.test)), Some(forecast(model, |f.test|).value), Finite(s))
  }

  /** Every fold's score, in fold order. */
  function FoldScores<M>(y: seq<real>, folds: seq<Fold>, fit: Fitter<M>, forecast: Forecaster<M>): (scores: seq<Result<Num, TrainError>>)
    requires FoldsInRange(y, folds)
    ensures |scores| == |folds|
    ensures forall k | 0 <= k < |folds| :: scores[k] == FoldScore(y, folds[k], fit, forecast)
  {
    seq(|folds|, k requires 0 <= k < |folds| => FoldScore(y, folds[k], fit, forecast))
  }

  /**
   * The fold the loop keeps after scanning `scores` in order: a score
   * replaces the current best only when it is a number strictly below it
   * (every number is below the initial infinity); a failing score raises.
   */
  function BestIndex(scores: seq<Result<Num, TrainError>>): (best: Result<Option<nat>, TrainError>)
    ensures best.Ok? && best.value.Some? ==>
      best.value.value < |scores| && scores[best.value.value].Ok? && scores[best.value.value].value.Value?
  {
    if scores == [] then Ok(None)
    else
      var n := |scores| - 1;
      var prev := BestIndex(scores[..n]);
      if prev.Err? then prev
      else
        match scores[n]
        case Err(e) => Err(e)
        case Ok(NaN) => prev
        case Ok(Value(s)) =>
          if prev.value.None? || s < scores[prev.value.value].value.v then Ok(Some(n)) else prev
  }

  /** The training result recording the kept fold, or the initial state when none was kept. */
  function Outcome<M>(y: seq<real>, folds: seq<Fold>, fit: Fitter<M>, forecast: Forecaster<M>, best: Option<nat>): Training<M>
    requires FoldsInRange(y, folds)
    requires best.Some? ==>
      && best.value < |folds|
      && FoldScore(y, folds[best.value], fit, forecast).Ok?
      && FoldScore(y, folds[best.value], fit, forecast).value.Value?
  {
    match best
    case None => Initial()
    case Some(k) => Chosen(y, folds[k], fit, forecast, FoldScore(y, folds[k], fit, forecast).value.v)
  }

  /** What `model_trainer` returns or raises. */
  function TrainSpec<M>(y: seq<real>, folds: seq<Fold>, fit: Fitter<M>, forecast: Forecaster<M>): Result<Training<M>, TrainError>
    requires FoldsInRange(y, folds)
  {
    match BestIndex(FoldScores(y, folds, fit, forecast))
    case Err(e) => Err(e)
    case Ok(best) => Ok(Outcome(y, folds, fit, forecast, best))
  }

  /**
   * Trains and scores each fold in turn, keeping the model, test targets
   * and predictions of the first fold with the smallest score.
   */
  method ModelTrainer<M>(y: seq<real>, folds: seq<Fold>, fit: Fitter<M>, forecast: Forecaster<M>)
    returns (res: Result<Training<M>, TrainError>)
    requires FoldsInRange(y, folds)
    ensures res == TrainSpec(y, folds, fit, forecast)
  {
    ghost var scores := FoldScores(y, folds, fit, forecast);
    var bestScore: BestScore := Infinity;
    var bestModel: Option<M> := None;
    var bestYTest: Option<seq<real>> := None;
    var bestPreds: Option<seq<real>> := None;
    ghost var best: Option<nat> := None;
    for k := 0 to |folds|
      invariant BestIndex(scores[..k]) == Ok(best)
      invariant best.Some? ==> best.value < k
      invariant Training(bestModel, bestYTest, bestPreds, bestScore) == Outcome(y, folds, fit, forecast, best)
    {
      ScanStep(scores, k);
      var yTrain := Take(y, folds[k].train);
      var yTest := Take(y, folds[k].test);
      var trained := fit(yTrain);
      if trained.None? {
        FailAt(scores, k);
        return Err(FitFailed);
      }
      var model := trained.value;
      var predicted := forecast(model, |yTest|);
      if predicted.None? {
        FailAt(scores, k);
        return Err(PredictFailed);
      }
      var preds := predicted.value;
      var score := RmseSquared(yTest, preds);
      if score.Err? {
        FailAt(scores, k);
        return Err(Metric(score.error));
      }
      assert scores[k] == Ok(score.value);
      if score.value.Value? && (bestScore.Infinity? || score.value.v < bestScore.v) {
        bestScore := Finite(score.value.v);
        bestModel := Some(model);
        bestYTest := Some(yTest);
        bestPreds := Some(preds);
        best := Some(k);
      }
    }
    assert scores[..|folds|] == scores;
    return Ok(Training(bestModel, bestYTest, bestPreds, bestScore));
  }

  /** Scanning one more score. */
  lemma ScanStep(scores: seq<Result<Num, TrainError>>, k: int)
    requires 0 <= k < |scores|
    ensures var prev := BestIndex(scores[..k]);
      BestIndex(scores[..k + 1]) ==
        if prev.Err? then prev
        else match scores[k]
          case Err(e) => Err(e)
          case Ok(NaN) => prev
          case Ok(Value(s)) =>
            if prev.value.None? || s < scores[prev.value.value].value.v then Ok(Some(k)) else prev
  {
    assert scores[..k + 1][..k] == scores[..k];
  }

  /** A score that raises after a prefix that did not ends the scan with its error. */
  lemma FailAt(scores: seq<Result<Num, TrainError>>, k: int)
    requires 0 <= k < |scores| && BestIndex(scores[..k]).Ok? && scores[k].Err?
    ensures BestIndex(scores) == Err(scores[k].error)
  {
    ScanStep(scores, k);
    ErrorPersists(scores, k + 1);
  }

  /** Once a score raises, the scan's result is that error. */
  lemma {:induction false} ErrorPersists(scores: seq<Result<Num, TrainError>>, n: nat)
    requires n <= |scores| && BestIndex(scores[..n]).Err?
    ensures BestIndex(scores) == BestIndex(scores[..n])
    decreases |scores| - n
  {
    if n < |scores| {
      assert scores[..n + 1][..n] == scores[..n];
      ErrorPersists(scores, n + 1);
    } else {
      assert scores[..n] == scores;
    }
  }

  // ---------------------------------------------------------------------
  // What the selection promises
  // ---------------------------------------------------------------------

  /** Every score is computed without raising. */
  predicate AllScored(scores: seq<Result<Num, TrainError>>) {
    forall k | 0 <= k < |scores| :: scores[k].Ok?
  }

  /** Score `k` is a number, no score is smaller, and every earlier score is larger or NaN. */
  predicate FirstMinimum(scores: seq<Result<Num, TrainError>>, k: int)
    requires AllScored(scores)
  {
    && 0 <= k < |scores|
    && scores[k].value.Value?
    && (forall j | 0 <= j < |scores| && scores[j].value.Value? :: scores[k].value.v <= scores[j].value.v)
    && (forall j | 0 <= j < k && scores[j].value.Value? :: scores[k].value.v < scores[j].value.v)
  }

  /**
   * The scan raises exactly when some score raises, and then with the
   * error of the first such score.
   */
  lemma {:induction false} FailsOnFirstFailure(scores: seq<Result<Num, TrainError>>)
    ensures BestIndex(scores).Ok? <==> AllScored(scores)
    ensures BestIndex(scores).Err? ==>
      exists k | 0 <= k < |scores| ::
        && scores[k] == Err(BestIndex(scores).error)
        && forall j | 0 <= j < k :: scores[j].Ok?
  {
    if scores != [] {
      var n := |scores| - 1;
      var init := scores[..n];
      assert forall k | 0 <= k < n :: init[k] == scores[k];
      FailsOnFirstFailure(init);
    }
  }

  /**
   * When no score raises the scan keeps nothing exactly when every score
   * is NaN, and otherwise keeps the first fold with the smallest score.
   */
  lemma {:induction false} KeepsFirstMinimum(scores: seq<Result<Num, TrainError>>)
    requires AllScored(scores)
    ensures BestIndex(scores).Ok?
    ensures BestIndex(scores).value.None? <==> forall k | 0 <= k < |scores| :: scores[k].value.NaN?
    ensures BestIndex(scores).value.Some? ==> FirstMinimum(scores, BestIndex(scores).value.value)
  {
    FailsOnFirstFailure(scores);
    if scores != [] {
      var n := |scores| - 1;
      var init := scores[..n];
      assert forall k | 0 <= k < n :: init[k] == scores[k];
      assert AllScored(init);
      KeepsFirstMinimum(init);
      var prev := BestIndex(init).value;
      if prev.Some? {
        assert FirstMinimum(init, prev.value);
        if scores[n].value.Value? && scores[n].value.v < scores[prev.value].value.v {
          assert FirstMinimum(scores, n);
        } else {
          assert FirstMinimum(scores, prev.value);
        }
      } else if scores[n].value.Value? {
        assert FirstMinimum(scores, n);
      }
    }
  }

  /**
   * The trainer in its own terms: it raises exactly when training or
   * scoring some fold raises (fitting, predicting or the RMSE), and then
   * with the error of the first such fold; otherwise it returns the initial state when every score is
   * NaN (in particular with no folds), and else the model, test targets,
   * predictions and score of the first fold with the smallest score.
   */
  lemma TrainSelectsFirstMinimum<M>(y: seq<real>, folds: seq<Fold>, fit: Fitter<M>, forecast: Forecaster<M>)
    requires FoldsInRange(y, folds)
    ensures var scores := FoldScores(y, folds, fit, forecast); var res := TrainSpec(y, folds, fit, forecast);
      && (res.Ok? <==> AllScored(scores))
      && (res.Err? ==> exists k | 0 <= k < |folds| ::
            && FoldScore(y, folds[k], fit, forecast) == Err(res.error)
            && forall j | 0 <= j < k :: scores[j].Ok?)
      && (res.Ok? && (forall k | 0 <= k < |folds| :: scores[k].value.NaN?) ==> res.value == Initial())
      && (res.Ok? && res.value.score.Finite? ==> exists k ::
            && FirstMinimum(scores, k)
            && res.value == Chosen(y, folds[k], fit, forecast, scores[k].value.v))
  {
    var scores := FoldScores(y, folds, fit, forecast);
    FailsOnFirstFailure(scores);
    if AllScored(scores) {
      KeepsFirstMinimum(scores);
    }
  }

  /**
   * A fitter that never raises, and a forecaster that never raises on a
   * fitted model and returns as many values as the horizon asks for, never
   * make the trainer raise.
   */
  lemma HorizonMatchesTest<M>(y: seq<real>, folds: seq<Fold>, fit: Fitter<M>, forecast: Forecaster<M>)
    requires FoldsInRange(y, folds)
    requires forall train: seq<real> :: fit(train).Some?
    requires forall train: seq<real>, h: nat ::
      fit(train).Some? ==> forecast(fit(train).value, h).Some? && |forecast(fit(train).value, h).value| == h
    ensures TrainSpec(y, folds, fit, forecast).Ok?
  {
    var scores := FoldScores(y, folds, fit, forecast);
    forall k | 0 <= k < |folds| ensures scores[k].Ok? {
      var f := folds[k];
      var train := Take(y, f.train);
      var h: nat := |f.test|;
      assert forecast(fit(train).value, h).Some? && |forecast(fit(train).value, h).value| == h;
      assert |Take(y, f.test)| == h;
    }
    FailsOnFirstFailure(scores);
  }

  /** With no folds the result is no model, no targets, no predictions and an infinite score. */
  lemma NoFolds<M>(y: seq<real>, fit: Fitter<M>, forecast: Forecaster<M>)
    ensures TrainSpec(y, [], fit, forecast) == Ok(Training(None, None, None, Infinity))
  {
  }
}
