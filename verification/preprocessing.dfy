/**
 * Preprocessing of the cleansed table: winsorise the demand column to the
 * interquartile fence, decide stationarity from a unit-root test, and
 * either add a lag-`order` differenced column (dropping incomplete rows)
 * or a copy of the demand column.
 */
module Preprocessing {
  import opened Common
  import opened Table
  import opened Quantiles

  /** The configuration entries the stage reads; a missing differencing order defaults to 1. */
  datatype Params = Params(
    minimumLength: int,
    pValueThreshold: real,
    winsorisingThreshold: real,
    differencingOrder: Option<int>)

  /** The unit-root test raised. */
  datatype PreprocessError = AdfFailed

  /**
   * The augmented Dickey-Fuller test as an oracle: the p-value it reports
   * for a series, or `None` when it raises.
   */
  type PValueTest = seq<real> -> Option<real>

  // ---------------------------------------------------------------------
  // stationarity_check
  // ---------------------------------------------------------------------

  /**
   * Whether the demand column counts as stationary. Too few present
   * values skip the test and count as stationary; otherwise the series is
   * non-stationary exactly when the p-value exceeds the threshold, and a
   * failing test propagates.
   */
  function StationarityCheck(demands: seq<Option<real>>, params: Params, adf: PValueTest): (r: Result<bool, PreprocessError>)
    ensures |Present(demands)| < params.minimumLength ==> r == Ok(true)
    ensures |Present(demands)| >= params.minimumLength ==>
      && (r.Err? <==> adf(Present(demands)).None?)
      && (r == Ok(false) <==> adf(Present(demands)).Some? && adf(Present(demands)).value > params.pValueThreshold)
  {
    var ts := Present(demands);
    if |ts| < params.minimumLength then Ok(true)
    else
      match adf(ts)
      case None => Err(AdfFailed)
      case Some(p) => Ok(!(p > params.pValueThreshold))
  }

  /** A series too short for the test gets the same answer whatever the test would say. */
  lemma ShortSeriesSkipsTest(demands: seq<Option<real>>, params: Params, adf1: PValueTest, adf2: PValueTest)
    requires |Present(demands)| < params.minimumLength
    ensures StationarityCheck(demands, params, adf1) == StationarityCheck(demands, params, adf2) == Ok(true)
  {
  }

  // ---------------------------------------------------------------------
  // Winsorisation
  // ---------------------------------------------------------------------

  datatype Bounds = Bounds(lower: real, upper: real)

  /**
   * The fences `q1 - t * iqr` and `q3 + t * iqr` of the present demand
   * values; none when no value is present (the quartiles are then NaN).
   */
  function WinsorBounds(demands: seq<Option<real>>, t: real): (b: Option<Bounds>)
    ensures b.None? <==> Present(demands) == []
  {
    var xs := Present(demands);
    if xs == [] then None
    else
      Some(Bounds(LowerFence(Q1(xs), Q3(xs), t), UpperFence(Q1(xs), Q3(xs), t)))
  }

  /** `q1 - t * iqr`, with `iqr = q3 - q1`. */
  function LowerFence(q1: real, q3: real, t: real): real {
    q1 - t * (q3 - q1)
  }

  /** `q3 + t * iqr`, with `iqr = q3 - q1`. */
  function UpperFence(q1: real, q3: real, t: real): real {
    q3 + t * (q3 - q1)
  }

  /** With a non-negative multiplier the fences enclose the quartiles, so the lower one is at most the upper one. */
  lemma BoundsOrdered(demands: seq<Option<real>>, t: real)
    requires t >= 0.0 && Present(demands) != []
    ensures var xs := Present(demands); var b := WinsorBounds(demands, t).value;
      b.lower <= Q1(xs) <= Q3(xs) <= b.upper
  {
    var xs := Present(demands);
    QuartilesOrdered(xs);
    FencesEnclose(Q1(xs), Q3(xs), t);
  }

  lemma FencesEnclose(q1: real, q3: real, t: real)
    requires q1 <= q3 && t >= 0.0
    ensures LowerFence(q1, q3, t) <= q1 && q3 <= UpperFence(q1, q3, t)
  {
    MulNonNegative(t, q3 - q1);
  }

  /** The smaller of the two fences (pandas `clip` swaps fences given in the wrong order). */
  function Low(b: Bounds): real {
    if b.lower <= b.upper then b.lower else b.upper
  }

  function High(b: Bounds): real {
    if b.lower <= b.upper then b.upper else b.lower
  }

  /**
   * `x` clipped to the fences: it lands between them, is unchanged exactly
   * when it already was, and otherwise becomes the nearest fence.
   */
  function ClipValue(x: real, b: Bounds): (y: real)
    ensures Low(b) <= y <= High(b)
    ensures y == x <==> Low(b) <= x <= High(b)
    ensures x < Low(b) ==> y == Low(b)
    ensures x > High(b) ==> y == High(b)
  {
    if x < Low(b) then Low(b) else if x > High(b) then High(b) else x
  }

  /** One demand cell clipped; a missing cell stays missing and missing fences clip nothing. */
  function ClipCell(v: Option<real>, b: Option<Bounds>): (r: Option<real>)
    ensures r.Some? <==> v.Some?
    ensures b.None? ==> r == v
  {
    match v
    case None => None
    case Some(x) => if b.None? then v else Some(ClipValue(x, b.value))
  }

  /** The demand column after clipping. */
  function ClipColumn(demands: seq<Option<real>>, b: Option<Bounds>): (c: seq<Option<real>>)
    ensures |c| == |demands|
  {
    seq(|demands|, i requires 0 <= i < |demands| => ClipCell(demands[i], b))
  }

  /** A present demand strictly outside the fences as given. */
  predicate Outside(v: Option<real>, b: Bounds) {
    v.Some? && (v.value < b.lower || v.value > b.upper)
  }

  /** How many cells lie strictly outside the fences. */
  function CountOutside(cells: seq<Option<real>>, b: Bounds): nat {
    if cells == [] then 0
    else CountOutside(cells[..|cells| - 1], b) + (if Outside(Last(cells), b) then 1 else 0)
  }

  /** At how many positions two columns of the same length differ. */
  function CountChanged(before: seq<Option<real>>, after: seq<Option<real>>): nat
    requires |before| == |after|
  {
    if before == [] then 0
    else
      CountChanged(before[..|before| - 1], after[..|after| - 1])
        + (if Last(before) != Last(after) then 1 else 0)
  }

  /** The number of winsorised values the stage reports. */
  function WinsorCount(demands: seq<Option<real>>, b: Option<Bounds>): nat {
    if b.None? then 0 else CountOutside(demands, b.value)
  }

  /**
   * After clipping every present demand lies within the fences: one already
   * inside is unchanged, one below the lower fence becomes that fence, and
   * one above the upper fence becomes that fence.
   */
  lemma ClippedWithinBounds(demands: seq<Option<real>>, t: real)
    requires t >= 0.0 && Present(demands) != []
    ensures var b := WinsorBounds(demands, t).value; var c := ClipColumn(demands, Some(b));
      forall i | 0 <= i < |demands| && demands[i].Some? ::
        && b.lower <= c[i].value <= b.upper
        && (b.lower <= demands[i].value <= b.upper ==> c[i] == demands[i])
        && (demands[i].value < b.lower ==> c[i] == Some(b.lower))
        && (demands[i].value > b.upper ==> c[i] == Some(b.upper))
  {
    BoundsOrdered(demands, t);
  }

  /** With ordered fences the reported count is exactly the number of cells clipping changes. */
  lemma {:induction false} WinsorCountIsChanged(demands: seq<Option<real>>, b: Bounds)
    requires b.lower <= b.upper
    ensures CountOutside(demands, b) == CountChanged(demands, ClipColumn(demands, Some(b)))
  {
    if demands != [] {
      var init := demands[..|demands| - 1];
      var c := ClipColumn(demands, Some(b));
      assert c[..|c| - 1] == ClipColumn(init, Some(b));
      WinsorCountIsChanged(init, b);
    }
  }

  // ---------------------------------------------------------------------
  // Differencing
  // ---------------------------------------------------------------------

  /** A row of the preprocessed table: the row and its new differenced (or copied) column. */
  datatype PreRow = PreRow(row: Row, diff: Option<real>)

  /** `v[i] - v[i - order]` (pandas `diff(order)`), missing when either side is missing or out of range. */
  function DiffAt(v: seq<Option<real>>, i: int, order: int): Option<real>
    requires 0 <= i < |v|
  {
    var j := i - order;
    if 0 <= j < |v| && v[i].Some? && v[j].Some? then Some(v[i].value - v[j].value) else None
  }

  /** No missing field: a timestamp, a demand, every other column and the new column. */
  predicate Complete(p: PreRow) {
    && p.row.ts.Some?
    && p.row.demand.Some?
    && (forall c | c in p.row.others :: c.Some?)
    && p.diff.Some?
  }

  /** The complete rows, in order (pandas `dropna`). */
  function DropIncomplete(ps: seq<PreRow>): (kept: seq<PreRow>)
    ensures |kept| <= |ps|
    ensures forall p :: p in kept <==> p in ps && Complete(p)
  {
    if ps == [] then []
    else
      var init := DropIncomplete(ps[..|ps| - 1]);
      assert ps == ps[..|ps| - 1] + [Last(ps)];
      if Complete(Last(ps)) then init + [Last(ps)] else init
  }

  /** `rows` with its demand column replaced by `col`. */
  function WithDemand(rows: seq<Row>, col: seq<Option<real>>): (r: seq<Row>)
    requires |col| == |rows|
    ensures |r| == |rows|
  {
    seq(|rows|, i requires 0 <= i < |rows| => rows[i].(demand := col[i]))
  }

  /** The table after winsorisation. */
  function Winsorised(rows: seq<Row>, params: Params): (w: seq<Row>)
    ensures |w| == |rows|
  {
    var d := Demands(rows);
    WithDemand(rows, ClipColumn(d, WinsorBounds(d, params.winsorisingThreshold)))
  }

  /** Each row with its demand copied into the new column. */
  function CopiedColumn(rows: seq<Row>): (ps: seq<PreRow>)
    ensures |ps| == |rows|
  {
    seq(|rows|, i requires 0 <= i < |rows| => PreRow(rows[i], rows[i].demand))
  }

  /** Each row with the lag-`order` difference of the demand column. */
  function DiffColumn(rows: seq<Row>, order: int): (ps: seq<PreRow>)
    ensures |ps| == |rows|
  {
    var v := Demands(rows);
    seq(|rows|, i requires 0 <= i < |rows| => PreRow(rows[i], DiffAt(v, i, order)))
  }

  /** What `data_preprocessing` returns or raises. */
  function PreprocessSpec(rows: seq<Row>, params: Params, adf: PValueTest): Result<seq<PreRow>, PreprocessError> {
    var w := Winsorised(rows, params);
    match StationarityCheck(Demands(w), params, adf)
    case Err(e) => Err(e)
    case Ok(stationary) =>
      if stationary then Ok(CopiedColumn(w))
      else Ok(DropIncomplete(DiffColumn(w, params.differencingOrder.GetOr(1))))
  }

  /**
   * Winsorises a copy of the table, then adds the differenced column and
   * drops incomplete rows, or adds a copy of the demand column. Also
   * returns the number of values found outside the fences. The caller's
   * table is only read.
   */
  method DataPreprocessing(cleansed: array<Row>, params: Params, adf: PValueTest)
    returns (res: Result<seq<PreRow>, PreprocessError>, numWinsorized: nat)
    ensures res == PreprocessSpec(cleansed[..], params, adf)
    ensures var d := Demands(cleansed[..]);
      numWinsorized == WinsorCount(d, WinsorBounds(d, params.winsorisingThreshold))
  {
    var frame := new Row[cleansed.Length](i reads cleansed requires 0 <= i < cleansed.Length => cleansed[i]);
    assert frame[..] == cleansed[..];
    var d := Demands(frame[..]);
    var bounds := WinsorBounds(d, params.winsorisingThreshold);
    numWinsorized := CountWinsorized(d, bounds);
    ClipDemands(frame, bounds);
    assert frame[..] == Winsorised(cleansed[..], params);
    var stationary := StationarityCheck(Demands(frame[..]), params, adf);
    if stationary.Err? {
      return Err(stationary.error), numWinsorized;
    }
    if !stationary.value {
      var order := params.differencingOrder.GetOr(1);
      var withDiff := AddDiffColumn(frame[..], order);
      var kept := DropNa(withDiff);
      res := Ok(kept);
    } else {
      var withCopy := AddCopyColumn(frame[..]);
      res := Ok(withCopy);
    }
  }

  /** Counts the present demands outside the fences. */
  method CountWinsorized(d: seq<Option<real>>, bounds: Option<Bounds>) returns (count: nat)
    ensures count == WinsorCount(d, bounds)
  {
    count := 0;
    if bounds.None? {
      return;
    }
    for i := 0 to |d|
      invariant count == CountOutside(d[..i], bounds.value)
    {
      assert d[..i + 1][..i] == d[..i];
      if Outside(d[i], bounds.value) {
        count := count + 1;
      }
    }
    assert d[..|d|] == d;
  }

  /** Clips the demand column of `frame` in place. */
  method ClipDemands(frame: array<Row>, bounds: Option<Bounds>)
    modifies frame
    ensures forall i | 0 <= i < frame.Length ::
      frame[i] == old(frame[i]).(demand := ClipCell(old(frame[i]).demand, bounds))
  {
    for i := 0 to frame.Length
      invariant forall k | 0 <= k < i ::
        frame[k] == old(frame[k]).(demand := ClipCell(old(frame[k]).demand, bounds))
      invariant forall k | i <= k < frame.Length :: frame[k] == old(frame[k])
    {
      frame[i] := frame[i].(demand := ClipCell(frame[i].demand, bounds));
    }
  }

  /** Builds the rows with the lag-`order` difference column. */
  method AddDiffColumn(rows: seq<Row>, order: int) returns (ps: seq<PreRow>)
    ensures ps == DiffColumn(rows, order)
  {
    var v := Demands(rows);
    ps := [];
    for i := 0 to |rows|
      invariant |ps| == i
      invariant forall k | 0 <= k < i :: ps[k] == PreRow(rows[k], DiffAt(v, k, order))
    {
      var j := i - order;
      var diff := if 0 <= j < |v| && v[i].Some? && v[j].Some? then Some(v[i].value - v[j].value) else None;
      ps := ps + [PreRow(rows[i], diff)];
    }
  }

  /** Builds the rows with the demand copied into the new column. */
  method AddCopyColumn(rows: seq<Row>) returns (ps: seq<PreRow>)
    ensures ps == CopiedColumn(rows)
  {
    ps := [];
    for i := 0 to |rows|
      invariant |ps| == i
      invariant forall k | 0 <= k < i :: ps[k] == PreRow(rows[k], rows[k].demand)
    {
      ps := ps + [PreRow(rows[i], rows[i].demand)];
    }
  }

  /** Keeps the complete rows. */
  method DropNa(ps: seq<PreRow>) returns (kept: seq<PreRow>)
    ensures kept == DropIncomplete(ps)
  {
    kept := [];
    for i := 0 to |ps|
      invariant kept == DropIncomplete(ps[..i])
    {
      assert ps[..i + 1][..i] == ps[..i];
      if Complete(ps[i]) {
        kept := kept + [ps[i]];
      }
    }
    assert ps[..|ps|] == ps;
  }

  // ---------------------------------------------------------------------
  // What the stage promises
  // ---------------------------------------------------------------------

  /** When no differencing is needed the new column is a copy of the winsorised demand and no row is dropped. */
  lemma StationaryCopiesDemand(rows: seq<Row>, params: Params, adf: PValueTest)
    requires StationarityCheck(Demands(Winsorised(rows, params)), params, adf) == Ok(true)
    ensures var res := PreprocessSpec(rows, params, adf);
      && res.Ok?
      && |res.value| == |rows|
      && forall i | 0 <= i < |rows| ::
           res.value[i].row == Winsorised(rows, params)[i] && res.value[i].diff == res.value[i].row.demand
  {
  }

  /**
   * When differencing is needed every kept row is complete and carries
   * `v[i] - v[i - order]` for its own position `i >= order`, and the
   * first `order` rows are gone.
   */
  lemma DifferencedRows(rows: seq<Row>, params: Params, adf: PValueTest)
    requires StationarityCheck(Demands(Winsorised(rows, params)), params, adf) == Ok(false)
    requires params.differencingOrder.GetOr(1) >= 0
    ensures var res := PreprocessSpec(rows, params, adf);
      var w := Winsorised(rows, params);
      var order := params.differencingOrder.GetOr(1);
      && res.Ok?
      && (forall p | p in res.value :: Complete(p))
      && (forall p | p in res.value :: DiffOfOwnRow(w, order, p))
      && (order <= |rows| ==> |res.value| <= |rows| - order)
      && (order >= |rows| ==> res.value == [])
  {
    var w := Winsorised(rows, params);
    var order := params.differencingOrder.GetOr(1);
    var out := DropIncomplete(DiffColumn(w, order));
    assert PreprocessSpec(rows, params, adf) == Ok(out);
    forall p | p in out ensures DiffOfOwnRow(w, order, p) {
      DifferencedKept(w, order, p);
    }
    DifferencedCount(w, order);
  }

  /** `p` is some row `w[i]`, `i >= order`, with `w[i].demand - w[i - order].demand` as its new column. */
  predicate DiffOfOwnRow(w: seq<Row>, order: nat, p: PreRow) {
    exists i | order <= i < |w| && w[i].demand.Some? && w[i - order].demand.Some? ::
      p == PreRow(w[i], Some(w[i].demand.value - w[i - order].demand.value))
  }

  /** Each complete row of the differenced table carries the difference at its own position. */
  lemma DifferencedKept(w: seq<Row>, order: nat, p: PreRow)
    requires p in DropIncomplete(DiffColumn(w, order))
    ensures DiffOfOwnRow(w, order, p)
  {
    var ps := DiffColumn(w, order);
    assert p in ps && Complete(p);
    var i :| 0 <= i < |ps| && ps[i] == p;
    assert p == PreRow(w[i], DiffAt(Demands(w), i, order));
    DiffPresent(w, i, order);
    assert order <= i < |w| && w[i].demand.Some? && w[i - order].demand.Some?;
  }

  /** A present difference has both operands in range and present. */
  lemma DiffPresent(w: seq<Row>, i: int, order: nat)
    requires 0 <= i < |w| && DiffAt(Demands(w), i, order).Some?
    ensures order <= i && w[i].demand.Some? && w[i - order].demand.Some?
    ensures DiffAt(Demands(w), i, order) == Some(w[i].demand.value - w[i - order].demand.value)
  {
    var v := Demands(w);
    assert v[i] == w[i].demand && v[i - order] == w[i - order].demand;
  }

  /** The first `order` rows of the differenced table never survive. */
  lemma DifferencedCount(w: seq<Row>, order: nat)
    ensures var out := DropIncomplete(DiffColumn(w, order));
      && (order <= |w| ==> |out| <= |w| - order)
      && (order >= |w| ==> out == [])
  {
    var ps := DiffColumn(w, order);
    assert forall i | 0 <= i < |ps| && i < order :: ps[i].diff.None?;
    if order < |ps| {
      LeadingIncompleteDropped(ps, order);
    } else {
      assert forall p | p in ps :: !Complete(p);
      AllIncompleteDropped(ps);
    }
  }

  /** Dropping incomplete rows when the first `n` are incomplete keeps at most the rest. */
  lemma {:induction false} LeadingIncompleteDropped(ps: seq<PreRow>, n: nat)
    requires n <= |ps| && forall i | 0 <= i < n :: !Complete(ps[i])
    ensures |DropIncomplete(ps)| <= |ps| - n
    decreases |ps|
  {
    if |ps| > n {
      var init := ps[..|ps| - 1];
      assert forall i | 0 <= i < n :: init[i] == ps[i];
      LeadingIncompleteDropped(init, n);
    } else if ps != [] {
      AllIncompleteDropped(ps);
    }
  }

  /** Nothing survives when no row is complete. */
  lemma {:induction false} AllIncompleteDropped(ps: seq<PreRow>)
    requires forall p | p in ps :: !Complete(p)
    ensures DropIncomplete(ps) == []
  {
    if ps != [] {
      var init := ps[..|ps| - 1];
      assert forall p | p in init :: p in ps;
      assert Last(ps) in ps;
      AllIncompleteDropped(init);
    }
  }

  /**
   * Clipping keeps every cell present or missing as it was, so the
   * stationarity decision sees as many values as the cleansed column has.
   */
  lemma {:induction false} ClippingKeepsPresence(demands: seq<Option<real>>, b: Option<Bounds>)
    ensures |Present(ClipColumn(demands, b))| == |Present(demands)|
  {
    if demands != [] {
      var init := demands[..|demands| - 1];
      var c := ClipColumn(demands, b);
      assert c[..|c| - 1] == ClipColumn(init, b);
      assert Last(c) == ClipCell(Last(demands), b);
      ClippingKeepsPresence(init, b);
    }
  }

  /** A table with too few present demands is winsorised and copied, whatever the test would say. */
  lemma ShortTableIsCopied(rows: seq<Row>, params: Params, adf: PValueTest)
    requires |Present(Demands(rows))| < params.minimumLength
    ensures PreprocessSpec(rows, params, adf) == Ok(CopiedColumn(Winsorised(rows, params)))
  {
    var d := Demands(rows);
    var c := ClipColumn(d, WinsorBounds(d, params.winsorisingThreshold));
    ClippingKeepsPresence(d, WinsorBounds(d, params.winsorisingThreshold));
    assert Demands(Winsorised(rows, params)) == c;
  }
}
