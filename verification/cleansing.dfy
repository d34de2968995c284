/**
 * Cleansing, continuity checking and gap imputation of the demand table
 * (src/forecasting_engine/data/cleansing.py).
 */
module Cleansing {
  import opened Common
  import opened Table
  import opened Ticks

  // ---------------------------------------------------------------------
  // data_cleanser
  // ---------------------------------------------------------------------

  predicate HasTimestampAndDemand(r: Row) {
    r.ts.Some? && r.demand.Some?
  }

  /** The rows whose timestamp and demand are both present (`dropna` on those two columns). */
  function DropMissing(rows: seq<Row>): (kept: seq<Row>)
    ensures forall r :: r in kept <==> r in rows && HasTimestampAndDemand(r)
  {
    if rows == [] then []
    else
      var init := DropMissing(rows[..|rows| - 1]);
      assert rows == rows[..|rows| - 1] + [Last(rows)];
      if HasTimestampAndDemand(Last(rows)) then init + [Last(rows)] else init
  }

  /** The first occurrence of every whole row (`drop_duplicates`, keeping the first). */
  function DropDuplicates(rows: seq<Row>): (kept: seq<Row>)
    ensures forall r :: r in kept <==> r in rows
    ensures Distinct(kept)
  {
    if rows == [] then []
    else
      var init := DropDuplicates(rows[..|rows| - 1]);
      var r := Last(rows);
      assert rows == rows[..|rows| - 1] + [r];
      if r in rows[..|rows| - 1] then init
      else
        assert forall i | 0 <= i < |init| :: init[i] in init && init[i] != r;
        init + [r]
  }

  predicate IsNegative(r: Row) {
    r.demand.Some? && r.demand.value < 0.0
  }

  /** The demands that are present and non-negative, in order. */
  function NonNegativeDemands(rows: seq<Row>): (xs: seq<real>)
    ensures forall x | x in xs :: x >= 0.0
    ensures xs == [] <==> forall r | r in rows :: r.demand.None? || IsNegative(r)
  {
    if rows == [] then []
    else
      var init := NonNegativeDemands(rows[..|rows| - 1]);
      var r := Last(rows);
      assert rows == rows[..|rows| - 1] + [r];
      if r.demand.Some? && r.demand.value >= 0.0 then init + [r.demand.value] else init
  }

  /** What is written over a negative demand: the mean of the non-negative demands, NaN when there is none. */
  function NegativeFill(rows: seq<Row>): Option<real> {
    match Mean(NonNegativeDemands(rows))
    case Value(m) => Some(m)
    case NaN => None
  }

  function ReplaceNegative(r: Row, fill: Option<real>): Row {
    if IsNegative(r) then r.(demand := fill) else r
  }

  /** The table `data_cleanser` returns for `raw`. */
  function Cleansed(raw: seq<Row>): seq<Row> {
    var unique := DropDuplicates(DropMissing(raw));
    var fill := NegativeFill(unique);
    seq(|unique|, i requires 0 <= i < |unique| => ReplaceNegative(unique[i], fill))
  }

  /**
   * Cleanses the table step by step: drops rows missing a timestamp or a
   * demand, drops repeated rows, then overwrites every negative demand in
   * place with the mean of the non-negative demands.
   */
  method DataCleanser(raw: seq<Row>) returns (ts: seq<Row>)
    ensures ts == Cleansed(raw)
  {
    ts := DropMissingRows(raw);
    ts := DropRepeatedRows(ts);
    var fill := NegativeFill(ts);
    var frame := new Row[|ts|](i requires 0 <= i < |ts| => ts[i]);
    OverwriteNegatives(frame, fill);
    ts := frame[..];
  }

  /** Dropping NaN / NaT rows. */
  method DropMissingRows(raw: seq<Row>) returns (ts: seq<Row>)
    ensures ts == DropMissing(raw)
  {
    ts := [];
    for i := 0 to |raw|
      invariant ts == DropMissing(raw[..i])
    {
      assert raw[..i + 1][..i] == raw[..i];
      if HasTimestampAndDemand(raw[i]) {
        ts := ts + [raw[i]];
      }
    }
    assert raw[..|raw|] == raw;
  }

  /** Dropping repeated rows, keeping the first of each. */
  method DropRepeatedRows(ts: seq<Row>) returns (unique: seq<Row>)
    ensures unique == DropDuplicates(ts)
  {
    unique := [];
    for i := 0 to |ts|
      invariant unique == DropDuplicates(ts[..i])
    {
      assert ts[..i + 1][..i] == ts[..i];
      if ts[i] !in unique {
        unique := unique + [ts[i]];
      }
    }
    assert ts[..|ts|] == ts;
  }

  /** Overwrites, in place, every negative demand cell with `fill`. */
  method OverwriteNegatives(frame: array<Row>, fill: Option<real>)
    modifies frame
    ensures forall k | 0 <= k < frame.Length :: frame[k] == ReplaceNegative(old(frame[k]), fill)
  {
    for i := 0 to frame.Length
      invariant forall k | 0 <= k < i :: frame[k] == ReplaceNegative(old(frame[k]), fill)
      invariant forall k | i <= k < frame.Length :: frame[k] == old(frame[k])
    {
      if IsNegative(frame[i]) {
        frame[i] := frame[i].(demand := fill);
      }
    }
  }

  /**
   * After cleansing every row has a timestamp. If some complete row had a
   * non-negative demand, every demand is present and non-negative;
   * otherwise every demand has become NaN (the mean of nothing).
   */
  lemma CleansedDemands(raw: seq<Row>)
    ensures forall r | r in Cleansed(raw) :: r.ts.Some?
    ensures (exists r | r in raw :: HasTimestampAndDemand(r) && r.demand.value >= 0.0) ==>
              forall r | r in Cleansed(raw) :: r.demand.Some? && r.demand.value >= 0.0
    ensures (forall r | r in raw && HasTimestampAndDemand(r) :: r.demand.value < 0.0) ==>
              forall r | r in Cleansed(raw) :: r.demand.None?
  {
    var unique := DropDuplicates(DropMissing(raw));
    var fill := NegativeFill(unique);
    var out := Cleansed(raw);
    var xs := NonNegativeDemands(unique);
    FillNonNegative(unique);
    forall c | c in out
      ensures c.ts.Some?
      ensures xs != [] ==> c.demand.Some? && c.demand.value >= 0.0
      ensures xs == [] ==> c.demand.None?
    {
      var k :| 0 <= k < |out| && out[k] == c;
      assert unique[k] in unique;
    }
    if exists r | r in raw :: HasTimestampAndDemand(r) && r.demand.value >= 0.0 {
      var r :| r in raw && HasTimestampAndDemand(r) && r.demand.value >= 0.0;
      assert r in unique;
    }
    if forall r | r in raw && HasTimestampAndDemand(r) :: r.demand.value < 0.0 {
      assert forall r | r in unique :: IsNegative(r);
    }
  }

  /** The fill value, when there is one, is non-negative. */
  lemma FillNonNegative(rows: seq<Row>)
    ensures NegativeFill(rows).Some? <==> NonNegativeDemands(rows) != []
    ensures NegativeFill(rows).Some? ==> NegativeFill(rows).value >= 0.0
  {
    var xs := NonNegativeDemands(rows);
    if xs != [] {
      SumNonNegative(xs);
      var n := |xs| as real;
      assert Sum(xs) / n >= 0.0;
    }
  }

  /**
   * The cleansed rows are exactly the complete raw rows, each negative
   * demand replaced by the mean of the non-negative ones; rows that share
   * a timestamp but differ elsewhere both survive.
   */
  lemma CleansedRows(raw: seq<Row>)
    ensures var fill := NegativeFill(DropDuplicates(DropMissing(raw)));
      && (forall r | r in raw && HasTimestampAndDemand(r) :: ReplaceNegative(r, fill) in Cleansed(raw))
      && (forall c | c in Cleansed(raw) ::
            exists r | r in raw :: HasTimestampAndDemand(r) && c == ReplaceNegative(r, fill))
  {
    var unique := DropDuplicates(DropMissing(raw));
    var fill := NegativeFill(unique);
    var out := Cleansed(raw);
    forall r | r in raw && HasTimestampAndDemand(r)
      ensures ReplaceNegative(r, fill) in out
    {
      assert r in unique;
      var k :| 0 <= k < |unique| && unique[k] == r;
      assert out[k] == ReplaceNegative(r, fill);
    }
    forall c | c in out
      ensures exists r | r in raw :: HasTimestampAndDemand(r) && c == ReplaceNegative(r, fill)
    {
      var k :| 0 <= k < |out| && out[k] == c;
      assert unique[k] in unique;
    }
  }

  /**
   * Repeated rows are dropped before negative demands are replaced, so two
   * identical cleansed rows can only arise when at least one of them had
   * its demand replaced.
   */
  lemma CleansedRepeatsComeFromReplacement(raw: seq<Row>, i: int, j: int)
    requires 0 <= i < j < |Cleansed(raw)| && Cleansed(raw)[i] == Cleansed(raw)[j]
    ensures var unique := DropDuplicates(DropMissing(raw));
      IsNegative(unique[i]) || IsNegative(unique[j])
  {
    var unique := DropDuplicates(DropMissing(raw));
    assert unique[i] != unique[j];
  }

  /** Two complete rows that differ only in their negative demands become identical. */
  lemma CleansedMayRepeatRows(raw: seq<Row>)
    requires raw == [Row(Some(0), Some(-5.0), []), Row(Some(0), Some(-3.0), []), Row(Some(1), Some(4.0), [])]
    ensures |Cleansed(raw)| == 3 && Cleansed(raw)[0] == Cleansed(raw)[1]
  {
    assert Distinct(raw) by {
      forall i, j | 0 <= i < j < |raw| ensures raw[i] != raw[j] {
        assert raw[i].demand != raw[j].demand;
      }
    }
    CleansedOfCleanRows(raw);
    RepeatFill(raw);
  }

  /** For `CleansedMayRepeatRows`: the only non-negative demand, 4, is the fill. */
  lemma RepeatFill(raw: seq<Row>)
    requires raw == [Row(Some(0), Some(-5.0), []), Row(Some(0), Some(-3.0), []), Row(Some(1), Some(4.0), [])]
    ensures NegativeFill(raw) == Some(4.0)
  {
    assert NonNegativeDemands(raw[..1]) == [];
    assert raw[..2][..1] == raw[..1];
    assert NonNegativeDemands(raw[..2]) == [];
    var xs := NonNegativeDemands(raw);
    assert xs == [4.0];
    assert xs[..0] == [] && Sum(xs) == 4.0;
  }

  /** Negative demands are replaced by the mean of the others: [-5, 10, 12, 11, 9] becomes [10.5, 10, 12, 11, 9]. */
  lemma NegativeReplacedByMean(raw: seq<Row>)
    requires raw == [Row(Some(1), Some(-5.0), []), Row(Some(2), Some(10.0), []),
                     Row(Some(3), Some(12.0), []), Row(Some(4), Some(11.0), []),
                     Row(Some(5), Some(9.0), [])]
    ensures Demands(Cleansed(raw)) == [Some(10.5), Some(10.0), Some(12.0), Some(11.0), Some(9.0)]
  {
    ExampleDistinct(raw);
    CleansedOfCleanRows(raw);
    ExampleFill(raw);
    ExampleReplaced(raw, Cleansed(raw), Some(10.5));
  }

  /** For `NegativeReplacedByMean`: replacing with `fill` changes only the first demand of the example. */
  lemma ExampleReplaced(raw: seq<Row>, c: seq<Row>, fill: Option<real>)
    requires raw == [Row(Some(1), Some(-5.0), []), Row(Some(2), Some(10.0), []),
                     Row(Some(3), Some(12.0), []), Row(Some(4), Some(11.0), []),
                     Row(Some(5), Some(9.0), [])]
    requires |c| == |raw| && forall k | 0 <= k < |raw| :: c[k] == ReplaceNegative(raw[k], fill)
    ensures Demands(c) == [fill, Some(10.0), Some(12.0), Some(11.0), Some(9.0)]
  {
    assert c[0].demand == fill;
    assert c[1].demand == Some(10.0);
    assert c[2].demand == Some(12.0);
    assert c[3].demand == Some(11.0);
    assert c[4].demand == Some(9.0);
  }

  /** For `NegativeReplacedByMean`: the example's rows are complete and pairwise different. */
  lemma ExampleDistinct(raw: seq<Row>)
    requires raw == [Row(Some(1), Some(-5.0), []), Row(Some(2), Some(10.0), []),
                     Row(Some(3), Some(12.0), []), Row(Some(4), Some(11.0), []),
                     Row(Some(5), Some(9.0), [])]
    ensures Distinct(raw) && forall r | r in raw :: HasTimestampAndDemand(r)
  {
    forall i, j | 0 <= i < j < |raw| ensures raw[i] != raw[j] {
      assert raw[i].ts == Some(i + 1) && raw[j].ts == Some(j + 1);
    }
  }

  /** For `NegativeReplacedByMean`: the example's fill is the mean 10.5 of 10, 12, 11 and 9. */
  lemma ExampleFill(raw: seq<Row>)
    requires raw == [Row(Some(1), Some(-5.0), []), Row(Some(2), Some(10.0), []),
                     Row(Some(3), Some(12.0), []), Row(Some(4), Some(11.0), []),
                     Row(Some(5), Some(9.0), [])]
    ensures NegativeFill(raw) == Some(10.5)
  {
    var xs := ExampleNonNegative(raw);
    ExampleSum(xs);
  }

  /** A table with no missing field and no repeated row only has its negative demands replaced. */
  lemma CleansedOfCleanRows(rows: seq<Row>)
    requires forall r | r in rows :: HasTimestampAndDemand(r)
    requires Distinct(rows)
    ensures |Cleansed(rows)| == |rows|
    ensures forall k | 0 <= k < |rows| :: Cleansed(rows)[k] == ReplaceNegative(rows[k], NegativeFill(rows))
  {
    assert rows[..|rows|] == rows;
    PrefixesComplete(rows, |rows|);
    PrefixesDistinct(rows, |rows|);
  }

  /** For `NegativeReplacedByMean`: the example's non-negative demands, in order. */
  lemma ExampleNonNegative(raw: seq<Row>) returns (xs: seq<real>)
    requires raw == [Row(Some(1), Some(-5.0), []), Row(Some(2), Some(10.0), []),
                     Row(Some(3), Some(12.0), []), Row(Some(4), Some(11.0), []),
                     Row(Some(5), Some(9.0), [])]
    ensures xs == [10.0, 12.0, 11.0, 9.0] && NonNegativeDemands(raw) == xs
  {
    xs := [10.0, 12.0, 11.0, 9.0];
    assert NonNegativeDemands(raw[..1]) == [];
    assert raw[..2][..1] == raw[..1];
    assert NonNegativeDemands(raw[..2]) == [10.0];
    assert raw[..3][..2] == raw[..2];
    assert NonNegativeDemands(raw[..3]) == [10.0, 12.0];
    assert raw[..4][..3] == raw[..3];
    assert NonNegativeDemands(raw[..4]) == [10.0, 12.0, 11.0];
    assert raw[..5][..4] == raw[..4];
  }

  /** For `NegativeReplacedByMean`: 10 + 12 + 11 + 9 is 42. */
  lemma ExampleSum(xs: seq<real>)
    requires xs == [10.0, 12.0, 11.0, 9.0]
    ensures Sum(xs) == 42.0
  {
    var a, b, c := [10.0], [10.0, 12.0], [10.0, 12.0, 11.0];
    assert a[..0] == [] && Sum(a) == 10.0;
    assert b[..1] == a && Sum(b) == 22.0;
    assert c[..2] == b && Sum(c) == 33.0;
    assert xs[..3] == c;
  }

  lemma {:induction false} PrefixesComplete(rows: seq<Row>, n: nat)
    requires n <= |rows| && forall r | r in rows :: HasTimestampAndDemand(r)
    ensures DropMissing(rows[..n]) == rows[..n]
  {
    if n > 0 {
      assert rows[..n][..n - 1] == rows[..n - 1];
      PrefixesComplete(rows, n - 1);
      assert rows[n - 1] in rows;
    }
  }

  lemma {:induction false} PrefixesDistinct(rows: seq<Row>, n: nat)
    requires n <= |rows| && Distinct(rows)
    ensures DropDuplicates(rows[..n]) == rows[..n]
  {
    if n > 0 {
      assert rows[..n][..n - 1] == rows[..n - 1];
      PrefixesDistinct(rows, n - 1);
      assert rows[n - 1] !in rows[..n - 1];
    }
  }

  // ---------------------------------------------------------------------
  // check_data_continuity
  // ---------------------------------------------------------------------

  /** The present timestamps, in order, repeats kept. */
  function ValidTimestamps(rows: seq<Row>): (ts: seq<int>)
    ensures |ts| <= |rows|
    ensures forall t :: t in ts <==> exists r | r in rows :: r.ts == Some(t)
  {
    if rows == [] then []
    else
      var init := ValidTimestamps(rows[..|rows| - 1]);
      var r := Last(rows);
      assert rows == rows[..|rows| - 1] + [r];
      if r.ts.Some? then init + [r.ts.value] else init
  }

  /**
   * Whether the distinct, sorted timestamps are exactly the evenly spaced
   * grid from the first to the last of them at the frequency's step.
   * Fewer than two distinct timestamps pass; an unknown frequency fails.
   * A table only fails with two different timestamps present.
   */
  function CheckDataContinuity(rows: seq<Row>, frequency: string): (continuous: bool)
    ensures !continuous ==> exists t, u | t in ValidTimestamps(rows) && u in ValidTimestamps(rows) :: t < u
  {
    var ts := SortedDistinct(ValidTimestamps(rows));
    if |ts| < 2 then true
    else
      assert ts[0] in ValidTimestamps(rows) && ts[1] in ValidTimestamps(rows) && ts[0] < ts[1];
      match StepOf(frequency)
      case None => false
      case Some(step) => ts == Grid(ts[0], Last(ts), step)
  }

  /**
   * The check passes iff fewer than two distinct timestamps are present,
   * or the frequency is known and the set of timestamps is exactly the
   * grid from the earliest to the latest one.
   */
  lemma ContinuityCharacterised(rows: seq<Row>, frequency: string)
    ensures var v := ValidTimestamps(rows);
      CheckDataContinuity(rows, frequency) <==>
        || |set t | t in v| < 2
        || (&& v != []
            && StepOf(frequency).Some?
            && (set t | t in v) == (set t | t in Grid(SeqMin(v), SeqMax(v), StepOf(frequency).value)))
  {
    var v := ValidTimestamps(rows);
    var ts := SortedDistinct(v);
    IncreasingCardinality(ts);
    assert (set t | t in ts) == (set t | t in v);
    if |ts| >= 2 {
      SortedDistinctEnds(v);
      if StepOf(frequency).Some? {
        IncreasingSameElements(ts, Grid(SeqMin(v), SeqMax(v), StepOf(frequency).value));
      }
    }
  }

  /** The first and last of the sorted distinct values are the minimum and the maximum. */
  lemma SortedDistinctEnds(v: seq<int>)
    requires v != []
    ensures var ts := SortedDistinct(v); ts != [] && ts[0] == SeqMin(v) && Last(ts) == SeqMax(v)
  {
    var ts := SortedDistinct(v);
    var lo, hi := SeqMin(v), SeqMax(v);
    assert lo in ts && hi in ts;
    IncreasingEnds(ts);
    assert ts[0] in v && Last(ts) in v;
  }

  /** Two strictly increasing sequences are equal iff they hold the same values. */
  lemma IncreasingSameElements(a: seq<int>, b: seq<int>)
    requires StrictlyIncreasing(a) && StrictlyIncreasing(b)
    ensures a == b <==> (set t | t in a) == (set t | t in b)
  {
    var sa, sb := set t | t in a, set t | t in b;
    if sa == sb {
      forall x ensures x in a <==> x in b {
        assert x in a <==> x in sa;
        assert x in b <==> x in sb;
      }
      IncreasingUnique(a, b);
    }
  }


  /** The check only looks at the set of present timestamps: not at their order or repetitions. */
  lemma ContinuityIgnoresOrderAndRepeats(rows1: seq<Row>, rows2: seq<Row>, frequency: string)
    requires forall t :: t in ValidTimestamps(rows1) <==> t in ValidTimestamps(rows2)
    ensures CheckDataContinuity(rows1, frequency) == CheckDataContinuity(rows2, frequency)
  {
    IncreasingUnique(SortedDistinct(ValidTimestamps(rows1)), SortedDistinct(ValidTimestamps(rows2)));
  }

  /** With an unrecognised frequency the check passes only when fewer than two distinct timestamps are present. */
  lemma ContinuityFailsClosed(rows: seq<Row>, frequency: string)
    requires StepOf(frequency).None?
    ensures CheckDataContinuity(rows, frequency) <==> |set t | t in ValidTimestamps(rows)| < 2
  {
    ContinuityCharacterised(rows, frequency);
  }

  // ---------------------------------------------------------------------
  // data_imputer
  // ---------------------------------------------------------------------

  /** Why `data_imputer` raises: no timestamp to span, or a timestamp label that repeats (reindexing is refused). */
  datatype ImputeError = NoValidTimestamp | DuplicateTimestamps

  /** The last row stamped `t`, if any. */
  function RowAt(rows: seq<Row>, t: int): (r: Option<Row>)
    ensures r.Some? ==> r.value in rows && r.value.ts == Some(t)
    ensures r.None? <==> forall x | x in rows :: x.ts != Some(t)
  {
    if rows == [] then None
    else
      assert rows == rows[..|rows| - 1] + [Last(rows)];
      if Last(rows).ts == Some(t) then Some(Last(rows)) else RowAt(rows[..|rows| - 1], t)
  }

  /** `width` missing cells. */
  function Blank(width: nat): (cells: seq<Option<real>>)
    ensures |cells| == width && forall c | c in cells :: c.None?
  {
    seq(width, _ => None)
  }

  /**
   * The row of the reindexed table at tick `t`: the input row stamped `t`
   * with a missing demand filled by 0, or a new row with demand 0 and the
   * other columns (as many as the table's first row has) missing.
   */
  function FillTick(rows: seq<Row>, t: int): Row
    requires rows != []
  {
    match RowAt(rows, t)
    case Some(r) => r.(demand := Some(r.demand.GetOr(0.0)))
    case None => Row(Some(t), Some(0.0), Blank(|rows[0].others|))
  }

  /** The table reindexed on the grid from its earliest to its latest timestamp. */
  function Reindexed(rows: seq<Row>, step: int): seq<Row>
    requires step > 0 && ValidTimestamps(rows) != []
  {
    var ts := ValidTimestamps(rows);
    var g := Grid(SeqMin(ts), SeqMax(ts), step);
    seq(|g|, i requires 0 <= i < |g| => FillTick(rows, g[i]))
  }

  /** What `data_imputer` returns or raises. */
  function DataImputerSpec(rows: seq<Row>, frequency: string, dataContinuity: bool): Result<seq<Row>, ImputeError> {
    if dataContinuity then Ok(rows)
    else
      match StepOf(frequency)
      case None => Ok(rows)
      case Some(step) =>
        var ts := ValidTimestamps(rows);
        if ts == [] then Err(NoValidTimestamp)
        else if !Distinct(ts) then Err(DuplicateTimestamps)
        else Ok(Reindexed(rows, step))
  }

  /**
   * Reindexes the table onto the full grid of its frequency and zero-fills
   * the demand; returns the table unchanged when it is already continuous
   * or the frequency is unknown.
   */
  method DataImputer(rows: seq<Row>, frequency: string, dataContinuity: bool)
    returns (res: Result<seq<Row>, ImputeError>)
    ensures res == DataImputerSpec(rows, frequency, dataContinuity)
  {
    if dataContinuity {
      return Ok(rows);
    }
    var step := StepOf(frequency);
    if step.None? {
      return Ok(rows);
    }
    var labels, byLabel, duplicate := IndexByTimestamp(rows);
    if labels == [] {
      return Err(NoValidTimestamp);
    }
    RepeatedTimestamps(rows);
    if duplicate {
      return Err(DuplicateTimestamps);
    }
    var lo, hi := IndexSpan(labels);
    var full := Grid(lo, hi, step.value);
    var out := ZeroFilledReindex(rows, byLabel, full);
    assert out == Reindexed(rows, step.value);
    return Ok(out);
  }

  /**
   * Drops the rows without a timestamp and indexes the others by it
   * (`set_index`): the labels in row order, the row under each label, and
   * whether a label repeats.
   */
  method IndexByTimestamp(rows: seq<Row>) returns (labels: seq<int>, byLabel: map<int, Row>, duplicate: bool)
    ensures labels == ValidTimestamps(rows)
    ensures forall t :: t in byLabel <==> exists r | r in rows :: r.ts == Some(t)
    ensures forall t | t in byLabel :: byLabel[t] in rows && byLabel[t].ts == Some(t)
    ensures forall t | t in byLabel :: RowAt(rows, t) == Some(byLabel[t])
    ensures duplicate <==> RepeatsTimestamp(rows)
  {
    labels := ValidTimestamps(rows);
    duplicate := !Distinct(labels);
    byLabel := map t | t in labels :: RowAt(rows, t).value;
    RepeatedTimestamps(rows);
  }

  /** Two different rows carry the same timestamp. */
  predicate RepeatsTimestamp(rows: seq<Row>) {
    exists i, j | 0 <= i < j < |rows| :: rows[i].ts.Some? && rows[i].ts == rows[j].ts
  }

  /** The labels repeat exactly when two rows carry the same timestamp. */
  lemma RepeatedTimestamps(rows: seq<Row>)
    ensures !Distinct(ValidTimestamps(rows)) <==> RepeatsTimestamp(rows)
  {
    if RepeatsTimestamp(rows) {
      var i, j :| 0 <= i < j < |rows| && rows[i].ts.Some? && rows[i].ts == rows[j].ts;
      if Distinct(ValidTimestamps(rows)) {
        OneRowPerTimestamp(rows, i, j);
      }
    }
    if !Distinct(ValidTimestamps(rows)) {
      RepeatWitness(rows);
    }
  }

  /** Labels that repeat come from two rows with the same timestamp. */
  lemma {:induction false} RepeatWitness(rows: seq<Row>)
    requires !Distinct(ValidTimestamps(rows))
    ensures RepeatsTimestamp(rows)
  {
    var n := |rows| - 1;
    var init := rows[..n];
    assert rows == init + [rows[n]];
    var vi := ValidTimestamps(init);
    assert ValidTimestamps(rows) == if rows[n].ts.Some? then vi + [rows[n].ts.value] else vi;
    if !Distinct(vi) {
      RepeatWitness(init);
      var i, j :| 0 <= i < j < |init| && init[i].ts.Some? && init[i].ts == init[j].ts;
      assert rows[i] == init[i] && rows[j] == init[j];
    } else {
      // the last row's timestamp is one an earlier row already carries
      DistinctAppended(vi, rows[n].ts);
      var r :| r in init && r.ts == rows[n].ts;
      var i :| 0 <= i < |init| && init[i] == r;
      assert rows[i] == r;
    }
  }

  /** Appending a new value to distinct values keeps them distinct. */
  lemma DistinctAppended(s: seq<int>, t: Option<int>)
    requires Distinct(s)
    ensures t.Some? && t.value !in s ==> Distinct(s + [t.value])
  {
  }

  /** The earliest and the latest label. */
  method IndexSpan(labels: seq<int>) returns (lo: int, hi: int)
    requires labels != []
    ensures lo == SeqMin(labels) && hi == SeqMax(labels)
  {
    lo, hi := labels[0], labels[0];
    for i := 1 to |labels|
      invariant lo in labels && hi in labels
      invariant forall k | 0 <= k < i :: lo <= labels[k] <= hi
    {
      if labels[i] < lo { lo := labels[i]; }
      if labels[i] > hi { hi := labels[i]; }
    }
    assert SeqMin(labels) in labels && SeqMax(labels) in labels;
  }

  /** Reindexes on `full` and fills the demand column's gaps with 0. */
  method ZeroFilledReindex(rows: seq<Row>, byLabel: map<int, Row>, full: seq<int>) returns (out: seq<Row>)
    requires rows != []
    requires forall t :: t in byLabel <==> RowAt(rows, t).Some?
    requires forall t | t in byLabel :: RowAt(rows, t) == Some(byLabel[t])
    ensures |out| == |full|
    ensures forall k | 0 <= k < |full| :: out[k] == FillTick(rows, full[k])
  {
    out := [];
    for k := 0 to |full|
      invariant |out| == k
      invariant forall j | 0 <= j < k :: out[j] == FillTick(rows, full[j])
    {
      var t := full[k];
      var r := if t in byLabel then byLabel[t].(demand := Some(byLabel[t].demand.GetOr(0.0)))
               else Row(Some(t), Some(0.0), Blank(|rows[0].others|));
      out := out + [r];
    }
  }

  lemma RepeatAppended(s: seq<int>, t: int)
    requires t in s
    ensures !Distinct(s + [t])
  {
    var i :| 0 <= i < |s| && s[i] == t;
    assert (s + [t])[i] == (s + [t])[|s|];
  }

  /** A table whose rows all carry a timestamp has exactly those timestamps, in row order. */
  lemma {:induction false} AllTimestamped(rows: seq<Row>)
    requires forall i | 0 <= i < |rows| :: rows[i].ts.Some?
    ensures ValidTimestamps(rows) == seq(|rows|, i requires 0 <= i < |rows| => rows[i].ts.value)
  {
    if rows != [] {
      var init := rows[..|rows| - 1];
      assert rows == init + [Last(rows)];
      AllTimestamped(init);
      var want := seq(|rows|, i requires 0 <= i < |rows| => rows[i].ts.value);
      assert want == want[..|init|] + [Last(rows).ts.value];
    }
  }

  /** The reindexed table is stamped, row by row, with the grid from the earliest to the latest timestamp. */
  lemma ReindexedTimestamps(rows: seq<Row>, step: int)
    requires step > 0 && ValidTimestamps(rows) != []
    ensures var ts := ValidTimestamps(rows);
      ValidTimestamps(Reindexed(rows, step)) == Grid(SeqMin(ts), SeqMax(ts), step)
  {
    var ts := ValidTimestamps(rows);
    var g := Grid(SeqMin(ts), SeqMax(ts), step);
    var out := Reindexed(rows, step);
    forall i | 0 <= i < |out| ensures out[i].ts == Some(g[i]) {
      match RowAt(rows, g[i])
      case Some(r) =>
      case None =>
    }
    AllTimestamped(out);
  }

  /** Continuity restored: whenever the imputer reindexes a table, the result passes the continuity check. */
  lemma ImputedIsContinuous(rows: seq<Row>, frequency: string)
    requires StepOf(frequency).Some?
    requires DataImputerSpec(rows, frequency, false).Ok?
    ensures CheckDataContinuity(DataImputerSpec(rows, frequency, false).value, frequency)
  {
    var step := StepOf(frequency).value;
    var ts := ValidTimestamps(rows);
    var out := Reindexed(rows, step);
    var g := Grid(SeqMin(ts), SeqMax(ts), step);
    ReindexedTimestamps(rows, step);
    SortedDistinctOfIncreasing(g);
    assert SeqMin(ts) <= SeqMax(ts);
    GridOfOwnEnds(SeqMin(ts), SeqMax(ts), step);
  }

  /**
   * The pipeline's order: check, impute with that verdict, check again.
   * The second check passes iff the frequency is known or fewer than two
   * distinct timestamps are present.
   */
  lemma ContinuityAfterImputation(rows: seq<Row>, frequency: string)
    ensures var res := DataImputerSpec(rows, frequency, CheckDataContinuity(rows, frequency));
      res.Ok? ==>
        (CheckDataContinuity(res.value, frequency) <==>
          StepOf(frequency).Some? || |set t | t in ValidTimestamps(rows)| < 2)
  {
    var cont := CheckDataContinuity(rows, frequency);
    ContinuityCharacterised(rows, frequency);
    if !cont && StepOf(frequency).Some? && DataImputerSpec(rows, frequency, cont).Ok? {
      ImputedIsContinuous(rows, frequency);
    }
  }

  /** When no present timestamp repeats, each one is carried by a single row. */
  lemma {:induction false} OneRowPerTimestamp(rows: seq<Row>, i: int, j: int)
    requires Distinct(ValidTimestamps(rows))
    requires 0 <= i < |rows| && 0 <= j < |rows| && rows[i].ts.Some? && rows[i].ts == rows[j].ts
    ensures i == j
  {
    var n := |rows| - 1;
    var init := rows[..n];
    assert rows == init + [rows[n]];
    var vi := ValidTimestamps(init);
    assert Distinct(vi) by {
      assert ValidTimestamps(rows) == (if rows[n].ts.Some? then vi + [rows[n].ts.value] else vi);
      assert forall a | 0 <= a < |vi| :: vi[a] == ValidTimestamps(rows)[a];
    }
    if i < n && j < n {
      assert init[i] == rows[i] && init[j] == rows[j];
      OneRowPerTimestamp(init, i, j);
    } else if i != j {
      var k := if i < n then i else j;
      var t := rows[n].ts.value;
      var all := ValidTimestamps(rows);
      assert all == vi + [t];
      assert rows[k] in init && rows[k].ts == Some(t);
      assert t in vi;
      RepeatAppended(vi, t);
      assert false;
    }
  }

  /** Every input row stamped on the grid is carried over, a missing demand filled by 0. */
  lemma ReindexedKeepsGridRow(rows: seq<Row>, step: int, r: Row)
    requires step > 0 && ValidTimestamps(rows) != [] && Distinct(ValidTimestamps(rows))
    requires r in rows && r.ts.Some? && (r.ts.value - SeqMin(ValidTimestamps(rows))) % step == 0
    ensures r.(demand := Some(r.demand.GetOr(0.0))) in Reindexed(rows, step)
  {
    var ts := ValidTimestamps(rows);
    var lo, hi := SeqMin(ts), SeqMax(ts);
    var g := Grid(lo, hi, step);
    var t := r.ts.value;
    assert t in ts;
    GridMembership(lo, hi, step, t);
    var k :| 0 <= k < |g| && g[k] == t;
    var found := RowAt(rows, t).value;
    var a :| 0 <= a < |rows| && rows[a] == r;
    var b :| 0 <= b < |rows| && rows[b] == found;
    OneRowPerTimestamp(rows, a, b);
    assert Reindexed(rows, step)[k] == FillTick(rows, t);
  }

  /** A timestamp off the grid (not a whole number of steps after the earliest) is dropped. */
  lemma ReindexedDropsOffGrid(rows: seq<Row>, step: int, r: Row)
    requires step > 0 && ValidTimestamps(rows) != []
    requires r in rows && r.ts.Some? && (r.ts.value - SeqMin(ValidTimestamps(rows))) % step != 0
    ensures forall c | c in Reindexed(rows, step) :: c.ts != r.ts
  {
    var ts := ValidTimestamps(rows);
    var lo, hi := SeqMin(ts), SeqMax(ts);
    var g := Grid(lo, hi, step);
    var out := Reindexed(rows, step);
    forall k | 0 <= k < |out| ensures out[k].ts != r.ts {
      assert out[k].ts == Some(g[k]) by {
        match RowAt(rows, g[k])
        case Some(x) =>
        case None =>
      }
      assert g[k] - lo == k * step;
      MulMod(k, step);
    }
  }

  /**
   * Every reindexed row has a demand; a grid tick no input row is stamped
   * with gets demand 0 and the other columns, as many as the first row
   * has, missing.
   */
  lemma ReindexedFillsGaps(rows: seq<Row>, step: int, k: int)
    requires step > 0 && ValidTimestamps(rows) != []
    requires 0 <= k < |Reindexed(rows, step)|
    ensures var c := Reindexed(rows, step)[k];
      && c.demand.Some?
      && ((forall r | r in rows :: r.ts != c.ts) ==>
            && c.demand == Some(0.0)
            && |c.others| == |rows[0].others|
            && forall x | x in c.others :: x.None?)
  {
    var ts := ValidTimestamps(rows);
    var g := Grid(SeqMin(ts), SeqMax(ts), step);
    match RowAt(rows, g[k])
    case Some(x) =>
    case None =>
  }
}
