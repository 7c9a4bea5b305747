/**
  The time-ordered train/test splitter: validate the parameters, list the
  distinct periods in ascending order, walk backward from the newest period
  until the test rows reach the requested fraction, keep the oldest period for
  training if the walk took them all, and partition rows and labels by
  membership of their period in the selected set.
 */
module Splitter {
  import opened Frames
  import opened Periods
  import opened Walk
  import opened Partition

  /** The ways a split is refused (all raised as `ValueError`, except a missing
      label, which is the KeyError of the label lookup). */
  datatype SplitError =
    | InvalidTestFrac
    | MissingColumn(col: string)
    | TooFewPeriods
    | MissingLabel

  /** The four returned partitions: train rows, test rows, train labels, test labels. */
  datatype SplitOutput<L> = SplitOutput(xTrain: Frame, xTest: Frame, yTrain: seq<Entry<L>>, yTest: seq<Entry<L>>)

  /** Where the backward walk over the distinct periods of `ps` stops: after the
      first step whose newest periods reach the fraction, and with a fraction
      below 1 never because the periods ran out. */
  function WalkStop(ps: seq<int>, f: real): (s: nat)
    requires !SinglePeriod(ps)
    ensures 1 <= s <= |Distinct(ps)|
    ensures forall j :: 1 <= j < s ==> !Reaches(CountIn(ps, Newest(Distinct(ps), j)), |ps|, f)
    ensures f < 1.0 ==> Reaches(CountIn(ps, Newest(Distinct(ps), s)), |ps|, f)
  {
    DistinctCount(ps);
    var s := FirstReach(ps, Distinct(ps), f, 1);
    if f < 1.0 then
      WalkAlwaysReaches(ps, Distinct(ps), f);
      s
    else s
  }

  /** The walk took every period, so the safety rule drops the oldest one again.
      That happens exactly when no run of newest periods short of all of them
      reaches the fraction. */
  predicate TrimFires(ps: seq<int>, f: real)
    requires !SinglePeriod(ps)
    ensures TrimFires(ps, f) <==>
      forall j :: 1 <= j < |Distinct(ps)| ==> !Reaches(CountIn(ps, Newest(Distinct(ps), j)), |ps|, f)
  {
    DistinctCount(ps);
    WalkStop(ps, f) == |Distinct(ps)|
  }

  /** How many of the newest periods go to test. */
  function TestPeriodCount(ps: seq<int>, f: real): (k: nat)
    requires !SinglePeriod(ps)
    ensures 1 <= k < |Distinct(ps)|
  {
    DistinctCount(ps);
    if TrimFires(ps, f) then WalkStop(ps, f) - 1 else WalkStop(ps, f)
  }

  /** The selected test periods: `TestPeriodCount` periods, all of them
      periods of the data. */
  function TestPeriods(ps: seq<int>, f: real): (t: set<int>)
    requires !SinglePeriod(ps)
    ensures |t| == TestPeriodCount(ps, f)
    ensures forall p :: p in t ==> p in ps
  {
    DistinctCount(ps);
    NewestIsSuffix(Distinct(ps), TestPeriodCount(ps, f));
    Newest(Distinct(ps), TestPeriodCount(ps, f))
  }

  /** The split as a whole, stated declaratively. */
  function Split<L>(x: Frame, y: map<Id, L>, col: string := "yyyymm", f: real := 0.2): (r: Result<SplitOutput<L>, SplitError>)
    requires WellFormed(x)
    ensures r == Failure(InvalidTestFrac) <==> !(0.0 < f < 1.0)
    ensures r == Failure(MissingColumn(col)) <==> 0.0 < f < 1.0 && col !in x.columns
    ensures r == Failure(TooFewPeriods) <==>
      0.0 < f < 1.0 && col in x.columns && SinglePeriod(Column(x.rows, col))
    ensures r == Failure(MissingLabel) <==>
      && 0.0 < f < 1.0 && col in x.columns && !SinglePeriod(Column(x.rows, col))
      && exists i :: 0 <= i < |x.rows| && x.rows[i].id !in y
  {
    if !(0.0 < f < 1.0) then Failure(InvalidTestFrac)
    else if col !in x.columns then Failure(MissingColumn(col))
    else
      var ps := Column(x.rows, col);
      DistinctCount(ps);
      if |Distinct(ps)| < 2 then Failure(TooFewPeriods)
      else
        var t := TestPeriods(ps, f);
        var test := FilterByPeriod(x.rows, col, t, true);
        var train := FilterByPeriod(x.rows, col, t, false);
        LookupBothSides(y, x.rows, col, t);
        match (LookupLabels(y, test), LookupLabels(y, train))
        case (Some(yTest), Some(yTrain)) =>
          Success(SplitOutput(Frame(x.columns, train), Frame(x.columns, test), yTrain, yTest))
        case _ => Failure(MissingLabel)
  }

  /** The inputs the split accepts: a fraction strictly between 0 and 1, a
      period column with at least two distinct periods, and a label for every row. */
  predicate Accepted<L>(x: Frame, y: map<Id, L>, col: string, f: real) {
    && 0.0 < f < 1.0 && col in x.columns && HasColumn(x.rows, col)
    && !SinglePeriod(Column(x.rows, col))
    && forall i :: 0 <= i < |x.rows| ==> x.rows[i].id in y
  }

  /** The split succeeds exactly on the accepted inputs. */
  lemma SplitSucceedsExactlyWhenAccepted<L>(x: Frame, y: map<Id, L>, col: string, f: real)
    requires WellFormed(x)
    ensures Split(x, y, col, f).Success? <==> Accepted(x, y, col, f)
  {
  }

  /** On valid input with every label present, the split hands out the two sides of the test mask. */
  lemma SplitOnValidInput<L>(x: Frame, y: map<Id, L>, col: string, f: real)
    requires WellFormed(x) && Accepted(x, y, col, f)
    ensures var t := TestPeriods(Column(x.rows, col), f);
      var test := FilterByPeriod(x.rows, col, t, true);
      var train := FilterByPeriod(x.rows, col, t, false);
      && LookupLabels(y, test).Some? && LookupLabels(y, train).Some?
      && Split(x, y, col, f) == Success(SplitOutput(Frame(x.columns, train), Frame(x.columns, test),
                                                    LookupLabels(y, train).value, LookupLabels(y, test).value))
  {
    LookupBothSides(y, x.rows, col, TestPeriods(Column(x.rows, col), f));
  }

  /** The steps of `split_train_test_by_time` in order, with the backward walk as a loop. */
  method SplitTrainTestByTime<L>(x: Frame, y: map<Id, L>, col: string := "yyyymm", f: real := 0.2)
    returns (r: Result<SplitOutput<L>, SplitError>)
    requires WellFormed(x)
    ensures r == Split(x, y, col, f)
  {
    if !(0.0 < f < 1.0) {
      return Failure(InvalidTestFrac);
    }
    if col !in x.columns {
      return Failure(MissingColumn(col));
    }
    var months := Column(x.rows, col);
    var uniqueMonths := Distinct(months);
    if |uniqueMonths| < 2 {
      return Failure(TooFewPeriods);
    }
    DistinctCount(months);
    var selected, cumTestN := WalkBackward(months, uniqueMonths, f);
    if |selected| == |uniqueMonths| {
      selected := selected[..|selected| - 1];
    }
    TakenAreNewest(selected, uniqueMonths);
    var testMonths := set m | m in selected;
    var xTest := FilterByPeriod(x.rows, col, testMonths, true);
    var yTest := LookupLabels(y, xTest);
    var xTrain := FilterByPeriod(x.rows, col, testMonths, false);
    var yTrain := LookupLabels(y, xTrain);
    if yTest.None? || yTrain.None? {
      return Failure(MissingLabel);
    }
    r := Success(SplitOutput(Frame(x.columns, xTrain), Frame(x.columns, xTest), yTrain.value, yTest.value));
  }

  /** The test periods are the K newest distinct periods with 1 <= K < number of
      distinct periods: a non-empty set of periods of the data, closed upward
      (every newer period is in it too), that never holds the oldest period. */
  lemma TestPeriodsAreNewest(ps: seq<int>, f: real)
    requires !SinglePeriod(ps)
    ensures 1 <= |TestPeriods(ps, f)| < |Distinct(ps)|
    ensures forall p :: p in TestPeriods(ps, f) ==> p in ps
    ensures forall i, j :: 0 <= i < |ps| && 0 <= j < |ps| && ps[i] in TestPeriods(ps, f) && ps[i] <= ps[j]
              ==> ps[j] in TestPeriods(ps, f)
    ensures forall i :: 0 <= i < |ps| && (forall j :: 0 <= j < |ps| ==> ps[i] <= ps[j])
              ==> ps[i] !in TestPeriods(ps, f)
  {
    var u := Distinct(ps);
    DistinctCount(ps);
    var k := TestPeriodCount(ps, f);
    NewestIsSuffix(u, k);
    forall i | 0 <= i < |ps| && (forall j :: 0 <= j < |ps| ==> ps[i] <= ps[j])
      ensures ps[i] !in TestPeriods(ps, f)
    {
      assert u[0] in ps;
      assert ps[i] in u;
    }
  }

  /** Unless the safety rule fired, the test rows reach the fraction; in every
      case fewer of the newest periods (the selection without its oldest
      period, in particular) fall short of it. */
  lemma ThresholdMetAndMinimal(ps: seq<int>, f: real)
    requires !SinglePeriod(ps) && 0.0 < f < 1.0
    ensures !TrimFires(ps, f) ==> Reaches(CountIn(ps, TestPeriods(ps, f)), |ps|, f)
    ensures forall j :: 0 <= j < TestPeriodCount(ps, f) ==> !Reaches(CountIn(ps, Newest(Distinct(ps), j)), |ps|, f)
  {
    DistinctCount(ps);
    var u := Distinct(ps);
    var stop := WalkStop(ps, f);
    var k := TestPeriodCount(ps, f);
    assert k <= stop;
    assert !TrimFires(ps, f) ==> TestPeriods(ps, f) == Newest(u, stop);
    forall j | 0 <= j < k
      ensures !Reaches(CountIn(ps, Newest(u, j)), |ps|, f)
    {
      if j == 0 {
        CountInDisjoint(ps, Newest(u, 0));
        NoRowsFallShort(|ps|, f);
      }
    }
  }

  /** The safety rule fires exactly when the newest |U|-1 periods fall short of
      the fraction. It then keeps every period but the oldest in test, and the
      test rows fall short of the fraction; otherwise the test periods are the
      ones the walk took. */
  lemma TrimFiresWhenNewerPeriodsFallShort(ps: seq<int>, f: real)
    requires !SinglePeriod(ps) && 0.0 < f < 1.0
    ensures TrimFires(ps, f) <==> !Reaches(CountIn(ps, Newest(Distinct(ps), |Distinct(ps)| - 1)), |ps|, f)
    ensures TrimFires(ps, f) ==> TestPeriods(ps, f) == Newest(Distinct(ps), |Distinct(ps)| - 1)
    ensures TrimFires(ps, f) ==> !Reaches(CountIn(ps, TestPeriods(ps, f)), |ps|, f)
    ensures !TrimFires(ps, f) ==> TestPeriods(ps, f) == Newest(Distinct(ps), WalkStop(ps, f))
  {
    DistinctCount(ps);
    var u := Distinct(ps);
    var stop := WalkStop(ps, f);
    if stop < |u| {
      NewestMonotone(u, stop, |u| - 1);
      CountInMonotone(ps, Newest(u, stop), Newest(u, |u| - 1));
      ReachesMonotone(CountIn(ps, Newest(u, stop)), CountIn(ps, Newest(u, |u| - 1)), |ps|, f);
    }
  }

  /** On success the test rows are exactly the rows of the test periods, so the
      achieved fraction reaches the requested one exactly when the safety rule
      did not fire. */
  lemma ActualFraction<L>(x: Frame, y: map<Id, L>, col: string, f: real)
    requires WellFormed(x) && Accepted(x, y, col, f)
    ensures Split(x, y, col, f).Success?
    ensures var ps := Column(x.rows, col);
      |Split(x, y, col, f).value.xTest.rows| == CountIn(ps, TestPeriods(ps, f))
    ensures var ps := Column(x.rows, col);
      Reaches(|Split(x, y, col, f).value.xTest.rows|, |x.rows|, f) <==> !TrimFires(ps, f)
  {
    SplitOnValidInput(x, y, col, f);
    var ps := Column(x.rows, col);
    FilterCount(x.rows, col, TestPeriods(ps, f));
    ThresholdMetAndMinimal(ps, f);
    TrimFiresWhenNewerPeriodsFallShort(ps, f);
  }

  /** Train and test together hold every row exactly once, keep the frame's
      columns, and keep the rows' relative order. */
  lemma PartitionCoversRows<L>(x: Frame, y: map<Id, L>, col: string, f: real)
    requires WellFormed(x) && Accepted(x, y, col, f)
    ensures Split(x, y, col, f).Success?
    ensures var o := Split(x, y, col, f).value;
      && o.xTrain.columns == x.columns && o.xTest.columns == x.columns
      && multiset(o.xTrain.rows) + multiset(o.xTest.rows) == multiset(x.rows)
      && |o.xTrain.rows| + |o.xTest.rows| == |x.rows|
      && IsSubsequence(o.xTrain.rows, x.rows) && IsSubsequence(o.xTest.rows, x.rows)
  {
    SplitOnValidInput(x, y, col, f);
    var t := TestPeriods(Column(x.rows, col), f);
    FilterSplitsRows(x.rows, col, t);
    FilterKeepsOrder(x.rows, col, t, true);
    FilterKeepsOrder(x.rows, col, t, false);
  }

  /** A row is in test exactly when its period is a selected test period, and in
      train exactly when it is not. */
  lemma PartitionByTestPeriods<L>(x: Frame, y: map<Id, L>, col: string, f: real)
    requires WellFormed(x) && Accepted(x, y, col, f)
    ensures Split(x, y, col, f).Success?
    ensures var o := Split(x, y, col, f).value; var t := TestPeriods(Column(x.rows, col), f);
      && (forall i :: 0 <= i < |x.rows| ==> (x.rows[i] in o.xTest.rows <==> x.rows[i].cells[col] in t))
      && (forall i :: 0 <= i < |x.rows| ==> (x.rows[i] in o.xTrain.rows <==> x.rows[i].cells[col] !in t))
  {
    SplitOnValidInput(x, y, col, f);
    var t := TestPeriods(Column(x.rows, col), f);
    FilterCoversRows(x.rows, col, t);
  }

  /** Each label returned is the label of the same row's index label, on both sides. */
  lemma LabelsFollowRowIds<L>(x: Frame, y: map<Id, L>, col: string, f: real)
    requires WellFormed(x) && Accepted(x, y, col, f)
    ensures Split(x, y, col, f).Success?
    ensures var o := Split(x, y, col, f).value;
      && |o.yTest| == |o.xTest.rows| && |o.yTrain| == |o.xTrain.rows|
      && (forall i :: 0 <= i < |o.yTest| ==> o.xTest.rows[i].id in y && o.yTest[i] == Entry(o.xTest.rows[i].id, y[o.xTest.rows[i].id]))
      && (forall i :: 0 <= i < |o.yTrain| ==> o.xTrain.rows[i].id in y && o.yTrain[i] == Entry(o.xTrain.rows[i].id, y[o.xTrain.rows[i].id]))
  {
    SplitOnValidInput(x, y, col, f);
  }

  /** With unique index labels, train and test index labels are disjoint and together are all of them. */
  lemma IdsArePartitioned<L>(x: Frame, y: map<Id, L>, col: string, f: real)
    requires WellFormed(x) && UniqueIds(x.rows) && Accepted(x, y, col, f)
    ensures Split(x, y, col, f).Success?
    ensures var o := Split(x, y, col, f).value;
      && Ids(o.xTrain.rows) !! Ids(o.xTest.rows)
      && Ids(o.xTrain.rows) + Ids(o.xTest.rows) == Ids(x.rows)
  {
    SplitOnValidInput(x, y, col, f);
    FilterIdsPartition(x.rows, col, TestPeriods(Column(x.rows, col), f));
  }
}
