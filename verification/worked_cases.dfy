/**
  Worked cases: four monthly periods with two rows each, split at a test
  fraction of 0.2 (the newest period alone is enough) and of 0.99 (the walk
  takes every period and the safety rule gives the oldest back to training).
 */
module WorkedCases {
  import opened Frames
  import opened Periods
  import opened Walk
  import opened Partition
  import opened Splitter

  function Months(): seq<int> {
    [202301, 202301, 202302, 202302, 202303, 202303, 202304, 202304]
  }

  lemma MonthsInOrder(ps: seq<int>)
    requires ps == Months()
    ensures !SinglePeriod(ps)
    ensures Distinct(ps) == [202301, 202302, 202303, 202304]
  {
    assert ps[0] != ps[7];
    AscendingListIsUnique(Distinct(ps), [202301, 202302, 202303, 202304]);
  }

  /** The newest one, two and three months as sets. */
  lemma NewestMonths(u: seq<int>)
    requires u == [202301, 202302, 202303, 202304]
    ensures Newest(u, 1) == {202304}
    ensures Newest(u, 2) == {202303, 202304}
    ensures Newest(u, 3) == {202302, 202303, 202304}
  {
    NewestGrow(u, 0);
    NewestGrow(u, 1);
    NewestGrow(u, 2);
  }

  /** Row counts of the newest one, two and three months: 2, 4 and 6 of 8. */
  lemma NewestMonthCounts(ps: seq<int>)
    requires ps == Months()
    ensures Distinct(ps) == [202301, 202302, 202303, 202304]
    ensures CountIn(ps, Newest(Distinct(ps), 1)) == 2
    ensures CountIn(ps, Newest(Distinct(ps), 2)) == 4
    ensures CountIn(ps, Newest(Distinct(ps), 3)) == 6
  {
    MonthsInOrder(ps);
    NewestMonths(Distinct(ps));
    MonthCounts();
  }

  lemma MonthCounts()
    ensures CountIn(Months(), {202304}) == 2
    ensures CountIn(Months(), {202303, 202304}) == 4
    ensures CountIn(Months(), {202302, 202303, 202304}) == 6
  {
  }

  /** At 0.2 the newest month alone (2 of 8 rows) reaches the fraction. */
  lemma FifthGoesToNewestMonth(ps: seq<int>)
    requires ps == Months()
    ensures !SinglePeriod(ps)
    ensures !TrimFires(ps, 0.2)
    ensures TestPeriods(ps, 0.2) == {202304}
  {
    MonthsInOrder(ps);
    NewestMonthCounts(ps);
    var u := Distinct(ps);
    NewestMonths(u);
    assert Reaches(2, 8, 0.2);
    assert FirstReach(ps, u, 0.2, 1) == 1;
  }

  /** At 0.99 only all 8 rows reach the fraction, so the walk takes every month
      and the oldest month goes back to training: 6 of 8 rows are test rows. */
  lemma NearlyAllKeepsOldestMonthForTraining(ps: seq<int>)
    requires ps == Months()
    ensures !SinglePeriod(ps)
    ensures TrimFires(ps, 0.99)
    ensures TestPeriods(ps, 0.99) == {202302, 202303, 202304}
    ensures CountIn(ps, TestPeriods(ps, 0.99)) == 6
  {
    MonthsInOrder(ps);
    NewestMonthCounts(ps);
    var u := Distinct(ps);
    NewestMonths(u);
    assert !Reaches(6, 8, 0.99) && !Reaches(4, 8, 0.99) && !Reaches(2, 8, 0.99);
    assert FirstReach(ps, u, 0.99, 3) == 4;
    assert FirstReach(ps, u, 0.99, 2) == 4;
    assert FirstReach(ps, u, 0.99, 1) == 4;
  }

  /** The same months as a frame whose index labels are not positions. */
  function Table(): Frame {
    Frame({"yyyymm", "amount"}, [
      Row(10, map["yyyymm" := 202301, "amount" := 5]),
      Row(11, map["yyyymm" := 202301, "amount" := 7]),
      Row(12, map["yyyymm" := 202302, "amount" := 1]),
      Row(13, map["yyyymm" := 202302, "amount" := 4]),
      Row(14, map["yyyymm" := 202303, "amount" := 2]),
      Row(15, map["yyyymm" := 202303, "amount" := 9]),
      Row(16, map["yyyymm" := 202304, "amount" := 3]),
      Row(17, map["yyyymm" := 202304, "amount" := 8])])
  }

  /** Labels by index label: even index labels are positive. */
  function Labels(): map<Id, bool> {
    map id | 10 <= id < 18 :: id % 2 == 0
  }

  lemma TableColumn(x: Frame)
    requires x == Table()
    ensures WellFormed(x) && HasColumn(x.rows, "yyyymm")
    ensures Column(x.rows, "yyyymm") == Months()
  {
  }

  /** One filtering step that keeps the row at position `k`. */
  lemma KeepStep(rows: seq<Row>, col: string, t: set<int>, keep: bool, k: nat, j: nat)
    requires HasColumn(rows, col) && k < j <= |rows|
    requires (rows[k].cells[col] in t) == keep
    requires FilterByPeriod(rows[k + 1..], col, t, keep) == rows[k + 1..j]
    ensures FilterByPeriod(rows[k..], col, t, keep) == rows[k..j]
  {
    assert rows[k..][1..] == rows[k + 1..];
    assert [rows[k]] + rows[k + 1..j] == rows[k..j];
  }

  /** One filtering step that drops the row at position `k`. */
  lemma DropStep(rows: seq<Row>, col: string, t: set<int>, keep: bool, k: nat)
    requires HasColumn(rows, col) && k < |rows|
    requires (rows[k].cells[col] in t) != keep
    ensures FilterByPeriod(rows[k..], col, t, keep) == FilterByPeriod(rows[k + 1..], col, t, keep)
  {
    assert rows[k..][1..] == rows[k + 1..];
  }

  /** The test mask over rows with the months above picks the rows of the newest month. */
  lemma TableTestRows(rows: seq<Row>)
    requires HasColumn(rows, "yyyymm") && Column(rows, "yyyymm") == Months()
    ensures FilterByPeriod(rows, "yyyymm", {202304}, true) == rows[6..]
  {
    var t: set<int> := {202304};
    var ps := Column(rows, "yyyymm");
    assert |rows| == 8 && forall k :: 0 <= k < 8 ==> rows[k].cells["yyyymm"] == ps[k];
    assert FilterByPeriod(rows[8..], "yyyymm", t, true) == rows[8..8];
    KeepStep(rows, "yyyymm", t, true, 7, 8);
    KeepStep(rows, "yyyymm", t, true, 6, 8);
    DropStep(rows, "yyyymm", t, true, 5);
    DropStep(rows, "yyyymm", t, true, 4);
    DropStep(rows, "yyyymm", t, true, 3);
    DropStep(rows, "yyyymm", t, true, 2);
    DropStep(rows, "yyyymm", t, true, 1);
    DropStep(rows, "yyyymm", t, true, 0);
    assert rows[0..] == rows && rows[6..8] == rows[6..];
  }

  /** The negated mask over rows with the months above picks the rows of the three older months. */
  lemma TableTrainRows(rows: seq<Row>)
    requires HasColumn(rows, "yyyymm") && Column(rows, "yyyymm") == Months()
    ensures FilterByPeriod(rows, "yyyymm", {202304}, false) == rows[..6]
  {
    var t: set<int> := {202304};
    var ps := Column(rows, "yyyymm");
    assert |rows| == 8 && forall k :: 0 <= k < 8 ==> rows[k].cells["yyyymm"] == ps[k];
    DropStep(rows, "yyyymm", t, false, 7);
    DropStep(rows, "yyyymm", t, false, 6);
    assert FilterByPeriod(rows[6..], "yyyymm", t, false) == rows[6..6];
    KeepStep(rows, "yyyymm", t, false, 5, 6);
    KeepStep(rows, "yyyymm", t, false, 4, 6);
    KeepStep(rows, "yyyymm", t, false, 3, 6);
    KeepStep(rows, "yyyymm", t, false, 2, 6);
    KeepStep(rows, "yyyymm", t, false, 1, 6);
    KeepStep(rows, "yyyymm", t, false, 0, 6);
    assert rows[0..] == rows && rows[0..6] == rows[..6];
  }

  /** The labels of the table's test rows, and every row has one. */
  lemma TableLabels(rows: seq<Row>, y: map<Id, bool>)
    requires rows == Table().rows && y == Labels()
    ensures LookupLabels(y, rows[6..]) == Some([Entry(16, true), Entry(17, false)])
    ensures forall i :: 0 <= i < |rows| ==> rows[i].id in y
  {
    var test := rows[6..];
    assert |test| == 2 && test[0].id == 16 && test[1].id == 17;
    assert 16 in y && 17 in y && y[16] && !y[17];
    var r := LookupLabels(y, test);
    assert r.Some?;
    assert r.value[0] == Entry(16, true) && r.value[1] == Entry(17, false);
    assert r.value == [Entry(16, true), Entry(17, false)];
    forall i | 0 <= i < |rows|
      ensures rows[i].id in y
    {
      assert rows[i].id == 10 + i;
    }
  }

  /** With the default arguments (column "yyyymm", fraction 0.2) the two rows of
      the newest month are the test rows, each with the label of its own index label. */
  lemma FifthSplitOfTable(x: Frame, y: map<Id, bool>)
    requires x == Table() && y == Labels()
    ensures WellFormed(x)
    ensures Split(x, y).Success?
    ensures Split(x, y).value.xTest.rows == x.rows[6..]
    ensures Split(x, y).value.xTrain.rows == x.rows[..6]
    ensures Split(x, y).value.yTest == [Entry(16, true), Entry(17, false)]
  {
    TableColumn(x);
    FifthGoesToNewestMonth(Column(x.rows, "yyyymm"));
    TableTestRows(x.rows);
    TableTrainRows(x.rows);
    TableLabels(x.rows, y);
    SplitOnValidInput(x, y, "yyyymm", 0.2);
  }
}
