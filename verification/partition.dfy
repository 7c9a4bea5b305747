/**
  Partitioning rows by a boolean mask over their period (`X[mask]`, `X[~mask]`)
  and looking labels up by index label (`y.loc[X.index]`).
 */
module Partition {
  import opened Frames
  import opened Periods

  /** The rows whose period in column `col` is in `t` exactly when `keep` holds,
      in their original order: `keep` selects the test mask, `!keep` its negation. */
  function FilterByPeriod(rows: seq<Row>, col: string, t: set<int>, keep: bool): (r: seq<Row>)
    requires HasColumn(rows, col)
    ensures HasColumn(r, col)
    ensures forall i :: 0 <= i < |r| ==> (r[i].cells[col] in t) == keep
    ensures forall row :: row in r ==> row in rows
  {
    if |rows| == 0 then []
    else (if (rows[0].cells[col] in t) == keep then [rows[0]] else []) + FilterByPeriod(rows[1..], col, t, keep)
  }

  /** `a` occurs in `b` in the same relative order (matched greedily from the front). */
  predicate IsSubsequence(a: seq<Row>, b: seq<Row>)
    decreases |b|
  {
    if |a| == 0 then true
    else if |b| == 0 then false
    else if a[0] == b[0] then IsSubsequence(a[1..], b[1..])
    else IsSubsequence(a, b[1..])
  }

  /** The mask and its negation together hand out every row exactly once. */
  lemma {:induction false} FilterSplitsRows(rows: seq<Row>, col: string, t: set<int>)
    requires HasColumn(rows, col)
    ensures multiset(FilterByPeriod(rows, col, t, true)) + multiset(FilterByPeriod(rows, col, t, false))
            == multiset(rows)
    ensures |FilterByPeriod(rows, col, t, true)| + |FilterByPeriod(rows, col, t, false)| == |rows|
  {
    if |rows| > 0 {
      FilterSplitsRows(rows[1..], col, t);
      assert rows == [rows[0]] + rows[1..];
    }
  }

  /** Filtering keeps the relative order of the rows it keeps. */
  lemma {:induction false} FilterKeepsOrder(rows: seq<Row>, col: string, t: set<int>, keep: bool)
    requires HasColumn(rows, col)
    ensures IsSubsequence(FilterByPeriod(rows, col, t, keep), rows)
  {
    if |rows| > 0 {
      FilterKeepsOrder(rows[1..], col, t, keep);
      var rest := FilterByPeriod(rows[1..], col, t, keep);
      if (rows[0].cells[col] in t) == keep {
        assert FilterByPeriod(rows, col, t, keep) == [rows[0]] + rest;
        assert ([rows[0]] + rest)[1..] == rest;
      } else {
        assert FilterByPeriod(rows, col, t, keep) == rest;
        if |rest| > 0 {
          assert rest[0] != rows[0];
        }
      }
    }
  }

  /** The test mask selects exactly as many rows as its periods hold. */
  lemma {:induction false} FilterCount(rows: seq<Row>, col: string, t: set<int>)
    requires HasColumn(rows, col)
    ensures |FilterByPeriod(rows, col, t, true)| == CountIn(Column(rows, col), t)
  {
    if |rows| > 0 {
      FilterCount(rows[1..], col, t);
      assert Column(rows, col)[1..] == Column(rows[1..], col);
    }
  }

  /** Every row lands on one side of the mask or the other. */
  lemma FilterCoversRows(rows: seq<Row>, col: string, t: set<int>)
    requires HasColumn(rows, col)
    ensures forall i :: 0 <= i < |rows| ==>
      rows[i] in FilterByPeriod(rows, col, t, true) || rows[i] in FilterByPeriod(rows, col, t, false)
  {
    FilterSplitsRows(rows, col, t);
    forall i | 0 <= i < |rows|
      ensures rows[i] in FilterByPeriod(rows, col, t, true) || rows[i] in FilterByPeriod(rows, col, t, false)
    {
      assert rows[i] in multiset(rows);
    }
  }

  /** `y.loc[ids]`: each row's own label, looked up by its index label and in row
      order; `None` (pandas raises a KeyError) when some index label has no label. */
  function LookupLabels<L>(y: map<Id, L>, rows: seq<Row>): (r: Option<seq<Entry<L>>>)
    ensures r.Some? <==> forall i :: 0 <= i < |rows| ==> rows[i].id in y
    ensures r.Some? ==> |r.value| == |rows|
    ensures r.Some? ==> forall i :: 0 <= i < |rows| ==> r.value[i] == Entry(rows[i].id, y[rows[i].id])
  {
    if |rows| == 0 then Some([])
    else if rows[0].id !in y then None
    else
      match LookupLabels(y, rows[1..])
      case None => None
      case Some(rest) => Some([Entry(rows[0].id, y[rows[0].id])] + rest)
  }

  /** Both label lookups succeed exactly when every row's index label has a label. */
  lemma LookupBothSides<L>(y: map<Id, L>, rows: seq<Row>, col: string, t: set<int>)
    requires HasColumn(rows, col)
    ensures (LookupLabels(y, FilterByPeriod(rows, col, t, true)).Some?
             && LookupLabels(y, FilterByPeriod(rows, col, t, false)).Some?)
            <==> forall i :: 0 <= i < |rows| ==> rows[i].id in y
  {
    var test := FilterByPeriod(rows, col, t, true);
    var train := FilterByPeriod(rows, col, t, false);
    FilterCoversRows(rows, col, t);
    if forall i :: 0 <= i < |rows| ==> rows[i].id in y {
      forall j | 0 <= j < |test|
        ensures test[j].id in y
      {
        assert test[j] in rows;
      }
      forall j | 0 <= j < |train|
        ensures train[j].id in y
      {
        assert train[j] in rows;
      }
    } else {
      var i :| 0 <= i < |rows| && rows[i].id !in y;
      if rows[i] in test {
        var j :| 0 <= j < |test| && test[j] == rows[i];
      } else {
        var j :| 0 <= j < |train| && train[j] == rows[i];
      }
    }
  }

  /** With unique index labels, the two sides' index labels are disjoint and together are all of them. */
  lemma FilterIdsPartition(rows: seq<Row>, col: string, t: set<int>)
    requires HasColumn(rows, col) && UniqueIds(rows)
    ensures Ids(FilterByPeriod(rows, col, t, false)) !! Ids(FilterByPeriod(rows, col, t, true))
    ensures Ids(FilterByPeriod(rows, col, t, false)) + Ids(FilterByPeriod(rows, col, t, true)) == Ids(rows)
  {
    var test := FilterByPeriod(rows, col, t, true);
    var train := FilterByPeriod(rows, col, t, false);
    FilterCoversRows(rows, col, t);
    forall a, b | 0 <= a < |train| && 0 <= b < |test|
      ensures train[a].id != test[b].id
    {
      assert train[a] != test[b];
      assert train[a] in rows && test[b] in rows;
      var i :| 0 <= i < |rows| && rows[i] == train[a];
      var j :| 0 <= j < |rows| && rows[j] == test[b];
    }
    forall id | id in Ids(rows)
      ensures id in Ids(train) + Ids(test)
    {
      var i :| 0 <= i < |rows| && rows[i].id == id;
      if rows[i] in test {
        var b :| 0 <= b < |test| && test[b] == rows[i];
      } else {
        var a :| 0 <= a < |train| && train[a] == rows[i];
      }
    }
    forall id | id in Ids(train) + Ids(test)
      ensures id in Ids(rows)
    {
      if id in Ids(train) {
        var a :| 0 <= a < |train| && train[a].id == id;
        assert train[a] in rows;
      } else {
        var b :| 0 <= b < |test| && test[b].id == id;
        assert test[b] in rows;
      }
    }
  }
}
