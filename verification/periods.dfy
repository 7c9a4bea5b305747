/**
  Periods (year-month integers such as 202310): the ascending list of the
  distinct periods of a column, how many rows fall into a set of periods, and
  the set of the k newest periods.
 */
module Periods {

  predicate StrictlyIncreasing(u: seq<int>) {
    forall i, j :: 0 <= i < j < |u| ==> u[i] < u[j]
  }

  /** Inserts `p` into an ascending list without duplicates. */
  function Insert(u: seq<int>, p: int): (r: seq<int>)
    requires StrictlyIncreasing(u)
    ensures StrictlyIncreasing(r)
    ensures forall q :: q in r <==> q in u || q == p
  {
    if |u| == 0 then [p]
    else if p < u[0] then [p] + u
    else if p == u[0] then u
    else
      var tail := u[1..];
      assert u == [u[0]] + tail;
      var rest := Insert(tail, p);
      PrependSmallest(u[0], rest);
      [u[0]] + rest
  }

  /** A period smaller than every period of an ascending list can go in front of it. */
  lemma PrependSmallest(p: int, u: seq<int>)
    requires StrictlyIncreasing(u)
    requires forall q :: q in u ==> p < q
    ensures StrictlyIncreasing([p] + u)
  {
    forall i, j | 0 <= i < j < |[p] + u|
      ensures ([p] + u)[i] < ([p] + u)[j]
    {
      assert ([p] + u)[j] == u[j - 1];
      if i > 0 {
        assert ([p] + u)[i] == u[i - 1];
      } else {
        assert u[j - 1] in u;
      }
    }
  }

  /** The distinct periods of `ps`, ascending (sorting the column's unique values). */
  function Distinct(ps: seq<int>): (u: seq<int>)
    ensures StrictlyIncreasing(u)
    ensures forall q :: q in u <==> q in ps
  {
    if |ps| == 0 then []
    else
      var init := ps[..|ps| - 1];
      assert ps == init + [ps[|ps| - 1]];
      Insert(Distinct(init), ps[|ps| - 1])
  }

  lemma HeadIsMember(u: seq<int>)
    requires |u| > 0
    ensures u[0] in u
  {
  }

  /** An ascending list without duplicates is fixed by its elements, so
      `Distinct(ps)` is the one sorted list of the distinct periods of `ps`. */
  lemma {:induction false} AscendingListIsUnique(u: seq<int>, v: seq<int>)
    requires StrictlyIncreasing(u) && StrictlyIncreasing(v)
    requires forall q :: q in u <==> q in v
    ensures u == v
    decreases |u|
  {
    if |u| == 0 || |v| == 0 {
      if |u| > 0 {
        HeadIsMember(u);
        assert false;
      } else if |v| > 0 {
        HeadIsMember(v);
        assert false;
      }
    } else {
      assert u[0] in v && v[0] in u;
      assert u[0] == v[0];
      forall q
        ensures q in u[1..] <==> q in v[1..]
      {
        if q in u[1..] {
          assert q in v && q != v[0];
        }
        if q in v[1..] {
          assert q in u && q != u[0];
        }
      }
      AscendingListIsUnique(u[1..], v[1..]);
      assert u == [u[0]] + u[1..] && v == [v[0]] + v[1..];
    }
  }

  /** Every row has the same period (or there are no rows): fewer than two distinct periods. */
  predicate SinglePeriod(ps: seq<int>) {
    forall i, j :: 0 <= i < |ps| && 0 <= j < |ps| ==> ps[i] == ps[j]
  }

  /** There are fewer than two distinct periods exactly when all rows share one period. */
  lemma DistinctCount(ps: seq<int>)
    ensures |Distinct(ps)| < 2 <==> SinglePeriod(ps)
  {
    var u := Distinct(ps);
    if |u| >= 2 {
      assert u[0] in ps && u[1] in ps;
      var i :| 0 <= i < |ps| && ps[i] == u[0];
      var j :| 0 <= j < |ps| && ps[j] == u[1];
      assert ps[i] != ps[j];
    } else {
      forall i, j | 0 <= i < |ps| && 0 <= j < |ps|
        ensures ps[i] == ps[j]
      {
        assert ps[i] in u && ps[j] in u;
      }
    }
  }

  /** The number of rows whose period lies in `s` (`months.isin(s).sum()`). */
  function CountIn(ps: seq<int>, s: set<int>): (c: nat)
    ensures c <= |ps|
  {
    if |ps| == 0 then 0
    else (if ps[0] in s then 1 else 0) + CountIn(ps[1..], s)
  }

  /** The positions of the rows whose period lies in `s`. */
  function RowsIn(ps: seq<int>, s: set<int>): set<nat> {
    set i: nat | i < |ps| && ps[i] in s
  }

  /** Counting from the back: the last row adds one exactly when its period lies in `s`. */
  lemma {:induction false} CountInSnoc(ps: seq<int>, s: set<int>)
    requires |ps| > 0
    ensures CountIn(ps, s) == CountIn(ps[..|ps| - 1], s) + (if ps[|ps| - 1] in s then 1 else 0)
    decreases |ps|
  {
    if |ps| > 1 {
      CountInSnoc(ps[1..], s);
      assert ps[1..][..|ps[1..]| - 1] == ps[..|ps| - 1][1..];
    }
  }

  /** `CountIn` is the number of rows whose period lies in `s`, the sum of the
      boolean mask `months.isin(s)`. */
  lemma {:induction false} CountInCountsRows(ps: seq<int>, s: set<int>)
    ensures CountIn(ps, s) == |RowsIn(ps, s)|
    decreases |ps|
  {
    if |ps| > 0 {
      var init := ps[..|ps| - 1];
      CountInCountsRows(init, s);
      CountInSnoc(ps, s);
      var last: nat := |ps| - 1;
      assert last !in RowsIn(init, s);
      if ps[last] in s {
        assert RowsIn(ps, s) == RowsIn(init, s) + {last};
      } else {
        assert RowsIn(ps, s) == RowsIn(init, s);
      }
    }
  }

  /** Adding one more period to a set adds exactly that period's rows. */
  lemma {:induction false} CountInAddPeriod(ps: seq<int>, s: set<int>, p: int)
    requires p !in s
    ensures CountIn(ps, s + {p}) == CountIn(ps, s) + CountIn(ps, {p})
  {
    if |ps| > 0 {
      CountInAddPeriod(ps[1..], s, p);
    }
  }

  /** A set holding every row's period counts every row. */
  lemma {:induction false} CountInCovered(ps: seq<int>, s: set<int>)
    requires forall i :: 0 <= i < |ps| ==> ps[i] in s
    ensures CountIn(ps, s) == |ps|
  {
    if |ps| > 0 {
      CountInCovered(ps[1..], s);
    }
  }

  /** A set holding no row's period counts no row. */
  lemma {:induction false} CountInDisjoint(ps: seq<int>, s: set<int>)
    requires forall i :: 0 <= i < |ps| ==> ps[i] !in s
    ensures CountIn(ps, s) == 0
  {
    if |ps| > 0 {
      CountInDisjoint(ps[1..], s);
    }
  }

  /** The `k` newest periods of the ascending period list `u`: the months the
      backward walk has selected after `k` steps. */
  function Newest(u: seq<int>, k: nat): (t: set<int>)
    requires k <= |u|
    ensures k == 0 ==> t == {}
    ensures k > 0 ==> u[|u| - 1] in t
  {
    set j | |u| - k <= j < |u| :: u[j]
  }

  /** Taking one more period backward adds exactly the next older period, which was not yet taken. */
  lemma NewestGrow(u: seq<int>, k: nat)
    requires StrictlyIncreasing(u)
    requires k < |u|
    ensures u[|u| - 1 - k] !in Newest(u, k)
    ensures Newest(u, k + 1) == Newest(u, k) + {u[|u| - 1 - k]}
  {
    var p := u[|u| - 1 - k];
    forall q | q in Newest(u, k + 1)
      ensures q in Newest(u, k) + {p}
    {
      var j :| |u| - (k + 1) <= j < |u| && u[j] == q;
      if j != |u| - 1 - k {
        assert q in Newest(u, k);
      }
    }
  }

  /** The `k` newest periods are `k` periods of `u`, form an upward-closed set, and
      leave out the oldest period unless `k` takes every period. */
  lemma {:induction false} NewestIsSuffix(u: seq<int>, k: nat)
    requires StrictlyIncreasing(u)
    requires k <= |u|
    ensures |Newest(u, k)| == k
    ensures forall q :: q in Newest(u, k) ==> q in u
    ensures forall p, q :: p in Newest(u, k) && q in u && p <= q ==> q in Newest(u, k)
    ensures k < |u| ==> u[0] !in Newest(u, k)
    ensures k == |u| ==> forall q :: q in u ==> q in Newest(u, k)
    decreases k
  {
    if k > 0 {
      NewestIsSuffix(u, k - 1);
      NewestGrow(u, k - 1);
    }
    forall p, q | p in Newest(u, k) && q in u && p <= q
      ensures q in Newest(u, k)
    {
      var i :| |u| - k <= i < |u| && u[i] == p;
      var j :| 0 <= j < |u| && u[j] == q;
    }
    if k == |u| {
      forall q | q in u
        ensures q in Newest(u, k)
      {
        var j :| 0 <= j < |u| && u[j] == q;
      }
    }
  }

  /** A larger set of periods counts at least as many rows. */
  lemma {:induction false} CountInMonotone(ps: seq<int>, s: set<int>, s': set<int>)
    requires s <= s'
    ensures CountIn(ps, s) <= CountIn(ps, s')
  {
    if |ps| > 0 {
      CountInMonotone(ps[1..], s, s');
    }
  }

  /** Taking more of the newest periods keeps the ones already taken. */
  lemma NewestMonotone(u: seq<int>, k: nat, k': nat)
    requires k <= k' <= |u|
    ensures Newest(u, k) <= Newest(u, k')
  {
  }
}
