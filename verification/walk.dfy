/**
  The backward walk: starting from the newest period, whole periods are taken
  into the test set until the test rows reach the requested fraction of all
  rows (the threshold is inclusive).
 */
module Walk {
  import opened Periods

  /** The stopping test `cum / n_total >= test_frac` of `split_train_test_by_time`,
      evaluated exactly by multiplying out the positive row count. */
  predicate Reaches(cum: nat, n: nat, f: real)
    requires n > 0
    ensures Reaches(cum, n, f) <==> (cum as real) / (n as real) >= f
  {
    var q := (cum as real) / (n as real);
    assert q * (n as real) == cum as real;
    cum as real >= f * n as real
  }

  /** All rows reach any fraction below 1. */
  lemma AllRowsReach(n: nat, f: real)
    requires n > 0 && f < 1.0
    ensures Reaches(n, n, f)
  {
    assert (1.0 - f) * (n as real) > 0.0;
  }

  /** No rows reach any positive fraction. */
  lemma NoRowsFallShort(n: nat, f: real)
    requires n > 0 && 0.0 < f
    ensures !Reaches(0, n, f)
  {
    assert f * (n as real) > 0.0;
  }

  /** More test rows reach the fraction whenever fewer do. */
  lemma ReachesMonotone(c: nat, c': nat, n: nat, f: real)
    requires n > 0 && c <= c'
    ensures Reaches(c, n, f) ==> Reaches(c', n, f)
  {
  }

  /** The walk's stopping point as a reference definition: the first `r >= k`
      whose `r` newest periods reach the fraction, or every period if none does. */
  function FirstReach(ps: seq<int>, u: seq<int>, f: real, k: nat): (r: nat)
    requires |ps| > 0
    requires 1 <= k <= |u|
    ensures k <= r <= |u|
    ensures r == |u| || Reaches(CountIn(ps, Newest(u, r)), |ps|, f)
    ensures forall j :: k <= j < r ==> !Reaches(CountIn(ps, Newest(u, j)), |ps|, f)
    decreases |u| - k
  {
    if Reaches(CountIn(ps, Newest(u, k)), |ps|, f) || k == |u| then k
    else FirstReach(ps, u, f, k + 1)
  }

  /** Since every row's period is in `u` and the fraction is below 1, the walk
      always stops because the threshold is reached, never because the periods
      ran out. */
  lemma WalkAlwaysReaches(ps: seq<int>, u: seq<int>, f: real)
    requires |ps| > 0 && 1 <= |u| && StrictlyIncreasing(u)
    requires forall i :: 0 <= i < |ps| ==> ps[i] in u
    requires f < 1.0
    ensures Reaches(CountIn(ps, Newest(u, FirstReach(ps, u, f, 1))), |ps|, f)
  {
    var r := FirstReach(ps, u, f, 1);
    if r == |u| {
      NewestIsSuffix(u, |u|);
      CountInCovered(ps, Newest(u, |u|));
      AllRowsReach(|ps|, f);
    }
  }

  /** The loop of `split_train_test_by_time` over the periods, newest first: take the period, add
      its row count, stop as soon as the running count reaches the fraction.
      `selected` lists the taken periods in the order they were taken. */
  method WalkBackward(ps: seq<int>, u: seq<int>, f: real) returns (selected: seq<int>, cum: nat)
    requires |ps| > 0 && 1 <= |u| && StrictlyIncreasing(u)
    ensures |selected| == FirstReach(ps, u, f, 1)
    ensures forall i :: 0 <= i < |selected| ==> selected[i] == u[|u| - 1 - i]
    ensures cum == CountIn(ps, Newest(u, |selected|))
  {
    selected := [];
    cum := 0;
    CountInDisjoint(ps, Newest(u, 0));
    var i := |u|;
    while i > 0
      invariant 0 <= i <= |u|
      invariant |selected| == |u| - i
      invariant forall j :: 0 <= j < |selected| ==> selected[j] == u[|u| - 1 - j]
      invariant cum == CountIn(ps, Newest(u, |selected|))
      invariant forall j :: 1 <= j <= |selected| ==> !Reaches(CountIn(ps, Newest(u, j)), |ps|, f)
    {
      i := i - 1;
      var m := u[i];
      var monthN := CountIn(ps, {m});
      NewestGrow(u, |selected|);
      CountInAddPeriod(ps, Newest(u, |selected|), m);
      selected := selected + [m];
      cum := cum + monthN;
      if Reaches(cum, |ps|, f) {
        break;
      }
    }
  }

  /** The periods a walk took, as a set, are the newest ones. */
  lemma TakenAreNewest(selected: seq<int>, u: seq<int>)
    requires |selected| <= |u|
    requires forall i :: 0 <= i < |selected| ==> selected[i] == u[|u| - 1 - i]
    ensures (set m | m in selected) == Newest(u, |selected|)
  {
    forall q | q in Newest(u, |selected|)
      ensures q in selected
    {
      var j :| |u| - |selected| <= j < |u| && u[j] == q;
      assert selected[|u| - 1 - j] == q;
    }
  }
}
