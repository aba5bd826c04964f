/** The progress reports that both workers send while they scan.

    Each worker reports 0 before its scan and then, after finishing step
    `i` of `total` steps, reports floor(100 * (i + 1) / total) whenever
    that value is larger than the last one it reported. */
module Progress {

  /** floor(100 * done / total): `Math.floor` of a non-negative quotient is
      integer division. */
  function Percent(done: nat, total: nat): nat
    requires total > 0
  {
    100 * done / total
  }

  /** The reports sent after `steps` of the `total` steps have finished. */
  function Reports(total: nat, steps: nat): (r: seq<nat>)
    requires steps <= total
    ensures |r| >= 1 && r[0] == 0
  {
    if steps == 0 then [0]
    else
      var before := Reports(total, steps - 1);
      var current := Percent(steps, total);
      if current > before[|before| - 1] then before + [current] else before
  }

  /** One more finished step adds its percentage when, and only when, it
      exceeds the last report. */
  lemma ReportsStep(total: nat, steps: nat)
    requires steps < total
    ensures Percent(steps + 1, total) > Last(Reports(total, steps)) ==>
              Reports(total, steps + 1) == Reports(total, steps) + [Percent(steps + 1, total)]
    ensures Percent(steps + 1, total) <= Last(Reports(total, steps)) ==>
              Reports(total, steps + 1) == Reports(total, steps)
  {
  }

  /** The percentage that a worker keeps as its last report. */
  function Last(r: seq<nat>): nat
    requires |r| >= 1
  {
    r[|r| - 1]
  }

  lemma {:induction false} MulMonotone(a: int, b: int, d: nat)
    requires a <= b
    ensures a * d <= b * d
    decreases b - a
  {
    if a < b {
      MulMonotone(a, b - 1, d);
      assert (b - 1) * d + d == b * d;
    }
  }

  lemma DivMonotone(x: nat, y: nat, d: nat)
    requires d > 0 && x <= y
    ensures x / d <= y / d
  {
    var qx, qy := x / d, y / d;
    if qy < qx {
      MulMonotone(qy + 1, qx, d);
      assert false;
    }
  }

  /** More steps done never means a smaller percentage. */
  lemma PercentMonotone(a: nat, b: nat, total: nat)
    requires total > 0 && a <= b
    ensures Percent(a, total) <= Percent(b, total)
  {
    DivMonotone(100 * a, 100 * b, total);
  }

  /** The last report is always the percentage of the steps done so far. */
  lemma {:induction false} LastIsCurrentPercent(total: nat, steps: nat)
    requires 0 < total && steps <= total
    ensures Last(Reports(total, steps)) == Percent(steps, total)
  {
    if steps > 0 {
      LastIsCurrentPercent(total, steps - 1);
      PercentMonotone(steps - 1, steps, total);
    }
  }

  /** All steps done is 100 percent. */
  lemma HundredPercent(total: nat)
    requires total > 0
    ensures Percent(total, total) == 100
  {
    assert 100 * total == 100 * total + 0;
  }

  /** Reports are strictly increasing. */
  lemma {:induction false} ReportsIncreasing(total: nat, steps: nat)
    requires steps <= total
    ensures forall a, b :: 0 <= a < b < |Reports(total, steps)| ==>
              Reports(total, steps)[a] < Reports(total, steps)[b]
  {
    if steps > 0 {
      ReportsIncreasing(total, steps - 1);
      var before := Reports(total, steps - 1);
      var r := Reports(total, steps);
      forall a, b | 0 <= a < b < |r| ensures r[a] < r[b] {
        if b == |before| {
          assert r[a] == before[a] && before[a] <= Last(before);
        } else {
          assert r[a] == before[a] && r[b] == before[b];
        }
      }
    }
  }

  /** Reports never exceed 100. */
  lemma {:induction false} ReportsAtMostHundred(total: nat, steps: nat)
    requires steps <= total
    ensures forall a :: 0 <= a < |Reports(total, steps)| ==> Reports(total, steps)[a] <= 100
  {
    if steps > 0 {
      ReportsAtMostHundred(total, steps - 1);
      PercentMonotone(steps, total, total);
      HundredPercent(total);
    }
  }

  /** Every report after the first is the percentage reached after some step. */
  lemma {:induction false} ReportsArePercentages(total: nat, steps: nat)
    requires steps <= total
    ensures forall a :: 0 < a < |Reports(total, steps)| ==>
              exists k :: 1 <= k <= steps && Reports(total, steps)[a] == Percent(k, total)
  {
    if steps > 0 {
      ReportsArePercentages(total, steps - 1);
      var r := Reports(total, steps);
      forall a | 0 < a < |r|
        ensures exists k :: 1 <= k <= steps && r[a] == Percent(k, total)
      {
        if a < |Reports(total, steps - 1)| {
          var k :| 1 <= k <= steps - 1 && Reports(total, steps - 1)[a] == Percent(k, total);
          assert r[a] == Percent(k, total);
        } else {
          assert r[a] == Percent(steps, total);
        }
      }
    }
  }

  /** No increase is skipped: every percentage reached so far was reported. */
  lemma {:induction false} ReportsComplete(total: nat, steps: nat)
    requires 0 < total && steps <= total
    ensures forall k :: 0 <= k <= steps ==> Percent(k, total) in Reports(total, steps)
  {
    if steps > 0 {
      ReportsComplete(total, steps - 1);
      LastIsCurrentPercent(total, steps - 1);
      var before := Reports(total, steps - 1);
      assert Reports(total, steps) == before || Reports(total, steps) == before + [Percent(steps, total)];
      if Percent(steps, total) <= Last(before) {
        PercentMonotone(steps - 1, steps, total);
        assert Percent(steps, total) == Last(before);
      }
    }
  }

  /** A finished scan of at least one step ends with the report 100. */
  lemma FinalReportIsHundred(total: nat)
    requires total > 0
    ensures Last(Reports(total, total)) == 100
  {
    LastIsCurrentPercent(total, total);
    HundredPercent(total);
  }

  /** A finished scan reports 0 first and, when there was anything to
      scan, 100 last; with nothing to scan it reports only 0. */
  lemma FinishedScan(total: nat)
    ensures Reports(total, total)[0] == 0
    ensures total > 0 ==> Last(Reports(total, total)) == 100
    ensures total == 0 ==> Reports(total, total) == [0]
  {
    if total > 0 {
      FinalReportIsHundred(total);
    }
  }
}
