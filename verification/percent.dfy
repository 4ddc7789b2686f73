/**
 Per-status percentages `count / total * 100`, as exact reals (the source
 stores floats; rounding is left out of the model).
 */
module Percentages {
  import opened Tally

  datatype Share = Share(status: string, percent: real)

  /** The share of `count` tickets among `total`, in percent; the division needs a non-zero total. */
  function Percent(count: nat, total: nat): (p: real)
    requires total > 0
    ensures p * (total as real) == (count as real) * 100.0
  {
    (count as real) / (total as real) * 100.0
  }

  /**
   One share per tally entry, in the tally's order. No division happens when
   the tally is empty, so only a non-empty tally needs a non-zero total.
   */
  function Shares(es: seq<Entry>, total: nat): seq<Share>
    requires |es| == 0 || total > 0
  {
    if |es| == 0 then []
    else [Share(es[0].status, Percent(es[0].count, total))] + Shares(es[1..], total)
  }

  /** The shares follow the tally entry by entry: same status, and the percentage of its count. */
  lemma {:induction false} SharesSpec(es: seq<Entry>, total: nat)
    requires |es| == 0 || total > 0
    ensures |Shares(es, total)| == |es|
    ensures forall i :: 0 <= i < |es| ==> Shares(es, total)[i].status == es[i].status
    ensures forall i :: 0 <= i < |es| ==> total > 0 && Shares(es, total)[i].percent == Percent(es[i].count, total)
  {
    if |es| > 0 {
      SharesSpec(es[1..], total);
      var ps := Shares(es, total);
      forall i | 0 <= i < |es|
        ensures ps[i].status == es[i].status && ps[i].percent == Percent(es[i].count, total)
      {
        if i > 0 {
          assert ps[i] == Shares(es[1..], total)[i - 1];
          assert es[i] == es[1..][i - 1];
        }
      }
    }
  }

  /** The statuses named by a list of shares. */
  function ShareStatuses(ps: seq<Share>): set<string>
  {
    set i | 0 <= i < |ps| :: ps[i].status
  }

  function SumPercent(ps: seq<Share>): real
  {
    if |ps| == 0 then 0.0 else ps[0].percent + SumPercent(ps[1..])
  }

  /** Percentages of the same total add up like their counts. */
  lemma PercentAdd(a: nat, b: nat, total: nat)
    requires total > 0
    ensures Percent(a, total) + Percent(b, total) == Percent(a + b, total)
  {
    var t := total as real;
    var p, q, r := Percent(a, total), Percent(b, total), Percent(a + b, total);
    assert (p + q - r) * t == 0.0;
  }

  /** The shares of a tally add up to the share of its total count. */
  lemma {:induction false} SumPercentScaled(es: seq<Entry>, total: nat)
    requires total > 0
    ensures SumPercent(Shares(es, total)) == Percent(SumCounts(es), total)
  {
    if |es| > 0 {
      SumPercentScaled(es[1..], total);
      SumPercentCons(es, total);
      PercentAdd(es[0].count, SumCounts(es[1..]), total);
    } else {
      assert Percent(0, total) * (total as real) == 0.0;
    }
  }

  /** The sum of the shares splits into the first share and the sum of the rest. */
  lemma SumPercentCons(es: seq<Entry>, total: nat)
    requires total > 0 && |es| > 0
    ensures SumPercent(Shares(es, total)) == Percent(es[0].count, total) + SumPercent(Shares(es[1..], total))
  {
    assert Shares(es, total)[1..] == Shares(es[1..], total);
  }

  /** A percentage `p` with `p * t == c * 100` lies where `c` lies relative to `t`. */
  lemma ScaledBounds(p: real, t: real, c: real)
    requires t > 0.0 && p * t == c * 100.0
    ensures c > 0.0 ==> p > 0.0
    ensures c <= t ==> p <= 100.0
    ensures p == 100.0 <==> c == t
  {
    assert (p - 100.0) * t == (c - t) * 100.0;
  }

  /** The share of a positive count that does not exceed the total lies in (0, 100]. */
  lemma PercentBounded(count: nat, total: nat)
    requires 0 < count <= total
    ensures 0.0 < Percent(count, total) <= 100.0
  {
    ScaledBounds(Percent(count, total), total as real, count as real);
  }

  /** Each share of a tally whose counts are positive and add up to at most `total` lies in (0, 100]. */
  lemma ShareBounded(es: seq<Entry>, total: nat, i: nat)
    requires total > 0 && SumCounts(es) <= total
    requires i < |es| && es[i].count > 0
    ensures i < |Shares(es, total)| && 0.0 < Shares(es, total)[i].percent <= 100.0
  {
    SharesSpec(es, total);
    CountBelowSum(es, i);
    PercentBounded(es[i].count, total);
  }

  /** The shares add up to at most 100, and to exactly 100 precisely when the counts add up to `total`. */
  lemma SumSharesBounded(es: seq<Entry>, total: nat)
    requires total > 0 && SumCounts(es) <= total
    ensures SumPercent(Shares(es, total)) <= 100.0
    ensures SumPercent(Shares(es, total)) == 100.0 <==> SumCounts(es) == total
  {
    SumPercentScaled(es, total);
    ScaledBounds(Percent(SumCounts(es), total), total as real, SumCounts(es) as real);
  }

  /**
   When the counts of a tally are positive and add up to at most `total`,
   every share lies in (0, 100], the shares add up to at most 100, and to
   exactly 100 precisely when the counts add up to `total`.
   */
  lemma SharesBounded(es: seq<Entry>, total: nat)
    requires total > 0
    requires SumCounts(es) <= total
    requires forall i :: 0 <= i < |es| ==> es[i].count > 0
    ensures |Shares(es, total)| == |es|
    ensures forall i :: 0 <= i < |es| ==>
              0.0 < Shares(es, total)[i].percent <= 100.0
    ensures SumPercent(Shares(es, total)) <= 100.0
    ensures SumPercent(Shares(es, total)) == 100.0 <==> SumCounts(es) == total
  {
    SharesSpec(es, total);
    forall i | 0 <= i < |es| ensures 0.0 < Shares(es, total)[i].percent <= 100.0 {
      ShareBounded(es, total, i);
    }
    SumSharesBounded(es, total);
  }
}
