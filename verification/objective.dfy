/**
 * The scalar the solver minimises for an assignment: range fairness, the
 * incentive to fill 1B, the soft availability penalties and the L1 balance
 * term. The solver's auxiliary variables (indicator booleans, counters,
 * `max_all`/`min_all`, `deviations`) are replaced by the values they are
 * constrained to; `deviations[s]` is only bounded below, so it is taken at
 * its least value, the absolute difference.
 */
module Objective {
  import opened Wrappers
  import opened CallLevels
  import opened Domains
  import opened Schedule

  /** `call_count_overall` over `all_surgeon_ids`, in roster order. */
  function Counts(roster: seq<Surgeon>, x: Assignment): (c: seq<int>)
    ensures |c| == |roster|
    ensures forall i :: 0 <= i < |roster| ==> c[i] == Count(x, roster[i].id)
  {
    if roster == [] then [] else [Count(x, roster[0].id)] + Counts(roster[1..], x)
  }

  /** `max_all` (`AddMaxEquality`). */
  function MaxOf(s: seq<int>): (m: int)
    requires s != []
    ensures forall i :: 0 <= i < |s| ==> s[i] <= m
    ensures m in s
  {
    if |s| == 1 then s[0]
    else
      var m := MaxOf(s[1..]);
      if s[0] >= m then s[0] else m
  }

  /** `min_all` (`AddMinEquality`). */
  function MinOf(s: seq<int>): (m: int)
    requires s != []
    ensures forall i :: 0 <= i < |s| ==> m <= s[i]
    ensures m in s
  {
    if |s| == 1 then s[0]
    else
      var m := MinOf(s[1..]);
      if s[0] <= m then s[0] else m
  }

  /** `diff_all = max_all - min_all`; an empty roster has no spread. */
  function Spread(c: seq<int>): int
  {
    if c == [] then 0 else MaxOf(c) - MinOf(c)
  }

  function Sum(s: seq<int>): int
  {
    if s == [] then 0 else Sum(s[..|s| - 1]) + s[|s| - 1]
  }

  function Abs(v: int): (a: int)
    ensures a >= 0 && (a == v || a == -v)
  {
    if v < 0 then -v else v
  }

  /** `|c[i] * n - t|` summed over the first `k` counts. */
  function DeviationTerms(c: seq<int>, n: int, t: int, k: nat): (r: int)
    requires k <= |c|
    ensures r >= 0
  {
    if k == 0 then 0 else DeviationTerms(c, n, t, k - 1) + Abs(c[k - 1] * n - t)
  }

  /** `deviation_sum`: the L1 distance of every count from the mean, scaled by the roster size `N` (with `T` the total). */
  function DeviationSum(c: seq<int>): int
  {
    DeviationTerms(c, |c|, Sum(c), |c|)
  }

  /** `total_1B`: the days whose 1B slot is filled. */
  function Filled1B(x: Assignment): (n: nat)
    ensures n <= |x|
  {
    if x == [] then 0 else Filled1B(x[..|x| - 1]) + Ind(x[|x| - 1].s1B != Unassigned)
  }

  /**
   * For one day's row, the slots held by the surgeon of each request of
   * `kind` dated `day`, one count per matching request.
   */
  function MatchHits(row: DayRow, day: int, reqs: seq<Request>, kind: RequestKind): (n: nat)
  {
    if reqs == [] then 0
    else
      var r := reqs[|reqs| - 1];
      MatchHits(row, day, reqs[..|reqs| - 1], kind)
        + (if OnDay(r, day) && r.kind == kind then RowCount(row, r.surgeonId) else 0)
  }

  /** `penalty_unavail_prev` over the first `n` days: slots on day i held by a surgeon unavailable on day i + 1. */
  function UnavailPrevUpTo(days: seq<int>, reqs: seq<Request>, x: Assignment, n: nat): nat
    requires |x| == |days| && n < |days|
  {
    if n == 0 then 0
    else UnavailPrevUpTo(days, reqs, x, n - 1) + MatchHits(x[n - 1], days[n], reqs, Unavailable)
  }

  function UnavailPrevPenalty(inst: Instance, x: Assignment): nat
    requires |x| == |inst.days|
  {
    if |inst.days| == 0 then 0 else UnavailPrevUpTo(inst.days, inst.requests, x, |inst.days| - 1)
  }

  /** The slots over the first `n` days held by a surgeon with a no-call request for that day. */
  function NoCallUpTo(days: seq<int>, reqs: seq<Request>, x: Assignment, n: nat): nat
    requires |x| == |days| && n <= |days|
  {
    if n == 0 then 0
    else NoCallUpTo(days, reqs, x, n - 1) + MatchHits(x[n - 1], days[n - 1], reqs, NoCall)
  }

  /** `penalty_nocall`: built only when no-call requests are soft. */
  function NoCallPenalty(inst: Instance, x: Assignment): nat
    requires |x| == |inst.days|
  {
    if inst.weights.noCallHard then 0 else NoCallUpTo(inst.days, inst.requests, x, |inst.days|)
  }

  /** The minimised expression. */
  function ObjectiveValue(inst: Instance, x: Assignment): int
    requires |x| == |inst.days|
  {
    var w := inst.weights;
    var c := Counts(inst.roster, x);
    w.fairness * Spread(c)
      - w.gamma1B * Filled1B(x)
      + w.gammaNoCall * NoCallPenalty(inst, x)
      + w.gammaUnavailPrev * UnavailPrevPenalty(inst, x)
      + w.gammaBalance * DeviationSum(c)
  }

  /**
   * The upper bounds the model declares for its penalty and deviation
   * variables (`num_days * 6 * 10` and `num_days * 6 * N`): an assignment
   * whose value would exceed one of them has no solution in the model.
   */
  predicate AuxiliaryBoundsHold(inst: Instance, x: Assignment)
    requires |x| == |inst.days|
  {
    var nd := |inst.days|;
    && UnavailPrevPenalty(inst, x) <= nd * 6 * 10
    && NoCallPenalty(inst, x) <= nd * 6 * 10
    && DeviationSum(Counts(inst.roster, x)) <= nd * 6 * |inst.roster|
  }

  /** Every surgeon has the same number of calls. */
  predicate Balanced(c: seq<int>)
  {
    forall i, j :: 0 <= i < |c| && 0 <= j < |c| ==> c[i] == c[j]
  }

  /** The range-fairness term vanishes exactly for a balanced roster, and is never negative. */
  lemma SpreadZeroIffBalanced(c: seq<int>)
    ensures Spread(c) >= 0
    ensures Spread(c) == 0 <==> Balanced(c)
  {
    if c != [] {
      var hi, lo := MaxOf(c), MinOf(c);
      assert c[0] <= hi && lo <= c[0];
      if Balanced(c) {
        var i :| 0 <= i < |c| && c[i] == hi;
        var j :| 0 <= j < |c| && c[j] == lo;
        assert c[i] == c[j];
      }
    }
  }

  lemma {:induction false} SumConstant(s: seq<int>, v: int)
    requires forall i :: 0 <= i < |s| ==> s[i] == v
    ensures Sum(s) == |s| * v
  {
    if s != [] {
      SumConstant(s[..|s| - 1], v);
    }
  }

  lemma {:induction false} DeviationTermsZero(c: seq<int>, n: int, t: int, k: nat)
    requires k <= |c|
    ensures DeviationTerms(c, n, t, k) == 0 <==> forall i :: 0 <= i < k ==> c[i] * n == t
  {
    if k > 0 {
      DeviationTermsZero(c, n, t, k - 1);
    }
  }

  /**
   * The balance term vanishes exactly for a balanced roster: every count
   * times `N` equals the total `T` only when all counts are equal.
   */
  lemma DeviationZeroIffBalanced(c: seq<int>)
    ensures DeviationSum(c) >= 0
    ensures DeviationSum(c) == 0 <==> Balanced(c)
  {
    var n, t := |c|, Sum(c);
    DeviationTermsZero(c, n, t, n);
    if Balanced(c) && c != [] {
      SumConstant(c, c[0]);
      forall i | 0 <= i < n ensures c[i] * n == t {
        assert c[i] == c[0];
      }
    }
    if DeviationSum(c) == 0 {
      forall i, j | 0 <= i < n && 0 <= j < n ensures c[i] == c[j] {
        assert c[i] * n == c[j] * n;
        assert (c[i] - c[j]) * n == 0;
      }
    }
  }

  /**
   * For a balanced roster both fairness terms vanish, leaving the 1B
   * incentive and the two availability penalties.
   */
  lemma BalancedObjective(inst: Instance, x: Assignment)
    requires |x| == |inst.days|
    requires Balanced(Counts(inst.roster, x))
    ensures ObjectiveValue(inst, x) ==
              - inst.weights.gamma1B * Filled1B(x)
              + inst.weights.gammaNoCall * NoCallPenalty(inst, x)
              + inst.weights.gammaUnavailPrev * UnavailPrevPenalty(inst, x)
  {
    var w := inst.weights;
    var c := Counts(inst.roster, x);
    var spread, dev := Spread(c), DeviationSum(c);
    assert ObjectiveValue(inst, x) == w.fairness * spread - w.gamma1B * Filled1B(x)
      + w.gammaNoCall * NoCallPenalty(inst, x) + w.gammaUnavailPrev * UnavailPrevPenalty(inst, x)
      + w.gammaBalance * dev;
    SpreadZeroIffBalanced(c);
    DeviationZeroIffBalanced(c);
    assert w.fairness * spread == 0 && w.gammaBalance * dev == 0;
  }

  /** A surgeon with a request of `kind` dated `day` holds no slot of `row`. */
  predicate HonouredOn(row: DayRow, day: int, reqs: seq<Request>, kind: RequestKind)
  {
    forall j, l :: 0 <= j < |reqs| && OnDay(reqs[j], day) && reqs[j].kind == kind ==> row.At(l) != reqs[j].surgeonId
  }

  lemma {:induction false} MatchHitsZero(row: DayRow, day: int, reqs: seq<Request>, kind: RequestKind)
    ensures MatchHits(row, day, reqs, kind) == 0 <==> HonouredOn(row, day, reqs, kind)
  {
    if reqs != [] {
      var init := reqs[..|reqs| - 1];
      MatchHitsZero(row, day, init, kind);
      assert forall j :: 0 <= j < |init| ==> reqs[j] == init[j];
    }
  }

  lemma {:induction false} NoCallUpToZero(days: seq<int>, reqs: seq<Request>, x: Assignment, n: nat)
    requires |x| == |days| && n <= |days|
    ensures NoCallUpTo(days, reqs, x, n) == 0 <==> forall i :: 0 <= i < n ==> HonouredOn(x[i], days[i], reqs, NoCall)
  {
    if n > 0 {
      NoCallUpToZero(days, reqs, x, n - 1);
      MatchHitsZero(x[n - 1], days[n - 1], reqs, NoCall);
    }
  }

  /**
   * With soft no-call requests, the no-call penalty is zero exactly when no
   * surgeon holds any slot on a day for which they asked not to be on call.
   */
  lemma NoCallPenaltyZero(inst: Instance, x: Assignment)
    requires |x| == |inst.days|
    requires !inst.weights.noCallHard
    ensures NoCallPenalty(inst, x) == 0 <==>
              forall i :: 0 <= i < |x| ==> HonouredOn(x[i], inst.days[i], inst.requests, NoCall)
  {
    NoCallUpToZero(inst.days, inst.requests, x, |x|);
  }

  lemma {:induction false} UnavailPrevUpToZero(days: seq<int>, reqs: seq<Request>, x: Assignment, n: nat)
    requires |x| == |days| && n < |days|
    ensures UnavailPrevUpTo(days, reqs, x, n) == 0 <==>
              forall i :: 0 <= i < n ==> HonouredOn(x[i], days[i + 1], reqs, Unavailable)
  {
    if n > 0 {
      UnavailPrevUpToZero(days, reqs, x, n - 1);
      MatchHitsZero(x[n - 1], days[n], reqs, Unavailable);
    }
  }

  /**
   * The eve-of-absence penalty is zero exactly when nobody holds a slot on
   * the day before a day they are unavailable.
   */
  lemma UnavailPrevPenaltyZero(inst: Instance, x: Assignment)
    requires |x| == |inst.days|
    ensures UnavailPrevPenalty(inst, x) == 0 <==>
              forall i :: 0 <= i < |x| - 1 ==> HonouredOn(x[i], inst.days[i + 1], inst.requests, Unavailable)
  {
    if |x| > 0 {
      UnavailPrevUpToZero(inst.days, inst.requests, x, |x| - 1);
    }
  }

  /**
   * With non-negative weights every term but the 1B incentive is
   * non-negative, so no assignment scores below `-gamma_1B * num_days`.
   */
  lemma ObjectiveLowerBound(inst: Instance, x: Assignment)
    requires |x| == |inst.days|
    requires inst.weights.fairness >= 0 && inst.weights.gammaNoCall >= 0
    requires inst.weights.gammaUnavailPrev >= 0 && inst.weights.gammaBalance >= 0
    requires inst.weights.gamma1B >= 0
    ensures ObjectiveValue(inst, x) >= -inst.weights.gamma1B * |inst.days|
  {
    var w := inst.weights;
    var c := Counts(inst.roster, x);
    SpreadZeroIffBalanced(c);
    WeightedSumBound(w.fairness, w.gamma1B, w.gammaNoCall, w.gammaUnavailPrev, w.gammaBalance,
      Spread(c), Filled1B(x), NoCallPenalty(inst, x), UnavailPrevPenalty(inst, x), DeviationSum(c), |inst.days|);
  }

  lemma WeightedSumBound(fw: int, g1: int, gnc: int, gup: int, gb: int,
                         spread: int, filled: int, nc: int, up: int, dev: int, nd: int)
    requires fw >= 0 && g1 >= 0 && gnc >= 0 && gup >= 0 && gb >= 0
    requires spread >= 0 && 0 <= filled <= nd && nc >= 0 && up >= 0 && dev >= 0
    ensures fw * spread - g1 * filled + gnc * nc + gup * up + gb * dev >= -g1 * nd
  {
    assert fw * spread >= 0 && gb * dev >= 0 && gnc * nc >= 0 && gup * up >= 0;
    assert g1 * filled <= g1 * nd;
  }
}
