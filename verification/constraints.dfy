/**
 * The hard constraints the scheduler posts, stated over a concrete
 * assignment, and the two lookups that raise KeyError while the model is
 * being built. The per-group call caps are read from the configuration but
 * never posted, so they are not constraints here.
 */
module Constraints {
  import opened Wrappers
  import opened CallLevels
  import opened Domains
  import opened Schedule
  import opened Objective

  /** Each variable ranges over its level's domain (`NewIntVarFromDomain`). */
  predicate InDomains(roster: seq<Surgeon>, x: Assignment)
  {
    forall d, l :: 0 <= d < |x| ==> x[d].At(l) in Domain(roster, l)
  }

  /** Constraint set 1: the forced levels among 1A, 2A, 3 and 4 hold pairwise different values. */
  predicate ForcedDistinct(roster: seq<Surgeon>, row: DayRow)
  {
    forall l1, l2 :: Forced(roster, l1) && Forced(roster, l2) && l1 != l2 ==> row.At(l1) != row.At(l2)
  }

  /** Constraint set 2: two filled slots on days one or two apart hold different surgeons, whatever their levels. */
  predicate RestGap(x: Assignment)
  {
    forall d, d2, l1, l2 ::
      0 <= d < d2 < |x| && d2 < d + 3 && x[d].At(l1) != Unassigned && x[d2].At(l2) != Unassigned ==>
        x[d].At(l1) != x[d2].At(l2)
  }

  /** Level 1 pairing: a filled 1B differs from 1A. */
  predicate OneBDiffersFromOneA(row: DayRow)
  {
    row.s1B != Unassigned ==> row.s1A != row.s1B
  }

  /**
   * Level 2 pairing. One conditional is posted per candidate `s` of the 2A
   * domain and only the one with `s` equal to the 2A value is active: a
   * surgeon who needs supervision gets a different, present 2B; anyone else
   * on 2A leaves 2B empty.
   */
  predicate Supervised(roster: seq<Surgeon>, row: DayRow)
  {
    var s := row.s2A;
    s in Domain(roster, L2A) ==>
      if GroupOf(roster, s) == Some(NeedsSupervision) then row.s2B != Unassigned && row.s2B != s
      else row.s2B == Unassigned
  }

  /** A request posting a hard rule for day `i` keeps its surgeon out of all six slots that day. */
  predicate AvailabilityHonoured(inst: Instance, x: Assignment)
    requires |x| == |inst.days|
  {
    forall i, j, l ::
      0 <= i < |x| && 0 <= j < |inst.requests| &&
      OnDay(inst.requests[j], inst.days[i]) && IsHard(inst.requests[j], inst.weights) ==>
        x[i].At(l) != inst.requests[j].surgeonId
  }

  /** Every constraint the model posts, including the declared bounds of its auxiliary variables. */
  predicate ValidSchedule(inst: Instance, x: Assignment)
  {
    && |x| == |inst.days|
    && InDomains(inst.roster, x)
    && (forall d :: 0 <= d < |x| ==> ForcedDistinct(inst.roster, x[d]))
    && RestGap(x)
    && (forall d :: 0 <= d < |x| ==> OneBDiffersFromOneA(x[d]))
    && (forall d :: 0 <= d < |x| ==> Supervised(inst.roster, x[d]))
    && AvailabilityHonoured(inst, x)
    && AuxiliaryBoundsHold(inst, x)
  }

  /** Some request of `a` comes before every request of `b`: `a` is met first when grouping by surgeon. */
  predicate AppearsBefore(reqs: seq<Request>, a: int, b: int)
  {
    exists j :: 0 <= j < |reqs| && reqs[j].surgeonId == a && forall m :: 0 <= m < j ==> reqs[m].surgeonId != b
  }

  /** Appending a request keeps every earlier order of first appearance, and puts a new surgeon last. */
  lemma FirstAppearanceStep(init: seq<Request>, last: Request, ids: seq<int>)
    requires forall id :: id in ids <==> exists r <- init :: r.surgeonId == id
    requires forall a, b :: 0 <= a < b < |ids| ==> AppearsBefore(init, ids[a], ids[b])
    ensures forall a, b :: 0 <= a < b < |ids| ==> AppearsBefore(init + [last], ids[a], ids[b])
    ensures last.surgeonId !in ids ==>
              var ids' := ids + [last.surgeonId];
              forall a, b :: 0 <= a < b < |ids'| ==> AppearsBefore(init + [last], ids'[a], ids'[b])
  {
    var reqs := init + [last];
    forall a, b | 0 <= a < b < |ids| ensures AppearsBefore(reqs, ids[a], ids[b]) {
      var j :| 0 <= j < |init| && init[j].surgeonId == ids[a] && forall m :: 0 <= m < j ==> init[m].surgeonId != ids[b];
      assert reqs[j] == init[j];
      assert forall m :: 0 <= m < j ==> reqs[m] == init[m];
    }
    if last.surgeonId !in ids {
      var ids' := ids + [last.surgeonId];
      forall a, b | 0 <= a < b < |ids'| ensures AppearsBefore(reqs, ids'[a], ids'[b]) {
        if b < |ids| {
          assert ids'[a] == ids[a] && ids'[b] == ids[b];
        } else {
          assert ids'[a] == ids[a] && ids'[b] == last.surgeonId;
          assert ids[a] in ids;
          var r :| r in init && r.surgeonId == ids[a];
          var j :| 0 <= j < |init| && init[j] == r;
          assert reqs[j] == init[j];
          forall m | 0 <= m < j ensures reqs[m].surgeonId != last.surgeonId {
            assert reqs[m] == init[m] && init[m] in init;
          }
        }
      }
    }
  }

  /** `availability.keys()`: the surgeon ids of the requests, each once, in order of first appearance. */
  function RequestSurgeons(reqs: seq<Request>): (ids: seq<int>)
    ensures forall id :: id in ids <==> exists r <- reqs :: r.surgeonId == id
    ensures forall a, b :: 0 <= a < b < |ids| ==> ids[a] != ids[b]
    ensures forall a, b :: 0 <= a < b < |ids| ==> AppearsBefore(reqs, ids[a], ids[b])
  {
    if reqs == [] then []
    else
      var init := reqs[..|reqs| - 1];
      var last := reqs[|reqs| - 1];
      var ids := RequestSurgeons(init);
      assert reqs == init + [last];
      assert forall r <- reqs :: r == last || r in init;
      FirstAppearanceStep(init, last, ids);
      if last.surgeonId in ids then ids else ids + [last.surgeonId]
  }

  /** Some request of `id` posts a hard rule for `day`. */
  predicate HasHardRequestOn(inst: Instance, id: int, day: int)
  {
    exists r <- inst.requests :: r.surgeonId == id && OnDay(r, day) && IsHard(r, inst.weights)
  }

  /** No id before position `k` of `order` is both off the roster and hard-requested on `day`. */
  predicate EarlierKnown(inst: Instance, order: seq<int>, day: int, k: int)
    requires 0 <= k <= |order|
  {
    forall m :: 0 <= m < k ==> order[m] in Ids(inst.roster) || !HasHardRequestOn(inst, order[m], day)
  }

  /** A first offending id found past the head of `order` is still the first one in `order`. */
  lemma FirstUnknownShift(inst: Instance, order: seq<int>, day: int, v: int)
    requires |order| > 0 && (order[0] in Ids(inst.roster) || !HasHardRequestOn(inst, order[0], day))
    requires exists k :: 0 <= k < |order[1..]| && order[1..][k] == v && EarlierKnown(inst, order[1..], day, k)
    ensures exists k :: 0 <= k < |order| && order[k] == v && EarlierKnown(inst, order, day, k)
  {
    var k :| 0 <= k < |order[1..]| && order[1..][k] == v && EarlierKnown(inst, order[1..], day, k);
    assert order[k + 1] == v;
    forall m | 0 <= m < k + 1 ensures order[m] in Ids(inst.roster) || !HasHardRequestOn(inst, order[m], day) {
      if m > 0 {
        assert order[m] == order[1..][m - 1];
      }
    }
    assert EarlierKnown(inst, order, day, k + 1);
  }

  /**
   * On one day, the first surgeon id in `order` whose hard request reads an
   * indicator that was never created because the id is not on the roster.
   */
  function UnknownOnDay(inst: Instance, order: seq<int>, day: int): (r: Option<int>)
    ensures r.Some? ==> r.value !in Ids(inst.roster) && HasHardRequestOn(inst, r.value, day)
    ensures r.Some? ==> exists k :: 0 <= k < |order| && order[k] == r.value && EarlierKnown(inst, order, day, k)
    ensures r.None? ==> forall id <- order :: HasHardRequestOn(inst, id, day) ==> id in Ids(inst.roster)
  {
    if order == [] then None
    else if order[0] !in Ids(inst.roster) && HasHardRequestOn(inst, order[0], day) then
      assert EarlierKnown(inst, order, day, 0);
      Some(order[0])
    else
      var r := UnknownOnDay(inst, order[1..], day);
      assert forall id <- order :: id == order[0] || id in order[1..];
      if r.Some? then
        FirstUnknownShift(inst, order, day, r.value);
        r
      else r
  }

  /** The key of a KeyError: an `id_to_surgeon` id, or an `indicators` key (day index, level, surgeon id). */
  datatype ErrorKey =
    | SurgeonKey(id: int)
    | IndicatorKey(day: nat, level: Level, id: int)

  /**
   * The KeyError the availability constraints raise, scanning the days from
   * `i` on: the first day with an offending id, the first such id in grouping
   * order, and level 1A, the first the indicator sum reads.
   */
  function UnknownHardRequest(inst: Instance, i: nat): (r: Option<ErrorKey>)
    ensures r.Some? ==> r.value.IndicatorKey? && r.value.level == L1A && i <= r.value.day < |inst.days|
    ensures r.Some? ==> r.value.id !in Ids(inst.roster) && HasHardRequestOn(inst, r.value.id, inst.days[r.value.day])
    ensures r.Some? ==> UnknownOnDay(inst, RequestSurgeons(inst.requests), inst.days[r.value.day]) == Some(r.value.id)
    ensures r.Some? ==> forall k :: i <= k < r.value.day ==>
                          UnknownOnDay(inst, RequestSurgeons(inst.requests), inst.days[k]).None?
    ensures r.None? <==> forall k :: i <= k < |inst.days| ==>
                           UnknownOnDay(inst, RequestSurgeons(inst.requests), inst.days[k]).None?
    ensures r.None? ==> forall k, id :: i <= k < |inst.days| && HasHardRequestOn(inst, id, inst.days[k])
                          ==> id in Ids(inst.roster)
    decreases |inst.days| - i
  {
    if i >= |inst.days| then None
    else
      var order := RequestSurgeons(inst.requests);
      match UnknownOnDay(inst, order, inst.days[i])
      case Some(id) => Some(IndicatorKey(i, L1A, id))
      case None => UnknownHardRequest(inst, i + 1)
  }

  /** The level 2 loop looks up the sentinel as a surgeon: the 2A domain is empty of surgeons and there is a day. */
  predicate SentinelLookedUp(inst: Instance)
  {
    |inst.days| > 0 && Domain(inst.roster, L2A) == [Unassigned]
  }

  /** Every hard rule posted for a day of the period names a surgeon on the roster. */
  predicate HardRequestsKnown(inst: Instance)
  {
    forall k, j :: 0 <= k < |inst.days| && 0 <= j < |inst.requests|
      && OnDay(inst.requests[j], inst.days[k]) && IsHard(inst.requests[j], inst.weights)
      ==> inst.requests[j].surgeonId in Ids(inst.roster)
  }

  /**
   * The key of the KeyError raised while the model is built, if any: the
   * sentinel in the level 2 loop first, then the earliest day's first
   * unknown surgeon with a hard request.
   */
  function ModelError(inst: Instance): (r: Option<ErrorKey>)
    ensures r.None? <==> !SentinelLookedUp(inst) && HardRequestsKnown(inst)
    ensures SentinelLookedUp(inst) ==> r == Some(SurgeonKey(Unassigned))
    ensures r.Some? && !SentinelLookedUp(inst) ==>
              && r.value.IndicatorKey? && r.value.level == L1A && r.value.day < |inst.days|
              && r.value.id !in Ids(inst.roster)
              && UnknownOnDay(inst, RequestSurgeons(inst.requests), inst.days[r.value.day]) == Some(r.value.id)
              && forall k :: 0 <= k < r.value.day ==>
                   UnknownOnDay(inst, RequestSurgeons(inst.requests), inst.days[k]).None?
  {
    if SentinelLookedUp(inst) then Some(SurgeonKey(Unassigned))
    else
      UnknownHardRequestFound(inst);
      UnknownHardRequest(inst, 0)
  }

  /** The scan from the first day finds an unknown surgeon exactly when some hard rule names one. */
  lemma UnknownHardRequestFound(inst: Instance)
    ensures UnknownHardRequest(inst, 0).None? <==> HardRequestsKnown(inst)
  {
    var r := UnknownHardRequest(inst, 0);
    if r.Some? {
      var k := r.value.day;
      var req :| req in inst.requests && req.surgeonId == r.value.id && OnDay(req, inst.days[k]) && IsHard(req, inst.weights);
      var j :| 0 <= j < |inst.requests| && inst.requests[j] == req;
      assert !HardRequestsKnown(inst);
    } else {
      forall k, j | 0 <= k < |inst.days| && 0 <= j < |inst.requests|
          && OnDay(inst.requests[j], inst.days[k]) && IsHard(inst.requests[j], inst.weights)
        ensures inst.requests[j].surgeonId in Ids(inst.roster)
      {
        assert HasHardRequestOn(inst, inst.requests[j].surgeonId, inst.days[k]);
      }
    }
  }

  /** The rest gap, stated per surgeon: nobody works on two days less than three days apart. */
  lemma RestGapPerSurgeon(x: Assignment)
    ensures RestGap(x) <==>
              forall d, d2, id :: 0 <= d < d2 < |x| && d2 < d + 3 && id != Unassigned ==>
                !(WorksOn(x[d], id) && WorksOn(x[d2], id))
  {
    if RestGap(x) {
      forall d, d2, id | 0 <= d < d2 < |x| && d2 < d + 3 && id != Unassigned
        ensures !(WorksOn(x[d], id) && WorksOn(x[d2], id))
      {
        forall l1, l2 ensures x[d].At(l1) != id || x[d2].At(l2) != id {
        }
      }
    } else {
      var d, d2, l1, l2 :| 0 <= d < d2 < |x| && d2 < d + 3
        && x[d].At(l1) != Unassigned && x[d2].At(l2) != Unassigned && x[d].At(l1) == x[d2].At(l2);
      var id := x[d].At(l1);
      assert WorksOn(x[d], id) && WorksOn(x[d2], id);
    }
  }

  /** Under the rest gap a surgeon works on at most one day in three: at most `(n + 2) / 3` of the first `n`. */
  lemma {:induction false} DaysWorkedBound(x: Assignment, n: nat, id: int)
    requires RestGap(x) && id != Unassigned && n <= |x|
    ensures DaysWorked(x, n, id) <= (n + 2) / 3
    decreases n
  {
    if n > 0 {
      RestGapPerSurgeon(x);
      if WorksOn(x[n - 1], id) {
        if n >= 2 {
          assert !WorksOn(x[n - 2], id);
        }
        if n >= 3 {
          assert !WorksOn(x[n - 3], id);
          assert DaysWorked(x, n - 1, id) == DaysWorked(x, n - 3, id);
          DaysWorkedBound(x, n - 3, id);
          assert (n - 1) / 3 + 1 == (n + 2) / 3;
        }
      } else {
        DaysWorkedBound(x, n - 1, id);
      }
    }
  }

  /** A filled slot of a level that may not stay empty lies in a forced level. */
  lemma FilledMandatoryIsForced(inst: Instance, x: Assignment, d: int, l: Level)
    requires ValidSchedule(inst, x) && 0 <= d < |x|
    requires !Optional(l) && x[d].At(l) != Unassigned
    ensures Forced(inst.roster, l)
  {
    assert x[d].At(l) in Domain(inst.roster, l);
  }

  /** Two levels that may not stay empty never hold the same surgeon on one day. */
  lemma MandatoryDistinct(inst: Instance, x: Assignment, d: int, l1: Level, l2: Level, id: int)
    requires ValidSchedule(inst, x) && 0 <= d < |x| && id != Unassigned
    requires !Optional(l1) && !Optional(l2) && l1 != l2
    ensures !(x[d].At(l1) == id && x[d].At(l2) == id)
  {
    assert ForcedDistinct(inst.roster, x[d]);
    if x[d].At(l1) != Unassigned {
      FilledMandatoryIsForced(inst, x, d, l1);
    }
    if x[d].At(l2) != Unassigned {
      FilledMandatoryIsForced(inst, x, d, l2);
    }
  }

  lemma SlotTally(a1: bool, b1: bool, a2: bool, b2: bool, c3: bool, c4: bool)
    requires !(a1 && a2) && !(a1 && c3) && !(a1 && c4) && !(a2 && c3) && !(a2 && c4) && !(c3 && c4)
    requires b1 ==> !a1
    requires b2 ==> !a2
    ensures Ind(a1) + Ind(b1) + Ind(a2) + Ind(b2) + Ind(c3) + Ind(c4) <= 3
  {
  }

  /**
   * A surgeon holds at most three slots of a day: one of 1A, 2A, 3 and 4,
   * plus 1B (never beside their own 1A) and 2B (never beside their own 2A).
   */
  lemma AtMostThreeSlots(inst: Instance, x: Assignment, d: int, id: int)
    requires ValidSchedule(inst, x) && 0 <= d < |x| && id != Unassigned
    ensures RowCount(x[d], id) <= 3
  {
    var row := x[d];
    MandatoryDistinct(inst, x, d, L1A, L2A, id);
    MandatoryDistinct(inst, x, d, L1A, L3, id);
    MandatoryDistinct(inst, x, d, L1A, L4, id);
    MandatoryDistinct(inst, x, d, L2A, L3, id);
    MandatoryDistinct(inst, x, d, L2A, L4, id);
    MandatoryDistinct(inst, x, d, L3, L4, id);
    assert OneBDiffersFromOneA(row);
    assert row.s2A in Domain(inst.roster, L2A);
    assert Supervised(inst.roster, row);
    SlotTally(row.s1A == id, row.s1B == id, row.s2A == id, row.s2B == id, row.s3 == id, row.s4 == id);
  }

  lemma {:induction false} CountByDays(x: Assignment, n: nat, id: int)
    requires n <= |x|
    requires forall d :: 0 <= d < n ==> RowCount(x[d], id) <= 3
    ensures Count(x[..n], id) <= 3 * DaysWorked(x, n, id)
  {
    if n > 0 {
      CountByDays(x, n - 1, id);
      assert x[..n][..n - 1] == x[..n - 1];
    }
  }

  /**
   * In a valid schedule nobody holds more than `num_days + 2` slots of the
   * period: at most three a day, on at most one day in three.
   */
  lemma CallCountBound(inst: Instance, x: Assignment, id: int)
    requires ValidSchedule(inst, x) && id != Unassigned
    ensures Count(x, id) <= |x| + 2
  {
    forall d | 0 <= d < |x| ensures RowCount(x[d], id) <= 3 {
      AtMostThreeSlots(inst, x, d, id);
    }
    CountByDays(x, |x|, id);
    assert x[..|x|] == x;
    DaysWorkedBound(x, |x|, id);
  }

  /**
   * Every filled slot holds a roster surgeon eligible for its level, and a
   * forced level is filled on every day.
   */
  lemma FilledSlotsEligible(inst: Instance, x: Assignment, d: int, l: Level)
    requires ValidSchedule(inst, x) && WellFormedRoster(inst.roster) && 0 <= d < |x|
    ensures x[d].At(l) != Unassigned ==> exists s <- inst.roster :: s.id == x[d].At(l) && Eligible(s, l)
    ensures Forced(inst.roster, l) ==> x[d].At(l) != Unassigned
  {
    assert x[d].At(l) in Domain(inst.roster, l);
    if Forced(inst.roster, l) {
      ForcedDomainSentinel(inst.roster, l);
    }
  }

  /**
   * When the model builds at all, 2A is filled every day, by a surgeon with
   * a level 2 group; 2B is filled exactly when that surgeon needs
   * supervision, and then by somebody else who may supervise.
   */
  lemma SupervisionRule(inst: Instance, x: Assignment, d: int)
    requires ValidSchedule(inst, x) && WellFormedRoster(inst.roster) && 0 <= d < |x|
    requires !SentinelLookedUp(inst)
    ensures x[d].s2A != Unassigned && GroupOf(inst.roster, x[d].s2A).Some?
    ensures x[d].s2B != Unassigned <==> GroupOf(inst.roster, x[d].s2A) == Some(NeedsSupervision)
    ensures x[d].s2B != Unassigned ==> x[d].s2B != x[d].s2A
    ensures x[d].s2B != Unassigned ==> GroupOf(inst.roster, x[d].s2B) in {Some(SelfSufficient), Some(SupervisorOnly)}
  {
    var roster, row := inst.roster, x[d];
    ForcedDomainSentinel(roster, L2A);
    assert row.s2A in Domain(roster, L2A);
    assert row.s2B in Domain(roster, L2B);
    var a :| a in roster && a.id == row.s2A && Eligible(a, L2A);
    Level2DomainsByGroup(roster, a);
    assert Supervised(roster, row);
    if row.s2B != Unassigned {
      var b :| b in roster && b.id == row.s2B && Eligible(b, L2B);
      Level2DomainsByGroup(roster, b);
    }
  }

  /** The same instance with no-call requests made hard. */
  function HardNoCall(inst: Instance): (h: Instance)
    ensures h.weights.noCallHard
    ensures h.days == inst.days && h.roster == inst.roster && h.requests == inst.requests
  {
    inst.(weights := inst.weights.(noCallHard := true))
  }

  /** No surgeon holds a slot on a day they asked not to be on call. */
  predicate NoCallHonoured(inst: Instance, x: Assignment)
    requires |x| == |inst.days|
  {
    forall i :: 0 <= i < |x| ==> HonouredOn(x[i], inst.days[i], inst.requests, NoCall)
  }

  /** No surgeon holds a slot on a day they are unavailable. */
  predicate UnavailableHonoured(inst: Instance, x: Assignment)
    requires |x| == |inst.days|
  {
    forall i :: 0 <= i < |x| ==> HonouredOn(x[i], inst.days[i], inst.requests, Unavailable)
  }

  /** The hard rules of an instance are its unavailable requests, plus its no-call ones in hard mode. */
  lemma AvailabilityByKind(inst: Instance, x: Assignment)
    requires |x| == |inst.days|
    ensures AvailabilityHonoured(inst, x) <==>
              UnavailableHonoured(inst, x) && (inst.weights.noCallHard ==> NoCallHonoured(inst, x))
  {
  }

  /**
   * Switching no-call requests to hard keeps exactly the schedules that,
   * with soft no-call requests, pay no no-call penalty.
   */
  lemma NoCallModes(inst: Instance, x: Assignment)
    requires !inst.weights.noCallHard
    ensures ValidSchedule(HardNoCall(inst), x) <==> ValidSchedule(inst, x) && NoCallPenalty(inst, x) == 0
  {
    var hard := HardNoCall(inst);
    if |x| == |inst.days| {
      var nd := |x|;
      NoCallPenaltyZero(inst, x);
      assert NoCallPenalty(inst, x) == 0 <==> NoCallHonoured(inst, x);
      AvailabilityByKind(inst, x);
      AvailabilityByKind(hard, x);
      assert UnavailableHonoured(hard, x) == UnavailableHonoured(inst, x);
      assert NoCallHonoured(hard, x) == NoCallHonoured(inst, x);
      assert AvailabilityHonoured(hard, x) <==> AvailabilityHonoured(inst, x) && NoCallHonoured(inst, x);
      assert UnavailPrevPenalty(hard, x) == UnavailPrevPenalty(inst, x);
      assert NoCallPenalty(hard, x) == 0;
      assert Counts(hard.roster, x) == Counts(inst.roster, x);
      assert NoCallPenalty(inst, x) == 0 ==> (AuxiliaryBoundsHold(hard, x) <==> AuxiliaryBoundsHold(inst, x));
    }
  }
}
