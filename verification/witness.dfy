/**
 * A one-day, one-surgeon instance on which the model builds and a schedule
 * exists: a surgeon saved with levels 2A and 2B covers 2A alone, every other
 * slot stays empty. It shows that the constraint lemmas, whose requires ask
 * for a valid schedule and no KeyError, apply to real instances.
 */
module ScheduleWitness {
  import opened Wrappers
  import opened Text
  import opened CallLevels
  import opened Domains
  import opened Schedule
  import opened Objective
  import opened Constraints

  /** A surgeon saved from the 2A and 2B checkboxes holds exactly those two codes. */
  lemma SavedTwoACodes(id: int, name: string)
    ensures Codes(Surgeon(id, name, Join(LevelCodes([L2A, L2B]), ','))) == ["2A", "2B"]
  {
    SavedLevelsRoundTrip(id, name, [L2A, L2B]);
    TwoALevelCodes();
  }

  lemma TwoALevelCodes()
    ensures LevelCodes([L2A, L2B]) == ["2A", "2B"]
  {
    assert LevelCodes([L2A, L2B])[0] == "2A";
  }

  /** A surgeon holding 2A and 2B may fill 2A and 2B and is self-sufficient on level 2. */
  lemma TwoAEligible(s: Surgeon)
    requires Codes(s) == ["2A", "2B"]
    ensures Eligible(s, L2A) && Eligible(s, L2B)
    ensures Level2Group(s) == Some(SelfSufficient)
  {
  }

  /** A surgeon holding only level-2 codes may fill no other level: no code of theirs starts like its code. */
  lemma TwoAIneligible(s: Surgeon, l: Level)
    requires Codes(s) == ["2A", "2B"]
    requires l != L2A && l != L2B
    ensures !Eligible(s, l)
  {
    assert Code(l)[0] != '2';
    assert Codes(s)[0][0] == '2' && Codes(s)[1][0] == '2';
  }

  /** The domain of a level on a one-surgeon roster: that surgeon if eligible, and the sentinel where allowed. */
  lemma OneSurgeonDomain(s: Surgeon, l: Level)
    ensures Domain([s], l) ==
              if !Eligible(s, l) then [Unassigned]
              else if Optional(l) then [s.id, Unassigned]
              else [s.id]
  {
    assert [s][1..] == [];
  }

  /** The six domains of a one-surgeon roster whose surgeon holds 2A and 2B. */
  lemma TwoADomains(s: Surgeon)
    requires Codes(s) == ["2A", "2B"] && s.id != Unassigned
    ensures Domain([s], L2A) == [s.id] && Domain([s], L2B) == [s.id, Unassigned]
    ensures Domain([s], L1A) == [Unassigned] && Domain([s], L1B) == [Unassigned]
    ensures Domain([s], L3) == [Unassigned] && Domain([s], L4) == [Unassigned]
    ensures GroupOf([s], s.id) == Some(SelfSufficient)
  {
    TwoAEligible(s);
    OneSurgeonDomain(s, L2A);
    OneSurgeonDomain(s, L2B);
    TwoAIneligible(s, L1A);
    OneSurgeonDomain(s, L1A);
    TwoAIneligible(s, L1B);
    OneSurgeonDomain(s, L1B);
    TwoAIneligible(s, L3);
    OneSurgeonDomain(s, L3);
    TwoAIneligible(s, L4);
    OneSurgeonDomain(s, L4);
  }

  /** The row that puts the surgeon on 2A and leaves every other slot empty. */
  function TwoAOnly(id: int): (row: DayRow)
    ensures row.s2A == id && row.s2B == Unassigned
  {
    DayRow(Unassigned, Unassigned, id, Unassigned, Unassigned, Unassigned)
  }

  /** On that schedule the surgeon holds one slot, and no penalty or deviation arises. */
  lemma TwoAOnlyTerms(s: Surgeon, day: int, w: Weights)
    requires s.id != Unassigned
    ensures var inst := Instance([day], [s], [], w);
            var x := [TwoAOnly(s.id)];
            && Counts([s], x) == [1]
            && DeviationSum([1]) == 0
            && Spread([1]) == 0
            && Filled1B(x) == 0
            && NoCallPenalty(inst, x) == 0
            && UnavailPrevPenalty(inst, x) == 0
  {
    var x := [TwoAOnly(s.id)];
    assert x[..0] == [];
    assert RowCount(x[0], s.id) == 1;
    assert Count(x, s.id) == 1;
    assert [s][1..] == [];
    assert Sum([1]) == 1 by {
      assert [1][..0] == [];
    }
    assert Filled1B(x) == 0 by {
      assert x[..0] == [];
    }
    var inst := Instance([day], [s], [], w);
    if !w.noCallHard {
      assert NoCallUpTo([day], [], x, 0) == 0;
      assert MatchHits(x[0], day, [], NoCall) == 0;
    }
  }

  /** The one-day instance builds without KeyError: 2A has a surgeon, and there are no requests. */
  lemma OneSurgeonBuilds(s: Surgeon, day: int, w: Weights)
    requires Codes(s) == ["2A", "2B"] && s.id != Unassigned
    ensures WellFormedRoster([s])
    ensures ModelError(Instance([day], [s], [], w)).None?
  {
    TwoADomains(s);
    var inst := Instance([day], [s], [], w);
    assert !SentinelLookedUp(inst);
    assert HardRequestsKnown(inst);
  }

  /** The row respects the domains: the surgeon on 2A, the sentinel everywhere else. */
  lemma TwoAOnlyInDomains(s: Surgeon)
    requires Domain([s], L2A) == [s.id] && Domain([s], L2B) == [s.id, Unassigned]
    requires Domain([s], L1A) == [Unassigned] && Domain([s], L1B) == [Unassigned]
    requires Domain([s], L3) == [Unassigned] && Domain([s], L4) == [Unassigned]
    ensures InDomains([s], [TwoAOnly(s.id)])
  {
    var row := TwoAOnly(s.id);
    forall l ensures row.At(l) in Domain([s], l) {
      if l == L2A {
        assert row.At(l) == s.id;
      } else {
        assert row.At(l) == Unassigned;
      }
    }
  }

  /** 2A is the only forced level, so the distinctness of forced levels holds trivially. */
  lemma TwoAOnlyForced(s: Surgeon)
    requires s.id != Unassigned && Domain([s], L2A) == [s.id]
    requires Domain([s], L1A) == [Unassigned] && Domain([s], L3) == [Unassigned] && Domain([s], L4) == [Unassigned]
    ensures forall l :: Forced([s], l) <==> l == L2A
    ensures ForcedDistinct([s], TwoAOnly(s.id))
  {
  }

  /** The row satisfies every posted constraint of the one-day instance. */
  lemma TwoAOnlyValid(s: Surgeon, day: int, w: Weights)
    requires s.id != Unassigned && GroupOf([s], s.id) == Some(SelfSufficient)
    requires Domain([s], L2A) == [s.id] && Domain([s], L2B) == [s.id, Unassigned]
    requires Domain([s], L1A) == [Unassigned] && Domain([s], L1B) == [Unassigned]
    requires Domain([s], L3) == [Unassigned] && Domain([s], L4) == [Unassigned]
    ensures ValidSchedule(Instance([day], [s], [], w), [TwoAOnly(s.id)])
  {
    TwoAOnlyInDomains(s);
    TwoAOnlyForced(s);
    TwoAOnlySupervised(s);
    TwoAOnlyUnconstrained(s, day, w);
  }

  /** The self-sufficient surgeon on 2A leaves 2B empty, as the level 2 pairing asks. */
  lemma TwoAOnlySupervised(s: Surgeon)
    requires GroupOf([s], s.id) == Some(SelfSufficient)
    ensures Supervised([s], TwoAOnly(s.id))
  {
  }

  /** With one day and no requests, the rest gap, the pairings and the variable bounds hold. */
  lemma TwoAOnlyUnconstrained(s: Surgeon, day: int, w: Weights)
    requires s.id != Unassigned
    ensures var inst := Instance([day], [s], [], w);
            var x := [TwoAOnly(s.id)];
            RestGap(x) && OneBDiffersFromOneA(x[0]) && AvailabilityHonoured(inst, x) && AuxiliaryBoundsHold(inst, x)
  {
    TwoAOnlyTerms(s, day, w);
  }

  /**
   * The one-day instance builds without KeyError, the row is a valid
   * schedule for it, and its objective value is zero.
   */
  lemma OneSurgeonSchedule(s: Surgeon, day: int, w: Weights)
    requires Codes(s) == ["2A", "2B"] && s.id != Unassigned
    ensures var inst := Instance([day], [s], [], w);
            var x := [TwoAOnly(s.id)];
            && WellFormedRoster(inst.roster)
            && ModelError(inst).None?
            && ValidSchedule(inst, x)
            && ObjectiveValue(inst, x) == 0
  {
    OneSurgeonBuilds(s, day, w);
    TwoADomains(s);
    TwoAOnlyValid(s, day, w);
    TwoAOnlyTerms(s, day, w);
  }

  /** The constraint lemmas hold on the witness: the saved surgeon covers 2A, alone and unsupervised. */
  lemma WitnessSupervision(day: int, w: Weights)
    ensures var s := Surgeon(1, "A", Join(LevelCodes([L2A, L2B]), ','));
            var inst := Instance([day], [s], [], w);
            var x := [TwoAOnly(1)];
            && ValidSchedule(inst, x) && !SentinelLookedUp(inst)
            && GroupOf(inst.roster, x[0].s2A) == Some(SelfSufficient) && x[0].s2B == Unassigned
            && Count(x, 1) <= |x| + 2 && Count(x, 1) == 1
  {
    var s := Surgeon(1, "A", Join(LevelCodes([L2A, L2B]), ','));
    SavedTwoACodes(1, "A");
    OneSurgeonSchedule(s, day, w);
    TwoAOnlyTerms(s, day, w);
    var inst := Instance([day], [s], [], w);
    var x := [TwoAOnly(1)];
    SupervisionRule(inst, x, 0);
    CallCountBound(inst, x, 1);
  }
}
