/**
 * What the scheduler returns: the solver's assignment turned into a table
 * of surgeon names per day and level, with the objective value, or the
 * absence of a schedule, or the KeyError raised while the model is built.
 * The search itself is not modelled: the solver's answer is an input.
 */
module Solution {
  import opened Wrappers
  import opened CallLevels
  import opened Domains
  import opened Schedule
  import opened Objective
  import opened Constraints

  /** Names per level for one day (`day_solution`). */
  type DayTable = map<Level, Option<string>>

  /** Names per day and level (`solution`), keyed by day. */
  type Table = map<int, DayTable>

  /** Every filled slot holds an id that `id_to_surgeon` knows. */
  predicate KnownIds(roster: seq<Surgeon>, x: Assignment)
  {
    forall d, l :: 0 <= d < |x| && x[d].At(l) != Unassigned ==> Lookup(roster, x[d].At(l)).Some?
  }

  /** The name shown in a slot: `None` for the sentinel, else the name of the surgeon with that id. */
  function NameOf(roster: seq<Surgeon>, id: int): (r: Option<string>)
    requires id != Unassigned ==> Lookup(roster, id).Some?
    ensures r.None? <==> id == Unassigned
    ensures r.Some? ==> exists s <- roster :: s.id == id && s.name == r.value
  {
    if id != Unassigned then Some(Lookup(roster, id).value.name) else None
  }

  /** The names of one day's six slots. */
  function DayNames(roster: seq<Surgeon>, row: DayRow): (t: DayTable)
    requires forall l :: row.At(l) != Unassigned ==> Lookup(roster, row.At(l)).Some?
    ensures forall l :: l in t
    ensures forall l :: t[l] == NameOf(roster, row.At(l))
  {
    forall l ensures l in AllLevels {
      AllLevelsComplete(l);
    }
    map l | l in AllLevels :: NameOf(roster, row.At(l))
  }

  /** The table after the first `n` days: each day's row, a later repeat of a day replacing the earlier one. */
  function SolutionTable(days: seq<int>, roster: seq<Surgeon>, x: Assignment, n: nat): Table
    requires |x| == |days| && n <= |days|
    requires KnownIds(roster, x)
  {
    if n == 0 then map[]
    else SolutionTable(days, roster, x, n - 1)[days[n - 1] := DayNames(roster, x[n - 1])]
  }

  /** The table's keys are exactly the period's days. */
  lemma {:induction false} SolutionTableKeys(days: seq<int>, roster: seq<Surgeon>, x: Assignment, n: nat)
    requires |x| == |days| && n <= |days|
    requires KnownIds(roster, x)
    ensures forall day :: day in SolutionTable(days, roster, x, n) <==> day in days[..n]
  {
    if n > 0 {
      SolutionTableKeys(days, roster, x, n - 1);
      assert days[..n] == days[..n - 1] + [days[n - 1]];
    }
  }

  /** Each day holds the names of the last row with that day (the only one when days are distinct). */
  lemma {:induction false} SolutionTableRows(days: seq<int>, roster: seq<Surgeon>, x: Assignment, n: nat, d: int)
    requires |x| == |days| && n <= |days|
    requires KnownIds(roster, x)
    requires 0 <= d < n && forall e :: d < e < n ==> days[e] != days[d]
    ensures days[d] in SolutionTable(days, roster, x, n)
    ensures SolutionTable(days, roster, x, n)[days[d]] == DayNames(roster, x[d])
  {
    if d < n - 1 {
      SolutionTableRows(days, roster, x, n - 1, d);
    }
  }

  /**
   * In a valid schedule on a well-formed roster every filled slot names a
   * surgeon eligible for its level, and a forced level always shows a name.
   */
  lemma ValidScheduleNames(inst: Instance, x: Assignment, d: int, l: Level)
    requires ValidSchedule(inst, x) && WellFormedRoster(inst.roster) && 0 <= d < |x|
    ensures KnownIds(inst.roster, x)
    ensures NameOf(inst.roster, x[d].At(l)).Some? ==>
              exists s <- inst.roster :: s.id == x[d].At(l) && Eligible(s, l)
                && s.name == NameOf(inst.roster, x[d].At(l)).value
    ensures Forced(inst.roster, l) ==> NameOf(inst.roster, x[d].At(l)).Some?
  {
    forall e, k | 0 <= e < |x| && x[e].At(k) != Unassigned ensures Lookup(inst.roster, x[e].At(k)).Some? {
      FilledSlotsEligible(inst, x, e, k);
    }
    FilledSlotsEligible(inst, x, d, l);
    if x[d].At(l) != Unassigned {
      var s :| s in inst.roster && s.id == x[d].At(l) && Eligible(s, l);
      LookupUnique(inst.roster, s);
    }
  }

  /** The loop that reads the solver's values into the table. */
  method MapSolution(days: seq<int>, roster: seq<Surgeon>, x: Assignment) returns (solution: Table)
    requires |x| == |days|
    requires KnownIds(roster, x)
    ensures solution == SolutionTable(days, roster, x, |days|)
  {
    solution := map[];
    var d := 0;
    while d < |days|
      invariant 0 <= d <= |days|
      invariant solution == SolutionTable(days, roster, x, d)
    {
      var daySolution: DayTable := map[];
      var k := 0;
      while k < |AllLevels|
        invariant 0 <= k <= |AllLevels|
        invariant forall l :: l in daySolution <==> l in AllLevels[..k]
        invariant forall l :: l in daySolution ==> daySolution[l] == NameOf(roster, x[d].At(l))
      {
        var level := AllLevels[k];
        var sId := x[d].At(level);
        daySolution := daySolution[level := if sId != Unassigned then Some(Lookup(roster, sId).value.name) else None];
        assert AllLevels[..k + 1] == AllLevels[..k] + [level];
        k := k + 1;
      }
      assert AllLevels[..k] == AllLevels;
      forall l ensures l in AllLevels {
        AllLevelsComplete(l);
      }
      assert daySolution == DayNames(roster, x[d]);
      solution := solution[days[d] := daySolution];
      d := d + 1;
    }
  }

  /** What one scheduling run ends in. */
  datatype Outcome =
    | Crashed(key: ErrorKey)
    | NoSchedule
    | Scheduled(table: Table, cost: int)

  /**
   * `solve_schedule_or_tools` around the search: building the model raises
   * KeyError, or the solver finds nothing, or its answer (which satisfies
   * every posted constraint) is read out with its objective value.
   */
  method SolveSchedule(inst: Instance, answer: Option<Assignment>) returns (outcome: Outcome)
    requires WellFormedRoster(inst.roster)
    requires ModelError(inst).None? && answer.Some? ==> ValidSchedule(inst, answer.value)
    ensures ModelError(inst).Some? ==> outcome == Crashed(ModelError(inst).value)
    ensures ModelError(inst).None? && answer.None? ==> outcome == NoSchedule
    ensures ModelError(inst).None? && answer.Some? ==>
              && ValidSchedule(inst, answer.value)
              && KnownIds(inst.roster, answer.value)
              && outcome == Scheduled(SolutionTable(inst.days, inst.roster, answer.value, |inst.days|),
                                      ObjectiveValue(inst, answer.value))
  {
    var err := ModelError(inst);
    if err.Some? {
      return Crashed(err.value);
    }
    if answer.None? {
      return NoSchedule;
    }
    var x := answer.value;
    if |x| > 0 {
      ValidScheduleNames(inst, x, 0, L1A);
    }
    var table := MapSolution(inst.days, inst.roster, x);
    return Scheduled(table, ObjectiveValue(inst, x));
  }
}
