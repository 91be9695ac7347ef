# On-call scheduling core, modelled in Dafny

A surgical department uses this scheduler to build a monthly on-call roster.
Each day has six call slots: 1A, 1B, 2A, 2B, 3 and 4. Every slot holds a
surgeon or stays empty. The empty slot is the sentinel `-1`.

Surgeons state which levels they may take in a comma-separated `call_levels`
text. Two parts of the program are built from that text:

- the domain of each slot variable;
- the level-2 supervision group: 2A without 2B needs supervision, 2A with 2B
  is self-sufficient, and 2B without 2A supervises only.

A constraint solver then fills the slots. It respects these hard rules:

- the within-day rule for the forced levels;
- a rest gap of three days;
- the 1A/1B pairing;
- the 2A/2B supervision rule;
- hard availability requests.

It minimises a weighted sum of:

- range fairness;
- a bonus for filling 1B;
- two soft availability penalties;
- an L1 balance term.

The answer is read out as a table of names per day and level. Two more
pieces are modelled: the availability page shows requested dates as ranges
of consecutive days, and a statistics page counts calls per surgeon over
saved schedules.

The modules follow the program:

- `Text`: Python's `strip`, `split` and `join`.
- `CallLevels`: `parse_call_levels` and `get_level2_group`.
- `DateRanges`: `group_dates`, written imperatively.
- `Domains`: the variable domains and the `id_to_surgeon` lookup.
- `Schedule`: instances, assignments and call counts.
- `Constraints`: every posted constraint as `ValidSchedule`, plus the two
  KeyErrors raised while the model is built.
- `Objective`: the minimised expression.
- `Solution`: the read-out loop and the overall outcome.
- `Stats`: the statistics loops.
- `ScheduleWitness`: a one-day, one-surgeon instance that builds, with a
  valid schedule, so the lemmas about valid schedules apply to a real case.

Three points of the code are modelled as written:

- The per-group call caps are read from the configuration (`max_config`)
  but never posted, so no cap is a constraint here.
- Same-day distinctness covers only the forced levels among 1A, 2A, 3 and 4,
  together with 1B ≠ 1A and the 2B rule. A surgeon can hold two or three slots
  of one day (`Constraints.AtMostThreeSlots` proves three is the most).
- An empty 2A domain makes the level-2 loop look up the sentinel, which
  raises KeyError when there is at least one day. A hard request for a
  surgeon id that is not in the roster reads an indicator that does not
  exist, which also raises KeyError. `Constraints.ModelError` returns the
  key that fails: `-1` for the sentinel lookup, or the indicator key
  `(day index, "1A", surgeon id)` for the earliest day with such a request and
  the first such surgeon in the order the requests are grouped by surgeon.

Dates are day numbers (proleptic Gregorian ordinals, day 1 a Monday). A date
text that does not parse is `None`.

## Model

| member | source | states |
|---|---|---|
| Text.Strip | app.py:48 | result is trimmed, is a slice of the input with only whitespace cut from both ends, and is empty iff the input is all whitespace (Python `isspace` set) |
| Text.StripTrimmed | app.py:48 | stripping a string whose ends are not whitespace returns it unchanged |
| Text.SplitOn | app.py:48 | `split(',')` gives at least one piece, no piece holds the separator, and joining the pieces gives back the input |
| Text.SplitJoin | app.py:48 | splitting the join of separator-free pieces gives back the pieces |
| CallLevels.ParseCallLevels | app.py:40-48 | `None` or `""` gives no codes; otherwise a code is present iff it is the non-empty strip of some comma-separated piece; every code is non-empty, trimmed and comma-free |
| CallLevels.KeepStripped | app.py:48 | keeps exactly the non-empty stripped pieces, each trimmed |
| CallLevels.ParseJoin | app.py:40-48 | parsing the comma join of non-empty, trimmed, comma-free codes gives back the same codes in order |
| CallLevels.SavedLevelsRoundTrip | app.py:253-257 | a surgeon saved from checked levels parses back to exactly those level codes, and a level's code is present iff the level was checked |
| CallLevels.CodeShape | app.py:394 | each level code is non-empty, trimmed and comma-free, and different levels have different codes |
| CallLevels.AllLevelsComplete | app.py:394 | every level occurs in `all_levels` exactly once |
| CallLevels.Level2Group | app.py:50-69 | the group is defined iff 2A or 2B is held; needs-supervision iff 2A without 2B; self-sufficient iff both; supervisor-only iff 2B without 2A |
| DateRanges.SortDates | app.py:26 | result is sorted and a permutation of the input |
| DateRanges.SortedDistinct | app.py:26 | sorting dates with no repeats gives a strictly increasing list |
| DateRanges.GroupDates | app.py:18-38 | no ranges iff no dates; each range has start ≤ end; each range starts where the previous ends (only for a repeated date) or at least two days later; a day is covered iff it is among the dates; with no repeated date, a missing day separates neighbouring ranges; for non-empty input the ranges are exactly the runs of the sorted dates, so repeated dates split ranges as the loop does |
| DateRanges.GroupRuns | app.py:29-37 | the loop yields non-empty ascending ranges that cover exactly the sorted dates, and a range ends exactly before each position whose date is not the day after the previous one |
| DateRanges.StartsStep | app.py:31-36 | a date one day after the previous extends the current range; any other date begins a new one |
| DateRanges.RunsStep | app.py:34 | closing the current range appends the range from its first date to the previous date |
| DateRanges.LastRun | app.py:37 | appending the last range completes the runs of the sorted dates |
| DateRanges.RunsProperties | app.py:27-37 | the ranges of the loop are at least one, ascending, and cover exactly the dates |
| DateRanges.CutRange | app.py:34-37 | each range runs from the date at its first position to the date just before the next range begins |
| DateRanges.RunsStartAtZero | app.py:28-29 | the first date begins the first range, so there is at least one range |
| DateRanges.RunNonEmpty | app.py:34-37 | every range has start ≤ end |
| DateRanges.RunFollows | app.py:31-36 | a range begins on or after the previous range's end and never on the day after it; strictly after a missing day when dates do not repeat |
| DateRanges.RunsAscending | app.py:27-37 | the ranges are non-empty and each may follow the one before |
| DateRanges.RunConsecutive | app.py:31-32 | within a range the dates are consecutive days counted from its start |
| DateRanges.RunBounds | app.py:34-37 | every date inside a range lies between the range's ends |
| DateRanges.DateCovered | app.py:27-37 | every date lies in some range |
| DateRanges.CoveredDate | app.py:31-32 | every day inside a range is one of the dates |
| DateRanges.RunsCover | app.py:27-37 | the ranges cover exactly the dates |
| DateRanges.RunsDetermined | app.py:27-37 | the run boundaries determine the ranges uniquely |
| DateRanges.RepeatedDatesRuns | app.py:30-37 | the dates 1, 1, 2, 2, 3, 3 give exactly the ranges 1–1, 1–2, 2–3 and 3–3 |
| DateRanges.ExactlyOneRange | app.py:18-38 | with ranges separated as for repeat-free input, every covered day lies in exactly one range |
| Domains.EligibleIds | app.py:377-390 | has no more ids than the roster has surgeons, and an id is present iff some roster surgeon with it is eligible for the level |
| Domains.Eligible | app.py:377-390 | a surgeon may fill 2A when holding 2A or 2B, and any other level when holding its code |
| Domains.Domain | app.py:377-392 | never empty; an id is present iff an eligible surgeon holds it, or it is the sentinel and either the level is 1B/2B or nobody is eligible |
| Domains.OptionalDomainsAdmitEmpty | app.py:379-386 | the 1B and 2B domains always contain the sentinel |
| Domains.ForcedDomainSentinel | app.py:377-392 | for 1A, 2A, 3 and 4, the sentinel is present iff the domain is the sentinel alone, iff nobody is eligible |
| Domains.SupervisorInBothLevel2Domains | app.py:382-386 | a surgeon with 2B but not 2A is in both the 2A and 2B domains |
| Domains.DomainMember | app.py:377-392 | with unique ids, a surgeon's id is in a level's domain iff the surgeon is eligible |
| Domains.Lookup | app.py:373 | finds a surgeon iff one holds the id, and the surgeon found holds it |
| Domains.LookupUnique | app.py:373 | with unique ids, looking up a surgeon's id gives back that surgeon |
| Domains.GroupOf | app.py:441 | the level-2 group of the surgeon `id_to_surgeon` finds for an id, or none for an unknown id |
| Domains.Level2DomainsByGroup | app.py:382-386 | with unique ids, 2A-domain membership iff there is a level-2 group; 2B-domain membership iff self-sufficient or supervisor-only |
| Domains.NoOneAInOneBDomain | app.py:379-380 | a surgeon without 1B is never in the 1B domain |
| Schedule.RowCount | app.py:449-455 | a day's count for an id is at most 6, and 0 iff no slot holds the id |
| Schedule.Count | app.py:457-460 | a surgeon's call count is at most six per day |
| Schedule.Ids | app.py:374 | `all_surgeon_ids` lists the roster's ids in order |
| Objective.Counts | app.py:457-460 | one count per roster surgeon, in order, each the number of slots holding that id |
| Objective.MaxOf | app.py:462-464 | `max_all` is an element and bounds every count from above |
| Objective.MinOf | app.py:462-465 | `min_all` is an element and bounds every count from below |
| Objective.Spread | app.py:462-468 | `diff_all`: the largest count minus the smallest (0 for an empty roster) |
| Objective.SpreadZeroIffBalanced | app.py:462-468 | `diff_all` is never negative, and is 0 iff all counts are equal |
| Objective.DeviationSum | app.py:540-554 | `deviation_sum`: the sum over surgeons of `abs(count * N - T)`, with `N` the roster size and `T` the total |
| Objective.DeviationZeroIffBalanced | app.py:540-554 | `deviation_sum` is never negative, and is 0 iff all counts are equal |
| Objective.ObjectiveValue | app.py:556-563 | the minimised sum `fairness * diff_all - gamma_1B * total_1B + gamma_no_call * penalty_nocall + gamma_unavail_prev * penalty_unavail_prev + gamma_balance * deviation_sum` |
| Objective.AuxiliaryBoundsHold | app.py:519-553 | the penalty variables stay within `num_days * 6 * 10` and `deviation_sum` within `num_days * 6 * N` |
| Objective.MatchHits | app.py:486-529 | for one day's row, one count per request of the kind dated that day, of the slots its surgeon holds |
| Objective.UnavailPrevPenalty | app.py:486-523 | slots on day `i` held by a surgeon with an unavailable request for day `i + 1`, one count per request and level |
| Objective.NoCallPenalty | app.py:503-529 | 0 in hard mode; otherwise slots held on a day by a surgeon with a no-call request for it, one count per request and level |
| Objective.BalancedObjective | app.py:556-563 | when counts are balanced, both fairness terms drop out of the objective |
| Objective.NoCallPenaltyZero | app.py:503-529 | with soft no-call requests, the penalty is 0 iff nobody holds a slot on a day they asked not to be on call |
| Objective.UnavailPrevPenaltyZero | app.py:486-523 | the eve-of-absence penalty is 0 iff nobody holds a slot on the day before a day they are unavailable |
| Objective.ObjectiveLowerBound | app.py:556-563 | with non-negative weights, the objective is at least `-gamma_1B * num_days` |
| Objective.Filled1B | app.py:531-538 | `total_1B` is at most the number of days |
| Constraints.InDomains | app.py:396-404 | every slot value lies in its level's domain |
| Constraints.ForcedDistinct | app.py:406-413 | the forced levels among 1A, 2A, 3 and 4 hold pairwise different values on a day |
| Constraints.RestGap | app.py:415-426 | two filled slots on days one or two apart never hold the same surgeon |
| Constraints.OneBDiffersFromOneA | app.py:428-433 | a filled 1B differs from 1A |
| Constraints.Supervised | app.py:435-446 | a 2A surgeon who needs supervision gets a filled 2B holding someone else; any other 2A surgeon leaves 2B empty |
| Constraints.AvailabilityHonoured | app.py:470-484 | a surgeon with a hard request for a day holds none of that day's six slots |
| Constraints.ValidSchedule | app.py:396-553 | one row per day and every posted constraint: domains, forced distinctness, rest gap, 1A/1B and 2A/2B pairing, hard availability, and the bounds of the auxiliary variables |
| Constraints.AppearsBefore | app.py:216-219 | some request of the first id comes before every request of the second, so the first id becomes a key of the grouping dict first |
| Constraints.RequestSurgeons | app.py:212-225 | lists each requesting surgeon id exactly once; for any two listed ids, a request of the earlier one comes before every request of the later one (order of first appearance) |
| Constraints.FirstAppearanceStep | app.py:216-219 | appending a request keeps the order of first appearance, and a surgeon seen for the first time goes last |
| Constraints.EarlierKnown | app.py:474-484 | no id before a position of the grouping order both is off the roster and has a hard request on the day |
| Constraints.UnknownOnDay | app.py:472-484 | on one day, reports an id that is off the roster and has a hard request that day, at a position of the grouping order before which every id is on the roster or has no hard request that day (the first offending one); `None` iff there is none |
| Constraints.FirstUnknownShift | app.py:474-484 | an id that comes first among the offending ids after the head, where the head does not offend, comes first in the whole order |
| Constraints.UnknownHardRequest | app.py:470-484 | a reported key is `(i, "1A", id)` for the first day `i` from the start day whose scan finds an offending id, with the id that day's first offending id; `None` iff no remaining day has one, so every hard request on them names a roster surgeon |
| Constraints.UnknownHardRequestFound | app.py:470-484 | the scan from the first day finds nothing iff every hard request on a day of the period names a roster surgeon |
| Constraints.ModelError | app.py:435-484 | there is no error iff neither KeyError happens: the level-2 loop does not look up the sentinel, and every hard request names a roster surgeon; the sentinel lookup comes first and reports key `-1`; otherwise the key is `(i, "1A", id)` for the earliest day `i` with an offending id and the first offending id of that day |
| Constraints.RestGapPerSurgeon | app.py:415-426 | the rest gap holds iff no surgeon works on two days less than three days apart |
| Constraints.DaysWorkedBound | app.py:415-426 | under the rest gap, a surgeon works on at most `(n + 2) / 3` of any first `n` days |
| Constraints.FilledMandatoryIsForced | app.py:406-413 | a filled 1A, 2A, 3 or 4 slot belongs to a forced level |
| Constraints.MandatoryDistinct | app.py:406-413 | in a valid schedule, no surgeon holds two of 1A, 2A, 3 and 4 on one day |
| Constraints.AtMostThreeSlots | app.py:406-446 | in a valid schedule, a surgeon holds at most three slots on one day |
| Constraints.CallCountBound | app.py:415-460 | in a valid schedule, no surgeon holds more than `num_days + 2` slots in the period |
| Constraints.FilledSlotsEligible | app.py:396-404 | in a valid schedule, every filled slot holds an eligible roster surgeon, and every forced level is filled every day |
| Constraints.SupervisionRule | app.py:435-446 | when the model builds: 2A is filled by a surgeon with a level-2 group; 2B is filled iff that surgeon needs supervision; a filled 2B holds someone else who may supervise |
| Constraints.AvailabilityByKind | app.py:470-484 | hard rules cover the unavailable requests, plus the no-call requests in hard mode |
| Constraints.NoCallModes | app.py:470-529 | the hard no-call mode admits exactly the soft-mode schedules with zero no-call penalty |
| Solution.NameOf | app.py:575 | `None` iff the slot is the sentinel; otherwise the name of a roster surgeon with that id |
| Solution.DayNames | app.py:572-576 | a day's table has all six levels, each holding the slot's name |
| Solution.SolutionTable | app.py:569-577 | the dict after the first `n` days: each day keyed to its row's names, a later row for the same day replacing an earlier one |
| Solution.SolutionTableKeys | app.py:569-577 | the table's keys are exactly the days of the period |
| Solution.SolutionTableRows | app.py:569-577 | each day maps to the names of its last row (its only row when days are distinct) |
| Solution.ValidScheduleNames | app.py:569-577 | for a valid schedule, every filled slot shows the name of an eligible surgeon, and every forced level shows a name |
| Solution.MapSolution | app.py:569-577 | the read-out loop returns the table of the whole assignment |
| Solution.SolveSchedule | app.py:565-580 | a build error gives its key; no answer gives no schedule; otherwise (the answer's validity is the solver's guarantee, taken as a precondition) every id in the answer is known, and the result is its table and objective value |
| ScheduleWitness.SavedTwoACodes | app.py:253-257 | a surgeon saved with 2A and 2B checked parses back to exactly `["2A", "2B"]` |
| ScheduleWitness.TwoALevelCodes | app.py:253-257 | the codes of the checked levels 2A and 2B are `["2A", "2B"]` |
| ScheduleWitness.TwoAEligible | app.py:377-386 | such a surgeon may fill 2A and 2B and is self-sufficient on level 2 |
| ScheduleWitness.TwoAIneligible | app.py:377-392 | such a surgeon may fill no level other than 2A and 2B |
| ScheduleWitness.OneSurgeonDomain | app.py:377-392 | on a one-surgeon roster a domain is that surgeon if eligible, plus the sentinel for 1B and 2B, else the sentinel alone |
| ScheduleWitness.TwoADomains | app.py:377-392 | with only that surgeon, 2A's domain is the surgeon, 2B's the surgeon and the sentinel, every other the sentinel alone |
| ScheduleWitness.TwoAOnlyTerms | app.py:457-563 | the row with the surgeon on 2A alone gives one call, no spread, no deviation, no 1B and no penalty |
| ScheduleWitness.TwoAOnlyInDomains | app.py:396-404 | the surgeon on 2A and the sentinel elsewhere lie in their domains |
| ScheduleWitness.TwoAOnlyForced | app.py:406-413 | 2A is the only forced level, so forced distinctness holds for the row |
| ScheduleWitness.TwoAOnlySupervised | app.py:435-446 | a self-sufficient surgeon on 2A with 2B empty meets the level-2 pairing |
| ScheduleWitness.TwoAOnlyUnconstrained | app.py:415-553 | with one day and no requests, the rest gap, the 1A/1B pairing, availability and the variable bounds hold |
| ScheduleWitness.OneSurgeonBuilds | app.py:435-484 | that one-day instance raises no KeyError |
| ScheduleWitness.TwoAOnlyValid | app.py:396-553 | the row satisfies every posted constraint of that instance |
| ScheduleWitness.OneSurgeonSchedule | app.py:435-563 | the instance builds, the row is a valid schedule, and its objective value is 0 |
| ScheduleWitness.WitnessSupervision | app.py:253-257 | for the saved surgeon, the supervision rule and the call-count bound apply to the valid schedule: 2A is self-sufficient, 2B empty, and the surgeon holds exactly one call |
| Stats.Rank | app.py:801-808 | 1A/1B give 1, 2A 2, 2B 3, 3 4, 4 5, and any other level 99 |
| Stats.IsWeekend | app.py:824 | Saturday or Sunday, as `weekday() >= 5` on the day number |
| Stats.Counted | app.py:826 | the slot's text is non-empty and not all whitespace |
| Stats.CountedIffNotBlank | app.py:826 | a slot counts iff it names someone with at least one non-whitespace character |
| Stats.EntrySlots | app.py:825-839 | at most one slot per entry, each with the day's weekend flag and a rank value |
| Stats.EntrySlotNames | app.py:825-839 | a name gets a slot of the day iff some counted entry of the day holds it |
| Stats.TallyMeaning | app.py:812-839 | a name gets an entry iff some slot holds it; the entry's total is its number of slots, its weekend count is its number of weekend slots, and its rank is the least rank among its slots |
| Stats.Add | app.py:827-839 | one slot added: the name's total and weekend count raised, its least rank lowered to the slot's rank |
| Stats.Tally | app.py:815-839 | the statistics after adding a run of slots in order |
| Stats.TallyConsistent | app.py:826-839 | tallying keeps every entry consistent: at least one call, weekend calls ≤ calls, and a rank value set |
| Stats.StatisticsConsistent | app.py:812-839 | every entry on the page is consistent |
| Stats.StatisticsNames | app.py:812-839 | a name is listed iff some saved day with a parsed date has a non-blank slot holding it |
| Stats.TallyAppend | app.py:815-839 | tallying two runs of slots equals tallying them one after the other |
| Stats.CountSlot | app.py:827-839 | the in-place update gives the statistics with that one slot added |
| Stats.CollectDay | app.py:825-839 | the entry loop returns the statistics with the day's counted slots added |
| Stats.CollectRecord | app.py:818-839 | the day loop skips unparsed days and adds every other day's slots |
| Stats.CollectStats | app.py:815-839 | the record loop gives the tally of every counted slot in every record |

## Left out

- Flask routes, templates, sessions, flash messages and SQLite storage are not modelled. The roster, the requests and the saved schedules are inputs.
- The OR-Tools search (time limit, status) is not modelled. The solver's answer is an input to `Solution.SolveSchedule`, and the model only requires that it satisfies every posted constraint.
- Date parsing and ISO formatting are left out. Days are integer ordinals, and an unparseable date is `None`.
- Solution.SolveSchedule: requires unique surgeon ids that are never `-1`. The source relies on the table's auto-increment primary key for this.
- Solution.SolveSchedule: the objective value is an integer. `solver.ObjectiveValue()` returns it as a float, and float conversion is not modelled.
- Objective.ObjectiveValue: each `deviations[s]` is taken at its least allowed value, `|count * N - T|`. The solver only bounds deviations from below, so a non-optimal answer may report a larger objective.
- Objective.ObjectiveValue: for an empty roster, `max_all` and `min_all` over an empty list are taken as 0. The solver's own behaviour there is not modelled.
- Constraints.ValidSchedule: only the upper bounds of the penalty and deviation variables that can bind are modelled. The declared bounds of the counts, `T`, `diff` and `total_1B` always hold.
- Per-group call caps (`max_config`, app.py:370) are read but never posted by the source, so they are not modelled.
- The availability page's request insertion and deletion (app.py:687-766) are not modelled, apart from `group_dates`.
- The statistics page's SQL period filter and the final sort by `(min_level_rank, name.lower())` (app.py:841-850) are left out. Unicode case mapping is not modelled.
- The saved schedule's JSON decoding is left out. A record is already a list of days with entries, in stored order.
- Surgeon records store `call_levels` as text. A NULL column parses exactly like an empty string, so only text is modelled.
