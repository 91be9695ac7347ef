/**
 * What the scheduler works on: the month's days, the roster, the
 * availability requests and the weights (the inputs of one solve), and an
 * assignment of a surgeon id or the sentinel to every (day, level) slot.
 */
module Schedule {
  import opened Wrappers
  import opened CallLevels
  import opened Domains

  /** The six slot values of one day, each a surgeon id or `Unassigned`. */
  datatype DayRow = DayRow(s1A: int, s1B: int, s2A: int, s2B: int, s3: int, s4: int)
  {
    /** `X[(d, level)]` for this row's day `d`. */
    function At(l: Level): int
    {
      match l
      case L1A => s1A
      case L1B => s1B
      case L2A => s2A
      case L2B => s2B
      case L3 => s3
      case L4 => s4
    }
  }

  /** One row per day of the period, in day order. */
  type Assignment = seq<DayRow>

  /** The `request_type` of an availability record; any other text matches neither rule. */
  datatype RequestKind = Unavailable | NoCall | Unrecognised

  /**
   * An availability record. The date is a day number, or `None` when the
   * stored text does not parse as a date (such a record matches no day).
   */
  datatype Request = Request(surgeonId: int, date: Option<int>, kind: RequestKind)

  /** The tunable weights and the hard/soft switch for no-call requests. */
  datatype Weights = Weights(
    fairness: int,
    gammaNoCall: int,
    gammaUnavailPrev: int,
    gamma1B: int,
    gammaBalance: int,
    noCallHard: bool)

  /** Everything one solve reads: the days of the month, the roster, the requests and the weights. */
  datatype Instance = Instance(days: seq<int>, roster: seq<Surgeon>, requests: seq<Request>, weights: Weights)

  function Ind(b: bool): nat
  {
    if b then 1 else 0
  }

  /** How many of a day's six slots hold `id`. */
  function RowCount(row: DayRow, id: int): (n: nat)
    ensures n <= 6
    ensures n == 0 <==> forall l :: row.At(l) != id
  {
    assert row.At(L1A) == row.s1A && row.At(L1B) == row.s1B && row.At(L2A) == row.s2A;
    assert row.At(L2B) == row.s2B && row.At(L3) == row.s3 && row.At(L4) == row.s4;
    Ind(row.s1A == id) + Ind(row.s1B == id) + Ind(row.s2A == id)
      + Ind(row.s2B == id) + Ind(row.s3 == id) + Ind(row.s4 == id)
  }

  /** `call_count_overall[id]`: how many slots of the period hold `id`. */
  function Count(x: Assignment, id: int): (n: nat)
    ensures n <= 6 * |x|
  {
    if x == [] then 0 else Count(x[..|x| - 1], id) + RowCount(x[|x| - 1], id)
  }

  /** `id` holds some slot on the day of `row`. */
  predicate WorksOn(row: DayRow, id: int)
  {
    RowCount(row, id) > 0
  }

  /** The number of days among the first `n` on which `id` works. */
  function DaysWorked(x: Assignment, n: nat, id: int): (k: nat)
    requires n <= |x|
    ensures k <= n
  {
    if n == 0 then 0 else DaysWorked(x, n - 1, id) + Ind(WorksOn(x[n - 1], id))
  }

  /** The day's request matches the day: same date, and the date parsed. */
  predicate OnDay(r: Request, day: int)
  {
    r.date == Some(day)
  }

  /** The request posts a hard constraint for its day: always for unavailable, for no-call only in hard mode. */
  predicate IsHard(r: Request, w: Weights)
  {
    r.kind == Unavailable || (r.kind == NoCall && w.noCallHard)
  }

  /** The roster's ids in roster order (`all_surgeon_ids`). */
  function Ids(roster: seq<Surgeon>): (ids: seq<int>)
    ensures |ids| == |roster|
    ensures forall i :: 0 <= i < |roster| ==> ids[i] == roster[i].id
  {
    if roster == [] then [] else [roster[0].id] + Ids(roster[1..])
  }
}
