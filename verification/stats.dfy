/**
 * The call statistics page: over the saved schedules of a period, count
 * for every surgeon name the calls taken, the weekend calls among them and
 * the best (lowest) call-level rank held. Saved schedules are the name
 * tables the scheduler produces, read back in stored order.
 */
module Stats {
  import opened Wrappers
  import opened Text

  /** One `level: surgeon` entry of a stored day: the level code and the name, `None` for an empty slot. */
  datatype Entry = Entry(level: string, surgeon: Option<string>)

  /** One stored day: its key as a day number (`None` when the key is not an ISO date) and its entries. */
  datatype StoredDay = StoredDay(day: Option<int>, entries: seq<Entry>)

  /** One saved schedule record, its days in stored order. */
  type Record = seq<StoredDay>

  /** What is kept per surgeon name: `total_calls`, `weekend_calls`, `min_level_rank`. */
  datatype Stat = Stat(total: nat, weekend: nat, minRank: Option<int>)

  /** `level_ranks.get(level, 99)`: 1A and 1B rank 1, 2A 2, 2B 3, 3 4, 4 5, anything else 99. */
  function Rank(level: string): (r: int)
    ensures r in {1, 2, 3, 4, 5, 99}
    ensures r == 99 <==> level !in {"1A", "1B", "2A", "2B", "3", "4"}
  {
    if level == "1A" || level == "1B" then 1
    else if level == "2A" then 2
    else if level == "2B" then 3
    else if level == "3" then 4
    else if level == "4" then 5
    else 99
  }

  /** `weekday() >= 5` for a proleptic Gregorian day number, day 1 being a Monday. */
  predicate IsWeekend(day: int)
  {
    (day + 6) % 7 >= 5
  }

  /** The filter `surgeon and surgeon.strip() != ""`. */
  predicate Counted(surgeon: Option<string>)
  {
    surgeon.Some? && surgeon.value != [] && Strip(surgeon.value) != []
  }

  /** A slot counts exactly when it names somebody with a character that is not white space. */
  lemma CountedIffNotBlank(surgeon: Option<string>)
    ensures Counted(surgeon) <==> surgeon.Some? && !AllWhitespace(surgeon.value)
  {
  }

  /** One counted slot: the name as stored, whether its day is a weekend, and its level's rank. */
  datatype Slot = Slot(name: string, weekend: bool, rank: int)

  /** The counted slots of one day's entries, in order. */
  function EntrySlots(weekend: bool, entries: seq<Entry>): (slots: seq<Slot>)
    ensures |slots| <= |entries|
    ensures forall s <- slots :: s.weekend == weekend && s.rank in {1, 2, 3, 4, 5, 99}
  {
    if entries == [] then []
    else
      var e := entries[|entries| - 1];
      EntrySlots(weekend, entries[..|entries| - 1])
        + if Counted(e.surgeon) then [Slot(e.surgeon.value, weekend, Rank(e.level))] else []
  }

  /** A name has a slot of the day exactly when some entry of the day names it and counts. */
  lemma {:induction false} EntrySlotNames(weekend: bool, entries: seq<Entry>, name: string)
    ensures (exists s <- EntrySlots(weekend, entries) :: s.name == name) <==>
            (exists e <- entries :: Counted(e.surgeon) && e.surgeon.value == name)
  {
    if entries != [] {
      var init, e := entries[..|entries| - 1], entries[|entries| - 1];
      EntrySlotNames(weekend, init, name);
      var tail := if Counted(e.surgeon) then [Slot(e.surgeon.value, weekend, Rank(e.level))] else [];
      assert EntrySlots(weekend, entries) == EntrySlots(weekend, init) + tail;
      if exists s <- EntrySlots(weekend, entries) :: s.name == name {
        var s :| s in EntrySlots(weekend, entries) && s.name == name;
        if s in EntrySlots(weekend, init) {
          var f :| f in init && Counted(f.surgeon) && f.surgeon.value == name;
          assert f in entries;
        } else {
          assert s in tail;
          assert e in entries;
        }
      }
      if exists f <- entries :: Counted(f.surgeon) && f.surgeon.value == name {
        var f :| f in entries && Counted(f.surgeon) && f.surgeon.value == name;
        var i :| 0 <= i < |entries| && entries[i] == f;
        if i < |init| {
          assert init[i] == f;
          var s :| s in EntrySlots(weekend, init) && s.name == name;
          assert s in EntrySlots(weekend, entries);
        } else {
          assert tail[0] in EntrySlots(weekend, entries);
        }
      }
    }
  }

  lemma EntrySlotsStep(weekend: bool, entries: seq<Entry>, j: int)
    requires 0 <= j < |entries|
    ensures EntrySlots(weekend, entries[..j + 1]) == EntrySlots(weekend, entries[..j])
              + if Counted(entries[j].surgeon) then [Slot(entries[j].surgeon.value, weekend, Rank(entries[j].level))] else []
  {
    assert entries[..j + 1][..j] == entries[..j];
  }

  lemma TallySnoc(stats: map<string, Stat>, a: seq<Slot>, s: Slot)
    ensures Tally(stats, a + [s]) == Add(Tally(stats, a), s)
  {
    assert (a + [s])[..|a|] == a;
  }

  /** The counted slots of a record's days; a day whose key is not a date is skipped. */
  function RecordSlots(days: seq<StoredDay>): seq<Slot>
  {
    if days == [] then []
    else
      var d := days[|days| - 1];
      RecordSlots(days[..|days| - 1])
        + if d.day.Some? then EntrySlots(IsWeekend(d.day.value), d.entries) else []
  }

  /** The counted slots of all records, in order. */
  function AllSlots(records: seq<Record>): seq<Slot>
  {
    if records == [] then [] else AllSlots(records[..|records| - 1]) + RecordSlots(records[|records| - 1])
  }

  /** One pass of the loop body for a counted slot. */
  function Add(stats: map<string, Stat>, s: Slot): map<string, Stat>
  {
    var st := if s.name in stats then stats[s.name] else Stat(0, 0, None);
    var total := st.total + 1;
    var weekend := if s.weekend then st.weekend + 1 else st.weekend;
    var minRank := if st.minRank.None? || s.rank < st.minRank.value then Some(s.rank) else st.minRank;
    stats[s.name := Stat(total, weekend, minRank)]
  }

  /** The statistics after adding `slots` one after the other to `stats`. */
  function Tally(stats: map<string, Stat>, slots: seq<Slot>): map<string, Stat>
  {
    if slots == [] then stats else Add(Tally(stats, slots[..|slots| - 1]), slots[|slots| - 1])
  }

  lemma {:induction false} TallyAppend(stats: map<string, Stat>, a: seq<Slot>, b: seq<Slot>)
    ensures Tally(stats, a + b) == Tally(Tally(stats, a), b)
  {
    if b == [] {
      assert a + b == a;
    } else {
      assert (a + b)[..|a + b| - 1] == a + b[..|b| - 1];
      TallyAppend(stats, a, b[..|b| - 1]);
    }
  }

  /** The number of slots naming `name`. */
  function Calls(slots: seq<Slot>, name: string): (n: nat)
    ensures n <= |slots|
  {
    if slots == [] then 0
    else Calls(slots[..|slots| - 1], name) + if slots[|slots| - 1].name == name then 1 else 0
  }

  /** The number of weekend slots naming `name`. */
  function WeekendCalls(slots: seq<Slot>, name: string): (n: nat)
    ensures n <= Calls(slots, name)
  {
    if slots == [] then 0
    else
      var s := slots[|slots| - 1];
      WeekendCalls(slots[..|slots| - 1], name) + if s.name == name && s.weekend then 1 else 0
  }

  /**
   * Starting from no statistics, a name gets an entry exactly when some slot
   * names it; the entry holds its number of calls, its number of weekend
   * calls and the least rank among its slots.
   */
  lemma {:induction false} TallyMeaning(slots: seq<Slot>, name: string)
    ensures name in Tally(map[], slots) <==> exists i :: 0 <= i < |slots| && slots[i].name == name
    ensures name in Tally(map[], slots) ==>
              var st := Tally(map[], slots)[name];
              && st.total == Calls(slots, name)
              && st.weekend == WeekendCalls(slots, name)
              && st.minRank.Some?
              && (forall i :: 0 <= i < |slots| && slots[i].name == name ==> st.minRank.value <= slots[i].rank)
              && (exists i :: 0 <= i < |slots| && slots[i].name == name && slots[i].rank == st.minRank.value)
  {
    if slots != [] {
      var init, s := slots[..|slots| - 1], slots[|slots| - 1];
      TallyMeaning(init, name);
      assert forall i :: 0 <= i < |init| ==> slots[i] == init[i];
      assert Tally(map[], slots) == Add(Tally(map[], init), s);
      assert Calls(slots, name) == Calls(init, name) + if s.name == name then 1 else 0;
      if s.name == name && name in Tally(map[], init) {
        var st := Tally(map[], init)[name];
        var i :| 0 <= i < |init| && init[i].name == name && init[i].rank == st.minRank.value;
        assert slots[i] == init[i];
      }
      if name !in Tally(map[], init) {
        CallsAbsent(init, name);
      }
    }
  }

  /** A name no slot carries has no calls. */
  lemma {:induction false} CallsAbsent(slots: seq<Slot>, name: string)
    requires forall i :: 0 <= i < |slots| ==> slots[i].name != name
    ensures Calls(slots, name) == 0
  {
    if slots != [] {
      CallsAbsent(slots[..|slots| - 1], name);
    }
  }

  /**
   * Every recorded surgeon has at least one call, no more weekend calls than
   * calls, and a best rank among the rank values.
   */
  predicate Consistent(stats: map<string, Stat>)
  {
    forall name <- stats ::
      && stats[name].total >= 1
      && stats[name].weekend <= stats[name].total
      && stats[name].minRank.Some?
      && stats[name].minRank.value in {1, 2, 3, 4, 5, 99}
  }

  /** Adding slots whose ranks are rank values keeps the statistics consistent. */
  lemma {:induction false} TallyConsistent(stats: map<string, Stat>, slots: seq<Slot>)
    requires Consistent(stats)
    requires forall s <- slots :: s.rank in {1, 2, 3, 4, 5, 99}
    ensures Consistent(Tally(stats, slots))
  {
    if slots != [] {
      var init := slots[..|slots| - 1];
      assert forall s <- init :: s in slots;
      TallyConsistent(stats, init);
    }
  }

  /** All slots carry a rank value. */
  lemma {:induction false} SlotRanks(records: seq<Record>)
    ensures forall s <- AllSlots(records) :: s.rank in {1, 2, 3, 4, 5, 99}
  {
    if records != [] {
      SlotRanks(records[..|records| - 1]);
      RecordSlotRanks(records[|records| - 1]);
    }
  }

  lemma {:induction false} RecordSlotRanks(days: seq<StoredDay>)
    ensures forall s <- RecordSlots(days) :: s.rank in {1, 2, 3, 4, 5, 99}
  {
    if days != [] {
      RecordSlotRanks(days[..|days| - 1]);
    }
  }

  /** The statistics the page shows are consistent. */
  lemma StatisticsConsistent(records: seq<Record>)
    ensures Consistent(Tally(map[], AllSlots(records)))
  {
    SlotRanks(records);
    TallyConsistent(map[], AllSlots(records));
  }

  /** The body of the innermost loop for a counted slot: the surgeon's entry is created or updated in place. */
  method CountSlot(stats0: map<string, Stat>, slot: Slot) returns (stats: map<string, Stat>)
    ensures stats == Add(stats0, slot)
  {
    var name := slot.name;
    var st := if name in stats0 then stats0[name] else Stat(0, 0, None);
    st := st.(total := st.total + 1);
    if slot.weekend {
      st := st.(weekend := st.weekend + 1);
    }
    if st.minRank.None? || slot.rank < st.minRank.value {
      st := st.(minRank := Some(slot.rank));
    }
    stats := stats0[name := st];
  }

  /** A stored day with a parsed date has a counted entry naming `name`. */
  predicate ListsName(d: StoredDay, name: string)
  {
    d.day.Some? && exists e <- d.entries :: Counted(e.surgeon) && e.surgeon.value == name
  }

  lemma {:induction false} RecordSlotNames(days: seq<StoredDay>, name: string)
    ensures (exists s <- RecordSlots(days) :: s.name == name) <==>
            (exists k :: 0 <= k < |days| && ListsName(days[k], name))
  {
    if days != [] {
      var init, d := days[..|days| - 1], days[|days| - 1];
      RecordSlotNames(init, name);
      var tail := if d.day.Some? then EntrySlots(IsWeekend(d.day.value), d.entries) else [];
      assert RecordSlots(days) == RecordSlots(init) + tail;
      if d.day.Some? {
        EntrySlotNames(IsWeekend(d.day.value), d.entries, name);
      }
      if exists k :: 0 <= k < |days| && ListsName(days[k], name) {
        var k :| 0 <= k < |days| && ListsName(days[k], name);
        if k < |init| {
          assert ListsName(init[k], name);
          var s :| s in RecordSlots(init) && s.name == name;
          assert s in RecordSlots(days);
        } else {
          var s :| s in tail && s.name == name;
          assert s in RecordSlots(days);
        }
      }
      if exists s <- RecordSlots(days) :: s.name == name {
        var s :| s in RecordSlots(days) && s.name == name;
        if s in RecordSlots(init) {
          var k :| 0 <= k < |init| && ListsName(init[k], name);
          assert days[k] == init[k];
        } else {
          assert s in tail;
          assert ListsName(days[|days| - 1], name);
        }
      }
    }
  }

  lemma {:induction false} AllSlotNames(records: seq<Record>, name: string)
    ensures (exists s <- AllSlots(records) :: s.name == name) <==>
            (exists r, k :: 0 <= r < |records| && 0 <= k < |records[r]| && ListsName(records[r][k], name))
  {
    if records != [] {
      var init, rec := records[..|records| - 1], records[|records| - 1];
      AllSlotNames(init, name);
      RecordSlotNames(rec, name);
      assert AllSlots(records) == AllSlots(init) + RecordSlots(rec);
      if exists r, k :: 0 <= r < |records| && 0 <= k < |records[r]| && ListsName(records[r][k], name) {
        var r, k :| 0 <= r < |records| && 0 <= k < |records[r]| && ListsName(records[r][k], name);
        if r < |init| {
          assert init[r] == records[r];
          var s :| s in AllSlots(init) && s.name == name;
          assert s in AllSlots(records);
        } else {
          var s :| s in RecordSlots(rec) && s.name == name;
          assert s in AllSlots(records);
        }
      }
      if exists s <- AllSlots(records) :: s.name == name {
        var s :| s in AllSlots(records) && s.name == name;
        if s in AllSlots(init) {
          var r, k :| 0 <= r < |init| && 0 <= k < |init[r]| && ListsName(init[r][k], name);
          assert records[r] == init[r];
        } else {
          var k :| 0 <= k < |rec| && ListsName(rec[k], name);
          assert records[|records| - 1] == rec;
        }
      }
    }
  }

  /**
   * The page lists a surgeon name exactly when some saved day with a valid
   * date has a non-blank slot holding that name.
   */
  lemma StatisticsNames(records: seq<Record>, name: string)
    ensures name in Tally(map[], AllSlots(records)) <==>
              exists r, k :: 0 <= r < |records| && 0 <= k < |records[r]| && ListsName(records[r][k], name)
  {
    var slots := AllSlots(records);
    TallyMeaning(slots, name);
    AllSlotNames(records, name);
    if exists s <- slots :: s.name == name {
      var s :| s in slots && s.name == name;
      var i :| 0 <= i < |slots| && slots[i] == s;
    }
  }

  /** The innermost loop: the entries of one day with a parsed date. */
  method CollectDay(stats0: map<string, Stat>, weekend: bool, entries: seq<Entry>) returns (stats: map<string, Stat>)
    ensures stats == Tally(stats0, EntrySlots(weekend, entries))
  {
    stats := stats0;
    var j := 0;
    while j < |entries|
      invariant 0 <= j <= |entries|
      invariant stats == Tally(stats0, EntrySlots(weekend, entries[..j]))
    {
      var entry := entries[j];
      EntrySlotsStep(weekend, entries, j);
      ghost var done := EntrySlots(weekend, entries[..j]);
      if Counted(entry.surgeon) {
        var slot := Slot(entry.surgeon.value, weekend, Rank(entry.level));
        TallySnoc(stats0, done, slot);
        stats := CountSlot(stats, slot);
      } else {
        assert done + [] == done;
      }
      j := j + 1;
    }
    assert entries[..j] == entries;
  }

  lemma RecordSlotsStep(record: Record, k: int)
    requires 0 <= k < |record|
    ensures RecordSlots(record[..k + 1]) == RecordSlots(record[..k])
              + if record[k].day.Some? then EntrySlots(IsWeekend(record[k].day.value), record[k].entries) else []
  {
    assert record[..k + 1][..k] == record[..k];
  }

  /** The loop over the days of one record; a day whose key is not a date is skipped. */
  method CollectRecord(stats0: map<string, Stat>, record: Record) returns (stats: map<string, Stat>)
    ensures stats == Tally(stats0, RecordSlots(record))
  {
    stats := stats0;
    var k := 0;
    while k < |record|
      invariant 0 <= k <= |record|
      invariant stats == Tally(stats0, RecordSlots(record[..k]))
    {
      var stored := record[k];
      RecordSlotsStep(record, k);
      ghost var done := RecordSlots(record[..k]);
      if stored.day.Some? {
        var weekend := IsWeekend(stored.day.value);
        stats := CollectDay(stats, weekend, stored.entries);
        TallyAppend(stats0, done, EntrySlots(weekend, stored.entries));
      } else {
        assert done + [] == done;
      }
      k := k + 1;
    }
    assert record[..k] == record;
  }

  /** The loop over the saved records that fills `stats_dict`. */
  method CollectStats(records: seq<Record>) returns (stats: map<string, Stat>)
    ensures stats == Tally(map[], AllSlots(records))
  {
    stats := map[];
    var r := 0;
    while r < |records|
      invariant 0 <= r <= |records|
      invariant stats == Tally(map[], AllSlots(records[..r]))
    {
      stats := CollectRecord(stats, records[r]);
      assert records[..r + 1][..r] == records[..r];
      TallyAppend(map[], AllSlots(records[..r]), RecordSlots(records[r]));
      r := r + 1;
    }
    assert records[..r] == records;
  }
}
