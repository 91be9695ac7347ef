/**
 * `group_dates`: compress a list of dates into ranges of consecutive days,
 * as the availability page shows a surgeon's requests. Dates are day numbers
 * (proleptic Gregorian ordinals), so "the next day" is `d + 1`.
 */
module DateRanges {

  /** A range of consecutive days, both ends included (`{"start": …, "end": …}`). */
  datatype Range = Range(start: int, end: int)

  predicate IsSorted(s: seq<int>)
  {
    forall i, j :: 0 <= i < j < |s| ==> s[i] <= s[j]
  }

  /** No date occurs twice. */
  ghost predicate NoDuplicates(s: seq<int>)
  {
    forall v :: multiset(s)[v] <= 1
  }

  /**
   * `next` may start a range after `prev`: at its end (only when dates repeat)
   * or at least two days later; strictly after the missing day when `strict`.
   */
  predicate Follows(prev: Range, next: int, strict: bool)
  {
    && prev.end <= next
    && next != prev.end + 1
    && (strict ==> prev.end + 1 < next)
  }

  /** Every range is non-empty and each range may follow the one before it. */
  predicate Ascending(groups: seq<Range>, strict: bool)
  {
    && (forall i :: 0 <= i < |groups| ==> groups[i].start <= groups[i].end)
    && (forall i :: 0 < i < |groups| ==> Follows(groups[i - 1], groups[i].start, strict))
  }

  /** Position `k` of the sorted dates begins a range: it is the first, or its date is not the day after the previous one. */
  predicate StartsRun(sorted: seq<int>, k: int)
    requires 0 <= k < |sorted|
  {
    k == 0 || sorted[k] != sorted[k - 1] + 1
  }

  /** Where the range after range `i` begins, or `n` past the last range. */
  function NextStart(starts: seq<int>, i: int, n: int): int
    requires 0 <= i < |starts|
  {
    if i + 1 < |starts| then starts[i + 1] else n
  }

  /**
   * `groups` are the runs of `sorted` cut exactly where a range begins: range
   * `i` spans the positions from `starts[i]` up to the next range's first
   * position, and `starts` lists, in increasing order, exactly the positions
   * that begin a range.
   */
  predicate RunsAt(sorted: seq<int>, groups: seq<Range>, starts: seq<int>)
  {
    && CutBefore(sorted, groups, starts, |sorted|)
    && (forall k :: 0 <= k < |sorted| ==> (StartsRun(sorted, k) <==> k in starts))
  }

  /**
   * The ranges cut from the positions before `n`: `starts` increases, stays
   * below `n`, and range `i` spans from `starts[i]` to just before the next
   * range's first position (or `n`).
   */
  predicate CutBefore(sorted: seq<int>, groups: seq<Range>, starts: seq<int>, n: int)
  {
    && n <= |sorted|
    && |starts| == |groups|
    && (forall i :: 0 <= i < |starts| ==> 0 <= starts[i] < n)
    && (forall a, b :: 0 <= a < b < |starts| ==> starts[a] < starts[b])
    && (forall i {:trigger groups[i]} :: 0 <= i < |groups| ==>
          && 1 <= NextStart(starts, i, n) <= n
          && groups[i] == Range(sorted[starts[i]], sorted[NextStart(starts, i, n) - 1]))
  }

  /** `day` lies in one of the ranges. */
  predicate Covered(groups: seq<Range>, day: int)
  {
    exists i :: 0 <= i < |groups| && groups[i].start <= day <= groups[i].end
  }

  function Insert(x: int, s: seq<int>): (r: seq<int>)
    requires IsSorted(s)
    ensures IsSorted(r)
    ensures multiset(r) == multiset(s) + multiset{x}
    ensures r[0] == if s == [] || x <= s[0] then x else s[0]
  {
    if s == [] || x <= s[0] then [x] + s
    else
      assert [s[0]] + s[1..] == s;
      [s[0]] + Insert(x, s[1..])
  }

  /** `sorted(...)` on the parsed dates. */
  function SortDates(s: seq<int>): (r: seq<int>)
    ensures IsSorted(r)
    ensures multiset(r) == multiset(s)
  {
    if s == [] then []
    else
      assert [s[0]] + s[1..] == s;
      Insert(s[0], SortDates(s[1..]))
  }

  /** Two equal entries at different positions make a value occur twice. */
  lemma RepeatedEntry(s: seq<int>, i: int)
    requires 0 <= i < |s| - 1 && s[i] == s[i + 1]
    ensures multiset(s)[s[i]] >= 2
  {
    assert s == s[..i] + [s[i], s[i + 1]] + s[i + 2..];
  }

  /** A sorted permutation of a duplicate-free list is strictly increasing. */
  lemma SortedDistinct(dates: seq<int>, sorted: seq<int>)
    requires IsSorted(sorted) && multiset(sorted) == multiset(dates)
    requires NoDuplicates(dates)
    ensures forall i :: 0 <= i < |sorted| - 1 ==> sorted[i] < sorted[i + 1]
  {
    forall i | 0 <= i < |sorted| - 1 ensures sorted[i] < sorted[i + 1] {
      if sorted[i] == sorted[i + 1] {
        RepeatedEntry(sorted, i);
      }
    }
  }

  /**
   * `group_dates`. The ranges come out ascending with start <= end, each
   * starting where the previous one ends or at least two days after it, and
   * together they cover exactly the input dates; with no repeated date, a
   * missing day separates every two neighbouring ranges. The ranges are
   * exactly the runs of the sorted dates: a range ends before each position
   * whose date is not the day after the previous date, and nowhere else.
   */
  method GroupDates(dates: seq<int>) returns (groups: seq<Range>)
    ensures (groups == []) == (dates == [])
    ensures forall i :: 0 <= i < |groups| ==> groups[i].start <= groups[i].end
    ensures forall i :: 0 < i < |groups| ==>
              groups[i - 1].end <= groups[i].start && groups[i].start != groups[i - 1].end + 1
    ensures forall day :: day in dates <==> Covered(groups, day)
    ensures NoDuplicates(dates) ==> forall i :: 0 < i < |groups| ==> groups[i - 1].end + 1 < groups[i].start
    ensures dates != [] ==> exists starts :: RunsAt(SortDates(dates), groups, starts)
  {
    if |dates| == 0 {
      return [];
    }
    var sorted := SortDates(dates);
    ghost var strict := NoDuplicates(dates);
    if strict {
      SortedDistinct(dates, sorted);
    }
    ghost var starts;
    groups, starts := GroupRuns(sorted, strict);
    SameDates(dates, sorted);
  }

  /** A permutation holds the same dates. */
  lemma SameDates(dates: seq<int>, sorted: seq<int>)
    requires multiset(sorted) == multiset(dates)
    ensures forall day :: day in dates <==> day in sorted
  {
    forall day ensures day in dates <==> day in sorted {
      assert day in dates <==> day in multiset(sorted);
      assert day in multiset(sorted) <==> day in sorted;
    }
  }

  /** The loop of `group_dates` over the sorted, non-empty dates. */
  method GroupRuns(sorted: seq<int>, ghost strict: bool) returns (groups: seq<Range>, ghost starts: seq<int>)
    requires sorted != [] && IsSorted(sorted)
    requires strict ==> forall i :: 0 < i < |sorted| ==> sorted[i - 1] < sorted[i]
    ensures groups != []
    ensures Ascending(groups, strict)
    ensures forall day :: day in sorted <==> Covered(groups, day)
    ensures RunsAt(sorted, groups, starts)
  {
    groups := [];
    starts := [];
    var start := sorted[0];
    var end := sorted[0];
    ghost var si := 0;
    var k := 1;
    while k < |sorted|
      invariant 1 <= k <= |sorted|
      invariant 0 <= si < k && start == sorted[si] && end == sorted[k - 1]
      invariant CutBefore(sorted, groups, starts, si)
      invariant StartsBelow(sorted, starts, si, k)
    {
      var d := sorted[k];
      StartsStep(sorted, starts, si, k);
      if d == end + 1 {
        end := d;
      } else {
        RunsStep(sorted, groups, starts, si, k);
        groups := groups + [Range(start, end)];
        starts := starts + [si];
        start := d;
        end := d;
        si := k;
      }
      k := k + 1;
    }
    LastRun(sorted, groups, starts, si);
    groups := groups + [Range(start, end)];
    starts := starts + [si];
    RunsProperties(sorted, groups, starts, strict);
  }

  /** The runs of sorted dates form at least one range; the ranges are ascending and cover exactly the dates. */
  lemma RunsProperties(sorted: seq<int>, groups: seq<Range>, starts: seq<int>, strict: bool)
    requires sorted != [] && IsSorted(sorted) && RunsAt(sorted, groups, starts)
    requires strict ==> forall i :: 0 < i < |sorted| ==> sorted[i - 1] < sorted[i]
    ensures groups != []
    ensures Ascending(groups, strict)
    ensures forall day :: day in sorted <==> Covered(groups, day)
  {
    RunsStartAtZero(sorted, groups, starts);
    RunsAscending(sorted, groups, starts, strict);
    RunsCover(sorted, groups, starts);
  }

  /** Closing the last range, which begins at `si`, leaves exactly the runs of the sorted dates. */
  lemma LastRun(sorted: seq<int>, groups: seq<Range>, starts: seq<int>, si: int)
    requires 0 <= si < |sorted|
    requires CutBefore(sorted, groups, starts, si) && StartsBelow(sorted, starts, si, |sorted|)
    ensures RunsAt(sorted, groups + [Range(sorted[si], sorted[|sorted| - 1])], starts + [si])
  {
    RunsStep(sorted, groups, starts, si, |sorted|);
    forall j | 0 <= j < |sorted| ensures StartsRun(sorted, j) <==> j in starts + [si] {
      assert j in starts + [si] <==> j in starts || j == si;
    }
  }

  /** Below position `k`, the positions that begin a range are those in `starts` and the current range's first, `si`. */
  predicate StartsBelow(sorted: seq<int>, starts: seq<int>, si: int, k: int)
    requires k <= |sorted|
  {
    forall j :: 0 <= j < k ==> (StartsRun(sorted, j) <==> j in starts || j == si)
  }

  /** Position `k` either continues the current range or begins the next one. */
  lemma StartsStep(sorted: seq<int>, starts: seq<int>, si: int, k: int)
    requires 0 < k < |sorted| && StartsBelow(sorted, starts, si, k)
    requires 0 <= si < k && forall i :: 0 <= i < |starts| ==> starts[i] < si
    ensures sorted[k] == sorted[k - 1] + 1 ==> StartsBelow(sorted, starts, si, k + 1)
    ensures sorted[k] != sorted[k - 1] + 1 ==> StartsBelow(sorted, starts + [si], k, k + 1)
  {
    assert k !in starts;
    if sorted[k] != sorted[k - 1] + 1 {
      forall j | 0 <= j < k + 1 ensures StartsRun(sorted, j) <==> j in starts + [si] || j == k {
        assert j in starts + [si] <==> j in starts || j == si;
      }
    }
  }

  /** Closing the current range just before position `k` cuts one more range, beginning at `si`. */
  lemma RunsStep(sorted: seq<int>, groups: seq<Range>, starts: seq<int>, si: int, k: int)
    requires 0 <= si < k <= |sorted|
    requires CutBefore(sorted, groups, starts, si)
    ensures CutBefore(sorted, groups + [Range(sorted[si], sorted[k - 1])], starts + [si], k)
  {
    var starts' := starts + [si];
    var groups' := groups + [Range(sorted[si], sorted[k - 1])];
    forall i | 0 <= i < |starts'| ensures 0 <= starts'[i] < k {
      if i < |starts| {
        assert starts'[i] == starts[i];
      }
    }
    forall a, b | 0 <= a < b < |starts'| ensures starts'[a] < starts'[b] {
      assert starts'[a] == starts[a];
      if b < |starts| {
        assert starts'[b] == starts[b];
      }
    }
    forall i | 0 <= i < |groups'|
      ensures 1 <= NextStart(starts', i, k) <= k
      ensures groups'[i] == Range(sorted[starts'[i]], sorted[NextStart(starts', i, k) - 1])
    {
      if i < |groups| {
        CutRange(sorted, groups, starts, si, i);
        assert groups'[i] == groups[i] && starts'[i] == starts[i];
        assert NextStart(starts', i, k) == NextStart(starts, i, si);
      }
    }
  }

  /** The first position begins the first range, so there is at least one range. */
  lemma RunsStartAtZero(sorted: seq<int>, groups: seq<Range>, starts: seq<int>)
    requires sorted != [] && RunsAt(sorted, groups, starts)
    ensures groups != [] && starts[0] == 0
  {
    assert StartsRun(sorted, 0);
    var m :| 0 <= m < |starts| && starts[m] == 0;
  }

  /** Cut ranges of sorted dates are non-empty, and each begins after the previous one, never on the very next day. */
  lemma RunsAscending(sorted: seq<int>, groups: seq<Range>, starts: seq<int>, strict: bool)
    requires IsSorted(sorted) && RunsAt(sorted, groups, starts)
    requires strict ==> forall i :: 0 < i < |sorted| ==> sorted[i - 1] < sorted[i]
    ensures Ascending(groups, strict)
  {
    forall i | 0 <= i < |groups| ensures groups[i].start <= groups[i].end {
      RunNonEmpty(sorted, groups, starts, i);
    }
    forall i | 0 < i < |groups| ensures Follows(groups[i - 1], groups[i].start, strict) {
      RunFollows(sorted, groups, starts, strict, i);
    }
  }

  lemma RunNonEmpty(sorted: seq<int>, groups: seq<Range>, starts: seq<int>, i: int)
    requires IsSorted(sorted) && CutBefore(sorted, groups, starts, |sorted|) && 0 <= i < |groups|
    ensures groups[i].start <= groups[i].end
  {
    CutRange(sorted, groups, starts, |sorted|, i);
    SortedBetween(sorted, starts[i], starts[i], NextStart(starts, i, |sorted|) - 1);
  }

  /** In sorted dates, a position between two others holds a date between theirs. */
  lemma SortedBetween(sorted: seq<int>, a: int, p: int, e: int)
    requires IsSorted(sorted) && 0 <= a <= p <= e < |sorted|
    ensures sorted[a] <= sorted[p] <= sorted[e]
  {
  }

  /** Range `i` runs from the date at its first position to the date just before the next range's. */
  lemma CutRange(sorted: seq<int>, groups: seq<Range>, starts: seq<int>, n: int, i: int)
    requires CutBefore(sorted, groups, starts, n) && 0 <= i < |groups|
    ensures 0 <= starts[i] < NextStart(starts, i, n) <= n <= |sorted|
    ensures groups[i] == Range(sorted[starts[i]], sorted[NextStart(starts, i, n) - 1])
  {
    if i + 1 < |starts| {
      assert starts[i] < starts[i + 1];
    }
  }

  lemma RunFollows(sorted: seq<int>, groups: seq<Range>, starts: seq<int>, strict: bool, i: int)
    requires IsSorted(sorted) && RunsAt(sorted, groups, starts) && 0 < i < |groups|
    requires strict ==> forall i :: 0 < i < |sorted| ==> sorted[i - 1] < sorted[i]
    ensures Follows(groups[i - 1], groups[i].start, strict)
  {
    var p := starts[i];
    assert starts[i - 1] < p && NextStart(starts, i - 1, |sorted|) == p;
    assert StartsRun(sorted, p);
  }

  /** Inside range `i`, the dates are consecutive days counted from the range's first date. */
  lemma {:induction false} RunConsecutive(sorted: seq<int>, groups: seq<Range>, starts: seq<int>, i: int, j: int)
    requires RunsAt(sorted, groups, starts) && 0 <= i < |starts|
    requires starts[i] <= j < NextStart(starts, i, |sorted|)
    ensures sorted[j] == sorted[starts[i]] + (j - starts[i])
    decreases j
  {
    if j > starts[i] {
      RunConsecutive(sorted, groups, starts, i, j - 1);
      assert j !in starts;
      assert !StartsRun(sorted, j);
    }
  }

  /** Every position lies in the range whose first position is the last one not after it. */
  lemma {:induction false} FindRun(starts: seq<int>, p: int, n: int)
    requires starts != [] && starts[0] == 0 && 0 <= p < n
    requires forall a, b :: 0 <= a < b < |starts| ==> starts[a] < starts[b]
    requires forall i :: 0 <= i < |starts| ==> starts[i] < n
    ensures exists i :: 0 <= i < |starts| && starts[i] <= p < NextStart(starts, i, n)
    decreases |starts|
  {
    var last := |starts| - 1;
    if starts[last] <= p {
      assert starts[last] <= p < NextStart(starts, last, n);
    } else {
      var init := starts[..last];
      FindRun(init, p, starts[last]);
      var i :| 0 <= i < |init| && init[i] <= p < NextStart(init, i, starts[last]);
      assert NextStart(starts, i, n) == NextStart(init, i, starts[last]);
    }
  }

  /** The cut ranges of sorted dates cover exactly the dates. */
  lemma RunsCover(sorted: seq<int>, groups: seq<Range>, starts: seq<int>)
    requires sorted != [] && IsSorted(sorted) && RunsAt(sorted, groups, starts)
    ensures forall day :: day in sorted <==> Covered(groups, day)
  {
    RunsStartAtZero(sorted, groups, starts);
    forall day ensures day in sorted <==> Covered(groups, day) {
      if day in sorted {
        var p :| 0 <= p < |sorted| && sorted[p] == day;
        DateCovered(sorted, groups, starts, p);
      }
      if Covered(groups, day) {
        var i :| 0 <= i < |groups| && groups[i].start <= day <= groups[i].end;
        CoveredDate(sorted, groups, starts, i, day);
      }
    }
  }

  /** The date at position `p` lies in the range that contains the position. */
  lemma DateCovered(sorted: seq<int>, groups: seq<Range>, starts: seq<int>, p: int)
    requires IsSorted(sorted) && CutBefore(sorted, groups, starts, |sorted|)
    requires starts != [] && starts[0] == 0 && 0 <= p < |sorted|
    ensures Covered(groups, sorted[p])
  {
    FindRun(starts, p, |sorted|);
    var i :| 0 <= i < |starts| && starts[i] <= p < NextStart(starts, i, |sorted|);
    RunBounds(sorted, groups, starts, i, p);
  }

  /** A position inside range `i` holds a date between the range's ends. */
  lemma RunBounds(sorted: seq<int>, groups: seq<Range>, starts: seq<int>, i: int, p: int)
    requires IsSorted(sorted) && CutBefore(sorted, groups, starts, |sorted|) && 0 <= i < |groups|
    requires starts[i] <= p < NextStart(starts, i, |sorted|)
    ensures groups[i].start <= sorted[p] <= groups[i].end
  {
    CutRange(sorted, groups, starts, |sorted|, i);
    var a, e := starts[i], NextStart(starts, i, |sorted|) - 1;
    SortedBetween(sorted, a, p, e);
    assert groups[i].start == sorted[a] && groups[i].end == sorted[e];
  }

  /** A day inside range `i` is one of the dates, since the range's dates are consecutive. */
  lemma CoveredDate(sorted: seq<int>, groups: seq<Range>, starts: seq<int>, i: int, day: int)
    requires RunsAt(sorted, groups, starts) && 0 <= i < |groups|
    requires groups[i].start <= day <= groups[i].end
    ensures day in sorted
  {
    var a, b := starts[i], NextStart(starts, i, |sorted|);
    RunConsecutive(sorted, groups, starts, i, b - 1);
    var p := a + (day - sorted[a]);
    RunConsecutive(sorted, groups, starts, i, p);
    assert sorted[p] == day;
  }

  /** Two increasing lists with the same elements are equal. */
  lemma {:induction false} IncreasingSameElements(a: seq<int>, b: seq<int>)
    requires forall i, j :: 0 <= i < j < |a| ==> a[i] < a[j]
    requires forall i, j :: 0 <= i < j < |b| ==> b[i] < b[j]
    requires forall v :: v in a <==> v in b
    ensures a == b
    decreases |a|
  {
    if a != [] {
      assert a[0] in a;
    }
    if b != [] {
      assert b[0] in b;
    }
    if a != [] && b != [] {
      assert a[0] in b && b[0] in a;
      var i :| 0 <= i < |b| && b[i] == a[0];
      var j :| 0 <= j < |a| && a[j] == b[0];
      assert a[0] == b[0];
      forall v ensures v in a[1..] <==> v in b[1..] {
        if v in a[1..] {
          var k :| 1 <= k < |a| && a[k] == v;
          assert a[0] < a[k];
        }
        if v in b[1..] {
          var k :| 1 <= k < |b| && b[k] == v;
          assert b[0] < b[k];
        }
        assert v in a <==> v == a[0] || v in a[1..];
        assert v in b <==> v == b[0] || v in b[1..];
      }
      IncreasingSameElements(a[1..], b[1..]);
      assert a == [a[0]] + a[1..] && b == [b[0]] + b[1..];
    }
  }

  /** The cut ranges of a date list are unique: the positions beginning a range determine them. */
  lemma RunsDetermined(sorted: seq<int>, g1: seq<Range>, s1: seq<int>, g2: seq<Range>, s2: seq<int>)
    requires RunsAt(sorted, g1, s1) && RunsAt(sorted, g2, s2)
    ensures s1 == s2 && g1 == g2
  {
    forall v ensures v in s1 <==> v in s2 {
      RunStartMember(sorted, g1, s1, v);
      RunStartMember(sorted, g2, s2, v);
    }
    IncreasingSameElements(s1, s2);
    SameCutsSameRanges(sorted, g1, g2, s1);
  }

  /** A position is in `starts` exactly when it begins a run of the dates. */
  lemma RunStartMember(sorted: seq<int>, groups: seq<Range>, starts: seq<int>, v: int)
    requires RunsAt(sorted, groups, starts)
    ensures v in starts <==> 0 <= v < |sorted| && StartsRun(sorted, v)
  {
    if v in starts {
      var m :| 0 <= m < |starts| && starts[m] == v;
    }
  }

  /** The same first positions cut the dates into the same ranges. */
  lemma SameCutsSameRanges(sorted: seq<int>, g1: seq<Range>, g2: seq<Range>, starts: seq<int>)
    requires CutBefore(sorted, g1, starts, |sorted|) && CutBefore(sorted, g2, starts, |sorted|)
    ensures g1 == g2
  {
    forall i | 0 <= i < |g1| ensures g1[i] == g2[i] {
    }
  }

  /** Repeated dates split ranges: the sorted dates 1, 1, 2, 2, 3, 3 give the four ranges 1–1, 1–2, 2–3 and 3–3. */
  lemma RepeatedDatesRuns(groups: seq<Range>, starts: seq<int>)
    requires RunsAt([1, 1, 2, 2, 3, 3], groups, starts)
    ensures groups == [Range(1, 1), Range(1, 2), Range(2, 3), Range(3, 3)]
  {
    var sorted := [1, 1, 2, 2, 3, 3];
    var expected := [Range(1, 1), Range(1, 2), Range(2, 3), Range(3, 3)];
    var cuts := [0, 1, 3, 5];
    assert NextStart(cuts, 0, 6) == 1 && NextStart(cuts, 1, 6) == 3;
    assert NextStart(cuts, 2, 6) == 5 && NextStart(cuts, 3, 6) == 6;
    assert CutBefore(sorted, expected, cuts, 6);
    forall k | 0 <= k < 6 ensures StartsRun(sorted, k) <==> k in cuts {
      assert k in cuts <==> k == 0 || k == 1 || k == 3 || k == 5;
    }
    RunsDetermined(sorted, groups, starts, expected, cuts);
  }

  /** Appending a range adds exactly its days to the covered days. */
  lemma CoveredAppend(groups: seq<Range>, r: Range)
    ensures forall day :: Covered(groups + [r], day) <==> Covered(groups, day) || r.start <= day <= r.end
  {
    forall day ensures Covered(groups + [r], day) <==> Covered(groups, day) || r.start <= day <= r.end {
      if Covered(groups + [r], day) {
        var i :| 0 <= i < |groups| + 1 && (groups + [r])[i].start <= day <= (groups + [r])[i].end;
        if i < |groups| {
          assert groups[i] == (groups + [r])[i];
        }
      }
      if Covered(groups, day) {
        var i :| 0 <= i < |groups| && groups[i].start <= day <= groups[i].end;
        assert (groups + [r])[i] == groups[i];
      }
      if r.start <= day <= r.end {
        assert (groups + [r])[|groups|] == r;
      }
    }
  }

  /** Ranges that each start after the previous one ends are pairwise disjoint. */
  lemma {:induction false} SeparatedRangesDisjoint(groups: seq<Range>, i: int, j: int)
    requires forall k :: 0 <= k < |groups| ==> groups[k].start <= groups[k].end
    requires forall k :: 0 < k < |groups| ==> groups[k - 1].end < groups[k].start
    requires 0 <= i < j < |groups|
    ensures groups[i].end < groups[j].start
    decreases j - i
  {
    if i + 1 < j {
      SeparatedRangesDisjoint(groups, i + 1, j);
    }
  }

  /**
   * Under the separation `GroupDates` guarantees for duplicate-free input,
   * every covered day lies in exactly one range.
   */
  lemma ExactlyOneRange(groups: seq<Range>, day: int, i: int, j: int)
    requires forall k :: 0 <= k < |groups| ==> groups[k].start <= groups[k].end
    requires forall k :: 0 < k < |groups| ==> groups[k - 1].end + 1 < groups[k].start
    requires 0 <= i < |groups| && groups[i].start <= day <= groups[i].end
    requires 0 <= j < |groups| && groups[j].start <= day <= groups[j].end
    ensures i == j
  {
    if i < j {
      SeparatedRangesDisjoint(groups, i, j);
    } else if j < i {
      SeparatedRangesDisjoint(groups, j, i);
    }
  }
}
