/**
 * The appointment slot engine of the scheduling agent.
 *
 * Instants are whole minutes in the one configured zone. Day number `d` counts
 * days from a Monday, so the instant `m` minutes after midnight of day `d` is
 * `d * MINUTES_PER_DAY + m`. Working hours map a weekday to its opening and
 * closing minute. The busy intervals that the calendar returns are passed in
 * as a sequence, and the random source of the sampling as a sequence of picks.
 */
module CalendarApis {
  import opened Wrappers
  import opened Seqs

  /** Length of every slot, in minutes. */
  const MEETING_TIME: int := 30
  /** At most this many free slots are offered. */
  const SAMPLE_SIZE: nat := 4
  /** Number of days, starting today, that the weekly search covers. */
  const NUM_DAYS: nat := 7
  const MINUTES_PER_DAY: int := 1440

  datatype Weekday = Monday | Tuesday | Wednesday | Thursday | Friday | Saturday | Sunday

  /** Opening and closing time of a working day, in minutes after midnight. */
  datatype WorkHours = WorkHours(start: int, end: int)

  /** Weekdays absent from the map are closed. */
  type WorkingHours = map<Weekday, WorkHours>

  /** The default working hours: Monday to Thursday, 9:00 to 20:00. */
  const WORKING_DAY_W_START_END_TIME: WorkingHours := map[
    Monday := WorkHours(9 * 60, 20 * 60),
    Tuesday := WorkHours(9 * 60, 20 * 60),
    Wednesday := WorkHours(9 * 60, 20 * 60),
    Thursday := WorkHours(9 * 60, 20 * 60)
  ]

  /** A time range `[start, end)`: a busy event or a candidate slot. */
  datatype Interval = Interval(start: int, end: int)

  function WeekdayOf(day: int): Weekday
  {
    var k := day % 7;
    if k == 0 then Monday
    else if k == 1 then Tuesday
    else if k == 2 then Wednesday
    else if k == 3 then Thursday
    else if k == 4 then Friday
    else if k == 5 then Saturday
    else Sunday
  }

  /** The slot that starts at `slotTime`. */
  function SlotOf(slotTime: int): Interval
  {
    Interval(slotTime, slotTime + MEETING_TIME)
  }

  // ---------------------------------------------------------------------------
  // The overlap rule

  /** The conflict test of both slot loops: touching endpoints do not conflict. */
  predicate Conflicts(slot: Interval, busy: Interval)
  {
    slot.start < busy.end && slot.end > busy.start
  }

  predicate Covers(i: Interval, t: int)
  {
    i.start <= t < i.end
  }

  /** For non-empty intervals, the overlap rule holds exactly when some minute lies in both. */
  lemma ConflictsIffShareMinute(slot: Interval, busy: Interval)
    requires slot.start < slot.end && busy.start < busy.end
    ensures Conflicts(slot, busy) <==> exists t :: Covers(slot, t) && Covers(busy, t)
  {
    if Conflicts(slot, busy) {
      var t := if slot.start < busy.start then busy.start else slot.start;
      assert Covers(slot, t) && Covers(busy, t);
    }
  }

  /** A slot followed or preceded immediately by a busy interval is not in conflict with it. */
  lemma TouchingIsNoConflict(t: int)
    ensures !Conflicts(SlotOf(t), Interval(t + MEETING_TIME, t + 2 * MEETING_TIME))
    ensures !Conflicts(SlotOf(t), Interval(t - MEETING_TIME, t))
    ensures Conflicts(SlotOf(t), Interval(t + MEETING_TIME - 1, t + 2 * MEETING_TIME))
  {
  }

  /** The slot starting at `slotTime` conflicts with none of the busy intervals. */
  predicate SlotIsFree(slotTime: int, busy: seq<Interval>)
  {
    forall b :: b in busy ==> !Conflicts(SlotOf(slotTime), b)
  }

  /** The inner loop over the busy intervals, which stops at the first conflict. */
  method SlotFreeAgainst(slotTime: int, busy: seq<Interval>) returns (isFree: bool)
    ensures isFree <==> SlotIsFree(slotTime, busy)
  {
    var slotEndTime := slotTime + MEETING_TIME;
    isFree := true;
    var i := 0;
    while i < |busy|
      invariant 0 <= i <= |busy|
      invariant forall k :: 0 <= k < i ==> !Conflicts(SlotOf(slotTime), busy[k])
    {
      if slotTime < busy[i].end && slotEndTime > busy[i].start {
        assert busy[i] in busy && Conflicts(SlotOf(slotTime), busy[i]);
        isFree := false;
        break;
      }
      i := i + 1;
    }
  }

  // ---------------------------------------------------------------------------
  // Candidate slots

  /**
   * The two slot loops stop differently: the one-day search keeps a slot only
   * if it ends by closing time, the weekly search keeps every slot that starts
   * before closing time.
   */
  datatype LoopBound = EndWithinDay | StartBeforeEnd

  predicate Continues(slotTime: int, endOfDay: int, bound: LoopBound)
  {
    match bound
    case EndWithinDay => slotTime + MEETING_TIME <= endOfDay
    case StartBeforeEnd => slotTime < endOfDay
  }

  /** The start times the loop visits from `from` on, one MEETING_TIME apart. */
  function Candidates(from: int, endOfDay: int, bound: LoopBound): seq<int>
    decreases endOfDay - from
  {
    if Continues(from, endOfDay, bound) then [from] + Candidates(from + MEETING_TIME, endOfDay, bound)
    else []
  }

  /** The `k`-th candidate is `from + k * MEETING_TIME`, and the loop condition held for it. */
  lemma {:induction false} CandidateAt(from: int, endOfDay: int, bound: LoopBound, k: nat)
    requires k < |Candidates(from, endOfDay, bound)|
    ensures Candidates(from, endOfDay, bound)[k] == from + k * MEETING_TIME
    ensures Continues(Candidates(from, endOfDay, bound)[k], endOfDay, bound)
    decreases endOfDay - from
  {
    if k > 0 {
      CandidateAt(from + MEETING_TIME, endOfDay, bound, k - 1);
    }
  }

  /** Every grid point from `from` on that satisfies the loop condition is a candidate. */
  lemma {:induction false} CandidatesComplete(from: int, endOfDay: int, bound: LoopBound, k: nat)
    requires Continues(from + k * MEETING_TIME, endOfDay, bound)
    ensures from + k * MEETING_TIME in Candidates(from, endOfDay, bound)
    decreases k
  {
    assert Continues(from, endOfDay, bound);
    if k > 0 {
      assert from + k * MEETING_TIME == (from + MEETING_TIME) + (k - 1) * MEETING_TIME;
      CandidatesComplete(from + MEETING_TIME, endOfDay, bound, k - 1);
    }
  }

  /** Starts at least MEETING_TIME apart, in increasing order. */
  ghost predicate Spaced(s: seq<int>)
  {
    forall i, j :: 0 <= i < j < |s| ==> s[i] + MEETING_TIME <= s[j]
  }

  /** Spaced slot starts give strictly increasing, pairwise disjoint slots. */
  lemma SpacedSlotsDisjoint(s: seq<int>)
    requires Spaced(s)
    ensures forall i, j :: 0 <= i < j < |s| ==> s[i] < s[j]
    ensures forall i, j :: 0 <= i < |s| && 0 <= j < |s| && i != j ==> !Conflicts(SlotOf(s[i]), SlotOf(s[j]))
    ensures Distinct(s)
  {
  }

  lemma CandidatesSpaced(from: int, endOfDay: int, bound: LoopBound)
    ensures Spaced(Candidates(from, endOfDay, bound))
  {
    var c := Candidates(from, endOfDay, bound);
    forall i, j | 0 <= i < j < |c|
      ensures c[i] + MEETING_TIME <= c[j]
    {
      CandidateAt(from, endOfDay, bound, i);
      CandidateAt(from, endOfDay, bound, j);
    }
  }

  /** With the one-day bound, a window of `w` minutes holds `w / MEETING_TIME` slots. */
  lemma {:induction false} CandidatesCount(from: int, endOfDay: int)
    requires from <= endOfDay
    ensures |Candidates(from, endOfDay, EndWithinDay)| == (endOfDay - from) / MEETING_TIME
    decreases endOfDay - from
  {
    if from + MEETING_TIME <= endOfDay {
      CandidatesCount(from + MEETING_TIME, endOfDay);
    }
  }

  /** When MEETING_TIME divides the window, the two loop bounds visit the same slots. */
  lemma {:induction false} BoundsAgreeWhenDivisible(from: int, endOfDay: int, n: nat)
    requires endOfDay == from + n * MEETING_TIME
    ensures Candidates(from, endOfDay, EndWithinDay) == Candidates(from, endOfDay, StartBeforeEnd)
    decreases n
  {
    if n > 0 {
      BoundsAgreeWhenDivisible(from + MEETING_TIME, endOfDay, n - 1);
    }
  }

  /**
   * When MEETING_TIME does not divide a non-empty window, the weekly loop visits
   * one slot more than the one-day loop, and that last slot runs past closing time.
   */
  lemma {:induction false} StartBeforeEndOverruns(from: int, endOfDay: int)
    requires from < endOfDay && (endOfDay - from) % MEETING_TIME != 0
    ensures |Candidates(from, endOfDay, StartBeforeEnd)| == |Candidates(from, endOfDay, EndWithinDay)| + 1
    ensures var c := Candidates(from, endOfDay, StartBeforeEnd);
            c[|c| - 1] + MEETING_TIME > endOfDay
    decreases endOfDay - from
  {
    if from + MEETING_TIME < endOfDay {
      StartBeforeEndOverruns(from + MEETING_TIME, endOfDay);
    }
  }

  // ---------------------------------------------------------------------------
  // Free candidates

  /** The candidates that conflict with no busy interval, in their original order. */
  function FreeAmong(candidates: seq<int>, busy: seq<Interval>): seq<int>
  {
    if candidates == [] then []
    else
      var last := candidates[|candidates| - 1];
      FreeAmong(candidates[..|candidates| - 1], busy) + (if SlotIsFree(last, busy) then [last] else [])
  }

  /** The free list is sound and complete. */
  lemma {:induction false} FreeAmongExactly(candidates: seq<int>, busy: seq<Interval>, x: int)
    ensures x in FreeAmong(candidates, busy) <==> x in candidates && SlotIsFree(x, busy)
  {
    if candidates != [] {
      var init := candidates[..|candidates| - 1];
      FreeAmongExactly(init, busy, x);
      assert candidates == init + [candidates[|candidates| - 1]];
    }
  }

  /** The free list keeps the candidates' order. */
  lemma {:induction false} FreeAmongIsSubsequence(candidates: seq<int>, busy: seq<Interval>)
    ensures IsSubsequence(FreeAmong(candidates, busy), candidates)
  {
    if candidates != [] {
      var init := candidates[..|candidates| - 1];
      var last := candidates[|candidates| - 1];
      var f := FreeAmong(init, busy);
      FreeAmongIsSubsequence(init, busy);
      SubsequenceSnoc(f, init, last, SlotIsFree(last, busy));
      assert init + [last] == candidates;
      if !SlotIsFree(last, busy) {
        assert f + [] == f;
      }
    }
  }

  lemma {:induction false} FreeAmongSpaced(candidates: seq<int>, busy: seq<Interval>)
    requires Spaced(candidates)
    ensures Spaced(FreeAmong(candidates, busy))
  {
    if candidates != [] {
      var init := candidates[..|candidates| - 1];
      var last := candidates[|candidates| - 1];
      FreeAmongSpaced(init, busy);
      if SlotIsFree(last, busy) {
        var f := FreeAmong(init, busy);
        forall i | 0 <= i < |f|
          ensures f[i] + MEETING_TIME <= last
        {
          FreeAmongExactly(init, busy, f[i]);
        }
      }
    }
  }

  // ---------------------------------------------------------------------------
  // Working days

  /** The working window of `day` as instants, or None when its weekday is closed. */
  function DayWindow(day: int, hours: WorkingHours): Option<Interval>
  {
    var weekday := WeekdayOf(day);
    if weekday in hours then
      Some(Interval(day * MINUTES_PER_DAY + hours[weekday].start, day * MINUTES_PER_DAY + hours[weekday].end))
    else None
  }

  function DayCandidates(day: int, hours: WorkingHours, bound: LoopBound): seq<int>
  {
    match DayWindow(day, hours)
    case None => []
    case Some(w) => Candidates(w.start, w.end, bound)
  }

  /** `s` starts a slot of `day` on the MEETING_TIME grid that ends by closing time. */
  ghost predicate WithinWorkingHours(s: int, day: int, hours: WorkingHours)
  {
    DayWindow(day, hours).Some? &&
    var w := DayWindow(day, hours).value;
    w.start <= s && s + MEETING_TIME <= w.end && (s - w.start) % MEETING_TIME == 0
  }

  /** The one-day candidates are exactly the grid slots that fit in the working window. */
  lemma DayCandidatesExactly(day: int, hours: WorkingHours, s: int)
    ensures s in DayCandidates(day, hours, EndWithinDay) <==> WithinWorkingHours(s, day, hours)
  {
    if DayWindow(day, hours).Some? {
      var w := DayWindow(day, hours).value;
      var c := Candidates(w.start, w.end, EndWithinDay);
      if s in c {
        var k :| 0 <= k < |c| && c[k] == s;
        CandidateAt(w.start, w.end, EndWithinDay, k);
      }
      if WithinWorkingHours(s, day, hours) {
        var k := (s - w.start) / MEETING_TIME;
        assert s == w.start + k * MEETING_TIME;
        CandidatesComplete(w.start, w.end, EndWithinDay, k);
      }
    }
  }

  /**
   * Every hour of the working map is a clock time that `"%H:%M"` parsing
   * accepts, 0:00 to 23:59, so it lies inside its own day.
   */
  ghost predicate ValidHours(hours: WorkingHours)
  {
    forall d :: d in hours ==>
      0 <= hours[d].start < MINUTES_PER_DAY && 0 <= hours[d].end < MINUTES_PER_DAY
  }

  /** With valid hours, every weekly candidate of `day` starts during that day. */
  lemma DayCandidatesInDay(day: int, hours: WorkingHours, s: int)
    requires ValidHours(hours)
    requires s in DayCandidates(day, hours, StartBeforeEnd)
    ensures day * MINUTES_PER_DAY <= s < (day + 1) * MINUTES_PER_DAY
  {
    var w := DayWindow(day, hours).value;
    var c := Candidates(w.start, w.end, StartBeforeEnd);
    var k :| 0 <= k < |c| && c[k] == s;
    CandidateAt(w.start, w.end, StartBeforeEnd, k);
  }

  lemma DefaultHoursValid()
    ensures ValidHours(WORKING_DAY_W_START_END_TIME)
  {
  }

  /** With the default hours, 660 minutes a day, the two loop bounds agree on every day. */
  lemma DefaultHoursNoOverrun(day: int)
    ensures DayCandidates(day, WORKING_DAY_W_START_END_TIME, EndWithinDay)
         == DayCandidates(day, WORKING_DAY_W_START_END_TIME, StartBeforeEnd)
  {
    var w := DayWindow(day, WORKING_DAY_W_START_END_TIME);
    if w.Some? {
      BoundsAgreeWhenDivisible(w.value.start, w.value.end, 22);
    }
  }

  /** Hours 9:00 to 10:00 and no busy interval give exactly the slots 9:00 and 9:30. */
  lemma NineToTenHasTwoSlots()
    ensures FreeAmong(Candidates(540, 600, EndWithinDay), []) == [540, 570]
  {
  }

  /** Hours 9:00 to 9:45: the weekly loop also visits 9:30, whose slot ends at 10:00. */
  lemma OverrunExample()
    ensures Candidates(540, 585, EndWithinDay) == [540]
    ensures Candidates(540, 585, StartBeforeEnd) == [540, 570]
  {
  }

  /** Day 4 is a Friday, which the default hours leave closed. */
  lemma FridayIsClosed()
    ensures WeekdayOf(4) == Friday
    ensures DayCandidates(4, WORKING_DAY_W_START_END_TIME, EndWithinDay) == []
  {
  }

  // ---------------------------------------------------------------------------
  // The slot loop and the sampling

  /** The `while slot_time ...` loop: walks the candidates and keeps the free ones. */
  method CollectFreeSlots(startOfDay: int, endOfDay: int, bound: LoopBound, busy: seq<Interval>)
    returns (freeSlots: seq<int>)
    ensures freeSlots == FreeAmong(Candidates(startOfDay, endOfDay, bound), busy)
  {
    freeSlots := [];
    var slotTime := startOfDay;
    ghost var visited: seq<int> := [];
    while Continues(slotTime, endOfDay, bound)
      invariant visited + Candidates(slotTime, endOfDay, bound) == Candidates(startOfDay, endOfDay, bound)
      invariant freeSlots == FreeAmong(visited, busy)
      decreases endOfDay - slotTime
    {
      var isFree := SlotFreeAgainst(slotTime, busy);
      if isFree {
        freeSlots := freeSlots + [slotTime];
      }
      assert (visited + [slotTime])[..|visited|] == visited;
      visited := visited + [slotTime];
      slotTime := slotTime + MEETING_TIME;
    }
    assert Candidates(slotTime, endOfDay, bound) == [];
    assert visited + [] == visited;
  }

  /**
   * Sampling without replacement. `picks` stands for the random source: the
   * `i`-th draw takes the element at `picks[i]` modulo the size of what is left.
   */
  method Sample<T(==)>(population: seq<T>, k: nat, picks: seq<nat>) returns (chosen: seq<T>)
    ensures |chosen| == Min(k, |population|)
    ensures multiset(chosen) <= multiset(population)
    ensures Distinct(population) ==> Distinct(chosen)
  {
    var n := Min(k, |population|);
    var pool := population;
    chosen := [];
    while |chosen| < n
      invariant |chosen| <= n
      invariant |pool| == |population| - |chosen|
      invariant multiset(chosen) + multiset(pool) == multiset(population)
      invariant Distinct(population) ==> DistinctApart(chosen, pool)
    {
      var i := |chosen|;
      var j := (if i < |picks| then picks[i] else 0) % |pool|;
      DrawKeepsSample(chosen, pool, j);
      chosen, pool := chosen + [pool[j]], RemoveAt(pool, j);
    }
    if Distinct(population) {
      assert DistinctApart(chosen, pool);
    }
  }

  /** Both parts of a sample in progress are duplicate-free and share no value. */
  ghost predicate DistinctApart<T>(chosen: seq<T>, pool: seq<T>)
  {
    Distinct(chosen) && Distinct(pool) && forall x :: x in chosen ==> x !in pool
  }

  /** One draw moves one element from the pool to the sample. */
  lemma DrawKeepsSample<T>(chosen: seq<T>, pool: seq<T>, j: nat)
    requires j < |pool|
    ensures multiset(chosen + [pool[j]]) + multiset(RemoveAt(pool, j)) == multiset(chosen) + multiset(pool)
    ensures |RemoveAt(pool, j)| == |pool| - 1
    ensures DistinctApart(chosen, pool) ==> DistinctApart(chosen + [pool[j]], RemoveAt(pool, j))
  {
    RemoveAtProperties(pool, j);
    if DistinctApart(chosen, pool) {
      var c := chosen + [pool[j]];
      assert pool[j] in pool;
      forall a, b | 0 <= a < b < |c|
        ensures c[a] != c[b]
      {
        if b == |chosen| {
          assert c[a] in chosen;
        }
      }
    }
  }

  /**
   * `get_free_slots_for_day`: the free slots of one day, at most SAMPLE_SIZE of
   * them picked at random. A closed weekday gives no slots.
   */
  method FreeSlotsForDay(day: int, hours: WorkingHours, busy: seq<Interval>, picks: seq<nat>)
    returns (slots: seq<int>)
    ensures DayWindow(day, hours).None? ==> slots == []
    ensures |slots| == Min(SAMPLE_SIZE, |FreeAmong(DayCandidates(day, hours, EndWithinDay), busy)|)
    ensures multiset(slots) <= multiset(FreeAmong(DayCandidates(day, hours, EndWithinDay), busy))
    ensures Distinct(slots)
    ensures forall s :: s in slots ==> SlotIsFree(s, busy) && WithinWorkingHours(s, day, hours)
  {
    var window := DayWindow(day, hours);
    if window.None? {
      return [];
    }
    var freeSlots := CollectFreeSlots(window.value.start, window.value.end, EndWithinDay, busy);
    CandidatesSpaced(window.value.start, window.value.end, EndWithinDay);
    FreeAmongSpaced(Candidates(window.value.start, window.value.end, EndWithinDay), busy);
    SpacedSlotsDisjoint(freeSlots);
    slots := Sample(freeSlots, SAMPLE_SIZE, picks);
    forall s | s in slots
      ensures SlotIsFree(s, busy) && WithinWorkingHours(s, day, hours)
    {
      assert s in multiset(freeSlots);
      FreeAmongExactly(DayCandidates(day, hours, EndWithinDay), busy, s);
      DayCandidatesExactly(day, hours, s);
    }
  }

  /** The free weekly candidates of the first `days` days from `today`, day by day. */
  function WeekFree(today: int, days: nat, hours: WorkingHours, busy: seq<Interval>): seq<int>
  {
    if days == 0 then []
    else WeekFree(today, days - 1, hours, busy) + FreeAmong(DayCandidates(today + days - 1, hours, StartBeforeEnd), busy)
  }

  /** The weekly free list holds exactly the free candidates of the days searched. */
  lemma {:induction false} WeekFreeExactly(today: int, days: nat, hours: WorkingHours, busy: seq<Interval>, s: int)
    ensures s in WeekFree(today, days, hours, busy) <==>
            SlotIsFree(s, busy) && exists d :: today <= d < today + days && s in DayCandidates(d, hours, StartBeforeEnd)
  {
    if days > 0 {
      var last := today + days - 1;
      WeekFreeExactly(today, days - 1, hours, busy, s);
      FreeAmongExactly(DayCandidates(last, hours, StartBeforeEnd), busy, s);
      if s in DayCandidates(last, hours, StartBeforeEnd) {
        assert today <= last < today + days;
      }
    }
  }

  /** With valid hours the weekly free list is in chronological order. */
  lemma {:induction false} WeekFreeChronological(today: int, days: nat, hours: WorkingHours, busy: seq<Interval>)
    requires ValidHours(hours)
    ensures forall i, j :: 0 <= i < j < |WeekFree(today, days, hours, busy)| ==>
              WeekFree(today, days, hours, busy)[i] < WeekFree(today, days, hours, busy)[j]
    ensures forall s :: s in WeekFree(today, days, hours, busy) ==> s < (today + days) * MINUTES_PER_DAY
  {
    if days > 0 {
      var day := today + days - 1;
      WeekFreeChronological(today, days - 1, hours, busy);
      var before := WeekFree(today, days - 1, hours, busy);
      var c := DayCandidates(day, hours, StartBeforeEnd);
      var f := FreeAmong(c, busy);
      if DayWindow(day, hours).Some? {
        var w := DayWindow(day, hours).value;
        CandidatesSpaced(w.start, w.end, StartBeforeEnd);
        FreeAmongSpaced(c, busy);
      }
      forall s | s in f
        ensures day * MINUTES_PER_DAY <= s < (day + 1) * MINUTES_PER_DAY
      {
        FreeAmongExactly(c, busy, s);
        DayCandidatesInDay(day, hours, s);
      }
      var all := before + f;
      forall i, j | 0 <= i < j < |all|
        ensures all[i] < all[j]
      {
        if j < |before| {
          assert all[i] == before[i] && all[j] == before[j];
        } else if i < |before| {
          assert all[i] in before && all[j] in f;
        } else {
          assert all[i] == f[i - |before|] && all[j] == f[j - |before|];
        }
      }
    }
  }

  /**
   * `get_random_free_slots`: the free slots of the seven days from `today` on,
   * at most SAMPLE_SIZE of them picked at random. The hours are ones that
   * `"%H:%M"` parsing accepted; any other hour raises before the search.
   */
  method RandomFreeSlots(today: int, hours: WorkingHours, busy: seq<Interval>, picks: seq<nat>)
    returns (slots: seq<int>)
    requires ValidHours(hours)
    ensures |slots| == Min(SAMPLE_SIZE, |WeekFree(today, NUM_DAYS, hours, busy)|)
    ensures multiset(slots) <= multiset(WeekFree(today, NUM_DAYS, hours, busy))
    ensures Distinct(slots)
    ensures forall s :: s in slots ==>
              SlotIsFree(s, busy) &&
              exists d :: today <= d < today + NUM_DAYS && s in DayCandidates(d, hours, StartBeforeEnd)
  {
    var freeSlots: seq<int> := [];
    var i := 0;
    while i < NUM_DAYS
      invariant 0 <= i <= NUM_DAYS
      invariant freeSlots == WeekFree(today, i, hours, busy)
    {
      var window := DayWindow(today + i, hours);
      if window.Some? {
        var dayFree := CollectFreeSlots(window.value.start, window.value.end, StartBeforeEnd, busy);
        freeSlots := freeSlots + dayFree;
      }
      i := i + 1;
    }
    WeekFreeChronological(today, NUM_DAYS, hours, busy);
    slots := Sample(freeSlots, SAMPLE_SIZE, picks);
    forall s | s in slots
      ensures SlotIsFree(s, busy) &&
              exists d :: today <= d < today + NUM_DAYS && s in DayCandidates(d, hours, StartBeforeEnd)
    {
      assert s in multiset(freeSlots);
      WeekFreeExactly(today, NUM_DAYS, hours, busy, s);
    }
  }

  // ---------------------------------------------------------------------------
  // Checking and booking one slot

  /**
   * `is_slot_free`: asks the calendar for the events in the window of the slot
   * starting at `dt` and reports the slot free when there are none.
   */
  function IsSlotFree(dt: int, fetchEvents: Interval -> seq<Interval>): (free: bool)
    ensures free <==> fetchEvents(Interval(dt, dt + MEETING_TIME)) == []
  {
    |fetchEvents(SlotOf(dt))| == 0
  }

  /** A calendar query that returns exactly the events of `calendar` overlapping `window`. */
  ghost predicate FetchesOverlapping(fetched: seq<Interval>, window: Interval, calendar: seq<Interval>)
  {
    forall e :: e in fetched <==> e in calendar && Conflicts(window, e)
  }

  /** Against a faithful calendar query, the exact check agrees with the overlap rule. */
  lemma IsSlotFreeAgreesWithOverlap(dt: int, fetchEvents: Interval -> seq<Interval>, calendar: seq<Interval>)
    requires FetchesOverlapping(fetchEvents(SlotOf(dt)), SlotOf(dt), calendar)
    ensures IsSlotFree(dt, fetchEvents) <==> SlotIsFree(dt, calendar)
  {
    var fetched := fetchEvents(SlotOf(dt));
    if fetched != [] {
      assert fetched[0] in fetched;
    }
  }

  /**
   * The exact check ignores working hours: on an empty calendar a slot at 3:00
   * on a Monday is reported free although neither slot loop offers it.
   */
  lemma ExactCheckIgnoresWorkingHours(fetchEvents: Interval -> seq<Interval>)
    requires FetchesOverlapping(fetchEvents(SlotOf(180)), SlotOf(180), [])
    ensures IsSlotFree(180, fetchEvents)
    ensures 180 !in DayCandidates(0, WORKING_DAY_W_START_END_TIME, EndWithinDay)
    ensures 180 !in DayCandidates(0, WORKING_DAY_W_START_END_TIME, StartBeforeEnd)
  {
    IsSlotFreeAgreesWithOverlap(180, fetchEvents, []);
    DayCandidatesExactly(0, WORKING_DAY_W_START_END_TIME, 180);
    DefaultHoursNoOverrun(0);
  }

  /** A busy interval 9:00 to 9:30: a slot at 9:00 is taken, the slot at 9:30 is free. */
  lemma ExactCheckExample(fetchEvents: Interval -> seq<Interval>)
    requires FetchesOverlapping(fetchEvents(SlotOf(540)), SlotOf(540), [Interval(540, 570)])
    requires FetchesOverlapping(fetchEvents(SlotOf(570)), SlotOf(570), [Interval(540, 570)])
    ensures !IsSlotFree(540, fetchEvents)
    ensures IsSlotFree(570, fetchEvents)
  {
    IsSlotFreeAgreesWithOverlap(540, fetchEvents, [Interval(540, 570)]);
    assert Interval(540, 570) in [Interval(540, 570)];
    IsSlotFreeAgreesWithOverlap(570, fetchEvents, [Interval(540, 570)]);
  }

  /** `create_event` books a fixed 30-minute event starting at `dt`. */
  function EventWindow(dt: int): (w: Interval)
    ensures w.start == dt && w.end - w.start == 30
  {
    Interval(dt, dt + 30)
  }

  /** With MEETING_TIME at 30 the booked event is the window that was checked. */
  lemma BookedEventIsCheckedWindow(dt: int)
    ensures EventWindow(dt) == SlotOf(dt)
  {
  }

  // ---------------------------------------------------------------------------
  // The sheet row

  /** `append_to_google_sheet`: one cell per existing header, in header order. */
  method BuildSheetRow(existingHeaders: seq<string>, record: map<string, string>)
    returns (rowToAppend: seq<string>)
    ensures |rowToAppend| == |existingHeaders|
    ensures forall i :: 0 <= i < |existingHeaders| && existingHeaders[i] in record ==>
              rowToAppend[i] == record[existingHeaders[i]]
    ensures forall i :: 0 <= i < |existingHeaders| && existingHeaders[i] !in record ==>
              rowToAppend[i] == ""
  {
    rowToAppend := [];
    for i := 0 to |existingHeaders|
      invariant |rowToAppend| == i
      invariant forall k :: 0 <= k < i && existingHeaders[k] in record ==> rowToAppend[k] == record[existingHeaders[k]]
      invariant forall k :: 0 <= k < i && existingHeaders[k] !in record ==> rowToAppend[k] == ""
    {
      var header := existingHeaders[i];
      rowToAppend := rowToAppend + [if header in record then record[header] else ""];
    }
  }
}
