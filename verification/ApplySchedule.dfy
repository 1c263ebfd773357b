/** Weekly apply windows and freezes: when an apply is allowed, and when it next will be. */
module ApplySchedule {
  import opened Common
  import opened ChangeRequest

  const MINUTES_PER_DAY: int := 1440
  const MINUTES_PER_WEEK: int := 10080

  datatype Window = Window(dayOfWeek: int, startMinute: int, endMinute: int)

  predicate ValidWindow(w: Window) {
    0 <= w.dayOfWeek <= 6 && 0 <= w.startMinute < w.endMinute <= MINUTES_PER_DAY
  }

  datatype Freeze = Freeze(startsAt: int, endsAt: int, reason: string)

  /** Is `w` open at this point of the weekly clock? */
  predicate OpenAt(w: Window, day: int, minute: int) {
    w.dayOfWeek == day && w.startMinute <= minute < w.endMinute
  }

  predicate AnyOpenAt(windows: seq<Window>, day: int, minute: int) {
    exists w :: w in windows && OpenAt(w, day, minute)
  }

  predicate ValidClock(day: int, minute: int) { 0 <= day <= 6 && 0 <= minute < MINUTES_PER_DAY }

  function DayAfter(day: int, minute: int, t: int): int { ((day * MINUTES_PER_DAY + minute + t) / MINUTES_PER_DAY) % 7 }
  function MinuteAfter(minute: int, t: int): int { (minute + t) % MINUTES_PER_DAY }

  /** Minutes from (day, minute) to the next start of `w`, at least one and at most a week. */
  function MinutesUntil(w: Window, day: int, minute: int): int {
    var d := (w.dayOfWeek * MINUTES_PER_DAY + w.startMinute - day * MINUTES_PER_DAY - minute) % MINUTES_PER_WEEK;
    if d == 0 then MINUTES_PER_WEEK else d
  }

  // --- the search ----------------------------------------------------------

  predicate Candidate(w: Window, d: int, offset: int, minute: int) {
    w.dayOfWeek == d && (offset > 0 || w.startMinute > minute)
  }

  /** The scan finds nothing on the day `offset` days from now. */
  ghost predicate NothingOn(windows: seq<Window>, day: int, offset: int, minute: int) {
    forall w :: w in windows ==> !Candidate(w, (day + offset) % 7, offset, minute)
  }

  /** First of the candidates with the smallest start minute; `|windows|` when there is none. */
  method EarliestCandidate(windows: seq<Window>, d: int, offset: int, minute: int) returns (best: nat)
    ensures best <= |windows|
    ensures best == |windows| ==> forall w :: w in windows ==> !Candidate(w, d, offset, minute)
    ensures best < |windows| ==> Candidate(windows[best], d, offset, minute)
    ensures best < |windows| ==> forall w :: w in windows && Candidate(w, d, offset, minute) ==>
      windows[best].startMinute <= w.startMinute
  {
    best := |windows|;
    for i := 0 to |windows|
      invariant best == |windows| || best < i
      invariant best == |windows| ==> forall j :: 0 <= j < i ==> !Candidate(windows[j], d, offset, minute)
      invariant best < |windows| ==> Candidate(windows[best], d, offset, minute)
      invariant best < |windows| ==> forall j :: 0 <= j < i && Candidate(windows[j], d, offset, minute) ==>
        windows[best].startMinute <= windows[j].startMinute
    {
      if Candidate(windows[i], d, offset, minute)
         && (best == |windows| || windows[i].startMinute < windows[best].startMinute) {
        best := i;
      }
    }
  }

  /** The day offset, 0 to 7, at which the scan meets a window. */
  function OffsetOf(w: Window, day: int, minute: int): int {
    var o := (w.dayOfWeek - day) % 7;
    if o == 0 && w.startMinute <= minute then 7 else o
  }

  /** Distance is the day offset in minutes plus the difference of the minutes. */
  lemma {:induction false} DistanceByOffset(w: Window, day: int, minute: int)
    requires ValidWindow(w) && ValidClock(day, minute)
    ensures 0 <= OffsetOf(w, day, minute) <= 7
    ensures (day + OffsetOf(w, day, minute)) % 7 == w.dayOfWeek
    ensures MinutesUntil(w, day, minute) == OffsetOf(w, day, minute) * MINUTES_PER_DAY + w.startMinute - minute
  {
    var ahead := (w.dayOfWeek - day) * MINUTES_PER_DAY + w.startMinute - minute;
    assert -MINUTES_PER_WEEK < ahead < MINUTES_PER_WEEK;
    if ahead <= 0 {
      assert MinutesUntil(w, day, minute) == ahead + MINUTES_PER_WEEK;
    } else {
      assert MinutesUntil(w, day, minute) == ahead;
    }
  }

  lemma {:induction false} SomethingIsFound(windows: seq<Window>, day: int, minute: int)
    requires windows != [] && ValidClock(day, minute) && ValidWindow(windows[0])
    ensures exists o :: 0 <= o <= 7 && !NothingOn(windows, day, o, minute)
  {
    var o := OffsetOf(windows[0], day, minute);
    DistanceByOffset(windows[0], day, minute);
    assert Candidate(windows[0], (day + o) % 7, o, minute) && windows[0] in windows;
    assert !NothingOn(windows, day, o, minute);
  }

  /** A window's own offset is a candidate, so the scan does not get past it. */
  lemma {:induction false} NotSkipped(windows: seq<Window>, w: Window, day: int, minute: int, offset: int)
    requires ValidClock(day, minute) && ValidWindow(w) && w in windows && 0 <= offset
    requires forall o :: 0 <= o < offset ==> NothingOn(windows, day, o, minute)
    ensures offset <= OffsetOf(w, day, minute)
    ensures Candidate(w, (day + OffsetOf(w, day, minute)) % 7, OffsetOf(w, day, minute), minute)
  {
    DistanceByOffset(w, day, minute);
    var o := OffsetOf(w, day, minute);
    assert Candidate(w, (day + o) % 7, o, minute);
    assert !NothingOn(windows, day, o, minute);
  }

  lemma {:induction false} OneWeekApart(day: int, a: int, b: int)
    requires 0 <= a <= b <= 7 && (day + a) % 7 == (day + b) % 7
    ensures a == b || (a == 0 && b == 7)
  {
  }

  /** Met at an offset not beyond its own, it is met at its own. */
  lemma {:induction false} MetAtItsOffset(w: Window, day: int, minute: int, offset: int)
    requires ValidClock(day, minute) && ValidWindow(w) && 0 <= offset <= OffsetOf(w, day, minute)
    requires Candidate(w, (day + offset) % 7, offset, minute)
    ensures OffsetOf(w, day, minute) == offset
  {
    DistanceByOffset(w, day, minute);
    OneWeekApart(day, offset, OffsetOf(w, day, minute));
  }

  lemma {:induction false} NearerByOffset(v: Window, w: Window, day: int, minute: int)
    requires ValidClock(day, minute) && ValidWindow(v) && ValidWindow(w)
    requires OffsetOf(v, day, minute) < OffsetOf(w, day, minute)
          || (OffsetOf(v, day, minute) == OffsetOf(w, day, minute) && v.startMinute <= w.startMinute)
    ensures MinutesUntil(v, day, minute) <= MinutesUntil(w, day, minute)
  {
    DistanceByOffset(v, day, minute);
    DistanceByOffset(w, day, minute);
  }

  /** No window met on an earlier day, and the earliest one of its day: so the nearest of all. */
  lemma {:induction false} FirstFoundIsNearest(windows: seq<Window>, found: Window, w: Window, day: int, minute: int,
                                               offset: int)
    requires ValidClock(day, minute) && ValidWindow(found) && ValidWindow(w) && w in windows && 0 <= offset <= 7
    requires forall o :: 0 <= o < offset ==> NothingOn(windows, day, o, minute)
    requires found in windows && Candidate(found, (day + offset) % 7, offset, minute)
    requires Candidate(w, (day + offset) % 7, offset, minute) ==> found.startMinute <= w.startMinute
    ensures MinutesUntil(found, day, minute) <= MinutesUntil(w, day, minute)
  {
    NotSkipped(windows, found, day, minute, offset);
    NotSkipped(windows, w, day, minute, offset);
    MetAtItsOffset(found, day, minute, offset);
    NearerByOffset(found, w, day, minute);
  }

  /** Scans today and the seven days after it, and stops at the first day with a window still to come. */
  method FindNextWindow(windows: seq<Window>, day: int, minute: int) returns (next: Option<Window>)
    requires ValidClock(day, minute) && forall w :: w in windows ==> ValidWindow(w)
    ensures next.None? <==> windows == []
    ensures next.Some? ==> next.value in windows
    ensures next.Some? ==> 0 < MinutesUntil(next.value, day, minute) <= MINUTES_PER_WEEK
    ensures next.Some? ==> forall w :: w in windows ==>
      MinutesUntil(next.value, day, minute) <= MinutesUntil(w, day, minute)
  {
    var offset := 0;
    while offset <= 7
      invariant 0 <= offset <= 8
      invariant forall o :: 0 <= o < offset ==> NothingOn(windows, day, o, minute)
    {
      var d := (day + offset) % 7;
      var best := EarliestCandidate(windows, d, offset, minute);
      if best < |windows| {
        var found := windows[best];
        forall w | w in windows
          ensures MinutesUntil(found, day, minute) <= MinutesUntil(w, day, minute)
        {
          FirstFoundIsNearest(windows, found, w, day, minute, offset);
        }
        return Some(found);
      }
      offset := offset + 1;
    }
    if windows != [] {
      SomethingIsFound(windows, day, minute);
      assert false;
    }
    next := None;
  }

  /** The clock at a window's next start shows that window's day and start minute. */
  lemma {:induction false} ClockAt(w: Window, day: int, minute: int)
    requires ValidWindow(w) && ValidClock(day, minute)
    ensures var t := MinutesUntil(w, day, minute);
      DayAfter(day, minute, t) == w.dayOfWeek && MinuteAfter(minute, t) == w.startMinute
  {
    DistanceByOffset(w, day, minute);
    var o := OffsetOf(w, day, minute);
    var t := MinutesUntil(w, day, minute);
    assert day * MINUTES_PER_DAY + minute + t == (day + o) * MINUTES_PER_DAY + w.startMinute;
    assert minute + t == o * MINUTES_PER_DAY + w.startMinute;
  }

  /** The clock `t` minutes from now: `q` midnights later, at minute `m`. */
  lemma {:induction false} ClockSplit(day: int, minute: int, t: int) returns (q: int, m: int)
    requires ValidClock(day, minute) && 0 <= t < MINUTES_PER_WEEK
    ensures minute + t == q * MINUTES_PER_DAY + m && 0 <= m < MINUTES_PER_DAY && 0 <= q <= 7
    ensures DayAfter(day, minute, t) == (day + q) % 7 && MinuteAfter(minute, t) == m
  {
    q, m := (minute + t) / MINUTES_PER_DAY, (minute + t) % MINUTES_PER_DAY;
    assert day * MINUTES_PER_DAY + minute + t == (day + q) * MINUTES_PER_DAY + m;
    assert (day * MINUTES_PER_DAY + minute + t) / MINUTES_PER_DAY == day + q;
  }

  /** A window open `t` minutes from now is open now, or its next start is at most `t` minutes away. */
  lemma {:induction false} OpeningLiesBefore(w: Window, day: int, minute: int, t: int)
    requires ValidWindow(w) && ValidClock(day, minute) && 0 <= t < MINUTES_PER_WEEK
    requires OpenAt(w, DayAfter(day, minute, t), MinuteAfter(minute, t))
    ensures OpenAt(w, day, minute) || MinutesUntil(w, day, minute) <= t
  {
    var q, m := ClockSplit(day, minute, t);
    DistanceByOffset(w, day, minute);
    var o := OffsetOf(w, day, minute);
    if q < o {
      OneWeekApart(day, q, o);
    } else {
      OneWeekApart(day, o, q);
    }
  }

  /** No window is open from now until the nearest start, and at that start one is. */
  lemma {:induction false} ClosedUntilNextStart(windows: seq<Window>, next: Window, day: int, minute: int)
    requires ValidClock(day, minute) && forall w :: w in windows ==> ValidWindow(w)
    requires next in windows
    requires forall w :: w in windows ==> MinutesUntil(next, day, minute) <= MinutesUntil(w, day, minute)
    requires !AnyOpenAt(windows, day, minute)
    ensures forall t :: 0 <= t < MinutesUntil(next, day, minute) ==>
      !AnyOpenAt(windows, DayAfter(day, minute, t), MinuteAfter(minute, t))
    ensures var t := MinutesUntil(next, day, minute);
      AnyOpenAt(windows, DayAfter(day, minute, t), MinuteAfter(minute, t))
  {
    var dist := MinutesUntil(next, day, minute);
    forall t, w | 0 <= t < dist && w in windows
      ensures !OpenAt(w, DayAfter(day, minute, t), MinuteAfter(minute, t))
    {
      if OpenAt(w, DayAfter(day, minute, t), MinuteAfter(minute, t)) {
        OpeningLiesBefore(w, day, minute, t);
        assert false;
      }
    }
    ClockAt(next, day, minute);
    assert OpenAt(next, DayAfter(day, minute, dist), MinuteAfter(minute, dist));
  }

  // --- how long a window stays open ----------------------------------------

  /**
   * Counted from its start, a window is open for the minutes up to its end and for no other
   * minute of the week; one that ends at midnight closes with the day.
   */
  lemma {:induction false} OpenUntilEnd(w: Window, t: int)
    requires ValidWindow(w) && 0 <= t < MINUTES_PER_WEEK
    ensures OpenAt(w, DayAfter(w.dayOfWeek, w.startMinute, t), MinuteAfter(w.startMinute, t)) <==>
      t < w.endMinute - w.startMinute
  {
    var q, m := ClockSplit(w.dayOfWeek, w.startMinute, t);
    if (w.dayOfWeek + q) % 7 == w.dayOfWeek {
      OneWeekApart(w.dayOfWeek, 0, q);
    }
  }

  predicate Within(k: int, lo: int, hi: int) { lo <= k < hi }

  function Interval(lo: int, hi: int): set<int> {
    set k | lo <= k < hi && Within(k, lo, hi)
  }

  lemma {:induction false} IntervalSize(lo: int, hi: int)
    requires lo <= hi
    ensures |Interval(lo, hi)| == hi - lo
    decreases hi - lo
  {
    if lo == hi {
    } else {
      IntervalSize(lo, hi - 1);
      assert Interval(lo, hi) == Interval(lo, hi - 1) + {hi - 1};
    }
  }

  /** The minutes of the weekly clock at which `w` is open. */
  function OpenMinutes(w: Window): set<int> {
    set k | 0 <= k < MINUTES_PER_WEEK && OpenAt(w, k / MINUTES_PER_DAY, k % MINUTES_PER_DAY)
  }

  lemma {:induction false} DayOfMinute(w: Window, k: int)
    requires ValidWindow(w) && 0 <= k < MINUTES_PER_WEEK
    ensures OpenAt(w, k / MINUTES_PER_DAY, k % MINUTES_PER_DAY) <==>
      w.dayOfWeek * MINUTES_PER_DAY + w.startMinute <= k < w.dayOfWeek * MINUTES_PER_DAY + w.endMinute
  {
    assert k == k / MINUTES_PER_DAY * MINUTES_PER_DAY + k % MINUTES_PER_DAY;
  }

  /** Every week a window is open for exactly the minutes between its start and its end. */
  lemma {:induction false} OpenMinutesExact(w: Window)
    requires ValidWindow(w)
    ensures |OpenMinutes(w)| == w.endMinute - w.startMinute
  {
    var midnight := w.dayOfWeek * MINUTES_PER_DAY;
    forall k | 0 <= k < MINUTES_PER_WEEK
      ensures OpenAt(w, k / MINUTES_PER_DAY, k % MINUTES_PER_DAY) <==>
        midnight + w.startMinute <= k < midnight + w.endMinute
    {
      DayOfMinute(w, k);
    }
    assert OpenMinutes(w) == Interval(midnight + w.startMinute, midnight + w.endMinute);
    IntervalSize(midnight + w.startMinute, midnight + w.endMinute);
  }

  // --- the decision --------------------------------------------------------

  datatype ScheduleStatus =
    | Allowed
    | Frozen(freeze: Freeze)
    | OutOfWindow(nextWindow: Option<Window>)

  predicate FrozenAt(freezes: seq<Freeze>, now: int) {
    exists f :: f in freezes && f.startsAt <= now < f.endsAt
  }

  datatype ScheduleError = WindowStartAfterEnd | FreezeStartAfterEnd

  /** The stored windows and freezes of one environment. */
  class Schedule {
    var windows: seq<Window>
    var freezes: seq<Freeze>

    ghost predicate Valid()
      reads this
    {
      && (forall w :: w in windows ==> ValidWindow(w))
      && (forall f :: f in freezes ==> f.startsAt < f.endsAt)
    }

    constructor ()
      ensures Valid() && windows == [] && freezes == []
    {
      windows, freezes := [], [];
    }

    /** The body validator bounds each number on its own; the service checks start before end. */
    method CreateWindow(w: Window) returns (r: Option<ScheduleError>)
      requires Valid()
      requires 0 <= w.dayOfWeek <= 6 && 0 <= w.startMinute <= 1439 && 1 <= w.endMinute <= 1440
      modifies this`windows
      ensures Valid()
      ensures r.None? <==> w.startMinute < w.endMinute
      ensures windows == if r.None? then old(windows) + [w] else old(windows)
    {
      if w.startMinute >= w.endMinute {
        return Some(WindowStartAfterEnd);
      }
      windows := windows + [w];
      r := None;
    }

    method CreateFreeze(f: Freeze) returns (r: Option<ScheduleError>)
      requires Valid()
      modifies this`freezes
      ensures Valid()
      ensures r.None? <==> f.startsAt < f.endsAt
      ensures freezes == if r.None? then old(freezes) + [f] else old(freezes)
    {
      if !(f.startsAt < f.endsAt) {
        return Some(FreezeStartAfterEnd);
      }
      freezes := freezes + [f];
      r := None;
    }

    /** The active freeze that ends last, if any. */
    method ActiveFreeze(now: int) returns (r: Option<Freeze>)
      ensures r.Some? <==> FrozenAt(freezes, now)
      ensures r.Some? ==> r.value in freezes && r.value.startsAt <= now < r.value.endsAt
      ensures r.Some? ==> forall f :: f in freezes && f.startsAt <= now < f.endsAt ==> f.endsAt <= r.value.endsAt
    {
      r := None;
      for i := 0 to |freezes|
        invariant r.None? ==> forall j :: 0 <= j < i ==> !(freezes[j].startsAt <= now < freezes[j].endsAt)
        invariant r.Some? ==> r.value in freezes && r.value.startsAt <= now < r.value.endsAt
        invariant r.Some? ==> forall j :: 0 <= j < i && freezes[j].startsAt <= now < freezes[j].endsAt ==>
          freezes[j].endsAt <= r.value.endsAt
      {
        if freezes[i].startsAt <= now < freezes[i].endsAt && (r.None? || r.value.endsAt < freezes[i].endsAt) {
          r := Some(freezes[i]);
        }
      }
    }

    /**
     * Whether an apply may run now. Outside the windows the answer names the first
     * opening: the clock stays outside every window until exactly that start.
     */
    method CheckApplyAllowed(now: int, day: int, minute: int) returns (status: ScheduleStatus)
      requires Valid() && ValidClock(day, minute)
      ensures status == Allowed <==>
        && !(exists f :: f in freezes && f.startsAt <= now < f.endsAt)
        && (windows == []
            || exists w :: w in windows && w.dayOfWeek == day && w.startMinute <= minute < w.endMinute)
      ensures status.Frozen? <==> exists f :: f in freezes && f.startsAt <= now < f.endsAt
      ensures status.Frozen? ==> status.freeze in freezes && status.freeze.startsAt <= now < status.freeze.endsAt
      ensures status.Frozen? ==> forall f ::
        f in freezes && f.startsAt <= now < f.endsAt ==> f.endsAt <= status.freeze.endsAt
      ensures status.OutOfWindow? ==> status.nextWindow.Some? && status.nextWindow.value in windows
      ensures status.OutOfWindow? ==>
        var dist := MinutesUntil(status.nextWindow.value, day, minute);
        && 0 < dist <= MINUTES_PER_WEEK
        && (forall t :: 0 <= t < dist ==> !AnyOpenAt(windows, DayAfter(day, minute, t), MinuteAfter(minute, t)))
        && AnyOpenAt(windows, DayAfter(day, minute, dist), MinuteAfter(minute, dist))
    {
      var freeze := ActiveFreeze(now);
      if freeze.Some? {
        return Frozen(freeze.value);
      }
      if |windows| == 0 {
        return Allowed;
      }
      if exists w :: w in windows && w.dayOfWeek == day && w.startMinute <= minute && minute < w.endMinute {
        return Allowed;
      }
      var next := FindNextWindow(windows, day, minute);
      ClosedUntilNextStart(windows, next.value, day, minute);
      status := OutOfWindow(next);
    }
  }
}
