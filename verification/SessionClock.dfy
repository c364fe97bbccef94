/** What phase a session is in and which of its days a check-in belongs to
    (src/lib/session-status.ts:88-318).  An instant is a number of milliseconds, and `None` where
    the source's `parseInstant` returns null. */
module SessionClock {
  import opened Lists
  import opened Outcomes

  datatype State =
    | Draft | Submitted | InReview | ChangesRequested | Approved
    | Published | InProgress | Completed | Archived | Cancelled

  datatype Phase = DraftPhase | PendingSchedule | Open | Live | Ended | CancelledPhase

  datatype DayPhase = Upcoming | DayLive | DayEnded

  /** A day of a session.  `id` stands for the id's place in the order of `localeCompare`. */
  datatype Day = Day(id: int, startsAt: Option<int>, endsAt: Option<int>)

  datatype Session = Session(state: State, startsAt: Option<int>, endsAt: Option<int>, durationMinutes: Option<int>,
                             days: seq<Day>)

  const CHECK_IN_CEILING_MS := 8 * 3_600_000

  // ----- the source's functions -----

  function ScheduledEnd(session: Session): Option<int> {
    if session.endsAt.Some? then session.endsAt
    else if session.startsAt.Some? && session.durationMinutes.Some? && session.durationMinutes.value != 0
    then Some(session.startsAt.value + session.durationMinutes.value * 60_000)
    else None
  }

  predicate Passed(instant: Option<int>, now: int) {
    instant.Some? && instant.value <= now
  }

  function DayPhaseAt(day: Day, now: int): DayPhase {
    if !Passed(day.startsAt, now) then Upcoming
    else if Passed(day.endsAt, now) then DayEnded
    else DayLive
  }

  function At(day: Day): int {
    if day.startsAt.Some? then day.startsAt.value else 0
  }

  predicate Before(a: Day, b: Day) {
    At(a) < At(b) || (At(a) == At(b) && a.id < b.id)
  }

  function Insert(day: Day, ordered: seq<Day>): seq<Day> {
    if ordered == [] || !Before(ordered[0], day) then [day] + ordered else [ordered[0]] + Insert(day, ordered[1..])
  }

  /** A stable sort by instant, then by id. */
  function Chronological(days: seq<Day>): seq<Day> {
    if days == [] then [] else Insert(days[0], Chronological(days[1..]))
  }

  /** `now` is after day `i` of the ordered days and before the next. */
  predicate GapAfter(ordered: seq<Day>, i: nat, now: int)
    requires i + 1 < |ordered|
  {
    Passed(ordered[i].endsAt, now) && ordered[i + 1].startsAt.Some? && now < ordered[i + 1].startsAt.value
  }

  predicate InGap(ordered: seq<Day>, now: int) {
    exists i :: 0 <= i < |ordered| - 1 && GapAfter(ordered, i, now)
  }

  method BetweenDays(days: seq<Day>, now: int) returns (r: bool)
    ensures r == InGap(Chronological(days), now)
  {
    var ordered := Chronological(days);
    var i := 0;
    while i + 1 < |ordered|
      invariant forall k :: 0 <= k < i && k + 1 < |ordered| ==> !GapAfter(ordered, k, now)
    {
      if GapAfter(ordered, i, now) {
        return true;
      }
      i := i + 1;
    }
    return false;
  }

  function SessionPhase(session: Session, now: int): Phase {
    match session.state
    case Cancelled => CancelledPhase
    case Completed => Ended
    case Archived => Ended
    case Draft => DraftPhase
    case Submitted => DraftPhase
    case InReview => DraftPhase
    case ChangesRequested => DraftPhase
    case Approved => PendingSchedule
    case InProgress =>
      if Passed(ScheduledEnd(session), now) then Ended
      else if InGap(Chronological(session.days), now) then Open else Live
    case Published =>
      if session.startsAt.None? then Open
      else if Passed(ScheduledEnd(session), now) then Ended
      else if Passed(session.startsAt, now) then (if InGap(Chronological(session.days), now) then Open else Live)
      else Open
  }

  function CheckInCeiling(ordered: seq<Day>, i: nat): Option<int> {
    if i >= |ordered| || ordered[i].endsAt.None? then None
    else
      var grace := ordered[i].endsAt.value + CHECK_IN_CEILING_MS;
      if i + 1 < |ordered| && ordered[i + 1].startsAt.Some? && ordered[i + 1].startsAt.value < grace
      then ordered[i + 1].startsAt else Some(grace)
  }

  /** Day `i` is taking attendance. */
  predicate Taking(ordered: seq<Day>, now: int, i: nat)
    requires i < |ordered|
  {
    Passed(ordered[i].startsAt, now) && CheckInCeiling(ordered, i).Some? && now < CheckInCeiling(ordered, i).value
  }

  /** The last of the first `n` days that is taking attendance. */
  function LastTaking(ordered: seq<Day>, now: int, n: nat): Option<Day>
    requires n <= |ordered|
  {
    if n == 0 then None else if Taking(ordered, now, n - 1) then Some(ordered[n - 1]) else LastTaking(ordered, now, n - 1)
  }

  function CheckInDay(days: seq<Day>, now: int): Option<Day> {
    LastTaking(Chronological(days), now, |Chronological(days)|)
  }

  function LastBegun(ordered: seq<Day>, now: int, n: nat): Option<Day>
    requires n <= |ordered|
  {
    if n == 0 then None else if Passed(ordered[n - 1].startsAt, now) then Some(ordered[n - 1]) else LastBegun(ordered, now, n - 1)
  }

  function ResolveDay(days: seq<Day>, now: int): Option<Day> {
    var taking := CheckInDay(days, now);
    var ordered := Chronological(days);
    var begun := LastBegun(ordered, now, |ordered|);
    if taking.Some? then taking
    else if begun.Some? then begun
    else if ordered != [] then Some(ordered[0]) else None
  }

  // ----- the order of the days -----

  ghost predicate Sorted(s: seq<Day>) {
    forall i, j :: 0 <= i < j < |s| ==> !Before(s[j], s[i])
  }

  lemma {:induction false} InsertKeeps(day: Day, s: seq<Day>)
    ensures multiset(Insert(day, s)) == multiset(s) + multiset{day}
  {
    if s == [] {
    } else {
      InsertKeeps(day, s[1..]);
      assert s == [s[0]] + s[1..];
    }
  }

  lemma {:induction false} InsertSorted(day: Day, s: seq<Day>)
    requires Sorted(s)
    ensures Sorted(Insert(day, s))
  {
    if s == [] {
    } else {
      var rest := s[1..];
      assert s == [s[0]] + rest;
      if Before(s[0], day) {
        InsertSorted(day, rest);
        InsertKeeps(day, rest);
        forall d | d in Insert(day, rest) ensures !Before(d, s[0]) {
          assert d in multiset(Insert(day, rest));
          if d != day {
            var k :| 0 <= k < |rest| && rest[k] == d;
            assert !Before(s[k + 1], s[0]);
          }
        }
        SortedCons(s[0], Insert(day, rest));
      } else {
        forall d | d in s ensures !Before(d, day) {
          var k :| 0 <= k < |s| && s[k] == d;
          assert k > 0 ==> !Before(s[k], s[0]);
        }
        SortedCons(day, s);
      }
    }
  }

  lemma SortedCons(day: Day, s: seq<Day>)
    requires Sorted(s) && forall d :: d in s ==> !Before(d, day)
    ensures Sorted([day] + s)
  {
    assert forall k :: 0 <= k < |s| ==> s[k] in s;
  }

  /** The ordered days are the days, in order. */
  lemma {:induction false} ChronologicalSorts(days: seq<Day>)
    ensures Sorted(Chronological(days)) && multiset(Chronological(days)) == multiset(days)
    ensures |Chronological(days)| == |days| && forall d :: d in Chronological(days) <==> d in days
  {
    if days == [] {
    } else {
      var rest := Chronological(days[1..]);
      ChronologicalSorts(days[1..]);
      InsertSorted(days[0], rest);
      InsertKeeps(days[0], rest);
      assert days == [days[0]] + days[1..];
    }
    SameMembers(Chronological(days), days);
  }

  /** ... that is, by the instant they start at, one without such an instant as if at 0, and then by id. */
  lemma ChronologicalOrder(days: seq<Day>, i: nat, j: nat)
    requires i < j < |days|
    ensures |Chronological(days)| == |days|
    ensures var d, e := Chronological(days)[i], Chronological(days)[j];
      var s, t := if d.startsAt == None then 0 else d.startsAt.value, if e.startsAt == None then 0 else e.startsAt.value;
      s < t || (s == t && d.id <= e.id)
  {
    ChronologicalSorts(days);
    assert !Before(Chronological(days)[j], Chronological(days)[i]);
    hide Chronological;
  }

  ghost predicate DistinctIds(days: seq<Day>) {
    forall d, e :: d in days && e in days && d.id == e.id ==> d == e
  }

  lemma SameHead(a: seq<Day>, b: seq<Day>)
    requires Sorted(a) && Sorted(b) && a != [] && b != [] && DistinctIds(a) && forall d :: d in a <==> d in b
    ensures a[0] == b[0]
  {
    assert a[0] in a && b[0] in b;
    var i :| 0 <= i < |b| && b[i] == a[0];
    var j :| 0 <= j < |a| && a[j] == b[0];
    assert !Before(a[0], b[0]) && !Before(b[0], a[0]) by {
      assert i > 0 ==> !Before(b[i], b[0]);
      assert j > 0 ==> !Before(a[j], a[0]);
    }
  }

  lemma {:induction false} SortedUnique(a: seq<Day>, b: seq<Day>)
    requires Sorted(a) && Sorted(b) && multiset(a) == multiset(b) && DistinctIds(a)
    ensures a == b
  {
    hide Before;
    SameMembers(a, b);
    if a == [] {
    } else {
      SameHead(a, b);
      SameTail(a, b);
      assert forall d :: d in a[1..] ==> d in a;
      SortedUnique(a[1..], b[1..]);
      assert a == [a[0]] + a[1..] && b == [b[0]] + b[1..];
    }
  }

  /** Which day is resolved, and which takes attendance, does not depend on the list's order. */
  lemma OrderIsIrrelevant(a: seq<Day>, b: seq<Day>, now: int)
    requires multiset(a) == multiset(b) && DistinctIds(a)
    ensures CheckInDay(a, now) == CheckInDay(b, now) && ResolveDay(a, now) == ResolveDay(b, now)
  {
    ChronologicalSorts(a);
    ChronologicalSorts(b);
    SortedUnique(Chronological(a), Chronological(b));
  }

  // ----- one check-in day at a time -----

  ghost predicate Parseable(days: seq<Day>) {
    forall d :: d in days ==> d.startsAt.Some? && d.endsAt.Some?
  }

  /** The capped windows of different days never overlap. */
  lemma WindowsDisjoint(days: seq<Day>, now: int, i: nat, j: nat)
    requires Parseable(days) && i < |days| && j < |days|
    requires |Chronological(days)| == |days| && Taking(Chronological(days), now, i) && Taking(Chronological(days), now, j)
    ensures i == j
  {
    ChronologicalSorts(days);
    TakingIsLastBegun(Chronological(days), now, i);
    TakingIsLastBegun(Chronological(days), now, j);
  }

  /** When day `i` takes attendance, it has begun and no later day has. */
  lemma TakingIsLastBegun(ordered: seq<Day>, now: int, i: nat)
    requires Sorted(ordered) && Parseable(ordered) && i < |ordered| && Taking(ordered, now, i)
    ensures Passed(ordered[i].startsAt, now)
    ensures forall j :: i < j < |ordered| ==> !Passed(ordered[j].startsAt, now)
  {
    forall j | i < j < |ordered| ensures !Passed(ordered[j].startsAt, now) {
      assert ordered[i + 1] in ordered && ordered[j] in ordered;
      assert j == i + 1 || !Before(ordered[j], ordered[i + 1]);
    }
  }

  lemma {:induction false} LastTakingIs(ordered: seq<Day>, now: int, n: nat)
    requires n <= |ordered|
    ensures LastTaking(ordered, now, n).None? ==> forall i :: 0 <= i < n ==> !Taking(ordered, now, i)
    ensures LastTaking(ordered, now, n).Some? ==>
              exists i :: 0 <= i < n && Taking(ordered, now, i) && ordered[i] == LastTaking(ordered, now, n).value
  {
    if n == 0 {
    } else {
      LastTakingIs(ordered, now, n - 1);
    }
  }

  lemma {:induction false} LastBegunIs(ordered: seq<Day>, now: int, n: nat, i: nat)
    requires i < n <= |ordered| && Passed(ordered[i].startsAt, now)
    requires forall j :: i < j < n ==> !Passed(ordered[j].startsAt, now)
    ensures LastBegun(ordered, now, n) == Some(ordered[i])
  {
    if i == n - 1 {
    } else {
      LastBegunIs(ordered, now, n - 1, i);
    }
  }

  lemma {:induction false} LastBegunNone(ordered: seq<Day>, now: int, n: nat)
    requires n <= |ordered| && forall j :: 0 <= j < n ==> !Passed(ordered[j].startsAt, now)
    ensures LastBegun(ordered, now, n) == None
  {
    if n == 0 {
    } else {
      LastBegunNone(ordered, now, n - 1);
    }
  }

  /** What a member would call the session's day at `now`: the latest that has begun, or the first if none
      has; of two that start together the one whose id comes last is the later. */
  ghost predicate IsCurrentDay(days: seq<Day>, now: int, d: Day)
    requires Parseable(days)
  {
    && d in days
    && if exists e :: e in days && e.startsAt.value <= now
       then d.startsAt.value <= now && forall e :: e in days && e.startsAt.value <= now ==> NotAfter(e, d)
       else forall e :: e in days ==> NotAfter(d, e)
  }

  predicate NotAfter(d: Day, e: Day)
    requires d.startsAt.Some? && e.startsAt.Some?
  {
    d.startsAt.value < e.startsAt.value || (d.startsAt.value == e.startsAt.value && d.id <= e.id)
  }

  /** The day that takes attendance, if any, is the latest that has begun, so looking for it
      first changes nothing. */
  lemma ResolveIsLastBegun(days: seq<Day>, now: int)
    requires Parseable(days)
    ensures var ordered := Chronological(days);
            var begun := LastBegun(ordered, now, |ordered|);
            ResolveDay(days, now) == if begun.Some? then begun else if ordered != [] then Some(ordered[0]) else None
  {
    var ordered := Chronological(days);
    ChronologicalSorts(days);
    LastTakingIs(ordered, now, |ordered|);
    if CheckInDay(days, now).Some? {
      var i :| 0 <= i < |ordered| && Taking(ordered, now, i) && ordered[i] == CheckInDay(days, now).value;
      TakingIsLastBegun(ordered, now, i);
      LastBegunIs(ordered, now, |ordered|, i);
    }
  }

  /** A day is resolved for every nonempty list, and it is the current day. */
  lemma ResolveDayIsCurrent(days: seq<Day>, now: int)
    requires Parseable(days)
    ensures ResolveDay(days, now).None? <==> days == []
    ensures days != [] ==> IsCurrentDay(days, now, ResolveDay(days, now).value)
  {
    var ordered := Chronological(days);
    ChronologicalSorts(days);
    ResolveIsLastBegun(days, now);
    var i := FindBegun(ordered, now, |ordered|);
    if i == -1 {
      LastBegunNone(ordered, now, |ordered|);
      hide Chronological, ResolveDay, LastBegun, FindBegun;
      if days != [] {
        assert days[0] in ordered;
        FirstIsCurrent(days, ordered, now);
      }
    } else {
      LastBegunIs(ordered, now, |ordered|, i);
      hide Chronological, ResolveDay, LastBegun, FindBegun;
      LatestIsCurrent(days, ordered, now, i);
    }
  }

  lemma FirstIsCurrent(days: seq<Day>, ordered: seq<Day>, now: int)
    requires Parseable(days) && Sorted(ordered) && ordered != [] && forall d :: d in ordered <==> d in days
    requires forall i :: 0 <= i < |ordered| ==> !Passed(ordered[i].startsAt, now)
    ensures IsCurrentDay(days, now, ordered[0])
  {
    assert ordered[0] in days;
    forall e | e in days ensures now < e.startsAt.value && NotAfter(ordered[0], e) {
      var k :| 0 <= k < |ordered| && ordered[k] == e;
      assert !Before(e, ordered[0]);
    }
  }

  lemma LatestIsCurrent(days: seq<Day>, ordered: seq<Day>, now: int, i: nat)
    requires Parseable(days) && Sorted(ordered) && i < |ordered| && forall d :: d in ordered <==> d in days
    requires Passed(ordered[i].startsAt, now) && forall j :: i < j < |ordered| ==> !Passed(ordered[j].startsAt, now)
    ensures IsCurrentDay(days, now, ordered[i])
  {
    assert ordered[i] in days && ordered[i].startsAt.value <= now;
    forall e | e in days && e.startsAt.value <= now ensures NotAfter(e, ordered[i]) {
      var k :| 0 <= k < |ordered| && ordered[k] == e;
      assert !Before(ordered[i], e);
    }
  }

  /** The index of the last begun day among the first `n`, or -1. */
  function FindBegun(ordered: seq<Day>, now: int, n: nat): (i: int)
    requires n <= |ordered|
    ensures -1 <= i < n && (i >= 0 ==> Passed(ordered[i].startsAt, now))
    ensures forall j :: i < j < n ==> !Passed(ordered[j].startsAt, now)
  {
    if n == 0 then -1 else if Passed(ordered[n - 1].startsAt, now) then n - 1 else FindBegun(ordered, now, n - 1)
  }

  /** As time passes the resolved day never moves back. */
  lemma ResolveDayAdvances(days: seq<Day>, now: int, later: int)
    requires Parseable(days) && days != [] && now <= later
    ensures ResolveDay(days, now).Some? && ResolveDay(days, later).Some?
    ensures ResolveDay(days, now).value in days && ResolveDay(days, later).value in days
    ensures NotAfter(ResolveDay(days, now).value, ResolveDay(days, later).value)
  {
    ResolveDayIsCurrent(days, now);
    ResolveDayIsCurrent(days, later);
  }

  /** A day takes attendance exactly while it is the latest begun and its end is less than eight
      hours past. */
  lemma CheckInDayIs(days: seq<Day>, now: int)
    requires Parseable(days)
    ensures CheckInDay(days, now) ==
            var d := ResolveDay(days, now);
            if d.Some? && d.value.startsAt.Some? && d.value.endsAt.Some?
               && d.value.startsAt.value <= now < d.value.endsAt.value + 28_800_000
            then d else None
  {
    var ordered := Chronological(days);
    ChronologicalSorts(days);
    ResolveIsLastBegun(days, now);
    LastTakingIs(ordered, now, |ordered|);
    var i := FindBegun(ordered, now, |ordered|);
    var c := CheckInDay(days, now);
    if i == -1 {
      LastBegunNone(ordered, now, |ordered|);
      assert c == None;
    } else {
      LastBegunIs(ordered, now, |ordered|, i);
      TakingWhen(ordered, now, i);
      if c.Some? {
        var k :| 0 <= k < |ordered| && Taking(ordered, now, k) && ordered[k] == c.value;
        TakingIsLastBegun(ordered, now, k);
        assert k == i;
      }
    }
  }

  lemma TakingWhen(ordered: seq<Day>, now: int, i: nat)
    requires Parseable(ordered) && i < |ordered| && Passed(ordered[i].startsAt, now)
    requires forall j :: i < j < |ordered| ==> !Passed(ordered[j].startsAt, now)
    ensures ordered[i].endsAt.Some? && (Taking(ordered, now, i) <==> now < ordered[i].endsAt.value + CHECK_IN_CEILING_MS)
  {
    assert ordered[i] in ordered;
    if i + 1 < |ordered| {
      assert ordered[i + 1] in ordered && !Passed(ordered[i + 1].startsAt, now);
    }
  }

  // ----- the cheap phase agrees with the days -----

  ghost predicate ProperDays(days: seq<Day>) {
    days != [] && Parseable(days) && forall d :: d in days ==> d.startsAt.value < d.endsAt.value
  }

  /** The stored window runs from the first start to the last end. */
  ghost predicate StoredWindow(session: Session)
    requires Parseable(session.days)
  {
    && session.startsAt.Some? && session.endsAt.Some?
    && (exists d :: d in session.days && d.startsAt == session.startsAt)
    && (exists d :: d in session.days && d.endsAt == session.endsAt)
    && forall d :: d in session.days ==> session.startsAt.value <= d.startsAt.value && d.endsAt.value <= session.endsAt.value
  }

  /** The obvious reading of the days: live while some day is, ended once all are. */
  ghost predicate AgreesWithDays(session: Session, now: int) {
    && (SessionPhase(session, now) == Live <==> exists d :: d in session.days && DayPhaseAt(d, now) == DayLive)
    && (SessionPhase(session, now) == Ended <==> forall d :: d in session.days ==> DayPhaseAt(d, now) == DayEnded)
    && (SessionPhase(session, now) in {Live, Ended, Open})
  }

  /** Day `j` runs on past the end of a later day `i` that is followed by a gap. */
  ghost predicate Straddles(ordered: seq<Day>, j: int, i: int)
    requires Parseable(ordered)
  {
    && 0 <= j < i < |ordered| - 1
    && ordered[i] in ordered && ordered[j] in ordered && ordered[i + 1] in ordered
    && ordered[i].endsAt.value < ordered[i + 1].startsAt.value
    && ordered[i].endsAt.value < ordered[j].endsAt.value
  }

  lemma PhaseInWindow(session: Session, now: int)
    requires session.state == Published && ProperDays(session.days) && StoredWindow(session)
    ensures SessionPhase(session, now) ==
            if session.endsAt.value <= now then Ended
            else if now < session.startsAt.value || InGap(Chronological(session.days), now) then Open
            else Live
  {}

  /** Outside the stored window the days agree with it. */
  lemma OutsideWindow(session: Session, now: int)
    requires session.state == Published && ProperDays(session.days) && StoredWindow(session)
    requires now < session.startsAt.value || session.endsAt.value <= now
    ensures AgreesWithDays(session, now)
  {
    PhaseInWindow(session, now);
    hide SessionPhase;
    var d :| d in session.days && d.startsAt == session.startsAt;
    if session.endsAt.value <= now {
      forall e | e in session.days ensures DayPhaseAt(e, now) == DayEnded {}
    } else {
      forall e | e in session.days ensures DayPhaseAt(e, now) == Upcoming {}
      assert DayPhaseAt(d, now) == Upcoming;
    }
  }

  /** In a gap that no day straddles, no day is live. */
  lemma GapIsQuiet(ordered: seq<Day>, now: int, i: nat)
    requires Sorted(ordered) && ProperDays(ordered) && i + 1 < |ordered| && GapAfter(ordered, i, now)
    requires forall j, k :: !Straddles(ordered, j, k)
    ensures forall d :: d in ordered ==> DayPhaseAt(d, now) != DayLive
  {
    forall d | d in ordered ensures DayPhaseAt(d, now) != DayLive {
      var k :| 0 <= k < |ordered| && ordered[k] == d;
      assert ordered[i] in ordered && ordered[i + 1] in ordered;
      if k < i {
        assert !Straddles(ordered, k, i);
      } else if k > i + 1 {
        assert !Before(ordered[k], ordered[i + 1]);
      }
    }
  }

  /** Out of any gap, some day is live. */
  lemma NoGapMeansLive(session: Session, now: int)
    requires ProperDays(session.days) && StoredWindow(session)
    requires session.startsAt.value <= now < session.endsAt.value && !InGap(Chronological(session.days), now)
    ensures exists d :: d in session.days && DayPhaseAt(d, now) == DayLive
  {
    hide Chronological;
    var ordered := Chronological(session.days);
    ChronologicalSorts(session.days);
    var i := FindBegun(ordered, now, |ordered|);
    var first :| first in session.days && first.startsAt == session.startsAt;
    var f :| 0 <= f < |ordered| && ordered[f] == first;
    assert i >= f;
    if i + 1 < |ordered| {
      assert !GapAfter(ordered, i, now);
      assert ordered[i] in session.days && ordered[i + 1] in session.days;
      assert DayPhaseAt(ordered[i], now) == DayLive;
    } else {
      var last :| last in session.days && last.endsAt == session.endsAt;
      var k :| 0 <= k < |ordered| && ordered[k] == last;
      assert k == i || !Before(ordered[i], ordered[k]);
      assert ordered[i] in session.days;
      assert DayPhaseAt(last, now) == DayLive;
    }
  }

  /** A published session's phase agrees with its days at every instant exactly when no day
      straddles a gap. */
  lemma PhaseAgreesIff(session: Session)
    requires session.state == Published && ProperDays(session.days) && StoredWindow(session)
    ensures Parseable(Chronological(session.days))
    ensures (forall now :: AgreesWithDays(session, now)) <==> (forall j, i :: !Straddles(Chronological(session.days), j, i))
  {
    var ordered := Chronological(session.days);
    ChronologicalSorts(session.days);
    if forall j, i :: !Straddles(ordered, j, i) {
      forall now ensures AgreesWithDays(session, now) {
        InsideAndOut(session, now);
      }
    } else {
      var j, i :| Straddles(ordered, j, i);
      StraddlingDisagrees(session, j, i);
    }
  }

  lemma InsideAndOut(session: Session, now: int)
    requires session.state == Published && ProperDays(session.days) && StoredWindow(session)
    requires Parseable(Chronological(session.days)) && forall j, i :: !Straddles(Chronological(session.days), j, i)
    ensures AgreesWithDays(session, now)
  {
    var ordered := Chronological(session.days);
    if now < session.startsAt.value || session.endsAt.value <= now {
      OutsideWindow(session, now);
    } else {
      PhaseInWindow(session, now);
      ChronologicalSorts(session.days);
      var last :| last in session.days && last.endsAt == session.endsAt;
      assert DayPhaseAt(last, now) != DayEnded;
      if InGap(ordered, now) {
        var i :| 0 <= i < |ordered| - 1 && GapAfter(ordered, i, now);
        GapIsQuiet(ordered, now, i);
      } else {
        NoGapMeansLive(session, now);
      }
    }
  }

  lemma StraddlingDisagrees(session: Session, j: int, i: int)
    requires session.state == Published && ProperDays(session.days) && StoredWindow(session)
    requires Parseable(Chronological(session.days)) && Straddles(Chronological(session.days), j, i)
    ensures exists now :: !AgreesWithDays(session, now)
  {
    var ordered := Chronological(session.days);
    ChronologicalSorts(session.days);
    var now := ordered[i].endsAt.value;
    PhaseInWindow(session, now);
    assert ordered[i] in session.days && ordered[j] in session.days && ordered[i + 1] in session.days;
    assert !Before(ordered[i], ordered[j]);
    assert GapAfter(ordered, i, now);
    assert DayPhaseAt(ordered[j], now) == DayLive;
    assert !AgreesWithDays(session, now);
  }

  ghost predicate Disjoint(days: seq<Day>) {
    forall d, e :: d in days && e in days && d != e ==> Apart(d, e)
  }

  ghost predicate Apart(d: Day, e: Day) {
    d.startsAt.Some? && d.endsAt.Some? && e.startsAt.Some? && e.endsAt.Some?
    && (d.endsAt.value <= e.startsAt.value || e.endsAt.value <= d.startsAt.value)
  }

  lemma DisjointNeverStraddle(ordered: seq<Day>, j: int, i: int)
    requires ProperDays(ordered) && Sorted(ordered) && Disjoint(ordered)
    ensures !Straddles(ordered, j, i)
  {
    if 0 <= j < i < |ordered| {
      var d, e := ordered[j], ordered[i];
      assert d in ordered && e in ordered && (d == e || Apart(d, e)) && !Before(e, d);
    }
  }

  /** Disjoint days never straddle a gap, so for them the phase is right at every instant. */
  lemma DisjointDaysAgree(session: Session, now: int)
    requires session.state == Published && ProperDays(session.days) && StoredWindow(session) && Disjoint(session.days)
    ensures AgreesWithDays(session, now)
  {
    var ordered := Chronological(session.days);
    ChronologicalSorts(session.days);
    forall j, i ensures !Straddles(ordered, j, i) {
      DisjointNeverStraddle(ordered, j, i);
    }
    InsideAndOut(session, now);
  }

  /** A day runs from its start up to its end, or for good if it has no end; without a start it never does. */
  lemma DayPhaseIs(day: Day, now: int)
    ensures DayPhaseAt(day, now) == Upcoming <==> day.startsAt.None? || now < day.startsAt.value
    ensures DayPhaseAt(day, now) == DayLive <==>
      day.startsAt.Some? && day.startsAt.value <= now && (day.endsAt.Some? ==> now < day.endsAt.value)
    ensures DayPhaseAt(day, now) == DayEnded <==>
      day.startsAt.Some? && day.endsAt.Some? && day.startsAt.value <= now && day.endsAt.value <= now
  {
  }

  /** Which states the clock plays a part in, and what the others read as at every instant. */
  lemma ClockMattersTo(session: Session, now: int)
    ensures SessionPhase(session, now) == DraftPhase <==>
      session.state == Draft || session.state == Submitted || session.state == InReview || session.state == ChangesRequested
    ensures SessionPhase(session, now) == PendingSchedule <==> session.state == Approved
    ensures SessionPhase(session, now) == CancelledPhase <==> session.state == Cancelled
    ensures session.state == Completed || session.state == Archived ==> SessionPhase(session, now) == Ended
    ensures session.state == Published || session.state == InProgress ==> SessionPhase(session, now) in {Open, Live, Ended}
  {
  }

  /** When a published or running session ends: at its end or, without one, its duration after its start, in
      minutes; with neither it never does.  A published one that has no start only waits. */
  lemma EndsWhen(session: Session, now: int)
    requires session.state == InProgress || (session.state == Published && session.startsAt.Some?)
    ensures SessionPhase(session, now) == Ended <==>
      if session.endsAt.Some? then session.endsAt.value <= now
      else session.startsAt.Some? && session.durationMinutes.Some? && session.durationMinutes.value != 0
           && session.startsAt.value + 60_000 * session.durationMinutes.value <= now
  {
  }

  lemma NoStartStaysOpen(session: Session, now: int)
    requires session.state == Published
    ensures session.startsAt.None? ==> SessionPhase(session, now) == Open
    ensures session.startsAt.Some? && now < session.startsAt.value ==> SessionPhase(session, now) in {Open, Ended}
    ensures SessionPhase(session, now) == Live ==> session.startsAt.Some? && session.startsAt.value <= now
  {
  }

  /** From its first start on, a session reads the same whether or not the row has been moved
      from published to in progress. */
  lemma StaleRowReadsTheSame(session: Session, now: int)
    requires session.startsAt.Some? && session.startsAt.value <= now
    ensures SessionPhase(session.(state := InProgress), now) == SessionPhase(session.(state := Published), now)
  {}

  /** Once ended, a session stays ended, in every state and with any days. */
  lemma EndedIsAbsorbing(session: Session, now: int, later: int)
    requires SessionPhase(session, now) == Ended && now <= later
    ensures SessionPhase(session, later) == Ended
  {}
}
