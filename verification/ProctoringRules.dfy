/** Proctoring events: severity by type and duration, and clamping of reported times to the interview. */
module ProctoringRules {
  import opened Extended

  datatype EventType =
    | PROCTORING_STARTED | PROCTORING_STOPPED | TAB_HIDDEN | TAB_RETURNED | WINDOW_BLUR | FACE_NOT_DETECTED
    | MULTIPLE_FACES_DETECTED | CAMERA_PERMISSION_DENIED | CAMERA_INTERRUPTED | NETWORK_INTERRUPTED

  datatype Severity = INFO | LOW | MEDIUM | HIGH

  /** A time in milliseconds, or a text that is none. */
  datatype Instant = At(ms: int) | Unreadable

  /** An event as the client reports it. */
  datatype Event = Event(id: string, kind: EventType, startedAt: Instant, endedAt: Option<Instant>, closes: Option<string>)

  // ------------------------------------------------------------ severity

  function Thresholds(ms: int, low: int, medium: int, high: int): Severity {
    if ms >= high then HIGH else if ms >= medium then MEDIUM else if ms >= low then LOW else INFO
  }

  function ComputeSeverity(kind: EventType, durationMs: Option<int>): Severity {
    var d := if durationMs.Some? then durationMs.value else 0;
    match kind
    case TAB_HIDDEN => Thresholds(d, 2000, 15_000, 60_000)
    case FACE_NOT_DETECTED => Thresholds(d, 10_000, 30_000, 120_000)
    case MULTIPLE_FACES_DETECTED => Thresholds(d, 0, 10_000, 30_000)
    case CAMERA_INTERRUPTED => Thresholds(d, 0, 30_000, 120_000)
    case CAMERA_PERMISSION_DENIED => LOW
    // There is no duration at which a network interruption is HIGH.
    case NETWORK_INTERRUPTED => if d >= 120_000 then MEDIUM else if d >= 30_000 then LOW else INFO
    case _ => INFO
  }

  /** The level rises to LOW, MEDIUM and HIGH exactly at the three durations. */
  predicate Graded(s: Severity, d: int, low: int, medium: int, high: int) {
    (s == INFO <==> d < low) && (s == LOW <==> low <= d < medium) &&
    (s == MEDIUM <==> medium <= d < high) && (s == HIGH <==> high <= d)
  }

  /** Whether an event of the type that lasted d milliseconds deserves the severity. */
  predicate Deserves(kind: EventType, d: int, s: Severity) {
    (kind == TAB_HIDDEN ==> Graded(s, d, 2_000, 15_000, 60_000)) &&
    (kind == FACE_NOT_DETECTED ==> Graded(s, d, 10_000, 30_000, 120_000)) &&
    (kind == MULTIPLE_FACES_DETECTED ==> Graded(s, d, 0, 10_000, 30_000)) &&
    (kind == CAMERA_INTERRUPTED ==> Graded(s, d, 0, 30_000, 120_000)) &&
    (kind == CAMERA_PERMISSION_DENIED ==> s == LOW) &&
    (kind == NETWORK_INTERRUPTED ==>
      s != HIGH && (s == INFO <==> d < 30_000) && (s == MEDIUM <==> 120_000 <= d)) &&
    (kind in {PROCTORING_STARTED, PROCTORING_STOPPED, TAB_RETURNED, WINDOW_BLUR} ==> s == INFO)
  }

  /** For every type, the exact durations at which the level rises; an event without duration is judged like one of
      duration 0. */
  lemma SeverityExactlyWhen(kind: EventType, d: int, s: Severity)
    ensures ComputeSeverity(kind, Some(d)) == s <==> Deserves(kind, d, s)
    ensures ComputeSeverity(kind, None) == s <==> Deserves(kind, 0, s)
  {
  }

  /** A longer interval is never judged more leniently. */
  lemma LongerIsNotMilder(kind: EventType, d: int, e: int)
    requires d <= e
    ensures var short, long := ComputeSeverity(kind, Some(d)), ComputeSeverity(kind, Some(e));
      (short == HIGH ==> long == HIGH) && (short == MEDIUM ==> long == MEDIUM || long == HIGH) &&
      (short == LOW ==> long != INFO)
  {
  }

  // ------------------------------------------------------------ times

  const SKEW_MS := 60_000

  /** The interview: when it started, when it should end and when it was completed. */
  datatype Span = Span(startedAt: int, endsAt: Option<int>, completedAt: Option<int>)

  datatype Validated = Times(startedAt: int, endedAt: Option<int>, durationMs: Option<int>) | Refused(reason: string)

  function Min(a: int, b: int): int { if a < b then a else b }

  function Max(a: int, b: int): int { if a < b then b else a }

  /** The latest time an event is given. */
  function Latest(span: Span, now: int): int {
    var closing := if span.completedAt.Some? then span.completedAt.value
                   else if span.endsAt.Some? then span.endsAt.value else now;
    Min(now, closing + SKEW_MS)
  }

  function ValidateEventTimes(e: Event, span: Span, now: int): Validated {
    if e.startedAt.Unreadable? then Refused("invalid startedAt")
    else
      var start := e.startedAt.ms;
      if start < span.startedAt - SKEW_MS then Refused("event starts before the interview")
      else if start > now + SKEW_MS then Refused("event starts in the future")
      else
        var latest := Latest(span, now);
        var startMs := Max(span.startedAt, Min(start, latest));
        if e.endedAt.None? then Times(startMs, None, None)
        else if e.endedAt.value.Unreadable? then Refused("invalid endedAt")
        else if e.endedAt.value.ms < start then Refused("event ends before it starts")
        else
          var endMs := Max(startMs, Min(e.endedAt.value.ms, latest));
          Times(startMs, Some(endMs), Some(endMs - startMs))
  }

  /** Not after the clock, and not later than a minute after the interview was completed or, while it is not, should have
      ended. */
  predicate OnTime(span: Span, now: int, ms: int) {
    ms <= now && (span.completedAt.Some? ==> ms <= span.completedAt.value + 60_000) &&
    (span.completedAt.None? && span.endsAt.Some? ==> ms <= span.endsAt.value + 60_000)
  }

  /** The latest time on time, but not before the interview. */
  predicate IsLast(span: Span, now: int, ms: int) {
    span.startedAt <= ms && (OnTime(span, now, ms) || ms == span.startedAt) && !OnTime(span, now, ms + 1)
  }

  /** Where a reported time ends up: kept within the interview, else moved to its start or to the last time on time. */
  lemma ClampExactly(e: Event, span: Span, now: int)
    requires span.startedAt <= now && ValidateEventTimes(e, span, now).Times?
    ensures var t := ValidateEventTimes(e, span, now); var start := e.startedAt.ms;
      if start < span.startedAt then t.startedAt == span.startedAt
      else if OnTime(span, now, start) then t.startedAt == start
      else IsLast(span, now, t.startedAt)
    ensures var t := ValidateEventTimes(e, span, now);
      e.endedAt.Some? ==> t.endedAt.Some? && var end := e.endedAt.value.ms;
        if end <= t.startedAt then t.endedAt.value == t.startedAt
        else if OnTime(span, now, end) then t.endedAt.value == end
        else IsLast(span, now, t.endedAt.value)
  {
  }

  /** Clamping keeps the order of start and end and stays within the interview. It never lengthens an interval,
      neither beyond what was reported nor beyond the time the interview has lasted. */
  lemma ClampNeverLengthens(e: Event, span: Span, now: int)
    requires span.startedAt <= now && ValidateEventTimes(e, span, now).Times?
    ensures var t := ValidateEventTimes(e, span, now);
      span.startedAt <= t.startedAt <= Max(span.startedAt, Latest(span, now)) <= now &&
      (t.endedAt.Some? <==> e.endedAt.Some?) && (t.durationMs.Some? <==> e.endedAt.Some?) &&
      (t.endedAt.Some? ==>
        t.startedAt <= t.endedAt.value <= now && t.durationMs.value == t.endedAt.value - t.startedAt &&
        t.durationMs.value <= e.endedAt.value.ms - e.startedAt.ms &&
        t.durationMs.value <= Max(0, Latest(span, now) - span.startedAt))
  {
  }

  /** Times inside the interview, up to the clock, are stored as reported. */
  lemma TimesInsideAreKept(e: Event, span: Span, now: int)
    requires e.startedAt.At? && span.startedAt <= e.startedAt.ms <= Latest(span, now)
    requires e.endedAt.Some? ==> e.endedAt.value.At? && e.startedAt.ms <= e.endedAt.value.ms <= Latest(span, now)
    ensures ValidateEventTimes(e, span, now) ==
      if e.endedAt.None? then Times(e.startedAt.ms, None, None)
      else Times(e.startedAt.ms, Some(e.endedAt.value.ms), Some(e.endedAt.value.ms - e.startedAt.ms))
  {
  }

  /** An event is refused exactly when a time is unreadable, it starts more than a minute before the interview or
      after now, or it ends before it starts. */
  lemma RefusedExactlyWhen(e: Event, span: Span, now: int)
    ensures ValidateEventTimes(e, span, now).Refused? <==>
      (e.startedAt.Unreadable? || e.startedAt.ms < span.startedAt - 60_000 || e.startedAt.ms > now + 60_000 ||
       (e.endedAt.Some? && (e.endedAt.value.Unreadable? || e.endedAt.value.ms < e.startedAt.ms)))
  {
  }

  /** The event as it is stored. */
  function AsStored(e: Event, t: Validated): Event
    requires t.Times?
  {
    e.(startedAt := At(t.startedAt), endedAt := if t.endedAt.Some? then Some(At(t.endedAt.value)) else None)
  }

  /** Whoever retries later is never refused for it: an accepted event is accepted at every later time, and its
      interval is stored no shorter. */
  lemma LaterIsNotRefused(e: Event, span: Span, now: int, later: int)
    requires now <= later && ValidateEventTimes(e, span, now).Times?
    ensures var t, u := ValidateEventTimes(e, span, now), ValidateEventTimes(e, span, later);
      u.Times? && t.startedAt <= u.startedAt && (t.endedAt.Some? <==> u.endedAt.Some?) &&
      (t.endedAt.Some? ==> t.endedAt.value <= u.endedAt.value && t.durationMs.value <= u.durationMs.value)
  {
    RefusedExactlyWhen(e, span, now);
    RefusedExactlyWhen(e, span, later);
  }

  /** Clamping is done once and for all: stored times, reported again at any later time, are accepted and kept. */
  lemma StoredTimesStand(e: Event, span: Span, now: int, later: int)
    requires span.startedAt <= now <= later && ValidateEventTimes(e, span, now).Times?
    ensures ValidateEventTimes(AsStored(e, ValidateEventTimes(e, span, now)), span, later) == ValidateEventTimes(e, span, now)
  {
  }
}
