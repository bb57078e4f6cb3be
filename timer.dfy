/** The two-state timer of one task (stopped / running) as transitions on
    the task record: what starting and stopping do to the record itself.
    The store-level operations that look the task up, save it and then write
    the parent project's flag are in module Tracker. */
module Timer {
  import opened Common
  import opened Records
  import opened CalculateTime

  /** The record invariant of the timer: running exactly when a start time
      is recorded. The timer keeps it; a raw update body can break it. */
  predicate TimerConsistent(t: Task)
  {
    t.isRunning <==> t.startTime.Some?
  }

  /** Only the timer fields and the update timestamp may differ. */
  predicate SameWork(a: Task, b: Task)
  {
    a.title == b.title && a.description == b.description && a.status == b.status
    && a.project == b.project && a.user == b.user
  }

  /** Starting at `now`: a running task is left exactly as it is (the
      idempotent branch); a stopped task becomes running from `now`. */
  function Started(t: Task, now: int): (r: Task)
    ensures r.isRunning
    ensures t.isRunning ==> r == t
    ensures !t.isRunning ==> r.startTime == Some(now) && r.updatedAt == now
    ensures SameWork(r, t) && r.duration == t.duration && r.endTime == t.endTime
    ensures TimerConsistent(t) ==> TimerConsistent(r)
  {
    if t.isRunning then t
    else t.(isRunning := true, startTime := Some(now), updatedAt := now)
  }

  /** A task the stop path treats as running: flagged and with a start time. */
  predicate Stoppable(t: Task)
  {
    t.isRunning && t.startTime.Some?
  }

  /** Stopping at `now`: a task that is not running, or has no start time,
      is left as it is; otherwise the whole seconds since the start are
      added to the duration (negative when `now` is before the start: there
      is no clamping), and the timer is cleared with `endTime = now`. */
  function Stopped(t: Task, now: int): (r: Task)
    ensures !Stoppable(t) ==> r == t
    ensures Stoppable(t) ==>
      && !r.isRunning && r.startTime.None? && r.endTime == Some(now) && r.updatedAt == now
      && (r.duration - t.duration) * 1000 <= now - t.startTime.value
      && now - t.startTime.value < (r.duration - t.duration) * 1000 + 1000
    ensures SameWork(r, t)
    ensures TimerConsistent(t) ==> TimerConsistent(r)
  {
    if !Stoppable(t) then t
    else
      t.(isRunning := false,
         endTime := Some(now),
         duration := t.duration + MsToSeconds(now - t.startTime.value),
         startTime := None,
         updatedAt := now)
  }

  /** A second start changes nothing. */
  lemma StartedIdempotent(t: Task, now: int, later: int)
    ensures Started(Started(t, now), later) == Started(t, now)
  {
  }

  /** A second stop changes nothing. */
  lemma StoppedIdempotent(t: Task, now: int, later: int)
    ensures Stopped(Stopped(t, now), later) == Stopped(t, now)
  {
  }

  /** Stopping never lowers the duration exactly when the clock has not gone
      back past the start: the duration decreases iff `now` is before the
      recorded start. */
  lemma StopDurationMonotone(t: Task, now: int)
    requires Stoppable(t)
    ensures Stopped(t, now).duration >= t.duration <==> now >= t.startTime.value
  {
  }

  /** A start at `begin` followed by a stop at `end` adds
      floor((end - begin) / 1000) seconds and leaves the task stopped. */
  lemma StopAfterStart(t: Task, begin: int, end: int)
    requires !t.isRunning
    ensures var r := Stopped(Started(t, begin), end);
      && r.duration == t.duration + MsToSeconds(end - begin)
      && !r.isRunning && r.startTime.None? && r.endTime == Some(end)
  {
  }

  /** One working session: a start followed by a stop. */
  datatype Session = Session(begin: int, end: int)

  /** The task after running the sessions in order. */
  function RunSessions(t: Task, sessions: seq<Session>): Task
    decreases |sessions|
  {
    if sessions == [] then t
    else RunSessions(Stopped(Started(t, sessions[0].begin), sessions[0].end), sessions[1..])
  }

  /** The whole seconds each session contributes, summed. */
  function TrackedSeconds(sessions: seq<Session>): int
  {
    if sessions == [] then 0
    else MsToSeconds(sessions[0].end - sessions[0].begin) + TrackedSeconds(sessions[1..])
  }

  /** Accumulation over repeated use: from a stopped task, any sequence of
      start/stop sessions leaves it stopped with the per-session whole
      seconds added to its duration, and the task's other fields intact. */
  lemma {:induction false} SessionsAccumulate(t: Task, sessions: seq<Session>)
    requires !t.isRunning
    decreases |sessions|
    ensures var r := RunSessions(t, sessions);
      && r.duration == t.duration + TrackedSeconds(sessions)
      && !r.isRunning && SameWork(r, t)
      && (sessions != [] ==> r.startTime.None? && r.endTime == Some(sessions[|sessions| - 1].end))
  {
    if sessions != [] {
      var s := sessions[0];
      StopAfterStart(t, s.begin, s.end);
      SessionsAccumulate(Stopped(Started(t, s.begin), s.end), sessions[1..]);
      if |sessions| > 1 {
        assert sessions[1..][|sessions[1..]| - 1] == sessions[|sessions| - 1];
      }
    }
  }
}
