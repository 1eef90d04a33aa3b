/** The compositor's frame pacing: a deadline that advances by one interval a frame, late frames
    repeated up to a limit, and a fresh start when that is not enough.  Times are in nanoseconds. */
module Pacing {
  const SECOND: int := 1_000_000_000
  const MILLISECOND: int := 1_000_000
  const WORD32: nat := 0x1_0000_0000

  /** What becomes of one late repeat. */
  datatype Repeat = Refused | Unpublished | Published

  /** How many of the first n repeats are published: all up to the first that is not. */
  function PublishedOf(outcomes: seq<Repeat>, n: nat): (k: nat)
    ensures k <= n && k <= |outcomes|
    ensures forall i :: 0 <= i < k ==> outcomes[i].Published?
    ensures k < n && k < |outcomes| ==> !outcomes[k].Published?
    decreases n
  {
    if n == 0 || outcomes == [] || !outcomes[0].Published? then 0
    else 1 + PublishedOf(outcomes[1..], n - 1)
  }

  /** A repeat that was rendered and counted, but whose event found no room. */
  predicate PushFailed(outcomes: seq<Repeat>, n: nat) {
    var k := PublishedOf(outcomes, n);
    k < n && k < |outcomes| && outcomes[k].Unpublished?
  }

  /** The clock as one pass reads it, and the late repeats it is allowed. */
  datatype Pass = Pass(end: int, later: int, restart: int, limit: nat, outcomes: seq<Repeat>)

  datatype Pacer = Pacer(
    deadline: int, frames: nat,
    start: int,                    // the deadline at the last resync
    advanced: nat,                 // intervals the deadline has advanced since
    since: nat,                    // frames counted since
    failures: nat,                 // late repeats counted but not published since
    clock: int,                    // the last reading that pacing was based on
    awake: int)                    // the loop sleeps until then

  function Resync(p: Pacer, now: int): Pacer {
    p.(deadline := now, start := now, advanced := 0, since := 0, failures := 0, clock := now, awake := now)
  }

  /** Intervals missed, as an unsigned 32-bit number, and no more than the limit. */
  function RepeatCount(late: int, interval: int, limit: nat): (n: nat)
    requires interval > 0 && late > 0
    ensures n <= limit
  {
    var missed: nat := (late / interval) % WORD32;
    if missed > limit then limit else missed
  }

  function Advance(p: Pacer, interval: int): Pacer {
    p.(deadline := p.deadline + interval, advanced := p.advanced + 1)
  }

  function CountFrame(p: Pacer): Pacer { p.(frames := p.frames + 1, since := p.since + 1) }

  /** The repeats of a pass found late by `late`, and the deadline moved on for each published. */
  function RepeatLate(p: Pacer, interval: int, late: int, limit: nat, outcomes: seq<Repeat>): Pacer
    requires interval > 0 && late > 0
  {
    var n := RepeatCount(late, interval, limit);
    var k := PublishedOf(outcomes, n);
    var failed := if PushFailed(outcomes, n) then 1 else 0;
    p.(frames := p.frames + k + failed, since := p.since + k + failed, failures := p.failures + failed,
       deadline := p.deadline + k * interval, advanced := p.advanced + k)
  }

  /** The end of a rendered pass. */
  function EndPass(p: Pacer, interval: int, x: Pass): Pacer
    requires interval > 0
  {
    var t := Advance(CountFrame(p), interval);
    var remain := t.deadline - x.end;
    if remain > MILLISECOND then t.(clock := x.end, awake := x.end + remain / 1000 * 1000)
    else if remain >= -interval then t.(clock := x.end, awake := x.end)
    else
      var u := RepeatLate(t, interval, -remain, x.limit, x.outcomes);
      if u.deadline - x.later < -interval then Resync(u, x.restart)
      else u.(clock := x.later, awake := x.later)
  }

  datatype Step = Rendered(x: Pass) | SceneChanged(now: int)

  /** The clock never goes back, and the loop is not woken early. */
  predicate Timely(p: Pacer, step: Step) {
    match step
    case Rendered(x) => p.awake <= x.end <= x.later <= x.restart
    case SceneChanged(now) => p.awake <= now
  }

  function Do(p: Pacer, interval: int, step: Step): Pacer
    requires interval > 0
  {
    if !Timely(p, step) then p
    else match step
      case Rendered(x) => EndPass(p, interval, x)
      case SceneChanged(now) => Resync(p, now)
  }

  function Run(begin: int, interval: int, steps: seq<Step>): Pacer
    requires interval > 0
  {
    if steps == [] then Pacer(begin, 0, begin, 0, 0, 0, begin, begin)
    else Do(Run(begin, interval, steps[..|steps| - 1]), interval, steps[|steps| - 1])
  }

  // ---------------------------------------------------------------- what every pass keeps

  ghost predicate Inv(p: Pacer, interval: int) {
    && p.deadline == p.start + p.advanced * interval
    && p.since == p.advanced + p.failures
    && p.deadline >= p.clock - interval
    && p.deadline <= p.clock + interval + MILLISECOND
    && p.deadline <= p.awake + MILLISECOND
    && p.clock <= p.awake
  }

  /** Late repeats never take the deadline past the reading that showed the lateness. */
  lemma RepeatsStayBehind(p: Pacer, interval: int, end: int, limit: nat, outcomes: seq<Repeat>)
    requires interval > 0 && p.deadline < end
    ensures var t := RepeatLate(p, interval, end - p.deadline, limit, outcomes);
            && p.deadline <= t.deadline <= end
            && t.deadline == p.deadline + (t.advanced - p.advanced) * interval
            && t.since - p.since == (t.advanced - p.advanced) + (t.failures - p.failures)
            && p.failures <= t.failures <= p.failures + 1
  {
    var late := end - p.deadline;
    NoFurther(PublishedOf(outcomes, RepeatCount(late, interval, limit)), late, interval);
  }

  lemma NoFurther(k: nat, late: int, interval: int)
    requires interval > 0 && late > 0 && k <= late / interval
    ensures 0 <= k * interval <= late
  {
    var q := late / interval;
    assert q * interval <= late;
    Scale(k, q, interval);
  }

  lemma Scale(j: int, k: int, d: int)
    requires d > 0
    ensures j <= k ==> j * d <= k * d
    ensures (j + k) * d == j * d + k * d
    ensures k * d < 0 <==> k < 0
  {
    if j <= k { assert k * d == j * d + (k - j) * d; }
  }

  /** What holds of a pacer whose deadline has just moved on, before the clock is read. */
  ghost predicate Moved(p: Pacer, interval: int) {
    && p.deadline == p.start + p.advanced * interval
    && p.since == p.advanced + p.failures
  }

  lemma AdvanceMoves(p: Pacer, interval: int)
    requires interval > 0 && Inv(p, interval)
    ensures Moved(Advance(CountFrame(p), interval), interval)
    ensures Advance(CountFrame(p), interval).deadline <= p.awake + interval + MILLISECOND
  {
    Scale(p.advanced, 1, interval);
  }

  lemma RepeatsMove(p: Pacer, interval: int, end: int, limit: nat, outcomes: seq<Repeat>)
    requires interval > 0 && p.deadline < end && Moved(p, interval)
    ensures var t := RepeatLate(p, interval, end - p.deadline, limit, outcomes);
            Moved(t, interval) && t.deadline <= end
  {
    RepeatsStayBehind(p, interval, end, limit, outcomes);
    var t := RepeatLate(p, interval, end - p.deadline, limit, outcomes);
    Scale(p.advanced, t.advanced - p.advanced, interval);
    assert p.advanced + (t.advanced - p.advanced) == t.advanced;
  }

  lemma Sleep(remain: int)
    requires remain > 0
    ensures remain - 1000 < remain / 1000 * 1000 <= remain
  {
  }

  lemma EndPassKeepsInv(p: Pacer, interval: int, x: Pass)
    requires interval > 0 && Inv(p, interval) && Timely(p, Rendered(x))
    ensures Inv(EndPass(p, interval, x), interval)
  {
    var t := Advance(CountFrame(p), interval);
    AdvanceMoves(p, interval);
    var remain := t.deadline - x.end;
    if remain > MILLISECOND {
      Sleep(remain);
    } else if remain < -interval {
      RepeatsMove(t, interval, x.end, x.limit, x.outcomes);
    }
  }

  lemma {:induction false} RunKeepsInv(begin: int, interval: int, steps: seq<Step>)
    requires interval > 0
    ensures Inv(Run(begin, interval, steps), interval)
  {
    if steps != [] {
      var p, step := Run(begin, interval, steps[..|steps| - 1]), steps[|steps| - 1];
      RunKeepsInv(begin, interval, steps[..|steps| - 1]);
      if step.Rendered? && Timely(p, step) { EndPassKeepsInv(p, interval, step.x); }
    }
  }

  // ---------------------------------------------------------------- one pass

  /** k late repeats were published: one after the other until the missed intervals or the limit were
      made up for, or one was not published; that one was counted all the same if only its event failed. */
  predicate Repeated(outcomes: seq<Repeat>, missed: nat, limit: nat, k: nat, counted: nat) {
    var most := if missed > limit then limit else missed;
    && k <= most && k <= |outcomes| && (forall i :: 0 <= i < k ==> outcomes[i].Published?)
    && (k < most && k < |outcomes| ==> !outcomes[k].Published?)
    && counted == k + if k < most && k < |outcomes| && outcomes[k].Unpublished? then 1 else 0
  }

  lemma LateRepeats(p: Pacer, interval: int, late: int, limit: nat, outcomes: seq<Repeat>)
    returns (k: nat, counted: nat)
    requires interval > 0 && late > 0
    ensures Repeated(outcomes, late / interval % 0x1_0000_0000, limit, k, counted)
    ensures var t := RepeatLate(p, interval, late, limit, outcomes);
            && t.deadline == p.deadline + k * interval && t.frames == p.frames + counted && t.start == p.start
            && t.advanced == p.advanced + k && t.since == p.since + counted
  {
    var n := RepeatCount(late, interval, limit);
    k := PublishedOf(outcomes, n);
    counted := k + if PushFailed(outcomes, n) then 1 else 0;
  }

  /** The deadline moved on by this many intervals, or started over at a reading. */
  predicate MovedOn(p: Pacer, t: Pacer, intervals: nat, interval: int) {
    t.deadline == p.deadline + intervals * interval && t.start == p.start && t.advanced == p.advanced + intervals
  }

  predicate StartedOver(t: Pacer, now: int) {
    t.deadline == now && t.start == now && t.advanced == 0 && t.awake == now
  }

  /** A pass that ends before its next deadline, or late by no more than an interval: one frame is
      counted and the deadline moves on by one interval; the loop sleeps to within a microsecond of the
      deadline if more than a millisecond is left, and does not sleep otherwise. */
  lemma PassInTime(p: Pacer, interval: int, x: Pass)
    requires interval > 0 && x.end - (p.deadline + interval) <= interval
    ensures var t, left := EndPass(p, interval, x), p.deadline + interval - x.end;
            && MovedOn(p, t, 1, interval) && t.frames == p.frames + 1
            && (left > 1_000_000 ==> x.end <= t.awake && t.deadline - 1000 < t.awake <= t.deadline)
            && (left <= 1_000_000 ==> t.awake == x.end)
  {
    var left := p.deadline + interval - x.end;
    if left > 0 { Sleep(left); }
  }

  /** A pass later than that: late repeats are counted, and the deadline starts over if and only if,
      moved on by an interval and one for each repeat published, it is still more than an interval behind
      the second reading; otherwise it has moved on by exactly those intervals. */
  lemma LatePass(p: Pacer, interval: int, x: Pass) returns (k: nat, counted: nat)
    requires interval > 0 && x.end - (p.deadline + interval) > interval
    ensures Repeated(x.outcomes, (x.end - (p.deadline + interval)) / interval % 0x1_0000_0000, x.limit, k, counted)
    ensures var t := EndPass(p, interval, x);
            && t.frames == p.frames + 1 + counted
            && if x.later - (p.deadline + (1 + k) * interval) > interval then StartedOver(t, x.restart)
               else MovedOn(p, t, 1 + k, interval) && t.awake == x.later
  {
    var late := x.end - (p.deadline + interval);
    k, counted := LateRepeats(Advance(CountFrame(p), interval), interval, late, x.limit, x.outcomes);
    assert (1 + k) * interval == interval + k * interval;
  }

  /** No pass is passed over as long as the clock does not go back; a scene change starts over at once. */
  lemma EveryPassCounts(p: Pacer, interval: int, x: Pass, now: int)
    requires interval > 0
    ensures p.awake <= x.end <= x.later <= x.restart ==> Do(p, interval, Rendered(x)) == EndPass(p, interval, x)
    ensures p.awake <= now ==> StartedOver(Do(p, interval, SceneChanged(now)), now)
  {
  }

  // ---------------------------------------------------------------- main results

  /** After every pass the deadline is at most one interval behind the clock, and at most one interval
      and a millisecond ahead of it. */
  lemma {:induction false} DeadlineStaysNear(begin: int, interval: int, steps: seq<Step>)
    requires interval > 0
    ensures var p := Run(begin, interval, steps);
            p.clock - interval <= p.deadline <= p.clock + interval + MILLISECOND
  {
    RunKeepsInv(begin, interval, steps);
  }

  /** The passes of a run: those at whose readings the clock had not gone back. */
  function Passes(begin: int, interval: int, steps: seq<Step>): nat
    requires interval > 0
  {
    if steps == [] then 0
    else
      var before, step := steps[..|steps| - 1], steps[|steps| - 1];
      Passes(begin, interval, before) +
      if step.Rendered? && Run(begin, interval, before).awake <= step.x.end <= step.x.later <= step.x.restart then 1
      else 0
  }

  /** Over every run each pass is counted as a frame, and only late repeats are counted besides. */
  lemma {:induction false} EveryPassIsAFrame(begin: int, interval: int, steps: seq<Step>)
    requires interval > 0
    ensures Run(begin, interval, []).frames == 0
    ensures Run(begin, interval, steps).frames >= Passes(begin, interval, steps)
  {
    if steps != [] { EveryPassIsAFrame(begin, interval, steps[..|steps| - 1]); }
  }

  /** Between resyncs no interval goes by without a frame being counted, and exactly one is counted
      for each if and only if no event found the queue full during late repeats. */
  lemma {:induction false} FramesKeepUp(begin: int, interval: int, steps: seq<Step>)
    requires interval > 0
    ensures var p := Run(begin, interval, steps);
            p.since >= p.advanced && (p.since == p.advanced <==> p.failures == 0)
  {
    RunKeepsInv(begin, interval, steps);
  }

  /** Hence the frame rate: since the last resync, at least as many frames were counted as whole
      intervals have gone by, less one; and without failed events never more than one ahead. */
  lemma {:induction false} RateIsKept(begin: int, interval: int, steps: seq<Step>)
    requires interval > 0
    ensures var p := Run(begin, interval, steps);
            && (p.since + 1) * interval >= p.clock - p.start
            && (p.failures == 0 ==> (p.since - 1) * interval <= p.clock - p.start + MILLISECOND)
  {
    RunKeepsInv(begin, interval, steps);
    var p := Run(begin, interval, steps);
    Scale(p.advanced, p.since, interval);
    Scale(p.since, 1, interval);
    Scale(p.since, -1, interval);
  }
}
