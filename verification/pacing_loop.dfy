/** The deadline as a timespec that is added to in place, and the end of the render loop. */
module PacingLoop {
  import opened Pacing

  class Timespec {
    var sec: int
    var nsec: int

    /** tv_nsec is a fraction of a second. */
    ghost predicate Normal()
      reads this
    {
      0 <= nsec < 1_000_000_000
    }

    ghost function Value(): int
      reads this
    {
      sec * 1_000_000_000 + nsec
    }

    constructor (sec: int, nsec: int)
      ensures this.sec == sec && this.nsec == nsec
    {
      this.sec, this.nsec := sec, nsec;
    }

    /** Exact for every amount, whatever the sign, and normalised again. */
    method AddNs(ns: int)
      modifies this
      ensures Normal() && Value() == old(Value()) + ns
    {
      nsec := nsec + ns;
      while nsec >= SECOND
        invariant Value() == old(Value()) + ns
        invariant old(nsec) + ns >= 0 ==> nsec >= 0
        decreases nsec
      {
        nsec := nsec - SECOND;
        sec := sec + 1;
      }
      while nsec < 0
        invariant Value() == old(Value()) + ns && nsec < SECOND
        decreases -nsec
      {
        nsec := nsec + SECOND;
        sec := sec - 1;
      }
    }

    method Read(now: int)
      modifies this
      ensures Normal() && Value() == now
    {
      sec, nsec := now / SECOND, now % SECOND;
    }
  }

  /** future - past, for two normalised times or not. */
  function DiffNs(futureSec: int, futureNsec: int, pastSec: int, pastNsec: int): (d: int)
    ensures d == (futureSec * SECOND + futureNsec) - (pastSec * SECOND + pastNsec)
  {
    (futureSec - pastSec) * SECOND + (futureNsec - pastNsec)
  }

  class RenderLoop {
    const interval: int
    const nextDeadline: Timespec
    var frameCount: nat
    var awake: int
    ghost var start: int
    ghost var advanced: nat
    ghost var since: nat
    ghost var failures: nat
    ghost var clock: int

    ghost predicate Valid()
      reads this, nextDeadline
    {
      interval > 0 && nextDeadline.Normal()
    }

    ghost function State(): Pacer
      reads this, nextDeadline
    {
      Pacer(nextDeadline.Value(), frameCount, start, advanced, since, failures, clock, awake)
    }

    constructor (interval: int, begin: int)
      requires interval > 0
      ensures Valid() && this.interval == interval && State() == Run(begin, interval, []) && fresh(nextDeadline)
    {
      this.interval := interval;
      nextDeadline := new Timespec(begin / SECOND, begin % SECOND);
      frameCount, awake := 0, begin;
      start, advanced, since, failures, clock := begin, 0, 0, 0, begin;
    }

    method ResetDeadline(now: int)
      requires Valid()
      modifies this, nextDeadline
      ensures Valid() && State() == Resync(old(State()), now)
    {
      nextDeadline.Read(now);
      awake := now;
      start, advanced, since, failures, clock := now, 0, 0, 0, now;
    }

    /** Repeats are published until one is not; one whose event finds no room is counted all the same. */
    method PublishLateRepeats(n: nat, outcomes: seq<Repeat>) returns (published: nat)
      modifies `frameCount, `since, `failures
      ensures published == PublishedOf(outcomes, n)
      ensures var failed := if PushFailed(outcomes, n) then 1 else 0;
              && frameCount == old(frameCount) + published + failed
              && since == old(since) + published + failed && failures == old(failures) + failed
    {
      published := 0;
      var i := 0;
      while i < n
        invariant i <= n && i == published && i <= |outcomes|
        invariant PublishedOf(outcomes, n) == i + PublishedOf(outcomes[i..], n - i)
        invariant frameCount == old(frameCount) + i && since == old(since) + i && failures == old(failures)
      {
        if i == |outcomes| || outcomes[i].Refused? { return; }
        assert outcomes[i..][0] == outcomes[i] && outcomes[i..][1..] == outcomes[i + 1..];
        frameCount := frameCount + 1;
        since := since + 1;
        if outcomes[i].Unpublished? {
          failures := failures + 1;
          return;
        }
        published := published + 1;
        i := i + 1;
      }
    }

    method MoveDeadline(times: nat)
      requires Valid()
      modifies nextDeadline, `advanced
      ensures Valid() && nextDeadline.Value() == old(nextDeadline.Value()) + times * interval
      ensures advanced == old(advanced) + times
    {
      for i := 0 to times
        invariant Valid() && nextDeadline.Value() == old(nextDeadline.Value()) + i * interval
        invariant advanced == old(advanced) + i
      {
        nextDeadline.AddNs(interval);
        advanced := advanced + 1;
        assert (i + 1) * interval == i * interval + interval;
      }
    }

    method CatchUp(late: int, limit: nat, outcomes: seq<Repeat>)
      requires Valid() && late > 0
      modifies this, nextDeadline
      ensures Valid() && State() == RepeatLate(old(State()), interval, late, limit, outcomes)
    {
      var count: nat := (late / interval) % WORD32;
      if count > limit { count := limit; }
      var repeated := PublishLateRepeats(count, outcomes);
      MoveDeadline(repeated);
    }

    /** Still more than an interval late after the repeats: the deadline starts over. */
    method GiveUpIfLate(later: int, restart: int)
      requires Valid()
      modifies this, nextDeadline
      ensures Valid()
      ensures var u := old(State());
              State() == if u.deadline - later < -interval then Resync(u, restart)
                         else u.(clock := later, awake := later)
    {
      ghost var u := State();
      var remain := DiffNs(nextDeadline.sec, nextDeadline.nsec, later / SECOND, later % SECOND);
      assert remain == u.deadline - later;
      if remain < -interval {
        ResetDeadline(restart);
      } else {
        clock, awake := later, later;
      }
    }

    method EndOfPass(x: Pass)
      requires Valid()
      modifies this, nextDeadline
      ensures Valid() && State() == EndPass(old(State()), interval, x)
    {
      frameCount := frameCount + 1;
      since := since + 1;
      nextDeadline.AddNs(interval);
      advanced := advanced + 1;
      var remain := DiffNs(nextDeadline.sec, nextDeadline.nsec, x.end / SECOND, x.end % SECOND);
      clock, awake := x.end, x.end;
      if remain > MILLISECOND {
        awake := x.end + remain / 1000 * 1000;
      } else if remain < -interval {
        CatchUp(-remain, x.limit, x.outcomes);
        GiveUpIfLate(x.later, x.restart);
      }
    }
  }
}
