/** A failed submission empties the retain ring: exactly which leases are still held. */
module OutputRouterFailures {
  import opened Counting
  import opened OutputRouter
  import opened OutputRouterSafety
  import DirectVenc

  /** Step i submits this lease to the encoder. */
  ghost predicate SubmitsAt(steps: seq<Step>, i: nat, l: Lease)
    requires i < |steps|
  {
    Run(INIT, steps[..i]).encoder.thread == XHolds(l, true) && steps[i].EncoderStep? && steps[i].submits
  }

  /** Step i is a submission that fails: the descriptor of its lease could not be duplicated. */
  ghost predicate FailsAt(steps: seq<Step>, i: nat)
    requires i < |steps|
  {
    var thread := Run(INIT, steps[..i]).encoder.thread;
    thread.XHolds? && thread.hasManager && steps[i].EncoderStep? && !steps[i].submits
  }

  ghost predicate FailsBetween(steps: seq<Step>, i: nat, m: nat)
    requires m <= |steps|
  {
    exists j :: i < j < m && FailsAt(steps, j)
  }

  predicate BframesOn(steps: seq<Step>) {
    forall i :: 0 <= i < |steps| ==> steps[i].EncoderStep? ==> steps[i].bframes
  }

  /** The encoder thread is not giving leases up just now. */
  predicate Settled(e: EncoderSide) {
    e.thread.XWait? || e.thread.XHolds? || e.thread.XKeeps? || e.thread.XTrims?
  }

  lemma RunNext(steps: seq<Step>, m: nat)
    requires m < |steps|
    ensures Run(INIT, steps[..m + 1]) == Do(Run(INIT, steps[..m]), steps[m])
  {
    assert steps[..m + 1][..m] == steps[..m];
  }

  /** Only a submission or a failure changes what was submitted and how much of it was retained. */
  lemma StepSubmits(s: Router, step: Step)
    requires step.EncoderStep? ==> step.bframes
    ensures var e, t := s.encoder, Do(s, step).encoder;
            if step.EncoderStep? && e.thread.XHolds? && e.thread.hasManager then
              if step.submits then t.encoded == e.encoded + [e.thread.lease] && t.streak == e.streak + 1
              else t.encoded == e.encoded && t.streak == 0
            else t.encoded == e.encoded && t.streak == e.streak
  {
  }

  lemma RunSubmits(steps: seq<Step>, m: nat)
    requires m < |steps| && BframesOn(steps)
    ensures var e, t := Run(INIT, steps[..m]).encoder, Run(INIT, steps[..m + 1]).encoder;
            && (FailsAt(steps, m) ==> t.streak == 0)
            && (forall l :: SubmitsAt(steps, m, l) ==> t.encoded == e.encoded + [l] && t.streak == e.streak + 1)
            && e.encoded <= t.encoded
            && (!FailsAt(steps, m) ==> |t.encoded| - t.streak == |e.encoded| - e.streak)
  {
    RunNext(steps, m);
    StepSubmits(Run(INIT, steps[..m]), steps[m]);
  }

  /** The lease submitted at step i is among those retained one after another since, as long as no
      later submission has failed. */
  ghost predicate InStreakIff(e: EncoderSide, at: nat, l: Lease, failed: bool) {
    at < |e.encoded| && e.encoded[at] == l && (|e.encoded| - at <= e.streak <==> !failed)
  }

  lemma {:induction false} SubmittedStaysInStreak(steps: seq<Step>, i: nat, l: Lease, m: nat)
    requires BframesOn(steps) && i < m <= |steps| && SubmitsAt(steps, i, l)
    ensures InStreakIff(Run(INIT, steps[..m]).encoder, |Run(INIT, steps[..i]).encoder.encoded|, l,
                        FailsBetween(steps, i, m))
    decreases m
  {
    RunSubmits(steps, m - 1);
    if i + 1 < m {
      SubmittedStaysInStreak(steps, i, l, m - 1);
      FailsBetweenNext(steps, i, m - 1);
      StreakNext(Run(INIT, steps[..m - 1]).encoder, Run(INIT, steps[..m]).encoder,
                 |Run(INIT, steps[..i]).encoder.encoded|, l, FailsBetween(steps, i, m - 1), FailsAt(steps, m - 1));
    }
  }

  lemma StreakNext(e: EncoderSide, t: EncoderSide, at: nat, l: Lease, failed: bool, fails: bool)
    requires InStreakIff(e, at, l, failed) && e.encoded <= t.encoded
    requires if fails then t.streak == 0 else |t.encoded| - t.streak == |e.encoded| - e.streak
    ensures InStreakIff(t, at, l, failed || fails)
  {
  }

  lemma FailsBetweenNext(steps: seq<Step>, i: nat, m: nat)
    requires i < m < |steps|
    ensures FailsBetween(steps, i, m + 1) <==> FailsBetween(steps, i, m) || FailsAt(steps, m)
  {
    if FailsBetween(steps, i, m) {
      var j :| i < j < m && FailsAt(steps, j);
      assert FailsBetween(steps, i, m + 1);
    }
    if FailsAt(steps, m) { assert FailsBetween(steps, i, m + 1); }
  }

  // ---------------------------------------------------------------- what was submitted is somewhere

  /** In the ring, in the encoder thread's hands, or released. */
  function Accounted(s: Router, l: Lease): nat {
    Times(s.encoder.retained, l) + InEncoderHand(s.encoder.thread, l) + Times(s.released, l)
  }

  lemma EncoderAccounts(e: EncoderSide, submits: bool, bframes: bool, l: Lease)
    ensures var t := EncoderNext(e, submits, bframes);
            Times(t.retained, l) + InEncoderHand(t.thread, l) + One(EncoderGives(e) == [l]) >=
            Times(e.retained, l) + InEncoderHand(e.thread, l)
  {
    if e.thread.XWait? {
      WaitingHandIsEmpty(e, submits, bframes, l);
    } else {
      EncoderConserves(e, submits, bframes, l);
      QueueStays(e, submits, bframes);
    }
  }

  lemma WaitingHandIsEmpty(e: EncoderSide, submits: bool, bframes: bool, l: Lease)
    requires e.thread.XWait?
    ensures EncoderNext(e, submits, bframes).retained == e.retained && InEncoderHand(e.thread, l) == 0
  {
  }

  lemma QueueStays(e: EncoderSide, submits: bool, bframes: bool)
    requires !e.thread.XWait?
    ensures EncoderNext(e, submits, bframes).queue == e.queue
  {
  }

  lemma OthersAccount(s: Router, step: Step, l: Lease)
    requires !step.EncoderStep?
    ensures Accounted(Do(s, step), l) >= Accounted(s, l)
  {
    var t := Do(s, step);
    assert t.encoder.retained == s.encoder.retained && t.encoder.thread == s.encoder.thread;
    assert t.released == s.released || exists x :: t.released == s.released + [x];
    if t.released != s.released {
      var x :| t.released == s.released + [x];
      TimesPush(s.released, x, l);
    }
  }

  lemma StepAccounts(s: Router, step: Step, l: Lease)
    ensures Accounted(Do(s, step), l) >= Accounted(s, l)
  {
    if step.EncoderStep? {
      EncoderAccounts(s.encoder, step.submits, step.bframes, l);
      ReleaseCounts(s.released, EncoderGives(s.encoder), l);
    } else {
      OthersAccount(s, step, l);
    }
  }

  lemma RunAccounts(steps: seq<Step>, m: nat, l: Lease)
    requires m < |steps|
    ensures Accounted(Run(INIT, steps[..m + 1]), l) >= Accounted(Run(INIT, steps[..m]), l)
  {
    RunNext(steps, m);
    StepAccounts(Run(INIT, steps[..m]), steps[m], l);
  }

  /** From its submission on, a lease is in the ring, in the thread's hands, or released. */
  lemma {:induction false} SubmittedIsAccounted(steps: seq<Step>, i: nat, l: Lease, m: nat)
    requires i < m <= |steps| && SubmitsAt(steps, i, l)
    ensures Accounted(Run(INIT, steps[..m]), l) >= 1
    decreases m
  {
    RunAccounts(steps, m - 1, l);
    if i + 1 < m { SubmittedIsAccounted(steps, i, l, m - 1); } else { InHandIsAccounted(Run(INIT, steps[..i]), l); }
  }

  lemma InHandIsAccounted(s: Router, l: Lease)
    requires s.encoder.thread == XHolds(l, true)
    ensures Accounted(s, l) >= 1
  {
  }

  lemma {:induction false} CountOut(s: seq<Lease>, l: Lease)
    requires forall i :: 0 <= i < |s| ==> s[i] != l
    ensures Times(s, l) == 0
  {
    if s != [] { CountOut(s[1..], l); }
  }

  /** What was submitted before the streak is not in the ring any more, nor in the thread's hands. */
  lemma OlderIsGone(e: EncoderSide, limit: Lease, at: nat)
    requires RetainedOk(e) && InOrder(e, limit) && Settled(e) && at < |e.encoded| && |e.encoded| - at > e.streak
    ensures Times(e.retained, e.encoded[at]) == 0 && InEncoderHand(e.thread, e.encoded[at]) == 0
  {
    var kept := if e.thread.XKeeps? then e.encoded[..|e.encoded| - 1] else e.encoded;
    assert |e.retained| <= e.streak && e.retained == Last(kept, |e.retained|);
    forall i | 0 <= i < |e.retained| ensures e.retained[i] != e.encoded[at] {
      assert e.retained[i] == e.encoded[|kept| - |e.retained| + i];
    }
    CountOut(e.retained, e.encoded[at]);
  }

  // ---------------------------------------------------------------- main results

  /** With B-frames on throughout, whenever the encoder thread is not giving leases up: the lease of
      one of the last eight submitted frames is unreleased if and only if no submission after it
      failed. */
  lemma HeldIffNoLaterFailure(steps: seq<Step>, i: nat, k: nat, l: Lease)
    requires BframesOn(steps) && i < |steps| && SubmitsAt(steps, i, l)
    requires var e := Run(INIT, steps).encoder;
             Settled(e) && k < Least(|e.encoded|, 8) && l == e.encoded[|e.encoded| - 1 - k]
    ensures Times(Run(INIT, steps).released, l) == 0 <==> !FailsBetween(steps, i, |steps|)
  {
    var s := Run(INIT, steps);
    var at := |Run(INIT, steps[..i]).encoder.encoded|;
    assert steps[..|steps|] == steps;
    RunKeepsInv(steps);
    SubmittedStaysInStreak(steps, i, l, |steps|);
    SamePlace(s.encoder.encoded, at, |s.encoder.encoded| - 1 - k);
    SubmittedIsAccounted(steps, i, l, |steps|);
    HeldIffInStreak(s, k);
  }

  lemma SamePlace(s: seq<Lease>, i: nat, j: nat)
    requires Increasing(s) && i < |s| && j < |s| && s[i] == s[j]
    ensures i == j
  {
  }

  lemma HeldIffInStreak(s: Router, k: nat)
    requires Inv(s) && Settled(s.encoder) && k < Least(|s.encoder.encoded|, BFRAME_RETAIN_COUNT)
    requires Accounted(s, s.encoder.encoded[|s.encoder.encoded| - 1 - k]) >= 1
    ensures Times(s.released, s.encoder.encoded[|s.encoder.encoded| - 1 - k]) == 0 <==> k < s.encoder.streak
  {
    if k < s.encoder.streak {
      HeldInStreak(s, k);
    } else {
      OlderIsGone(s.encoder, Limit(s), |s.encoder.encoded| - 1 - k);
    }
  }

  lemma HeldInStreak(s: Router, k: nat)
    requires Conserved(s) && RetainedOk(s.encoder) && Settled(s.encoder)
    requires k < Least(s.encoder.streak, BFRAME_RETAIN_COUNT)
    ensures k < |s.encoder.encoded|
    ensures Times(s.released, s.encoder.encoded[|s.encoder.encoded| - 1 - k]) == 0
  {
    RecentIsHeld(s.encoder, k);
    assert Copies(s, s.encoder.encoded[|s.encoder.encoded| - 1 - k]) <= 1;
  }

  /** For every pattern with B-frames: of the frames an encoder with the pattern's delay can still be
      holding back, those have lost their leases after which a submission failed, and no others. */
  lemma HeldThroughTheReorderDelayIff(steps: seq<Step>, pattern: int, i: nat, k: nat)
    requires BframesOn(steps) && i < |steps|
    requires var e := Run(INIT, steps).encoder;
             && Settled(e) && k < Least(|e.encoded|, DirectVenc.DelayFrames(pattern))
             && SubmitsAt(steps, i, e.encoded[|e.encoded| - 1 - k])
    ensures var s := Run(INIT, steps);
            Times(s.released, s.encoder.encoded[|s.encoder.encoded| - 1 - k]) == 0 <==>
            !FailsBetween(steps, i, |steps|)
  {
    var e := Run(INIT, steps).encoder;
    HeldIffNoLaterFailure(steps, i, k, e.encoded[|e.encoded| - 1 - k]);
  }

  // ---------------------------------------------------------------- the failing run

  /** Frame 0 is submitted and retained; the submission of frame 1 fails, B-frames on. */
  const FAILING: seq<Step> :=
    [SetManager(true), Acquire(Output), ExporterStep(true), Acquire(Output), ExporterStep(true),
     EncoderStep(true, true), EncoderStep(true, true), EncoderStep(true, true), EncoderStep(true, true),
     EncoderStep(true, true), EncoderStep(false, true), EncoderStep(false, true)]

  lemma FailingToThree()
    ensures Run(INIT, FAILING[..3]) ==
            INIT.(next := 1, encoder := EncoderSide(true, true, [0], XWait, [], [], 0, false))
  {
    assert FAILING[..0] == [];
    RunNext(FAILING, 0);
    RunNext(FAILING, 1);
    RunNext(FAILING, 2);
  }

  lemma FailingToSix()
    ensures var s := Run(INIT, FAILING[..6]);
            s.encoder == EncoderSide(true, true, [1], XHolds(0, true), [], [], 0, false) && s.released == []
  {
    FailingToThree();
    RunNext(FAILING, 3);
    RunNext(FAILING, 4);
    RunNext(FAILING, 5);
  }

  lemma RunEncoder(steps: seq<Step>, m: nat)
    requires m < |steps| && steps[m].EncoderStep?
    ensures var s, t := Run(INIT, steps[..m]), Run(INIT, steps[..m + 1]);
            && t.encoder == EncoderNext(s.encoder, steps[m].submits, steps[m].bframes)
            && t.released == s.released + EncoderGives(s.encoder)
  {
    RunNext(steps, m);
  }

  lemma FailingToSeven()
    ensures var s := Run(INIT, FAILING[..7]);
            s.encoder == EncoderSide(true, true, [1], XKeeps(0), [], [0], 1, false) && s.released == []
  {
    FailingToSix();
    RunEncoder(FAILING, 6);
  }

  lemma FailingToEight()
    ensures var s := Run(INIT, FAILING[..8]);
            s.encoder == EncoderSide(true, true, [1], XTrims, [0], [0], 1, false) && s.released == []
  {
    FailingToSeven();
    RunEncoder(FAILING, 7);
  }

  lemma FailingToNine()
    ensures var s := Run(INIT, FAILING[..9]);
            s.encoder == EncoderSide(true, true, [1], XWait, [0], [0], 1, false) && s.released == []
  {
    FailingToEight();
    RunEncoder(FAILING, 8);
  }

  lemma FailingToTen()
    ensures var s := Run(INIT, FAILING[..10]);
            s.encoder == EncoderSide(true, true, [], XHolds(1, true), [0], [0], 1, false) && s.released == []
  {
    FailingToNine();
    RunEncoder(FAILING, 9);
  }

  lemma FailingToEleven()
    ensures var s := Run(INIT, FAILING[..11]);
            s.encoder == EncoderSide(true, true, [], XDrains(1), [0], [0], 0, false) && s.released == []
  {
    FailingToTen();
    RunEncoder(FAILING, 10);
  }

  lemma FailingToTwelve()
    ensures var s := Run(INIT, FAILING[..12]);
            s.encoder == EncoderSide(true, true, [], XDrains(1), [], [0], 0, false) && s.released == [0]
  {
    FailingToEleven();
    RunEncoder(FAILING, 11);
  }

  /** The one frame submitted to the encoder has lost its lease, with B-frames on throughout. */
  lemma AFailureReleasesTheRing()
    ensures BframesOn(FAILING)
    ensures var s := Run(INIT, FAILING); s.encoder.encoded == [0] && s.released == [0]
  {
    FailingToTwelve();
    assert FAILING[..12] == FAILING;
  }
}
