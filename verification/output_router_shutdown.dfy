/** That free returns: whatever the other threads are doing when it is called, they finish as long as
    each keeps being scheduled. */
module OutputRouterShutdown {
  import opened OutputRouter
  import opened OutputRouterSafety

  // ---------------------------------------------------------------- the work that is left

  function EncoderWork(e: EncoderSide): nat {
    5 * |e.queue| + |e.retained| +
    match e.thread
    case XHolds(_, _) => 6
    case XKeeps(_) => 5
    case XDrains(_) => 4
    case XTrims => 3
    case XGives(_) => 3
    case XWait => 2
    case XExit => 1
    case XStopped => 0
  }

  function PreviewWork(p: PreviewSide): nat {
    2 * |p.pending| + if p.thread.VHolds? then 2 else if p.thread.VWait? then 1 else 0
  }

  function ExporterWork(x: Exporter): nat {
    match x
    case EHolds(_, _) => 9
    case EGives(_) => 2
    case EIdle => 1
    case EStopped => 0
  }

  function OwnerWork(o: Owner): nat {
    match o
    case Live => 6
    case JoinExport => 5
    case GivePreview(pending) => 4 + |pending|
    case JoinPreview => 3
    case GiveQueue(pending) => 2 + |pending|
    case JoinEncoder => 1
    case Freed => 0
  }

  function Work(s: Router): nat {
    ExporterWork(s.exporter) + EncoderWork(s.encoder) + PreviewWork(s.preview) + OwnerWork(s.owner)
  }

  /** free has been called. */
  ghost predicate Stopping(s: Router) { PhasesOk(s) && !s.owner.Live? && !s.exportRunning }

  /** Nothing but the manager and the engine may differ. */
  predicate Same(s: Router, t: Router) {
    t == s.(encoder := s.encoder.(manager := t.encoder.manager), preview := s.preview.(engine := t.preview.engine))
  }

  lemma ExporterWorks(s: Router, toEncoder: bool)
    requires Stopping(s)
    ensures var t := ExporterLine(s, toEncoder);
            !t.owner.Live? && !t.exportRunning && if s.exporter.EStopped? then t == s else Work(t) < Work(s)
  {
  }

  lemma EncoderWorks(e: EncoderSide, submits: bool, bframes: bool)
    ensures var t := EncoderNext(e, submits, bframes);
            if e.thread.XStopped? || (e.thread.XWait? && e.queue == [] && e.running)
            then t == e && EncoderGives(e) == [] else EncoderWork(t) < EncoderWork(e)
  {
  }

  lemma ViewerWorks(p: PreviewSide)
    ensures var t := ViewerNext(p);
            if p.thread.VStopped? || (p.thread.VWait? && p.pending == [] && p.running)
            then t == p && ViewerGives(p) == [] else PreviewWork(t) < PreviewWork(p)
  {
  }

  lemma OwnerWorks(s: Router)
    requires Stopping(s)
    ensures var t := OwnerLine(s); !t.owner.Live? && !t.exportRunning && (t == s || Work(t) < Work(s))
  {
  }

  /** No step adds work once free has been called, and one that takes none off changes nothing. */
  lemma StepWorks(s: Router, step: Step)
    requires Stopping(s)
    ensures Stopping(Do(s, step)) && Work(Do(s, step)) <= Work(s)
    ensures Work(Do(s, step)) == Work(s) ==> Same(s, Do(s, step))
  {
    StepKeepsPhases(s, step);
    match step
    case Acquire(mailbox) =>
    case ExporterStep(toEncoder) => ExporterWorks(s, toEncoder);
    case EncoderStep(submits, bframes) =>
      EncoderWorks(s.encoder, submits, bframes);
      assert s.released + [] == s.released;
    case ViewerStep =>
      ViewerWorks(s.preview);
      assert s.released + [] == s.released;
    case OwnerStep => OwnerWorks(s);
    case SetManager(on) =>
    case SetEngine(on) =>
  }

  // ---------------------------------------------------------------- somebody can always move

  datatype Thread = TheExporter | TheEncoder | TheViewer | TheOwner

  predicate IsStepOf(step: Step, thread: Thread) {
    match thread
    case TheExporter => step.ExporterStep?
    case TheEncoder => step.EncoderStep?
    case TheViewer => step.ViewerStep?
    case TheOwner => step.OwnerStep?
  }

  /** The owner, or the thread it waits for. */
  function Mover(s: Router): Thread {
    match s.owner
    case JoinExport => if s.exporter.EStopped? then TheOwner else TheExporter
    case JoinPreview => if s.preview.thread.VStopped? then TheOwner else TheViewer
    case JoinEncoder => if s.encoder.thread.XStopped? then TheOwner else TheEncoder
    case _ => TheOwner
  }

  lemma MoverMoves(s: Router, step: Step)
    requires Stopping(s) && !s.owner.Freed? && IsStepOf(step, Mover(s))
    ensures Work(Do(s, step)) < Work(s)
  {
    match Mover(s)
    case TheExporter => ExporterWorks(s, step.toEncoder);
    case TheEncoder => EncoderWorks(s.encoder, step.submits, step.bframes);
    case TheViewer => ViewerWorks(s.preview);
    case TheOwner => OwnerWorks(s);
  }

  /** A stretch of a run in which every thread gets a step. */
  predicate Fair(steps: seq<Step>) {
    && (exists i :: 0 <= i < |steps| && IsStepOf(steps[i], TheExporter))
    && (exists i :: 0 <= i < |steps| && IsStepOf(steps[i], TheEncoder))
    && (exists i :: 0 <= i < |steps| && IsStepOf(steps[i], TheViewer))
    && (exists i :: 0 <= i < |steps| && IsStepOf(steps[i], TheOwner))
  }

  lemma {:induction false} StretchWorks(s: Router, steps: seq<Step>)
    requires Stopping(s)
    ensures var t := Run(s, steps);
            && Stopping(t) && Work(t) <= Work(s) && (s.owner.Freed? ==> t.owner.Freed?)
            && (Work(t) == Work(s) ==> Same(s, t))
            && (Work(t) == Work(s) && !s.owner.Freed? ==>
                  forall i :: 0 <= i < |steps| ==> !IsStepOf(steps[i], Mover(s)))
  {
    if steps != [] {
      var n := |steps| - 1;
      var u := Run(s, steps[..n]);
      StretchWorks(s, steps[..n]);
      StepWorks(u, steps[n]);
      if Work(u) == Work(s) && !s.owner.Freed? {
        if IsStepOf(steps[n], Mover(s)) { MoverMoves(u, steps[n]); }
        forall i | 0 <= i < n && Work(Run(s, steps)) == Work(s) ensures !IsStepOf(steps[i], Mover(s)) {
          assert steps[..n][i] == steps[i];
        }
      }
    }
  }

  // ---------------------------------------------------------------- main result

  function RunAll(s: Router, stretches: seq<seq<Step>>): Router
    decreases |stretches|
  {
    if stretches == [] then s else RunAll(Run(s, stretches[0]), stretches[1..])
  }

  lemma {:induction false} StretchesFinish(s: Router, stretches: seq<seq<Step>>)
    requires Stopping(s) && forall i :: 0 <= i < |stretches| ==> Fair(stretches[i])
    requires s.owner.Freed? || |stretches| >= Work(s)
    ensures RunAll(s, stretches).owner.Freed?
    decreases |stretches|
  {
    if stretches != [] {
      var t := Run(s, stretches[0]);
      StretchWorks(s, stretches[0]);
      if !s.owner.Freed? {
        var thread := Mover(s);
        assert Fair(stretches[0]);
        assert exists i :: 0 <= i < |stretches[0]| && IsStepOf(stretches[0][i], thread);
      }
      StretchesFinish(t, stretches[1..]);
    }
  }

  lemma {:induction false} ExportsWhileLive(steps: seq<Step>)
    ensures var s := Run(INIT, steps); PhasesOk(s) && (s.exportRunning <==> s.owner.Live?)
  {
    if steps != [] {
      var n := |steps| - 1;
      ExportsWhileLive(steps[..n]);
      StepKeepsPhases(Run(INIT, steps[..n]), steps[n]);
    }
  }

  /** Whatever the run so far, once free is called it returns: after finitely many stretches, at most as
      many as there is work left, in each of which every thread gets a step, whatever the threads do and
      whoever else acts in between. */
  lemma FreeReturns(steps: seq<Step>, stretches: seq<seq<Step>>)
    requires forall i :: 0 <= i < |stretches| ==> Fair(stretches[i])
    requires |stretches| >= Work(Do(Run(INIT, steps), OwnerStep))
    ensures var s := Do(Run(INIT, steps), OwnerStep);
            !s.owner.Live? && !s.exportRunning && RunAll(s, stretches).owner.Freed?
  {
    var s := Run(INIT, steps);
    ExportsWhileLive(steps);
    StepKeepsPhases(s, OwnerStep);
    StretchesFinish(Do(s, OwnerStep), stretches);
  }

  /** Once free has been called nothing more is acquired. */
  lemma NothingIsAcquiredAfterFree(steps: seq<Step>, step: Step)
    requires !Run(INIT, steps).owner.Live?
    ensures Do(Run(INIT, steps), step).next == Run(INIT, steps).next
  {
    ExportsWhileLive(steps);
  }
}
