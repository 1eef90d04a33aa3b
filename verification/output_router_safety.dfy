/** What every run of the hand-off keeps. */
module OutputRouterSafety {
  import opened Counting
  import opened OutputRouter

  // ---------------------------------------------------------------- where a lease is

  function Times(s: seq<Lease>, l: Lease): nat {
    if s == [] then 0 else One(s[0] == l) + Times(s[1..], l)
  }

  function InExporter(e: Exporter, l: Lease): nat { One((e.EHolds? || e.EGives?) && e.lease == l) }

  function InEncoderHand(e: Encoder, l: Lease): nat {
    One((e.XHolds? || e.XKeeps? || e.XDrains? || e.XGives?) && e.lease == l)
  }

  function InEncoder(e: EncoderSide, l: Lease): nat {
    Times(e.queue, l) + Times(e.retained, l) + InEncoderHand(e.thread, l)
  }

  function InPreview(p: PreviewSide, l: Lease): nat {
    Times(p.pending, l) + One(p.thread.VHolds? && p.thread.lease == l)
  }

  function InOwner(o: Owner, l: Lease): nat {
    if o.GivePreview? || o.GiveQueue? then Times(o.pending, l) else 0
  }

  /** How often a lease is to be found, released or not. */
  function Copies(s: Router, l: Lease): nat {
    InExporter(s.exporter, l) + InEncoder(s.encoder, l) + InPreview(s.preview, l) + InOwner(s.owner, l) +
    Times(s.released, l)
  }

  lemma {:induction false} TimesPush(a: seq<Lease>, x: Lease, l: Lease)
    ensures Times(a + [x], l) == Times(a, l) + One(x == l)
  {
    if a == [] {
      assert [] + [x] == [x] && [x][1..] == [];
    } else {
      TimesPush(a[1..], x, l);
      assert (a + [x])[1..] == a[1..] + [x];
    }
  }

  ghost predicate Conserved(s: Router) {
    forall l: Lease :: Copies(s, l) == if l < s.next then 1 else 0
  }

  lemma EnqueueConserves(e: EncoderSide, x: Lease, l: Lease)
    ensures InEncoder(Enqueue(e, x), l) + One(QueueDrops(e) == [l]) == InEncoder(e, l) + One(x == l)
  {
    if |e.queue| >= QUEUE_CAPACITY { TimesPush(e.queue[1..], x, l); } else { TimesPush(e.queue, x, l); }
  }

  lemma KeepConserves(e: EncoderSide, submits: bool, bframes: bool, l: Lease)
    requires e.thread.XKeeps?
    ensures InEncoder(EncoderNext(e, submits, bframes), l) + One(EncoderGives(e) == [l]) == InEncoder(e, l)
  {
    var x := e.thread.lease;
    if |e.retained| >= RETAIN_CAPACITY { TimesPush(e.retained[1..], x, l); } else { TimesPush(e.retained, x, l); }
  }

  lemma DrainConserves(e: EncoderSide, submits: bool, bframes: bool, l: Lease)
    requires e.thread.XTrims? || e.thread.XDrains? || e.thread.XExit?
    ensures InEncoder(EncoderNext(e, submits, bframes), l) + One(EncoderGives(e) == [l]) == InEncoder(e, l)
  {
    var t := EncoderNext(e, submits, bframes);
    assert t.queue == e.queue;
  }

  lemma EncoderConserves(e: EncoderSide, submits: bool, bframes: bool, l: Lease)
    ensures InEncoder(EncoderNext(e, submits, bframes), l) + One(EncoderGives(e) == [l]) == InEncoder(e, l)
  {
    match e.thread
    case XWait =>
    case XHolds(_, _) =>
    case XKeeps(_) => KeepConserves(e, submits, bframes, l);
    case XTrims => DrainConserves(e, submits, bframes, l);
    case XDrains(_) => DrainConserves(e, submits, bframes, l);
    case XExit => DrainConserves(e, submits, bframes, l);
    case XGives(_) =>
    case XStopped =>
  }

  lemma ViewerConserves(p: PreviewSide, l: Lease)
    ensures InPreview(ViewerNext(p), l) + One(ViewerGives(p) == [l]) == InPreview(p, l)
  {
  }

  lemma ReleaseCounts(released: seq<Lease>, given: seq<Lease>, l: Lease)
    requires |given| <= 1
    ensures Times(released + given, l) == Times(released, l) + One(given == [l])
  {
    if given == [] {
      assert released + given == released;
    } else {
      assert given == [given[0]];
      TimesPush(released, given[0], l);
    }
  }

  lemma ExporterConserves(s: Router, toEncoder: bool, l: Lease)
    requires |s.preview.pending| <= 1
    ensures Copies(ExporterLine(s, toEncoder), l) == Copies(s, l)
  {
    match s.exporter
    case EIdle =>
    case EStopped =>
    case EGives(x) => TimesPush(s.released, x, l);
    case EHolds(x, mailbox) =>
      match mailbox
      case Snapshot =>
      case Output => EnqueueConserves(s.encoder, x, l);
      case Preview => MailboxConserves(s.preview.pending, x, l);
  }

  lemma MailboxConserves(pending: seq<Lease>, x: Lease, l: Lease)
    requires |pending| <= 1
    ensures InExporter(GiveIf(pending), l) == Times(pending, l) && Times([x], l) == One(x == l)
  {
    assert [x][1..] == [];
    if pending != [] { assert pending[1..] == []; }
  }

  lemma OwnerConserves(s: Router, l: Lease)
    ensures Copies(OwnerLine(s), l) == Copies(s, l)
  {
    if s.owner.GivePreview? || s.owner.GiveQueue? {
      if s.owner.pending != [] { TimesPush(s.released, s.owner.pending[0], l); }
    }
  }

  lemma StepConserves(s: Router, step: Step)
    requires Conserved(s) && |s.preview.pending| <= 1
    ensures Conserved(Do(s, step))
  {
    var t := Do(s, step);
    forall l: Lease ensures Copies(t, l) == if l < t.next then 1 else 0 {
      assert Copies(s, l) == if l < s.next then 1 else 0;
      StepCopies(s, step, l);
    }
  }

  lemma StepCopies(s: Router, step: Step, l: Lease)
    requires |s.preview.pending| <= 1
    ensures Copies(Do(s, step), l) == Copies(s, l) + One(l == s.next < Do(s, step).next)
  {
    match step
    case Acquire(mailbox) =>
    case ExporterStep(toEncoder) => ExporterConserves(s, toEncoder, l);
    case EncoderStep(submits, bframes) =>
      EncoderConserves(s.encoder, submits, bframes, l);
      ReleaseCounts(s.released, EncoderGives(s.encoder), l);
    case ViewerStep =>
      ViewerConserves(s.preview, l);
      ReleaseCounts(s.released, ViewerGives(s.preview), l);
    case OwnerStep => OwnerConserves(s, l);
    case SetManager(on) =>
    case SetEngine(on) =>
  }

  // ---------------------------------------------------------------- shutting down

  ghost predicate EncoderPhases(e: EncoderSide) {
    && |e.queue| <= QUEUE_CAPACITY
    && (!e.running ==> e.queue == [])
    && (e.thread.XExit? || e.thread.XStopped? ==> !e.running)
    && (e.thread.XStopped? ==> e.retained == [])
  }

  ghost predicate PreviewPhases(p: PreviewSide) {
    && |p.pending| <= 1
    && (!p.running ==> p.pending == [])
    && (p.thread.VStopped? ==> !p.running)
  }

  ghost predicate PhasesOk(s: Router) {
    && EncoderPhases(s.encoder) && PreviewPhases(s.preview)
    && (s.exporter.EStopped? ==> !s.exportRunning)
    && (s.preview.running <==> s.owner.Live? || s.owner.JoinExport?)
    && (s.encoder.running <==> !(s.owner.GiveQueue? || s.owner.JoinEncoder? || s.owner.Freed?))
    && (!s.preview.running ==> s.exporter.EStopped?)
    && (!s.encoder.running ==> s.preview.thread.VStopped?)
    && (s.owner.Freed? ==> s.encoder.thread.XStopped?)
  }

  lemma ExporterKeepsPhases(s: Router, toEncoder: bool)
    requires PhasesOk(s)
    ensures PhasesOk(ExporterLine(s, toEncoder))
  {
    if s.exporter.EHolds? && s.exporter.mailbox.Output? && toEncoder && Accepts(s.encoder) {
      var e := Enqueue(s.encoder, s.exporter.lease);
      assert e.running == s.encoder.running && e.thread == s.encoder.thread && e.retained == s.encoder.retained;
    }
  }

  lemma EncoderKeepsPhases(e: EncoderSide, submits: bool, bframes: bool)
    requires EncoderPhases(e)
    ensures var t := EncoderNext(e, submits, bframes);
            EncoderPhases(t) && t.running == e.running && (e.thread.XStopped? ==> t.thread.XStopped?)
  {
  }

  lemma ViewerKeepsPhases(p: PreviewSide)
    requires PreviewPhases(p)
    ensures var t := ViewerNext(p);
            PreviewPhases(t) && t.running == p.running && (p.thread.VStopped? ==> t.thread.VStopped?)
  {
  }

  lemma OwnerKeepsPhases(s: Router)
    requires PhasesOk(s)
    ensures PhasesOk(OwnerLine(s))
  {
  }

  lemma StepKeepsPhases(s: Router, step: Step)
    requires PhasesOk(s)
    ensures PhasesOk(Do(s, step))
  {
    match step
    case Acquire(mailbox) =>
    case ExporterStep(toEncoder) => ExporterKeepsPhases(s, toEncoder);
    case EncoderStep(submits, bframes) => EncoderKeepsPhases(s.encoder, submits, bframes);
    case ViewerStep => ViewerKeepsPhases(s.preview);
    case OwnerStep => OwnerKeepsPhases(s);
    case SetManager(on) =>
    case SetEngine(on) =>
  }

  // ---------------------------------------------------------------- what is retained

  function Last(s: seq<Lease>, n: nat): (r: seq<Lease>)
    requires n <= |s|
    ensures |r| == n
  {
    s[|s| - n..]
  }

  lemma LastPush(s: seq<Lease>, x: Lease, n: nat)
    requires n <= |s|
    ensures Last(s + [x], n + 1) == Last(s, n) + [x]
  {
  }

  lemma LastDrop(s: seq<Lease>, n: nat)
    requires 0 < n <= |s|
    ensures Last(s, n)[1..] == Last(s, n - 1)
  {
  }

  function Least(a: nat, b: nat): nat { if a <= b then a else b }

  /** The n-th of a run of retained submissions leaves the last eight of them held. */
  ghost predicate RetainedOk(e: EncoderSide) {
    && !e.overflowed && e.streak <= |e.encoded|
    && match e.thread
       case XKeeps(l) =>
         e.streak > 0 && e.encoded[|e.encoded| - 1] == l &&
         e.retained == Last(e.encoded[..|e.encoded| - 1], Least(e.streak - 1, BFRAME_RETAIN_COUNT))
       case XTrims =>
         Least(e.streak, BFRAME_RETAIN_COUNT) <= |e.retained| <= Least(e.streak, BFRAME_RETAIN_COUNT + 1) &&
         e.retained == Last(e.encoded, |e.retained|)
       case XDrains(_) => e.streak == 0
       case XExit => true
       case XStopped => true
       case _ => e.retained == Last(e.encoded, Least(e.streak, BFRAME_RETAIN_COUNT))
  }

  lemma KeepKeepsRetained(e: EncoderSide, submits: bool, bframes: bool)
    requires RetainedOk(e) && e.thread.XKeeps?
    ensures RetainedOk(EncoderNext(e, submits, bframes))
  {
    var before := e.encoded[..|e.encoded| - 1];
    assert e.encoded == before + [e.thread.lease];
    LastPush(before, e.thread.lease, Least(e.streak - 1, BFRAME_RETAIN_COUNT));
  }

  lemma TrimKeepsRetained(e: EncoderSide, submits: bool, bframes: bool)
    requires RetainedOk(e) && e.thread.XTrims?
    ensures RetainedOk(EncoderNext(e, submits, bframes))
  {
    if |e.retained| > BFRAME_RETAIN_COUNT { LastDrop(e.encoded, |e.retained|); }
  }

  lemma SubmitKeepsRetained(e: EncoderSide, submits: bool, bframes: bool)
    requires RetainedOk(e) && e.thread.XHolds?
    ensures RetainedOk(EncoderNext(e, submits, bframes))
  {
    assert (e.encoded + [e.thread.lease])[..|e.encoded|] == e.encoded;
  }

  lemma EncoderKeepsRetained(e: EncoderSide, submits: bool, bframes: bool)
    requires RetainedOk(e)
    ensures RetainedOk(EncoderNext(e, submits, bframes))
  {
    match e.thread
    case XWait =>
    case XHolds(_, _) => SubmitKeepsRetained(e, submits, bframes);
    case XKeeps(_) => KeepKeepsRetained(e, submits, bframes);
    case XTrims => TrimKeepsRetained(e, submits, bframes);
    case XDrains(_) =>
    case XGives(_) =>
    case XExit =>
    case XStopped =>
  }

  lemma StepKeepsRetained(s: Router, step: Step)
    requires RetainedOk(s.encoder)
    ensures RetainedOk(Do(s, step).encoder)
  {
    if step.EncoderStep? { EncoderKeepsRetained(s.encoder, step.submits, step.bframes); }
  }

  // ---------------------------------------------------------------- the order of submission

  ghost predicate AllBelow(s: seq<Lease>, limit: Lease) {
    forall i :: 0 <= i < |s| ==> s[i] < limit
  }

  function Front(queue: seq<Lease>, limit: Lease): Lease { if queue == [] then limit else queue[0] }

  /** What was submitted, what the thread is about to submit and what is queued were acquired in
      that order, all of it before `limit`. */
  ghost predicate InOrder(e: EncoderSide, limit: Lease) {
    && Increasing(e.encoded) && Increasing(e.queue) && AllBelow(e.queue, limit)
    && if e.thread.XHolds?
       then AllBelow(e.encoded, e.thread.lease) && e.thread.lease < Front(e.queue, limit)
       else AllBelow(e.encoded, Front(e.queue, limit))
  }

  function Limit(s: Router): Lease {
    if s.exporter.EHolds? then s.exporter.lease else s.next
  }

  ghost predicate OrderOk(s: Router) {
    InOrder(s.encoder, Limit(s)) && Limit(s) <= s.next && (s.exporter.EHolds? ==> Limit(s) < s.next)
  }

  lemma TakeKeepsOrder(e: EncoderSide, submits: bool, bframes: bool, limit: Lease)
    requires InOrder(e, limit) && e.thread.XWait?
    ensures InOrder(EncoderNext(e, submits, bframes), limit)
  {
  }

  lemma SubmitKeepsOrder(e: EncoderSide, submits: bool, bframes: bool, limit: Lease)
    requires InOrder(e, limit) && e.thread.XHolds?
    ensures InOrder(EncoderNext(e, submits, bframes), limit)
  {
    var t := EncoderNext(e, submits, bframes);
    assert t.queue == e.queue && (t.encoded == e.encoded || t.encoded == e.encoded + [e.thread.lease]);
  }

  lemma EncoderKeepsOrder(e: EncoderSide, submits: bool, bframes: bool, limit: Lease)
    requires InOrder(e, limit)
    ensures InOrder(EncoderNext(e, submits, bframes), limit)
  {
    match e.thread
    case XWait => TakeKeepsOrder(e, submits, bframes, limit);
    case XHolds(_, _) => SubmitKeepsOrder(e, submits, bframes, limit);
    case _ =>
      var t := EncoderNext(e, submits, bframes);
      assert t.encoded == e.encoded && t.queue == e.queue && !t.thread.XHolds?;
  }

  lemma EnqueueKeepsOrder(e: EncoderSide, l: Lease, limit: Lease)
    requires InOrder(e, l) && l < limit
    ensures InOrder(Enqueue(e, l), limit)
  {
    var rest := if |e.queue| >= QUEUE_CAPACITY then e.queue[1..] else e.queue;
    assert Enqueue(e, l).queue == rest + [l];
    assert Increasing(rest) && AllBelow(rest, l) && Front(e.queue, l) <= Front(rest + [l], limit);
  }

  lemma ExporterKeepsOrder(s: Router, toEncoder: bool)
    requires OrderOk(s)
    ensures OrderOk(ExporterLine(s, toEncoder))
  {
    if s.exporter.EHolds? && s.exporter.mailbox.Output? && toEncoder && Accepts(s.encoder) {
      EnqueueKeepsOrder(s.encoder, s.exporter.lease, s.next);
    } else {
      assert ExporterLine(s, toEncoder).encoder == s.encoder;
    }
  }

  lemma OwnerKeepsOrder(s: Router)
    requires OrderOk(s)
    ensures OrderOk(OwnerLine(s))
  {
    var t := OwnerLine(s);
    assert t.exporter == s.exporter && t.next == s.next;
    assert t.encoder == s.encoder || t.encoder == s.encoder.(running := false, queue := []);
  }

  lemma StepKeepsOrder(s: Router, step: Step)
    requires OrderOk(s)
    ensures OrderOk(Do(s, step))
  {
    match step
    case Acquire(mailbox) =>
    case ExporterStep(toEncoder) => ExporterKeepsOrder(s, toEncoder);
    case EncoderStep(submits, bframes) => EncoderKeepsOrder(s.encoder, submits, bframes, Limit(s));
    case ViewerStep =>
    case OwnerStep => OwnerKeepsOrder(s);
    case SetManager(on) =>
    case SetEngine(on) =>
  }

  lemma RingKeepsOrder(e: EncoderSide, submits: bool, bframes: bool)
    requires RetainedOk(e) && Increasing(e.encoded) && Increasing(e.retained)
    ensures Increasing(EncoderNext(e, submits, bframes).retained)
  {
    var t := EncoderNext(e, submits, bframes);
    if e.thread.XKeeps? {
      assert t.retained == e.retained + [e.encoded[|e.encoded| - 1]];
      assert forall i :: 0 <= i < |e.retained| ==> e.retained[i] in e.encoded[..|e.encoded| - 1];
    } else {
      assert t.retained == e.retained || (e.retained != [] && t.retained == e.retained[1..]);
    }
  }

  // ---------------------------------------------------------------- main results

  ghost predicate Inv(s: Router) {
    Conserved(s) && PhasesOk(s) && RetainedOk(s.encoder) && OrderOk(s) && Increasing(s.encoder.retained)
  }

  lemma DoKeepsInv(s: Router, step: Step)
    requires Inv(s)
    ensures Inv(Do(s, step))
  {
    StepConserves(s, step);
    StepKeepsPhases(s, step);
    StepKeepsRetained(s, step);
    StepKeepsOrder(s, step);
    StepKeepsRing(s, step);
  }

  lemma StepKeepsRing(s: Router, step: Step)
    requires RetainedOk(s.encoder) && Increasing(s.encoder.encoded) && Increasing(s.encoder.retained)
    ensures Increasing(Do(s, step).encoder.retained)
  {
    if step.EncoderStep? { RingKeepsOrder(s.encoder, step.submits, step.bframes); }
  }

  lemma InitIsInv()
    ensures Inv(INIT)
  {
  }

  lemma {:induction false} RunKeepsInv(steps: seq<Step>)
    ensures Inv(Run(INIT, steps))
  {
    if steps == [] {
      InitIsInv();
    } else {
      RunKeepsInv(steps[..|steps| - 1]);
      DoKeepsInv(Run(INIT, steps[..|steps| - 1]), steps[|steps| - 1]);
    }
  }

  /** Over every interleaving: each acquired lease is in exactly one place - a thread's hand, the
      queue, the retain ring, the mailbox - or released, once. */
  lemma EveryLeaseInOnePlace(steps: seq<Step>, l: Lease)
    ensures var s := Run(INIT, steps);
            Copies(s, l) == (if l < s.next then 1 else 0) && Times(s.released, l) <= 1
  {
    RunKeepsInv(steps);
  }

  /** When free returns, every lease ever acquired was released, exactly once. */
  lemma AllReleasedWhenFreed(steps: seq<Step>, l: Lease)
    requires Run(INIT, steps).owner.Freed?
    ensures var s := Run(INIT, steps);
            Times(s.released, l) == if l < s.next then 1 else 0
  {
    RunKeepsInv(steps);
    var s := Run(INIT, steps);
    assert Copies(s, l) == if l < s.next then 1 else 0;
  }

  /** Frames reach the encoder in the order in which they were acquired. */
  lemma SubmittedInOrder(steps: seq<Step>)
    ensures Increasing(Run(INIT, steps).encoder.encoded)
  {
    RunKeepsInv(steps);
  }

  lemma {:induction false} CountIn(s: seq<Lease>, i: nat)
    requires i < |s|
    ensures Times(s, s[i]) > 0
  {
    if i > 0 { CountIn(s[1..], i - 1); }
  }

  /** Over every run: whenever a lease is to be retained the ring of 16 holds at most eight, so the branch
      for a full ring is never taken. */
  lemma RetainRingNeverFull(steps: seq<Step>)
    ensures var e := Run(INIT, steps).encoder; !e.overflowed && (e.thread.XKeeps? ==> |e.retained| <= 8)
    ensures RETAIN_CAPACITY == 16
  {
    RunKeepsInv(steps);
  }

  /** The leases of the last eight frames retained one after another - since B-frames were turned on
      and since a submission last failed - are unreleased. */
  lemma LastEightAreHeld(steps: seq<Step>, k: nat)
    requires var e := Run(INIT, steps).encoder; k < Least(e.streak, 8)
    requires var e := Run(INIT, steps).encoder; !e.thread.XExit? && !e.thread.XStopped?
    ensures var s := Run(INIT, steps);
            && k < |s.encoder.encoded| && !s.encoder.overflowed
            && Times(s.released, s.encoder.encoded[|s.encoder.encoded| - 1 - k]) == 0
  {
    RunKeepsInv(steps);
    var s := Run(INIT, steps);
    var l := s.encoder.encoded[|s.encoder.encoded| - 1 - k];
    RecentIsHeld(s.encoder, k);
    assert Copies(s, l) <= 1;
  }

  lemma RecentIsHeld(e: EncoderSide, k: nat)
    requires RetainedOk(e) && !e.thread.XExit? && !e.thread.XStopped?
    requires k < Least(e.streak, BFRAME_RETAIN_COUNT)
    ensures InEncoder(e, e.encoded[|e.encoded| - 1 - k]) >= 1
  {
    var l := e.encoded[|e.encoded| - 1 - k];
    if e.thread.XKeeps? && k == 0 {
      assert InEncoderHand(e.thread, l) == 1;
    } else {
      var i := if e.thread.XKeeps? then |e.retained| - k else |e.retained| - 1 - k;
      assert e.retained[i] == l;
      CountIn(e.retained, i);
    }
  }

  /** The ring gives up its leases oldest first: a step of the encoder thread releases at most one
      lease, and from the ring none but the first acquired of those in it. */
  lemma ReleasedOldestFirst(steps: seq<Step>, i: nat)
    requires i < |Run(INIT, steps).encoder.retained|
    ensures var e := Run(INIT, steps).encoder;
            && |EncoderGives(e)| <= 1
            && (EncoderGives(e) != [] && !e.thread.XGives? ==> EncoderGives(e)[0] <= e.retained[i])
  {
    RunKeepsInv(steps);
  }
}
