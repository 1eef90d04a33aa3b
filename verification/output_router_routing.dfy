/** What becomes of a lease that a thread holds: who gets it, and what it displaces. */
module OutputRouterRouting {
  import opened OutputRouter
  import opened OutputRouterSafety

  /** In every state a run can reach: an output lease meant for the encoder joins its queue if and only if
      a manager is set and the encoder thread runs; a queue of two gives up its oldest lease for it.
      Otherwise the lease is given back. */
  lemma OutputLeaseGoes(steps: seq<Step>, toEncoder: bool, l: Lease)
    requires Run(INIT, steps).exporter == EHolds(l, Output)
    ensures var s := Run(INIT, steps);
            var t, q := Do(s, ExporterStep(toEncoder)), s.encoder.queue;
            if toEncoder && s.encoder.manager && s.encoder.running then
              && t.encoder.queue == (if |q| == 2 then q[1..] else q) + [l]
              && t.exporter == (if |q| == 2 then EGives(q[0]) else EIdle) && |q| <= 2
            else t.exporter == EGives(l) && t.encoder == s.encoder
  {
    RunKeepsInv(steps);
  }

  /** A preview lease replaces the one in the mailbox if and only if there is an engine and its thread
      runs; a snapshot lease is given back.  What is given back is released next. */
  lemma PreviewLeaseGoes(steps: seq<Step>, toEncoder: bool, l: Lease)
    requires Run(INIT, steps).exporter == EHolds(l, Preview)
    ensures var s := Run(INIT, steps);
            var t, p := Do(s, ExporterStep(toEncoder)), s.preview.pending;
            if s.preview.engine && s.preview.running then
              t.preview.pending == [l] && t.exporter == (if |p| == 1 then EGives(p[0]) else EIdle) && |p| <= 1
            else t.exporter == EGives(l) && t.preview == s.preview
  {
    RunKeepsInv(steps);
  }

  lemma GivenBackIsReleased(s: Router, toEncoder: bool, l: Lease)
    ensures s.exporter == EHolds(l, Snapshot) ==> Do(s, ExporterStep(toEncoder)).exporter == EGives(l)
    ensures s.exporter == EGives(l) ==>
              var t := Do(s, ExporterStep(toEncoder)); t.exporter == EIdle && t.released == s.released + [l]
  {
  }

  /** The encoder thread takes the oldest lease of its queue and notes whether a manager is set. */
  lemma EncoderTakesTheOldest(s: Router, submits: bool, bframes: bool)
    requires s.encoder.thread.XWait? && s.encoder.queue != []
    ensures var e, t := s.encoder, Do(s, EncoderStep(submits, bframes)).encoder;
            t.thread == XHolds(e.queue[0], e.manager) && t.queue == e.queue[1..] && t.encoded == e.encoded
  {
  }

  /** A lease is submitted if and only if a manager was set and its descriptor could be duplicated; it is
      retained if and only if it was submitted with B-frames on.  Without a manager it goes back and the
      ring stays; otherwise the ring goes first. */
  lemma EncoderDecides(s: Router, l: Lease, hasManager: bool, submits: bool, bframes: bool)
    requires s.encoder.thread == XHolds(l, hasManager)
    ensures var e, t := s.encoder, Do(s, EncoderStep(submits, bframes)).encoder;
            && t.encoded == (if hasManager && submits then e.encoded + [l] else e.encoded)
            && t.thread == (if !hasManager then XGives(l) else if submits && bframes then XKeeps(l) else XDrains(l))
            && t.retained == e.retained && Do(s, EncoderStep(submits, bframes)).released == s.released
  {
    assert s.released + [] == s.released;
  }

  /** The preview thread takes what is in the mailbox and releases it when shown. */
  lemma ViewerShows(s: Router, l: Lease)
    ensures s.preview.thread.VWait? && s.preview.pending == [l] ==>
              var t := Do(s, ViewerStep); t.preview.thread == VHolds(l) && t.preview.pending == []
    ensures s.preview.thread == VHolds(l) ==>
              var t := Do(s, ViewerStep); t.preview.thread == VWait && t.released == s.released + [l]
  {
  }

  /** The settings that decide this are those last set. */
  lemma SettingsAreKept(s: Router, on: bool)
    ensures Do(s, SetManager(on)).encoder.manager == on && Do(s, SetEngine(on)).preview.engine == on
  {
  }
}
