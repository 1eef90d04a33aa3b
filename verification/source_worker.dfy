/** The capture worker: device frames lent out under a sequence number until the server releases
    them, across restarts and recoveries of the device.

    A device frame is named by the order in which it was acquired; a device context by the order
    in which it was opened, from 1 (0 is no context). */
module SourceWorker {
  import opened Wrappers

  const MAX_IN_FLIGHT: nat := 16
  const NOSIG_RECOVER_THRESHOLD: nat := 120
  const STABILITY_CHECK_COUNT: nat := 3
  const LOW_FPS_RECOVER_WINDOWS: nat := 4

  datatype Lease = Lease(active: bool, sequence: nat, frame: nat)
  const NO_LEASE := Lease(false, 0, 0)

  /** The counters of one statistics window. */
  datatype Stats = Stats(
    lastCounter: nat,        // frame_counter when the window began
    attempts: nat, ok: nat, timeouts: nat, nosig: nat, errors: nat,
    noLease: nat, noFd: nat, split: nat, leaseFull: nat, wouldBlock: nat, sendErrors: nat,
    acks: nat, unknownAcks: nat)

  /** What the device driver has seen of one acquired frame. */
  datatype Frame = Frame(
    owner: nat,              // the context it was acquired from
    handedTo: seq<nat>,      // the contexts it was handed back to
    sent: Option<nat>)       // the sequence it was successfully sent under

  datatype Worker = Worker(
    leases: seq<Lease>, ctx: nat, contexts: nat,
    counter: nat, dropped: nat,
    recovering: bool, recoverTimer: bool, shuttingDown: bool,
    nosigRun: nat, lowWindows: nat,
    stableWidth: nat, stableHeight: nat, stableCount: nat,
    stats: Stats,
    frames: seq<Frame>,      // every frame ever acquired
    acked: set<nat>)         // every sequence ever acknowledged

  datatype Acquired = Timeout | NoSignal | Failed | Got(hasFd: bool, splitPlanes: bool)
  datatype SendResult = Sent | WouldBlock | BrokenPipe | SendFailed
  datatype Signal = NoSignalInfo | Size(width: nat, height: nat)
  datatype DeviceEvent = Nothing | PollError | SourceChange | SignalGone

  /** A callback of the worker's main loop, with what the outside world answers during it. */
  datatype Event =
    | FrameTimer(acquired: Acquired, send: SendResult)
    | EventTimer(event: DeviceEvent)
    | StatsTimer(lowFps: bool, opens: bool)
    | RecoverTimer(signal: Signal, opens: bool)
    | ReleaseMessage(sequence: nat)
    | ShutdownMessage

  // ---------------------------------------------------------------- the lease table

  function ActiveFrom(leases: seq<Lease>, i: nat): (n: nat)
    requires i <= |leases|
    ensures n <= |leases| - i
    ensures n == |leases| - i <==> forall k :: i <= k < |leases| ==> leases[k].active
    decreases |leases| - i
  {
    if i == |leases| then 0
    else (if leases[i].active then 1 else 0) + ActiveFrom(leases, i + 1)
  }

  function LeaseCount(leases: seq<Lease>): nat { ActiveFrom(leases, 0) }

  /** The first free place at or after i; |leases| if there is none. */
  function FreeFrom(leases: seq<Lease>, i: nat): (j: nat)
    requires i <= |leases|
    ensures i <= j <= |leases|
    ensures j < |leases| ==> !leases[j].active
    ensures forall k :: i <= k < j ==> leases[k].active
    decreases |leases| - i
  {
    if i == |leases| || !leases[i].active then i else FreeFrom(leases, i + 1)
  }

  /** The first active lease of this sequence at or after i; |leases| if there is none. */
  function FindFrom(leases: seq<Lease>, sequence: nat, i: nat): (j: nat)
    requires i <= |leases|
    ensures i <= j <= |leases|
    ensures j < |leases| ==> leases[j].active && leases[j].sequence == sequence
    ensures forall k :: i <= k < j ==> !(leases[k].active && leases[k].sequence == sequence)
    decreases |leases| - i
  {
    if i == |leases| || (leases[i].active && leases[i].sequence == sequence) then i
    else FindFrom(leases, sequence, i + 1)
  }

  /** vfmcap_release_frame: the driver gets frame f back through the open context. */
  function HandBack(w: Worker, f: nat): Worker {
    if f < |w.frames|
    then w.(frames := w.frames[f := w.frames[f].(handedTo := w.frames[f].handedTo + [w.ctx])])
    else w
  }

  function ReleaseIndex(w: Worker, i: nat): Worker {
    if i >= |w.leases| || !w.leases[i].active then w
    else if w.ctx == 0 then w.(leases := w.leases[i := NO_LEASE])
    else HandBack(w, w.leases[i].frame).(leases := w.leases[i := NO_LEASE])
  }

  function ReleaseSequence(w: Worker, sequence: nat): Worker {
    var i := FindFrom(w.leases, sequence, 0);
    if i < |w.leases|
    then ReleaseIndex(w.(stats := w.stats.(acks := w.stats.acks + 1)), i)
    else w.(stats := w.stats.(unknownAcks := w.stats.unknownAcks + 1))
  }

  /** The leases below n are released, in order. */
  function ReleaseBelow(w: Worker, n: nat): (t: Worker)
    ensures |t.leases| == |w.leases| && |t.frames| == |w.frames|
    ensures t == w.(leases := t.leases, frames := t.frames)
  {
    if n == 0 then w else ReleaseIndex(ReleaseBelow(w, n - 1), n - 1)
  }

  // ---------------------------------------------------------------- the device

  function ResetStats(w: Worker): Worker {
    w.(stats := Stats(w.counter, 0, 0, 0, 0, 0, 0, 0, 0, 0, 0, 0, 0, 0))
  }

  function CloseCurrent(w: Worker): Worker {
    if w.ctx == 0 then w else ReleaseBelow(w, |w.leases|).(ctx := 0)
  }

  /** vfmcap_open and vfmcap_start: both succeed, or the context stays NULL. */
  function OpenStart(w: Worker, opens: bool): Worker {
    if !opens then w.(ctx := 0)
    else w.(contexts := w.contexts + 1, ctx := w.contexts + 1, nosigRun := 0, lowWindows := 0)
  }

  function BeginRecovery(w: Worker): Worker {
    if w.recovering || w.shuttingDown then w
    else
      var t := w.(recovering := true, nosigRun := 0, lowWindows := 0,
                  stableCount := 0, stableWidth := 0, stableHeight := 0);
      ResetStats(CloseCurrent(t)).(recoverTimer := true)
  }

  function RestartNow(w: Worker, opens: bool): Worker {
    if w.recovering || w.shuttingDown then w
    else
      var t := OpenStart(CloseCurrent(w), opens);
      if opens then ResetStats(t) else BeginRecovery(t)
  }

  // ---------------------------------------------------------------- the callbacks

  /** Equal readings in a row are counted. */
  function NoteReading(w: Worker, signal: Signal): Worker {
    match signal
    case NoSignalInfo => w.(stableWidth := 0, stableHeight := 0, stableCount := 0)
    case Size(width, height) =>
      if width == w.stableWidth && height == w.stableHeight
      then w.(stableCount := w.stableCount + 1)
      else w.(stableWidth := width, stableHeight := height, stableCount := 1)
  }

  function OnRecoverTimer(w: Worker, signal: Signal, opens: bool): Worker {
    if w.shuttingDown then w.(recoverTimer := false)
    else
      var t := NoteReading(w, signal);
      if signal.NoSignalInfo? || t.stableCount < STABILITY_CHECK_COUNT then t
      else
        var u := OpenStart(t, opens);
        if opens then ResetStats(u.(recovering := false, recoverTimer := false))
        else u.(stableCount := 0)
  }

  function CountAcquired(w: Worker): Worker {
    w.(frames := w.frames + [Frame(w.ctx, [], None)], nosigRun := 0,
       stats := w.stats.(ok := w.stats.ok + 1))
  }

  /** A frame that was acquired and is not kept goes straight back to the driver. */
  function OnFrame(w: Worker, hasFd: bool, splitPlanes: bool, send: SendResult): Worker {
    var f, t := |w.frames|, CountAcquired(w);
    if !hasFd then HandBack(t.(stats := t.stats.(noFd := t.stats.noFd + 1)), f)
    else if splitPlanes then
      HandBack(t.(stats := t.stats.(split := t.stats.split + 1), dropped := t.dropped + 1), f)
    else Lend(t, f, send)
  }

  /** The frame is leased under the next sequence and sent. */
  function Lend(w: Worker, f: nat, send: SendResult): Worker {
    var i := FreeFrom(w.leases, 0);
    if i == |w.leases| then
      HandBack(w.(stats := w.stats.(leaseFull := w.stats.leaseFull + 1), dropped := w.dropped + 1), f)
    else
      var t := w.(leases := w.leases[i := Lease(true, w.counter, f)]);
      if send.Sent? then MarkSent(t, f) else ReleaseIndex(NoteSendFailure(t, send), i)
  }

  function MarkSent(w: Worker, f: nat): Worker {
    if f < |w.frames|
    then w.(counter := w.counter + 1, frames := w.frames[f := w.frames[f].(sent := Some(w.counter))])
    else w.(counter := w.counter + 1)
  }

  function NoteSendFailure(w: Worker, send: SendResult): Worker
    requires !send.Sent?
  {
    match send
    case WouldBlock => w.(stats := w.stats.(wouldBlock := w.stats.wouldBlock + 1), dropped := w.dropped + 1)
    case BrokenPipe => w.(stats := w.stats.(sendErrors := w.stats.sendErrors + 1))
    case SendFailed => w.(stats := w.stats.(sendErrors := w.stats.sendErrors + 1), dropped := w.dropped + 1)
  }

  function OnNoSignal(w: Worker): Worker {
    var t := w.(stats := w.stats.(nosig := w.stats.nosig + 1), nosigRun := w.nosigRun + 1);
    if t.nosigRun >= NOSIG_RECOVER_THRESHOLD then BeginRecovery(t) else t
  }

  function CountAttempt(w: Worker): Worker {
    w.(stats := w.stats.(attempts := w.stats.attempts + 1))
  }

  function Attempt(w: Worker, acquired: Acquired, send: SendResult): Worker {
    var t := CountAttempt(w);
    match acquired
    case Timeout => t.(stats := t.stats.(timeouts := t.stats.timeouts + 1), nosigRun := 0)
    case NoSignal => OnNoSignal(t)
    case Failed => t.(stats := t.stats.(errors := t.stats.errors + 1))
    case Got(hasFd, splitPlanes) => OnFrame(t, hasFd, splitPlanes, send)
  }

  function OnFrameTimer(w: Worker, acquired: Acquired, send: SendResult): Worker {
    if w.shuttingDown || w.recovering || w.ctx == 0 then w
    else if LeaseCount(w.leases) >= MAX_IN_FLIGHT then
      w.(stats := w.stats.(noLease := w.stats.noLease + 1))
    else Attempt(w, acquired, send)
  }

  function OnEventTimer(w: Worker, event: DeviceEvent): Worker {
    if w.shuttingDown || w.recovering || w.ctx == 0 then w
    else if event.SourceChange? || event.SignalGone? then BeginRecovery(w)
    else w
  }

  /** `lowFps` is the floating-point verdict on the rate; the other conditions are spelled out. */
  function OnStatsTimer(w: Worker, lowFps: bool, opens: bool): Worker {
    if w.shuttingDown then w
    else if lowFps && LeaseCount(w.leases) < MAX_IN_FLIGHT / 2 && w.stats.wouldBlock == 0 &&
            w.stats.sendErrors == 0 && w.stats.leaseFull == 0 then
      var t := w.(lowWindows := w.lowWindows + 1);
      if t.lowWindows >= LOW_FPS_RECOVER_WINDOWS then RestartNow(t, opens) else ResetStats(t)
    else ResetStats(w.(lowWindows := 0))
  }

  function Do(w: Worker, e: Event): Worker {
    match e
    case FrameTimer(acquired, send) => OnFrameTimer(w, acquired, send)
    case EventTimer(event) => OnEventTimer(w, event)
    case StatsTimer(lowFps, opens) => OnStatsTimer(w, lowFps, opens)
    case RecoverTimer(signal, opens) =>
      if w.recoverTimer then OnRecoverTimer(w, signal, opens) else w      // only an armed timer fires
    case ReleaseMessage(sequence) =>
      ReleaseSequence(w, sequence).(acked := w.acked + {sequence})
    case ShutdownMessage => w.(shuttingDown := true)
  }

  function Run(w: Worker, events: seq<Event>): Worker {
    if events == [] then w else Do(Run(w, events[..|events| - 1]), events[|events| - 1])
  }

  function NoLeases(n: nat): (leases: seq<Lease>)
    ensures |leases| == n && forall i :: 0 <= i < n ==> leases[i] == NO_LEASE
  {
    seq(n, _ => NO_LEASE)
  }

  /** After the first successful open. */
  const STARTED: Worker :=
    Worker(NoLeases(MAX_IN_FLIGHT), 1, 1, 0, 0, false, false, false, 0, 0, 0, 0, 0,
           Stats(0, 0, 0, 0, 0, 0, 0, 0, 0, 0, 0, 0, 0, 0), [], {})
}
