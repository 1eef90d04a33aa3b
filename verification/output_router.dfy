/** Handing native canvas leases from the exporter to the encoder and preview threads, keeping
    some of them while the encoder reorders, and shutting down.  A step is what a thread does
    under one lock, or the release of one lease. */
module OutputRouter {
  const QUEUE_CAPACITY: nat := 2
  const RETAIN_CAPACITY: nat := 16
  const BFRAME_RETAIN_COUNT: nat := 8

  /** A lease is named by the order in which it was acquired. */
  type Lease = nat

  datatype Mailbox = Output | Snapshot | Preview

  datatype Exporter = EIdle | EHolds(lease: Lease, mailbox: Mailbox) | EGives(lease: Lease) | EStopped
  datatype Encoder =
    | XWait
    | XHolds(lease: Lease, hasManager: bool)
    | XKeeps(lease: Lease)         // submitted with B-frames enabled: to be retained
    | XTrims                       // the tail of retaining: more than 8 held
    | XDrains(lease: Lease)        // the retained leases go first, then this one
    | XGives(lease: Lease)
    | XExit
    | XStopped
  datatype Viewer = VWait | VHolds(lease: Lease) | VStopped
  datatype Owner =
    | Live
    | JoinExport
    | GivePreview(pending: seq<Lease>)
    | JoinPreview
    | GiveQueue(pending: seq<Lease>)
    | JoinEncoder
    | Freed

  datatype EncoderSide = EncoderSide(
    running: bool, manager: bool, queue: seq<Lease>, thread: Encoder, retained: seq<Lease>,
    encoded: seq<Lease>,           // submitted to the encoder, in order
    streak: nat,                   // how many of the last of these were retained one after another
    overflowed: bool)              // the branch for a full retain ring was taken

  datatype PreviewSide = PreviewSide(running: bool, engine: bool, pending: seq<Lease>, thread: Viewer)

  datatype Router = Router(
    next: Lease,                   // leases acquired so far
    exportRunning: bool, exporter: Exporter,
    encoder: EncoderSide,
    preview: PreviewSide,
    owner: Owner,
    released: seq<Lease>)          // every release, in order

  // ---------------------------------------------------------------- the encoder's side

  predicate Accepts(e: EncoderSide) { e.manager && e.running }

  /** The queue is full: its oldest lease makes room. */
  function QueueDrops(e: EncoderSide): seq<Lease> {
    if |e.queue| >= QUEUE_CAPACITY then [e.queue[0]] else []
  }

  function Enqueue(e: EncoderSide, l: Lease): EncoderSide {
    if |e.queue| >= QUEUE_CAPACITY then e.(queue := e.queue[1..] + [l]) else e.(queue := e.queue + [l])
  }

  function EncoderNext(e: EncoderSide, submits: bool, bframes: bool): EncoderSide {
    match e.thread
    case XWait =>
      if e.queue != [] then e.(thread := XHolds(e.queue[0], e.manager), queue := e.queue[1..])
      else if e.running then e
      else e.(thread := XExit)
    case XHolds(l, hasManager) =>
      if !hasManager then e.(thread := XGives(l))
      else if submits && bframes
      then e.(thread := XKeeps(l), encoded := e.encoded + [l], streak := e.streak + 1)
      else e.(thread := XDrains(l), encoded := if submits then e.encoded + [l] else e.encoded, streak := 0)
    case XKeeps(l) =>
      if |e.retained| >= RETAIN_CAPACITY
      then e.(thread := XTrims, retained := e.retained[1..] + [l], overflowed := true)
      else e.(thread := XTrims, retained := e.retained + [l])
    case XTrims =>
      if |e.retained| > BFRAME_RETAIN_COUNT then e.(retained := e.retained[1..]) else e.(thread := XWait)
    case XDrains(l) =>
      if e.retained != [] then e.(retained := e.retained[1..]) else e.(thread := XGives(l))
    case XGives(l) => e.(thread := XWait)
    case XExit =>
      if e.retained != [] then e.(retained := e.retained[1..]) else e.(thread := XStopped)
    case XStopped => e
  }

  /** What that step releases. */
  function EncoderGives(e: EncoderSide): seq<Lease> {
    match e.thread
    case XKeeps(_) => if |e.retained| >= RETAIN_CAPACITY then [e.retained[0]] else []
    case XTrims => if |e.retained| > BFRAME_RETAIN_COUNT then [e.retained[0]] else []
    case XDrains(_) => if e.retained != [] then [e.retained[0]] else []
    case XExit => if e.retained != [] then [e.retained[0]] else []
    case XGives(l) => [l]
    case _ => []
  }

  // ---------------------------------------------------------------- the preview's side

  function ViewerNext(p: PreviewSide): PreviewSide {
    match p.thread
    case VWait =>
      if p.pending != [] then p.(thread := VHolds(p.pending[0]), pending := p.pending[1..])
      else if p.running then p
      else p.(thread := VStopped)
    case VHolds(l) => p.(thread := VWait)
    case VStopped => p
  }

  function ViewerGives(p: PreviewSide): seq<Lease> {
    if p.thread.VHolds? then [p.thread.lease] else []
  }

  // ---------------------------------------------------------------- the exporter and the owner

  function GiveIf(dropped: seq<Lease>): Exporter { if dropped == [] then EIdle else EGives(dropped[0]) }

  /** `toEncoder`: whether an output lease is meant for the encoder. */
  function ExporterLine(s: Router, toEncoder: bool): Router {
    match s.exporter
    case EIdle => if s.exportRunning then s else s.(exporter := EStopped)
    case EHolds(l, Snapshot) => s.(exporter := EGives(l))
    case EHolds(l, Output) =>
      if !toEncoder || !Accepts(s.encoder) then s.(exporter := EGives(l))
      else s.(exporter := GiveIf(QueueDrops(s.encoder)), encoder := Enqueue(s.encoder, l))
    case EHolds(l, Preview) =>
      if !s.preview.engine || !s.preview.running then s.(exporter := EGives(l))
      else s.(exporter := GiveIf(s.preview.pending), preview := s.preview.(pending := [l]))
    case EGives(l) => s.(exporter := EIdle, released := s.released + [l])
    case EStopped => s
  }

  /** sbs_output_router_free, between its lock sections and joins. */
  function OwnerLine(s: Router): Router {
    match s.owner
    case Live => s.(exportRunning := false, owner := JoinExport)
    case JoinExport =>
      if !s.exporter.EStopped? then s
      else s.(owner := GivePreview(s.preview.pending), preview := s.preview.(running := false, pending := []))
    case GivePreview(pending) =>
      if pending == [] then s.(owner := JoinPreview)
      else s.(owner := GivePreview(pending[1..]), released := s.released + [pending[0]])
    case JoinPreview =>
      if !s.preview.thread.VStopped? then s
      else s.(owner := GiveQueue(s.encoder.queue), encoder := s.encoder.(running := false, queue := []))
    case GiveQueue(pending) =>
      if pending == [] then s.(owner := JoinEncoder)
      else s.(owner := GiveQueue(pending[1..]), released := s.released + [pending[0]])
    case JoinEncoder => if s.encoder.thread.XStopped? then s.(owner := Freed) else s
    case Freed => s
  }

  datatype Step =
    | Acquire(mailbox: Mailbox)
    | ExporterStep(toEncoder: bool)
    | EncoderStep(submits: bool, bframes: bool)
    | ViewerStep
    | OwnerStep
    | SetManager(on: bool)
    | SetEngine(on: bool)

  function Do(s: Router, step: Step): Router {
    match step
    case Acquire(mailbox) =>
      if s.exporter.EIdle? && s.exportRunning
      then s.(exporter := EHolds(s.next, mailbox), next := s.next + 1) else s
    case ExporterStep(toEncoder) => ExporterLine(s, toEncoder)
    case EncoderStep(submits, bframes) =>
      s.(encoder := EncoderNext(s.encoder, submits, bframes), released := s.released + EncoderGives(s.encoder))
    case ViewerStep =>
      s.(preview := ViewerNext(s.preview), released := s.released + ViewerGives(s.preview))
    case OwnerStep => OwnerLine(s)
    case SetManager(on) => s.(encoder := s.encoder.(manager := on))
    case SetEngine(on) => s.(preview := s.preview.(engine := on))
  }

  function Run(s: Router, steps: seq<Step>): Router {
    if steps == [] then s else Do(Run(s, steps[..|steps| - 1]), steps[|steps| - 1])
  }

  const INIT: Router :=
    Router(0, true, EIdle, EncoderSide(true, false, [], XWait, [], [], 0, false),
           PreviewSide(true, false, [], VWait), Live, [])
}
