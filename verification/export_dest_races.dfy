/** One export slot as the exporter thread and the compositor thread share it, load by load and store
    by store: which overlaps of a submission, a release and a retire do what the atomic operations of
    ExportDest do, and which ones lose or lend out the slot. */
module ExportDestRaces {
  import E = ExportDest
  import S = ExportDestSafety
  import opened Counting

  /** Where a thread is in retiring a render target that points at the slot. */
  datatype Retire =
    | Done
    | Took(target: nat)                // the pointer is read
    | Loaded(target: nat)              // the count is read and is not zero
    | Left(target: nat, left: int)     // what the count is taken to be after this retire
    | Freeing(target: nat)             // none left and the release flag was seen
    | Checked(target: nat)             // only the pointer is left to clear

  datatype Exporter =
    | Idle
    | Claimed(target: nat)             // the GPU has the export; its slot is not noted yet
    | Published(target: nat)           // the target points at the slot, which does not count it yet
    | Counted                          // the release flag of the slot's last use may still be up
    | Cleared
    | SawNone                          // releasing: the count read is zero
    | SawRefs                          // releasing: the count read is not zero
    | Flagged
    | Displacing(retire: Retire)       // another slot goes to this slot's target: retired without the lock
    | Replacing(target: nat)           // waits for the lock to point the target at the other slot

  /** `refs` is the unsigned counter read as a distance from zero: it is only ever compared with zero. */
  datatype Mem = Mem(
    refs: int, pendingFree: bool, state: E.SlotState,
    held: bool,                        // a consumer has the slot
    targets: set<nat>,                 // the render targets that point at the slot
    unpaid: set<nat>,                  // those of them that are still to be taken off the count
    leaked: nat,                       // counted references that no target will take off
    doubled: nat,                      // references taken off twice
    early: bool,                       // the slot was freed while submitted, ready or held
    missed: bool)                      // the last retire did not free the released slot, nor did any since

  /** `stale`: the compositor checked the release flag between a submission's count and its clearing. */
  datatype System = System(mem: Mem, exp: Exporter, comp: Retire, stale: bool)

  datatype Step =
    | Claim(target: nat) | Refuse | PollReady | Acquire | StartRelease
    | Displace(target: nat)
    | Advance                          // the exporter's next load or store
    | Take(target: nat)
    | AdvanceCompositor                // the compositor's, which has the lock until it is done

  // ---------------------------------------------------------------- retiring

  function RetireNext(m: Mem, r: Retire): Retire {
    match r
    case Done => Done
    case Took(t) => if m.refs == 0 then Left(t, 0) else Loaded(t)
    case Loaded(t) => Left(t, m.refs - 1)
    case Left(t, left) => if left == 0 && m.pendingFree then Freeing(t) else Checked(t)
    case Freeing(t) => Checked(t)
    case Checked(_) => Done
  }

  predicate Lent(m: Mem) { m.state.Submitted? || m.state.Ready? || m.held }

  function RetireMem(m: Mem, r: Retire): Mem {
    match r
    case Done => m
    case Took(t) =>
      if m.refs == 0 then m.(leaked := m.leaked + One(t in m.unpaid), unpaid := m.unpaid - {t}) else m
    case Loaded(t) =>
      m.(refs := m.refs - 1, doubled := m.doubled + One(t !in m.unpaid), unpaid := m.unpaid - {t})
    case Left(_, _) => m
    case Freeing(_) => m.(state := E.Free, missed := false, early := m.early || Lent(m))
    case Checked(t) => m.(targets := m.targets - {t}, unpaid := m.unpaid - {t})
  }

  /** The retire's check, or its freeing, falls between a release's load and its last store. */
  predicate Misses(s: System) {
    || (s.comp.Left? && s.comp.left == 0 && !s.mem.pendingFree && s.exp.SawRefs?)
    || (s.comp.Freeing? && s.exp.Flagged?)
  }

  function CompositorMem(s: System): Mem {
    var m := RetireMem(s.mem, s.comp);
    m.(missed := m.missed || Misses(s))
  }

  function AdvanceComp(s: System): System {
    System(CompositorMem(s), s.exp, RetireNext(s.mem, s.comp), if s.comp.Left? then s.exp.Counted? else s.stale)
  }

  // ---------------------------------------------------------------- the exporter

  function AdvanceExp(s: System): System {
    var m := s.mem;
    match s.exp
    case Idle => s
    case Claimed(t) =>
      if s.comp != Done then s
      else s.(exp := Published(t),
              mem := m.(targets := m.targets + {t}, leaked := m.leaked + One(t in m.unpaid), unpaid := m.unpaid + {t}))
    case Published(_) => s.(exp := Counted, mem := m.(refs := m.refs + 1))
    case Counted => s.(exp := Cleared, mem := m.(pendingFree := false))
    case Cleared => s.(exp := Idle, mem := m.(state := E.Submitted))
    case SawNone => s.(exp := Idle, mem := m.(state := E.Free))
    case SawRefs => s.(exp := Flagged, mem := m.(pendingFree := true))
    case Flagged => s.(exp := Idle, mem := m.(state := E.InUse))
    case Displacing(r) =>
      s.(mem := RetireMem(m, r), exp := if r.Checked? then Replacing(r.target) else Displacing(RetireNext(m, r)))
    case Replacing(_) => if s.comp == Done then s.(exp := Idle) else s
  }

  predicate Allowed(s: System, step: Step) {
    match step
    case Claim(_) => s.exp.Idle? && s.mem.state.Free?
    case Refuse => s.exp.Claimed?
    case PollReady => s.exp.Idle? && s.mem.state.Submitted?
    case Acquire => s.exp.Idle? && s.mem.state.Ready?
    case StartRelease => s.exp.Idle? && s.mem.held
    case Displace(t) => s.exp.Idle? && t in s.mem.targets
    case Advance => true
    case Take(t) => s.comp.Done? && t in s.mem.targets
    case AdvanceCompositor => true
  }

  function Do(s: System, step: Step): System {
    if !Allowed(s, step) then s
    else match step
      case Claim(t) => s.(exp := Claimed(t), mem := s.mem.(state := E.InUse))
      case Refuse => s.(exp := Idle, mem := s.mem.(state := E.Free))
      case PollReady => s.(mem := s.mem.(state := E.Ready))
      case Acquire => s.(mem := s.mem.(state := E.InUse, held := true))
      case StartRelease => s.(exp := if s.mem.refs == 0 then SawNone else SawRefs, mem := s.mem.(held := false))
      case Displace(t) => s.(exp := Displacing(Took(t)))
      case Advance => AdvanceExp(s)
      case Take(t) => s.(comp := Took(t))
      case AdvanceCompositor => AdvanceComp(s)
  }

  const START := System(Mem(0, false, E.Free, false, {}, {}, 0, 0, false, false), Idle, Done, false)

  function Run(steps: seq<Step>): System {
    if steps == [] then START else Do(Run(steps[..|steps| - 1]), steps[|steps| - 1])
  }

  ghost predicate Reachable(s: System) {
    exists steps :: Reaches(steps, s)
  }

  ghost predicate Reaches(steps: seq<Step>, s: System) {
    s == Run(steps)
  }

  lemma ReachNext(s: System, step: Step)
    requires Reachable(s)
    ensures Reachable(Do(s, step))
  {
    var steps :| Reaches(steps, s);
    assert (steps + [step])[..|steps|] == steps;
    assert Reaches(steps + [step], Do(s, step));
  }

  // ---------------------------------------------------------------- the count

  function ExpRetire(e: Exporter): Retire { if e.Displacing? then e.retire else Done }

  predicate PastCount(r: Retire, t: nat) { (r.Left? || r.Freeing? || r.Checked?) && r.target == t }

  predicate BeforeCount(r: Retire) { r.Took? || r.Loaded? }

  /** Every reference is counted once, but for those leaked and doubled. */
  ghost predicate Books(s: System) {
    var m := s.mem;
    && m.unpaid <= m.targets
    && (forall t :: t in m.targets ==> t in m.unpaid || PastCount(s.comp, t) || PastCount(ExpRetire(s.exp), t))
    && (forall t :: t in m.unpaid ==> !PastCount(s.comp, t) && !PastCount(ExpRetire(s.exp), t))
    && (BeforeCount(s.comp) ==> s.comp.target in m.targets || s.exp == Replacing(s.comp.target))
    && (s.exp.Replacing? ==> s.exp.target !in m.targets)
    && m.refs + One(s.exp.Published?) + m.doubled == |m.unpaid| + m.leaked
  }

  lemma Less(u: set<nat>, t: nat)
    ensures |u - {t}| == |u| - One(t in u)
  {
    if t !in u { assert u - {t} == u; }
  }

  lemma More(u: set<nat>, t: nat)
    ensures |u + {t}| == |u| + One(t !in u)
  {
    if t in u { assert u + {t} == u; }
  }

  lemma RetireKeepsCount(m: Mem, r: Retire)
    ensures var n := RetireMem(m, r);
            (r.Checked? ==> r.target !in m.unpaid) ==> n.refs + n.doubled - |n.unpaid| - n.leaked ==
                                                       m.refs + m.doubled - |m.unpaid| - m.leaked
  {
    if r != Done { Less(m.unpaid, r.target); }
  }

  lemma AdvanceCompKeepsBooks(s: System)
    requires Books(s)
    ensures Books(AdvanceComp(s))
  {
    RetireKeepsCount(s.mem, s.comp);
    if s.comp.Checked? { assert PastCount(s.comp, s.comp.target); }
  }

  lemma AdvanceExpKeepsBooks(s: System)
    requires Books(s)
    ensures Books(AdvanceExp(s))
  {
    if s.exp.Claimed? {
      ClaimedKeepsBooks(s);
    } else if s.exp.Displacing? {
      DisplaceKeepsBooks(s);
    } else {
      OtherLinesKeepBooks(s);
    }
  }

  lemma ClaimedKeepsBooks(s: System)
    requires Books(s) && s.exp.Claimed?
    ensures Books(AdvanceExp(s))
  {
    More(s.mem.unpaid, s.exp.target);
  }

  lemma OtherLinesKeepBooks(s: System)
    requires Books(s) && !s.exp.Claimed? && !s.exp.Displacing?
    ensures Books(AdvanceExp(s))
  {
    if AdvanceExp(s) != s {
      OtherLine(s);
      SameBooks(s, AdvanceExp(s));
    }
  }

  lemma OtherLine(s: System)
    requires !s.exp.Claimed? && !s.exp.Displacing? && AdvanceExp(s) != s
    ensures var t := AdvanceExp(s);
            && t.comp == s.comp && (s.exp.Replacing? ==> s.comp.Done?)
            && t.mem.targets == s.mem.targets && t.mem.unpaid == s.mem.unpaid
            && t.mem.leaked == s.mem.leaked && t.mem.doubled == s.mem.doubled
            && !t.exp.Displacing? && !t.exp.Replacing?
            && t.mem.refs + One(t.exp.Published?) == s.mem.refs + One(s.exp.Published?)
  {
  }

  /** The books do not look at the flag, the state or the consumer. */
  lemma SameBooks(s: System, t: System)
    requires Books(s) && t.comp == s.comp && (s.exp.Replacing? ==> s.comp.Done?)
    requires t.mem.targets == s.mem.targets && t.mem.unpaid == s.mem.unpaid
    requires t.mem.leaked == s.mem.leaked && t.mem.doubled == s.mem.doubled
    requires !s.exp.Displacing? && !t.exp.Displacing? && !t.exp.Replacing?
    requires t.mem.refs + One(t.exp.Published?) == s.mem.refs + One(s.exp.Published?)
    ensures Books(t)
  {
  }

  lemma DisplaceKeepsBooks(s: System)
    requires Books(s) && s.exp.Displacing?
    ensures Books(AdvanceExp(s))
  {
    var r := s.exp.retire;
    RetireKeepsCount(s.mem, r);
    if r.Checked? {
      assert PastCount(ExpRetire(s.exp), r.target);
      DisplacedKeepsBooks(s);
    }
  }

  /** The end of it: the pointer is cleared. */
  lemma DisplacedKeepsBooks(s: System)
    requires Books(s) && s.exp.Displacing? && s.exp.retire.Checked? && s.exp.retire.target !in s.mem.unpaid
    ensures Books(AdvanceExp(s))
  {
    RetireKeepsCount(s.mem, s.exp.retire);
  }

  lemma DoKeepsBooks(s: System, step: Step)
    requires Books(s)
    ensures Books(Do(s, step))
  {
    if step.Advance? {
      AdvanceExpKeepsBooks(s);
    } else if step.AdvanceCompositor? {
      AdvanceCompKeepsBooks(s);
    }
  }

  lemma {:induction false} RunKeepsBooks(steps: seq<Step>)
    ensures Books(Run(steps))
  {
    if steps != [] {
      RunKeepsBooks(steps[..|steps| - 1]);
      DoKeepsBooks(Run(steps[..|steps| - 1]), steps[|steps| - 1]);
    }
  }

  predicate AtRest(s: System) { s.exp.Idle? && s.comp.Done? }

  /** Over every run, however the threads overlap: the count, the reference a submission has still to
      count, and those taken off twice make up the targets still to be taken off and those leaked. With
      both threads at rest the count is right exactly if as many were leaked as were taken off twice. */
  lemma CountAccounts(s: System)
    requires Reachable(s)
    ensures s.mem.refs + One(s.exp.Published?) + s.mem.doubled == |s.mem.unpaid| + s.mem.leaked
    ensures AtRest(s) ==> s.mem.unpaid == s.mem.targets
    ensures AtRest(s) ==> (s.mem.refs == |s.mem.targets| <==> s.mem.leaked == s.mem.doubled)
  {
    var steps :| Reaches(steps, s);
    RunKeepsBooks(steps);
  }

  // ---------------------------------------------------------------- the slot while the count is right

  predicate Sound(m: Mem) { m.leaked == 0 && m.doubled == 0 && !m.early }

  predicate Zero(r: Retire) { r.Freeing? || (r.Left? && r.left == 0) }

  /** A released slot that is still counted will be freed by a retire, unless that was missed. */
  predicate WillBeFreed(s: System) {
    s.mem.unpaid != {} || Zero(s.comp) || Zero(ExpRetire(s.exp)) || s.mem.missed
  }

  predicate QuietOk(s: System) {
    var m := s.mem;
    && (m.missed ==> m.state.InUse? && !m.held && m.pendingFree)
    && (m.state.Free? ==> m.unpaid == {} && !m.held)
    && (m.state.Submitted? || m.state.Ready? ==> !m.pendingFree && !m.held)
    && (m.state.InUse? && m.held ==> !m.pendingFree)
    && (m.state.InUse? && !m.held ==> m.pendingFree && WillBeFreed(s))
    && (s.comp.Freeing? && !s.stale ==> !Lent(m))
    && (ExpRetire(s.exp).Freeing? ==> !Lent(m))
  }

  predicate PhaseOk(s: System) {
    var m := s.mem;
    match s.exp
    case Claimed(_) => m.unpaid == {} && !Lent(m) && !m.missed
    case Published(t) =>
      && m.unpaid == m.targets == {t} && !m.held && !m.missed && (s.comp == Done || s.comp == Took(t))
    case Counted => !m.held && !m.missed && (s.comp.Freeing? ==> s.stale)
    case Cleared => !m.held && !m.missed && !m.pendingFree && (s.comp.Freeing? ==> s.stale)
    case SawNone => m.unpaid == {} && !Lent(m) && !m.missed
    case SawRefs => !m.held && !m.pendingFree && m.state.InUse? && !s.comp.Freeing? && WillBeFreed(s)
    case Flagged => !Lent(m) && m.pendingFree && WillBeFreed(s)
    case _ => QuietOk(s)
  }

  predicate ZeroMeansNone(s: System) {
    s.mem.missed || Zero(s.comp) || Zero(ExpRetire(s.exp)) ==> s.mem.unpaid == {}
  }

  predicate Phases(s: System) { PhaseOk(s) && ZeroMeansNone(s) }

  /** The count read zero says that no target is still to be taken off. */
  predicate CountTells(s: System) {
    if s.exp.Published? then s.mem.refs + 1 == |s.mem.unpaid| else s.mem.refs == 0 <==> s.mem.unpaid == {}
  }

  lemma SoundCountTells(s: System)
    requires Books(s) && Sound(s.mem)
    ensures CountTells(s)
  {
  }

  lemma AdvanceExpKeepsPhases(s: System)
    requires Books(s) && CountTells(s) && Phases(s) && Sound(AdvanceExp(s).mem) && CountTells(AdvanceExp(s))
    ensures Phases(AdvanceExp(s))
  {
    if s.exp.Displacing? {
      DisplaceKeepsPhases(s);
    } else if s.exp.Claimed? {
      PublishKeepsPhases(s);
    } else {
      StoreKeepsPhases(s);
    }
  }

  lemma PublishKeepsPhases(s: System)
    requires Books(s) && Phases(s) && s.exp.Claimed?
    ensures Phases(AdvanceExp(s))
  {
  }

  lemma StoreKeepsPhases(s: System)
    requires Phases(s) && !s.exp.Displacing? && !s.exp.Claimed?
    ensures Phases(AdvanceExp(s))
  {
  }

  lemma DisplaceKeepsPhases(s: System)
    requires CountTells(s) && Phases(s) && s.exp.Displacing? && CountTells(AdvanceExp(s))
    requires Sound(AdvanceExp(s).mem)
    ensures Phases(AdvanceExp(s))
  {
    DisplaceKeepsZero(s);
    if BeforeCount(s.exp.retire) { CountingKeepsQuiet(s); } else { SettlingKeepsQuiet(s); }
  }

  lemma CountingKeepsQuiet(s: System)
    requires CountTells(s) && QuietOk(s) && ZeroMeansNone(s) && CountTells(AdvanceExp(s))
    requires s.exp.Displacing? && BeforeCount(s.exp.retire)
    ensures QuietOk(AdvanceExp(s))
  {
    var m, n := s.mem, AdvanceExp(s).mem;
    assert n.state == m.state && n.held == m.held && n.pendingFree == m.pendingFree && n.missed == m.missed;
    assert n.unpaid <= m.unpaid && (m.unpaid == {} ==> n.unpaid == {});
  }

  lemma SettlingKeepsQuiet(s: System)
    requires CountTells(s) && QuietOk(s) && ZeroMeansNone(s) && CountTells(AdvanceExp(s))
    requires s.exp.Displacing? && !BeforeCount(s.exp.retire)
    ensures QuietOk(AdvanceExp(s))
  {
  }

  lemma DisplaceKeepsZero(s: System)
    requires CountTells(s) && ZeroMeansNone(s) && s.exp.Displacing? && CountTells(AdvanceExp(s))
    ensures ZeroMeansNone(AdvanceExp(s))
  {
  }

  lemma AdvanceCompKeepsPhases(s: System)
    requires CountTells(s) && Phases(s) && Sound(AdvanceComp(s).mem) && CountTells(AdvanceComp(s))
    ensures Phases(AdvanceComp(s))
  {
    AdvanceCompKeepsZero(s);
    if s.exp.Idle? || s.exp.Displacing? || s.exp.Replacing? {
      AdvanceCompKeepsQuiet(s);
    } else if s.exp.SawRefs? || s.exp.Flagged? {
      AdvanceCompKeepsReleasing(s);
    }
  }

  lemma AdvanceCompKeepsReleasing(s: System)
    requires CountTells(s) && PhaseOk(s) && CountTells(AdvanceComp(s))
    requires s.exp.SawRefs? || s.exp.Flagged?
    ensures PhaseOk(AdvanceComp(s))
  {
  }

  lemma AdvanceCompKeepsZero(s: System)
    requires CountTells(s) && Phases(s) && Sound(AdvanceComp(s).mem) && CountTells(AdvanceComp(s))
    ensures ZeroMeansNone(AdvanceComp(s))
  {
  }

  lemma AdvanceCompKeepsQuiet(s: System)
    requires CountTells(s) && QuietOk(s) && Sound(AdvanceComp(s).mem) && CountTells(AdvanceComp(s))
    requires ZeroMeansNone(s) && ZeroMeansNone(AdvanceComp(s))
    requires s.exp.Idle? || s.exp.Displacing? || s.exp.Replacing?
    ensures QuietOk(AdvanceComp(s))
  {
    if BeforeCount(s.comp) { CompCountingKeepsQuiet(s); } else { CompSettlingKeepsQuiet(s); }
  }

  lemma CompCountingKeepsQuiet(s: System)
    requires CountTells(s) && QuietOk(s) && ZeroMeansNone(s) && CountTells(AdvanceComp(s))
    requires (s.exp.Idle? || s.exp.Displacing? || s.exp.Replacing?) && BeforeCount(s.comp)
    ensures QuietOk(AdvanceComp(s))
  {
    var m, n := s.mem, AdvanceComp(s).mem;
    assert n.state == m.state && n.held == m.held && n.pendingFree == m.pendingFree && n.missed == m.missed;
    assert n.unpaid <= m.unpaid && (m.unpaid == {} ==> n.unpaid == {});
  }

  lemma CompSettlingKeepsQuiet(s: System)
    requires CountTells(s) && QuietOk(s) && ZeroMeansNone(s) && CountTells(AdvanceComp(s))
    requires (s.exp.Idle? || s.exp.Displacing? || s.exp.Replacing?) && !BeforeCount(s.comp)
    requires Sound(AdvanceComp(s).mem)
    ensures QuietOk(AdvanceComp(s))
  {
  }

  lemma CallKeepsPhases(s: System, step: Step)
    requires CountTells(s) && Phases(s) && !step.Advance? && !step.AdvanceCompositor?
    ensures Phases(Do(s, step))
  {
  }

  lemma DoKeepsPhases(s: System, step: Step)
    requires Books(s) && Sound(s.mem) && Phases(s) && Sound(Do(s, step).mem)
    ensures Phases(Do(s, step))
  {
    var t := Do(s, step);
    SoundCountTells(s);
    DoKeepsBooks(s, step);
    SoundCountTells(t);
    if step.Advance? {
      assert t == AdvanceExp(s);
      AdvanceExpKeepsPhases(s);
    } else if step.AdvanceCompositor? {
      assert t == AdvanceComp(s);
      AdvanceCompKeepsPhases(s);
    } else {
      CallKeepsPhases(s, step);
    }
  }

  lemma RetireOnlyAdds(m: Mem, r: Retire)
    ensures Sound(RetireMem(m, r)) ==> Sound(m)
  {
  }

  lemma SoundBefore(s: System, step: Step)
    ensures Sound(Do(s, step).mem) ==> Sound(s.mem)
  {
    if step.AdvanceCompositor? {
      RetireOnlyAdds(s.mem, s.comp);
    } else if step.Advance? && s.exp.Displacing? {
      RetireOnlyAdds(s.mem, s.exp.retire);
    }
  }

  lemma {:induction false} RunKeepsPhases(steps: seq<Step>)
    requires Sound(Run(steps).mem)
    ensures Phases(Run(steps))
  {
    if steps != [] {
      var s := Run(steps[..|steps| - 1]);
      SoundBefore(s, steps[|steps| - 1]);
      RunKeepsPhases(steps[..|steps| - 1]);
      RunKeepsBooks(steps[..|steps| - 1]);
      DoKeepsPhases(s, steps[|steps| - 1]);
    }
  }

  // ---------------------------------------------------------------- main results

  /** The slot as the atomic operations see it. */
  function AsSlot(m: Mem, frame: nat): E.Slot
    requires m.refs >= 0
  {
    E.Slot(m.state, frame, m.refs, m.pendingFree, m.held)
  }

  /** In use for good: nobody has it and no render target will free it. */
  predicate Lost(s: System) {
    AtRest(s) && s.mem.state.InUse? && !s.mem.held && s.mem.targets == {}
  }

  /** While no reference was leaked or taken off twice and the slot was never freed early: at rest the
      count is right, and the slot is as the atomic operations leave it unless the last retire missed
      the release, which is exactly when the slot is lost. */
  lemma LostExactlyWhenMissed(s: System)
    requires Reachable(s) && Sound(s.mem) && AtRest(s)
    ensures s.mem.refs == |s.mem.targets|
    ensures Lost(s) <==> s.mem.missed
    ensures S.SlotOk(AsSlot(s.mem, 0)) <==> !s.mem.missed
  {
    var steps :| Reaches(steps, s);
    CountAccounts(s);
    RunKeepsBooks(steps);
    RunKeepsPhases(steps);
    SoundCountTells(s);
  }

  /** No step helps a lost slot. */
  lemma LostForever(s: System, step: Step)
    requires Lost(s)
    ensures Do(s, step) == s
  {
  }

  ghost predicate MissesAt(steps: seq<Step>, n: nat)
    requires n < |steps|
  {
    steps[n].AdvanceCompositor? && Misses(Run(steps[..n]))
  }

  /** Step n frees the slot on behalf of a retire. */
  ghost predicate FreesAt(steps: seq<Step>, n: nat)
    requires n < |steps|
  {
    Frees(Run(steps[..n]), steps[n])
  }

  predicate Frees(s: System, step: Step) {
    || (step.AdvanceCompositor? && s.comp.Freeing?)
    || (step.Advance? && ExpRetire(s.exp).Freeing?)
  }

  /** Step n misses the release, and no retire frees the slot after it without missing it again. */
  ghost predicate MissedSince(steps: seq<Step>, n: nat)
    requires n < |steps|
  {
    MissesAt(steps, n) && forall m :: n < m < |steps| && FreesAt(steps, m) ==> MissesAt(steps, m)
  }

  lemma MissedAfter(s: System, step: Step)
    ensures Do(s, step).mem.missed <==>
            (step.AdvanceCompositor? && Misses(s)) || (s.mem.missed && !Frees(s, step))
  {
    if step.Advance? {
      ExporterNeverMisses(s);
    } else if step.AdvanceCompositor? {
      RetireMisses(s.mem, s.comp);
    }
  }

  lemma RetireMisses(m: Mem, r: Retire)
    ensures RetireMem(m, r).missed <==> m.missed && !r.Freeing?
  {
  }

  lemma ExporterNeverMisses(s: System)
    ensures AdvanceExp(s).mem.missed <==> s.mem.missed && !ExpRetire(s.exp).Freeing?
  {
    if s.exp.Displacing? { RetireMisses(s.mem, s.exp.retire); }
  }

  lemma MissedSinceGrows(steps: seq<Step>, n: nat)
    requires n < |steps| - 1
    ensures var last := |steps| - 1;
            MissedSince(steps, n) <==>
            MissedSince(steps[..last], n) && (FreesAt(steps, last) ==> MissesAt(steps, last))
  {
    var last := |steps| - 1;
    forall m | 0 <= m < last
      ensures FreesAt(steps[..last], m) <==> FreesAt(steps, m)
      ensures MissesAt(steps[..last], m) <==> MissesAt(steps, m)
    {
      assert steps[..last][..m] == steps[..m];
    }
  }

  /** Over every run: the last retire is missed exactly if the compositor checked the flag, or freed the
      slot, between a release's load of the count and its last store, and no retire has freed the slot
      since. */
  lemma {:induction false} MissedExactlyByOverlap(steps: seq<Step>)
    ensures Run(steps).mem.missed <==> exists n :: 0 <= n < |steps| && MissedSince(steps, n)
  {
    if steps != [] {
      var last := |steps| - 1;
      MissedExactlyByOverlap(steps[..last]);
      MissedAfter(Run(steps[..last]), steps[last]);
      forall n | 0 <= n < last
        ensures MissedSince(steps, n) <==>
                MissedSince(steps[..last], n) && (FreesAt(steps, last) ==> MissesAt(steps, last))
      {
        MissedSinceGrows(steps, n);
      }
      if MissesAt(steps, last) { assert MissedSince(steps, last); }
    }
  }

  /** Hence over every run in which none leaked or doubled and the slot was not freed early: at rest it
      is lost exactly if such an overlap happened and no retire has freed it since. */
  lemma LostExactlyByOverlap(steps: seq<Step>)
    requires Sound(Run(steps).mem) && AtRest(Run(steps))
    ensures Lost(Run(steps)) <==> exists n :: 0 <= n < |steps| && MissedSince(steps, n)
  {
    assert Reaches(steps, Run(steps));
    LostExactlyWhenMissed(Run(steps));
    MissedExactlyByOverlap(steps);
  }

  /** The first reference is leaked exactly when the compositor reads the count of a target that was
      pointed at the slot and not counted yet. */
  lemma LeaksExactlyBeforeTheCount(s: System, step: Step)
    requires Reachable(s) && Sound(s.mem)
    ensures Do(s, step).mem.leaked > 0 <==> step.AdvanceCompositor? && s.comp.Took? && s.exp.Published?
  {
    var steps :| Reaches(steps, s);
    RunKeepsBooks(steps);
    RunKeepsPhases(steps);
    SoundCountTells(s);
  }

  /** A reference is first taken off twice exactly when both threads retire the same target: one takes
      it off having read the count before the other took it off. */
  lemma DoublesExactlyWhenBothRetire(s: System, step: Step)
    requires Reachable(s) && Sound(s.mem)
    ensures Do(s, step).mem.doubled > 0 <==>
            || (step.AdvanceCompositor? && s.comp.Loaded? &&
                (PastCount(ExpRetire(s.exp), s.comp.target) || s.exp == Replacing(s.comp.target)))
            || (step.Advance? && ExpRetire(s.exp).Loaded? &&
                (PastCount(s.comp, s.exp.retire.target) || s.exp.retire.target !in s.mem.targets))
  {
    var steps :| Reaches(steps, s);
    RunKeepsBooks(steps);
    RunKeepsPhases(steps);
  }

  /** The slot is first freed while lent out exactly when the compositor frees it on the strength of
      the release flag left over from its last use, checked between a submission's count and its
      clearing of the flag, and the frame has gone out meanwhile and its release has not begun. */
  lemma FreedEarlyExactlyByAStaleFlag(s: System, step: Step)
    requires Reachable(s) && Sound(s.mem)
    ensures Do(s, step).mem.early <==> step.AdvanceCompositor? && s.comp.Freeing? && s.stale && Lent(s.mem)
  {
    var steps :| Reaches(steps, s);
    RunKeepsPhases(steps);
  }

  // ---------------------------------------------------------------- undisturbed calls

  /** A release, a retire or a submission during which the other thread is at rest is the atomic one. */
  lemma UndisturbedRelease(s: System, frame: nat)
    requires AtRest(s) && s.mem.held && s.mem.refs >= 0
    ensures var t := Do(Do(Do(s, StartRelease), Advance), Advance);
            AtRest(t) && t.mem.refs >= 0 && AsSlot(t.mem, frame) == E.Released(AsSlot(s.mem, frame))
  {
  }

  lemma UndisturbedRetire(s: System, target: nat, frame: nat)
    requires AtRest(s) && target in s.mem.targets && s.mem.refs >= 0
    ensures var t := AdvanceComp(AdvanceComp(AdvanceComp(AdvanceComp(AdvanceComp(Do(s, Take(target)))))));
            && AtRest(t) && t.mem.refs >= 0 && t.mem.targets == s.mem.targets - {target}
            && AsSlot(t.mem, frame) == E.Retired(AsSlot(s.mem, frame))
  {
    var t := Do(s, Take(target));
    RetireOnce(t, frame);
  }

  lemma RetireOnce(s: System, frame: nat)
    requires s.exp.Idle? && s.comp.Took? && s.mem.refs >= 0
    ensures var t := AdvanceComp(AdvanceComp(AdvanceComp(AdvanceComp(AdvanceComp(s)))));
            && AtRest(t) && t.mem.refs >= 0 && t.mem.targets == s.mem.targets - {s.comp.target}
            && AsSlot(t.mem, frame) == E.Retired(AsSlot(s.mem, frame))
  {
    var t := AdvanceComp(s);
    var u := if s.mem.refs > 0 then AdvanceComp(t) else t;
    assert u.comp == Left(s.comp.target, u.mem.refs) && u.mem.refs == if s.mem.refs > 0 then s.mem.refs - 1 else 0;
    var v := AdvanceComp(u);
    var w := if v.comp.Freeing? then AdvanceComp(v) else v;
    assert w.comp == Checked(s.comp.target);
    var x := AdvanceComp(w);
    assert AdvanceComp(x) == x;
  }

  lemma UndisturbedSubmit(s: System, target: nat, frame: nat)
    requires AtRest(s) && s.mem.state.Free? && !s.mem.held && s.mem.refs >= 0
    ensures var c := Do(s, Claim(target));
            var t := Do(Do(Do(Do(c, Advance), Advance), Advance), Advance);
            && AtRest(t) && t.mem.refs >= 0 && t.mem.targets == s.mem.targets + {target}
            && AsSlot(t.mem, frame) == E.MarkSubmitted(AsSlot(c.mem, 0).(refs := c.mem.refs + 1), frame)
  {
  }

  /** One the GPU queue refuses leaves the slot free and nothing else behind. */
  lemma UndisturbedRefusal(s: System, target: nat)
    requires AtRest(s) && s.mem.state.Free?
    ensures Do(Do(s, Claim(target)), Refuse) == s
  {
  }

  /** A submission of another slot for a target that points at this one retires it as the atomic one does. */
  lemma UndisturbedDisplacement(s: System, target: nat, frame: nat)
    requires AtRest(s) && target in s.mem.targets && s.mem.refs >= 0
    ensures var d := AdvanceExp(AdvanceExp(AdvanceExp(Do(s, Displace(target)))));
            var t := AdvanceExp(AdvanceExp(AdvanceExp(d)));
            && AtRest(t) && t.mem.refs >= 0 && t.mem.targets == s.mem.targets - {target}
            && AsSlot(t.mem, frame) == E.Retired(AsSlot(s.mem, frame))
  {
    var d := Do(s, Displace(target));
    var t := AdvanceExp(d);
    var u := if s.mem.refs > 0 then AdvanceExp(t) else t;
    assert u.exp == Displacing(Left(target, u.mem.refs));
    var v := AdvanceExp(u);
    var w := if v.exp.retire.Freeing? then AdvanceExp(v) else v;
    assert w.exp == Displacing(Checked(target));
    var x := AdvanceExp(w);
    assert x.exp == Replacing(target);
    var y := AdvanceExp(x);
    assert y.exp.Idle? && AdvanceExp(y) == y;
  }

  // ---------------------------------------------------------------- what the overlaps do

  lemma Then(s: System, step: Step, t: System)
    requires Reachable(s) && Do(s, step) == t
    ensures Reachable(t)
  {
    ReachNext(s, step);
  }

  function Held(): Mem { Mem(1, false, E.InUse, true, {0}, {0}, 0, 0, false, false) }

  /** A consumer holds a slot that target 0 samples from. */
  lemma HeldIsReachable()
    ensures Reachable(System(Held(), Idle, Done, false))
  {
    SubmittedIsReachable();
    var m := Submitted();
    var a := System(m.(state := E.Ready), Idle, Done, false);
    Then(System(m, Idle, Done, false), PollReady, a);
    Then(a, Acquire, System(Held(), Idle, Done, false));
  }

  function Submitted(): Mem { Mem(1, false, E.Submitted, false, {0}, {0}, 0, 0, false, false) }

  function Claimable(pending: bool): Mem { Mem(0, pending, E.Free, false, {}, {}, 0, 0, false, false) }

  function JustPublished(pending: bool): Mem { Mem(0, pending, E.InUse, false, {0}, {0}, 0, 0, false, false) }

  lemma StartIsReachable()
    ensures Reachable(START)
  {
    assert Reaches([], START);
  }

  lemma PublishIsReachable(pending: bool)
    requires Reachable(System(Claimable(pending), Idle, Done, false))
    ensures Reachable(System(JustPublished(pending), Published(0), Done, false))
  {
    var s := System(Claimable(pending), Idle, Done, false);
    var a := System(Claimable(pending).(state := E.InUse), Claimed(0), Done, false);
    Then(s, Claim(0), a);
    Then(a, Advance, System(JustPublished(pending), Published(0), Done, false));
  }

  lemma SubmittedIsReachable()
    ensures Reachable(System(Submitted(), Idle, Done, false))
  {
    StartIsReachable();
    PublishIsReachable(false);
    var m := JustPublished(false);
    var a := System(m.(refs := 1), Counted, Done, false);
    Then(System(m, Published(0), Done, false), Advance, a);
    var b := System(m.(refs := 1), Cleared, Done, false);
    Then(a, Advance, b);
    Then(b, Advance, System(Submitted(), Idle, Done, false));
  }

  /** The release reads a count of one; the retire takes it off and sees no release flag; the release
      then raises the flag and stores "in use". */
  lemma AReleaseOverlappedByTheLastRetireLosesTheSlot()
    ensures exists s :: Reachable(s) && Sound(s.mem) && Lost(s)
  {
    HeldIsReachable();
    var h := System(Held(), Idle, Done, false);
    var m := Held().(held := false);
    var a := System(m, SawRefs, Done, false);
    Then(h, StartRelease, a);
    Then(a, Take(0), System(m, SawRefs, Took(0), false));
    Then(System(m, SawRefs, Took(0), false), AdvanceCompositor, System(m, SawRefs, Loaded(0), false));
    var n := m.(refs := 0, unpaid := {});
    assert Held().unpaid - {0} == {};
    Then(System(m, SawRefs, Loaded(0), false), AdvanceCompositor, System(n, SawRefs, Left(0, 0), false));
    var missed := n.(missed := true);
    Then(System(n, SawRefs, Left(0, 0), false), AdvanceCompositor, System(missed, SawRefs, Checked(0), false));
    LoseAfterMiss(missed);
  }

  lemma LoseAfterMiss(m: Mem)
    requires m == Mem(0, false, E.InUse, false, {0}, {}, 0, 0, false, true)
    requires Reachable(System(m, SawRefs, Checked(0), false))
    ensures exists s :: Reachable(s) && Sound(s.mem) && Lost(s)
  {
    var up := m.(pendingFree := true);
    Then(System(m, SawRefs, Checked(0), false), Advance, System(up, Flagged, Checked(0), false));
    Then(System(up, Flagged, Checked(0), false), Advance, System(up, Idle, Checked(0), false));
    var end := System(up.(targets := {}), Idle, Done, false);
    assert up.targets - {0} == {} && up.unpaid - {0} == {};
    Then(System(up, Idle, Checked(0), false), AdvanceCompositor, end);
    assert Lost(end);
  }

  /** The retire reads the count before the submission has raised it: the submitted slot stays counted
      once with no render target to take that off. */
  lemma ARetireBeforeTheCountLeaks()
    ensures exists s :: Reachable(s) && AtRest(s) && s.mem.state.Submitted? && s.mem.targets == {} && s.mem.refs == 1
  {
    StartIsReachable();
    PublishIsReachable(false);
    var m := JustPublished(false);
    Then(System(m, Published(0), Done, false), Take(0), System(m, Published(0), Took(0), false));
    var n := m.(unpaid := {}, leaked := 1);
    assert m.unpaid - {0} == {};
    Then(System(m, Published(0), Took(0), false), AdvanceCompositor, System(n, Published(0), Left(0, 0), false));
    Then(System(n, Published(0), Left(0, 0), false), AdvanceCompositor, System(n, Published(0), Checked(0), false));
    var o := n.(targets := {});
    assert n.targets - {0} == {} && n.unpaid - {0} == {};
    Then(System(n, Published(0), Checked(0), false), AdvanceCompositor, System(o, Published(0), Done, false));
    var c := o.(refs := 1);
    Then(System(o, Published(0), Done, false), Advance, System(c, Counted, Done, false));
    Then(System(c, Counted, Done, false), Advance, System(c, Cleared, Done, false));
    Then(System(c, Cleared, Done, false), Advance, System(c.(state := E.Submitted), Idle, Done, false));
  }

  /** Both threads read a count of one for the same target and both take it off. */
  lemma TwoRetiresTakeTheCountBelowZero()
    ensures exists s :: Reachable(s) && s.mem.refs == -1
  {
    SubmittedIsReachable();
    var m := Submitted();
    var d := Displacing(Took(0));
    Then(System(m, Idle, Done, false), Displace(0), System(m, d, Done, false));
    Then(System(m, d, Done, false), Advance, System(m, Displacing(Loaded(0)), Done, false));
    var e := Displacing(Loaded(0));
    Then(System(m, e, Done, false), Take(0), System(m, e, Took(0), false));
    Then(System(m, e, Took(0), false), AdvanceCompositor, System(m, e, Loaded(0), false));
    var n := m.(refs := 0, unpaid := {});
    assert m.unpaid - {0} == {};
    Then(System(m, e, Loaded(0), false), AdvanceCompositor, System(n, e, Left(0, 0), false));
    var o := n.(refs := -1, doubled := 1);
    assert n.unpaid - {0} == {};
    Then(System(n, e, Left(0, 0), false), Advance, System(o, Displacing(Left(0, -1)), Left(0, 0), false));
  }

  /** A slot freed by the last retire after its release is claimed again with its release flag still up. */
  lemma FreeWithFlagIsReachable()
    ensures Reachable(System(Claimable(true), Idle, Done, false))
  {
    HeldIsReachable();
    var m := Held().(held := false);
    Then(System(Held(), Idle, Done, false), StartRelease, System(m, SawRefs, Done, false));
    var up := m.(pendingFree := true);
    Then(System(m, SawRefs, Done, false), Advance, System(up, Flagged, Done, false));
    Then(System(up, Flagged, Done, false), Advance, System(up, Idle, Done, false));
    Then(System(up, Idle, Done, false), Take(0), System(up, Idle, Took(0), false));
    Then(System(up, Idle, Took(0), false), AdvanceCompositor, System(up, Idle, Loaded(0), false));
    var n := up.(refs := 0, unpaid := {});
    assert up.unpaid - {0} == {};
    Then(System(up, Idle, Loaded(0), false), AdvanceCompositor, System(n, Idle, Left(0, 0), false));
    Then(System(n, Idle, Left(0, 0), false), AdvanceCompositor, System(n, Idle, Freeing(0), false));
    var f := n.(state := E.Free);
    Then(System(n, Idle, Freeing(0), false), AdvanceCompositor, System(f, Idle, Checked(0), false));
    assert f.targets - {0} == {} && f.unpaid - {0} == {};
    Then(System(f, Idle, Checked(0), false), AdvanceCompositor, System(Claimable(true), Idle, Done, false));
  }

  /** The retire checks the flag between the count and the clearing, and stores "free" once the frame
      has been submitted, become ready and been acquired: the consumer holds a free slot. */
  lemma AStaleFlagFreesAHeldSlot()
    ensures exists s :: Reachable(s) && s.mem.held && s.mem.state.Free?
  {
    FreeWithFlagIsReachable();
    PublishIsReachable(true);
    var c := JustPublished(true).(refs := 1);
    Then(System(JustPublished(true), Published(0), Done, false), Advance, System(c, Counted, Done, false));
    Then(System(c, Counted, Done, false), Take(0), System(c, Counted, Took(0), false));
    Then(System(c, Counted, Took(0), false), AdvanceCompositor, System(c, Counted, Loaded(0), false));
    var n := c.(refs := 0, unpaid := {});
    assert c.unpaid - {0} == {};
    Then(System(c, Counted, Loaded(0), false), AdvanceCompositor, System(n, Counted, Left(0, 0), false));
    Then(System(n, Counted, Left(0, 0), false), AdvanceCompositor, System(n, Counted, Freeing(0), true));
    HoldWhileFreeing(n);
  }

  lemma HoldWhileFreeing(n: Mem)
    requires n == Mem(0, true, E.InUse, false, {0}, {}, 0, 0, false, false)
    requires Reachable(System(n, Counted, Freeing(0), true))
    ensures exists s :: Reachable(s) && s.mem.held && s.mem.state.Free?
  {
    var o := n.(pendingFree := false);
    Then(System(n, Counted, Freeing(0), true), Advance, System(o, Cleared, Freeing(0), true));
    var p := o.(state := E.Submitted);
    Then(System(o, Cleared, Freeing(0), true), Advance, System(p, Idle, Freeing(0), true));
    Then(System(p, Idle, Freeing(0), true), PollReady, System(p.(state := E.Ready), Idle, Freeing(0), true));
    var q := p.(state := E.InUse, held := true);
    Then(System(p.(state := E.Ready), Idle, Freeing(0), true), Acquire, System(q, Idle, Freeing(0), true));
    Then(System(q, Idle, Freeing(0), true), AdvanceCompositor,
         System(q.(state := E.Free, early := true), Idle, Checked(0), true));
  }
}
