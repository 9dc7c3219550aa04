/** The milestone lifecycle machine and its persisted form (crates/mp-model/src/milestone.rs,
    applied by crates/mp/src/milestone/spec.rs). */
module Lifecycle {
  import opened Prelude

  datatype Phase = Draft | Groomed | Approved | InProgress | Executed | Complete | Remediation {
    function AsStr(): string {
      match this
      case Draft => "draft"
      case Groomed => "groomed"
      case Approved => "approved"
      case InProgress => "in-progress"
      case Executed => "executed"
      case Complete => "complete"
      case Remediation => "remediation"
    }
  }

  function FromLifecycle(value: string): Option<Phase> {
    match value
    case "" | "draft" => Some(Draft)
    case "groomed" => Some(Groomed)
    case "approved" => Some(Approved)
    case "in-progress" => Some(InProgress)
    case "done" | "executed" | "self-reviewed" => Some(Executed)
    case "reviewed" | "complete" => Some(Complete)
    case "remediation" => Some(Remediation)
    case _ => None
  }

  datatype Overlays = Overlays(blocked: bool, deferred: bool, cancelled: bool, needsRegrooming: bool)

  datatype State = State(phase: Phase, overlays: Overlays, preState: Option<Phase>)

  datatype Event =
    | Sync | Groom | Approve | Start | FinishExecution | CompleteEvent | Reopen
    | Block | Unblock | Defer | Resume | Cancel | SetNeedsRegrooming(value: bool)
    | EnterRemediation | ExitRemediation | MigrateRaw(target: Phase)

  // ---------- The transition table ----------

  /** transition: None stands for the error. */
  function Transition(s: State, e: Event, gatesSatisfied: bool): Option<State> {
    if !gatesSatisfied || (s.overlays.cancelled && !e.MigrateRaw? && !e.Unblock?) then None
    else match Moved(s, e)
      case None => None
      case Some(t) => if t.overlays.blocked && t.overlays.deferred then None else Some(t)
  }

  function Moved(s: State, e: Event): Option<State> {
    var phase, o := s.phase, s.overlays;
    match e
    case Sync => Some(s)
    case Groom => if phase in {Draft, Groomed} then Some(s.(phase := Groomed)) else None
    case Approve => if phase in {Draft, Groomed, Approved} then Some(s.(phase := Approved)) else None
    case Start =>
      if phase in {Approved, InProgress}
      then Some(s.(phase := InProgress, overlays := o.(blocked := false, deferred := false))) else None
    case FinishExecution => if phase in {Approved, InProgress, Executed} then Some(s.(phase := Executed)) else None
    case CompleteEvent =>
      if phase in {Approved, InProgress, Executed, Complete}
      then Some(s.(phase := Complete, overlays := o.(blocked := false, deferred := false))) else None
    case Reopen =>
      if phase in {Executed, Complete}
      then Some(State(InProgress, o.(blocked := false, deferred := false), None)) else None
    case Block => if phase != Complete then Some(s.(overlays := o.(blocked := true, deferred := false))) else None
    case Unblock => if o.blocked then Some(s.(overlays := o.(blocked := false))) else None
    case Defer => if phase != Complete then Some(s.(overlays := o.(deferred := true, blocked := false))) else None
    case Resume => if o.deferred then Some(s.(overlays := o.(deferred := false))) else None
    case Cancel =>
      if phase != Complete
      then Some(s.(overlays := o.(cancelled := true, blocked := false, deferred := false))) else None
    case SetNeedsRegrooming(value) => Some(s.(overlays := o.(needsRegrooming := value)))
    case EnterRemediation =>
      if phase in {Executed, Complete} then Some(s.(phase := Remediation, preState := Some(phase))) else None
    case ExitRemediation =>
      if phase == Remediation && s.preState.Some? && s.preState.value in {Executed, Complete}
      then Some(s.(phase := s.preState.value, preState := None)) else None
    case MigrateRaw(target) => Some(s.(phase := target, preState := None))
  }

  /** How a milestone gets into a phase: from which phases, by which events. */
  ghost predicate LeadsInto(s: State, e: Event, target: Phase) {
    match target
    case Draft => e == MigrateRaw(Draft)
    case Groomed => (e == Groom && s.phase == Draft) || e == MigrateRaw(Groomed)
    case Approved => (e == Approve && s.phase in {Draft, Groomed}) || e == MigrateRaw(Approved)
    case InProgress =>
      || (e == Start && s.phase == Approved)
      || (e == Reopen && s.phase in {Executed, Complete})
      || e == MigrateRaw(InProgress)
    case Executed =>
      || (e == FinishExecution && s.phase in {Approved, InProgress})
      || (e == ExitRemediation && s.phase == Remediation && s.preState == Some(Executed))
      || e == MigrateRaw(Executed)
    case Complete =>
      || (e == CompleteEvent && s.phase in {Approved, InProgress, Executed})
      || (e == ExitRemediation && s.phase == Remediation && s.preState == Some(Complete))
      || e == MigrateRaw(Complete)
    case Remediation => (e == EnterRemediation && s.phase in {Executed, Complete}) || e == MigrateRaw(Remediation)
  }

  /** Short of cancellation and failing gates the phase changes exactly so. */
  lemma PhaseChangesIff(s: State, e: Event, target: Phase)
    requires !s.overlays.cancelled && !(s.overlays.blocked && s.overlays.deferred) && s.phase != target
    ensures Transition(s, e, true).Some? && Transition(s, e, true).value.phase == target <==> LeadsInto(s, e, target)
  {}

  /** What an accepted event does to each overlay. */
  lemma OverlayChanges(s: State, e: Event, gates: bool)
    requires Transition(s, e, gates).Some?
    ensures var o, t := s.overlays, Transition(s, e, gates).value.overlays;
      && (t.blocked <==> e == Block || (o.blocked && e !in {Start, CompleteEvent, Reopen, Defer, Unblock, Cancel}))
      && (t.deferred <==> e == Defer || (o.deferred && e !in {Start, CompleteEvent, Reopen, Block, Resume, Cancel}))
      && (t.cancelled <==> e == Cancel || o.cancelled)
      && (t.needsRegrooming <==> if e.SetNeedsRegrooming? then e.value else o.needsRegrooming)
  {}

  /** Which events that change no phase are refused. */
  lemma RefusedIff(s: State, e: Event)
    requires !s.overlays.cancelled && !(s.overlays.blocked && s.overlays.deferred)
    ensures Transition(s, e, false).None?
    ensures e in {Block, Defer, Cancel} ==> (Transition(s, e, true).None? <==> s.phase == Complete)
    ensures Transition(s, Unblock, true).None? <==> !s.overlays.blocked
    ensures Transition(s, Resume, true).None? <==> !s.overlays.deferred
    ensures e == Sync || e.SetNeedsRegrooming? || e.MigrateRaw? ==> Transition(s, e, true).Some?
  {}

  // ---------- Runs ----------

  /** One event and what its gates said; a refused event changes nothing. */
  datatype Input = Input(event: Event, gates: bool)

  function Step(s: State, i: Input): State {
    match Transition(s, i.event, i.gates)
    case None => s
    case Some(t) => t
  }

  function Run(s: State, inputs: seq<Input>): State {
    if inputs == [] then s else Step(Run(s, inputs[..|inputs| - 1]), inputs[|inputs| - 1])
  }

  const FRESH := State(Draft, Overlays(false, false, false, false), None)

  predicate WithoutMigration(inputs: seq<Input>) {
    forall i :: i in inputs ==> !i.event.MigrateRaw?
  }

  /** What every run of ordinary events keeps. */
  predicate Consistent(s: State) {
    && !(s.overlays.blocked && s.overlays.deferred)
    && (s.overlays.cancelled ==> !s.overlays.blocked && !s.overlays.deferred && s.phase != Complete)
    && (s.preState.Some? <==> s.phase == Remediation)
    && (s.preState.Some? ==> s.preState.value in {Executed, Complete})
  }

  lemma StepKeepsConsistent(s: State, i: Input)
    requires Consistent(s) && !i.event.MigrateRaw?
    ensures Consistent(Step(s, i))
  {}

  lemma {:induction false} StaysConsistent(s: State, inputs: seq<Input>)
    requires Consistent(s) && WithoutMigration(inputs)
    ensures Consistent(Run(s, inputs))
  {
    if inputs != [] {
      StaysConsistent(s, inputs[..|inputs| - 1]);
      assert inputs[|inputs| - 1] in inputs;
      StepKeepsConsistent(Run(s, inputs[..|inputs| - 1]), inputs[|inputs| - 1]);
    }
  }

  /** Every run of ordinary events from a fresh draft. */
  lemma RunsAreConsistent(inputs: seq<Input>)
    requires WithoutMigration(inputs)
    ensures Consistent(Run(FRESH, inputs))
  {
    StaysConsistent(FRESH, inputs);
  }

  /** Cancelled is absorbing: no ordinary event is accepted, so no run leads out. */
  lemma {:induction false} CancelledIsAbsorbing(s: State, inputs: seq<Input>)
    requires Consistent(s) && s.overlays.cancelled && WithoutMigration(inputs)
    ensures Run(s, inputs) == s
    ensures forall e: Event, gates :: !e.MigrateRaw? ==> Transition(s, e, gates).None?
  {
    if inputs != [] {
      CancelledIsAbsorbing(s, inputs[..|inputs| - 1]);
      assert inputs[|inputs| - 1] in inputs;
    }
  }

  /** Inside a remediation only leaving it changes the phase or the captured pre-state. */
  lemma {:induction false} RemediationHolds(s: State, inputs: seq<Input>)
    requires s.phase == Remediation && WithoutMigration(inputs)
    requires forall i :: i in inputs ==> i.event != ExitRemediation
    ensures Run(s, inputs).phase == Remediation && Run(s, inputs).preState == s.preState
  {
    if inputs != [] {
      RemediationHolds(s, inputs[..|inputs| - 1]);
      assert inputs[|inputs| - 1] in inputs;
    }
  }

  /** Entering a remediation, doing anything in it, and leaving it restores the entry phase;
      leaving is refused only if the milestone was cancelled meanwhile. */
  lemma ExitRestoresEntry(s: State, inputs: seq<Input>)
    requires Transition(s, EnterRemediation, true).Some? && WithoutMigration(inputs) && Consistent(s)
    requires forall i :: i in inputs ==> i.event != ExitRemediation
    ensures var inside := Run(Transition(s, EnterRemediation, true).value, inputs);
      var left := Transition(inside, ExitRemediation, true);
      && (left.None? <==> inside.overlays.cancelled)
      && (left.Some? ==> left.value.phase == s.phase && left.value.preState == None)
  {
    var entered := Transition(s, EnterRemediation, true).value;
    RemediationHolds(entered, inputs);
    StaysConsistent(entered, inputs);
  }

  predicate OfCompleted(s: State) {
    s.phase == Complete || (s.phase == Remediation && s.preState == Some(Complete))
  }

  /** `s` is completed, or being remediated from there, with the overlay that `e` sets. */
  predicate Carries(s: State, e: Event) {
    OfCompleted(s) && ((e == Block && s.overlays.blocked) || (e == Defer && s.overlays.deferred))
  }

  /** Input `k` of the run sets the overlay of `e` inside a remediation entered from Complete,
      and from then on nothing clears it. */
  ghost predicate SetInRemediation(inputs: seq<Input>, k: nat, e: Event) {
    && k < |inputs| && inputs[k] == Input(e, true)
    && Run(FRESH, inputs[..k]).phase == Remediation && Run(FRESH, inputs[..k]).preState == Some(Complete)
    && forall j :: k < j <= |inputs| ==> Carries(Run(FRESH, inputs[..j]), e)
  }

  lemma SettingLasts(inputs: seq<Input>, k: nat, e: Event)
    requires inputs != [] && Carries(Run(FRESH, inputs), e)
    requires SetInRemediation(inputs[..|inputs| - 1], k, e)
    ensures SetInRemediation(inputs, k, e)
  {
    var front := inputs[..|inputs| - 1];
    assert front[..k] == inputs[..k];
    forall j | k < j <= |inputs| ensures Carries(Run(FRESH, inputs[..j]), e) {
      if j < |inputs| {
        assert front[..j] == inputs[..j];
      } else {
        assert inputs[..j] == inputs;
      }
    }
  }

  lemma SettingStarts(s: State, i: Input, e: Event)
    requires Consistent(s) && !i.event.MigrateRaw? && !Carries(s, e) && Carries(Step(s, i), e)
    ensures s.phase == Remediation && s.preState == Some(Complete) && i == Input(e, true)
  {}

  /** A completed milestone is blocked or deferred only because that was set inside a
      remediation that had been entered from Complete, and has not been cleared since. */
  lemma {:induction false} CompleteOverlaysComeFromRemediation(inputs: seq<Input>, e: Event)
    requires WithoutMigration(inputs)
    ensures Carries(Run(FRESH, inputs), e) <==> exists k :: SetInRemediation(inputs, k, e)
  {
    assert inputs[..|inputs|] == inputs;
    if inputs != [] && Carries(Run(FRESH, inputs), e) {
      var n := |inputs| - 1;
      var front, last := inputs[..n], inputs[n];
      CompleteOverlaysComeFromRemediation(front, e);
      RunsAreConsistent(front);
      assert last in inputs;
      if Carries(Run(FRESH, front), e) {
        var k :| SetInRemediation(front, k, e);
        SettingLasts(inputs, k, e);
      } else {
        SettingStarts(Run(FRESH, front), last, e);
        assert SetInRemediation(inputs, n, e);
      }
    }
  }

  // ---------- The persisted form ----------

  datatype Meta = Meta(
    lifecycle: string, specStatus: string, executionStatus: string, overlays: Overlays, preState: Option<string>)

  function SpecStatus(lifecycle: string): string {
    match lifecycle
    case "draft" => "draft"
    case "groomed" => "review"
    case "approved" | "in-progress" => "ready"
    case "done" | "executed" | "self-reviewed" | "remediation" => "implemented"
    case "reviewed" | "complete" => "verified"
    case _ => "draft"
  }

  function ExecutionStatus(lifecycle: string): string {
    match lifecycle
    case "draft" | "groomed" | "approved" => "planned"
    case "in-progress" | "remediation" => "in-progress"
    case "done" | "executed" | "self-reviewed" | "reviewed" | "complete" => "done"
    case _ => "planned"
  }

  function SpecStatusToLifecycle(legacy: string): string {
    match legacy
    case "draft" => "draft"
    case "interview" | "review" => "groomed"
    case "ready" => "approved"
    case "implemented" => "executed"
    case "verified" => "complete"
    case _ => "draft"
  }

  function ExecutionStatusToLifecycle(legacy: string): string {
    match legacy
    case "in-progress" => "in-progress"
    case "done" => "executed"
    case "cancelled" => "cancelled"
    case _ => "draft"
  }

  function Order(lifecycle: string): nat {
    match lifecycle
    case "groomed" => 1
    case "approved" => 2
    case "in-progress" => 3
    case "done" | "executed" | "remediation" => 4
    case "self-reviewed" => 5
    case "reviewed" => 6
    case "complete" => 7
    case _ => 0
  }

  /** effective_lifecycle */
  function EffectiveLifecycle(m: Meta): string {
    if m.lifecycle != "" && m.lifecycle != "draft" then m.lifecycle
    else if m.executionStatus != "" || m.specStatus != "" then
      if m.executionStatus == "in-progress" then "in-progress"
      else
        var fromExec, fromSpec := ExecutionStatusToLifecycle(m.executionStatus), SpecStatusToLifecycle(m.specStatus);
        if Order(fromExec) >= Order(fromSpec) then fromExec else fromSpec
    else m.lifecycle
  }

  /** MilestoneState::from_meta */
  function FromMeta(m: Meta): Option<State> {
    var phase := FromLifecycle(EffectiveLifecycle(m));
    var pre :=
      match m.preState
      case None => Some(None)
      case Some(v) =>
        (match FromLifecycle(v)
         case None => None
         case Some(p) => Some(Some(p)));
    if phase.None? || pre.None? then None else Some(State(phase.value, m.overlays, pre.value))
  }

  /** The fields that apply_transition writes. */
  function Written(s: State): Meta {
    var lifecycle := s.phase.AsStr();
    Meta(lifecycle, SpecStatus(lifecycle),
         if s.overlays.cancelled then "cancelled"
         else if s.overlays.blocked then "blocked"
         else if s.overlays.deferred then "deferred"
         else ExecutionStatus(lifecycle),
         s.overlays,
         match s.preState case None => None case Some(p) => Some(p.AsStr()))
  }

  lemma PhaseReadsBack(p: Phase)
    ensures FromLifecycle(p.AsStr()) == Some(p)
  {
    match p
    case Draft =>
    case Groomed =>
    case Approved =>
    case InProgress =>
    case Executed =>
    case Complete =>
    case Remediation =>
  }

  /** Reading back what was written gives the same state, except that a cancelled draft
      cannot be read at all: its status "cancelled" outranks the draft phase and is no phase. */
  lemma ReadsBackUnlessCancelledDraft(s: State)
    ensures FromMeta(Written(s)) == if s.phase == Draft && s.overlays.cancelled then None else Some(s)
  {
    PhaseReadsBack(s.phase);
    if s.preState.Some? {
      PhaseReadsBack(s.preState.value);
    }
    if s.phase == Draft {
      DraftDerives(s);
    }
  }

  /** The older pair of statuses alone identifies the phase, except that a remediation reads as
      work in progress. */
  lemma StatusesIdentifyPhase(p: Phase, overlays: Overlays)
    ensures var m := Meta("", SpecStatus(p.AsStr()), ExecutionStatus(p.AsStr()), overlays, None);
      FromMeta(m) == Some(State(if p == Remediation then InProgress else p, overlays, None))
  {
    match p
    case Draft =>
    case Groomed =>
    case Approved =>
    case InProgress =>
    case Executed =>
    case Complete =>
    case Remediation =>
  }

  /** The names of earlier versions still read as the phases they became. */
  lemma LegacyNamesRead()
    ensures FromLifecycle("done") == FromLifecycle("self-reviewed") == Some(Executed)
    ensures FromLifecycle("reviewed") == Some(Complete) && FromLifecycle("") == Some(Draft)
    ensures forall v :: FromLifecycle(v).Some? <==>
      v in {"", "done", "self-reviewed", "reviewed"} || exists p: Phase :: v == p.AsStr()
  {
    forall v | FromLifecycle(v).Some? && v !in {"", "done", "self-reviewed", "reviewed"}
      ensures exists p: Phase :: v == p.AsStr()
    {
      assert v == FromLifecycle(v).value.AsStr();
    }
    forall p: Phase ensures FromLifecycle(p.AsStr()).Some? {
      PhaseReadsBack(p);
    }
  }

  lemma DraftDerives(s: State)
    requires s.phase == Draft
    ensures EffectiveLifecycle(Written(s)) == if s.overlays.cancelled then "cancelled" else "draft"
  {}

  /** apply_transition: read, move, write. */
  function ApplyTransition(m: Meta, e: Event, gates: bool): Option<Meta> {
    match FromMeta(m)
    case None => None
    case Some(s) =>
      match Transition(s, e, gates)
      case None => None
      case Some(t) => Some(Written(t))
  }

  function PersistedRun(m: Meta, inputs: seq<Input>): Meta {
    if inputs == [] then m
    else
      var before := PersistedRun(m, inputs[..|inputs| - 1]);
      match ApplyTransition(before, inputs[|inputs| - 1].event, inputs[|inputs| - 1].gates)
      case None => before
      case Some(after) => after
  }

  /** Re-reading the state from the file before each event makes no difference to any run. */
  lemma {:induction false} PersistedRunIsRun(inputs: seq<Input>)
    requires WithoutMigration(inputs)
    ensures PersistedRun(Written(FRESH), inputs) == Written(Run(FRESH, inputs))
  {
    if inputs != [] {
      var front, last := inputs[..|inputs| - 1], inputs[|inputs| - 1];
      PersistedRunIsRun(front);
      var s := Run(FRESH, front);
      ReadsBackUnlessCancelledDraft(s);
      assert last in inputs;
      if s.overlays.cancelled {
        RunsAreConsistent(front);
        CancelledIsAbsorbing(s, []);
      }
    }
  }
}
