/**
 The operator's reconciler (`reconciler.rs`) as a persisted state machine: every
 write is a JSON merge patch (section 2 of RFC 7396), and a pass may stop between
 any two of them. The theorems hold in every state that any sequence of
 steps, spec changes, deletions and crashes can reach.
 */
module Reconciler {
  import opened Outcomes
  import opened EvalResults

  const FINALIZER: string := "niphas.io/workload-cleanup"

  datatype Phase = Pending | Evaluating | Provisioning | Running | Failed

  datatype ConditionType = Evaluated | Progressing | Available

  datatype Condition = Condition(kind: ConditionType, holds: bool, observedGeneration: nat)

  datatype Status = Status(
    observedGeneration: Option<nat>,
    phase: Phase,
    eval: CachedEval,
    readyReplicas: Option<int>,
    conditions: Option<seq<Condition>>)

  const NO_STATUS: Status := Status(None, Pending, CachedEval(None, None, None), None, None)

  datatype Workload = Workload(
    generation: nat,
    deleting: bool,
    finalizers: Option<seq<string>>,
    replicas: Option<int>,
    status: Option<Status>)

  //////////////////////////////////////////////////////////////////////////////
  // Merge patches
  //////////////////////////////////////////////////////////////////////////////

  /** A member of a merge patch: absent members survive, null deletes, arrays are replaced whole. */
  datatype Member<T> = Absent | Null | Put(value: T)

  function Merge<T>(old_: Option<T>, m: Member<T>): Option<T> {
    match m
    case Absent => old_
    case Null => None
    case Put(v) => Some(v)
  }

  datatype StatusPatch = StatusPatch(
    phase: Phase,
    observedGeneration: Member<nat>,
    storePath: Member<string>,
    resolvedCommand: Member<string>,
    closurePaths: Member<seq<string>>,
    readyReplicas: Member<int>,
    conditions: Member<seq<Condition>>)

  function StatusOf(w: Workload): Status { if w.status.Some? then w.status.value else NO_STATUS }

  function PatchStatus(w: Workload, p: StatusPatch): Workload {
    var s := StatusOf(w);
    w.(status := Some(Status(
      Merge(s.observedGeneration, p.observedGeneration),
      p.phase,
      CachedEval(
        Merge(s.eval.storePath, p.storePath),
        Merge(s.eval.resolvedCommand, p.resolvedCommand),
        Merge(s.eval.closurePaths, p.closurePaths)),
      Merge(s.readyReplicas, p.readyReplicas),
      Merge(s.conditions, p.conditions))))
  }

  function PhasePatch(phase: Phase): StatusPatch { StatusPatch(phase, Absent, Absent, Absent, Absent, Absent, Absent) }

  function FailedPatch(generation: nat): StatusPatch {
    StatusPatch(Failed, Put(generation), Absent, Absent, Absent, Absent, Put([Condition(Evaluated, false, generation)]))
  }

  function ReportPatch(phase: Phase, r: EvalResult, ready: int, generation: nat): StatusPatch {
    StatusPatch(phase, Put(generation), Put(r.storePath), Put(ResolvedCommand(r)), Put(r.closurePaths), Put(ready),
      Put([Condition(Evaluated, true, generation), Condition(Progressing, phase == Provisioning, generation)]
          + (if phase == Running then [Condition(Available, true, generation)] else [])))
  }

  //////////////////////////////////////////////////////////////////////////////
  // Finalizers
  //////////////////////////////////////////////////////////////////////////////

  function Listed(f: Option<seq<string>>): seq<string> { if f.Some? then f.value else [] }

  /** The finalizers that belong to other controllers, in order. */
  function Foreign(fs: seq<string>): seq<string> {
    if fs == [] then [] else (if fs[0] == FINALIZER then [] else [fs[0]]) + Foreign(fs[1..])
  }

  function AddFinalizer(obj: Workload, snap: Workload): Workload {
    var fs := Listed(snap.finalizers);
    obj.(finalizers := Merge(obj.finalizers, Put(if FINALIZER in fs then fs else fs + [FINALIZER])))
  }

  function RemoveFinalizer(obj: Workload, snap: Workload): Workload {
    var fs := Foreign(Listed(snap.finalizers));
    obj.(finalizers := Merge(obj.finalizers, if fs == [] then Null else Put(fs)))
  }

  lemma {:induction false} ForeignAppend(a: seq<string>, b: seq<string>)
    ensures Foreign(a + b) == Foreign(a) + Foreign(b)
  {
    if a == [] {
      assert a + b == b;
    } else {
      assert (a + b)[1..] == a[1..] + b;
      ForeignAppend(a[1..], b);
    }
  }

  lemma {:induction false} ForeignTwice(fs: seq<string>)
    ensures Foreign(Foreign(fs)) == Foreign(fs) && FINALIZER !in Foreign(fs)
  {
    if fs != [] {
      ForeignTwice(fs[1..]);
      ForeignAppend(if fs[0] == FINALIZER then [] else [fs[0]], Foreign(fs[1..]));
    }
  }

  /** Exactly the reconciler's own finalizer is left out, and the others stay in order. */
  lemma ForeignExactly(fs: seq<string>, f: string)
    ensures Foreign([]) == []
    ensures Foreign(fs + [f]) == Foreign(fs) + (if f == "niphas.io/workload-cleanup" then [] else [f])
  {
    ForeignAppend(fs, [f]);
    assert [f][1..] == [];
  }

  /** Both finalizer writes install the snapshot's foreign finalizers: the object's own survive
      exactly when the snapshot listed the same ones. */
  lemma FinalizerWrites(obj: Workload, snap: Workload)
    ensures FINALIZER in Listed(AddFinalizer(obj, snap).finalizers)
    ensures FINALIZER !in Listed(RemoveFinalizer(obj, snap).finalizers)
    ensures Foreign(Listed(AddFinalizer(obj, snap).finalizers)) == Foreign(Listed(obj.finalizers)) <==>
            Foreign(Listed(snap.finalizers)) == Foreign(Listed(obj.finalizers))
    ensures Foreign(Listed(RemoveFinalizer(obj, snap).finalizers)) == Foreign(Listed(obj.finalizers)) <==>
            Foreign(Listed(snap.finalizers)) == Foreign(Listed(obj.finalizers))
  {
    var fs := Listed(snap.finalizers);
    ForeignTwice(fs);
    ForeignAppend(fs, [FINALIZER]);
    assert Foreign([FINALIZER]) == [];
    assert Foreign(fs) + [] == Foreign(fs);
  }

  //////////////////////////////////////////////////////////////////////////////
  // A pass
  //////////////////////////////////////////////////////////////////////////////

  function Observed(w: Workload): nat {
    var o := StatusOf(w).observedGeneration;
    if o.Some? then o.value else 0
  }

  function Desired(replicas: Option<int>): int { if replicas.Some? then replicas.value else 1 }

  predicate NeedsEval(w: Workload) {
    Observed(w) < w.generation || StatusOf(w).eval.storePath.None?
  }

  predicate IsRunning(w: Workload) { w.status.Some? && w.status.value.phase == Running }

  /** Where a pass stands; each state but `Begun` has exactly one API call or write ahead of it. */
  datatype Progress =
    | Begun
    | Calling
    | Failing
    | Entering(result: EvalResult, isNew: bool)
    | Applying(result: EvalResult, isNew: bool)
    | Counting(result: EvalResult, isNew: bool)
    | Reporting(result: EvalResult, isNew: bool, ready: int)

  /** Where a stored result comes from: the generation that was evaluated, what the evaluator answered, and whether a
      pass has since rebuilt it from the status and stored it again. */
  datatype Stored = Stored(generation: nat, answer: EvalResult, rebuilt: bool)

  function GenerationOf(s: Option<Stored>): Option<nat> { if s.Some? then Some(s.value.generation) else None }

  /** A pass works from a snapshot; `from` is where the result in the snapshot comes from. */
  datatype Pass = Idle | Active(snap: Workload, from: Option<Stored>, at: Progress)

  /** What the outside world answers to the calls of a pass. */
  datatype Answers = Answers(eval: Outcome<EvalResult, Error>, applied: bool, ready: Option<int>)

  /** The object, the pass in flight, and the history the theorems speak about:
      where the result in the status comes from, the generations at which `set_failed` ran since that
      result was stored, the replicas asked for by each generation, and how often the evaluator was called. */
  datatype World = World(
    obj: Workload,
    pass: Pass,
    stored: Option<Stored>,
    failedAt: set<nat>,
    asked: map<nat, Option<int>>,
    evalCalls: nat)
  {
    /** The generation whose evaluation the status holds. */
    const evalGeneration: Option<nat> := GenerationOf(stored)
  }

  function Start(w: World, snap: Workload, from: Option<Stored>): World {
    if snap.deleting then w.(obj := RemoveFinalizer(w.obj, snap), pass := Idle)
    else if FINALIZER !in Listed(snap.finalizers) then w.(obj := AddFinalizer(w.obj, snap), pass := Idle)
    else if Observed(snap) >= snap.generation && IsRunning(snap) then w.(pass := Idle)
    else if NeedsEval(snap) then
      w.(obj := PatchStatus(w.obj, PhasePatch(Evaluating)), pass := Active(snap, from, Calling))
    else
      match FromStatus(StatusOf(snap).eval)
      case Ok(Some(cached)) => w.(pass := Active(snap, from, Entering(cached, false)))
      case Ok(None) => w.(obj := PatchStatus(w.obj, PhasePatch(Evaluating)), pass := Active(snap, from, Calling))
      case Err(_) => w.(pass := Idle)
      case Panic => w.(pass := Idle)
  }

  function Work(w: World, env: Answers): World {
    match w.pass
    case Idle => w
    case Active(snap, from, at) =>
      match at
      case Begun => Start(w, snap, from)
      case Calling =>
        w.(evalCalls := w.evalCalls + 1,
           pass := Active(snap, from, if env.eval.Ok? then Entering(env.eval.value, true) else Failing))
      case Failing =>
        w.(obj := PatchStatus(w.obj, FailedPatch(snap.generation)), pass := Idle,
           failedAt := w.failedAt + {snap.generation})
      case Entering(result, isNew) =>
        w.(obj := PatchStatus(w.obj, PhasePatch(Provisioning)), pass := Active(snap, from, Applying(result, isNew)))
      case Applying(result, isNew) =>
        w.(pass := Active(snap, from, if env.applied then Counting(result, isNew) else Failing))
      case Counting(result, isNew) =>
        if env.ready.Some? then w.(pass := Active(snap, from, Reporting(result, isNew, env.ready.value)))
        else w.(pass := Idle)
      case Reporting(result, isNew, ready) =>
        var phase := if ready >= Desired(snap.replicas) then Running else Provisioning;
        var next := w.(obj := PatchStatus(w.obj, ReportPatch(phase, result, ready, snap.generation)), pass := Idle);
        if isNew then next.(stored := Some(Stored(snap.generation, result, false)), failedAt := {})
        else next.(stored := if from.Some? then Some(from.value.(rebuilt := true)) else None)
  }

  datatype Step =
    | Begin
    | Continue(env: Answers)
    | Stop
    | ChangeSpec(replicas: Option<int>)
    | ChangeFinalizers(finalizers: Option<seq<string>>)
    | Delete

  /** One step; `Begin` takes a fresh snapshot, and `Stop` is a crash or a failed API call. */
  function Do(w: World, step: Step): World {
    match step
    case Begin => if w.pass.Idle? then w.(pass := Active(w.obj, w.stored, Begun)) else w
    case Continue(env) => Work(w, env)
    case Stop => w.(pass := Idle)
    case ChangeSpec(replicas) =>
      w.(obj := w.obj.(generation := w.obj.generation + 1, replicas := replicas),
         asked := w.asked[w.obj.generation + 1 := replicas])
    case ChangeFinalizers(fs) => w.(obj := w.obj.(finalizers := fs))
    case Delete => w.(obj := w.obj.(deleting := true))
  }

  function After(w: World, steps: seq<Step>): World {
    if steps == [] then w else Do(After(w, steps[..|steps| - 1]), steps[|steps| - 1])
  }

  /** A workload as it is created. */
  function Created(generation: nat, finalizers: Option<seq<string>>, replicas: Option<int>): World {
    World(Workload(generation, false, finalizers, replicas, None), Idle, None, {}, map[generation := replicas], 0)
  }

  //////////////////////////////////////////////////////////////////////////////
  // Invariant
  //////////////////////////////////////////////////////////////////////////////

  /** Provenance of the cached evaluation. */
  predicate Provenance(w: World) {
    var s := StatusOf(w.obj);
    && (s.eval.storePath.Some? <==> w.evalGeneration.Some?)
    && (forall f :: f in w.failedAt ==> f <= Observed(w.obj))
    && Observed(w.obj) <= w.obj.generation
    && (w.evalGeneration.Some? ==>
          && s.observedGeneration.Some?
          && w.evalGeneration.value <= Observed(w.obj)
          && (Observed(w.obj) == w.evalGeneration.value || Observed(w.obj) in w.failedAt))
  }

  /** Phase Running means what the conditions say, at the status's own generation. */
  predicate RunningIsReported(w: World) {
    IsRunning(w.obj) ==>
      var s := w.obj.status.value;
      && s.observedGeneration.Some?
      && s.conditions == Some([
           Condition(Evaluated, true, s.observedGeneration.value),
           Condition(Progressing, false, s.observedGeneration.value),
           Condition(Available, true, s.observedGeneration.value)])
      && s.observedGeneration.value in w.asked
      && s.readyReplicas.Some?
      && s.readyReplicas.value >= Desired(w.asked[s.observedGeneration.value])
      && w.evalGeneration.Some?
  }

  /** The part of the status that only the last write of a pass changes. */
  predicate SameRecord(a: Workload, b: Workload) {
    && StatusOf(a).observedGeneration == StatusOf(b).observedGeneration
    && StatusOf(a).eval == StatusOf(b).eval
  }

  predicate PassIsCurrent(w: World) {
    w.pass.Active? ==>
      var snap := w.pass.snap;
      && snap.generation <= w.obj.generation
      && Observed(snap) <= snap.generation
      && SameRecord(snap, w.obj)
      && snap.generation in w.asked && w.asked[snap.generation] == snap.replicas
      && w.pass.from == w.stored
      && (w.pass.at.Calling? || (CarriesResult(w.pass.at) && w.pass.at.isNew) ==> NeedsEval(snap))
      && (CarriesResult(w.pass.at) && !w.pass.at.isNew ==>
            Observed(snap) == snap.generation && StatusOf(snap).eval.storePath.Some?)
      && (w.pass.at.Begun? ==> w.obj.status == snap.status)
      && (!w.pass.at.Begun? ==> !IsRunning(w.obj))
  }

  predicate CarriesResult(at: Progress) { at.Entering? || at.Applying? || at.Counting? || at.Reporting? }

  predicate History(w: World) {
    w.obj.generation in w.asked && w.asked[w.obj.generation] == w.obj.replicas
    && forall g :: g in w.asked ==> g <= w.obj.generation
  }

  predicate Inv(w: World) { Provenance(w) && RunningIsReported(w) && PassIsCurrent(w) && History(w) }

  lemma InvCreated(generation: nat, finalizers: Option<seq<string>>, replicas: Option<int>)
    ensures Inv(Created(generation, finalizers, replicas))
  {
  }

  lemma CachedStep(c: CachedEval)
    ensures c.storePath.Some? && FromStatus(c).Ok? ==> FromStatus(c).value.Some?
    ensures !FromStatus(c).Err?
  {
  }

  lemma InvStart(w: World)
    requires Inv(w) && w.pass.Active? && w.pass.at.Begun?
    ensures Inv(Start(w, w.pass.snap, w.pass.from))
  {
    hide FromStatus, Foreign, ResolvedCommand;
    CachedStep(StatusOf(w.pass.snap).eval);
  }

  lemma InvReport(w: World, env: Answers)
    requires Inv(w) && w.pass.Active? && w.pass.at.Reporting?
    ensures Inv(Work(w, env))
  {
    hide ResolvedCommand;
    var snap, result, ready := w.pass.snap, w.pass.at.result, w.pass.at.ready;
    var next := Work(w, env);
    assert StatusOf(next.obj).observedGeneration == Some(snap.generation);
    assert StatusOf(next.obj).eval.storePath == Some(result.storePath);
    if !w.pass.at.isNew {
      assert Observed(w.obj) == Observed(snap) == snap.generation;
    }
    var g := snap.generation;
    assert [Condition(Evaluated, true, g), Condition(Progressing, false, g)] + [Condition(Available, true, g)]
        == [Condition(Evaluated, true, g), Condition(Progressing, false, g), Condition(Available, true, g)];
  }

  lemma InvFailing(w: World, env: Answers)
    requires Inv(w) && w.pass.Active? && w.pass.at.Failing?
    ensures Inv(Work(w, env))
  {
    assert Observed(w.obj) == Observed(w.pass.snap);
  }

  lemma InvEntering(w: World, env: Answers)
    requires Inv(w) && w.pass.Active? && w.pass.at.Entering?
    ensures Inv(Work(w, env))
  {
    assert Work(w, env).failedAt == w.failedAt && SameRecord(Work(w, env).obj, w.obj);
  }

  /** The calls in between leave the object alone. */
  lemma InvBetween(w: World, env: Answers)
    requires Inv(w) && w.pass.Active? && (w.pass.at.Calling? || w.pass.at.Applying? || w.pass.at.Counting?)
    ensures Inv(Work(w, env))
  {
    hide PatchStatus, Start, PhasePatch, FailedPatch, ReportPatch, IsRunning, NeedsEval, Observed, SameRecord;
    assert Work(w, env).obj == w.obj;
  }

  lemma InvWork(w: World, env: Answers)
    requires Inv(w)
    ensures Inv(Work(w, env))
  {
    hide Inv, Start;
    if w.pass.Active? {
      if w.pass.at.Begun? {
        InvStart(w);
      } else if w.pass.at.Reporting? {
        InvReport(w, env);
      } else if w.pass.at.Failing? {
        InvFailing(w, env);
      } else if w.pass.at.Entering? {
        InvEntering(w, env);
      } else {
        InvBetween(w, env);
      }
    }
  }

  lemma InvDo(w: World, step: Step)
    requires Inv(w)
    ensures Inv(Do(w, step))
  {
    if step.Continue? {
      InvWork(w, step.env);
    }
    hide Work;
  }

  lemma {:induction false} InvAfter(w: World, steps: seq<Step>)
    requires Inv(w)
    ensures Inv(After(w, steps))
  {
    hide Inv, Do;
    if steps != [] {
      InvAfter(w, steps[..|steps| - 1]);
      InvDo(After(w, steps[..|steps| - 1]), steps[|steps| - 1]);
    }
  }

  //////////////////////////////////////////////////////////////////////////////
  // Theorems over every run
  //////////////////////////////////////////////////////////////////////////////

  /** In every reachable state the cached result is no newer than the status claims, the status no newer than
      the spec, and the status claims more than the result's generation exactly when `set_failed` has run at a
      later generation since the result was stored. */
  lemma ProvenanceOverRuns(generation: nat, finalizers: Option<seq<string>>, replicas: Option<int>, steps: seq<Step>)
    ensures var w := After(Created(generation, finalizers, replicas), steps);
            && Observed(w.obj) <= w.obj.generation
            && (StatusOf(w.obj).eval.storePath.Some? <==> w.evalGeneration.Some?)
            && (w.evalGeneration.Some? ==>
                  && w.evalGeneration.value <= Observed(w.obj)
                  && (w.evalGeneration.value < Observed(w.obj) <==>
                        exists f :: f in w.failedAt && f > w.evalGeneration.value))
  {
    hide After, Do;
    InvCreated(generation, finalizers, replicas);
    InvAfter(Created(generation, finalizers, replicas), steps);
  }

  /** In every reachable state, phase Running comes with its three conditions at the observed generation and with
      at least the replicas that generation asked for; for an up-to-date status those are the replicas of the spec. */
  lemma RunningOverRuns(generation: nat, finalizers: Option<seq<string>>, replicas: Option<int>, steps: seq<Step>)
    ensures var w := After(Created(generation, finalizers, replicas), steps);
            IsRunning(w.obj) ==>
              && RunningIsReported(w)
              && (Observed(w.obj) == w.obj.generation ==>
                    w.obj.status.value.readyReplicas.value >= Desired(w.obj.replicas))
  {
    hide After, Do;
    InvCreated(generation, finalizers, replicas);
    InvAfter(Created(generation, finalizers, replicas), steps);
  }

  predicate NoSpecChange(steps: seq<Step>) { forall i :: 0 <= i < |steps| ==> !steps[i].ChangeSpec? }

  /** The status holds a result and claims the current generation. */
  predicate Settled(w: World) {
    Inv(w) && StatusOf(w.obj).eval.storePath.Some? && Observed(w.obj) == w.obj.generation
  }

  /** No pass of a settled object is about to evaluate. */
  lemma SettledPass(w: World)
    requires Settled(w) && w.pass.Active?
    ensures !w.pass.at.Calling? && !NeedsEval(w.pass.snap) && w.pass.snap.generation == w.obj.generation
    ensures CarriesResult(w.pass.at) ==> !w.pass.at.isNew
  {
  }

  lemma SettledStep(w: World, step: Step)
    requires Settled(w) && !step.ChangeSpec?
    ensures Settled(Do(w, step)) && Do(w, step).evalCalls == w.evalCalls
    ensures Do(w, step).evalGeneration == w.evalGeneration
  {
    hide FromStatus, Foreign, ResolvedCommand, Provenance, RunningIsReported, History;
    InvDo(w, step);
    if w.pass.Active? {
      SettledPass(w);
      CachedStep(StatusOf(w.pass.snap).eval);
      assert w.pass.from == w.stored;
    }
    hide Inv;
  }

  lemma {:induction false} SettledRun(w: World, steps: seq<Step>)
    requires Settled(w) && NoSpecChange(steps)
    ensures Settled(After(w, steps)) && After(w, steps).evalCalls == w.evalCalls
    ensures After(w, steps).evalGeneration == w.evalGeneration
  {
    hide Settled, Do;
    if steps != [] {
      SettledRun(w, steps[..|steps| - 1]);
      SettledStep(After(w, steps[..|steps| - 1]), steps[|steps| - 1]);
    }
  }

  /** From any reachable state whose status claims the current generation and holds some result, no evaluation is called
      until the spec changes, whether or not that result came from this generation. */
  lemma NoEvaluationUntilSpecChanges(
    generation: nat, finalizers: Option<seq<string>>, replicas: Option<int>, steps: seq<Step>, more: seq<Step>)
    requires var w := After(Created(generation, finalizers, replicas), steps);
             StatusOf(w.obj).eval.storePath.Some? && Observed(w.obj) == w.obj.generation
    requires NoSpecChange(more)
    ensures var w := After(Created(generation, finalizers, replicas), steps);
            After(w, more).evalCalls == w.evalCalls && After(w, more).evalGeneration == w.evalGeneration
  {
    hide After, Inv;
    InvCreated(generation, finalizers, replicas);
    InvAfter(Created(generation, finalizers, replicas), steps);
    SettledRun(After(Created(generation, finalizers, replicas), steps), more);
  }

  lemma {:induction false} GenerationRises(w: World, steps: seq<Step>)
    ensures w.obj.generation <= After(w, steps).obj.generation
    ensures After(w, steps).obj.generation == w.obj.generation ==> NoSpecChange(steps)
  {
    if steps != [] {
      GenerationRises(w, steps[..|steps| - 1]);
      GenerationStep(After(w, steps[..|steps| - 1]), steps[|steps| - 1]);
      hide Do;
      assert steps == steps[..|steps| - 1] + [steps[|steps| - 1]];
    }
  }

  lemma GenerationStep(w: World, step: Step)
    ensures Do(w, step).obj.generation == w.obj.generation + (if step.ChangeSpec? then 1 else 0)
  {
    hide FromStatus, Foreign, ResolvedCommand, NeedsEval, IsRunning;
  }

  /** Once a failure has moved the status past the generation of its result, no evaluation is called before the spec's
      generation rises above the one observed, and the status goes on claiming more than the result. */
  lemma StaleUntilGenerationRises(
    generation: nat, finalizers: Option<seq<string>>, replicas: Option<int>, steps: seq<Step>, more: seq<Step>)
    requires var w := After(Created(generation, finalizers, replicas), steps);
             && w.evalGeneration.Some? && w.evalGeneration.value < Observed(w.obj)
             && After(w, more).obj.generation <= Observed(w.obj)
    ensures var w := After(Created(generation, finalizers, replicas), steps);
            && After(w, more).evalCalls == w.evalCalls && After(w, more).evalGeneration == w.evalGeneration
            && w.evalGeneration.value < Observed(After(w, more).obj)
  {
    hide After;
    InvCreated(generation, finalizers, replicas);
    InvAfter(Created(generation, finalizers, replicas), steps);
    var w := After(Created(generation, finalizers, replicas), steps);
    GenerationRises(w, more);
    SettledRun(w, more);
  }

  /** A fresh pass over an object that is not being deleted, whose status lags behind the spec, calls the evaluator. */
  lemma LaggingStatusEvaluates(w: World, env: Answers) returns (more: seq<Step>)
    requires !w.obj.deleting && Observed(w.obj) < w.obj.generation
    ensures NoSpecChange(more) && After(w, more).evalCalls == w.evalCalls + 1
  {
    hide Foreign, FromStatus, ResolvedCommand;
    more := [Stop, ChangeFinalizers(Some([FINALIZER])), Begin, Continue(env), Continue(env)];
    var w1 := Do(Do(Do(w, Stop), ChangeFinalizers(Some([FINALIZER]))), Begin);
    assert w1.pass.Active? && w1.pass.at.Begun? && NeedsEval(w1.pass.snap) && !w1.pass.snap.deleting;
    assert FINALIZER in Listed(w1.pass.snap.finalizers);
    var w2 := Do(w1, Continue(env));
    assert w2.pass.Active? && w2.pass.at.Calling? && w2.evalCalls == w.evalCalls;
    AfterFive(w, more);
  }

  lemma AfterFive(w: World, steps: seq<Step>)
    requires |steps| == 5
    ensures After(w, steps) == Do(Do(Do(Do(Do(w, steps[0]), steps[1]), steps[2]), steps[3]), steps[4])
  {
    hide Do;
    assert steps[..4][..3] == steps[..3] && steps[..3][..2] == steps[..2] && steps[..2][..1] == steps[..1]
           && steps[..1][..0] == [];
    assert After(w, steps[..1]) == Do(w, steps[0]);
    assert After(w, steps[..2]) == Do(After(w, steps[..1]), steps[1]);
    assert After(w, steps[..3]) == Do(After(w, steps[..2]), steps[2]);
    assert After(w, steps[..4]) == Do(After(w, steps[..3]), steps[3]);
  }

  /** From a reachable state with a result, and no deletion under way, every continuation without a spec change is
      free of evaluations exactly when the status claims the current generation. */
  lemma EvaluationStopsExactly(
    generation: nat, finalizers: Option<seq<string>>, replicas: Option<int>, steps: seq<Step>, env: Answers)
    requires var w := After(Created(generation, finalizers, replicas), steps);
             StatusOf(w.obj).eval.storePath.Some? && !w.obj.deleting
    ensures var w := After(Created(generation, finalizers, replicas), steps);
            (forall more :: NoSpecChange(more) ==> After(w, more).evalCalls == w.evalCalls) <==>
            Observed(w.obj) == w.obj.generation
  {
    hide After, NoSpecChange;
    InvCreated(generation, finalizers, replicas);
    InvAfter(Created(generation, finalizers, replicas), steps);
    var w := After(Created(generation, finalizers, replicas), steps);
    if Observed(w.obj) == w.obj.generation {
      forall more | NoSpecChange(more)
        ensures After(w, more).evalCalls == w.evalCalls
      {
        SettledRun(w, more);
      }
    } else {
      var more := LaggingStatusEvaluates(w, env);
    }
  }

  /** Running at the current generation. */
  predicate AtRest(w: World) { Inv(w) && IsRunning(w.obj) && Observed(w.obj) == w.obj.generation }

  lemma RestStep(w: World, step: Step)
    requires AtRest(w) && !step.ChangeSpec?
    ensures AtRest(Do(w, step)) && Do(w, step).obj.status == w.obj.status
  {
    InvDo(w, step);
    if w.pass.Active? {
      assert w.pass.at.Begun? && w.pass.snap.status == w.obj.status && Observed(w.pass.snap) >= w.pass.snap.generation;
    }
    hide Foreign, FromStatus, Inv;
  }

  lemma {:induction false} RestRun(w: World, steps: seq<Step>)
    requires AtRest(w) && NoSpecChange(steps)
    ensures AtRest(After(w, steps)) && After(w, steps).obj.status == w.obj.status
  {
    hide AtRest, Do;
    if steps != [] {
      RestRun(w, steps[..|steps| - 1]);
      RestStep(After(w, steps[..|steps| - 1]), steps[|steps| - 1]);
    }
  }

  /** For a fixed generation Running is absorbing: from any reachable state that is Running at the current generation,
      passes (the one in flight too), crashes, finalizer edits and deletion leave the status alone. */
  lemma RunningIsAbsorbing(
    generation: nat, finalizers: Option<seq<string>>, replicas: Option<int>, steps: seq<Step>, more: seq<Step>)
    requires var w := After(Created(generation, finalizers, replicas), steps);
             IsRunning(w.obj) && Observed(w.obj) == w.obj.generation
    requires NoSpecChange(more)
    ensures var w := After(Created(generation, finalizers, replicas), steps); After(w, more).obj.status == w.obj.status
  {
    hide After, Inv;
    InvCreated(generation, finalizers, replicas);
    InvAfter(Created(generation, finalizers, replicas), steps);
    RestRun(After(Created(generation, finalizers, replicas), steps), more);
  }

  //////////////////////////////////////////////////////////////////////////////
  // A stale result reported as current
  //////////////////////////////////////////////////////////////////////////////

  function Ready(r: EvalResult): Answers { Answers(Ok(r), true, Some(1)) }

  const EVAL_FAILS: Answers := Answers(Err(InvalidInput), true, Some(1))

  /** A workload whose first generation evaluates and runs. */
  function FirstGeneration(r: EvalResult): World {
    var env := Ready(r);
    var w0 := Created(1, Some([FINALIZER]), None);
    Work(Work(Work(Work(Work(Work(Do(w0, Begin), env), env), env), env), env), env)
  }

  /** The spec changes and its evaluation fails. */
  function SecondGenerationFails(r: EvalResult): World {
    Work(Work(Work(Do(Do(FirstGeneration(r), ChangeSpec(None)), Begin), EVAL_FAILS), EVAL_FAILS), EVAL_FAILS)
  }

  /** The next pass, up to its report. */
  function SecondGenerationRetries(r: EvalResult): World {
    var env := Ready(r);
    Work(Work(Work(Work(Do(SecondGenerationFails(r), Begin), env), env), env), env)
  }

  lemma FirstGenerationRuns(r: EvalResult)
    ensures var w := FirstGeneration(r);
            && w.pass == Idle && w.evalGeneration == Some(1) && w.evalCalls == 1
            && w.obj.generation == 1 && !w.obj.deleting && w.obj.finalizers == Some([FINALIZER])
                && w.obj.replicas == None
            && IsRunning(w.obj) && w.obj.status.value.observedGeneration == Some(1)
            && w.obj.status.value.eval == Persist(r)
  {
    hide ResolvedCommand, Foreign, FromStatus;
    var env := Ready(r);
    var w0 := Do(Created(1, Some([FINALIZER]), None), Begin);
    var snap := w0.pass.snap;
    var w1 := Work(w0, env);
    assert w1.pass == Active(snap, None, Calling);
    var w2 := Work(w1, env);
    assert w2.pass == Active(snap, None, Entering(r, true));
    var w3 := Work(w2, env);
    assert w3.pass == Active(snap, None, Applying(r, true));
    var w4 := Work(w3, env);
    assert w4.pass == Active(snap, None, Counting(r, true));
    var w5 := Work(w4, env);
    assert w5.pass == Active(snap, None, Reporting(r, true, 1));
  }

  lemma SecondGenerationFailed(r: EvalResult)
    ensures var w := SecondGenerationFails(r);
            && w.pass == Idle && w.evalGeneration == Some(1) && w.evalCalls == 2
            && w.obj.generation == 2 && !w.obj.deleting && w.obj.finalizers == Some([FINALIZER])
                && w.obj.replicas == None
            && w.obj.status.Some? && w.obj.status.value.phase == Failed
                && w.obj.status.value.observedGeneration == Some(2)
            && w.obj.status.value.eval == Persist(r)
  {
    FirstGenerationRuns(r);
    hide ResolvedCommand, Foreign, FromStatus, FirstGeneration;
    var w0 := Do(Do(FirstGeneration(r), ChangeSpec(None)), Begin);
    var snap, from := w0.pass.snap, w0.pass.from;
    var w1 := Work(w0, EVAL_FAILS);
    assert w1.pass == Active(snap, from, Calling);
    var w2 := Work(w1, EVAL_FAILS);
    assert w2.pass == Active(snap, from, Failing);
  }

  /** Running, evaluated and available at generation 2, with the result of generation 1. */
  predicate RunsStale(w: World, r: EvalResult) {
    && IsRunning(w.obj) && Observed(w.obj) == w.obj.generation == 2
    && w.evalGeneration == Some(1) && w.evalCalls == 2
    && w.obj.status.value.eval.storePath == Some(r.storePath)
    && w.obj.status.value.conditions.Some?
    && Condition(Evaluated, true, 2) in w.obj.status.value.conditions.value
    && Condition(Available, true, 2) in w.obj.status.value.conditions.value
  }

  lemma SecondGenerationRetried(r: EvalResult)
    requires FromStatus(Persist(r)).Ok?
    ensures var w := SecondGenerationRetries(r);
            && FromStatus(Persist(r)).value.Some? && FromStatus(Persist(r)).value.value.storePath == r.storePath
            && w.pass.Active? && w.pass.at == Reporting(FromStatus(Persist(r)).value.value, false, 1)
            && w.pass.snap.generation == 2 && w.pass.snap.replicas == None && GenerationOf(w.pass.from) == Some(1)
            && w.obj.generation == 2 && w.evalGeneration == Some(1) && w.evalCalls == 2
  {
    SecondGenerationFailed(r);
    CachedStep(Persist(r));
    assert FromStatus(Persist(r)).value.value.storePath == r.storePath;
    hide ResolvedCommand, Foreign, FromStatus, SecondGenerationFails;
    var cached := FromStatus(Persist(r)).value.value;
    var env := Ready(r);
    var w0 := Do(SecondGenerationFails(r), Begin);
    var snap, from := w0.pass.snap, w0.pass.from;
    var w1 := Work(w0, env);
    assert w1.pass == Active(snap, from, Entering(cached, false));
    var w2 := Work(w1, env);
    assert w2.pass == Active(snap, from, Applying(cached, false));
    var w3 := Work(w2, env);
    assert w3.pass == Active(snap, from, Counting(cached, false));
  }

  lemma RunningReport(r: EvalResult, ready: int, generation: nat)
    ensures var p := ReportPatch(Running, r, ready, generation);
            && p.phase == Running && p.observedGeneration == Put(generation) && p.storePath == Put(r.storePath)
            && p.conditions.Put? && Condition(Evaluated, true, generation) in p.conditions.value
            && Condition(Available, true, generation) in p.conditions.value
  {
    hide ResolvedCommand;
    var conditions := ReportPatch(Running, r, ready, generation).conditions.value;
    assert conditions[0] == Condition(Evaluated, true, generation)
           && conditions[2] == Condition(Available, true, generation);
  }

  /** After a failed update the next pass deploys the previous generation's result and reports it as Running, evaluated
      and available at the new generation, without calling the evaluator. */
  lemma StaleResultReportedCurrent(r: EvalResult)
    requires FromStatus(Persist(r)).Ok?
    ensures RunsStale(Work(SecondGenerationRetries(r), Ready(r)), r)
  {
    hide ResolvedCommand, FromStatus, SecondGenerationRetries, RunsStale, Work;
    SecondGenerationRetried(r);
    ReportRunsStale(SecondGenerationRetries(r), FromStatus(Persist(r)).value.value, r);
  }

  lemma ReportRunsStale(w: World, cached: EvalResult, r: EvalResult)
    requires cached.storePath == r.storePath && w.pass.Active? && w.pass.at == Reporting(cached, false, 1)
    requires w.pass.snap.generation == 2 && w.pass.snap.replicas == None && GenerationOf(w.pass.from) == Some(1)
    requires w.obj.generation == 2 && w.evalCalls == 2
    ensures RunsStale(Work(w, Ready(r)), r)
  {
    hide ResolvedCommand, Start, ReportPatch;
    RunningReport(cached, 1, 2);
    assert Work(w, Ready(r)).obj == PatchStatus(w.obj, ReportPatch(Running, cached, 1, 2));
  }

  /** The stored path comes back with a rebuilt result. */
  lemma CachedPath(c: CachedEval)
    requires c.storePath.Some? && FromStatus(c).Ok?
    ensures FromStatus(c).value.Some? && FromStatus(c).value.value.storePath == c.storePath.value
  {
  }

  lemma AfterOneMore(w: World, steps: seq<Step>, step: Step)
    ensures After(w, steps + [step]) == Do(After(w, steps), step)
  {
    assert (steps + [step])[..|steps|] == steps;
  }

  /** Running at the current generation, with the result of an earlier one. */
  predicate ReportsStale(w: World, path: string) {
    && IsRunning(w.obj) && Observed(w.obj) == w.obj.generation
    && w.evalGeneration.Some? && w.evalGeneration.value < w.obj.generation
    && StatusOf(w.obj).eval.storePath == Some(path)
    && StatusOf(w.obj).conditions == Some([
         Condition(Evaluated, true, w.obj.generation),
         Condition(Progressing, false, w.obj.generation),
         Condition(Available, true, w.obj.generation)])
  }

  /** A fresh pass over an object that claims its generation and holds a result: it comes to its report without a
      call. */
  lemma CachedPassReports(w: World, env: Answers) returns (steps: seq<Step>)
    requires !w.obj.deleting && FINALIZER in Listed(w.obj.finalizers) && !IsRunning(w.obj)
    requires Observed(w.obj) == w.obj.generation
    requires StatusOf(w.obj).eval.storePath.Some? && FromStatus(StatusOf(w.obj).eval).Ok? && env.applied
    requires env.ready.Some?
    ensures NoSpecChange(steps) && FromStatus(StatusOf(w.obj).eval).value.Some?
    ensures var r, cached := After(w, steps), FromStatus(StatusOf(w.obj).eval).value.value;
            && r.pass == Active(w.obj, w.stored, Reporting(cached, false, env.ready.value))
            && r.evalCalls == w.evalCalls && r.evalGeneration == w.evalGeneration
                && r.obj.generation == w.obj.generation
  {
    CachedPath(StatusOf(w.obj).eval);
    hide FromStatus, ResolvedCommand, Foreign, Listed, After;
    var go := Continue(env);
    var cached := FromStatus(StatusOf(w.obj).eval).value.value;
    steps := [Stop] + [Begin] + [go] + [go] + [go] + [go];
    AfterOneMore(w, [], Stop);
    AfterOneMore(w, [Stop], Begin);
    assert After(w, []) == w by { NoSteps(w); }
    assert [] + [Stop] == [Stop];
    var w0 := After(w, [Stop] + [Begin]);
    assert w0.pass == Active(w.obj, w.stored, Begun) && w0.obj == w.obj && w0.evalCalls == w.evalCalls;
    var w1 := Do(w0, go);
    assert w1.pass == Active(w.obj, w.stored, Entering(cached, false));
    var w2 := Do(w1, go);
    assert w2.pass == Active(w.obj, w.stored, Applying(cached, false));
    var w3 := Do(w2, go);
    assert w3.pass == Active(w.obj, w.stored, Counting(cached, false));
    AfterOneMore(w, [Stop] + [Begin], go);
    AfterOneMore(w, [Stop] + [Begin] + [go], go);
    AfterOneMore(w, [Stop] + [Begin] + [go] + [go], go);
    AfterOneMore(w, [Stop] + [Begin] + [go] + [go] + [go], go);
  }

  lemma NoSteps(w: World)
    ensures After(w, []) == w
  {
  }

  lemma ReportIsStale(w: World, env: Answers, path: string)
    requires w.pass.Active? && w.pass.at.Reporting? && !w.pass.at.isNew && w.pass.at.result.storePath == path
    requires w.pass.at.ready >= Desired(w.pass.snap.replicas) && w.pass.snap.generation == w.obj.generation
    requires w.pass.from.Some? && w.pass.from.value.generation < w.obj.generation
    ensures ReportsStale(Work(w, env), path) && Work(w, env).evalCalls == w.evalCalls
    ensures Work(w, env).evalGeneration == GenerationOf(w.pass.from)
  {
    hide ResolvedCommand, Start;
    var g := w.obj.generation;
    assert [Condition(Evaluated, true, g), Condition(Progressing, false, g)] + [Condition(Available, true, g)]
        == [Condition(Evaluated, true, g), Condition(Progressing, false, g), Condition(Available, true, g)];
  }

  /** From every reachable state whose status claims the current generation with the result of an earlier one, the
      object not being deleted, its finalizer in place and the result such that it can be rebuilt: some continuation
      without a change of the spec reports that result as Running at the current generation, and no evaluation is
      called. */
  lemma StaleResultIsReportedFromAnywhere(
    generation: nat, finalizers: Option<seq<string>>, replicas: Option<int>, steps: seq<Step>,
        result: Outcome<EvalResult, Error>)
    returns (more: seq<Step>)
    requires var w := After(Created(generation, finalizers, replicas), steps);
             && w.evalGeneration.Some? && w.evalGeneration.value < Observed(w.obj) == w.obj.generation
             && !w.obj.deleting && FINALIZER in Listed(w.obj.finalizers) && FromStatus(StatusOf(w.obj).eval).Ok?
    ensures NoSpecChange(more)
    ensures var w := After(Created(generation, finalizers, replicas), steps);
            && StatusOf(w.obj).eval.storePath.Some?
                && ReportsStale(After(w, more), StatusOf(w.obj).eval.storePath.value)
            && After(w, more).evalCalls == w.evalCalls && After(w, more).evalGeneration == w.evalGeneration
  {
    hide After, FromStatus, Listed;
    InvCreated(generation, finalizers, replicas);
    InvAfter(Created(generation, finalizers, replicas), steps);
    var w := After(Created(generation, finalizers, replicas), steps);
    assert StatusOf(w.obj).eval.storePath.Some?;
    if IsRunning(w.obj) {
      more := [];
      NoSteps(w);
    } else {
      var env := Answers(result, true, Some(Desired(w.obj.replicas)));
      CachedPath(StatusOf(w.obj).eval);
      hide Inv, Work;
      var before := CachedPassReports(w, env);
      more := before + [Continue(env)];
      AfterOneMore(w, before, Continue(env));
      ReportIsStale(After(w, before), env, StatusOf(w.obj).eval.storePath.value);
    }
  }

  //////////////////////////////////////////////////////////////////////////////
  // The reconciler as one procedure
  //////////////////////////////////////////////////////////////////////////////

  /** `n` further moves of the pass in flight. */
  function Moves(w: World, env: Answers, n: nat): World
    decreases n
  {
    if n == 0 then w else Moves(Work(w, env), env, n - 1)
  }

  /** The object on the API server, and `reconcile` with the functions it calls. */
  class ApiServer {
    var obj: Workload

    constructor (initial: Workload)
      ensures obj == initial
    {
      obj := initial;
    }

    method Patch(p: StatusPatch)
      modifies this
      ensures obj == PatchStatus(old(obj), p)
    {
      obj := PatchStatus(obj, p);
    }

    /** A pass that no crash interrupts; `w` is the history before it. It does what the steps of the state machine do.
        */
    method Reconcile(env: Answers, ghost w: World)
      requires w.obj == obj && w.pass.Idle?
      modifies this
      ensures obj == Moves(Do(w, Begin), env, 6).obj
      ensures Moves(Do(w, Begin), env, 6).pass.Idle?
    {
      hide FromStatus, ResolvedCommand, Foreign, Listed;
      ghost var w0 := Do(w, Begin);
      var workload := obj;
      UnfoldMoves(w0, env);
      if workload.deleting {
        obj := RemoveFinalizer(obj, workload);
        return;
      }
      if FINALIZER !in Listed(workload.finalizers) {
        obj := AddFinalizer(obj, workload);
        return;
      }
      if Observed(workload) >= workload.generation && IsRunning(workload) {
        return;
      }
      var result: EvalResult;
      var cached := FromStatus(StatusOf(workload).eval);
      if NeedsEval(workload) || cached == Ok(None) {
        Patch(PhasePatch(Evaluating));
        if !env.eval.Ok? {
          Patch(FailedPatch(workload.generation));
          return;
        }
        result := env.eval.value;
      } else if cached.Ok? {
        result := cached.value.value;
      } else {
        return;
      }
      Patch(PhasePatch(Provisioning));
      if !env.applied {
        Patch(FailedPatch(workload.generation));
        return;
      }
      if env.ready.None? {
        return;
      }
      var phase := if env.ready.value >= Desired(workload.replicas) then Running else Provisioning;
      Patch(ReportPatch(phase, result, env.ready.value, workload.generation));
    }
  }

  lemma UnfoldMoves(w: World, env: Answers)
    ensures Moves(w, env, 6) == Work(Work(Work(Work(Work(Work(w, env), env), env), env), env), env)
  {
    hide Work;
    assert Moves(w, env, 6) == Moves(Work(w, env), env, 5);
    assert Moves(w, env, 6) == Moves(Work(Work(w, env), env), env, 4);
    assert Moves(w, env, 6) == Moves(Work(Work(Work(w, env), env), env), env, 3);
    assert Moves(w, env, 6) == Moves(Work(Work(Work(Work(w, env), env), env), env), env, 2);
    assert Moves(w, env, 6) == Moves(Work(Work(Work(Work(Work(w, env), env), env), env), env), env, 1);
    assert Moves(w, env, 6) == Moves(Work(Work(Work(Work(Work(Work(w, env), env), env), env), env), env), env, 0);
  }
}
