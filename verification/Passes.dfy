/**
 What one uninterrupted pass of the reconciler (`reconciler.rs`) does to an
 object, case by case, in terms of the object alone.
 */
module Passes {
  import opened Outcomes
  import opened EvalResults
  import opened Reconciler

  /** A failure recorded at a generation: the result and the replicas stay as they were. */
  predicate FailedAt(s: Status, after: Status, g: nat) {
    after == Status(Some(g), Failed, s.eval, s.readyReplicas, Some([Condition(Evaluated, false, g)]))
  }

  /** A result reported at a generation: Running with its three conditions if enough replicas are ready, and otherwise
      Provisioning with two. */
  predicate ReportedAt(after: Status, r: EvalResult, ready: int, wanted: int, g: nat) {
    && after.observedGeneration == Some(g) && after.readyReplicas == Some(ready)
    && after.eval.storePath == Some(r.storePath)
    && after.eval.resolvedCommand == Some(r.storePath + "/bin/" + Program(r))
    && after.eval.closurePaths == Some(r.closurePaths)
    && after.phase == (if ready >= wanted then Running else Provisioning)
    && after.conditions == Some(
         if ready >= wanted
         then [Condition(Evaluated, true, g), Condition(Progressing, false, g), Condition(Available, true, g)]
         else [Condition(Evaluated, true, g), Condition(Progressing, true, g)])
  }

  /** What becomes of the status once there is a result. */
  predicate Deployed(s: Status, after: Status, r: EvalResult, env: Answers, replicas: Option<int>, g: nat) {
    if !env.applied then FailedAt(s, after, g)
    else if env.ready.None? then after == s.(phase := Provisioning)
    else ReportedAt(after, r, env.ready.value, if replicas.Some? then replicas.value else 1, g)
  }

  lemma Reports(obj: Workload, s: Status, phase: Phase, r: EvalResult, ready: int, g: nat, wanted: int)
    requires StatusOf(obj).eval == s.eval && phase == if ready >= wanted then Running else Provisioning
    ensures ReportedAt(StatusOf(PatchStatus(obj, ReportPatch(phase, r, ready, g))), r, ready, wanted, g)
  {
    assert [Condition(Evaluated, true, g), Condition(Progressing, false, g)] + [Condition(Available, true, g)]
        == [Condition(Evaluated, true, g), Condition(Progressing, false, g), Condition(Available, true, g)];
    assert [Condition(Evaluated, true, g), Condition(Progressing, true, g)] + []
        == [Condition(Evaluated, true, g), Condition(Progressing, true, g)];
  }

  /** From the result on: three or four more moves. */
  lemma Deploys(w: World, env: Answers, r: EvalResult, isNew: bool, s: Status)
    requires w.pass.Active? && w.pass.at == Entering(r, isNew)
    requires StatusOf(w.obj) == s || StatusOf(w.obj) == s.(phase := Evaluating)
    ensures var end := Work(Work(Work(Work(w, env), env), env), env);
            && end.pass.Idle? && end.evalCalls == w.evalCalls
            && end.obj == w.obj.(status := end.obj.status) && end.obj.status.Some?
            && Deployed(s, end.obj.status.value, r, env, w.pass.snap.replicas, w.pass.snap.generation)
  {
    hide ReportedAt, ReportPatch, Start;
    var snap, from := w.pass.snap, w.pass.from;
    var w1 := Work(w, env);
    assert w1.pass == Active(snap, from, Applying(r, isNew)) && StatusOf(w1.obj) == s.(phase := Provisioning);
    var w2 := Work(w1, env);
    if env.applied {
      assert w2.pass == Active(snap, from, Counting(r, isNew)) && w2.obj == w1.obj;
      var w3 := Work(w2, env);
      if env.ready.Some? {
        var ready := env.ready.value;
        assert w3.pass == Active(snap, from, Reporting(r, isNew, ready)) && w3.obj == w1.obj;
        var phase := if ready >= Desired(snap.replicas) then Running else Provisioning;
        Reports(w3.obj, s, phase, r, ready, snap.generation, if snap.replicas.Some? then snap.replicas.value else 1);
      }
    } else {
      assert w2.pass == Active(snap, from, Failing) && w2.obj == w1.obj;
    }
  }

  lemma IdleStays(w: World, env: Answers)
    requires w.pass.Idle?
    ensures Work(w, env) == w
  {
  }

  /** The evaluator has to be asked: the status lags behind the spec, or holds no result. */
  predicate Stale(before: Workload) {
    var s := StatusOf(before);
    (if s.observedGeneration.Some? then s.observedGeneration.value else 0) < before.generation
    || s.eval.storePath.None?
  }

  predicate UpToDate(before: Workload) {
    before.status.Some? && before.status.value.phase == Running
    && (if before.status.value.observedGeneration.Some? then before.status.value.observedGeneration.value else 0)
       >= before.generation
  }

  /** A pass from the call of the evaluator on. */
  lemma Evaluates(w: World, env: Answers, s: Status)
    requires w.pass.Active? && w.pass.at.Calling? && StatusOf(w.obj) == s.(phase := Evaluating)
    ensures var end := Work(Work(Work(Work(Work(w, env), env), env), env), env);
            && end.pass.Idle? && end.evalCalls == w.evalCalls + 1
            && end.obj == w.obj.(status := end.obj.status) && end.obj.status.Some?
            && var snap := w.pass.snap;
               if env.eval.Ok?
               then Deployed(s, end.obj.status.value, env.eval.value, env, snap.replicas, snap.generation)
               else FailedAt(s, end.obj.status.value, snap.generation)
  {
    var snap, from := w.pass.snap, w.pass.from;
    var w1 := Work(w, env);
    if env.eval.Ok? {
      assert w1.pass == Active(snap, from, Entering(env.eval.value, true)) && w1.obj == w.obj;
      hide Work, Deployed;
      Deploys(w1, env, env.eval.value, true, s);
    } else {
      assert w1.pass == Active(snap, from, Failing) && w1.obj == w.obj;
      var w2 := Work(w1, env);
      assert w2.pass.Idle? && w2.obj.status.Some? && FailedAt(s, w2.obj.status.value, snap.generation);
      hide Work, FailedAt;
      IdleStays(w2, env);
    }
  }

  /** What one uninterrupted pass leaves, for every object and every answer of the outside world. */
  lemma PassExactly(w: World, env: Answers)
    requires w.pass.Idle?
    ensures var before, end := w.obj, Moves(Do(w, Begin), env, 6);
            var after, s := end.obj, StatusOf(before);
            && end.pass.Idle?
            && (if before.deleting then
                  && after == before.(finalizers := after.finalizers)
                  && FINALIZER !in Listed(after.finalizers)
                  && Foreign(Listed(after.finalizers)) == Foreign(Listed(before.finalizers))
                else if "niphas.io/workload-cleanup" !in Listed(before.finalizers) then
                  after == before.(finalizers := Some(Listed(before.finalizers) + ["niphas.io/workload-cleanup"]))
                else if UpToDate(before) then after == before
                else if Stale(before) then
                  && after == before.(status := after.status) && after.status.Some?
                  && (if env.eval.Ok?
                      then Deployed(s, after.status.value, env.eval.value, env, before.replicas, before.generation)
                      else FailedAt(s, after.status.value, before.generation))
                else
                  match FromStatus(s.eval)
                  case Ok(Some(cached)) =>
                    && after == before.(status := after.status) && after.status.Some?
                    && Deployed(s, after.status.value, cached, env, before.replicas, before.generation)
                  case _ => after == before)
            && end.evalCalls == w.evalCalls + (if !before.deleting && FINALIZER in Listed(before.finalizers)
                                                  && !UpToDate(before) && Stale(before) then 1 else 0)
  {
    var w0 := Do(w, Begin);
    UnfoldMoves(w0, env);
    var s := StatusOf(w.obj);
    var w1 := Work(w0, env);
    FinalizerWrites(w.obj, w.obj);
    CachedStep(s.eval);
    hide FromStatus, ResolvedCommand, Foreign, Listed, Deployed, FailedAt;
    if w1.pass.Idle? {
      IdleStays(w1, env);
    } else if Stale(w.obj) {
      assert w1.pass == Active(w.obj, w.stored, Calling) && StatusOf(w1.obj) == s.(phase := Evaluating);
      assert w1.obj == w.obj.(status := w1.obj.status) && w1.evalCalls == w.evalCalls;
      hide Work, Start;
      Evaluates(w1, env, s);
    } else {
      var cached := FromStatus(s.eval).value.value;
      assert w1.pass == Active(w.obj, w.stored, Entering(cached, false)) && w1.obj == w.obj
             && w1.evalCalls == w.evalCalls;
      hide Work, Start;
      Deploys(w1, env, cached, false, s);
      IdleStays(Work(Work(Work(Work(w1, env), env), env), env), env);
    }
  }
}
