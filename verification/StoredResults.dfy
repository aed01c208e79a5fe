/**
 What the status of a workload holds (`reconciler.rs`), in every state of every
 run: the values that the evaluator answered for some generation, and how the
 command changes when a pass rebuilds it from the status.
 */
module StoredResults {
  import opened Outcomes
  import StorePaths
  import opened EvalResults
  import opened Reconciler

  /** The program that a stored result runs: rebuilding keeps what comes after the last slash. */
  function StoredProgram(s: Stored): string {
    if s.rebuilt then LastPart(Program(s.answer), '/') else Program(s.answer)
  }

  /** The cached evaluation is that answer. */
  predicate Matches(c: CachedEval, s: Stored) {
    && c.storePath == Some(s.answer.storePath)
    && c.closurePaths == Some(s.answer.closurePaths)
    && c.resolvedCommand == Some(s.answer.storePath + "/bin/" + StoredProgram(s))
  }

  predicate MatchesIfAny(c: CachedEval, s: Option<Stored>) { s.Some? ==> Matches(c, s.value) }

  /** The result that a pass carries is the one that `s` is about. */
  predicate Carries(r: EvalResult, s: Stored) {
    r.storePath == s.answer.storePath && r.closurePaths == s.answer.closurePaths && Program(r) == StoredProgram(s)
  }

  /** Reporting a result stores it whole, in every phase. */
  lemma ReportStores(w: Workload, phase: Phase, r: EvalResult, ready: int, generation: nat, s: Stored)
    requires Carries(r, s)
    ensures Matches(StatusOf(PatchStatus(w, ReportPatch(phase, r, ready, generation))).eval, s)
  {
  }

  lemma FreshCarries(r: EvalResult, generation: nat)
    ensures Carries(r, Stored(generation, r, false))
  {
  }

  /** What is rebuilt from a matching status is the answer, with the part of the program after the last slash. */
  lemma RebuiltCarries(c: CachedEval, s: Stored)
    requires Matches(c, s) && FromStatus(c).Ok?
    ensures FromStatus(c).value.Some? && Carries(FromStatus(c).value.value, s.(rebuilt := true))
  {
    hide LastPart;
    var program := StoredProgram(s);
    var command := s.answer.storePath + "/bin/" + program;
    assert command == (s.answer.storePath + "/bin") + ['/'] + program by {
      assert "/bin/" == "/bin" + ['/'];
    }
    LastPartAfter(s.answer.storePath + "/bin", '/', program);
    LastPartPlain(Program(s.answer), '/');
    LastPartPlain(LastPart(Program(s.answer), '/'), '/');
  }

  /** The stored command is that of the answer exactly when nothing has rebuilt it or the program has no slash. */
  lemma CommandKeptExactly(c: CachedEval, s: Stored)
    requires Matches(c, s)
    ensures c.resolvedCommand == Some(s.answer.storePath + "/bin/" + Program(s.answer)) <==>
            !s.rebuilt || '/' !in Program(s.answer)
  {
    hide LastPart;
    LastPartPlain(Program(s.answer), '/');
    SamePrefix(s.answer.storePath + "/bin/", StoredProgram(s), Program(s.answer));
  }

  //////////////////////////////////////////////////////////////////////////////
  // One step
  //////////////////////////////////////////////////////////////////////////////

  /** What a pass has in hand: a fresh answer, or one rebuilt from the snapshot. */
  predicate PassHolds(p: Pass) {
    p.Active? ==>
      && MatchesIfAny(StatusOf(p.snap).eval, p.from)
      && (CarriesResult(p.at) && !p.at.isNew ==> p.from.Some? && Carries(p.at.result, p.from.value.(rebuilt := true)))
  }

  predicate Faithful(w: World) {
    && MatchesIfAny(StatusOf(w.obj).eval, w.stored) && PassHolds(w.pass)
    && (w.pass.Active? ==> (StatusOf(w.pass.snap).eval.storePath.Some? <==> w.pass.from.Some?))
  }

  lemma FaithfulStart(w: World)
    requires Faithful(w) && w.pass.Active? && w.pass.at.Begun?
    ensures Faithful(Start(w, w.pass.snap, w.pass.from))
  {
    hide FromStatus, Foreign, ResolvedCommand, Matches, Carries;
    var eval := StatusOf(w.pass.snap).eval;
    if !NeedsEval(w.pass.snap) && FromStatus(eval).Ok? {
      RebuiltCarries(eval, w.pass.from.value);
    }
  }

  lemma FaithfulReport(w: World, env: Answers)
    requires Faithful(w) && w.pass.Active? && w.pass.at.Reporting?
    ensures Faithful(Work(w, env))
  {
    hide FromStatus, Foreign, ResolvedCommand, Matches, Carries, Start, ReportPatch, PatchStatus;
    var snap, r, ready := w.pass.snap, w.pass.at.result, w.pass.at.ready;
    var phase := if ready >= Desired(snap.replicas) then Running else Provisioning;
    if w.pass.at.isNew {
      FreshCarries(r, snap.generation);
      ReportStores(w.obj, phase, r, ready, snap.generation, Stored(snap.generation, r, false));
    } else {
      ReportStores(w.obj, phase, r, ready, snap.generation, w.pass.from.value.(rebuilt := true));
    }
  }

  /** A step of a pass keeps the stored values those of the answer. */
  lemma FaithfulWork(w: World, env: Answers)
    requires Faithful(w)
    ensures Faithful(Work(w, env))
  {
    if w.pass.Active? {
      if w.pass.at.Begun? {
        FaithfulStart(w);
      } else if w.pass.at.Reporting? {
        FaithfulReport(w, env);
      } else {
        hide Start, ReportPatch, Matches, Carries;
      }
    }
  }

  //////////////////////////////////////////////////////////////////////////////
  // Every run
  //////////////////////////////////////////////////////////////////////////////

  /** At step `i` of the run the evaluator, called for generation `g`, answered `r`. */
  ghost predicate AnsweredAt(w0: World, steps: seq<Step>, i: nat, g: nat, r: EvalResult) {
    && i < |steps| && steps[i].Continue? && steps[i].env.eval == Ok(r)
    && var pass := After(w0, steps[..i]).pass;
       pass.Active? && pass.at.Calling? && pass.snap.generation == g
  }

  ghost predicate Answered(w0: World, steps: seq<Step>, g: nat, r: EvalResult) {
    exists i: nat :: AnsweredAt(w0, steps, i, g, r)
  }

  lemma AnsweredMore(w0: World, steps: seq<Step>, g: nat, r: EvalResult)
    requires steps != [] && Answered(w0, steps[..|steps| - 1], g, r)
    ensures Answered(w0, steps, g, r)
  {
    hide After;
    var before := steps[..|steps| - 1];
    var i: nat :| AnsweredAt(w0, before, i, g, r);
    assert before[..i] == steps[..i];
    assert AnsweredAt(w0, steps, i, g, r);
  }

  /** Whether the last report of the run was of a result that the pass had evaluated itself. */
  ghost function LastReportIsNew(w0: World, steps: seq<Step>): Option<bool> {
    if steps == [] then None
    else
      var before := steps[..|steps| - 1];
      var pass := After(w0, before).pass;
      if steps[|steps| - 1].Continue? && pass.Active? && pass.at.Reporting? then Some(pass.at.isNew)
      else LastReportIsNew(w0, before)
  }

  /** Where a step takes the stored result and the result in hand from. */
  lemma WorkOrigin(w: World, env: Answers)
    requires Faithful(w)
    ensures var r := Work(w, env);
            && (w.pass.Active? && w.pass.at.Reporting? && w.pass.at.isNew ==>
                  r.stored == Some(Stored(w.pass.snap.generation, w.pass.at.result, false)))
            && (w.pass.Active? && w.pass.at.Reporting? && !w.pass.at.isNew ==>
                  w.pass.from.Some? && r.stored == Some(w.pass.from.value.(rebuilt := true)))
            && (!(w.pass.Active? && w.pass.at.Reporting?) ==> r.stored == w.stored)
            && (r.pass.Active? ==> w.pass.Active? && r.pass.from == w.pass.from && r.pass.snap == w.pass.snap)
            && (r.pass.Active? && CarriesResult(r.pass.at) && r.pass.at.isNew ==>
                  || (CarriesResult(w.pass.at) && w.pass.at.isNew && w.pass.at.result == r.pass.at.result)
                  || (w.pass.at.Calling? && env.eval == Ok(r.pass.at.result)))
  {
    hide FromStatus, Foreign, ResolvedCommand, Matches, Carries, ReportPatch, PatchStatus, Observed, NeedsEval;
  }

  ghost predicate FromAnswers(w0: World, steps: seq<Step>, s: Option<Stored>) {
    s.Some? ==> Answered(w0, steps, s.value.generation, s.value.answer)
  }

  ghost predicate RunFaithful(w0: World, steps: seq<Step>) {
    var w := After(w0, steps);
    && Faithful(w) && FromAnswers(w0, steps, w.stored)
    && (w.stored.Some? ==> LastReportIsNew(w0, steps) == Some(!w.stored.value.rebuilt))
    && (w.pass.Active? ==> FromAnswers(w0, steps, w.pass.from))
    && (w.pass.Active? && CarriesResult(w.pass.at) && w.pass.at.isNew ==>
          Answered(w0, steps, w.pass.snap.generation, w.pass.at.result))
    && (StatusOf(w.obj).eval.storePath.Some? <==> w.stored.Some?)
  }

  lemma FromAnswersMore(w0: World, steps: seq<Step>, s: Option<Stored>)
    requires steps != [] && FromAnswers(w0, steps[..|steps| - 1], s)
    ensures FromAnswers(w0, steps, s)
  {
    hide Answered;
    if s.Some? {
      AnsweredMore(w0, steps, s.value.generation, s.value.answer);
    }
  }

  lemma RunContinue(w0: World, steps: seq<Step>)
    requires steps != [] && steps[|steps| - 1].Continue? && RunFaithful(w0, steps[..|steps| - 1])
    requires Inv(After(w0, steps))
    ensures RunFaithful(w0, steps)
  {
    hide After, Faithful, Work, Inv, Answered, AnsweredAt;
    var before, env := steps[..|steps| - 1], steps[|steps| - 1].env;
    var w := After(w0, before);
    AfterLast(w0, steps);
    FaithfulWork(w, env);
    WorkOrigin(w, env);
    FromAnswersMore(w0, steps, w.stored);
    var r := Work(w, env);
    if w.pass.Active? {
      FromAnswersMore(w0, steps, w.pass.from);
      if CarriesResult(w.pass.at) && w.pass.at.isNew {
        AnsweredMore(w0, steps, w.pass.snap.generation, w.pass.at.result);
      }
      if w.pass.at.Calling? && env.eval.Ok? {
        AnsweredNow(w0, steps, w.pass.snap.generation, env.eval.value);
      }
    }
    InvStored(r);
  }

  lemma AfterLast(w0: World, steps: seq<Step>)
    requires steps != []
    ensures After(w0, steps) == Do(After(w0, steps[..|steps| - 1]), steps[|steps| - 1])
  {
  }

  lemma AnsweredNow(w0: World, steps: seq<Step>, g: nat, r: EvalResult)
    requires steps != [] && AnsweredAt(w0, steps, |steps| - 1, g, r)
    ensures Answered(w0, steps, g, r)
  {
  }

  lemma InvStored(w: World)
    requires Inv(w)
    ensures StatusOf(w.obj).eval.storePath.Some? <==> w.stored.Some?
  {
  }

  /** The other steps leave status and stored result alone. */
  lemma OtherSteps(w: World, step: Step)
    requires Faithful(w) && Inv(w) && !step.Continue?
    ensures var r := Do(w, step);
            && Faithful(r) && r.stored == w.stored && StatusOf(r.obj) == StatusOf(w.obj)
            && (r.pass == w.pass || r.pass.Idle? || (r.pass == Active(w.obj, w.stored, Begun)))
  {
    InvStored(w);
    hide Inv, Matches, Carries;
  }

  lemma RunOther(w0: World, steps: seq<Step>)
    requires steps != [] && !steps[|steps| - 1].Continue? && RunFaithful(w0, steps[..|steps| - 1])
    requires Inv(After(w0, steps[..|steps| - 1]))
    ensures RunFaithful(w0, steps)
  {
    hide After, Faithful, Inv, Answered, Do;
    var w := After(w0, steps[..|steps| - 1]);
    AfterLast(w0, steps);
    OtherSteps(w, steps[|steps| - 1]);
    FromAnswersMore(w0, steps, w.stored);
    if w.pass.Active? {
      FromAnswersMore(w0, steps, w.pass.from);
      if CarriesResult(w.pass.at) && w.pass.at.isNew {
        AnsweredMore(w0, steps, w.pass.snap.generation, w.pass.at.result);
      }
    }
  }

  lemma {:induction false} RunKeepsFaithful(w0: World, steps: seq<Step>)
    requires Inv(w0) && w0.stored.None? && w0.pass.Idle?
    ensures RunFaithful(w0, steps)
  {
    hide RunFaithful, Inv, After;
    if steps == [] {
      NewIsFaithful(w0);
    } else {
      RunKeepsFaithful(w0, steps[..|steps| - 1]);
      InvAfter(w0, steps[..|steps| - 1]);
      InvAfter(w0, steps);
      if steps[|steps| - 1].Continue? {
        RunContinue(w0, steps);
      } else {
        RunOther(w0, steps);
      }
    }
  }

  lemma NewIsFaithful(w0: World)
    requires Inv(w0) && w0.stored.None? && w0.pass.Idle?
    ensures RunFaithful(w0, [])
  {
    InvStored(w0);
    hide Inv;
  }

  /** In every reachable state with a result, whatever the phase: the evaluator was called for some generation and
      answered it; path and closure are those of the answer; the command is exactly when no pass has rebuilt it since
      or the program has no slash. */
  lemma StoredIsAnswered(generation: nat, finalizers: Option<seq<string>>, replicas: Option<int>, steps: seq<Step>)
    ensures var w0 := Created(generation, finalizers, replicas);
            var w := After(w0, steps);
            var eval := StatusOf(w.obj).eval;
            eval.storePath.Some? ==>
              && w.stored.Some?
              && var s := w.stored.value;
                 && w.evalGeneration == Some(s.generation) && Answered(w0, steps, s.generation, s.answer)
                 && eval.storePath == Some(s.answer.storePath) && eval.closurePaths == Some(s.answer.closurePaths)
                 && (eval.resolvedCommand == Some(s.answer.storePath + "/bin/" + Program(s.answer)) <==>
                       LastReportIsNew(w0, steps) == Some(true) || '/' !in Program(s.answer))
  {
    hide After, Inv, Answered, LastReportIsNew, Program;
    var w0 := Created(generation, finalizers, replicas);
    InvCreated(generation, finalizers, replicas);
    RunKeepsFaithful(w0, steps);
    var w := After(w0, steps);
    if w.stored.Some? {
      CommandKeptExactly(StatusOf(w.obj).eval, w.stored.value);
    }
  }

  /** Without a stored command the program is the name in the store path, or `unknown` if that does not parse. */
  lemma RebuiltWithoutCommand(c: CachedEval)
    requires c.storePath.Some? && c.resolvedCommand.None? && FromStatus(c).Ok?
    ensures FromStatus(c).value.Some?
    ensures Program(FromStatus(c).value.value) ==
            if StorePaths.Parse(c.storePath.value).Ok?
            then StorePaths.Parse(c.storePath.value).value.name else "unknown"
    ensures FromStatus(c).value.value.closurePaths == if c.closurePaths.Some? then c.closurePaths.value else []
  {
  }
}
