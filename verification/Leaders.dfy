/**
 Several operators at once (`reconciler.rs`): passes run side by side, and each
 starts from any version the object ever had, as a lagging cache or a former
 leader would hand it out. Nothing in a write depends on what is on the server.
 */
module Leaders {
  import opened Outcomes
  import opened EvalResults
  import opened Reconciler

  /** The object at some time, and where the result in its status came from. */
  datatype Version = Version(obj: Workload, stored: Option<Stored>)
  {
    /** The generation whose evaluation the status held. */
    const evalGeneration: Option<nat> := GenerationOf(stored)
  }

  /** `history` holds every version so far, the current one last; `latest` is the newest version a pass began with. */
  datatype Cluster = Cluster(history: seq<Version>, passes: map<nat, Pass>, latest: nat)

  datatype Event =
    | BeginPass(leader: nat, version: nat)
    | Proceed(leader: nat, env: Answers)
    | EndPass(leader: nat)
    | EditSpec(replicas: Option<int>)
    | EditFinalizers(finalizers: Option<seq<string>>)
    | Remove

  predicate Started(c: Cluster) { c.history != [] && c.latest < |c.history| }

  function Current(c: Cluster): Version
    requires Started(c)
  {
    c.history[|c.history| - 1]
  }

  function Record(c: Cluster, v: Version): Cluster { c.(history := c.history + [v]) }

  /** One step of a pass on the current object, as in `Reconciler`. */
  function Proceeded(c: Cluster, leader: nat, env: Answers): World
    requires Started(c) && leader in c.passes
  {
    Work(World(Current(c).obj, c.passes[leader], Current(c).stored, {}, map[], 0), env)
  }

  function Next(c: Cluster, event: Event): (r: Cluster)
    requires Started(c)
    ensures Started(r)
  {
    var now := Current(c);
    match event
    case BeginPass(leader, version) =>
      if leader in c.passes || version >= |c.history| then c
      else
        var v := c.history[version];
        c.(passes := c.passes[leader := Active(v.obj, v.stored, Begun)],
           latest := if version > c.latest then version else c.latest)
    case Proceed(leader, env) =>
      if leader !in c.passes then c
      else
        var w := Proceeded(c, leader, env);
        Record(c, Version(w.obj, w.stored)).(passes :=
          if w.pass.Idle? then c.passes - {leader} else c.passes[leader := w.pass])
    case EndPass(leader) => c.(passes := c.passes - {leader})
    case EditSpec(replicas) =>
      Record(c, now.(obj := now.obj.(generation := now.obj.generation + 1, replicas := replicas)))
    case EditFinalizers(fs) => Record(c, now.(obj := now.obj.(finalizers := fs)))
    case Remove => Record(c, now.(obj := now.obj.(deleting := true)))
  }

  function Run(c: Cluster, events: seq<Event>): (r: Cluster)
    requires Started(c)
    ensures Started(r)
  {
    if events == [] then c else Next(Run(c, events[..|events| - 1]), events[|events| - 1])
  }

  function NewCluster(generation: nat, finalizers: Option<seq<string>>, replicas: Option<int>): (r: Cluster)
    ensures Started(r)
  {
    Cluster([Version(Workload(generation, false, finalizers, replicas, None), None)], map[], 0)
  }

  //////////////////////////////////////////////////////////////////////////////
  // The order of result and status
  //////////////////////////////////////////////////////////////////////////////

  /** The stored result is no newer than the generation the status claims. */
  predicate Ordered(v: Version) { v.evalGeneration.Some? ==> v.evalGeneration.value <= Observed(v.obj) }

  /** The one write that can break it: `set_failed` by a pass whose snapshot is older than the stored result. */
  predicate Guarded(c: Cluster, event: Event)
    requires Started(c)
  {
    event.Proceed? && event.leader in c.passes && c.passes[event.leader].Active? && c.passes[event.leader].at.Failing?
    && Current(c).evalGeneration.Some? ==>
      Current(c).evalGeneration.value <= c.passes[event.leader].snap.generation
  }

  /** Ordered in every state of the run. */
  ghost predicate OrderedThroughout(c: Cluster, events: seq<Event>)
    requires Started(c)
  {
    Ordered(Current(Run(c, events))) && (events == [] || OrderedThroughout(c, events[..|events| - 1]))
  }

  /** Every failure of the run is written with a generation not older than the result stored at that time. */
  ghost predicate GuardedThroughout(c: Cluster, events: seq<Event>)
    requires Started(c)
  {
    events == [] || (GuardedThroughout(c, events[..|events| - 1])
        && Guarded(Run(c, events[..|events| - 1]), events[|events| - 1]))
  }

  predicate VersionOk(v: Version) {
    && Ordered(v)
    && Observed(v.obj) <= v.obj.generation
    && (StatusOf(v.obj).eval.storePath.Some? <==> v.evalGeneration.Some?)
    && (v.evalGeneration.Some? ==> StatusOf(v.obj).observedGeneration.Some?)
  }

  /** A pass works from a version that was in order, and a cached result is one that its snapshot takes for current. */
  predicate PassOk(p: Pass) {
    p.Active? ==>
      && VersionOk(Version(p.snap, p.from))
      && (CarriesResult(p.at) && !p.at.isNew ==> p.from.Some? && Observed(p.snap) == p.snap.generation)
  }

  predicate LeadersInv(c: Cluster) {
    && Started(c)
    && (forall i :: 0 <= i < |c.history| ==> VersionOk(c.history[i]))
    && (forall i, j :: 0 <= i < j < |c.history| ==> c.history[i].obj.generation <= c.history[j].obj.generation)
    && (forall l :: l in c.passes ==> PassOk(c.passes[l]) && c.passes[l].Active?
                                      && c.passes[l].snap.generation <= Current(c).obj.generation)
  }

  /** The status before and after a write that leaves the record alone. */
  lemma SameRecordOk(a: Workload, b: Workload, e: Option<Stored>)
    requires SameRecord(a, b) && a.generation == b.generation && VersionOk(Version(a, e))
    ensures VersionOk(Version(b, e))
  {
  }

  lemma StartKeepsOrder(w: World)
    requires VersionOk(Version(w.obj, w.stored)) && w.pass.Active? && PassOk(w.pass) && w.pass.at.Begun?
    ensures var r := Start(w, w.pass.snap, w.pass.from);
            && VersionOk(Version(r.obj, r.stored)) && PassOk(r.pass) && r.obj.generation == w.obj.generation
            && (r.pass.Active? ==> r.pass.snap == w.pass.snap)
  {
    hide FromStatus, Foreign, ResolvedCommand;
    CachedStep(StatusOf(w.pass.snap).eval);
    var r := Start(w, w.pass.snap, w.pass.from);
    assert SameRecord(w.obj, r.obj) && r.obj.generation == w.obj.generation && r.stored == w.stored;
    SameRecordOk(w.obj, r.obj, w.stored);
    hide VersionOk;
  }

  lemma ReportKeepsOrder(w: World, env: Answers)
    requires w.pass.Active? && PassOk(w.pass) && w.pass.at.Reporting? && w.pass.snap.generation <= w.obj.generation
    ensures var r := Work(w, env); VersionOk(Version(r.obj, r.stored)) && r.obj.generation == w.obj.generation
  {
    hide ResolvedCommand, Start;
  }

  lemma FailKeepsOrder(w: World, env: Answers)
    requires VersionOk(Version(w.obj, w.stored)) && w.pass.Active? && w.pass.at.Failing?
    requires w.pass.snap.generation <= w.obj.generation
    ensures var r := Work(w, env);
            && (Ordered(Version(r.obj, r.stored)) <==>
                  (w.evalGeneration.Some? ==> w.evalGeneration.value <= w.pass.snap.generation))
            && (Ordered(Version(r.obj, r.stored)) ==> VersionOk(Version(r.obj, r.stored)))
            && r.obj.generation == w.obj.generation
  {
    hide ResolvedCommand, Start;
  }

  lemma BetweenKeepsOrder(w: World, env: Answers)
    requires VersionOk(Version(w.obj, w.stored)) && w.pass.Active? && PassOk(w.pass)
    requires w.pass.at.Calling? || w.pass.at.Entering? || w.pass.at.Applying? || w.pass.at.Counting?
    ensures var r := Work(w, env);
            && VersionOk(Version(r.obj, r.stored)) && PassOk(r.pass) && r.obj.generation == w.obj.generation
            && (r.pass.Active? ==> r.pass.snap == w.pass.snap)
  {
    hide ResolvedCommand, Start, VersionOk;
    var r := Work(w, env);
    assert SameRecord(w.obj, r.obj);
    SameRecordOk(w.obj, r.obj, w.stored);
  }

  /** One step of a pass: in order afterwards exactly when it was guarded. */
  lemma WorkKeepsOrder(w: World, env: Answers)
    requires VersionOk(Version(w.obj, w.stored)) && w.pass.Active? && PassOk(w.pass)
    requires w.pass.snap.generation <= w.obj.generation
    ensures var r := Work(w, env);
            && (Ordered(Version(r.obj, r.stored)) <==>
                  !(w.pass.at.Failing? && w.evalGeneration.Some? && w.pass.snap.generation < w.evalGeneration.value))
            && (Ordered(Version(r.obj, r.stored)) ==> VersionOk(Version(r.obj, r.stored)))
            && PassOk(r.pass) && r.obj.generation == w.obj.generation
            && (r.pass.Active? ==> r.pass.snap == w.pass.snap)
  {
    hide Start, PassOk, Observed, PatchStatus;
    if w.pass.at.Begun? {
      StartKeepsOrder(w);
    } else if w.pass.at.Reporting? {
      ReportKeepsOrder(w, env);
      IdleOk();
    } else if w.pass.at.Failing? {
      FailKeepsOrder(w, env);
      IdleOk();
    } else {
      BetweenKeepsOrder(w, env);
    }
  }

  lemma IdleOk()
    ensures PassOk(Idle)
  {
  }

  lemma RecordKeeps(c: Cluster, v: Version, passes: map<nat, Pass>)
    requires LeadersInv(c) && VersionOk(v) && Current(c).obj.generation <= v.obj.generation
    requires forall l :: l in passes ==>
               PassOk(passes[l]) && passes[l].Active? && passes[l].snap.generation <= v.obj.generation
    ensures LeadersInv(Record(c, v).(passes := passes))
  {
    hide VersionOk, PassOk;
    var r := Record(c, v).(passes := passes);
    assert forall i :: 0 <= i < |c.history| ==> r.history[i] == c.history[i];
    assert forall i :: 0 <= i < |c.history| ==> c.history[i].obj.generation <= Current(c).obj.generation;
  }

  lemma NextKeepsOrder(c: Cluster, event: Event)
    requires LeadersInv(c)
    ensures Guarded(c, event) ==> LeadersInv(Next(c, event))
    ensures Ordered(Current(Next(c, event))) <==> Guarded(c, event)
  {
    hide VersionOk, PassOk, Work, Ordered;
    assert Ordered(Current(c)) by { CurrentOk(c); }
    match event
    case BeginPass(leader, version) =>
      if leader !in c.passes && version < |c.history| {
        BeginKeeps(c, leader, version);
      }
    case Proceed(leader, env) =>
      if leader in c.passes {
        ProceedKeeps(c, leader, env);
      }
    case EndPass(leader) =>
    case EditSpec(replicas) => EditKeeps(c, event);
    case EditFinalizers(fs) => EditKeeps(c, event);
    case Remove => EditKeeps(c, event);
  }

  lemma CurrentOk(c: Cluster)
    requires LeadersInv(c)
    ensures VersionOk(Current(c)) && Ordered(Current(c))
  {
  }

  lemma BeginKeeps(c: Cluster, leader: nat, version: nat)
    requires LeadersInv(c) && leader !in c.passes && version < |c.history|
    ensures LeadersInv(Next(c, BeginPass(leader, version)))
  {
    hide VersionOk;
    var v := c.history[version];
    assert Version(v.obj, v.stored) == v;
    assert v.obj.generation <= Current(c).obj.generation;
  }

  lemma ProceedKeeps(c: Cluster, leader: nat, env: Answers)
    requires LeadersInv(c) && leader in c.passes
    ensures Guarded(c, Proceed(leader, env)) ==> LeadersInv(Next(c, Proceed(leader, env)))
    ensures Ordered(Current(Next(c, Proceed(leader, env)))) <==> Guarded(c, Proceed(leader, env))
  {
    assert Started(c);
    hide VersionOk, PassOk, Work, Ordered, LeadersInv;
    ProceedFacts(c, leader);
    var now := Current(c);
    var w := World(now.obj, c.passes[leader], now.stored, {}, map[], 0);
    assert Version(now.obj, now.stored) == now;
    WorkKeepsOrder(w, env);
    var r := Work(w, env);
    var v := Version(r.obj, r.stored);
    var passes := if r.pass.Idle? then c.passes - {leader} else c.passes[leader := r.pass];
    assert Current(Record(c, v)) == v;
    if Ordered(v) {
      RecordKeeps(c, v, passes);
    }
  }

  lemma ProceedFacts(c: Cluster, leader: nat)
    requires LeadersInv(c) && leader in c.passes
    ensures VersionOk(Current(c)) && PassOk(c.passes[leader]) && c.passes[leader].Active?
    ensures c.passes[leader].snap.generation <= Current(c).obj.generation
    ensures forall l :: l in c.passes ==> PassOk(c.passes[l]) && c.passes[l].Active?
                                          && c.passes[l].snap.generation <= Current(c).obj.generation
  {
  }

  lemma EditKeeps(c: Cluster, event: Event)
    requires LeadersInv(c) && (event.EditSpec? || event.EditFinalizers? || event.Remove?)
    ensures LeadersInv(Next(c, event)) && Ordered(Current(Next(c, event)))
  {
    var now := Current(c);
    var v := match event
      case EditSpec(replicas) => now.(obj := now.obj.(generation := now.obj.generation + 1, replicas := replicas))
      case EditFinalizers(fs) => now.(obj := now.obj.(finalizers := fs))
      case _ => now.(obj := now.obj.(deleting := true));
    assert VersionOk(v) && VersionOk(now);
    assert Ordered(v);
    hide PassOk, VersionOk, Ordered;
    RecordKeeps(c, v, c.passes);
    assert Record(c, v).(passes := c.passes) == Record(c, v);
  }

  lemma InvNewCluster(generation: nat, finalizers: Option<seq<string>>, replicas: Option<int>)
    ensures LeadersInv(NewCluster(generation, finalizers, replicas))
  {
  }

  lemma {:induction false} GuardedKeepsInv(c: Cluster, events: seq<Event>)
    requires LeadersInv(c) && GuardedThroughout(c, events)
    ensures LeadersInv(Run(c, events))
  {
    assert Started(c);
    hide LeadersInv, Next, Guarded;
    if events != [] {
      GuardedKeepsInv(c, events[..|events| - 1]);
      NextKeepsOrder(Run(c, events[..|events| - 1]), events[|events| - 1]);
    }
  }

  lemma {:induction false} OrderHoldsFrom(c: Cluster, events: seq<Event>)
    requires LeadersInv(c)
    ensures OrderedThroughout(c, events) <==> GuardedThroughout(c, events)
  {
    assert Started(c);
    hide LeadersInv, Next, Guarded, Ordered;
    if events == [] {
      CurrentOk(c);
    } else {
      var before := events[..|events| - 1];
      OrderHoldsFrom(c, before);
      if GuardedThroughout(c, before) {
        GuardedKeepsInv(c, before);
        NextKeepsOrder(Run(c, before), events[|events| - 1]);
      }
    }
  }

  /** With any number of leaders and snapshots of any age, the result is no newer than the status in every state of a
      run exactly when no failure of the run is written with a generation older than the result stored at that time.
      */
  lemma OrderHoldsExactly(generation: nat, finalizers: Option<seq<string>>, replicas: Option<int>, events: seq<Event>)
    ensures var c := NewCluster(generation, finalizers, replicas);
            OrderedThroughout(c, events) <==> GuardedThroughout(c, events)
  {
    hide OrderedThroughout, GuardedThroughout;
    InvNewCluster(generation, finalizers, replicas);
    OrderHoldsFrom(NewCluster(generation, finalizers, replicas), events);
  }

  //////////////////////////////////////////////////////////////////////////////
  // One leader with a lagging cache
  //////////////////////////////////////////////////////////////////////////////

  /** A pass begins when no other is under way, with a version at least as new as that of the pass before it. */
  predicate InTurn(c: Cluster, event: Event) { event.BeginPass? ==> c.passes == map[] && event.version >= c.latest }

  ghost predicate InTurnThroughout(c: Cluster, events: seq<Event>)
    requires Started(c)
  {
    events == [] || (InTurnThroughout(c, events[..|events| - 1])
        && InTurn(Run(c, events[..|events| - 1]), events[|events| - 1]))
  }

  /** The pass under way works from the newest version used, and the stored result is no newer than that. */
  ghost predicate OneLeader(c: Cluster) {
    && Started(c)
    && (forall l :: l in c.passes ==>
          c.passes[l].Active? && c.passes[l].snap.generation == c.history[c.latest].obj.generation)
    && (Current(c).evalGeneration.Some? ==> Current(c).evalGeneration.value <= c.history[c.latest].obj.generation)
  }

  lemma OneLeaderIsGuarded(c: Cluster, event: Event)
    requires OneLeader(c)
    ensures Guarded(c, event)
  {
  }

  lemma OneLeaderStep(c: Cluster, event: Event)
    requires LeadersInv(c) && OneLeader(c) && InTurn(c, event)
    ensures OneLeader(Next(c, event))
  {
    hide VersionOk, Work;
    match event
    case BeginPass(leader, version) =>
      if leader !in c.passes && version < |c.history| {
        assert c.history[c.latest].obj.generation <= c.history[version].obj.generation;
      }
    case Proceed(leader, env) =>
      if leader in c.passes {
        var now := Current(c);
        var w := World(now.obj, c.passes[leader], now.stored, {}, map[], 0);
        ProceedFacts(c, leader);
        WorkResult(w, env);
        var v := Version(Work(w, env).obj, Work(w, env).stored);
        assert Record(c, v).history[c.latest] == c.history[c.latest];
      }
    case EndPass(leader) =>
    case EditSpec(replicas) =>
    case EditFinalizers(fs) =>
    case Remove =>
  }

  /** A step stores no result newer than its snapshot, unless it was there already. */
  lemma WorkResult(w: World, env: Answers)
    requires w.pass.Active? && PassOk(w.pass)
    ensures var r := Work(w, env);
            && (r.pass.Active? ==> r.pass.snap == w.pass.snap)
            && (r.evalGeneration.Some? ==>
                  r.evalGeneration == w.evalGeneration || r.evalGeneration.value <= w.pass.snap.generation)
  {
    hide FromStatus, Foreign, ResolvedCommand, PatchStatus;
  }

  lemma {:induction false} OneLeaderRun(c: Cluster, events: seq<Event>)
    requires LeadersInv(c) && OneLeader(c) && InTurnThroughout(c, events)
    ensures GuardedThroughout(c, events) && LeadersInv(Run(c, events)) && OneLeader(Run(c, events))
  {
    assert Started(c);
    hide LeadersInv, OneLeader, Next, Guarded, InTurn;
    if events != [] {
      var before, last := events[..|events| - 1], events[|events| - 1];
      OneLeaderRun(c, before);
      OneLeaderIsGuarded(Run(c, before), last);
      NextKeepsOrder(Run(c, before), last);
      OneLeaderStep(Run(c, before), last);
    }
  }

  /** One leader, whose cache may lag but does not go back, keeps the order in every state of every run. */
  lemma LaggingLeaderKeepsOrder(generation: nat, finalizers: Option<seq<string>>, replicas: Option<int>,
      events: seq<Event>)
    requires InTurnThroughout(NewCluster(generation, finalizers, replicas), events)
    ensures OrderedThroughout(NewCluster(generation, finalizers, replicas), events)
  {
    hide OrderedThroughout, GuardedThroughout, InTurnThroughout;
    InvNewCluster(generation, finalizers, replicas);
    OneLeaderRun(NewCluster(generation, finalizers, replicas), events);
    OrderHoldsExactly(generation, finalizers, replicas, events);
  }

  //////////////////////////////////////////////////////////////////////////////
  // A former leader that fails late
  //////////////////////////////////////////////////////////////////////////////

  lemma RunOneMore(c: Cluster, events: seq<Event>, event: Event)
    requires Started(c)
    ensures Run(c, events + [event]) == Next(Run(c, events), event)
  {
    assert (events + [event])[..|events|] == events;
  }

  lemma RunThree(c: Cluster, e1: Event, e2: Event, e3: Event)
    requires Started(c)
    ensures Run(c, [e1, e2, e3]) == Next(Next(Next(c, e1), e2), e3)
  {
    hide Next;
    assert Run(c, []) == c;
    RunOneMore(c, [], e1);
    RunOneMore(c, [e1], e2);
    RunOneMore(c, [e1, e2], e3);
    assert [] + [e1] == [e1] && [e1] + [e2] == [e1, e2] && [e1, e2] + [e3] == [e1, e2, e3];
  }

  /** One move of a pass that stays under way. */
  lemma Moves(c: Cluster, leader: nat, env: Answers, at: Progress)
    requires Started(c) && leader in c.passes && c.passes[leader].Active?
    requires Proceeded(c, leader, env).pass == Active(c.passes[leader].snap, c.passes[leader].from, at)
    ensures var d := Next(c, Proceed(leader, env));
            && d.passes == c.passes[leader := Active(c.passes[leader].snap, c.passes[leader].from, at)]
            && Current(d) == Version(Proceeded(c, leader, env).obj, Proceeded(c, leader, env).stored)
  {
    hide Work;
  }

  /** An object that a fresh pass evaluates. */
  predicate AwaitsEvaluation(v: Workload) {
    !v.deleting && FINALIZER in Listed(v.finalizers) && Observed(v) < v.generation
  }

  /** A pass begins with the current version and evaluates: four events up to the answer of the evaluator. */
  lemma PassEvaluates(c: Cluster, leader: nat, env: Answers) returns (events: seq<Event>)
    requires Started(c) && leader !in c.passes && AwaitsEvaluation(Current(c).obj)
    ensures var d := Run(c, events);
            && d.passes == c.passes[leader := Active(Current(c).obj, Current(c).stored,
                                                     if env.eval.Ok? then Entering(env.eval.value, true) else Failing)]
            && Current(d) == Version(PatchStatus(Current(c).obj, PhasePatch(Evaluating)), Current(c).stored)
  {
    hide Foreign, FromStatus, ResolvedCommand, PatchStatus, Listed, Run;
    var snap, from := Current(c).obj, Current(c).stored;
    var at := if env.eval.Ok? then Entering(env.eval.value, true) else Failing;
    var e1, e2 := BeginPass(leader, |c.history| - 1), Proceed(leader, env);
    var c1 := Next(c, e1);
    assert Current(c1) == Current(c) && c1.passes == c.passes[leader := Active(snap, from, Begun)];
    assert Proceeded(c1, leader, env).pass == Active(snap, from, Calling);
    Moves(c1, leader, env, Calling);
    var c2 := Next(c1, e2);
    assert Proceeded(c2, leader, env).pass == Active(snap, from, at);
    Moves(c2, leader, env, at);
    assert c.passes[leader := Active(snap, from, Begun)][leader := Active(snap, from, Calling)][leader := Active(snap,
        from, at)]
        == c.passes[leader := Active(snap, from, at)];
    events := [e1, e2, e2];
    RunThree(c, e1, e2, e2);
  }

  /** The rest of a pass whose evaluation succeeded: four more events. */
  lemma PassReports(c: Cluster, leader: nat, r: EvalResult) returns (events: seq<Event>)
    requires Started(c) && leader in c.passes && c.passes[leader].Active? && c.passes[leader].at == Entering(r, true)
    ensures var d := Run(c, events);
            && d.passes == c.passes - {leader} && Current(d).obj.generation == Current(c).obj.generation
            && Current(d).evalGeneration == Some(c.passes[leader].snap.generation)
            && Observed(Current(d).obj) == c.passes[leader].snap.generation
  {
    hide Start, ResolvedCommand, Run;
    var snap, from := c.passes[leader].snap, c.passes[leader].from;
    var env := Ready(r);
    var e := Proceed(leader, env);
    Moves(c, leader, env, Applying(r, true));
    var c1 := Next(c, e);
    Moves(c1, leader, env, Counting(r, true));
    var c2 := Next(c1, e);
    Moves(c2, leader, env, Reporting(r, true, 1));
    var c3 := Next(c2, e);
    assert c3.passes.Keys == c.passes.Keys && forall l :: l in c.passes && l != leader ==> c3.passes[l] == c.passes[l];
    var w := Proceeded(c3, leader, env);
    assert w.pass == Idle && w.evalGeneration == Some(snap.generation) && Observed(w.obj) == snap.generation;
    assert Current(Next(c3, e)) == Version(w.obj, w.stored);
    assert c3.passes - {leader} == c.passes - {leader};
    RunThree(c, e, e, e);
    RunOneMore(c, [e, e, e], e);
    events := [e, e, e] + [e];
  }

  lemma {:induction false} RunAppend(c: Cluster, a: seq<Event>, b: seq<Event>)
    requires Started(c)
    ensures Run(c, a + b) == Run(Run(c, a), b)
    decreases |b|
  {
    hide Next;
    if b == [] {
      assert a + b == a;
    } else {
      RunAppend(c, a, b[..|b| - 1]);
      assert (a + b)[..|a + b| - 1] == a + b[..|b| - 1];
    }
  }

  lemma LateFailure(c: Cluster, leader: nat, env: Answers)
    requires Started(c) && leader in c.passes && c.passes[leader].Active? && c.passes[leader].at.Failing?
    ensures var d := Next(c, Proceed(leader, env));
            && Current(d).evalGeneration == Current(c).evalGeneration
                && Observed(Current(d).obj) == c.passes[leader].snap.generation
            && Current(d).obj.generation == Current(c).obj.generation
  {
  }

  /** The evaluation of one leader fails, and before it writes that down, the spec changes and another leader
      evaluates the new generation: then the late write leaves a status older than the result it holds. */
  lemma FormerLeaderBreaksOrder(generation: nat, r: EvalResult) returns (events: seq<Event>)
    requires generation > 0
    ensures var v := Current(Run(NewCluster(generation, Some([FINALIZER]), None), events));
            && v.evalGeneration == Some(generation + 1) && v.obj.generation == generation + 1
            && Observed(v.obj) == generation && !Ordered(v)
  {
    hide Work, Run, Next;
    var c := NewCluster(generation, Some([FINALIZER]), None);
    var a := PassEvaluates(c, 0, EVAL_FAILS);
    var c1 := Run(c, a);
    var edit := EditSpec(None);
    var c2 := Next(c1, edit);
    EditedAwaits(c, c1);
    var b := PassEvaluates(c2, 1, Ready(r));
    var c3 := Run(c2, b);
    var d := PassReports(c3, 1, r);
    var c4 := Run(c3, d);
    var last := Proceed(0, EVAL_FAILS);
    LateFailure(c4, 0, EVAL_FAILS);
    RunOneMore(c, a, edit);
    RunAppend(c, a + [edit], b);
    RunAppend(c, a + [edit] + b, d);
    RunOneMore(c, a + [edit] + b + d, last);
    events := a + [edit] + b + d + [last];
  }

  lemma EditedAwaits(c: Cluster, c1: Cluster)
    requires Started(c) && Started(c1) && AwaitsEvaluation(Current(c).obj)
    requires Current(c1).obj == PatchStatus(Current(c).obj, PhasePatch(Evaluating))
    ensures var d := Next(c1, EditSpec(None));
            && d.passes == c1.passes && AwaitsEvaluation(Current(d).obj)
            && Current(d).obj.generation == Current(c).obj.generation + 1
  {
    hide Listed;
  }

  //////////////////////////////////////////////////////////////////////////////
  // A guard that a writer can check
  //////////////////////////////////////////////////////////////////////////////

  /** The generation a failure is written with is not below the one that the status claims. */
  predicate NotBackwards(c: Cluster, event: Event)
    requires Started(c)
  {
    event.Proceed? && event.leader in c.passes && c.passes[event.leader].Active?
        && c.passes[event.leader].at.Failing? ==>
      Observed(Current(c).obj) <= c.passes[event.leader].snap.generation
  }

  ghost predicate NotBackwardsThroughout(c: Cluster, events: seq<Event>)
    requires Started(c)
  {
    events == [] ||
    (NotBackwardsThroughout(c, events[..|events| - 1])
        && NotBackwards(Run(c, events[..|events| - 1]), events[|events| - 1]))
  }

  lemma {:induction false} NotBackwardsIsGuarded(c: Cluster, events: seq<Event>)
    requires LeadersInv(c) && NotBackwardsThroughout(c, events)
    ensures GuardedThroughout(c, events)
  {
    assert Started(c);
    hide LeadersInv, Next;
    if events != [] {
      var before := events[..|events| - 1];
      NotBackwardsIsGuarded(c, before);
      GuardedKeepsInv(c, before);
      CurrentOk(Run(c, before));
    }
  }

  /** If `set_failed` were written only over a status that claims no later generation, which a writer can see, any
      number of leaders would keep the order. */
  lemma CheckedWritesKeepOrder(generation: nat, finalizers: Option<seq<string>>, replicas: Option<int>,
      events: seq<Event>)
    requires NotBackwardsThroughout(NewCluster(generation, finalizers, replicas), events)
    ensures OrderedThroughout(NewCluster(generation, finalizers, replicas), events)
  {
    hide OrderedThroughout, GuardedThroughout, NotBackwardsThroughout;
    InvNewCluster(generation, finalizers, replicas);
    NotBackwardsIsGuarded(NewCluster(generation, finalizers, replicas), events);
    OrderHoldsExactly(generation, finalizers, replicas, events);
  }

  //////////////////////////////////////////////////////////////////////////////
  // Running, whoever wrote it
  //////////////////////////////////////////////////////////////////////////////

  /** Phase Running comes with its three conditions at the observed generation, and with at least the replicas that some
      version of that generation asked for. */
  ghost predicate RunningBacked(history: seq<Version>, obj: Workload) {
    IsRunning(obj) ==>
      var s := obj.status.value;
      && s.observedGeneration.Some? && s.readyReplicas.Some?
      && s.conditions == Some([
           Condition(Evaluated, true, s.observedGeneration.value),
           Condition(Progressing, false, s.observedGeneration.value),
           Condition(Available, true, s.observedGeneration.value)])
      && exists k :: AsksFor(history, k, s.observedGeneration.value, s.readyReplicas.value)
  }

  predicate AsksFor(history: seq<Version>, k: int, generation: nat, ready: int) {
    0 <= k < |history| && history[k].obj.generation == generation && ready >= Desired(history[k].obj.replicas)
  }

  ghost predicate InHistory(history: seq<Version>, obj: Workload) {
    exists k :: 0 <= k < |history| && history[k].obj == obj
  }

  /** A generation asks for one number of replicas, passes work from versions, and every version that runs is backed. */
  ghost predicate RunsBacked(c: Cluster) {
    && Started(c)
    && (forall i :: 0 <= i < |c.history| ==> c.history[i].obj.generation <= Current(c).obj.generation)
    && (forall i, j :: 0 <= i < |c.history| && 0 <= j < |c.history| ==>
          c.history[i].obj.generation == c.history[j].obj.generation ==>
          c.history[i].obj.replicas == c.history[j].obj.replicas)
    && (forall l :: l in c.passes ==> c.passes[l].Active? && InHistory(c.history, c.passes[l].snap))
    && (forall i :: 0 <= i < |c.history| ==> RunningBacked(c.history, c.history[i].obj))
  }

  /** A step leaves the spec alone; a status that runs afterwards was there before or reports the snapshot's replicas.
      */
  lemma WorkRuns(w: World, env: Answers)
    requires w.pass.Active?
    ensures var r := Work(w, env);
            && r.obj.generation == w.obj.generation && r.obj.replicas == w.obj.replicas
            && (r.pass.Active? ==> r.pass.snap == w.pass.snap)
            && (IsRunning(r.obj) ==>
                  || r.obj.status == w.obj.status
                  || forall history :: InHistory(history, w.pass.snap) ==> RunningBacked(history, r.obj))
  {
    hide FromStatus, Foreign, ResolvedCommand;
    if w.pass.at.Reporting? {
      var r, g := Work(w, env), w.pass.snap.generation;
      if IsRunning(r.obj) {
        assert [Condition(Evaluated, true, g), Condition(Progressing, false, g)] + [Condition(Available, true, g)]
            == [Condition(Evaluated, true, g), Condition(Progressing, false, g), Condition(Available, true, g)];
        var s := r.obj.status.value;
        assert s.observedGeneration == Some(g) && s.readyReplicas.Some?
               && s.readyReplicas.value >= Desired(w.pass.snap.replicas);
        forall history: seq<Version> | InHistory(history, w.pass.snap)
          ensures RunningBacked(history, r.obj)
        {
          var k :| 0 <= k < |history| && history[k].obj == w.pass.snap;
          assert AsksFor(history, k, g, s.readyReplicas.value);
        }
      }
    }
  }

  lemma BackedGrows(history: seq<Version>, v: Version, obj: Workload)
    ensures RunningBacked(history, obj) ==> RunningBacked(history + [v], obj)
    ensures InHistory(history, obj) ==> InHistory(history + [v], obj)
  {
    var longer := history + [v];
    if RunningBacked(history, obj) && IsRunning(obj) {
      var s := obj.status.value;
      var k :| AsksFor(history, k, s.observedGeneration.value, s.readyReplicas.value);
      assert longer[k] == history[k] && AsksFor(longer, k, s.observedGeneration.value, s.readyReplicas.value);
    }
    if InHistory(history, obj) {
      var k :| 0 <= k < |history| && history[k].obj == obj;
      assert longer[k] == history[k];
    }
  }

  /** One more version: of the same spec, or of a new generation. */
  lemma RecordBacked(c: Cluster, v: Version, passes: map<nat, Pass>)
    requires RunsBacked(c) && RunningBacked(c.history, v.obj)
    requires || (v.obj.generation == Current(c).obj.generation && v.obj.replicas == Current(c).obj.replicas)
             || v.obj.generation > Current(c).obj.generation
    requires forall l :: l in passes ==> passes[l].Active? && InHistory(c.history, passes[l].snap)
    ensures RunsBacked(Record(c, v).(passes := passes))
  {
    hide RunningBacked, InHistory;
    var r := Record(c, v).(passes := passes);
    assert forall i :: 0 <= i < |c.history| ==> r.history[i] == c.history[i];
    forall i | 0 <= i < |r.history|
      ensures RunningBacked(r.history, r.history[i].obj)
    {
      BackedGrows(c.history, v, r.history[i].obj);
    }
    forall l | l in passes
      ensures InHistory(r.history, passes[l].snap)
    {
      BackedGrows(c.history, v, passes[l].snap);
    }
  }

  lemma ProceedBacked(c: Cluster, leader: nat, env: Answers)
    requires RunsBacked(c) && leader in c.passes
    ensures RunsBacked(Next(c, Proceed(leader, env)))
  {
    hide Work, RunningBacked, InHistory;
    var w := World(Current(c).obj, c.passes[leader], Current(c).stored, {}, map[], 0);
    WorkRuns(w, env);
    var r := Work(w, env);
    assert RunningBacked(c.history, Current(c).obj) && InHistory(c.history, c.passes[leader].snap);
    assert RunningBacked(c.history, r.obj) by { SameStatusBacked(c.history, Current(c).obj, r.obj); }
    var passes := if r.pass.Idle? then c.passes - {leader} else c.passes[leader := r.pass];
    RecordBacked(c, Version(r.obj, r.stored), passes);
  }

  lemma SameStatusBacked(history: seq<Version>, a: Workload, b: Workload)
    ensures a.status == b.status && RunningBacked(history, a) ==> RunningBacked(history, b)
    ensures !IsRunning(b) ==> RunningBacked(history, b)
  {
  }

  lemma NextBacked(c: Cluster, event: Event)
    requires RunsBacked(c)
    ensures RunsBacked(Next(c, event))
  {
    hide RunningBacked, InHistory, Work;
    var now := Current(c);
    match event
    case BeginPass(leader, version) =>
      if leader !in c.passes && version < |c.history| {
        assert InHistory(c.history, c.history[version].obj) by { VersionInHistory(c.history, version); }
      }
    case Proceed(leader, env) =>
      if leader in c.passes {
        ProceedBacked(c, leader, env);
      }
    case EndPass(leader) =>
    case EditSpec(replicas) =>
      var v := now.(obj := now.obj.(generation := now.obj.generation + 1, replicas := replicas));
      SameStatusBacked(c.history, now.obj, v.obj);
      RecordBacked(c, v, c.passes);
      assert Record(c, v).(passes := c.passes) == Record(c, v);
    case EditFinalizers(fs) =>
      var v := now.(obj := now.obj.(finalizers := fs));
      SameStatusBacked(c.history, now.obj, v.obj);
      RecordBacked(c, v, c.passes);
      assert Record(c, v).(passes := c.passes) == Record(c, v);
    case Remove =>
      var v := now.(obj := now.obj.(deleting := true));
      SameStatusBacked(c.history, now.obj, v.obj);
      RecordBacked(c, v, c.passes);
      assert Record(c, v).(passes := c.passes) == Record(c, v);
  }

  lemma VersionInHistory(history: seq<Version>, k: nat)
    requires k < |history|
    ensures InHistory(history, history[k].obj)
  {
  }

  lemma {:induction false} RunBacked(c: Cluster, events: seq<Event>)
    requires RunsBacked(c)
    ensures RunsBacked(Run(c, events))
  {
    assert Started(c);
    hide RunsBacked, Next;
    if events != [] {
      RunBacked(c, events[..|events| - 1]);
      NextBacked(Run(c, events[..|events| - 1]), events[|events| - 1]);
    }
  }

  /** Whatever leaders there are and however old their copies, in every state of every run: phase Running comes with
      its three conditions at the observed generation and at least the replicas that generation asked for. */
  lemma RunningOverAllRuns(generation: nat, finalizers: Option<seq<string>>, replicas: Option<int>, events: seq<Event>)
    ensures var c := Run(NewCluster(generation, finalizers, replicas), events);
            && RunningBacked(c.history, Current(c).obj)
            && (IsRunning(Current(c).obj) ==>
                  var s := Current(c).obj.status.value;
                  forall k :: 0 <= k < |c.history| && s.observedGeneration == Some(c.history[k].obj.generation) ==>
                    s.readyReplicas.Some? && s.readyReplicas.value >= Desired(c.history[k].obj.replicas))
  {
    hide Run;
    var c0 := NewCluster(generation, finalizers, replicas);
    assert RunsBacked(c0);
    RunBacked(c0, events);
  }
}
