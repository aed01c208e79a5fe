/**
 What the status holds when several operators work at once (`reconciler.rs`):
 still what the evaluator answered, whoever asked and however old the copies.
 */
module LeaderResults {
  import opened Outcomes
  import opened EvalResults
  import opened Reconciler
  import opened StoredResults
  import opened Leaders

  /** At event `i` of the run the evaluator, called by some leader for generation `g`, answered `r`. */
  ghost predicate RepliedAt(c0: Cluster, events: seq<Event>, i: nat, g: nat, r: EvalResult)
    requires Started(c0)
  {
    && i < |events| && events[i].Proceed? && events[i].env.eval == Ok(r)
    && var passes := Run(c0, events[..i]).passes;
       && events[i].leader in passes
       && var pass := passes[events[i].leader];
          pass.Active? && pass.at.Calling? && pass.snap.generation == g
  }

  ghost predicate Replied(c0: Cluster, events: seq<Event>, g: nat, r: EvalResult)
    requires Started(c0)
  {
    exists i: nat :: RepliedAt(c0, events, i, g, r)
  }

  lemma RepliedMore(c0: Cluster, events: seq<Event>, g: nat, r: EvalResult)
    requires Started(c0) && events != [] && Replied(c0, events[..|events| - 1], g, r)
    ensures Replied(c0, events, g, r)
  {
    hide Run;
    var before := events[..|events| - 1];
    var i: nat :| RepliedAt(c0, before, i, g, r);
    assert before[..i] == events[..i];
    assert RepliedAt(c0, events, i, g, r);
  }

  lemma RepliedNow(c0: Cluster, events: seq<Event>, g: nat, r: EvalResult)
    requires Started(c0) && events != [] && RepliedAt(c0, events, |events| - 1, g, r)
    ensures Replied(c0, events, g, r)
  {
  }

  ghost predicate FromReplies(c0: Cluster, events: seq<Event>, s: Option<Stored>)
    requires Started(c0)
  {
    s.Some? ==> Replied(c0, events, s.value.generation, s.value.answer)
  }

  /** A version holds what was answered; so does the copy that a pass works from, and what the pass has in hand. */
  ghost predicate VersionHolds(c0: Cluster, events: seq<Event>, v: Version)
    requires Started(c0)
  {
    && MatchesIfAny(StatusOf(v.obj).eval, v.stored) && FromReplies(c0, events, v.stored)
    && (StatusOf(v.obj).eval.storePath.Some? <==> v.stored.Some?)
  }

  ghost predicate PassFaithful(c0: Cluster, events: seq<Event>, p: Pass)
    requires Started(c0)
  {
    && p.Active? && VersionHolds(c0, events, Version(p.snap, p.from)) && PassHolds(p)
    && (CarriesResult(p.at) && p.at.isNew ==> Replied(c0, events, p.snap.generation, p.at.result))
  }

  ghost predicate ClusterFaithful(c0: Cluster, events: seq<Event>, c: Cluster)
    requires Started(c0)
  {
    && Started(c)
    && (forall i :: 0 <= i < |c.history| ==> VersionHolds(c0, events, c.history[i]))
    && (forall l :: l in c.passes ==> PassFaithful(c0, events, c.passes[l]))
  }

  lemma FromRepliesMore(c0: Cluster, events: seq<Event>, s: Option<Stored>)
    requires Started(c0) && events != [] && FromReplies(c0, events[..|events| - 1], s)
    ensures FromReplies(c0, events, s)
  {
    hide Replied;
    if s.Some? {
      RepliedMore(c0, events, s.value.generation, s.value.answer);
    }
  }

  lemma VersionMore(c0: Cluster, events: seq<Event>, v: Version)
    requires Started(c0) && events != [] && VersionHolds(c0, events[..|events| - 1], v)
    ensures VersionHolds(c0, events, v)
  {
    hide MatchesIfAny, FromReplies;
    FromRepliesMore(c0, events, v.stored);
  }

  lemma PassMore(c0: Cluster, events: seq<Event>, p: Pass)
    requires Started(c0) && events != [] && PassFaithful(c0, events[..|events| - 1], p)
    ensures PassFaithful(c0, events, p)
  {
    hide VersionHolds, Replied, PassHolds;
    VersionMore(c0, events, Version(p.snap, p.from));
    if CarriesResult(p.at) && p.at.isNew {
      RepliedMore(c0, events, p.snap.generation, p.at.result);
    }
  }

  lemma ClusterMore(c0: Cluster, events: seq<Event>, c: Cluster)
    requires Started(c0) && events != [] && ClusterFaithful(c0, events[..|events| - 1], c)
    ensures ClusterFaithful(c0, events, c)
  {
    hide VersionHolds, PassFaithful;
    forall i | 0 <= i < |c.history|
      ensures VersionHolds(c0, events, c.history[i])
    {
      VersionMore(c0, events, c.history[i]);
    }
    forall l | l in c.passes
      ensures PassFaithful(c0, events, c.passes[l])
    {
      PassMore(c0, events, c.passes[l]);
    }
  }

  lemma StartLeavesEval(w: World, snap: Workload, from: Option<Stored>)
    ensures var r := Start(w, snap, from); StatusOf(r.obj).eval == StatusOf(w.obj).eval && r.stored == w.stored
  {
    hide FromStatus, Foreign, NeedsEval, Observed;
  }

  /** A step stores a result exactly when it stores its origin. */
  lemma StoredTogether(w: World, env: Answers)
    requires Faithful(w) && (StatusOf(w.obj).eval.storePath.Some? <==> w.stored.Some?)
    ensures var r := Work(w, env); StatusOf(r.obj).eval.storePath.Some? <==> r.stored.Some?
  {
    hide ResolvedCommand, Matches, Carries, Start;
    if w.pass.Active? && w.pass.at.Begun? {
      StartLeavesEval(w, w.pass.snap, w.pass.from);
    }
  }

  /** One step of a pass by one of the leaders. */
  lemma ProceedHolds(c0: Cluster, events: seq<Event>, c: Cluster, leader: nat, env: Answers)
    requires Started(c0) && ClusterFaithful(c0, events, c) && leader in c.passes
    requires c.passes[leader].at.Calling? && env.eval.Ok? ==>
               Replied(c0, events, c.passes[leader].snap.generation, env.eval.value)
    ensures var w := Proceeded(c, leader, env);
            && VersionHolds(c0, events, Version(w.obj, w.stored))
            && (w.pass.Active? ==> PassFaithful(c0, events, w.pass))
  {
    hide Work, Replied, Matches, Carries;
    var now := Current(c);
    var w := World(now.obj, c.passes[leader], now.stored, {}, map[], 0);
    assert VersionHolds(c0, events, now) && PassFaithful(c0, events, w.pass);
    assert Faithful(w);
    FaithfulWork(w, env);
    WorkOrigin(w, env);
    StoredTogether(w, env);
  }

  lemma NextFaithful(c0: Cluster, events: seq<Event>, c: Cluster, event: Event)
    requires Started(c0) && ClusterFaithful(c0, events, c)
    requires event.Proceed? && event.leader in c.passes && c.passes[event.leader].at.Calling? && event.env.eval.Ok? ==>
               Replied(c0, events, c.passes[event.leader].snap.generation, event.env.eval.value)
    ensures ClusterFaithful(c0, events, Next(c, event))
  {
    hide Work, Replied, MatchesIfAny, FromReplies, PassHolds, CarriesResult;
    var now := Current(c);
    assert VersionHolds(c0, events, now);
    match event
    case BeginPass(leader, version) =>
      if version < |c.history| {
        FreshPass(c.history[version]);
      }
    case Proceed(leader, env) =>
      if leader in c.passes {
        hide VersionHolds, PassFaithful;
        ProceedHolds(c0, events, c, leader, env);
      }
    case EndPass(leader) =>
    case EditSpec(replicas) =>
    case EditFinalizers(fs) =>
    case Remove =>
  }

  lemma FreshPass(v: Version)
    requires MatchesIfAny(StatusOf(v.obj).eval, v.stored)
    ensures PassHolds(Active(v.obj, v.stored, Begun)) && !CarriesResult(Begun)
  {
  }

  lemma {:induction false} RunFaithfully(c0: Cluster, events: seq<Event>)
    requires Started(c0) && ClusterFaithful(c0, [], c0)
    ensures ClusterFaithful(c0, events, Run(c0, events))
  {
    hide ClusterFaithful, Next, Replied;
    if events != [] {
      var before, event := events[..|events| - 1], events[|events| - 1];
      var c := Run(c0, before);
      RunFaithfully(c0, before);
      ClusterMore(c0, events, c);
      PassesAreActive(c0, events, c);
      if event.Proceed? && event.leader in c.passes && c.passes[event.leader].at.Calling? && event.env.eval.Ok? {
        RepliedNow(c0, events, c.passes[event.leader].snap.generation, event.env.eval.value);
      }
      NextFaithful(c0, events, c, event);
    }
  }

  lemma PassesAreActive(c0: Cluster, events: seq<Event>, c: Cluster)
    requires Started(c0) && ClusterFaithful(c0, events, c)
    ensures Started(c) && forall l :: l in c.passes ==> c.passes[l].Active?
  {
  }

  /** With any leaders and copies of any age, in every state of every run with a result: some leader asked the
      evaluator for that generation and got that answer; path and closure are those of the answer, and so is the
      command exactly when the result was not rebuilt or the program has no slash. */
  lemma StoredIsRepliedToSomeone(generation: nat, finalizers: Option<seq<string>>, replicas: Option<int>,
      events: seq<Event>)
    ensures var c0 := NewCluster(generation, finalizers, replicas);
            var v := Current(Run(c0, events));
            var eval := StatusOf(v.obj).eval;
            eval.storePath.Some? ==>
              && v.stored.Some?
              && var s := v.stored.value;
                 && v.evalGeneration == Some(s.generation) && Replied(c0, events, s.generation, s.answer)
                 && eval.storePath == Some(s.answer.storePath) && eval.closurePaths == Some(s.answer.closurePaths)
                 && (eval.resolvedCommand == Some(s.answer.storePath + "/bin/" + Program(s.answer)) <==>
                       !s.rebuilt || '/' !in Program(s.answer))
  {
    hide Run, Replied, Program;
    var c0 := NewCluster(generation, finalizers, replicas);
    assert ClusterFaithful(c0, [], c0);
    RunFaithfully(c0, events);
    var v := Current(Run(c0, events));
    if v.stored.Some? {
      CommandKeptExactly(StatusOf(v.obj).eval, v.stored.value);
    }
  }
}
