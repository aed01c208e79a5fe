/**
 Runs of a node: any number of publish and unpublish calls (`node.rs`) on top of
 the concurrent cache (`cache.rs`), with whatever the kernel and the disk answer,
 callers that hang up, and crashes of the service, which leave mounts in place.
 Calls for one target are serialised, as the Container Storage Interface asks.
 */
module NodeRuns {
  import opened Outcomes
  import opened Fetching
  import opened CacheProtocol
  import opened CacheCalls
  import opened NodeService

  /** A publish call that is waiting for its closure. */
  datatype Call = Call(target: string, storePath: string, closure: seq<string>)

  /** The key of a call is that of the task which fetches its closure. */
  datatype Node = Node(cache: State, table: Table, calls: map<nat, Call>)

  datatype Event =
    | PublishCall(id: nat, req: Request)
    | CacheWork(id: nat, luck: Luck)
    | PublishReturn(id: nat, kernel: Kernel)
    | HangUp(id: nat)
    | UnpublishCall(req: Request, kernel: Kernel)
    | ServiceCrash(pid: nat)
    | StartupSweep(name: string, luck: Luck)
    | StartServing
    | ElsewhereChanges(elsewhere: set<string>)

  function Names(closure: seq<string>): seq<string> {
    seq(|closure|, i requires 0 <= i < |closure| => StripStore(closure[i]))
  }

  predicate Busy(n: Node, target: string) { exists id :: id in n.calls && n.calls[id].target == target }

  /** The cache moves on; a call ends with its task. */
  function CacheStep(remote: Remote, n: Node, step: Step): Node {
    var cache := Do(remote, n.cache, step);
    n.(cache := cache, calls := map id | id in n.calls && id in cache.tasks :: n.calls[id])
  }

  /** One event; one that is not possible leaves the node as it is. */
  function Next(remote: Remote, n: Node, event: Event): Node {
    match event
    case PublishCall(id, req) =>
      var admission := Admit(n.table, req);
      if !n.cache.serving || id in n.cache.tasks || Busy(n, req.targetPath) || !admission.Fetch? then n
      else
        var cache := Do(remote, n.cache, Spawn(id, Names(admission.closure)));
        n.(cache := cache, calls := n.calls[id := Call(req.targetPath, admission.storePath, admission.closure)])
    case CacheWork(id, luck) => CacheStep(remote, n, Run(id, luck))
    case PublishReturn(id, kernel) =>
      if id !in n.calls || id !in n.cache.tasks then n
      else if n.cache.tasks[id].at.Failed? then CacheStep(remote, n, Cancel(id))
      else if n.cache.tasks[id].at.Finished? then
        var Call(target, storePath, closure) := n.calls[id];
        var source := StripStore(storePath);
        var ended := CacheStep(remote, n, Cancel(id));
        ended.(table := Attach(n.table, Present(n.cache, source), target, source, closure, kernel).0)
      else n
    case HangUp(id) => CacheStep(remote, n, Cancel(id))
    case UnpublishCall(req, kernel) =>
      if !n.cache.serving || Busy(n, req.targetPath) then n else n.(table := Unpublish(n.table, req, kernel).0)
    case ServiceCrash(pid) => CacheStep(remote, n, Crash(pid))
    case StartupSweep(name, luck) => CacheStep(remote, n, Sweep(name, luck))
    case StartServing => CacheStep(remote, n, Serve)
    case ElsewhereChanges(elsewhere) => CacheStep(remote, n, Change(elsewhere))
  }

  /** No volume asks for a store path with a slash in its name. */
  predicate SoundEvent(event: Event) {
    event.PublishCall? && "closurePaths" in event.req.context ==>
      var names := Names(ClosureList(event.req.context["closurePaths"]));
      forall i :: 0 <= i < |names| ==> Addressable(names[i])
  }

  predicate SoundEvents(events: seq<Event>) { forall i :: 0 <= i < |events| ==> SoundEvent(events[i]) }

  function Reach(remote: Remote, n: Node, events: seq<Event>): Node {
    if events == [] then n else Next(remote, Reach(remote, n, events[..|events| - 1]), events[|events| - 1])
  }

  function NewNode(pid: nat): Node { Node(Boot(pid), Table(map[], {}), map[]) }

  //////////////////////////////////////////////////////////////////////////////
  // Invariant
  //////////////////////////////////////////////////////////////////////////////

  /** All that a volume needs is in the cache; a temporary name, if it asked for one, may have gone again. */
  predicate Backed(entries: Entries, mount: Mount) {
    && mount.closure != []
    && (forall name :: name in Names(mount.closure) && Final(name) ==> name in entries)
    && (Final(mount.source) ==> mount.source in entries)
  }

  predicate TableOk(entries: Entries, table: Table) {
    forall target :: target in table.mounts ==> target in table.dirs && Backed(entries, table.mounts[target])
  }

  predicate CallOk(n: Node, id: nat)
    requires id in n.calls
  {
    && id in n.cache.tasks && n.cache.tasks[id].asked == Names(n.calls[id].closure)
    && n.calls[id].closure != [] && n.calls[id].target !in n.table.mounts
  }

  predicate CallsOk(n: Node) {
    && (forall id :: id in n.calls ==> CallOk(n, id))
    && (forall i, j :: i in n.calls && j in n.calls && n.calls[i].target == n.calls[j].target ==> i == j)
  }

  ghost predicate NodeInv(remote: Remote, n: Node) {
    Inv(remote, n.cache) && TableOk(n.cache.entries, n.table) && CallsOk(n)
  }

  //////////////////////////////////////////////////////////////////////////////
  // Every event keeps the invariant
  //////////////////////////////////////////////////////////////////////////////

  lemma StepKeepsAsked(remote: Remote, s: State, step: Step)
    requires !step.Spawn?
    ensures SameAsked(s.tasks, Do(remote, s, step).tasks)
  {
    hide RunTask, Remove;
    match step
    case Run(t, luck) =>
      if t in s.tasks {
        RunKeepsAsked(remote, s, t, luck);
      }
    case _ =>
  }

  lemma StepKeepsTable(remote: Remote, s: State, step: Step, table: Table)
    requires Inv(remote, s) && TableOk(s.entries, table)
    ensures TableOk(Do(remote, s, step).entries, table)
  {
    hide Inv, Do, Local, IsTmp, Names;
    var after := Do(remote, s, step).entries;
    forall name | name in s.entries && Final(name)
      ensures name in after
    {
      EntrySurvivesStep(remote, s, step, name);
    }
  }

  lemma InvCacheStep(remote: Remote, n: Node, step: Step)
    requires NodeInv(remote, n) && !step.Spawn?
    ensures NodeInv(remote, CacheStep(remote, n, step))
  {
    hide Inv, TableOk, Do, Names;
    InvDo(remote, n.cache, step);
    StepKeepsTable(remote, n.cache, step, n.table);
    StepKeepsAsked(remote, n.cache, step);
  }

  lemma SpawnAsks(remote: Remote, s: State, id: nat, names: seq<string>)
    requires id !in s.tasks && s.serving
    ensures var after := Do(remote, s, Spawn(id, names));
            after.entries == s.entries && after.tasks == s.tasks[id := Task(names, names, Checking)]
  {
  }

  lemma InvPublishCall(remote: Remote, n: Node, id: nat, req: Request)
    requires NodeInv(remote, n) && SoundEvent(PublishCall(id, req))
    ensures NodeInv(remote, Next(remote, n, PublishCall(id, req)))
  {
    hide Inv, TableOk, Do, Names, ClosureList;
    var admission := Admit(n.table, req);
    if n.cache.serving && id !in n.cache.tasks && !Busy(n, req.targetPath) && admission.Fetch? {
      var step := Spawn(id, Names(admission.closure));
      InvDo(remote, n.cache, step);
      SpawnAsks(remote, n.cache, id, Names(admission.closure));
    }
  }

  /** What a successful fetch has left in the cache backs the mount that follows. */
  lemma AttachKeepsTable(remote: Remote, n: Node, id: nat, kernel: Kernel)
    requires NodeInv(remote, n) && id in n.calls && id in n.cache.tasks && n.cache.tasks[id].at.Finished?
    ensures var call := n.calls[id];
            var source := StripStore(call.storePath);
            TableOk(n.cache.entries,
                Attach(n.table, Present(n.cache, source), call.target, source, call.closure, kernel).0)
  {
    hide Inv, Names, IsTmp, Local, StripStore;
    var call := n.calls[id];
    assert CallOk(n, id);
    forall name | name in Names(call.closure) && Final(name)
      ensures name in n.cache.entries
    {
      FinishedFacts(remote, n.cache, id, name);
    }
  }

  lemma AttachTouches(table: Table, present: bool, target: string, source: string, closure: seq<string>, kernel: Kernel)
    ensures var after := Attach(table, present, target, source, closure, kernel).0;
            forall other :: other != target ==>
              (other in after.mounts <==> other in table.mounts)
              && (other in table.mounts ==> after.mounts[other] == table.mounts[other])
  {
  }

  lemma InvPublishReturn(remote: Remote, n: Node, id: nat, kernel: Kernel)
    requires NodeInv(remote, n)
    ensures NodeInv(remote, Next(remote, n, PublishReturn(id, kernel)))
  {
    hide Inv, TableOk, Attach, Do, Names;
    if id in n.calls && id in n.cache.tasks {
      InvCacheStep(remote, n, Cancel(id));
      if n.cache.tasks[id].at.Finished? {
        var call := n.calls[id];
        AttachKeepsTable(remote, n, id, kernel);
        var source := StripStore(call.storePath);
        AttachTouches(n.table, Present(n.cache, source), call.target, source, call.closure, kernel);
        CancelEnds(remote, n.cache, id);
      }
    }
  }

  lemma CancelEnds(remote: Remote, s: State, id: nat)
    requires id in s.tasks
    ensures id !in Do(remote, s, Cancel(id)).tasks && Do(remote, s, Cancel(id)).entries == s.entries
  {
  }

  lemma InvUnpublishCall(remote: Remote, n: Node, req: Request, kernel: Kernel)
    requires NodeInv(remote, n)
    ensures NodeInv(remote, Next(remote, n, UnpublishCall(req, kernel)))
  {
    hide Inv, Backed, Names;
  }

  lemma InvNext(remote: Remote, n: Node, event: Event)
    requires NodeInv(remote, n) && SoundEvent(event)
    ensures NodeInv(remote, Next(remote, n, event))
  {
    hide NodeInv, CacheStep;
    match event
    case PublishCall(id, req) => InvPublishCall(remote, n, id, req);
    case CacheWork(id, luck) => InvCacheStep(remote, n, Run(id, luck));
    case PublishReturn(id, kernel) => InvPublishReturn(remote, n, id, kernel);
    case HangUp(id) => InvCacheStep(remote, n, Cancel(id));
    case UnpublishCall(req, kernel) => InvUnpublishCall(remote, n, req, kernel);
    case ServiceCrash(pid) => InvCacheStep(remote, n, Crash(pid));
    case StartupSweep(name, luck) => InvCacheStep(remote, n, Sweep(name, luck));
    case StartServing => InvCacheStep(remote, n, Serve);
    case ElsewhereChanges(elsewhere) => InvCacheStep(remote, n, Change(elsewhere));
  }

  lemma {:induction false} InvReach(remote: Remote, n: Node, events: seq<Event>)
    requires NodeInv(remote, n) && SoundEvents(events)
    ensures NodeInv(remote, Reach(remote, n, events))
  {
    hide NodeInv, Next;
    if events != [] {
      InvReach(remote, n, events[..|events| - 1]);
      InvNext(remote, Reach(remote, n, events[..|events| - 1]), events[|events| - 1]);
    }
  }

  lemma InvNewNode(remote: Remote, pid: nat)
    ensures NodeInv(remote, NewNode(pid))
  {
    hide Inv;
    InvBoot(remote, pid);
  }

  //////////////////////////////////////////////////////////////////////////////
  // Whole runs
  //////////////////////////////////////////////////////////////////////////////

  /** Whatever happens, each mounted volume has its whole closure in the cache, every path of it the complete verified
      tree, and so has the mounted path itself. */
  lemma MountedVolumesAreComplete(remote: Remote, pid: nat, events: seq<Event>, target: string)
    requires SoundEvents(events) && target in Reach(remote, NewNode(pid), events).table.mounts
    ensures var n := Reach(remote, NewNode(pid), events);
            var mount := n.table.mounts[target];
            && target in n.table.dirs && mount.closure != []
            && (forall i :: 0 <= i < |mount.closure| && Final(StripStore(mount.closure[i])) ==>
                  && StripStore(mount.closure[i]) in n.cache.entries
                  && Published(remote, StripStore(mount.closure[i]), n.cache.entries[StripStore(mount.closure[i])]))
            && (Final(mount.source) ==>
                  mount.source in n.cache.entries && Published(remote, mount.source, n.cache.entries[mount.source]))
  {
    hide Reach, Inv, IsTmp, Local, Published, StripStore, CallsOk, SoundEvents;
    InvNewNode(remote, pid);
    InvReach(remote, NewNode(pid), events);
    var n := Reach(remote, NewNode(pid), events);
    var mount := n.table.mounts[target];
    forall i | 0 <= i < |mount.closure| && Final(StripStore(mount.closure[i]))
      ensures StripStore(mount.closure[i]) in n.cache.entries
    {
      assert Names(mount.closure)[i] == StripStore(mount.closure[i]);
    }
    InvDisk(remote, n.cache);
  }

  /** Only the return of its own publish call mounts a target, and only an unpublish call for it takes the mount away:
      not other calls, not hanging up, not a crash, not the sweep at startup. */
  lemma MountsChangeOnlyByTheirCalls(remote: Remote, n: Node, event: Event, target: string)
    requires NodeInv(remote, n)
    ensures var after := Next(remote, n, event);
            && (target in n.table.mounts ==>
                  || (target in after.table.mounts && after.table.mounts[target] == n.table.mounts[target])
                  || (event.UnpublishCall? && event.req.targetPath == target && target !in after.table.mounts))
            && (target !in n.table.mounts && target in after.table.mounts ==>
                  && event.PublishReturn? && event.id in n.calls && n.calls[event.id].target == target
                  && after.table.mounts[target]
                  == Mount(StripStore(n.calls[event.id].storePath), event.kernel.remount, n.calls[event.id].closure))
  {
    hide Inv, Do, TableOk, Names, ClosureList, StripStore, Present;
    if event.PublishReturn? && event.id in n.calls && event.id in n.cache.tasks {
      assert CallOk(n, event.id);
    }
  }

  //////////////////////////////////////////////////////////////////////////////
  // When a volume gets mounted
  //////////////////////////////////////////////////////////////////////////////

  /** A call that has its closure mounts the target exactly when the source is there, the directory exists or can be
      made, and the kernel obeys; the one other way in which a mount appears is a bind that can be neither made
      read-only nor undone. Then the call is over. */
  lemma ReturnMountsExactly(remote: Remote, n: Node, id: nat, kernel: Kernel)
    requires NodeInv(remote, n) && id in n.calls && id in n.cache.tasks && n.cache.tasks[id].at.Finished?
    ensures var call, after := n.calls[id], Next(remote, n, PublishReturn(id, kernel));
            var source, target := StripStore(call.storePath), call.target;
            var bound := Present(n.cache, source) && (target in n.table.dirs || kernel.mkdir) && kernel.bind;
            && id !in after.calls
            && (target in after.table.mounts <==> bound && (kernel.remount || !kernel.detach))
            && (target in after.table.mounts ==>
                  after.table.mounts[target] == Mount(source, kernel.remount, call.closure))
  {
    hide Inv, TableOk, Names, StripStore, Present, Do;
    assert CallOk(n, id);
    CancelEnds(remote, n.cache, id);
  }

  /** A caller that hangs up ends its call and frees what it held, and leaves disk and mounts alone. */
  lemma HangUpEndsTheCall(remote: Remote, n: Node, id: nat)
    requires NodeInv(remote, n)
    ensures var after := Next(remote, n, HangUp(id));
            && id !in after.calls && id !in after.cache.tasks
            && (forall lock :: lock in after.cache.held <==> lock in n.cache.held && n.cache.held[lock] != id)
            && after.cache.entries == n.cache.entries && after.table == n.table
            && (forall other :: other in n.calls && other != id ==>
                  other in after.calls && after.calls[other] == n.calls[other])
  {
    CancelFrees(remote, n.cache, id);
    hide Inv, TableOk, Names, Do;
    assert forall other :: other in n.calls ==> CallOk(n, other);
  }

  lemma CancelFrees(remote: Remote, s: State, id: nat)
    requires Inv(remote, s)
    ensures var after := Do(remote, s, Cancel(id));
            && after.tasks == s.tasks - {id} && after.entries == s.entries
            && (forall lock :: lock in after.held <==> lock in s.held && s.held[lock] != id)
  {
    assert LocksOk(s);
    if id in s.tasks && Critical(s.tasks[id].at) {
      assert TaskOk(remote, s, id);
      hide FillOk, DiskOk, NamesOk;
    }
    hide Inv;
  }

  /** An unpublish call for a target that no publish call is under way for: an unknown volume is refused, a mount that
      cannot be detached stays with its directory, and otherwise both go, the directory where it can be removed. */
  lemma UnpublishCallExactly(remote: Remote, n: Node, req: Request, kernel: Kernel)
    requires n.cache.serving && !Busy(n, req.targetPath)
    ensures var after := Next(remote, n, UnpublishCall(req, kernel));
            var target := req.targetPath;
            && after.cache == n.cache && after.calls == n.calls
            && (if req.volumeId == "" || target == "" || (target in n.table.mounts && !kernel.detach)
                then after.table == n.table
                else && after.table.mounts == n.table.mounts - {target}
                     && after.table.dirs == if kernel.rmdir then n.table.dirs - {target} else n.table.dirs)
  {
    UnpublishAnswersExactly(n.table, req, kernel);
  }

  /** A request becomes a call exactly when it names volume and target, the target is free, and both attributes are
      there with some path listed. */
  lemma CallBeginsExactly(remote: Remote, n: Node, id: nat, req: Request)
    requires n.cache.serving && id !in n.cache.tasks && id !in n.calls && !Busy(n, req.targetPath)
    ensures var after := Next(remote, n, PublishCall(id, req));
            && (id in after.calls <==>
                  req.volumeId != "" && req.targetPath != "" && req.targetPath !in n.table.mounts && Complete(req))
            && (id in after.calls ==>
                  var closure := ClosureList(req.context["closurePaths"]);
                  && after.calls[id] == Call(req.targetPath, req.context["storePath"], closure)
                  && after.cache.tasks == n.cache.tasks[id := Task(Names(closure), Names(closure), Checking)]
                  && after.cache.entries == n.cache.entries && after.cache.pid == n.cache.pid)
            && after.table == n.table
  {
    hide ClosureList, Names, Do;
    var admission := Admit(n.table, req);
    if admission.Fetch? {
      SpawnAsks(remote, n.cache, id, Names(admission.closure));
      SpawnKeepsPid(remote, n.cache, id, Names(admission.closure));
    }
  }

  lemma SpawnKeepsPid(remote: Remote, s: State, id: nat, names: seq<string>)
    ensures Do(remote, s, Spawn(id, names)).pid == s.pid
  {
  }

  /** The cache works for one call, and the disk obeys. */
  function Waits(remote: Remote, n: Node, id: nat, k: nat): Node {
    if k == 0 then n else Next(remote, Waits(remote, n, id, k - 1), CacheWork(id, Fine))
  }

  lemma {:induction false} WaitsIsSolo(remote: Remote, n: Node, id: nat, k: nat)
    requires id in n.calls && id in n.cache.tasks
    ensures var after := Waits(remote, n, id, k);
            && after.cache == Solo(remote, n.cache, id, k) && after.table == n.table
            && (id in after.cache.tasks ==> id in after.calls && after.calls[id] == n.calls[id])
  {
    hide Do;
    if k > 0 {
      WaitsIsSolo(remote, n, id, k - 1);
      GoneStaysGone(remote, Solo(remote, n.cache, id, k - 1), id);
    }
  }

  lemma GoneStaysGone(remote: Remote, s: State, id: nat)
    ensures id !in s.tasks ==> Do(remote, s, Run(id, Fine)) == s
  {
  }

  lemma {:induction false} InvWaits(remote: Remote, n: Node, id: nat, k: nat)
    requires NodeInv(remote, n)
    ensures NodeInv(remote, Waits(remote, n, id, k))
  {
    hide NodeInv, Next;
    if k > 0 {
      InvWaits(remote, n, id, k - 1);
      InvNext(remote, Waits(remote, n, id, k - 1), CacheWork(id, Fine));
    }
  }

  /** No task is inside a critical section. */
  predicate Quiet(s: State) { forall t :: t in s.tasks ==> !Critical(s.tasks[t].at) }

  predicate FinalNamesOnly(closure: seq<string>) {
    forall i :: 0 <= i < |closure| ==> Final(StripStore(closure[i]))
  }

  /** All of a closure is there or can be fetched, and the source is there or part of the closure. */
  ghost predicate Suppliable(remote: Remote, s: State, storePath: string, closure: seq<string>) {
    && (forall i :: 0 <= i < |closure| ==> Obtainable(remote, s, StripStore(closure[i])))
    && (StripStore(storePath) in s.entries || StripStore(storePath) in Names(closure))
  }

  /** The call is admitted, its task has the cache to itself, and asks for the names of the closure. */
  lemma BegunCall(remote: Remote, n: Node, id: nat, req: Request)
    requires NodeInv(remote, n) && n.cache.serving && Quiet(n.cache) && id !in n.cache.tasks
    requires !Busy(n, req.targetPath) && req.volumeId != "" && req.targetPath != ""
    requires req.targetPath !in n.table.mounts && Complete(req) && SoundEvent(PublishCall(id, req))
    ensures var begun, closure := Next(remote, n, PublishCall(id, req)), ClosureList(req.context["closurePaths"]);
            && NodeInv(remote, begun) && id in begun.calls && id in begun.cache.tasks
            && Alone(begun.cache, id) && begun.table == n.table
            && begun.calls[id] == Call(req.targetPath, req.context["storePath"], closure)
            && begun.cache.tasks[id] == Task(Names(closure), Names(closure), Checking)
            && begun.cache.entries == n.cache.entries && begun.cache.pid == n.cache.pid
  {
    hide ClosureList, Names, Next, Inv, TableOk;
    assert id in n.calls ==> CallOk(n, id);
    CallBeginsExactly(remote, n, id, req);
    InvNext(remote, n, PublishCall(id, req));
  }

  lemma SameObtainable(remote: Remote, a: State, b: State, closure: seq<string>)
    requires a.entries == b.entries && a.pid == b.pid
    ensures (forall i :: 0 <= i < |Names(closure)| ==> Obtainable(remote, a, Names(closure)[i])) <==>
            (forall i :: 0 <= i < |closure| ==> Obtainable(remote, b, StripStore(closure[i])))
  {
    hide Obtainable, StripStore;
    forall name: string
      ensures Obtainable(remote, a, name) <==> Obtainable(remote, b, name)
    {
      ObtainableByEntries(remote, a, b, name);
    }
    assert forall i :: 0 <= i < |closure| ==> Names(closure)[i] == StripStore(closure[i]);
  }

  lemma ObtainableByEntries(remote: Remote, a: State, b: State, name: string)
    requires a.entries == b.entries && a.pid == b.pid
    ensures Obtainable(remote, a, name) <==> Obtainable(remote, b, name)
  {
  }

  /** What the return of a call does that has ended in one way or the other. */
  lemma ReturnOfEnded(remote: Remote, w: Node, id: nat, kernel: Kernel)
    requires id !in w.cache.tasks || w.cache.tasks[id].at.Failed?
    ensures Next(remote, w, PublishReturn(id, kernel)).table == w.table
  {
    hide Do;
  }

  /** A whole publish call on a quiet node: after some number of steps of the cache its return mounts the target
      read-only from the store path, exactly when the closure can be supplied and the kernel obeys. */
  lemma WholePublishExactly(remote: Remote, n: Node, id: nat, req: Request, kernel: Kernel) returns (k: nat)
    requires NodeInv(remote, n) && n.cache.serving && Quiet(n.cache) && id !in n.cache.tasks
    requires !Busy(n, req.targetPath) && req.volumeId != "" && req.targetPath != ""
    requires req.targetPath !in n.table.mounts && Complete(req) && SoundEvent(PublishCall(id, req))
    requires FinalNamesOnly(ClosureList(req.context["closurePaths"])) && Final(StripStore(req.context["storePath"]))
    ensures var begun := Next(remote, n, PublishCall(id, req));
            var after := Next(remote, Waits(remote, begun, id, k), PublishReturn(id, kernel));
            var source, closure := StripStore(req.context["storePath"]), ClosureList(req.context["closurePaths"]);
            req.targetPath in after.table.mounts && after.table.mounts[req.targetPath] == Mount(source, true, closure)
            <==>
            && Suppliable(remote, n.cache, req.context["storePath"], closure)
            && (req.targetPath in n.table.dirs || kernel.mkdir) && kernel.bind && kernel.remount
  {
    hide ClosureList, StripStore, Next, NodeInv, Waits, Solo, IsTmp, Local, Obtainable, SoundEvent, Busy;
    var closure, source := ClosureList(req.context["closurePaths"]), StripStore(req.context["storePath"]);
    BegunCall(remote, n, id, req);
    var begun := Next(remote, n, PublishCall(id, req));
    NodeInvCache(remote, begun);
    k := UndisturbedCall(remote, begun.cache, id);
    WaitsIsSolo(remote, begun, id, k);
    InvWaits(remote, begun, id, k);
    SameObtainable(remote, begun.cache, n.cache, closure);
    hide Names;
    var w := Waits(remote, begun, id, k);
    if id in w.cache.tasks && w.cache.tasks[id].at.Finished? {
      ReturnMountsExactly(remote, w, id, kernel);
      PresentIsEntry(w.cache, source);
    } else {
      ReturnOfEnded(remote, w, id, kernel);
    }
  }

  lemma PresentIsEntry(s: State, name: string)
    requires Final(name)
    ensures Present(s, name) <==> name in s.entries
  {
  }

  lemma NodeInvCache(remote: Remote, n: Node)
    requires NodeInv(remote, n)
    ensures Inv(remote, n.cache)
  {
  }
}
