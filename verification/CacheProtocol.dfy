/**
 The node-local cache as a concurrent protocol (`ensure_cached`,
 `fetch_and_extract` and `cleanup_temp_dirs` in `cache.rs`): any number of tasks,
 per-name locks taken from a shared map, a check before and after locking,
 extraction under a temporary name one file-system call at a time, publication by
 rename, and crashes, cancellations and disk errors at any point.
 */
module CacheProtocol {
  import opened Outcomes
  import opened StorePaths
  import NarInfos
  import opened Nar
  import opened Extraction
  import opened Fetching

  /** Where a task stands with the first of the names it still has to make sure of. */
  datatype Place =
    | Checking
    | Waiting(lock: nat)
    | Holding(lock: nat)
    | Downloading(lock: nat)
    | Parsing(lock: nat)
    | Extracting(lock: nat, node: Node, made: nat)
    | Renaming(lock: nat, node: Node)
    | Finished
    | Failed

  datatype Task = Task(asked: seq<string>, todo: seq<string>, at: Place)

  /** `elsewhere` are the names that lead out of the entries of the cache directory to something that exists;
      `downloads` records the names in the order in which their download began. */
  datatype State = State(
    pid: nat,
    serving: bool,
    entries: Entries,
    elsewhere: set<string>,
    locks: map<string, nat>,
    nextLock: nat,
    held: map<nat, nat>,
    tasks: map<nat, Task>,
    downloads: seq<string>)

  /** What the disk does with a call: obey, or fail, tearing the file that was being written or leaving part of
      a directory that was being removed. */
  datatype Luck = Fine | Broken(torn: Fs, keep: set<Path>)

  datatype Step =
    | Spawn(task: nat, names: seq<string>)
    | Run(task: nat, luck: Luck)
    | Cancel(task: nat)
    | Crash(pid: nat)
    | Sweep(name: string, luck: Luck)
    | Serve
    | Change(elsewhere: set<string>)

  function Lock(at: Place): Option<nat> {
    match at
    case Checking => None
    case Waiting(l) => Some(l)
    case Holding(l) => Some(l)
    case Downloading(l) => Some(l)
    case Parsing(l) => Some(l)
    case Extracting(l, _, _) => Some(l)
    case Renaming(l, _) => Some(l)
    case Finished => None
    case Failed => None
  }

  /** Inside the critical section of a name's lock. */
  predicate Critical(at: Place) { Lock(at).Some? && !at.Waiting? }

  /** Past the second check: this task is the one filling the name. */
  predicate Filling(at: Place) { at.Downloading? || at.Parsing? || at.Extracting? || at.Renaming? }

  function Release(s: State, t: nat): State
    requires t in s.tasks
  {
    if Critical(s.tasks[t].at) then s.(held := s.held - {Lock(s.tasks[t].at).value}) else s
  }

  function Move(s: State, t: nat, at: Place): State
    requires t in s.tasks
  {
    s.(tasks := s.tasks[t := s.tasks[t].(at := at)])
  }

  /** The task is done with its first name. */
  function Advance(s: State, t: nat): State
    requires t in s.tasks && s.tasks[t].todo != []
  {
    var r := Release(s, t);
    r.(tasks := r.tasks[t := s.tasks[t].(at := Checking, todo := s.tasks[t].todo[1..])])
  }

  function Abandon(s: State, t: nat): State
    requires t in s.tasks
  {
    Move(Release(s, t), t, Failed)
  }

  /** The process ends: what is on disk stays, the rest is gone. */
  function Halt(s: State): State { s.(serving := false, locks := map[], held := map[], tasks := map[]) }

  /** `remove_dir_all`, whose result is ignored: it may leave part of the directory behind. */
  function Remove(entries: Entries, name: string, luck: Luck): Entries {
    if luck.Fine? || name !in entries then entries - {name}
    else entries[name := map q | q in entries[name] && (q == [] || q in luck.keep) :: entries[name][q]]
  }

  /** A failed write may leave any file at the path of the call. */
  function Tear(fs: Fs, op: Op, luck: Luck): Fs {
    if luck.Broken? && op.PutFile? && op.path in luck.torn && luck.torn[op.path].File?
       && (if op.path in fs then fs[op.path].File? else InDirectory(fs, op.path))
    then fs[op.path := luck.torn[op.path]]
    else fs
  }

  /** A task with the lock of its name, past the second check: `fetch_and_extract`, call by call. */
  function Fill(remote: Remote, s: State, t: nat, luck: Luck): State
    requires t in s.tasks && s.tasks[t].todo != []
  {
    var task := s.tasks[t];
    var name := task.todo[0];
    var tmp := TmpName(name, s.pid);
    match task.at
    case Downloading(lock) =>
      if Payload(remote, name).Panic? then Halt(s)
      else if luck.Broken? || !Payload(remote, name).Ok? then Abandon(s, t)
      else
        Move(s.(entries := if tmp in s.entries then s.entries else s.entries[tmp := EMPTY_ROOT]), t, Parsing(lock))
    case Parsing(lock) =>
      if Verified(remote, name).Ok? then Move(s, t, Extracting(lock, Verified(remote, name).value, 0))
      else Abandon(s.(entries := Remove(s.entries, tmp, luck)), t)
    case Extracting(lock, node, made) =>
      if tmp !in s.entries then Abandon(s, t)
      else if made >= |Plan(node, [])| then Move(s, t, Renaming(lock, node))
      else
        var op := Plan(node, [])[made];
        var next := Apply(s.entries[tmp], op);
        if luck.Broken? || next.None? then Abandon(s.(entries := s.entries[tmp := Tear(s.entries[tmp], op, luck)]), t)
        else Move(s.(entries := s.entries[tmp := next.value]), t, Extracting(lock, node, made + 1))
    case Renaming(lock, node) =>
      if tmp !in s.entries || luck.Broken? || !CanReplace(s.entries, name)
      then Abandon(s.(entries := Remove(s.entries, tmp, luck)), t)
      else Advance(s.(entries := (s.entries - {tmp})[name := s.entries[tmp]]), t)
    case _ => s
  }

  /** `exists` of a requested name. */
  predicate Present(s: State, name: string) { if Local(name) then name in s.entries else name in s.elsewhere }

  function RunTask(remote: Remote, s: State, t: nat, luck: Luck): State
    requires t in s.tasks
  {
    var task := s.tasks[t];
    if task.at.Finished? || task.at.Failed? then s
    else if task.todo == [] then Move(s, t, Finished)
    else
      var name := task.todo[0];
      match task.at
      case Checking =>
        if Present(s, name) then Advance(s, t)
        else if name in s.locks then Move(s, t, Waiting(s.locks[name]))
        else Move(s.(locks := s.locks[name := s.nextLock], nextLock := s.nextLock + 1), t, Waiting(s.nextLock))
      case Waiting(lock) =>
        if lock in s.held then s
        else Move(s.(held := s.held[lock := t]), t, Holding(lock))
      case Holding(lock) =>
        if Present(s, name) then Advance(s, t)
        else Move(s.(downloads := s.downloads + [name]), t, Downloading(lock))
      case _ => Fill(remote, s, t, luck)
  }

  /** One step; a step that is not possible leaves the state as it is. */
  function Do(remote: Remote, s: State, step: Step): State {
    match step
    case Spawn(t, names) =>
      if s.serving && t !in s.tasks then s.(tasks := s.tasks[t := Task(names, names, Checking)]) else s
    case Run(t, luck) => if t in s.tasks then RunTask(remote, s, t, luck) else s
    case Cancel(t) => if t in s.tasks then Release(s, t).(tasks := s.tasks - {t}) else s
    case Crash(pid) => Halt(s).(pid := pid)
    case Sweep(name, luck) =>
      if !s.serving && name in s.entries && IsTmp(name) then s.(entries := Remove(s.entries, name, luck)) else s
    case Serve => s.(serving := true)
    case Change(elsewhere) => s.(elsewhere := elsewhere)
  }

  /** No request asks for a store path with a slash in its name, which would be fetched to some other place
      (`Fetching.DetourPublishesOtherTree`). */
  predicate Sound(step: Step) { step.Spawn? ==> forall i :: 0 <= i < |step.names| ==> Addressable(step.names[i]) }

  predicate SoundRun(steps: seq<Step>) { forall i :: 0 <= i < |steps| ==> Sound(steps[i]) }

  function After(remote: Remote, s: State, steps: seq<Step>): State {
    if steps == [] then s else Do(remote, After(remote, s, steps[..|steps| - 1]), steps[|steps| - 1])
  }

  function Boot(pid: nat): State { State(pid, false, map[], {}, map[], 0, map[], map[], []) }

  //////////////////////////////////////////////////////////////////////////////
  // Invariant
  //////////////////////////////////////////////////////////////////////////////

  /** A final name holds the whole verified tree of that name. */
  predicate Published(remote: Remote, name: string, fs: Fs) {
    Cacheable(remote, name) && fs == OnDisk(Verified(remote, name).value)
  }

  ghost predicate DiskOk(remote: Remote, entries: Entries) {
    && (forall n :: n in entries && !IsTmp(n) ==> Published(remote, n, entries[n]))
    && (forall b, p :: TmpName(b, p) in entries ==> PartOf(entries[TmpName(b, p)], Goal(remote, b)))
  }

  predicate LocksOk(s: State) {
    && (forall n :: n in s.locks ==> s.locks[n] < s.nextLock)
    && (forall m, n :: m in s.locks && n in s.locks && s.locks[m] == s.locks[n] ==> m == n)
    && (forall l :: l in s.held ==> s.held[l] in s.tasks && Critical(s.tasks[s.held[l]].at)
                                     && Lock(s.tasks[s.held[l]].at) == Some(l))
  }

  /** Each requested name is still to be done or present; a temporary one may have gone again. */
  predicate NamesOk(entries: Entries, task: Task) {
    && (forall n :: n in task.asked && Final(n) ==> n in task.todo || n in entries)
    && (forall n :: n in task.todo ==> Addressable(n))
    && (task.at.Finished? ==> task.todo == [])
  }

  /** The lock a task has in hand is that registered for its name, and a critical section is entered by holding it. */
  predicate LockedOk(locks: map<string, nat>, held: map<nat, nat>, t: nat, task: Task) {
    && (Lock(task.at).Some? ==> task.todo != [] && task.todo[0] in locks && locks[task.todo[0]] == Lock(task.at).value)
    && (Critical(task.at) ==> Lock(task.at).value in held && held[Lock(task.at).value] == t)
  }

  ghost predicate TaskOk(remote: Remote, s: State, t: nat)
    requires t in s.tasks
  {
    var task := s.tasks[t];
    && s.serving
    && NamesOk(s.entries, task)
    && LockedOk(s.locks, s.held, t, task)
    && (Filling(task.at) ==> task.todo != [] && FillOk(remote, s.entries, s.pid, task.todo[0], task.at))
  }

  ghost predicate FillOk(remote: Remote, entries: Entries, pid: nat, name: string, at: Place) {
    && (Final(name) ==> name !in entries)
    && (!at.Downloading? ==> Final(name) && TmpName(name, pid) in entries)
    && (at.Extracting? ==>
          && Verified(remote, name) == Ok(at.node)
          && at.made <= |Plan(at.node, [])|
          && LinksWritable(Plan(at.node, [])[..at.made])
          && (at.node.Directory? ==>
                DoneUpTo(entries[TmpName(name, pid)], Goal(remote, name), Plan(at.node, []), at.made))
          && (!at.node.Directory? ==> at.made == 0))
    && (at.Renaming? ==>
          && Verified(remote, name) == Ok(at.node) && Cacheable(remote, name)
          && entries[TmpName(name, pid)] == Goal(remote, name))
  }

  ghost predicate Inv(remote: Remote, s: State) {
    && DiskOk(remote, s.entries)
    && LocksOk(s)
    && forall t :: t in s.tasks ==> TaskOk(remote, s, t)
  }

  //////////////////////////////////////////////////////////////////////////////
  // The disk
  //////////////////////////////////////////////////////////////////////////////

  lemma WriteTmp(remote: Remote, entries: Entries, name: string, pid: nat, fs: Fs)
    requires DiskOk(remote, entries) && PartOf(fs, Goal(remote, name))
    ensures DiskOk(remote, entries[TmpName(name, pid) := fs])
  {
    hide Goal, Verified, OnDisk, PartOf, IsTmp, Local, Addressable, TmpName, Published;
    var after := entries[TmpName(name, pid) := fs];
    TmpNameShape(name, pid);
    forall b, p | TmpName(b, p) in after
      ensures PartOf(after[TmpName(b, p)], Goal(remote, b))
    {
      if TmpName(b, p) == TmpName(name, pid) {
        TmpNameInjective(b, p, name, pid);
      }
    }
  }

  lemma RemoveTmp(remote: Remote, entries: Entries, name: string, luck: Luck)
    requires DiskOk(remote, entries) && IsTmp(name)
    ensures DiskOk(remote, Remove(entries, name, luck))
  {
    hide Goal, Verified, OnDisk, IsTmp, Local, Addressable, TmpName, Published;
  }

  lemma Publish(remote: Remote, entries: Entries, name: string, pid: nat)
    requires DiskOk(remote, entries) && !IsTmp(name) && TmpName(name, pid) in entries
    requires Cacheable(remote, name) && entries[TmpName(name, pid)] == Goal(remote, name)
    ensures DiskOk(remote, (entries - {TmpName(name, pid)})[name := entries[TmpName(name, pid)]])
  {
    hide Verified, OnDisk, IsTmp, Local, Addressable, TmpName, PartOf, Writable;
    var after := (entries - {TmpName(name, pid)})[name := entries[TmpName(name, pid)]];
    forall b, p | TmpName(b, p) in after
      ensures PartOf(after[TmpName(b, p)], Goal(remote, b))
    {
      TmpNameShape(b, p);
    }
  }

  lemma TearKeepsPart(fs: Fs, goal: Fs, op: Op, luck: Luck)
    requires PartOf(fs, goal) && op.path in goal && (op.PutFile? ==> goal[op.path].File? || op.path in fs)
    ensures PartOf(Tear(fs, op, luck), goal)
  {
    hide InDirectory;
  }

  /** A root that is not a directory cannot be written over the directory made for it. */
  lemma RootCallFails(fs: Fs, node: Node)
    requires !node.Directory? && [] in fs && fs[[]] == Dir
    ensures |Plan(node, [])| == 1 && Plan(node, [])[0].path == [] && Apply(fs, Plan(node, [])[0]).None?
  {
  }

  lemma LinksSoFar(fs: Fs, ops: seq<Op>, made: nat)
    requires made < |ops| && LinksWritable(ops[..made])
    ensures Apply(fs, ops[made]).Some? ==> LinksWritable(ops[..made + 1])
  {
    LinksWritableAppend(ops[..made], [ops[made]]);
    assert ops[..made + 1] == ops[..made] + [ops[made]];
  }

  /** One call of an extraction, successful or not, keeps the directory a part of its goal. */
  lemma ExtractCall(remote: Remote, name: string, node: Node, fs: Fs, made: nat, luck: Luck)
    requires Verified(remote, name) == Ok(node) && made < |Plan(node, [])|
    requires PartOf(fs, Goal(remote, name))
    requires node.Directory? ==> DoneUpTo(fs, Goal(remote, name), Plan(node, []), made)
    requires !node.Directory? ==> made == 0
    requires LinksWritable(Plan(node, [])[..made])
    ensures !node.Directory? ==> Apply(fs, Plan(node, [])[made]).None?
    ensures PartOf(Tear(fs, Plan(node, [])[made], luck), Goal(remote, name))
    ensures Apply(fs, Plan(node, [])[made]).Some? ==>
              && PartOf(Apply(fs, Plan(node, [])[made]).value, Goal(remote, name))
              && DoneUpTo(Apply(fs, Plan(node, [])[made]).value, Goal(remote, name), Plan(node, []), made + 1)
              && LinksWritable(Plan(node, [])[..made + 1])
  {
    LinksSoFar(fs, Plan(node, []), made);
    hide Verified, WellFormed, Holds, Plan, Apply, Tear, DoneUpTo, LinksWritable, OnDisk, Writable;
    GoalHolds(remote, name);
    VerifiedWellFormed(remote, name);
    var op := Plan(node, [])[made];
    if node.Directory? {
      PlanFits(node, made);
      hide PartOf, Goal;
      if Apply(fs, op).Some? {
        ApplyTowards(fs, Goal(remote, name), Plan(node, []), made);
      }
    } else {
      RootCallFails(fs, node);
      hide PartOf, Goal;
    }
    TearKeepsPart(fs, Goal(remote, name), op, luck);
  }

  //////////////////////////////////////////////////////////////////////////////
  // The other tasks
  //////////////////////////////////////////////////////////////////////////////

  /** Entries other than a name and its temporary name are as before, and the name is not lost. */
  ghost predicate Touches(before: Entries, after: Entries, name: string, pid: nat) {
    forall k :: k != name && k != TmpName(name, pid) ==>
      (k in before <==> k in after) && (k in before ==> before[k] == after[k])
  }

  lemma FillFrame(remote: Remote, before: Entries, after: Entries, pid: nat, name: string, m: string, at: Place)
    requires FillOk(remote, before, pid, m, at) && Touches(before, after, name, pid)
    requires m != name && Final(m) && !IsTmp(name)
    ensures FillOk(remote, after, pid, m, at)
  {
    hide Goal, Verified, Plan, DoneUpTo, IsTmp, Local, Addressable, TmpName;
    TmpNameShape(name, pid);
    TmpNameShape(m, pid);
    if TmpName(m, pid) == TmpName(name, pid) {
      TmpNameInjective(m, pid, name, pid);
    }
  }

  /** Two tasks that hold locks are at work on different names. */
  lemma OneHolder(remote: Remote, s: State, t: nat, u: nat)
    requires Inv(remote, s) && t in s.tasks && u in s.tasks && t != u
    requires Critical(s.tasks[t].at) && Critical(s.tasks[u].at)
    ensures s.tasks[t].todo != [] && s.tasks[u].todo != [] && s.tasks[t].todo[0] != s.tasks[u].todo[0]
  {
    hide FillOk, IsTmp, Local, Addressable, DiskOk, NamesOk;
    assert TaskOk(remote, s, t) && TaskOk(remote, s, u);
  }

  lemma InvFacts(remote: Remote, s: State, t: nat)
    requires Inv(remote, s) && t in s.tasks
    ensures TaskOk(remote, s, t) && DiskOk(remote, s.entries) && LocksOk(s)
  {
    hide DiskOk, LocksOk, TaskOk;
  }

  /** A task with a lock in hand is at work on its first name, which is not a temporary one once it has been
      downloaded. */
  lemma FirstName(remote: Remote, s: State, t: nat)
    requires Inv(remote, s) && t in s.tasks && Lock(s.tasks[t].at).Some?
    ensures s.tasks[t].todo != [] && Addressable(s.tasks[t].todo[0])
    ensures Filling(s.tasks[t].at) && (!s.tasks[t].at.Downloading? || Payload(remote, s.tasks[t].todo[0]).Ok?) ==>
              Final(s.tasks[t].todo[0])
  {
    InvFacts(remote, s, t);
    hide Inv, IsTmp, Local, DiskOk, LocksOk, Verified, Plan, DoneUpTo, Goal, Cacheable, LinksWritable, Payload, TmpName;
    assert s.tasks[t].todo[0] in s.tasks[t].todo;
    if Payload(remote, s.tasks[t].todo[0]).Ok? {
      PayloadNamesAreBasenames(remote, s.tasks[t].todo[0]);
    }
  }

  /** Nothing that has a final name disappears. */
  ghost predicate Grows(before: Entries, after: Entries) { forall n :: n in before && !IsTmp(n) ==> n in after }

  /** What a step of task `t` leaves alone in the control state. */
  ghost predicate LeavesOthers(s: State, after: State, t: nat) {
    && after.serving == s.serving && after.pid == s.pid
    && (forall u :: u in after.tasks && u != t ==> u in s.tasks && after.tasks[u] == s.tasks[u])
    && (forall n :: n in s.locks ==> n in after.locks && after.locks[n] == s.locks[n])
    && (forall l :: l in s.held && s.held[l] != t ==> l in after.held && after.held[l] == s.held[l])
  }

  /** What a step of task `t` may do to the disk: nothing, or fill the name whose lock it holds. */
  ghost predicate MayTouch(s: State, entries: Entries, t: nat)
    requires t in s.tasks
  {
    || entries == s.entries
    || (&& Critical(s.tasks[t].at) && s.tasks[t].todo != [] && !IsTmp(s.tasks[t].todo[0])
        && Touches(s.entries, entries, s.tasks[t].todo[0], s.pid) && Grows(s.entries, entries))
  }

  lemma TmpIsDownloading(remote: Remote, before: Entries, after: Entries, pid: nat, m: string, at: Place)
    requires FillOk(remote, before, pid, m, at) && !Final(m) && Filling(at)
    ensures FillOk(remote, after, pid, m, at)
  {
  }

  lemma OtherKeeps(remote: Remote, s: State, after: State, t: nat, u: nat)
    requires Inv(remote, s) && t in s.tasks && LeavesOthers(s, after, t) && MayTouch(s, after.entries, t)
    requires u in after.tasks && u != t
    ensures TaskOk(remote, after, u)
  {
    hide FillOk, IsTmp, Local, Addressable, TmpName, DiskOk, Touches, LocksOk;
    assert TaskOk(remote, s, u);
    var task := s.tasks[u];
    assert NamesOk(after.entries, task);
    assert LockedOk(after.locks, after.held, u, task);
    if Filling(task.at) && after.entries != s.entries {
      OneHolder(remote, s, t, u);
      if !Final(task.todo[0]) {
        TmpIsDownloading(remote, s.entries, after.entries, s.pid, task.todo[0], task.at);
        return;
      }
      FillFrame(remote, s.entries, after.entries, s.pid, s.tasks[t].todo[0], task.todo[0], task.at);
    }
  }

  /** A step of task `t` keeps the invariant when the disk, the locks and the task itself come out right. */
  lemma Assemble(remote: Remote, s: State, after: State, t: nat)
    requires Inv(remote, s) && t in s.tasks && LeavesOthers(s, after, t) && MayTouch(s, after.entries, t)
    requires DiskOk(remote, after.entries) && LocksOk(after)
    requires t in after.tasks ==> TaskOk(remote, after, t)
    ensures Inv(remote, after)
  {
    hide DiskOk, LocksOk, TaskOk, LeavesOthers, MayTouch;
    forall u | u in after.tasks
      ensures TaskOk(remote, after, u)
    {
      if u != t {
        OtherKeeps(remote, s, after, t, u);
      }
    }
  }

  //////////////////////////////////////////////////////////////////////////////
  // Control: tasks and locks, whatever is on the disk
  //////////////////////////////////////////////////////////////////////////////

  predicate SameControl(s: State, s1: State) {
    && s1.pid == s.pid && s1.serving == s.serving && s1.locks == s.locks && s1.nextLock == s.nextLock
    && s1.held == s.held && s1.tasks == s.tasks
  }

  /** A task moves on with the same hold on the same lock. */
  lemma ControlMove(s: State, s1: State, t: nat, at: Place)
    requires LocksOk(s) && t in s.tasks && SameControl(s, s1)
    requires Lock(at) == Lock(s.tasks[t].at) && Critical(at) == Critical(s.tasks[t].at)
    requires LockedOk(s.locks, s.held, t, s.tasks[t])
    ensures var after := Move(s1, t, at);
            LeavesOthers(s, after, t) && LocksOk(after) && LockedOk(after.locks, after.held, t, after.tasks[t])
  {
  }

  /** A task lets go of its lock. */
  lemma ControlRelease(s: State, s1: State, t: nat, task: Task)
    requires LocksOk(s) && t in s.tasks && SameControl(s, s1) && Lock(task.at).None?
    requires LockedOk(s.locks, s.held, t, s.tasks[t])
    ensures var after := Release(s1, t).(tasks := s1.tasks[t := task]);
            LeavesOthers(s, after, t) && LocksOk(after) && LockedOk(after.locks, after.held, t, task)
  {
  }

  /** A task finds or registers the lock of a name. */
  lemma ControlRegister(s: State, t: nat, name: string)
    requires LocksOk(s) && t in s.tasks && Lock(s.tasks[t].at).None? && s.tasks[t].todo != []
    requires s.tasks[t].todo[0] == name
    ensures var s1 := if name in s.locks then s
                      else s.(locks := s.locks[name := s.nextLock], nextLock := s.nextLock + 1);
            var after := Move(s1, t, Waiting(s1.locks[name]));
            LeavesOthers(s, after, t) && LocksOk(after) && LockedOk(after.locks, after.held, t, after.tasks[t])
  {
  }

  lemma ControlAcquire(s: State, t: nat)
    requires LocksOk(s) && t in s.tasks && s.tasks[t].at.Waiting? && s.tasks[t].at.lock !in s.held
    requires LockedOk(s.locks, s.held, t, s.tasks[t])
    ensures var after := Move(s.(held := s.held[s.tasks[t].at.lock := t]), t, Holding(s.tasks[t].at.lock));
            LeavesOthers(s, after, t) && LocksOk(after) && LockedOk(after.locks, after.held, t, after.tasks[t])
  {
  }

  lemma ControlCancel(s: State, t: nat)
    requires LocksOk(s) && t in s.tasks && LockedOk(s.locks, s.held, t, s.tasks[t])
    ensures var after := Release(s, t).(tasks := s.tasks - {t}); LeavesOthers(s, after, t) && LocksOk(after)
  {
  }

  lemma SameEntries(s: State, t: nat)
    requires t in s.tasks
    ensures MayTouch(s, s.entries, t)
  {
  }

  lemma TmpIsPart(remote: Remote, entries: Entries, name: string, pid: nat)
    requires DiskOk(remote, entries) && TmpName(name, pid) in entries
    ensures PartOf(entries[TmpName(name, pid)], Goal(remote, name))
  {
    hide PartOf, Goal, Published, TmpName, IsTmp, Local, Addressable;
  }

  lemma NoLockWhenDone(remote: Remote, s: State, t: nat)
    requires Inv(remote, s) && t in s.tasks && s.tasks[t].todo == []
    ensures Lock(s.tasks[t].at).None?
  {
    hide Inv, NamesOk, FillOk, DiskOk, LocksOk;
    InvFacts(remote, s, t);
  }

  lemma NamesMove(entries: Entries, after: Entries, task: Task, at: Place)
    requires NamesOk(entries, task) && Grows(entries, after) && !at.Finished?
    ensures NamesOk(after, task.(at := at))
  {
    hide IsTmp, Local, Addressable;
  }

  lemma NamesAdvance(entries: Entries, after: Entries, task: Task)
    requires NamesOk(entries, task) && Grows(entries, after) && task.todo != []
    requires (Final(task.todo[0]) ==> task.todo[0] in after)
    ensures NamesOk(after, task.(at := Checking, todo := task.todo[1..]))
  {
    hide IsTmp, Local, Addressable;
    assert task.todo == [task.todo[0]] + task.todo[1..];
  }

  //////////////////////////////////////////////////////////////////////////////
  // Every step keeps the invariant
  //////////////////////////////////////////////////////////////////////////////

  /** The task moves on, holding the same lock, over a disk it may have touched. */
  lemma InvMove(remote: Remote, s: State, s1: State, t: nat, at: Place)
    requires Inv(remote, s) && t in s.tasks && SameControl(s, s1)
    requires Lock(at) == Lock(s.tasks[t].at) && Critical(at) == Critical(s.tasks[t].at) && !at.Finished?
    requires DiskOk(remote, s1.entries) && MayTouch(s, s1.entries, t)
    requires Filling(at) ==> s.tasks[t].todo != [] && FillOk(remote, s1.entries, s.pid, s.tasks[t].todo[0], at)
    ensures Inv(remote, Move(s1, t, at))
  {
    hide Inv, DiskOk, LocksOk, FillOk, IsTmp, Local, Addressable, LeavesOthers, Touches, NamesOk, LockedOk, TmpName;
    InvFacts(remote, s, t);
    ControlMove(s, s1, t, at);
    NamesMove(s.entries, s1.entries, s.tasks[t], at);
    Assemble(remote, s, Move(s1, t, at), t);
  }

  /** The task lets go of its lock and is done with its first name, which is present. */
  lemma InvAdvance(remote: Remote, s: State, s1: State, t: nat)
    requires Inv(remote, s) && t in s.tasks && SameControl(s, s1) && s.tasks[t].todo != []
    requires DiskOk(remote, s1.entries) && MayTouch(s, s1.entries, t)
    requires Final(s.tasks[t].todo[0]) ==> s.tasks[t].todo[0] in s1.entries
    ensures Inv(remote, Advance(s1, t))
  {
    hide Inv, DiskOk, LocksOk, FillOk, IsTmp, Local, Addressable, LeavesOthers, Touches, NamesOk, LockedOk, Release,
        TmpName;
    InvFacts(remote, s, t);
    var task := s.tasks[t].(at := Checking, todo := s.tasks[t].todo[1..]);
    ControlRelease(s, s1, t, task);
    NamesAdvance(s.entries, s1.entries, s.tasks[t]);
    ReleaseKeeps(s1, t);
    Assemble(remote, s, Advance(s1, t), t);
  }

  lemma ReleaseKeeps(s: State, t: nat)
    requires t in s.tasks
    ensures Release(s, t).entries == s.entries && Release(s, t).tasks == s.tasks && Release(s, t).serving == s.serving
    ensures Release(s, t).pid == s.pid && Release(s, t).downloads == s.downloads
  {
  }

  lemma InvAbandon(remote: Remote, s: State, s1: State, t: nat)
    requires Inv(remote, s) && t in s.tasks && SameControl(s, s1)
    requires DiskOk(remote, s1.entries) && MayTouch(s, s1.entries, t)
    ensures Inv(remote, Abandon(s1, t))
  {
    hide Inv, DiskOk, LocksOk, FillOk, IsTmp, Local, Addressable, LeavesOthers, Touches, NamesOk, LockedOk, Release,
        TmpName;
    InvFacts(remote, s, t);
    ControlRelease(s, s1, t, s.tasks[t].(at := Failed));
    NamesMove(s.entries, s1.entries, s.tasks[t], Failed);
    ReleaseKeeps(s1, t);
    Assemble(remote, s, Abandon(s1, t), t);
  }

  lemma InvChecking(remote: Remote, s: State, t: nat)
    requires Inv(remote, s) && t in s.tasks && s.tasks[t].todo != [] && s.tasks[t].at.Checking?
    ensures var name := s.tasks[t].todo[0];
            && (name in s.locks ==> Inv(remote, Move(s, t, Waiting(s.locks[name]))))
            && (name !in s.locks ==>
                  Inv(remote, Move(s.(locks := s.locks[name := s.nextLock], nextLock := s.nextLock + 1), t,
                      Waiting(s.nextLock))))
  {
    hide Inv, DiskOk, LocksOk, FillOk, IsTmp, Local, Addressable, LeavesOthers, Touches, NamesOk, LockedOk, TmpName;
    InvFacts(remote, s, t);
    var name := s.tasks[t].todo[0];
    var s1 := if name in s.locks then s else s.(locks := s.locks[name := s.nextLock], nextLock := s.nextLock + 1);
    var after := Move(s1, t, Waiting(s1.locks[name]));
    ControlRegister(s, t, name);
    NamesMove(s.entries, s.entries, s.tasks[t], after.tasks[t].at);
    Assemble(remote, s, after, t);
  }

  lemma InvWaiting(remote: Remote, s: State, t: nat)
    requires Inv(remote, s) && t in s.tasks && s.tasks[t].at.Waiting? && s.tasks[t].at.lock !in s.held
    ensures Inv(remote, Move(s.(held := s.held[s.tasks[t].at.lock := t]), t, Holding(s.tasks[t].at.lock)))
  {
    hide Inv, DiskOk, LocksOk, FillOk, IsTmp, Local, Addressable, LeavesOthers, Touches, NamesOk, LockedOk, TmpName;
    InvFacts(remote, s, t);
    var lock := s.tasks[t].at.lock;
    var after := Move(s.(held := s.held[lock := t]), t, Holding(lock));
    ControlAcquire(s, t);
    NamesMove(s.entries, s.entries, s.tasks[t], after.tasks[t].at);
    Assemble(remote, s, after, t);
  }

  lemma InvDownloading(remote: Remote, s: State, t: nat)
    requires Inv(remote, s) && t in s.tasks && s.tasks[t].at.Downloading? && s.tasks[t].todo != []
    requires Payload(remote, s.tasks[t].todo[0]).Ok?
    ensures var name := s.tasks[t].todo[0]; var tmp := TmpName(name, s.pid);
            Inv(remote, Move(s.(entries := if tmp in s.entries then s.entries else s.entries[tmp := EMPTY_ROOT]), t,
                             Parsing(s.tasks[t].at.lock)))
  {
    hide Inv, IsTmp, Local, Addressable, TmpName, DiskOk, Verified, Plan, DoneUpTo, Goal, PartOf, LocksOk, NamesOk,
        LockedOk, Payload, Cacheable;
    InvFacts(remote, s, t);
    FirstName(remote, s, t);
    var name := s.tasks[t].todo[0];
    var tmp := TmpName(name, s.pid);
    TmpNameShape(name, s.pid);
    GoalHolds(remote, name);
    WriteTmp(remote, s.entries, name, s.pid, EMPTY_ROOT);
    var s1 := s.(entries := if tmp in s.entries then s.entries else s.entries[tmp := EMPTY_ROOT]);
    MayTouchTmp(remote, s, t, s1.entries);
    hide MayTouch;
    InvMove(remote, s, s1, t, Parsing(s.tasks[t].at.lock));
  }

  /** Whatever happens to the temporary directory of a name, its holder may have done it. */
  lemma MayTouchTmp(remote: Remote, s: State, t: nat, entries: Entries)
    requires Inv(remote, s) && t in s.tasks && Critical(s.tasks[t].at)
    requires s.tasks[t].todo != [] && !IsTmp(s.tasks[t].todo[0])
    requires forall k :: k != TmpName(s.tasks[t].todo[0], s.pid) ==>
                             (k in s.entries <==> k in entries) && (k in s.entries ==> s.entries[k] == entries[k])
    ensures MayTouch(s, entries, t)
  {
    hide Inv, IsTmp, Local, Addressable, TmpName;
    TmpNameShape(s.tasks[t].todo[0], s.pid);
  }

  lemma InvDropTmp(remote: Remote, s: State, t: nat, luck: Luck)
    requires Inv(remote, s) && t in s.tasks && Filling(s.tasks[t].at) && !s.tasks[t].at.Downloading?
    ensures s.tasks[t].todo != []
    ensures Inv(remote, Abandon(s.(entries := Remove(s.entries, TmpName(s.tasks[t].todo[0], s.pid), luck)), t))
  {
    hide Inv, IsTmp, Local, Addressable, TmpName, DiskOk, MayTouch;
    FirstName(remote, s, t);
    var tmp := TmpName(s.tasks[t].todo[0], s.pid);
    TmpNameShape(s.tasks[t].todo[0], s.pid);
    InvDisk(remote, s);
    RemoveTmp(remote, s.entries, tmp, luck);
    MayTouchTmp(remote, s, t, Remove(s.entries, tmp, luck));
    hide Remove, Abandon;
    InvAbandon(remote, s, s.(entries := Remove(s.entries, tmp, luck)), t);
  }

  lemma InvDisk(remote: Remote, s: State)
    requires Inv(remote, s)
    ensures DiskOk(remote, s.entries)
  {
  }

  lemma InvExtracting(remote: Remote, s: State, t: nat, luck: Luck)
    requires Inv(remote, s) && t in s.tasks && s.tasks[t].at.Extracting? && s.tasks[t].todo != []
    ensures Inv(remote, Fill(remote, s, t, luck))
  {
    hide Inv, IsTmp, Local, Addressable, TmpName, Verified, Payload, Plan, Apply, DoneUpTo, Goal, PartOf, Tear,
        LocksOk, NamesOk, LockedOk, DiskOk;
    hide MayTouch, Move, Abandon;
    InvFacts(remote, s, t);
    FirstName(remote, s, t);
    var name := s.tasks[t].todo[0];
    var tmp, node, made := TmpName(name, s.pid), s.tasks[t].at.node, s.tasks[t].at.made;
    var lock, fs := s.tasks[t].at.lock, s.entries[tmp];
    TmpIsPart(remote, s.entries, name, s.pid);
    if made >= |Plan(node, [])| {
      assert Plan(node, [])[..made] == Plan(node, []);
      PlanIsNotEmpty(node);
      AllCallsMade(remote, name, node, fs);
      SameEntries(s, t);
      InvMove(remote, s, s, t, Renaming(lock, node));
    } else {
      ExtractCall(remote, name, node, fs, made, luck);
      var op := Plan(node, [])[made];
      var next := Apply(fs, op);
      var written := if luck.Broken? || next.None? then Tear(fs, op, luck) else next.value;
      WriteTmp(remote, s.entries, name, s.pid, written);
      MayTouchTmp(remote, s, t, s.entries[tmp := written]);
      TmpNameShape(name, s.pid);
      if luck.Broken? || next.None? {
        InvAbandon(remote, s, s.(entries := s.entries[tmp := written]), t);
      } else {
        InvMove(remote, s, s.(entries := s.entries[tmp := written]), t, Extracting(lock, node, made + 1));
      }
    }
  }

  lemma PlanIsNotEmpty(node: Node)
    ensures |Plan(node, [])| > 0
  {
  }

  lemma AllCallsMade(remote: Remote, name: string, node: Node, fs: Fs)
    requires Verified(remote, name) == Ok(node) && node.Directory? && PartOf(fs, Goal(remote, name))
    requires DoneUpTo(fs, Goal(remote, name), Plan(node, []), |Plan(node, [])|) && LinksWritable(Plan(node, []))
    ensures fs == Goal(remote, name) && Cacheable(remote, name)
  {
    hide Verified, OnDisk, Plan, PartOf, DoneUpTo, WellFormed, LinksWritable, Writable;
    VerifiedWellFormed(remote, name);
    PlanWritable(node, []);
    AllDoneIsOnDisk(fs, node);
  }

  lemma InvRenaming(remote: Remote, s: State, t: nat)
    requires Inv(remote, s) && t in s.tasks && s.tasks[t].at.Renaming?
    ensures s.tasks[t].todo != []
    ensures var name := s.tasks[t].todo[0]; var tmp := TmpName(name, s.pid);
            && tmp in s.entries && name !in s.entries
            && Inv(remote, Advance(s.(entries := (s.entries - {tmp})[name := s.entries[tmp]]), t))
  {
    hide Inv, IsTmp, Local, Addressable, TmpName, DiskOk, Verified, Goal, LocksOk, NamesOk, LockedOk;
    InvFacts(remote, s, t);
    FirstName(remote, s, t);
    var name := s.tasks[t].todo[0];
    var tmp := TmpName(name, s.pid);
    TmpNameShape(name, s.pid);
    Publish(remote, s.entries, name, s.pid);
    var after := (s.entries - {tmp})[name := s.entries[tmp]];
    assert MayTouch(s, after, t);
    hide MayTouch, FillOk, Advance;
    InvAdvance(remote, s, s.(entries := after), t);
  }

  lemma InvHalt(remote: Remote, s: State)
    requires Inv(remote, s)
    ensures Inv(remote, Halt(s))
  {
    hide DiskOk;
  }

  lemma InvRun(remote: Remote, s: State, t: nat, luck: Luck)
    requires Inv(remote, s) && t in s.tasks
    ensures Inv(remote, RunTask(remote, s, t, luck))
  {
    hide Inv, Move, Advance, Abandon, Halt, TmpName, Verified, Payload, Plan, Apply, Tear, Remove, CanReplace;
    var task := s.tasks[t];
    InvDisk(remote, s);
    assert s.(entries := s.entries) == s;
    if task.at.Finished? || task.at.Failed? {
    } else if task.todo == [] {
      InvFinish(remote, s, t);
    } else {
      match task.at
      case Checking =>
        if Present(s, task.todo[0]) {
          InvAdvance(remote, s, s, t);
        } else {
          InvChecking(remote, s, t);
        }
      case Waiting(lock) =>
        if lock !in s.held {
          InvWaiting(remote, s, t);
        }
      case Holding(lock) =>
        if Present(s, task.todo[0]) {
          InvAdvance(remote, s, s, t);
        } else {
          InvMove(remote, s, s.(downloads := s.downloads + [task.todo[0]]), t, Downloading(lock));
        }
      case Downloading(_) =>
        InvHalt(remote, s);
        InvAbandon(remote, s, s, t);
        if Payload(remote, task.todo[0]).Ok? {
          InvDownloading(remote, s, t);
        }
      case Parsing(lock) =>
        if Verified(remote, task.todo[0]).Ok? {
          InvParsed(remote, s, t);
        } else {
          InvDropTmp(remote, s, t, luck);
        }
      case Extracting(_, _, _) => InvExtracting(remote, s, t, luck);
      case Renaming(_, _) =>
        InvRenaming(remote, s, t);
        InvDropTmp(remote, s, t, luck);
    }
  }

  lemma InvParsed(remote: Remote, s: State, t: nat)
    requires Inv(remote, s) && t in s.tasks && s.tasks[t].at.Parsing? && s.tasks[t].todo != []
    requires Verified(remote, s.tasks[t].todo[0]).Ok?
    ensures Inv(remote, Move(s, t, Extracting(s.tasks[t].at.lock, Verified(remote, s.tasks[t].todo[0]).value, 0)))
  {
    hide Inv, IsTmp, Local, Addressable, TmpName, DiskOk, Verified, Plan, Goal, LocksOk, NamesOk, LockedOk, MayTouch;
    InvFacts(remote, s, t);
    SameEntries(s, t);
    InvMove(remote, s, s, t, Extracting(s.tasks[t].at.lock, Verified(remote, s.tasks[t].todo[0]).value, 0));
  }

  lemma InvFinish(remote: Remote, s: State, t: nat)
    requires Inv(remote, s) && t in s.tasks && s.tasks[t].todo == [] && !s.tasks[t].at.Failed?
    ensures Inv(remote, Move(s, t, Finished))
  {
    hide Inv, IsTmp, Local, Addressable, DiskOk, FillOk, LocksOk, LeavesOthers, LockedOk;
    InvFacts(remote, s, t);
    NoLockWhenDone(remote, s, t);
    ControlMove(s, s, t, Finished);
    Assemble(remote, s, Move(s, t, Finished), t);
  }

  lemma InvCancel(remote: Remote, s: State, t: nat)
    requires Inv(remote, s) && t in s.tasks
    ensures Inv(remote, Release(s, t).(tasks := s.tasks - {t}))
  {
    hide Inv, FillOk, IsTmp, Local, Addressable, DiskOk, NamesOk, LocksOk, LeavesOthers, LockedOk;
    InvFacts(remote, s, t);
    ControlCancel(s, t);
    Assemble(remote, s, Release(s, t).(tasks := s.tasks - {t}), t);
  }

  lemma InvSpawn(remote: Remote, s: State, t: nat, names: seq<string>)
    requires Inv(remote, s) && s.serving && t !in s.tasks && forall i :: 0 <= i < |names| ==> Addressable(names[i])
    ensures Inv(remote, s.(tasks := s.tasks[t := Task(names, names, Checking)]))
  {
    hide FillOk, IsTmp, Local, Addressable, DiskOk;
    var after := s.(tasks := s.tasks[t := Task(names, names, Checking)]);
    assert LocksOk(after);
    hide LocksOk;
    forall u | u in after.tasks
      ensures TaskOk(remote, after, u)
    {
      if u in s.tasks {
        assert TaskOk(remote, s, u);
      }
    }
  }

  lemma NoTasksWhenNotServing(remote: Remote, s: State)
    requires Inv(remote, s) && !s.serving
    ensures s.tasks == map[]
  {
    assert forall t :: t in s.tasks ==> TaskOk(remote, s, t);
    hide TaskOk;
    assert s.tasks.Keys == {} by { NotServing(remote, s); }
  }

  lemma NotServing(remote: Remote, s: State)
    requires !s.serving && forall t :: t in s.tasks ==> TaskOk(remote, s, t)
    ensures s.tasks.Keys == {}
  {
    hide NamesOk, LockedOk, FillOk;
  }

  lemma InvSweep(remote: Remote, s: State, name: string, luck: Luck)
    requires Inv(remote, s) && !s.serving && IsTmp(name)
    ensures Inv(remote, s.(entries := Remove(s.entries, name, luck)))
  {
    NoTasksWhenNotServing(remote, s);
    RemoveTmp(remote, s.entries, name, luck);
    hide DiskOk, Remove, TaskOk;
  }

  lemma InvServe(remote: Remote, s: State)
    requires Inv(remote, s)
    ensures Inv(remote, s.(serving := true))
  {
    hide FillOk, IsTmp, Local, Addressable, DiskOk, NamesOk, LockedOk;
    forall t | t in s.tasks
      ensures TaskOk(remote, s.(serving := true), t)
    {
      assert TaskOk(remote, s, t);
    }
  }

  lemma InvChange(remote: Remote, s: State, elsewhere: set<string>)
    requires Inv(remote, s)
    ensures Inv(remote, s.(elsewhere := elsewhere))
  {
    hide FillOk, DiskOk, NamesOk, LockedOk;
    forall t | t in s.tasks
      ensures TaskOk(remote, s.(elsewhere := elsewhere), t)
    {
      assert TaskOk(remote, s, t);
    }
  }

  lemma InvDo(remote: Remote, s: State, step: Step)
    requires Inv(remote, s) && Sound(step)
    ensures Inv(remote, Do(remote, s, step))
  {
    match step
    case Spawn(t, names) =>
      if s.serving && t !in s.tasks {
        InvSpawn(remote, s, t, names);
      }
      hide Inv, IsTmp, Local, Addressable;
    case Run(t, luck) =>
      if t in s.tasks {
        InvRun(remote, s, t, luck);
      }
      hide Inv, RunTask;
    case Cancel(t) =>
      if t in s.tasks {
        InvCancel(remote, s, t);
      }
      hide Inv, Release;
    case Crash(_) =>
      hide DiskOk;
    case Sweep(name, luck) =>
      if !s.serving && IsTmp(name) {
        InvSweep(remote, s, name, luck);
      }
      hide Inv, Remove, IsTmp, Local, Addressable;
    case Serve =>
      InvServe(remote, s);
      hide Inv;
    case Change(elsewhere) =>
      InvChange(remote, s, elsewhere);
      hide Inv;
  }

  lemma {:induction false} InvAfter(remote: Remote, s: State, steps: seq<Step>)
    requires Inv(remote, s) && SoundRun(steps)
    ensures Inv(remote, After(remote, s, steps))
  {
    hide Inv, Do;
    if steps != [] {
      InvAfter(remote, s, steps[..|steps| - 1]);
      InvDo(remote, After(remote, s, steps[..|steps| - 1]), steps[|steps| - 1]);
    }
  }

  lemma InvBoot(remote: Remote, pid: nat)
    ensures Inv(remote, Boot(pid))
  {
  }

  //////////////////////////////////////////////////////////////////////////////
  // Whole runs
  //////////////////////////////////////////////////////////////////////////////

  /** At most one task is in the critical section of a name, in every state of every run. */
  lemma MutualExclusion(remote: Remote, pid: nat, steps: seq<Step>, t: nat, u: nat)
    requires SoundRun(steps)
    requires var s := After(remote, Boot(pid), steps);
             && t in s.tasks && u in s.tasks && Critical(s.tasks[t].at) && Critical(s.tasks[u].at)
             && s.tasks[t].todo != [] && s.tasks[u].todo != [] && s.tasks[t].todo[0] == s.tasks[u].todo[0]
    ensures t == u
  {
    hide Inv, After;
    InvBoot(remote, pid);
    InvAfter(remote, Boot(pid), steps);
    if t != u {
      OneHolder(remote, After(remote, Boot(pid), steps), t, u);
    }
  }

  /** A final name is only ever seen with the complete tree of an archive that has the hash promised for it, taken from
      a file that has the hash promised for that. */
  lemma OnlyVerifiedTreesAppear(remote: Remote, pid: nat, steps: seq<Step>, name: string)
    returns (ni: NarInfos.NarInfo, data: Bytes, bytes: Bytes, node: Node)
    requires SoundRun(steps) && name in After(remote, Boot(pid), steps).entries && !IsTmp(name)
    ensures var fs := After(remote, Boot(pid), steps).entries[name];
            && Downloads(remote, name, ni, data, bytes) && Contains(remote, ni, bytes, node)
            && ni.fileHash == NixHash(Sha256, remote.sha(data))
            && ni.narHash == NixHash(Sha256, remote.sha(ArchiveOf(node)))
            && node.Directory? && Writable(node) && Holds(fs, [], node) && fs == OnDisk(node)
            && Verified(remote, name) == Ok(node)
  {
    hide After, IsTmp, Local, Addressable, TaskOk, LocksOk, Payload, Verified, WellFormed, Holds, OnDisk, ArchiveOf,
        Writable, ParseBasename;
    InvBoot(remote, pid);
    InvAfter(remote, Boot(pid), steps);
    assert Published(remote, name, After(remote, Boot(pid), steps).entries[name]);
    hide Inv;
    node := Verified(remote, name).value;
    VerifiedExactly(remote, name, node);
    ni, data, bytes :| Downloads(remote, name, ni, data, bytes) && Contains(remote, ni, bytes, node);
    OnDiskHolds(node);
  }

  /** No archive in the canonical form is ever seen under a final name, in any state of any run. */
  lemma CanonicalArchivesNeverAppear(remote: Remote, pid: nat, steps: seq<Step>, name: string, node: Node,
      ni: NarInfos.NarInfo, data: Bytes)
    requires SoundRun(steps) && WellFormed(node) && !IsTmp(name)
    requires Downloads(remote, name, ni, data, Str(Word(Magic)) + Ser(node))
    ensures name !in After(remote, Boot(pid), steps).entries
  {
    hide After, IsTmp, Local, Addressable, Downloads, Contains, WellFormed, Ser, Str, Word, Verified, Holds, OnDisk,
        ArchiveOf, Writable;
    CanonicalIsNotCacheable(remote, name, node, ni, data);
    if name in After(remote, Boot(pid), steps).entries {
      var _, _, _, _ := OnlyVerifiedTreesAppear(remote, pid, steps, name);
    }
  }

  lemma RemoveKeeps(entries: Entries, tmp: string, luck: Luck, name: string)
    requires name in entries && name != tmp
    ensures name in Remove(entries, tmp, luck) && Remove(entries, tmp, luck)[name] == entries[name]
  {
  }

  predicate Survives(s: State, after: State, name: string)
    requires name in s.entries
  {
    && name in after.entries && after.entries[name] == s.entries[name]
    && multiset(after.downloads)[name] == multiset(s.downloads)[name]
  }

  /** A task is asked for the same names until it ends. */
  predicate SameAsked(before: map<nat, Task>, after: map<nat, Task>) {
    forall t :: t in after ==> t in before && after[t].asked == before[t].asked
  }

  /** However a task moves on, the disk and the downloads are those it moves on with. */
  lemma MovesKeep(s: State, t: nat, at: Place)
    requires t in s.tasks
    ensures Move(s, t, at).entries == s.entries && Move(s, t, at).downloads == s.downloads
    ensures Abandon(s, t).entries == s.entries && Abandon(s, t).downloads == s.downloads
    ensures s.tasks[t].todo != [] ==> Advance(s, t).entries == s.entries && Advance(s, t).downloads == s.downloads
    ensures SameAsked(s.tasks, s.tasks) && SameAsked(s.tasks, Move(s, t, at).tasks)
    ensures SameAsked(s.tasks, Abandon(s, t).tasks)
    ensures s.tasks[t].todo != [] ==> SameAsked(s.tasks, Advance(s, t).tasks)
  {
    hide Release;
    ReleaseKeeps(s, t);
  }

  /** A task writes to the disk only with the lock of its name, and then only that name or its temporary name. */
  lemma ControlKeepsDisk(remote: Remote, s: State, t: nat, luck: Luck)
    requires t in s.tasks && !Filling(s.tasks[t].at)
    ensures var after := RunTask(remote, s, t, luck);
            && after.entries == s.entries && SameAsked(s.tasks, after.tasks)
            && (|| after.downloads == s.downloads
                || (&& s.tasks[t].todo != [] && !Present(s, s.tasks[t].todo[0])
                    && after.downloads == s.downloads + [s.tasks[t].todo[0]]))
  {
    hide Fill, Move, Abandon, Advance, SameAsked;
    MovesKeep(s, t, Checking);
    var task := s.tasks[t];
    if task.todo == [] {
      MovesKeep(s, t, Finished);
    } else {
      var first := task.todo[0];
      match task.at
      case Checking =>
        var s1 := if first in s.locks then s else s.(locks := s.locks[first := s.nextLock], nextLock := s.nextLock + 1);
        MovesKeep(s1, t, Waiting(s1.locks[first]));
        MovesKeep(s, t, Checking);
      case Waiting(lock) => MovesKeep(s.(held := s.held[lock := t]), t, Holding(lock));
      case Holding(lock) =>
        MovesKeep(s, t, Checking);
        MovesKeep(s.(downloads := s.downloads + [first]), t, Downloading(lock));
      case _ =>
    }
  }

  /** What a task may leave on the disk in place of what was there, and still not harm a final name. */
  predicate Spares(before: Entries, after: Entries, tmp: string, first: string, name: string) {
    name in before && name != tmp && name != first ==> name in after && after[name] == before[name]
  }

  lemma WritesSpare(entries: Entries, tmp: string, first: string, fs: Fs, luck: Luck, name: string)
    ensures Spares(entries, entries[tmp := fs], tmp, first, name)
    ensures Spares(entries, Remove(entries, tmp, luck), tmp, first, name)
    ensures Spares(entries, (entries - {tmp})[first := fs], tmp, first, name)
    ensures Spares(entries, entries, tmp, first, name)
  {
  }

  predicate SparesState(s: State, after: State, t: nat, name: string)
    requires t in s.tasks && s.tasks[t].todo != []
  {
    && Spares(s.entries, after.entries, TmpName(s.tasks[t].todo[0], s.pid), s.tasks[t].todo[0], name)
    && after.downloads == s.downloads && SameAsked(s.tasks, after.tasks)
  }

  /** However the task moves on over such a disk. */
  lemma MovesSpare(s: State, entries: Entries, t: nat, at: Place, name: string)
    requires t in s.tasks && s.tasks[t].todo != []
    requires Spares(s.entries, entries, TmpName(s.tasks[t].todo[0], s.pid), s.tasks[t].todo[0], name)
    ensures SparesState(s, Move(s.(entries := entries), t, at), t, name)
    ensures SparesState(s, Abandon(s.(entries := entries), t), t, name)
    ensures SparesState(s, Advance(s.(entries := entries), t), t, name)
    ensures SparesState(s, Halt(s.(entries := entries)), t, name)
  {
    hide Move, Abandon, Advance, Spares, TmpName;
    MovesKeep(s.(entries := entries), t, at);
  }

  lemma FillSpares(remote: Remote, s: State, t: nat, luck: Luck, name: string)
    requires t in s.tasks && s.tasks[t].todo != [] && Filling(s.tasks[t].at)
    ensures SparesState(s, Fill(remote, s, t, luck), t, name)
  {
    hide TmpName, Verified, Payload, Plan, Apply, Tear, Remove, CanReplace, Move, Abandon, Advance, Halt, Spares,
        SparesState;
    var first := s.tasks[t].todo[0];
    var tmp := TmpName(first, s.pid);
    assert s.(entries := s.entries) == s;
    WritesSpare(s.entries, tmp, first, EMPTY_ROOT, luck, name);
    match s.tasks[t].at
    case Downloading(lock) =>
      MovesSpare(s, s.entries, t, Parsing(lock), name);
      MovesSpare(s, s.entries[tmp := EMPTY_ROOT], t, Parsing(lock), name);
    case Parsing(lock) =>
      MovesSpare(s, Remove(s.entries, tmp, luck), t, Checking, name);
      if Verified(remote, first).Ok? {
        MovesSpare(s, s.entries, t, Extracting(lock, Verified(remote, first).value, 0), name);
      }
    case Extracting(lock, node, made) =>
      MovesSpare(s, s.entries, t, Renaming(lock, node), name);
      if tmp in s.entries && made < |Plan(node, [])| {
        var op := Plan(node, [])[made];
        var next := Apply(s.entries[tmp], op);
        var written := if luck.Broken? || next.None? then Tear(s.entries[tmp], op, luck) else next.value;
        WritesSpare(s.entries, tmp, first, written, luck, name);
        MovesSpare(s, s.entries[tmp := written], t, Extracting(lock, node, made + 1), name);
      }
    case Renaming(lock, node) =>
      MovesSpare(s, Remove(s.entries, tmp, luck), t, Checking, name);
      if tmp in s.entries {
        WritesSpare(s.entries, tmp, first, s.entries[tmp], luck, name);
        MovesSpare(s, (s.entries - {tmp})[first := s.entries[tmp]], t, Checking, name);
      }
  }

  /** A name being filled is not present yet, so filling it harms no final name. */
  lemma FillingSurvives(remote: Remote, s: State, t: nat, luck: Luck, name: string)
    requires Inv(remote, s) && t in s.tasks && Filling(s.tasks[t].at) && name in s.entries && Final(name)
    ensures s.tasks[t].todo != [] && Survives(s, Fill(remote, s, t, luck), name)
  {
    hide Inv, IsTmp, Local, Addressable, TmpName, Fill, DiskOk, LocksOk, NamesOk, LockedOk;
    FirstName(remote, s, t);
    InvFacts(remote, s, t);
    TmpNameShape(s.tasks[t].todo[0], s.pid);
    FillSpares(remote, s, t, luck, name);
  }

  lemma EntrySurvivesRun(remote: Remote, s: State, t: nat, luck: Luck, name: string)
    requires Inv(remote, s) && t in s.tasks && name in s.entries && Final(name)
    ensures Survives(s, RunTask(remote, s, t, luck), name)
  {
    hide Inv, IsTmp, Local, Addressable, Fill;
    if Filling(s.tasks[t].at) {
      FillingSurvives(remote, s, t, luck, name);
      hide Survives;
    } else {
      ControlKeepsDisk(remote, s, t, luck);
      hide RunTask;
    }
  }

  /** No step takes a final name away, changes what it holds or downloads it again. */
  lemma EntrySurvivesStep(remote: Remote, s: State, step: Step, name: string)
    requires Inv(remote, s) && name in s.entries && Final(name)
    ensures Survives(s, Do(remote, s, step), name)
  {
    hide Inv, IsTmp, Local, Addressable, RunTask, Remove, Release;
    match step
    case Run(t, luck) =>
      if t in s.tasks {
        EntrySurvivesRun(remote, s, t, luck, name);
      }
    case Cancel(t) =>
      if t in s.tasks {
        ReleaseKeeps(s, t);
      }
    case Sweep(tmp, luck) =>
      if IsTmp(tmp) {
        RemoveKeeps(s.entries, tmp, luck, name);
      }
    case _ =>
  }

  /** Once present, a name stays as it is and is not downloaded again, through crashes, sweeps and cancellations. */
  lemma {:induction false} EntrySurvives(remote: Remote, s: State, steps: seq<Step>, name: string)
    requires Inv(remote, s) && SoundRun(steps) && name in s.entries && Final(name)
    ensures Survives(s, After(remote, s, steps), name)
  {
    hide Inv, Do, IsTmp, Local, Addressable;
    if steps != [] {
      var before := steps[..|steps| - 1];
      InvAfter(remote, s, before);
      EntrySurvives(remote, s, before, name);
      EntrySurvivesStep(remote, After(remote, s, before), steps[|steps| - 1], name);
    }
  }

  lemma FinishedFacts(remote: Remote, s: State, t: nat, name: string)
    requires Inv(remote, s) && t in s.tasks && s.tasks[t].at.Finished? && name in s.tasks[t].asked && Final(name)
    ensures name in s.entries && Published(remote, name, s.entries[name])
  {
    hide Inv, IsTmp, Local, Addressable, FillOk, LocksOk, LockedOk, Published;
    InvFacts(remote, s, t);
  }

  /** A call that has returned without error leaves every name it was asked for complete on disk. */
  lemma FinishedHasAll(remote: Remote, pid: nat, steps: seq<Step>, t: nat, name: string)
    requires SoundRun(steps)
    requires var s := After(remote, Boot(pid), steps);
             t in s.tasks && s.tasks[t].at.Finished? && name in s.tasks[t].asked && Final(name)
    ensures var s := After(remote, Boot(pid), steps);
            name in s.entries && Published(remote, name, s.entries[name])
  {
    hide After, Inv, Published;
    InvBoot(remote, pid);
    InvAfter(remote, Boot(pid), steps);
    FinishedFacts(remote, After(remote, Boot(pid), steps), t, name);
  }

  lemma RunKeepsAsked(remote: Remote, s: State, t: nat, luck: Luck)
    requires t in s.tasks
    ensures SameAsked(s.tasks, RunTask(remote, s, t, luck).tasks)
  {
    hide Fill, SameAsked;
    if Filling(s.tasks[t].at) && s.tasks[t].todo != [] {
      FillSpares(remote, s, t, luck, "");
    } else if !Filling(s.tasks[t].at) {
      ControlKeepsDisk(remote, s, t, luck);
    } else {
      MovesKeep(s, t, Finished);
    }
  }

  //////////////////////////////////////////////////////////////////////////////
  // A fetch that nothing disturbs
  //////////////////////////////////////////////////////////////////////////////

  /** Task `t` takes `k` steps, and the disk obeys. */
  function Solo(remote: Remote, s: State, t: nat, k: nat): State {
    if k == 0 then s else Do(remote, Solo(remote, s, t, k - 1), Run(t, Fine))
  }

  /** `s` with task `t` at some place and some directory under the temporary name of what it is at work on. */
  function Midway(s: State, t: nat, fs: Fs, at: Place): State
    requires t in s.tasks && s.tasks[t].todo != []
  {
    s.(tasks := s.tasks[t := s.tasks[t].(at := at)], entries := s.entries[TmpName(s.tasks[t].todo[0], s.pid) := fs])
  }

  lemma MidwayMoves(s: State, t: nat, fs: Fs, at: Place, fs': Fs, at': Place)
    requires t in s.tasks && s.tasks[t].todo != []
    ensures var m := Midway(s, t, fs, at);
            && m.pid == s.pid && t in m.tasks && m.tasks[t].todo == s.tasks[t].todo && m.tasks[t].at == at
            && TmpName(s.tasks[t].todo[0], s.pid) in m.entries && m.entries[TmpName(s.tasks[t].todo[0], s.pid)] == fs
            && Move(m, t, at') == Midway(s, t, fs, at')
            && Move(m.(entries := m.entries[TmpName(s.tasks[t].todo[0], s.pid) := fs']), t, at')
            == Midway(s, t, fs', at')
  {
    hide TmpName;
    var tmp := TmpName(s.tasks[t].todo[0], s.pid);
    assert s.entries[tmp := fs][tmp := fs'] == s.entries[tmp := fs'];
    assert s.tasks[t := s.tasks[t].(at := at)][t := s.tasks[t].(at := at')] == s.tasks[t := s.tasks[t].(at := at')];
  }

  lemma ExtractOne(remote: Remote, s: State, t: nat, fs: Fs, lock: nat, node: Node, made: nat)
    requires t in s.tasks && s.tasks[t].todo != [] && made < |Plan(node, [])| && Apply(fs, Plan(node, [])[made]).Some?
    ensures Do(remote, Midway(s, t, fs, Extracting(lock, node, made)), Run(t, Fine))
         == Midway(s, t, Apply(fs, Plan(node, [])[made]).value, Extracting(lock, node, made + 1))
  {
    hide Midway, Move, Apply, Plan, TmpName, Verified, Payload, Abandon, Advance, Remove;
    MidwayMoves(s, t, fs, Extracting(lock, node, made), Apply(fs, Plan(node, [])[made]).value,
        Extracting(lock, node, made + 1));
  }

  lemma {:induction false} SoloExtraction(remote: Remote, s: State, t: nat, fs: Fs, lock: nat, node: Node, made: nat)
    requires t in s.tasks && s.tasks[t].todo != [] && made <= |Plan(node, [])|
    requires ApplyAll(fs, Plan(node, [])[..made]).Some?
    ensures Solo(remote, Midway(s, t, fs, Extracting(lock, node, 0)), t, made)
         == Midway(s, t, ApplyAll(fs, Plan(node, [])[..made]).value, Extracting(lock, node, made))
  {
    hide Midway, Do, Apply, Plan;
    if made > 0 {
      var ops := Plan(node, []);
      assert ops[..made] == ops[..made - 1] + [ops[made - 1]];
      ApplyAllAppend(fs, ops[..made - 1], [ops[made - 1]]);
      var before := ApplyAll(fs, ops[..made - 1]).value;
      assert ApplyAll(before, [ops[made - 1]]) == Apply(before, ops[made - 1]);
      SoloExtraction(remote, s, t, fs, lock, node, made - 1);
      ExtractOne(remote, s, t, before, lock, node, made - 1);
    }
  }

  lemma {:induction false} SoloAppend(remote: Remote, s: State, t: nat, a: nat, b: nat)
    ensures Solo(remote, s, t, a + b) == Solo(remote, Solo(remote, s, t, a), t, b)
  {
    hide Do;
    if b > 0 {
      SoloAppend(remote, s, t, a, b - 1);
    }
  }

  lemma SoloDownload(remote: Remote, s: State, t: nat, name: string)
    requires t in s.tasks && s.tasks[t].at.Holding? && s.tasks[t].todo != [] && s.tasks[t].todo[0] == name
    requires Local(name) && name !in s.entries && Payload(remote, name).Ok?
    ensures Solo(remote, s, t, 2)
         == Midway(s.(downloads := s.downloads + [name]), t, Leftover(s.entries, TmpName(name, s.pid)),
             Parsing(s.tasks[t].at.lock))
  {
    hide Payload, Verified, TmpName, Plan, Apply, Abandon, Advance, Remove;
    var lock, tmp := s.tasks[t].at.lock, TmpName(name, s.pid);
    var h := s.(downloads := s.downloads + [name]);
    var s1 := Do(remote, s, Run(t, Fine));
    assert s1 == Move(h, t, Downloading(lock));
    assert Solo(remote, s, t, 1) == s1 by { hide Do; }
    assert h.tasks[t := h.tasks[t].(at := Downloading(lock))][t := h.tasks[t].(at := Parsing(lock))]
        == h.tasks[t := h.tasks[t].(at := Parsing(lock))];
    assert tmp in s.entries ==> s.entries[tmp := s.entries[tmp]] == s.entries;
  }

  /** From the second check to the first call of the extraction. */
  lemma SoloStart(remote: Remote, s: State, t: nat, name: string)
    requires t in s.tasks && s.tasks[t].at.Holding? && s.tasks[t].todo != [] && s.tasks[t].todo[0] == name
    requires Local(name) && name !in s.entries && Verified(remote, name).Ok?
    ensures Solo(remote, s, t, 3)
         == Midway(s.(downloads := s.downloads + [name]), t, Leftover(s.entries, TmpName(name, s.pid)),
                   Extracting(s.tasks[t].at.lock, Verified(remote, name).value, 0))
  {
    hide Payload, CheckedTree, TmpName, Plan, Apply, Abandon, Advance, Remove, Move, Midway, Leftover;
    var lock, left := s.tasks[t].at.lock, Leftover(s.entries, TmpName(name, s.pid));
    var h := s.(downloads := s.downloads + [name]);
    SoloDownload(remote, s, t, name);
    assert Solo(remote, s, t, 3) == Do(remote, Solo(remote, s, t, 2), Run(t, Fine)) by { hide Do; }
    MidwayMoves(h, t, left, Parsing(lock), left, Extracting(lock, Verified(remote, name).value, 0));
  }

  /** From the last call of the extraction to the final name. */
  lemma SoloEnd(remote: Remote, s: State, t: nat, fs: Fs, lock: nat, node: Node)
    requires t in s.tasks && s.tasks[t].todo != [] && s.tasks[t].todo[0] !in s.entries
    ensures var after := Solo(remote, Midway(s, t, fs, Extracting(lock, node, |Plan(node, [])|)), t, 2);
            && after.entries == (s.entries - {TmpName(s.tasks[t].todo[0], s.pid)})[s.tasks[t].todo[0] := fs]
            && after.downloads == s.downloads
            && after.tasks == s.tasks[t := s.tasks[t].(at := Checking, todo := s.tasks[t].todo[1..])]
            && lock !in after.held
  {
    hide Payload, Verified, TmpName, Plan, Apply, Abandon, Remove;
    var name := s.tasks[t].todo[0];
    var tmp := TmpName(name, s.pid);
    var m := Midway(s, t, fs, Extracting(lock, node, |Plan(node, [])|));
    MidwayMoves(s, t, fs, Extracting(lock, node, |Plan(node, [])|), fs, Renaming(lock, node));
    var s1 := Do(remote, m, Run(t, Fine));
    assert s1 == Midway(s, t, fs, Renaming(lock, node)) by { hide Midway, Move; }
    assert Solo(remote, m, t, 1) == s1 by { hide Do; }
    assert Solo(remote, m, t, 2) == Do(remote, s1, Run(t, Fine)) by { hide Do; }
    TmpNameShape(name, s.pid);
    assert s.entries[tmp := fs] - {tmp} == s.entries - {tmp};
  }

  /** A call of the extraction that fails ends the task. */
  lemma SoloStops(remote: Remote, s: State, t: nat, fs: Fs, lock: nat, node: Node, made: nat)
    requires t in s.tasks && s.tasks[t].todo != [] && s.tasks[t].todo[0] !in s.entries
    requires made < |Plan(node, [])| && Apply(fs, Plan(node, [])[made]).None?
    ensures var after := Do(remote, Midway(s, t, fs, Extracting(lock, node, made)), Run(t, Fine));
            && s.tasks[t].todo[0] !in after.entries && t in after.tasks && after.tasks[t].at.Failed?
                && lock !in after.held
  {
    hide Payload, Verified, TmpName, Plan, Apply, Advance, Remove, Move;
    var m := Midway(s, t, fs, Extracting(lock, node, made));
    var tmp := TmpName(s.tasks[t].todo[0], s.pid);
    TmpNameShape(s.tasks[t].todo[0], s.pid);
    MidwayMoves(s, t, fs, Extracting(lock, node, made), fs, Failed);
    hide Midway;
    var op := Plan(node, [])[made];
    assert Do(remote, m, Run(t, Fine)) == Abandon(m.(entries := m.entries[tmp := Tear(fs, op, Fine)]), t);
    AbandonEnds(m.(entries := m.entries[tmp := Tear(fs, op, Fine)]), t, lock);
    MidwayLacks(s, t, fs, Extracting(lock, node, made));
  }

  lemma MidwayLacks(s: State, t: nat, fs: Fs, at: Place)
    requires t in s.tasks && s.tasks[t].todo != [] && s.tasks[t].todo[0] !in s.entries
    ensures s.tasks[t].todo[0] !in Midway(s, t, fs, at).entries
  {
    TmpNameShape(s.tasks[t].todo[0], s.pid);
  }

  lemma AbandonEnds(s: State, t: nat, lock: nat)
    requires t in s.tasks && Critical(s.tasks[t].at) && Lock(s.tasks[t].at) == Some(lock)
    ensures var after := Abandon(s, t);
            after.entries == s.entries && t in after.tasks && after.tasks[t].at.Failed? && lock !in after.held
  {
  }

  lemma {:induction false} SoloStays(remote: Remote, s: State, t: nat, k: nat)
    requires t in s.tasks && s.tasks[t].at.Failed?
    ensures Solo(remote, s, t, k) == s
  {
    if k > 0 {
      SoloStays(remote, s, t, k - 1);
      hide Fill;
    }
  }

  /** The first call that fails. */
  lemma {:induction false} FirstFailure(fs: Fs, ops: seq<Op>, n: nat) returns (made: nat)
    requires n <= |ops| && ApplyAll(fs, ops[..n]).None?
    ensures made < n && ApplyAll(fs, ops[..made]).Some? && Apply(ApplyAll(fs, ops[..made]).value, ops[made]).None?
  {
    hide Apply;
    if n == 0 {
      assert false;
    } else {
      ApplyAllLast(fs, ops, n);
      if ApplyAll(fs, ops[..n - 1]).Some? {
        made := n - 1;
      } else {
        made := FirstFailure(fs, ops, n - 1);
      }
    }
  }

  ghost predicate CanPublish(remote: Remote, s: State, name: string) {
    Cacheable(remote, name) && NoLinks(Leftover(s.entries, TmpName(name, s.pid)))
  }

  lemma InvLeftover(remote: Remote, s: State, name: string)
    requires Inv(remote, s)
    ensures PartOf(Leftover(s.entries, TmpName(name, s.pid)), Goal(remote, name))
  {
    hide PartOf, Goal, TaskOk, LocksOk, Published, TmpName, IsTmp, Local, Addressable;
    GoalHolds(remote, name);
  }

  lemma VerifiedIsLocal(remote: Remote, s: State, t: nat)
    requires Inv(remote, s) && t in s.tasks && Lock(s.tasks[t].at).Some?
    ensures s.tasks[t].todo != [] && (Verified(remote, s.tasks[t].todo[0]).Ok? ==> Local(s.tasks[t].todo[0]))
  {
    hide Inv, Local, Payload, CheckedTree;
    FirstName(remote, s, t);
    if Verified(remote, s.tasks[t].todo[0]).Ok? {
      PayloadNamesAreBasenames(remote, s.tasks[t].todo[0]);
    }
  }

  lemma SoloSucceeds(remote: Remote, s: State, t: nat)
    requires Inv(remote, s) && t in s.tasks && s.tasks[t].at.Holding? && s.tasks[t].todo != []
    requires s.tasks[t].todo[0] !in s.entries && CanPublish(remote, s, s.tasks[t].todo[0])
    ensures var name := s.tasks[t].todo[0];
            var node := Verified(remote, name).value;
            var after := Solo(remote, s, t, |Plan(node, [])| + 5);
            && after.entries == (s.entries - {TmpName(name, s.pid)})[name := OnDisk(node)]
            && after.downloads == s.downloads + [name]
            && after.tasks == s.tasks[t := s.tasks[t].(at := Checking, todo := s.tasks[t].todo[1..])]
            && s.tasks[t].at.lock !in after.held
  {
    hide Inv, Verified, OnDisk, Plan, Do, TmpName, WellFormed, ApplyAll, Writable, NoLinks, Leftover, PartOf;
    var name, lock := s.tasks[t].todo[0], s.tasks[t].at.lock;
    var node, left := Verified(remote, name).value, Leftover(s.entries, TmpName(name, s.pid));
    var h := s.(downloads := s.downloads + [name]);
    var ops := Plan(node, []);
    VerifiedWellFormed(remote, name);
    InvLeftover(remote, s, name);
    ExtractOverLeftover(left, node);
    hide Goal;
    assert ops[..|ops|] == ops;
    VerifiedIsLocal(remote, s, t);
    SoloStart(remote, s, t, name);
    SoloExtraction(remote, h, t, left, lock, node, |ops|);
    SoloEnd(remote, h, t, OnDisk(node), lock, node);
    SoloAppend(remote, s, t, 3, |ops|);
    SoloAppend(remote, s, t, 3 + |ops|, 2);
    hide Solo, Midway;
  }

  lemma SoloFails(remote: Remote, s: State, t: nat)
    requires Inv(remote, s) && t in s.tasks && s.tasks[t].at.Holding? && s.tasks[t].todo != []
    requires s.tasks[t].todo[0] !in s.entries && Verified(remote, s.tasks[t].todo[0]).Ok?
    requires !CanPublish(remote, s, s.tasks[t].todo[0])
    ensures var name := s.tasks[t].todo[0];
            var after := Solo(remote, s, t, |Plan(Verified(remote, name).value, [])| + 5);
            name !in after.entries && t in after.tasks && after.tasks[t].at.Failed? && s.tasks[t].at.lock !in after.held
  {
    hide Inv, Verified, OnDisk, Plan, Do, TmpName, WellFormed, Writable, NoLinks, Leftover, PartOf, Extract, Apply,
        Goal;
    var name, lock := s.tasks[t].todo[0], s.tasks[t].at.lock;
    var node, left := Verified(remote, name).value, Leftover(s.entries, TmpName(name, s.pid));
    var h := s.(downloads := s.downloads + [name]);
    var ops := Plan(node, []);
    FailingPlan(remote, s, name);
    hide ApplyAll;
    assert ops[..|ops|] == ops;
    var made := FirstFailure(left, ops, |ops|);
    VerifiedIsLocal(remote, s, t);
    SoloStart(remote, s, t, name);
    SoloExtraction(remote, h, t, left, lock, node, made);
    SoloAppend(remote, s, t, 3, made);
    var fs := ApplyAll(left, ops[..made]).value;
    SoloStops(remote, h, t, fs, lock, node, made);
    var stopped := Solo(remote, s, t, made + 4);
    assert stopped == Do(remote, Midway(h, t, fs, Extracting(lock, node, made)), Run(t, Fine)) by { hide Midway; }
    SoloAppend(remote, s, t, made + 4, |ops| + 1 - made);
    SoloStays(remote, stopped, t, |ops| + 1 - made);
    hide Solo, Midway;
  }

  lemma FailingPlan(remote: Remote, s: State, name: string)
    requires Inv(remote, s) && Verified(remote, name).Ok? && !CanPublish(remote, s, name)
    ensures ApplyAll(Leftover(s.entries, TmpName(name, s.pid)), Plan(Verified(remote, name).value, [])).None?
  {
    hide Inv, Verified, OnDisk, Plan, WellFormed, Writable, NoLinks, Leftover, Extract, ApplyAll;
    var node, left := Verified(remote, name).value, Leftover(s.entries, TmpName(name, s.pid));
    VerifiedWellFormed(remote, name);
    InvLeftover(remote, s, name);
    LeftoverExtraction(remote, name, left);
    PlanIsExtract(left, node, []);
  }

  /** A task that has the lock of a missing name, and is left alone, takes one call of the file system for each file,
      link and directory of the tree and five steps around them; then the name is published, exactly when it can be
      cached and no link is left over from an earlier attempt, and otherwise the task has failed. */
  lemma UndisturbedFetchPublishes(remote: Remote, s: State, t: nat)
    requires Inv(remote, s) && t in s.tasks && s.tasks[t].at.Holding? && s.tasks[t].todo != []
    requires s.tasks[t].todo[0] !in s.entries && Verified(remote, s.tasks[t].todo[0]).Ok?
    ensures var name := s.tasks[t].todo[0];
            var node := Verified(remote, name).value;
            var after := Solo(remote, s, t, |Plan(node, [])| + 5);
            && (name in after.entries <==> CanPublish(remote, s, name))
            && (name in after.entries ==>
                  && after.entries == (s.entries - {TmpName(name, s.pid)})[name := OnDisk(node)]
                  && after.tasks == s.tasks[t := s.tasks[t].(at := Checking, todo := s.tasks[t].todo[1..])])
            && (name !in after.entries ==> t in after.tasks && after.tasks[t].at.Failed?)
            && s.tasks[t].at.lock !in after.held
  {
    hide Inv, Verified, OnDisk, Plan, Solo, TmpName, Writable, NoLinks, Leftover;
    if CanPublish(remote, s, s.tasks[t].todo[0]) {
      SoloSucceeds(remote, s, t);
    } else {
      SoloFails(remote, s, t);
    }
  }

  //////////////////////////////////////////////////////////////////////////////
  // A link left behind
  //////////////////////////////////////////////////////////////////////////////

  predicate LinkLeft(entries: Entries, name: string, pid: nat, q: Path) {
    var tmp := TmpName(name, pid);
    name !in entries && tmp in entries && q in entries[tmp] && entries[tmp][q].Link?
  }

  /** A task at work on `name` still has the link at `q` ahead of it. */
  ghost predicate Blocked(task: Task, name: string, q: Path) {
    task.todo != [] && task.todo[0] == name ==>
      && !task.at.Renaming?
      && (task.at.Extracting? ==> exists i :: task.at.made <= i < |Plan(task.at.node, [])|
                                              && Plan(task.at.node, [])[i].path == q
                                                  && Plan(task.at.node, [])[i].PutLink?)
  }

  /** A link is left under the temporary name, and no task has got past it. */
  ghost predicate Stuck(s: State, name: string, q: Path) {
    && s.serving && Final(name) && LinkLeft(s.entries, name, s.pid, q)
    && forall t :: t in s.tasks ==> Blocked(s.tasks[t], name, q)
  }

  lemma StuckAfter(s: State, s1: State, t: nat, task: Task, name: string, q: Path)
    requires Stuck(s, name, q) && s1.serving && s1.pid == s.pid && s1.tasks == s.tasks[t := task]
    requires LinkLeft(s1.entries, name, s.pid, q) && Blocked(task, name, q)
    ensures Stuck(s1, name, q)
  {
    hide Blocked, LinkLeft, IsTmp, Local, Addressable;
  }

  /** Where the moves of a task leave it. */
  lemma MovesTask(s: State, t: nat, at: Place)
    requires t in s.tasks
    ensures var m := Move(s, t, at);
            m.tasks == s.tasks[t := s.tasks[t].(at := at)] && m.entries == s.entries && m.pid == s.pid
                && m.serving == s.serving
    ensures var m := Abandon(s, t);
            m.tasks == s.tasks[t := s.tasks[t].(at := Failed)] && m.entries == s.entries && m.pid == s.pid
                && m.serving == s.serving
    ensures s.tasks[t].todo != [] ==>
              var m := Advance(s, t);
              && m.tasks == s.tasks[t := s.tasks[t].(at := Checking, todo := s.tasks[t].todo[1..])]
              && m.entries == s.entries && m.pid == s.pid && m.serving == s.serving
  {
    hide Release;
    ReleaseKeeps(s, t);
  }

  /** Wherever a task stands short of extracting, or with other names to do, it is blocked. */
  lemma StuckMoves(s: State, s1: State, t: nat, at: Place, name: string, q: Path)
    requires Stuck(s, name, q) && t in s.tasks && s1.serving && s1.pid == s.pid && s1.tasks == s.tasks
    requires LinkLeft(s1.entries, name, s.pid, q)
    ensures Blocked(s.tasks[t].(at := at), name, q) ==> Stuck(Move(s1, t, at), name, q)
    ensures Stuck(Abandon(s1, t), name, q)
    ensures s.tasks[t].todo != [] ==> Stuck(Advance(s1, t), name, q)
  {
    hide Stuck, LinkLeft, Move, Abandon, Advance, Plan;
    MovesTask(s1, t, at);
    if Blocked(s.tasks[t].(at := at), name, q) {
      StuckAfter(s, Move(s1, t, at), t, s.tasks[t].(at := at), name, q);
    }
    StuckAfter(s, Abandon(s1, t), t, s.tasks[t].(at := Failed), name, q);
    if s.tasks[t].todo != [] {
      StuckAfter(s, Advance(s1, t), t, s.tasks[t].(at := Checking, todo := s.tasks[t].todo[1..]), name, q);
    }
  }

  /** A link in a part of the goal is a link of the verified tree. */
  lemma LinkIsPlanned(remote: Remote, s: State, name: string, q: Path) returns (i: nat)
    requires Inv(remote, s) && LinkLeft(s.entries, name, s.pid, q)
    ensures Verified(remote, name).Ok? && Verified(remote, name).value.Directory?
    ensures var ops := Plan(Verified(remote, name).value, []); i < |ops| && ops[i].path == q && ops[i].PutLink?
  {
    hide Inv, Verified, Plan, OnDisk, WellFormed, TmpName;
    InvDisk(remote, s);
    TmpIsPart(remote, s.entries, name, s.pid);
    VerifiedWellFormed(remote, name);
    var node := Verified(remote, name).value;
    i := OnDiskPaths(node, q);
    PlanFits(node, i);
  }

  lemma StuckControl(remote: Remote, s: State, t: nat, luck: Luck, name: string, q: Path)
    requires Stuck(s, name, q) && t in s.tasks && !Filling(s.tasks[t].at)
    ensures Stuck(RunTask(remote, s, t, luck), name, q)
  {
    hide Fill, Move, Abandon, Advance, LinkLeft, Plan, IsTmp, Local, Addressable;
    var task := s.tasks[t];
    assert s.serving && LinkLeft(s.entries, name, s.pid, q);
    hide Stuck;
    if task.todo == [] {
      StuckMoves(s, s, t, Finished, name, q);
    } else {
      var first := task.todo[0];
      match task.at
      case Checking =>
        var s1 := if first in s.locks then s else s.(locks := s.locks[first := s.nextLock], nextLock := s.nextLock + 1);
        StuckMoves(s, s1, t, Waiting(s1.locks[first]), name, q);
        StuckMoves(s, s, t, Checking, name, q);
      case Waiting(lock) => StuckMoves(s, s.(held := s.held[lock := t]), t, Holding(lock), name, q);
      case Holding(lock) =>
        StuckMoves(s, s, t, Checking, name, q);
        StuckMoves(s, s.(downloads := s.downloads + [first]), t, Downloading(lock), name, q);
      case _ =>
    }
  }

  /** Work on another name leaves the link alone. */
  lemma OtherNameSparesLink(entries: Entries, first: string, fs: Fs, luck: Luck, pid: nat, name: string, q: Path)
    requires LinkLeft(entries, name, pid, q) && first != name && !IsTmp(first) && !IsTmp(name)
    ensures LinkLeft(entries[TmpName(first, pid) := fs], name, pid, q)
    ensures LinkLeft(Remove(entries, TmpName(first, pid), luck), name, pid, q)
    ensures LinkLeft((entries - {TmpName(first, pid)})[first := fs], name, pid, q)
  {
    hide TmpName, IsTmp, Local, Addressable;
    TmpNameShape(first, pid);
    TmpNameShape(name, pid);
    if TmpName(first, pid) == TmpName(name, pid) {
      TmpNameInjective(first, pid, name, pid);
    }
  }

  lemma StuckOtherName(remote: Remote, s: State, t: nat, luck: Luck, name: string, q: Path)
    requires Inv(remote, s) && Stuck(s, name, q) && t in s.tasks && Filling(s.tasks[t].at)
    requires s.tasks[t].todo != [] && s.tasks[t].todo[0] != name
    ensures Fill(remote, s, t, luck).serving ==> Stuck(Fill(remote, s, t, luck), name, q)
  {
    hide Inv, TmpName, Verified, Payload, Plan, Apply, Tear, Remove, CanReplace, Move, Abandon, Advance, LinkLeft,
        IsTmp, Local, Addressable;
    var first := s.tasks[t].todo[0];
    var tmp := TmpName(first, s.pid);
    assert s.serving && LinkLeft(s.entries, name, s.pid, q) && Final(name);
    assert s.(entries := s.entries) == s;
    hide Stuck;
    FirstName(remote, s, t);
    if Final(first) {
      OtherNameSparesLink(s.entries, first, EMPTY_ROOT, luck, s.pid, name, q);
    }
    match s.tasks[t].at
    case Downloading(lock) =>
      StuckMoves(s, s, t, Parsing(lock), name, q);
      if Payload(remote, first).Ok? {
        StuckMoves(s, s.(entries := s.entries[tmp := EMPTY_ROOT]), t, Parsing(lock), name, q);
      }
    case Parsing(lock) =>
      StuckMoves(s, s.(entries := Remove(s.entries, tmp, luck)), t, Checking, name, q);
      if Verified(remote, first).Ok? {
        StuckMoves(s, s, t, Extracting(lock, Verified(remote, first).value, 0), name, q);
      }
    case Extracting(lock, node, made) =>
      StuckMoves(s, s, t, Renaming(lock, node), name, q);
      if tmp in s.entries && made < |Plan(node, [])| {
        var op := Plan(node, [])[made];
        var next := Apply(s.entries[tmp], op);
        var written := if luck.Broken? || next.None? then Tear(s.entries[tmp], op, luck) else next.value;
        OtherNameSparesLink(s.entries, first, written, luck, s.pid, name, q);
        StuckMoves(s, s.(entries := s.entries[tmp := written]), t, Extracting(lock, node, made + 1), name, q);
      }
    case Renaming(lock, node) =>
      StuckMoves(s, s.(entries := Remove(s.entries, tmp, luck)), t, Checking, name, q);
      if tmp in s.entries {
        OtherNameSparesLink(s.entries, first, s.entries[tmp], luck, s.pid, name, q);
        StuckMoves(s, s.(entries := (s.entries - {tmp})[first := s.entries[tmp]]), t, Checking, name, q);
      }
  }

  /** A call at another path keeps the link; the call for the link itself fails and changes nothing. */
  lemma CallSparesLink(fs: Fs, ops: seq<Op>, made: nat, i: nat, luck: Luck)
    requires made <= i < |ops| && ops[i].PutLink? && ops[i].path in fs && fs[ops[i].path].Link?
    requires made < i ==> ops[made].path != ops[i].path
    ensures made == i ==> Apply(fs, ops[made]).None?
    ensures var torn := Tear(fs, ops[made], luck); ops[i].path in torn && torn[ops[i].path].Link?
    ensures Apply(fs, ops[made]).Some? ==>
              var next := Apply(fs, ops[made]).value; ops[i].path in next && next[ops[i].path].Link?
  {
  }

  lemma StuckExtracting(remote: Remote, s: State, t: nat, luck: Luck, name: string, q: Path)
    requires Inv(remote, s) && Stuck(s, name, q) && t in s.tasks && s.tasks[t].at.Extracting?
    requires s.tasks[t].todo != [] && s.tasks[t].todo[0] == name
    ensures Stuck(Fill(remote, s, t, luck), name, q)
  {
    hide Inv, TmpName, Verified, Plan, Apply, Tear, Move, Abandon, IsTmp, Local, Addressable, WellFormed, DiskOk,
        LocksOk, NamesOk, LockedOk, Goal,
      DoneUpTo, LinksWritable, Cacheable;
    var Extracting(lock, node, made) := s.tasks[t].at;
    var tmp, ops := TmpName(name, s.pid), Plan(node, []);
    assert Blocked(s.tasks[t], name, q);
    var i :| made <= i < |ops| && ops[i].path == q && ops[i].PutLink?;
    InvFacts(remote, s, t);
    VerifiedWellFormed(remote, name);
    if made < i {
      PlanDistinct(node, [], made, i);
    }
    var fs, op := s.entries[tmp], ops[made];
    CallSparesLink(fs, ops, made, i, luck);
    var next := Apply(fs, op);
    var written := if luck.Broken? || next.None? then Tear(fs, op, luck) else next.value;
    var s1 := s.(entries := s.entries[tmp := written]);
    TmpNameShape(name, s.pid);
    assert LinkLeft(s1.entries, name, s.pid, q);
    if next.Some? {
      assert Blocked(s.tasks[t].(at := Extracting(lock, node, made + 1)), name, q);
    }
    hide Stuck, LinkLeft, Blocked;
    StuckMoves(s, s1, t, Extracting(lock, node, made + 1), name, q);
  }

  lemma StuckSameName(remote: Remote, s: State, t: nat, luck: Luck, name: string, q: Path)
    requires Inv(remote, s) && Stuck(s, name, q) && t in s.tasks && Filling(s.tasks[t].at)
    requires s.tasks[t].todo != [] && s.tasks[t].todo[0] == name
    ensures Fill(remote, s, t, luck).serving ==> Stuck(Fill(remote, s, t, luck), name, q)
  {
    hide Inv, TmpName, Verified, Payload, Plan, Apply, Tear, Remove, CanReplace, Move, Abandon, Advance, IsTmp, Local,
        Addressable;
    assert Blocked(s.tasks[t], name, q);
    assert s.serving && LinkLeft(s.entries, name, s.pid, q);
    assert s.(entries := s.entries) == s && TmpName(name, s.pid) in s.entries;
    hide Stuck, LinkLeft;
    match s.tasks[t].at
    case Downloading(lock) => StuckMoves(s, s, t, Parsing(lock), name, q);
    case Parsing(lock) =>
      var i := LinkIsPlanned(remote, s, name, q);
      StuckMoves(s, s, t, Extracting(lock, Verified(remote, name).value, 0), name, q);
    case Extracting(_, _, _) => StuckExtracting(remote, s, t, luck, name, q);
  }

  /** While the service is up, a link left behind stays, and the name does not appear. */
  lemma StuckStep(remote: Remote, s: State, step: Step, name: string, q: Path)
    requires Inv(remote, s) && Stuck(s, name, q) && Do(remote, s, step).serving
    ensures Stuck(Do(remote, s, step), name, q)
  {
    match step
    case Run(t, luck) =>
      hide Inv, Stuck, Fill, Move, Advance;
      if t in s.tasks {
        if !Filling(s.tasks[t].at) {
          StuckControl(remote, s, t, luck, name, q);
        } else {
          FirstName(remote, s, t);
          if s.tasks[t].todo[0] == name {
            StuckSameName(remote, s, t, luck, name, q);
          } else {
            StuckOtherName(remote, s, t, luck, name, q);
          }
        }
      }
    case Cancel(t) =>
      hide Inv, LinkLeft, Blocked, IsTmp, Local, Addressable, Release;
      if t in s.tasks {
        ReleaseKeeps(s, t);
      }
    case Spawn(_, _) => hide Inv, LinkLeft, IsTmp, Local, Plan;
    case _ => hide Inv, LinkLeft, Blocked, IsTmp;
  }

  /** The service is up all the way: no crash, and no request that aborts it. */
  predicate StaysUp(remote: Remote, s: State, steps: seq<Step>) {
    steps == [] || (StaysUp(remote, s, steps[..|steps| - 1]) && After(remote, s, steps).serving)
  }

  /** One extraction that failed after writing a link keeps its name from being cached until the service restarts:
      whoever asks for it, and however the disk behaves. */
  lemma {:induction false} StuckUntilRestart(remote: Remote, s: State, steps: seq<Step>, name: string, q: Path)
    requires Inv(remote, s) && SoundRun(steps) && Stuck(s, name, q) && StaysUp(remote, s, steps)
    ensures Stuck(After(remote, s, steps), name, q) && name !in After(remote, s, steps).entries
  {
    hide Inv, Do, Stuck;
    if steps != [] {
      var before := steps[..|steps| - 1];
      InvAfter(remote, s, before);
      StuckUntilRestart(remote, s, before, name, q);
      StuckStep(remote, After(remote, s, before), steps[|steps| - 1], name, q);
    }
    StuckLacks(After(remote, s, steps), name, q);
  }

  lemma StuckLacks(s: State, name: string, q: Path)
    requires Stuck(s, name, q)
    ensures name !in s.entries
  {
  }

  //////////////////////////////////////////////////////////////////////////////
  // Such a run
  //////////////////////////////////////////////////////////////////////////////

  lemma {:induction false} SoloIsRun(remote: Remote, s: State, steps: seq<Step>, t: nat,
      k: nat) returns (more: seq<Step>)
    requires SoundRun(steps)
    ensures SoundRun(more)
    ensures After(remote, s, more) == Solo(remote, After(remote, s, steps), t, k)
  {
    hide Do;
    if k == 0 {
      more := steps;
    } else {
      var before := SoloIsRun(remote, s, steps, t, k - 1);
      more := before + [Run(t, Fine)];
      assert more[..|more| - 1] == before;
    }
  }

  /** A lone task, from the start of the service to the lock of its name. */
  lemma FirstTask(remote: Remote, pid: nat, name: string) returns (steps: seq<Step>)
    requires Final(name)
    ensures SoundRun(steps)
    ensures After(remote, Boot(pid), steps) == 
            State(pid, true, map[], {}, map[name := 0], 1, map[0 := 0], map[0 := Task([name], [name], Holding(0))], [])
  {
    hide Fill;
    var s0 := Boot(pid);
    steps := [Serve, Spawn(0, [name]), Run(0, Fine), Run(0, Fine)];
    var s1 := Do(remote, s0, Serve);
    var s2 := Do(remote, s1, Spawn(0, [name]));
    assert s2.tasks == map[0 := Task([name], [name], Checking)];
    var s3 := Do(remote, s2, Run(0, Fine));
    assert s3.tasks == map[0 := Task([name], [name], Waiting(0))] && s3.locks == map[name := 0];
    var s4 := Do(remote, s3, Run(0, Fine));
    assert s4.tasks == map[0 := Task([name], [name], Holding(0))] && s4.held == map[0 := 0];
    AfterFour(remote, s0, steps);
  }

  lemma AfterFour(remote: Remote, s: State, steps: seq<Step>)
    requires |steps| == 4
    ensures After(remote, s, steps)
         == Do(remote, Do(remote, Do(remote, Do(remote, s, steps[0]), steps[1]), steps[2]), steps[3])
  {
    hide Do;
    assert steps[..3][..2] == steps[..2] && steps[..2][..1] == steps[..1] && steps[..1][..0] == [];
    assert After(remote, s, steps[..1]) == Do(remote, s, steps[0]);
    assert After(remote, s, steps[..2]) == Do(remote, After(remote, s, steps[..1]), steps[1]);
    assert After(remote, s, steps[..3]) == Do(remote, After(remote, s, steps[..2]), steps[2]);
  }

  /** The disk fails on the call after the link. */
  lemma FailAfterLink(remote: Remote, s: State, name: string, fs: Fs, node: Node, i: nat)
    requires s.serving && s.tasks == map[0 := Task([name], [name], Holding(0))] && name !in s.entries && Final(name)
    requires i + 1 < |Plan(node, [])| && Plan(node, [])[i].path in fs && fs[Plan(node, [])[i].path].Link?
    requires Plan(node, [])[i + 1].path != Plan(node, [])[i].path
    ensures Stuck(Do(remote, Midway(s, 0, fs, Extracting(0, node, i + 1)), Run(0, Broken(map[], {}))), name,
        Plan(node, [])[i].path)
  {
    hide Payload, Verified, TmpName, Plan, Apply, Advance, Remove, Move, IsTmp, Local, Addressable;
    var m := Midway(s, 0, fs, Extracting(0, node, i + 1));
    var op, tmp := Plan(node, [])[i + 1], TmpName(name, s.pid);
    MidwayMoves(s, 0, fs, Extracting(0, node, i + 1), fs, Failed);
    MidwayLacks(s, 0, fs, Extracting(0, node, i + 1));
    var broken := Broken(map[], {});
    var m1 := m.(entries := m.entries[tmp := Tear(fs, op, broken)]);
    assert Do(remote, m, Run(0, broken)) == Abandon(m1, 0) by { hide Midway, Abandon; }
    TmpNameShape(name, s.pid);
    assert Tear(fs, op, broken) == fs;
    assert m.tasks == map[0 := Task([name], [name], Extracting(0, node, i + 1))];
    hide Midway;
    MovesTask(m1, 0, Failed);
    assert LinkLeft(m1.entries, name, s.pid, Plan(node, [])[i].path);
  }

  /** For every cacheable name whose tree has anything after a link, some run of a new service is stuck. */
  lemma StuckIsReachable(remote: Remote, pid: nat, name: string, i: nat) returns (steps: seq<Step>)
    requires Cacheable(remote, name) && Final(name)
    requires var ops := Plan(Verified(remote, name).value, []); i + 1 < |ops| && ops[i].PutLink?
    ensures SoundRun(steps)
    ensures Stuck(After(remote, Boot(pid), steps), name, Plan(Verified(remote, name).value, [])[i].path)
  {
    hide Verified, Plan, WellFormed, Writable, OnDisk, Do, TmpName, Midway, Stuck, IsTmp, Local, Addressable;
    var node := Verified(remote, name).value;
    var ops := Plan(node, []);
    VerifiedWellFormed(remote, name);
    OnDiskHolds(node);
    PlanRuns(EMPTY_ROOT, node, i + 1);
    PlanFits(node, i);
    PlanDistinct(node, [], i, i + 1);
    var fs := ApplyAll(EMPTY_ROOT, ops[..i + 1]).value;
    assert ops[i].path in fs && fs[ops[i].path].Link?;
    hide ApplyAll, PartOf, DoneUpTo, OwnLinks;
    var first := FirstTask(remote, pid, name);
    var s := After(remote, Boot(pid), first);
    var more := SoloIsRun(remote, Boot(pid), first, 0, 3 + (i + 1));
    SoloStart(remote, s, 0, name);
    var h := s.(downloads := s.downloads + [name]);
    SoloExtraction(remote, h, 0, EMPTY_ROOT, 0, node, i + 1);
    SoloAppend(remote, s, 0, 3, i + 1);
    FailAfterLink(remote, h, name, fs, node, i);
    steps := more + [Run(0, Broken(map[], {}))];
    assert steps[..|steps| - 1] == more;
  }
}
