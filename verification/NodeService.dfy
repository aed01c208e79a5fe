/**
 The CSI node service (`node.rs`): publishing a volume fills the cache with the
 volume's closure and bind-mounts one store path; unpublishing undoes the mount.

 Here each call has the service to itself; `NodeRuns` interleaves the calls.
 */
module NodeService {
  import opened Outcomes
  import opened Sequences
  import opened Text
  import opened Fetching
  import EvalResults

  datatype Status = InvalidArgument | Unavailable | Internal

  datatype Request = Request(volumeId: string, targetPath: string, context: map<string, string>)

  /** What is mounted on a target; `closure` records the list the volume was published with. */
  datatype Mount = Mount(source: string, readOnly: bool, closure: seq<string>)

  /** The targets that are mounted and the target directories that exist. */
  datatype Table = Table(mounts: map<string, Mount>, dirs: set<string>)

  /** Which system calls go through. */
  datatype Kernel = Kernel(mkdir: bool, bind: bool, remount: bool, detach: bool, rmdir: bool)

  //////////////////////////////////////////////////////////////////////////////
  // The closure list as text
  //////////////////////////////////////////////////////////////////////////////

  function TrimmedParts(parts: seq<string>): seq<string> {
    if parts == [] then []
    else (if Trim(parts[0]) == "" then [] else [Trim(parts[0])]) + TrimmedParts(parts[1..])
  }

  function ClosureList(raw: string): seq<string> { TrimmedParts(Split(raw, ',')) }

  /** The volume attributes that the operator puts into a deployment. */
  function OperatorAttributes(closurePaths: seq<string>): map<string, string> {
    map["closurePaths" := JoinWith(closurePaths, ",")]
  }

  /** The list in the attributes is the one that a deployment is built from. */
  lemma AttributesOfDeployment(r: EvalResults.EvalResult, command: Option<seq<string>>)
    ensures OperatorAttributes(r.closurePaths) == map["closurePaths" := EvalResults.DeploymentInputs(r, command).1]
    ensures (forall i :: 0 <= i < |r.closurePaths| ==> Listable(r.closurePaths[i])) ==>
              ClosureList(EvalResults.DeploymentInputs(r, command).1) == r.closurePaths
  {
    ClosureListOfJoin(r.closurePaths);
  }

  predicate Listable(path: string) { path != "" && Trimmed(path) && ',' !in path }

  lemma {:induction false} TrimmedPartsPlain(parts: seq<string>)
    requires forall i :: 0 <= i < |parts| ==> Listable(parts[i])
    ensures TrimmedParts(parts) == parts
  {
    if parts != [] {
      TrimPlain(parts[0]);
      TrimmedPartsPlain(parts[1..]);
    }
  }

  lemma {:induction false} TrimmedPartsAreListable(parts: seq<string>, k: nat)
    requires forall i :: 0 <= i < |parts| ==> ',' !in parts[i]
    requires k < |TrimmedParts(parts)|
    ensures Listable(TrimmedParts(parts)[k])
  {
    TrimIsTrimmed(parts[0]);
    TrimmingKeepsCharacters(parts[0], ',');
    TrimmingKeepsCharacters(TrimStart(parts[0]), ',');
    var head := if Trim(parts[0]) == "" then [] else [Trim(parts[0])];
    if k >= |head| {
      TrimmedPartsAreListable(parts[1..], k - |head|);
    }
  }

  /** Splitting gives back the list that was joined exactly when each path is non-empty, has no comma and neither
      starts nor ends with white space. */
  lemma ClosureListOfJoin(paths: seq<string>)
    ensures ClosureList(JoinWith(paths, ",")) == paths <==> forall i :: 0 <= i < |paths| ==> Listable(paths[i])
  {
    var raw := JoinWith(paths, ",");
    if forall i :: 0 <= i < |paths| ==> Listable(paths[i]) {
      if paths != [] {
        SplitOfJoin(paths, ',');
        TrimmedPartsPlain(paths);
      }
    }
    forall i | 0 <= i < |Split(raw, ',')|
      ensures ',' !in Split(raw, ',')[i]
    {
      PartsHaveNoSeparator(raw, ',', i);
    }
    forall k | 0 <= k < |ClosureList(raw)|
      ensures Listable(ClosureList(raw)[k])
    {
      TrimmedPartsAreListable(Split(raw, ','), k);
    }
  }

  //////////////////////////////////////////////////////////////////////////////
  // One call
  //////////////////////////////////////////////////////////////////////////////

  datatype Admission = Refuse | AlreadyMounted | Fetch(storePath: string, closure: seq<string>)

  /** What `node_publish_volume` decides before it touches anything. */
  function Admit(table: Table, req: Request): Admission {
    if req.volumeId == "" || req.targetPath == "" then Refuse
    else if req.targetPath in table.mounts then AlreadyMounted
    else if "storePath" !in req.context || "closurePaths" !in req.context then Refuse
    else
      var closure := ClosureList(req.context["closurePaths"]);
      if closure == [] then Refuse else Fetch(req.context["storePath"], closure)
  }

  /** `cleanup_target`: a directory that is mounted on cannot be removed. */
  function Cleanup(table: Table, target: string, kernel: Kernel): Table {
    if kernel.rmdir && target !in table.mounts then table.(dirs := table.dirs - {target}) else table
  }

  /** A read-only bind mount of a source that exists is made in two calls; when the second fails, the first is undone
      if it can be. */
  function Attach(table: Table, present: bool, target: string, source: string, closure: seq<string>, kernel: Kernel)
    : (Table, Outcome<(), Status>)
  {
    if target !in table.dirs && !kernel.mkdir then (table, Err(Internal))
    else
      var made := table.(dirs := table.dirs + {target});
      if present && kernel.bind && kernel.remount
      then (made.(mounts := made.mounts[target := Mount(source, true, closure)]), Ok(()))
      else if present && kernel.bind && !kernel.detach
      then (Cleanup(made.(mounts := made.mounts[target := Mount(source, false, closure)]), target, kernel),
          Err(Internal))
      else (Cleanup(made, target, kernel), Err(Internal))
  }

  function Unpublish(table: Table, req: Request, kernel: Kernel): (Table, Outcome<(), Status>) {
    if req.volumeId == "" || req.targetPath == "" then (table, Err(InvalidArgument))
    else if req.targetPath !in table.mounts then (Cleanup(table, req.targetPath, kernel), Ok(()))
    else if !kernel.detach then (table, Err(Internal))
    else (Cleanup(table.(mounts := table.mounts - {req.targetPath}), req.targetPath, kernel), Ok(()))
  }

  /** A whole publish call with the service to itself: the cache, the table and the answer. */
  function Publish(table: Table, places: Places, dir: Place, req: Request, pid: nat, remote: Remote, kernel: Kernel)
    : (Places, Table, Outcome<(), Status>)
  {
    match Admit(table, req)
    case Refuse => (places, table, Err(InvalidArgument))
    case AlreadyMounted => (places, table, Ok(()))
    case Fetch(storePath, closure) =>
      var (cached, r) := EnsureAll(places, dir, closure, pid, remote);
      if r.Panic? then (cached, table, Panic)
      else if r.Err? then (cached, table, Err(Unavailable))
      else
        var source := StripStore(storePath);
        var (after, answer) := Attach(table, Found(cached, dir, source), req.targetPath, source, closure, kernel);
        (cached, after, answer)
  }

  class Server {
    const cache: NarCache
    var table: Table

    constructor (cache: NarCache, table: Table)
      ensures this.cache == cache && this.table == table
    {
      this.cache := cache;
      this.table := table;
    }

    method NodePublishVolume(req: Request, remote: Remote, kernel: Kernel) returns (r: Outcome<(), Status>)
      modifies this, cache`places
      ensures (cache.places, table, r)
           == Publish(old(table), old(cache.places), cache.dir, req, cache.pid, remote, kernel)
    {
      hide EnsureAll, ClosureList, Found;
      if req.volumeId == "" {
        return Err(InvalidArgument);
      }
      if req.targetPath == "" {
        return Err(InvalidArgument);
      }
      if req.targetPath in table.mounts {
        return Ok(());
      }
      if "storePath" !in req.context {
        return Err(InvalidArgument);
      }
      if "closurePaths" !in req.context {
        return Err(InvalidArgument);
      }
      var closure := ClosureList(req.context["closurePaths"]);
      if closure == [] {
        return Err(InvalidArgument);
      }
      var fetched := cache.EnsureCached(closure, remote);
      if fetched.Panic? {
        return Panic;
      }
      if fetched.Err? {
        return Err(Unavailable);
      }
      if req.targetPath !in table.dirs {
        if !kernel.mkdir {
          return Err(Internal);
        }
        table := table.(dirs := table.dirs + {req.targetPath});
      } else {
        assert table.dirs + {req.targetPath} == table.dirs;
      }
      var source := StripStore(req.context["storePath"]);
      var bound := BindMountReadonly(source, req.targetPath, closure, kernel);
      if !bound {
        table := Cleanup(table, req.targetPath, kernel);
        return Err(Internal);
      }
      r := Ok(());
    }

    method BindMountReadonly(source: string, target: string, closure: seq<string>, kernel: Kernel) returns (ok: bool)
      requires target !in table.mounts
      modifies this
      ensures ok <==> Found(cache.places, cache.dir, source) && kernel.bind && kernel.remount
      ensures table.dirs == old(table.dirs)
      ensures table.mounts ==
              if ok then old(table.mounts)[target := Mount(source, true, closure)]
              else if Found(cache.places, cache.dir, source) && kernel.bind && !kernel.detach
              then old(table.mounts)[target := Mount(source, false, closure)]
              else old(table.mounts)
    {
      hide Found;
      ghost var before := table.mounts;
      if !Found(cache.places, cache.dir, source) || !kernel.bind {
        return false;
      }
      table := table.(mounts := table.mounts[target := Mount(source, false, closure)]);
      if !kernel.remount {
        if kernel.detach {
          table := table.(mounts := table.mounts - {target});
          assert table.mounts == before;
        }
        return false;
      }
      table := table.(mounts := table.mounts[target := Mount(source, true, closure)]);
      return true;
    }

    method NodeUnpublishVolume(req: Request, kernel: Kernel) returns (r: Outcome<(), Status>)
      modifies this
      ensures (table, r) == Unpublish(old(table), req, kernel)
    {
      if req.volumeId == "" {
        return Err(InvalidArgument);
      }
      if req.targetPath == "" {
        return Err(InvalidArgument);
      }
      if req.targetPath !in table.mounts {
        table := Cleanup(table, req.targetPath, kernel);
        return Ok(());
      }
      if !kernel.detach {
        return Err(Internal);
      }
      table := table.(mounts := table.mounts - {req.targetPath});
      table := Cleanup(table, req.targetPath, kernel);
      r := Ok(());
    }
  }

  /** The list of a text is that of its parts between commas, one after the other: a part without a comma is one path,
      without the white space around it, or none if it is blank. */
  lemma {:induction false} ClosureListMeaning(part: string, rest: string)
    requires ',' !in part
    ensures ClosureList(part) == if Trim(part) == "" then [] else [Trim(part)]
    ensures ClosureList(part + "," + rest) == ClosureList(part) + ClosureList(rest)
  {
    hide Trim;
    SplitPlain(part, ',', rest);
    assert part + "," + rest == part + [','] + rest;
    assert [part][1..] == [] && ([part] + Split(rest, ','))[1..] == Split(rest, ',');
    assert TrimmedParts([part]) == (if Trim(part) == "" then [] else [Trim(part)]) + TrimmedParts([]);
  }

  /** What a request must bring for a fetch to be tried. */
  predicate Complete(req: Request) {
    && "storePath" in req.context && "closurePaths" in req.context
    && ClosureList(req.context["closurePaths"]) != []
  }

  /** When a publish call succeeds, and what it answers otherwise. */
  lemma PublishAnswersExactly(table: Table, places: Places, dir: Place, req: Request, pid: nat, remote: Remote,
      kernel: Kernel)
    ensures var r := Publish(table, places, dir, req, pid, remote, kernel).2;
            var named, mounted := req.volumeId != "" && req.targetPath != "", req.targetPath in table.mounts;
            && (r.Ok? <==>
                  && named
                  && (|| mounted
                      || (&& Complete(req)
                          && var (cached, fetched) :=
                               EnsureAll(places, dir, ClosureList(req.context["closurePaths"]), pid, remote);
                             && fetched.Ok? && (req.targetPath in table.dirs || kernel.mkdir)
                             && Found(cached, dir, StripStore(req.context["storePath"]))
                             && kernel.bind && kernel.remount)))
            && (r == Err(InvalidArgument) <==> !named || (!mounted && !Complete(req)))
            && (r == Err(Unavailable) <==>
                  named && !mounted && Complete(req)
                  && EnsureAll(places, dir, ClosureList(req.context["closurePaths"]), pid, remote).1.Err?)
            && (r == Panic <==>
                  named && !mounted && Complete(req)
                  && EnsureAll(places, dir, ClosureList(req.context["closurePaths"]), pid, remote).1.Panic?)
  {
    hide EnsureAll, Found, ClosureList, StripStore;
    if req.volumeId != "" && req.targetPath != "" && req.targetPath !in table.mounts && Complete(req) {
      var closure := ClosureList(req.context["closurePaths"]);
      var (cached, fetched) := EnsureAll(places, dir, closure, pid, remote);
      assert Admit(table, req) == Fetch(req.context["storePath"], closure);
      if fetched.Ok? {
        var source := StripStore(req.context["storePath"]);
        var (after, answer) := Attach(table, Found(cached, dir, source), req.targetPath, source, closure, kernel);
        assert Publish(table, places, dir, req, pid, remote, kernel) == (cached, after, answer);
        assert answer.Ok? <==>
            (req.targetPath in table.dirs || kernel.mkdir) && Found(cached, dir, source)
            && kernel.bind && kernel.remount;
      }
    }
  }

  /** The target directory: there after a success and gone after a failure where it can be removed; a call that is
      refused or fails to fetch leaves it as it was, and no call touches another. */
  lemma PublishedDirectory(table: Table, places: Places, dir: Place, req: Request, pid: nat, remote: Remote,
      kernel: Kernel)
    ensures var (_, after, r) := Publish(table, places, dir, req, pid, remote, kernel);
            && (forall other :: other != req.targetPath ==> (other in after.dirs <==> other in table.dirs))
            && (r == Ok(()) && req.targetPath !in table.mounts ==> req.targetPath in after.dirs)
            && (r == Err(InvalidArgument) || r == Err(Unavailable) || r == Panic ==> after == table)
            && (r == Err(Internal) && kernel.rmdir && kernel.mkdir ==>
                  (req.targetPath in after.dirs <==> req.targetPath in after.mounts))
            && (r == Err(Internal) && !kernel.rmdir && kernel.mkdir ==> req.targetPath in after.dirs)
            && (!kernel.mkdir && req.targetPath !in table.dirs && req.targetPath !in table.mounts ==> after == table)
  {
    hide EnsureAll, Found, ClosureList, StripStore;
  }

  /** What an unpublish call answers and leaves. */
  lemma UnpublishAnswersExactly(table: Table, req: Request, kernel: Kernel)
    ensures var (after, r) := Unpublish(table, req, kernel);
            && (r == Err(InvalidArgument) <==> req.volumeId == "" || req.targetPath == "")
            && (r == Err(Internal) <==>
                  req.volumeId != "" && req.targetPath != "" && req.targetPath in table.mounts && !kernel.detach)
            && (r.Ok? <==>
                  req.volumeId != "" && req.targetPath != "" && (req.targetPath in table.mounts ==> kernel.detach))
            && (r == Ok(()) ==>
                  && after.mounts == table.mounts - {req.targetPath}
                  && after.dirs == if kernel.rmdir then table.dirs - {req.targetPath} else table.dirs)
  {
  }

  /** A publish call that does not succeed leaves the mounts as they were, unless the mount could be made but neither
      made read-only nor undone. */
  lemma FailedPublishKeepsMounts(table: Table, places: Places, dir: Place, req: Request, pid: nat, remote: Remote,
      kernel: Kernel)
    requires !Publish(table, places, dir, req, pid, remote, kernel).2.Ok?
    ensures var (cached, after, r) := Publish(table, places, dir, req, pid, remote, kernel);
            after.mounts == table.mounts <==>
            !(&& Admit(table, req).Fetch? && EnsureAll(places, dir, Admit(table, req).closure, pid, remote).1.Ok?
              && (req.targetPath in table.dirs || kernel.mkdir)
              && Found(cached, dir, StripStore(Admit(table, req).storePath)) && kernel.bind && !kernel.remount
                  && !kernel.detach)
  {
    hide EnsureAll, Found, ClosureList;
  }

  /** The mount left behind is writable, and asking again reports success without touching it. */
  lemma LeftoverMountIsReportedPublished(
    table: Table, places: Places, dir: Place, req: Request, pid: nat, remote: Remote, kernel: Kernel, again: Kernel)
    requires var (cached, after, r) := Publish(table, places, dir, req, pid, remote, kernel);
             !r.Ok? && after.mounts != table.mounts
    ensures var (cached, after, r) := Publish(table, places, dir, req, pid, remote, kernel);
            && req.targetPath in after.mounts && !after.mounts[req.targetPath].readOnly
            && Publish(after, cached, dir, req, pid, remote, again) == (cached, after, Ok(()))
  {
    hide EnsureAll, Found, ClosureList;
  }

  /** After a publish call has succeeded, the target is mounted with everything the volume needs, and nothing else has
      changed among the mounts; publishing again, with any attributes, changes nothing. */
  lemma PublishedVolume(table: Table, places: Places, dir: Place, req: Request, pid: nat, remote: Remote,
      kernel: Kernel)
    requires Publish(table, places, dir, req, pid, remote, kernel).2.Ok? && req.targetPath !in table.mounts
    ensures var (cached, after, r) := Publish(table, places, dir, req, pid, remote, kernel);
            var closure := ClosureList(req.context["closurePaths"]);
            && after.mounts
            == table.mounts[req.targetPath := Mount(StripStore(req.context["storePath"]), true, closure)]
            && Found(cached, dir, StripStore(req.context["storePath"])) && closure != []
            && ((forall i :: 0 <= i < |closure| ==> Addressable(StripStore(closure[i]))) ==>
                  && Settles(places, cached, dir, remote)
                  && forall i :: 0 <= i < |closure| ==>
                       Final(StripStore(closure[i])) ==> dir + [StripStore(closure[i])] in cached)
  {
    hide EnsureAll, ClosureList, Final, Addressable, Settles, Found, StripPrefix;
    var closure := ClosureList(req.context["closurePaths"]);
    var cached := Publish(table, places, dir, req, pid, remote, kernel).0;
    assert cached == EnsureAll(places, dir, closure, pid, remote).0;
    if forall i :: 0 <= i < |closure| ==> Addressable(StripStore(closure[i])) {
      EnsureAllOutcome(places, dir, closure, pid, remote);
    }
  }

  lemma PublishAgain(
    table: Table, places: Places, dir: Place, req: Request, pid: nat, remote: Remote, kernel: Kernel, again: Request,
        kernel2: Kernel)
    requires Publish(table, places, dir, req, pid, remote, kernel).2.Ok?
    requires again.targetPath == req.targetPath && again.volumeId != ""
    ensures var (cached, after, r) := Publish(table, places, dir, req, pid, remote, kernel);
            Publish(after, cached, dir, again, pid, remote, kernel2) == (cached, after, Ok(()))
  {
    hide EnsureAll, Found, ClosureList;
  }

  /** Unpublishing undoes publishing: both the mount and the directory made for it are gone. */
  lemma UnpublishUndoesPublish(
    table: Table, places: Places, dir: Place, req: Request, pid: nat, remote: Remote, kernel: Kernel, kernel2: Kernel)
    requires req.targetPath !in table.mounts && req.targetPath !in table.dirs
    requires Publish(table, places, dir, req, pid, remote, kernel).2.Ok? && kernel2.detach && kernel2.rmdir
    ensures Unpublish(Publish(table, places, dir, req, pid, remote, kernel).1, req, kernel2) == (table, Ok(()))
  {
    hide EnsureAll, Found, ClosureList;
    var after := Publish(table, places, dir, req, pid, remote, kernel).1;
    assert after.mounts - {req.targetPath} == table.mounts;
    assert after.dirs - {req.targetPath} == table.dirs;
  }

  /** Unpublishing twice is unpublishing once, when the kernel obeys; a failed call changes nothing. */
  lemma UnpublishAgain(table: Table, req: Request, kernel: Kernel)
    ensures !Unpublish(table, req, kernel).1.Ok? ==> Unpublish(table, req, kernel).0 == table
    ensures Unpublish(table, req, kernel).1.Ok? ==>
              && Unpublish(table, req, kernel).0.mounts == table.mounts - {req.targetPath}
              && Unpublish(Unpublish(table, req, kernel).0, req, kernel) == Unpublish(table, req, kernel)
  {
    assert table.dirs - {req.targetPath} - {req.targetPath} == table.dirs - {req.targetPath};
  }

  /** A volume with the attributes that the operator writes is refused on every target that is not mounted yet. */
  lemma OperatorVolumesAreRefused(
    table: Table, places: Places, dir: Place, volumeId: string, target: string, closurePaths: seq<string>, pid: nat,
        remote: Remote,
    kernel: Kernel)
    requires target !in table.mounts
    ensures Publish(table, places, dir, Request(volumeId, target, OperatorAttributes(closurePaths)), pid, remote,
        kernel)
         == (places, table, Err(InvalidArgument))
  {
    hide ClosureList, EnsureAll;
  }

  /** With the store path added, the operator's list comes through whole. */
  lemma OperatorClosureIsFetched(
    table: Table, volumeId: string, target: string, storePath: string, closurePaths: seq<string>)
    requires volumeId != "" && target != "" && target !in table.mounts && closurePaths != []
    requires forall i :: 0 <= i < |closurePaths| ==> Listable(closurePaths[i])
    ensures Admit(table, Request(volumeId, target, OperatorAttributes(closurePaths)["storePath" := storePath]))
         == Fetch(storePath, closurePaths)
  {
    hide ClosureList;
    ClosureListOfJoin(closurePaths);
  }
}
