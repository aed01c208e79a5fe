/**
 A whole `ensure_cached` call (`cache.rs`) that no other task gets in the way of:
 it ends, and it ends well exactly when every path is there or can be fetched.
 */
module CacheCalls {
  import opened Outcomes
  import opened Extraction
  import opened Fetching
  import opened CacheProtocol

  /** No other task is inside the critical section of a lock. */
  predicate Alone(s: State, t: nat) {
    t in s.tasks && forall u :: u in s.tasks && u != t ==> !Critical(s.tasks[u].at)
  }

  /** There, or such that a fetch will publish it. */
  ghost predicate Obtainable(remote: Remote, s: State, name: string) {
    name in s.entries || CanPublish(remote, s, name)
  }

  lemma NoneHeld(remote: Remote, s: State, t: nat)
    requires Inv(remote, s) && Alone(s, t) && !Critical(s.tasks[t].at)
    ensures s.held == map[]
  {
    hide DiskOk, TaskOk;
    assert forall l :: l !in s.held;
  }

  lemma FillKeepsPid(remote: Remote, s: State, t: nat)
    requires t in s.tasks && s.tasks[t].todo != []
    ensures Fill(remote, s, t, Fine).pid == s.pid
  {
    hide Payload, Verified, TmpName, Plan, Apply, Tear, Remove, CanReplace;
  }

  lemma RunKeepsPid(remote: Remote, s: State, t: nat)
    ensures Do(remote, s, Run(t, Fine)).pid == s.pid
  {
    hide Fill, Present;
    if t in s.tasks && s.tasks[t].todo != [] {
      FillKeepsPid(remote, s, t);
    }
  }

  lemma {:induction false} SoloKeeps(remote: Remote, s: State, t: nat, k: nat)
    requires Inv(remote, s)
    ensures Inv(remote, Solo(remote, s, t, k)) && Solo(remote, s, t, k).pid == s.pid
  {
    hide Inv, Do;
    if k > 0 {
      SoloKeeps(remote, s, t, k - 1);
      InvDo(remote, Solo(remote, s, t, k - 1), Run(t, Fine));
      RunKeepsPid(remote, Solo(remote, s, t, k - 1), t);
    }
  }

  lemma SoloOne(remote: Remote, s: State, t: nat)
    ensures Solo(remote, s, t, 1) == Do(remote, s, Run(t, Fine))
    ensures Solo(remote, s, t, 2) == Do(remote, Do(remote, s, Run(t, Fine)), Run(t, Fine))
  {
    hide Do;
    assert Solo(remote, s, t, 0) == s;
    assert Solo(remote, s, t, 1) == Do(remote, Solo(remote, s, t, 0), Run(t, Fine));
  }

  /** A name that is there is passed over. */
  lemma PassesPresent(remote: Remote, s: State, t: nat)
    requires t in s.tasks && s.tasks[t].at.Checking? && s.tasks[t].todo != [] && Local(s.tasks[t].todo[0])
    requires s.tasks[t].todo[0] in s.entries
    ensures var after := Solo(remote, s, t, 1);
            && after.entries == s.entries
            && after.tasks == s.tasks[t := s.tasks[t].(at := Checking, todo := s.tasks[t].todo[1..])]
  {
    SoloOne(remote, s, t);
    hide Local, Fill, Solo;
  }

  lemma Queues(remote: Remote, s: State, t: nat) returns (lock: nat)
    requires t in s.tasks && s.tasks[t].at.Checking? && s.tasks[t].todo != []
    requires Local(s.tasks[t].todo[0]) && s.tasks[t].todo[0] !in s.entries
    ensures var after := Do(remote, s, Run(t, Fine));
            && after.entries == s.entries && after.held == s.held
            && after.tasks == s.tasks[t := s.tasks[t].(at := Waiting(lock))]
  {
    hide Local, Fill;
    var name := s.tasks[t].todo[0];
    lock := if name in s.locks then s.locks[name] else s.nextLock;
  }

  lemma Locks(remote: Remote, s: State, t: nat, lock: nat)
    requires s.held == map[] && t in s.tasks && s.tasks[t].at == Waiting(lock) && s.tasks[t].todo != []
    ensures var after := Do(remote, s, Run(t, Fine));
            after.entries == s.entries && after.tasks == s.tasks[t := s.tasks[t].(at := Holding(lock))]
  {
    hide Fill, Present;
  }

  /** A name that is missing is locked. */
  lemma TakesLock(remote: Remote, s: State, t: nat) returns (lock: nat)
    requires s.held == map[] && t in s.tasks && s.tasks[t].at.Checking? && s.tasks[t].todo != []
    requires Local(s.tasks[t].todo[0]) && s.tasks[t].todo[0] !in s.entries
    ensures var after := Solo(remote, s, t, 2);
            after.entries == s.entries && after.tasks == s.tasks[t := s.tasks[t].(at := Holding(lock))]
  {
    SoloOne(remote, s, t);
    hide Local, Do, Solo;
    lock := Queues(remote, s, t);
    var s1 := Do(remote, s, Run(t, Fine));
    Locks(remote, s1, t, lock);
    assert s1.tasks[t := s1.tasks[t].(at := Holding(lock))] == s.tasks[t := s.tasks[t].(at := Holding(lock))];
  }

  predicate Ended(s: State, t: nat) { t in s.tasks ==> s.tasks[t].at.Failed? }

  lemma StartsDownload(remote: Remote, s: State, t: nat)
    requires t in s.tasks && s.tasks[t].at.Holding? && s.tasks[t].todo != [] && Local(s.tasks[t].todo[0])
    requires s.tasks[t].todo[0] !in s.entries
    ensures var after := Do(remote, s, Run(t, Fine));
            t in after.tasks && after.tasks[t] == s.tasks[t].(at := Downloading(s.tasks[t].at.lock))
  {
    hide Fill, Local;
  }

  lemma DownloadEnds(remote: Remote, s: State, t: nat)
    requires t in s.tasks && s.tasks[t].at.Downloading? && s.tasks[t].todo != []
    ensures var after := Do(remote, s, Run(t, Fine));
            Ended(after, t) || (t in after.tasks && after.tasks[t] == s.tasks[t].(at := Parsing(s.tasks[t].at.lock)))
  {
    hide Payload, TmpName, Verified, Present, Plan, Remove;
  }

  lemma CheckEnds(remote: Remote, s: State, t: nat)
    requires t in s.tasks && s.tasks[t].at.Parsing? && s.tasks[t].todo != []
    requires !Verified(remote, s.tasks[t].todo[0]).Ok?
    ensures Ended(Do(remote, s, Run(t, Fine)), t)
  {
    hide Payload, TmpName, Verified, Present, Plan, Remove;
  }

  /** A name that no archive passes the checks for ends the task. */
  lemma Refused(remote: Remote, s: State, t: nat)
    requires t in s.tasks && s.tasks[t].at.Holding? && s.tasks[t].todo != [] && Local(s.tasks[t].todo[0])
    requires s.tasks[t].todo[0] !in s.entries && !Verified(remote, s.tasks[t].todo[0]).Ok?
    ensures Ended(Solo(remote, s, t, 3), t)
  {
    hide Do, Verified, Local;
    var s1 := Do(remote, s, Run(t, Fine));
    var s2 := Do(remote, s1, Run(t, Fine));
    SoloOne(remote, s, t);
    assert Solo(remote, s, t, 3) == Do(remote, Solo(remote, s, t, 2), Run(t, Fine));
    hide Solo;
    StartsDownload(remote, s, t);
    DownloadEnds(remote, s1, t);
    if Ended(s2, t) {
      EndedStays(remote, s2, t, 1);
      SoloOne(remote, s2, t);
    } else {
      CheckEnds(remote, s2, t);
    }
  }

  lemma {:induction false} EndedStays(remote: Remote, s: State, t: nat, k: nat)
    requires Ended(s, t)
    ensures Solo(remote, s, t, k) == s
  {
    if k > 0 {
      EndedStays(remote, s, t, k - 1);
      hide Fill;
    }
  }

  lemma Untouched(before: Entries, after: Entries, name: string, tmp: string, other: string, otherTmp: string)
    requires name in after && after == (before - {tmp})[name := after[name]]
    requires other != name && other != tmp && otherTmp != tmp && otherTmp != name
    ensures (other in after <==> other in before) && Leftover(after, otherTmp) == Leftover(before, otherTmp)
  {
  }

  lemma NamesApart(name: string, other: string, pid: nat)
    requires Final(name) && Final(other)
    ensures other != TmpName(name, pid) && TmpName(other, pid) != name
    ensures other != name ==> TmpName(other, pid) != TmpName(name, pid)
  {
    TmpNameShape(name, pid);
    TmpNameShape(other, pid);
    if TmpName(name, pid) == TmpName(other, pid) {
      TmpNameInjective(name, pid, other, pid);
    }
  }

  /** What publishing a name leaves for the others. */
  lemma OthersObtainable(remote: Remote, s: State, after: State, name: string, other: string)
    requires Final(name) && Final(other) && Obtainable(remote, s, name) && after.pid == s.pid && name !in s.entries
    requires name in after.entries
    requires after.entries == (s.entries - {TmpName(name, s.pid)})[name := after.entries[name]]
    ensures Obtainable(remote, after, other) <==> Obtainable(remote, s, other)
  {
    hide TmpName, IsTmp, Local, Cacheable, NoLinks, Leftover;
    NamesApart(name, other, s.pid);
    if other != name {
      Untouched(s.entries, after.entries, name, TmpName(name, s.pid), other, TmpName(other, s.pid));
    }
  }

  /** The first name: there already, fetched, or the end of the task. */
  lemma HandlesFirst(remote: Remote, s: State, t: nat) returns (k: nat)
    requires Inv(remote, s) && Alone(s, t) && s.tasks[t].at.Checking? && s.tasks[t].todo != []
    requires Final(s.tasks[t].todo[0])
    ensures var name, after := s.tasks[t].todo[0], Solo(remote, s, t, k);
            if name in s.entries || CanPublish(remote, s, name)
            then
              && after.tasks == s.tasks[t := s.tasks[t].(at := Checking, todo := s.tasks[t].todo[1..])]
              && (name in s.entries ==> after.entries == s.entries)
              && (name !in s.entries ==>
                    && name in after.entries
                    && after.entries == (s.entries - {TmpName(name, s.pid)})[name := after.entries[name]])
            else Ended(after, t)
  {
    hide Inv, Solo, CanPublish, TmpName, IsTmp, Local, Verified, OnDisk;
    var name := s.tasks[t].todo[0];
    if name in s.entries {
      k := 1;
      PassesPresent(remote, s, t);
    } else {
      NoneHeld(remote, s, t);
      var lock := TakesLock(remote, s, t);
      var h := Solo(remote, s, t, 2);
      SoloKeeps(remote, s, t, 2);
      SameCanPublish(remote, s, h, name);
      if Verified(remote, name).Ok? {
        var n := |Plan(Verified(remote, name).value, [])| + 5;
        k := 2 + n;
        SoloAppend(remote, s, t, 2, n);
        UndisturbedFetchPublishes(remote, h, t);
      } else {
        k := 5;
        SoloAppend(remote, s, t, 2, 3);
        Refused(remote, h, t);
        OnlyVerifiedPublish(remote, s, name);
      }
    }
  }

  lemma SameCanPublish(remote: Remote, s: State, h: State, name: string)
    requires h.entries == s.entries && h.pid == s.pid
    ensures CanPublish(remote, h, name) <==> CanPublish(remote, s, name)
  {
  }

  lemma OnlyVerifiedPublish(remote: Remote, s: State, name: string)
    ensures CanPublish(remote, s, name) ==> Verified(remote, name).Ok?
  {
  }

  lemma FinalNames(before: Entries, after: Entries, name: string, pid: nat)
    requires Final(name) && name in after && after == (before - {TmpName(name, pid)})[name := after[name]]
    ensures forall n :: Final(n) ==> (n in after <==> n in before || n == name)
  {
    TmpNameShape(name, pid);
    hide TmpName, IsTmp, Local;
  }

  /** A call that has the cache to itself ends; it ends without error exactly when each of its names is there or can be
      published, and then has them all. */
  lemma {:induction false} UndisturbedCall(remote: Remote, s: State, t: nat) returns (k: nat)
    requires Inv(remote, s) && Alone(s, t) && s.tasks[t].at.Checking?
    requires forall i :: 0 <= i < |s.tasks[t].todo| ==> Final(s.tasks[t].todo[i])
    ensures var after := Solo(remote, s, t, k);
            && Inv(remote, after)
            && (t in after.tasks ==> after.tasks[t].at.Finished? || after.tasks[t].at.Failed?)
            && (t in after.tasks && after.tasks[t].at.Finished? <==>
                  forall i :: 0 <= i < |s.tasks[t].todo| ==> Obtainable(remote, s, s.tasks[t].todo[i]))
            && (t in after.tasks && after.tasks[t].at.Finished? ==>
                  forall n :: Final(n) ==> (n in after.entries <==> n in s.entries || n in s.tasks[t].todo))
    decreases |s.tasks[t].todo|
  {
    hide Inv, Solo, TmpName, IsTmp, Local, CanPublish;
    var todo := s.tasks[t].todo;
    if todo == [] {
      k := 1;
      SoloOne(remote, s, t);
      SoloKeeps(remote, s, t, 1);
    } else {
      var n := HandlesFirst(remote, s, t);
      var next := Solo(remote, s, t, n);
      SoloKeeps(remote, s, t, n);
      if Obtainable(remote, s, todo[0]) {
        var more := UndisturbedCall(remote, next, t);
        k := n + more;
        SoloAppend(remote, s, t, n, more);
        if todo[0] !in s.entries {
          FinalNames(s.entries, next.entries, todo[0], s.pid);
        }
        assert todo == [todo[0]] + todo[1..];
        forall i | 0 < i < |todo|
          ensures Obtainable(remote, next, todo[i]) <==> Obtainable(remote, s, todo[i])
        {
          if todo[0] !in s.entries {
            OthersObtainable(remote, s, next, todo[0], todo[i]);
          } else {
            SameCanPublish(remote, s, next, todo[i]);
          }
        }
        assert forall i :: 0 < i < |todo| ==> todo[i] == todo[1..][i - 1];
      } else {
        k := n;
      }
    }
  }

  /** Restarting the service with its cleanup makes every name obtainable again that can be cached. */
  lemma RestartRecovers(remote: Remote, s: State, pid: nat, name: string)
    requires Cacheable(remote, name)
    ensures var after := After(remote, s, [Crash(pid), Sweep(TmpName(name, pid), Fine), Serve]);
            && after.serving && after.pid == pid && after.tasks == map[] && after.locks == map[] && after.held == map[]
            && Obtainable(remote, after, name)
            && (forall n :: n in s.entries && !IsTmp(n) ==> n in after.entries && after.entries[n] == s.entries[n])
  {
    hide Cacheable;
    TmpNameShape(name, pid);
    var a, b, c := Crash(pid), Sweep(TmpName(name, pid), Fine), Serve;
    var steps := [a, b, c];
    assert steps[..2] == [a, b] && [a, b][..1] == [a] && [a][..0] == [];
    hide TmpName, IsTmp;
    assert After(remote, s, [a]) == Do(remote, After(remote, s, []), a);
    assert After(remote, s, [a, b]) == Do(remote, After(remote, s, [a]), b);
    assert After(remote, s, steps) == Do(remote, After(remote, s, [a, b]), c);
    var after := After(remote, s, steps);
    assert TmpName(name, pid) !in after.entries;
    assert NoLinks(EMPTY_ROOT);
  }

  /** A failing write may leave any file where it can leave one, and a failing removal any part of the directory. */
  lemma AnyFaultCanHappen(fs: Fs, p: Path, contents: Nar.Bytes, mode: nat, left: FsNode, entries: Entries, name: string,
      keep: set<Path>)
    requires p !in fs && InDirectory(fs, p) && left.File? && name in entries
    ensures exists luck :: Tear(fs, PutFile(p, contents, mode), luck) == fs[p := left]
    ensures exists luck :: name in Remove(entries, name, luck)
                           && forall q :: q in Remove(entries, name, luck)[name] <==>
                                            q in entries[name] && (q == [] || q in keep)
  {
    var luck := Broken(map[p := left], keep);
    assert Tear(fs, PutFile(p, contents, mode), luck) == fs[p := left];
    assert name in Remove(entries, name, luck);
  }
}
