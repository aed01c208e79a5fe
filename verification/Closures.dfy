/**
 Closure resolution (`closure.rs`): a batched graph search whose fetches complete
 in any order. The postconditions of `ResolveClosure` hold for every completion
 order, every concurrency and every point at which the clock runs out.
 */
module Closures {
  import opened Outcomes
  import opened Sequences
  import opened Text
  import opened StorePaths
  import opened NarInfos

  /** The binary cache: what `fetch_narinfo` answers for a path. */
  type Fetch = StorePath -> Outcome<NarInfo, Error>

  /** `StorePathRef` values exist only for text that parses. */
  ghost predicate GoodReferences(fetch: Fetch) {
    forall sp :: fetch(sp).Ok? ==> forall r :: r in fetch(sp).value.references ==> ParseBasename(r).Ok?
  }

  //////////////////////////////////////////////////////////////////////////////
  // The graph
  //////////////////////////////////////////////////////////////////////////////

  /** The paths a list of references stands for; text that does not parse is skipped. */
  function ParsedRefs(refs: seq<string>): seq<StorePath> {
    if refs == [] then []
    else
      var first := Parse(RefToPath(refs[0]));
      (if first.Ok? then [first.value] else []) + ParsedRefs(refs[1..])
  }

  function Children(fetch: Fetch, sp: StorePath): seq<StorePath> {
    if fetch(sp).Ok? then ParsedRefs(fetch(sp).value.references) else []
  }

  lemma {:induction false} ParsedRefsExactly(refs: seq<string>, c: StorePath)
    ensures c in ParsedRefs(refs) <==> exists r :: r in refs && Parse("/nix/store/" + r) == Ok(c)
  {
    hide Parse;
    if refs != [] {
      ParsedRefsExactly(refs[1..], c);
      assert STORE_DIR + "/" == "/nix/store/";
      assert refs == [refs[0]] + refs[1..];
      assert RefToPath(refs[0]) == "/nix/store/" + refs[0];
      if r :| r in refs && Parse("/nix/store/" + r) == Ok(c) {
        assert r == refs[0] || r in refs[1..];
      }
    }
  }

  /** The edges of the search: the store paths whose basenames the narinfo lists as references. */
  lemma ChildrenExactly(fetch: Fetch, sp: StorePath, c: StorePath)
    requires GoodReferences(fetch)
    ensures c in Children(fetch, sp) <==>
            fetch(sp).Ok? && Valid(c) && Basename(c) in fetch(sp).value.references
  {
    hide ParseBasename, HashString;
    if fetch(sp).Ok? {
      var refs := fetch(sp).value.references;
      ParsedRefsExactly(refs, c);
      if c in Children(fetch, sp) {
        var r :| r in refs && Parse("/nix/store/" + r) == Ok(c);
        EdgeText(r);
        ParseThenPrint(r);
      }
      if Valid(c) && Basename(c) in refs {
        EdgeText(Basename(c));
        PrintThenParse(c);
      }
    }
  }

  lemma EdgeText(r: string)
    requires ParseBasename(r).Ok?
    ensures Parse("/nix/store/" + r) == ParseBasename(r)
  {
    hide ParseBasename;
    ReferenceKeysAgree(r);
    assert STORE_DIR + "/" == "/nix/store/";
    assert RefToPath(r) == "/nix/store/" + r;
  }

  /** A walk along references, starting at the root. */
  ghost predicate Walk(fetch: Fetch, root: StorePath, path: seq<StorePath>) {
    && path != [] && path[0] == root
    && forall i :: 0 < i < |path| ==> path[i] in Children(fetch, path[i - 1])
  }

  /** Reached by a walk of exactly `k` references. */
  ghost predicate ReachedIn(fetch: Fetch, root: StorePath, sp: StorePath, k: nat) {
    exists path :: Walk(fetch, root, path) && |path| == k + 1 && path[k] == sp
  }

  ghost predicate Reachable(fetch: Fetch, root: StorePath, sp: StorePath) {
    exists k: nat :: ReachedIn(fetch, root, sp, k)
  }

  ghost predicate IsDistance(fetch: Fetch, root: StorePath, sp: StorePath, k: nat) {
    ReachedIn(fetch, root, sp, k) && forall j: nat :: ReachedIn(fetch, root, sp, j) ==> k <= j
  }

  lemma RootReached(fetch: Fetch, root: StorePath)
    ensures ReachedIn(fetch, root, root, 0) && Reachable(fetch, root, root)
  {
    assert Walk(fetch, root, [root]);
  }

  lemma ChildReached(fetch: Fetch, root: StorePath, sp: StorePath, k: nat, c: StorePath)
    requires ReachedIn(fetch, root, sp, k) && c in Children(fetch, sp)
    ensures ReachedIn(fetch, root, c, k + 1) && Reachable(fetch, root, c)
  {
    hide Children;
    var path :| Walk(fetch, root, path) && |path| == k + 1 && path[k] == sp;
    var longer := path + [c];
    forall i | 0 < i < |longer|
      ensures longer[i] in Children(fetch, longer[i - 1])
    {
      if i < |path| {
        assert path[i] in Children(fetch, path[i - 1]);
      }
    }
    assert Walk(fetch, root, longer);
  }

  lemma ReachedLast(fetch: Fetch, root: StorePath, sp: StorePath, k: nat) returns (parent: StorePath)
    requires ReachedIn(fetch, root, sp, k) && k > 0
    ensures ReachedIn(fetch, root, parent, k - 1) && sp in Children(fetch, parent)
  {
    var path :| Walk(fetch, root, path) && |path| == k + 1 && path[k] == sp;
    parent := path[k - 1];
    assert Walk(fetch, root, path[..k]);
  }

  lemma {:induction false} ParsedRefsValid(refs: seq<string>)
    ensures forall c :: c in ParsedRefs(refs) ==> Valid(c)
    ensures |ParsedRefs(refs)| <= |refs|
  {
    hide Parse;
    if refs != [] {
      ParsedRefsValid(refs[1..]);
      ParseThenPrint(RefToPath(refs[0]));
    }
  }

  lemma {:induction false} ReachedValid(fetch: Fetch, root: StorePath, sp: StorePath, k: nat)
    requires Valid(root) && ReachedIn(fetch, root, sp, k)
    ensures Valid(sp)
    decreases k
  {
    if k > 0 {
      var parent := ReachedLast(fetch, root, sp, k);
      ParsedRefsValid(fetch(parent).value.references);
    }
  }

  lemma ReachableValid(fetch: Fetch, root: StorePath, sp: StorePath)
    requires Valid(root) && Reachable(fetch, root, sp)
    ensures Valid(sp)
  {
    var k: nat :| ReachedIn(fetch, root, sp, k);
    ReachedValid(fetch, root, sp, k);
  }

  //////////////////////////////////////////////////////////////////////////////
  // Keys
  //////////////////////////////////////////////////////////////////////////////

  function Keys(xs: seq<StorePath>): set<string> { set x | x in xs :: Display(x) }

  function Shown(xs: seq<StorePath>): (s: seq<string>)
    ensures |s| == |xs|
  {
    seq(|xs|, i requires 0 <= i < |xs| => Display(xs[i]))
  }

  ghost predicate AllValid(xs: seq<StorePath>) { forall x :: x in xs ==> Valid(x) }

  lemma KeyMeansMember(x: StorePath, xs: seq<StorePath>)
    requires Valid(x) && AllValid(xs)
    ensures Display(x) in Keys(xs) <==> x in xs
  {
    hide Display;
    if Display(x) in Keys(xs) {
      var y :| y in xs && Display(y) == Display(x);
      DisplayInjective(x, y);
    }
  }

  ghost predicate Distinct<T(!new)>(xs: seq<T>) { forall i, j :: 0 <= i < j < |xs| ==> xs[i] != xs[j] }

  //////////////////////////////////////////////////////////////////////////////
  // The invariant of the search
  //////////////////////////////////////////////////////////////////////////////

  /** `done` are the resolved paths in the order of `order`; `todo` is the queue (with the part of a
      batch not yet looked at in front of it); `inflight` are the fetches not yet completed. */
  ghost predicate Inv(fetch: Fetch, root: StorePath, visited: set<string>, narinfos: map<string, NarInfo>,
                      todo: seq<StorePath>, inflight: seq<StorePath>, done: seq<StorePath>)
  {
    && (forall x :: x in done || x in inflight || x in todo ==> Valid(x) && Reachable(fetch, root, x))
    && Distinct(done + inflight)
    && visited == Keys(done + inflight)
    && Resolved(fetch, narinfos, done)
    && (forall d, c :: d in done && c in Children(fetch, d) ==> c in done || c in inflight || c in todo)
    && (root in done || root in inflight || root in todo)
    && Discovered(fetch, root, todo, inflight, done)
  }

  ghost predicate Resolved(fetch: Fetch, narinfos: map<string, NarInfo>, done: seq<StorePath>) {
    && narinfos.Keys == Keys(done)
    && forall d :: d in done ==> fetch(d).Ok? && Display(d) in narinfos && narinfos[Display(d)] == fetch(d).value
  }

  /** The root comes first, and everything else was referenced by something resolved before it. */
  ghost predicate RootFirst(fetch: Fetch, root: StorePath, done: seq<StorePath>) {
    && (done != [] ==> done[0] == root)
    && forall i :: 0 < i < |done| ==> exists j :: 0 <= j < i && done[i] in Children(fetch, done[j])
  }

  ghost predicate Referenced(fetch: Fetch, x: StorePath, done: seq<StorePath>) {
    exists j :: 0 <= j < |done| && x in Children(fetch, done[j])
  }

  ghost predicate Discovered(fetch: Fetch, root: StorePath, todo: seq<StorePath>, inflight: seq<StorePath>,
      done: seq<StorePath>) {
    && RootFirst(fetch, root, done)
    && forall x :: x in todo || x in inflight ==> x == root || Referenced(fetch, x, done)
  }

  lemma InvStart(fetch: Fetch, root: StorePath)
    requires Valid(root)
    ensures Inv(fetch, root, {}, map[], [root], [], [])
  {
    RootReached(fetch, root);
  }

  /** The first waiting path is dropped when its key has been visited, and launched otherwise. */
  lemma InvLaunch(fetch: Fetch, root: StorePath, visited: set<string>, narinfos: map<string, NarInfo>,
                  todo: seq<StorePath>, inflight: seq<StorePath>, done: seq<StorePath>)
    requires Inv(fetch, root, visited, narinfos, todo, inflight, done) && todo != []
    ensures Display(todo[0]) in visited <==> todo[0] in done || todo[0] in inflight
    ensures Display(todo[0]) in visited ==> Inv(fetch, root, visited, narinfos, todo[1..], inflight, done)
    ensures Display(todo[0]) !in visited ==>
              Inv(fetch, root, visited + {Display(todo[0])}, narinfos, todo[1..], inflight + [todo[0]], done)
  {
    hide Display, Reachable, Children, Valid, Referenced, RootFirst, Resolved;
    var x := todo[0];
    assert todo == [x] + todo[1..];
    KeyMeansMember(x, done + inflight);
    if Display(x) !in visited {
      var both := done + (inflight + [x]);
      assert both == (done + inflight) + [x];
      assert Keys(both) == Keys(done + inflight) + {Display(x)};
    }
  }

  /** The references of a completed fetch that are queued: those whose key has not been visited. */
  function Unvisited(visited: set<string>, refs: seq<string>): seq<StorePath> {
    if refs == [] then []
    else
      var s := RefToPath(refs[0]);
      (if s !in visited && Parse(s).Ok? then [Parse(s).value] else []) + Unvisited(visited, refs[1..])
  }

  lemma {:induction false} UnvisitedMeaning(visited: set<string>, refs: seq<string>, seen: seq<StorePath>, c: StorePath)
    requires visited == Keys(seen) && AllValid(seen)
    requires forall r :: r in refs ==> ParseBasename(r).Ok?
    ensures c in Unvisited(visited, refs) <==> c in ParsedRefs(refs) && c !in seen
    ensures |Unvisited(visited, refs)| <= |refs|
  {
    hide Parse, Display, ParseBasename, RefToPath, Keys;
    if refs != [] {
      UnvisitedMeaning(visited, refs[1..], seen, c);
      ReferenceKeysAgree(refs[0]);
      var sp := Parse(RefToPath(refs[0])).value;
      ParseThenPrint(RefToPath(refs[0]));
      KeyMeansMember(sp, seen);
    }
  }

  method PushReferences(visited: set<string>, refs: seq<string>, queue: seq<StorePath>) returns (q: seq<StorePath>)
    requires forall r :: r in refs ==> ParseBasename(r).Ok?
    ensures q == queue + Unvisited(visited, refs)
  {
    hide Parse, ParseBasename, RefToPath;
    q := queue;
    var i := 0;
    while i < |refs|
      invariant 0 <= i <= |refs|
      invariant q + Unvisited(visited, refs[i..]) == queue + Unvisited(visited, refs)
    {
      assert refs[i..][1..] == refs[i + 1..];
      var refPath := RefToPath(refs[i]);
      if refPath !in visited {
        var parsed := Parse(refPath);
        if parsed.Ok? {
          assert q + ([parsed.value] + Unvisited(visited, refs[i + 1..]))
              == q + [parsed.value] + Unvisited(visited, refs[i + 1..]);
          q := q + [parsed.value];
        } else {
          assert [] + Unvisited(visited, refs[i + 1..]) == Unvisited(visited, refs[i + 1..]);
        }
      } else {
        assert [] + Unvisited(visited, refs[i + 1..]) == Unvisited(visited, refs[i + 1..]);
      }
      i := i + 1;
    }
  }

  function Without<T>(s: seq<T>, i: nat): seq<T>
    requires i < |s|
  {
    s[..i] + s[i + 1..]
  }

  lemma MoveToDone(done: seq<StorePath>, inflight: seq<StorePath>, i: nat)
    requires i < |inflight| && Distinct(done + inflight)
    ensures Distinct((done + [inflight[i]]) + Without(inflight, i))
    ensures forall x :: x in (done + [inflight[i]]) + Without(inflight, i) <==> x in done + inflight
    ensures forall x :: x in inflight <==> x == inflight[i] || x in Without(inflight, i)
    ensures inflight[i] !in done
  {
    var x, rest := inflight[i], Without(inflight, i);
    var all, moved := done + inflight, (done + [x]) + rest;
    assert x == all[|done| + i];
    forall k | 0 <= k < |moved|
      ensures moved[k] == all[if k < |done| then k else if k == |done| then |done| + i
                              else if k <= |done| + i then k - 1 else k]
    {
    }
    forall k | 0 <= k < |done|
      ensures done[k] != x
    {
      assert all[k] == done[k];
    }
  }

  /** A completed fetch moves its path to the resolved ones and queues its unvisited references. */
  lemma InvComplete(fetch: Fetch, root: StorePath, visited: set<string>, narinfos: map<string, NarInfo>,
                    todo: seq<StorePath>, inflight: seq<StorePath>, done: seq<StorePath>, i: nat)
    requires Inv(fetch, root, visited, narinfos, todo, inflight, done) && GoodReferences(fetch)
    requires i < |inflight| && fetch(inflight[i]).Ok?
    ensures var x := inflight[i];
            Inv(fetch, root, visited, narinfos[Display(x) := fetch(x).value],
                todo + Unvisited(visited, fetch(x).value.references), Without(inflight, i), done + [x])
  {
    hide Display, Reachable, Valid, ParsedRefs, Unvisited, ParseBasename, Resolved, Discovered, Referenced;
    var x := inflight[i];
    var refs := fetch(x).value.references;
    var queued := Unvisited(visited, refs);
    var children := ParsedRefs(refs);
    assert Children(fetch, x) == children;
    var done', inflight' := done + [x], Without(inflight, i);
    MoveToDone(done, inflight, i);
    assert Keys(done' + inflight') == Keys(done + inflight);
    assert AllValid(done + inflight);
    forall c
      ensures c in queued <==> c in ParsedRefs(refs) && c !in done + inflight
    {
      UnvisitedMeaning(visited, refs, done + inflight, c);
    }
    forall c | c in queued
      ensures Valid(c) && Reachable(fetch, root, c) && Referenced(fetch, c, done')
    {
      ChildIsReached(fetch, root, x, c);
      ReferencedByLast(fetch, c, done, x);
    }
    hide Children, GoodReferences;
    ResolvedStep(fetch, narinfos, done, x);
    DiscoveredStep(fetch, root, todo, inflight, done, i, queued);
    forall d, c | d in done' && c in Children(fetch, d)
      ensures c in done' || c in inflight' || c in todo + queued
    {
      if d == x {
        assert c in done + inflight || c in queued by { assert Children(fetch, x) == children; }
      }
    }
  }

  lemma ReferencedByLast(fetch: Fetch, c: StorePath, done: seq<StorePath>, x: StorePath)
    requires c in Children(fetch, x)
    ensures Referenced(fetch, c, done + [x])
  {
    hide Children;
    assert c in Children(fetch, (done + [x])[|done|]);
  }

  lemma ChildIsReached(fetch: Fetch, root: StorePath, x: StorePath, c: StorePath)
    requires Reachable(fetch, root, x) && c in Children(fetch, x)
    ensures Valid(c) && Reachable(fetch, root, c)
  {
    var k: nat :| ReachedIn(fetch, root, x, k);
    ChildReached(fetch, root, x, k, c);
    ParsedRefsValid(fetch(x).value.references);
  }

  lemma ResolvedStep(fetch: Fetch, narinfos: map<string, NarInfo>, done: seq<StorePath>, x: StorePath)
    requires Resolved(fetch, narinfos, done) && fetch(x).Ok? && x !in done
    requires AllValid(done + [x])
    ensures Resolved(fetch, narinfos[Display(x) := fetch(x).value], done + [x])
  {
    hide Display;
    var ni' := narinfos[Display(x) := fetch(x).value];
    assert Keys(done + [x]) == Keys(done) + {Display(x)};
    forall d | d in done + [x]
      ensures fetch(d).Ok? && Display(d) in ni' && ni'[Display(d)] == fetch(d).value
    {
      if Display(d) == Display(x) {
        assert x in done + [x];
        DisplayInjective(d, x);
      } else {
        assert d in done;
      }
    }
  }

  lemma DiscoveredStep(fetch: Fetch, root: StorePath, todo: seq<StorePath>, inflight: seq<StorePath>,
      done: seq<StorePath>,
                       i: nat, queued: seq<StorePath>)
    requires Discovered(fetch, root, todo, inflight, done) && i < |inflight| && inflight[i] !in done
    requires forall c :: c in queued ==> Referenced(fetch, c, done + [inflight[i]])
    ensures Discovered(fetch, root, todo + queued, Without(inflight, i), done + [inflight[i]])
  {
    hide Children;
    var x, done' := inflight[i], done + [inflight[i]];
    forall y | Referenced(fetch, y, done)
      ensures Referenced(fetch, y, done')
    {
      var j :| 0 <= j < |done| && y in Children(fetch, done[j]);
      assert y in Children(fetch, done'[j]);
    }
    if done == [] {
      assert x == root || Referenced(fetch, x, done);
    } else {
      assert done[0] == root && x in inflight;
      assert Referenced(fetch, x, done);
      var j :| 0 <= j < |done| && x in Children(fetch, done[j]);
      assert done'[|done|] in Children(fetch, done'[j]);
    }
    forall k | 0 < k < |done'|
      ensures exists j :: 0 <= j < k && done'[k] in Children(fetch, done'[j])
    {
      if k < |done| {
        var j :| 0 <= j < k && done[k] in Children(fetch, done[j]);
        assert done'[k] in Children(fetch, done'[j]);
      }
    }
  }

  //////////////////////////////////////////////////////////////////////////////
  // What the search has found when the queue is empty
  //////////////////////////////////////////////////////////////////////////////

  lemma {:induction false} ClosedContainsReached(fetch: Fetch, root: StorePath, done: seq<StorePath>, sp: StorePath,
      k: nat)
    requires root in done && forall d, c :: d in done && c in Children(fetch, d) ==> c in done
    requires ReachedIn(fetch, root, sp, k)
    ensures sp in done
    decreases k
  {
    if k == 0 {
      var path :| Walk(fetch, root, path) && |path| == 1 && path[0] == sp;
    } else {
      var parent := ReachedLast(fetch, root, sp, k);
      ClosedContainsReached(fetch, root, done, parent, k - 1);
    }
  }

  /** Exactly the reachable paths, each once, root first, every later one referenced by an earlier one,
      with its narinfo under its own key. */
  ghost predicate IsClosure(fetch: Fetch, root: StorePath, narinfos: map<string, NarInfo>, done: seq<StorePath>) {
    && (forall sp :: sp in done <==> Reachable(fetch, root, sp))
    && Distinct(done)
    && Resolved(fetch, narinfos, done)
    && RootFirst(fetch, root, done) && done != []
  }

  lemma InvFinish(fetch: Fetch, root: StorePath, visited: set<string>, narinfos: map<string, NarInfo>,
      done: seq<StorePath>)
    requires Inv(fetch, root, visited, narinfos, [], [], done)
    ensures IsClosure(fetch, root, narinfos, done)
  {
    assert done + [] == done;
    forall sp | Reachable(fetch, root, sp)
      ensures sp in done
    {
      var k: nat :| ReachedIn(fetch, root, sp, k);
      ClosedContainsReached(fetch, root, done, sp, k);
    }
  }

  //////////////////////////////////////////////////////////////////////////////
  // Sums over finite sets
  //////////////////////////////////////////////////////////////////////////////

  ghost function SetSum<T(!new)>(s: set<T>, weight: T -> nat): nat {
    if s == {} then 0
    else
      var x :| x in s;
      weight(x) + SetSum(s - {x}, weight)
  }

  function SeqSum<T>(xs: seq<T>, weight: T -> nat): nat {
    if xs == [] then 0 else weight(xs[0]) + SeqSum(xs[1..], weight)
  }

  lemma {:induction false} SetSumRemove<T(!new)>(s: set<T>, weight: T -> nat, x: T)
    requires x in s
    ensures SetSum(s, weight) == weight(x) + SetSum(s - {x}, weight)
  {
    var y :| y in s && SetSum(s, weight) == weight(y) + SetSum(s - {y}, weight);
    if y != x {
      SetSumRemove(s - {y}, weight, x);
      SetSumRemove(s - {x}, weight, y);
      assert s - {y} - {x} == s - {x} - {y};
    }
  }

  lemma {:induction false} SeqSumWithin<T(!new)>(xs: seq<T>, s: set<T>, weight: T -> nat)
    requires Distinct(xs) && forall x :: x in xs ==> x in s
    ensures SeqSum(xs, weight) <= SetSum(s, weight)
    ensures (forall x :: x in s ==> x in xs) ==> SeqSum(xs, weight) == SetSum(s, weight)
  {
    if xs == [] {
      if s != {} {
        var x :| x in s;
      }
    } else {
      SetSumRemove(s, weight, xs[0]);
      SeqSumWithin(xs[1..], s - {xs[0]}, weight);
    }
  }

  lemma {:induction false} SeqSumAppend<T>(xs: seq<T>, x: T, weight: T -> nat)
    ensures SeqSum(xs + [x], weight) == SeqSum(xs, weight) + weight(x)
  {
    if xs == [] {
      assert xs + [x] == [x];
    } else {
      assert (xs + [x])[1..] == xs[1..] + [x];
      SeqSumAppend(xs[1..], x, weight);
    }
  }

  function ReferenceCount(fetch: Fetch): StorePath -> nat {
    sp => if fetch(sp).Ok? then |fetch(sp).value.references| else 0
  }

  function NarSizeOf(fetch: Fetch): StorePath -> nat {
    sp => if fetch(sp).Ok? then fetch(sp).value.narSize else 0
  }

  //////////////////////////////////////////////////////////////////////////////
  // Breadth first, one fetch at a time
  //////////////////////////////////////////////////////////////////////////////

  ghost predicate Ascending(xs: seq<nat>) { forall i, j :: 0 <= i < j < |xs| ==> xs[i] <= xs[j] }

  /** `x` is resolved at a level of at most `k`. */
  ghost predicate DoneBy(x: StorePath, k: nat, done: seq<StorePath>, dl: seq<nat>)
    requires |dl| == |done|
  {
    exists i :: 0 <= i < |done| && done[i] == x && dl[i] <= k
  }

  ghost predicate QueuedBy(x: StorePath, k: nat, queue: seq<StorePath>, ql: seq<nat>)
    requires |ql| == |queue|
  {
    exists i :: 0 <= i < |queue| && queue[i] == x && ql[i] <= k
  }

  /** The textbook invariant: the queue spans at most two levels, and resolved levels are distances. */
  ghost predicate Bfs(fetch: Fetch, root: StorePath, queue: seq<StorePath>, ql: seq<nat>, done: seq<StorePath>,
      dl: seq<nat>) {
    && |ql| == |queue| && |dl| == |done|
    && Levels(ql, dl)
    && Measured(fetch, root, queue, ql, done, dl)
    && Covered(fetch, root, queue, ql, done, dl)
  }

  ghost predicate Levels(ql: seq<nat>, dl: seq<nat>) {
    && Ascending(ql) && Ascending(dl)
    && (forall i :: 0 <= i < |ql| ==> ql[i] <= ql[0] + 1)
    && (forall i, j :: 0 <= i < |dl| && 0 <= j < |ql| ==> dl[i] <= ql[j])
  }

  ghost predicate Measured(fetch: Fetch, root: StorePath, queue: seq<StorePath>, ql: seq<nat>, done: seq<StorePath>,
      dl: seq<nat>)
    requires |ql| == |queue| && |dl| == |done|
  {
    && (forall i :: 0 <= i < |queue| ==> ReachedIn(fetch, root, queue[i], ql[i]))
    && (forall i :: 0 <= i < |done| ==> IsDistance(fetch, root, done[i], dl[i]))
  }

  ghost predicate KnownBy(x: StorePath, k: nat, queue: seq<StorePath>, ql: seq<nat>, done: seq<StorePath>, dl: seq<nat>)
    requires |ql| == |queue| && |dl| == |done|
  {
    DoneBy(x, k, done, dl) || QueuedBy(x, k, queue, ql)
  }

  ghost predicate Covered(fetch: Fetch, root: StorePath, queue: seq<StorePath>, ql: seq<nat>, done: seq<StorePath>,
      dl: seq<nat>)
    requires |ql| == |queue| && |dl| == |done|
  {
    && (forall i, c :: 0 <= i < |done| && c in Children(fetch, done[i]) ==> KnownBy(c, dl[i] + 1, queue, ql, done, dl))
    && KnownBy(root, 0, queue, ql, done, dl)
  }

  /** `dl` are the distances of `done`, nearest first. */
  ghost predicate Distances(fetch: Fetch, root: StorePath, done: seq<StorePath>, dl: seq<nat>) {
    |dl| == |done| && Ascending(dl) && forall i :: 0 <= i < |done| ==> IsDistance(fetch, root, done[i], dl[i])
  }

  ghost predicate ByDistance(fetch: Fetch, root: StorePath, done: seq<StorePath>) {
    exists dl: seq<nat> :: Distances(fetch, root, done, dl)
  }

  /** Whatever is within `k` references of the root is resolved by level `k`, or the head of the queue is that near. */
  lemma {:induction false} NearIsDoneOrQueued(fetch: Fetch, root: StorePath, queue: seq<StorePath>, ql: seq<nat>,
                                              done: seq<StorePath>, dl: seq<nat>, x: StorePath, k: nat)
    requires Bfs(fetch, root, queue, ql, done, dl) && ReachedIn(fetch, root, x, k)
    ensures DoneBy(x, k, done, dl) || (queue != [] && ql[0] <= k)
    decreases k
  {
    hide ReachedIn, Children, Measured;
    if k == 0 {
      ReachedInZero(fetch, root, x);
      KnownIsDoneOrHead(root, 0, queue, ql, done, dl);
    } else {
      var parent := ReachedLast(fetch, root, x, k);
      NearIsDoneOrQueued(fetch, root, queue, ql, done, dl, parent, k - 1);
      if DoneBy(parent, k - 1, done, dl) {
        var i :| 0 <= i < |done| && done[i] == parent && dl[i] <= k - 1;
        assert KnownBy(x, dl[i] + 1, queue, ql, done, dl);
        KnownIsDoneOrHead(x, dl[i] + 1, queue, ql, done, dl);
        DoneByLater(x, dl[i] + 1, k, done, dl);
      }
    }
  }

  lemma ReachedInZero(fetch: Fetch, root: StorePath, x: StorePath)
    requires ReachedIn(fetch, root, x, 0)
    ensures x == root
  {
  }

  lemma KnownIsDoneOrHead(x: StorePath, k: nat, queue: seq<StorePath>, ql: seq<nat>, done: seq<StorePath>, dl: seq<nat>)
    requires |ql| == |queue| && |dl| == |done| && Levels(ql, dl) && KnownBy(x, k, queue, ql, done, dl)
    ensures DoneBy(x, k, done, dl) || (queue != [] && ql[0] <= k)
  {
    if QueuedBy(x, k, queue, ql) {
      var i :| 0 <= i < |queue| && queue[i] == x && ql[i] <= k;
      assert i > 0 ==> ql[0] <= ql[i];
    }
  }

  lemma DoneByLater(x: StorePath, j: nat, k: nat, done: seq<StorePath>, dl: seq<nat>)
    requires |dl| == |done| && j <= k
    ensures DoneBy(x, j, done, dl) ==> DoneBy(x, k, done, dl)
  {
  }

  lemma HeadDistance(fetch: Fetch, root: StorePath, queue: seq<StorePath>, ql: seq<nat>, done: seq<StorePath>,
      dl: seq<nat>)
    requires Bfs(fetch, root, queue, ql, done, dl) && queue != [] && queue[0] !in done
    ensures IsDistance(fetch, root, queue[0], ql[0])
  {
    forall j: nat | ReachedIn(fetch, root, queue[0], j)
      ensures ql[0] <= j
    {
      NearIsDoneOrQueued(fetch, root, queue, ql, done, dl, queue[0], j);
    }
  }

  /** A path resolved already, and reachable in `k` references, was resolved at a level of at most `k`. */
  lemma ResolvedNear(fetch: Fetch, root: StorePath, done: seq<StorePath>, dl: seq<nat>, x: StorePath, k: nat)
    requires |dl| == |done| && x in done && ReachedIn(fetch, root, x, k)
    requires forall i :: 0 <= i < |done| ==> IsDistance(fetch, root, done[i], dl[i])
    ensures DoneBy(x, k, done, dl)
  {
    var i :| 0 <= i < |done| && done[i] == x;
    assert IsDistance(fetch, root, done[i], dl[i]);
  }

  lemma QueuedTail(c: StorePath, k: nat, queue: seq<StorePath>, ql: seq<nat>)
    requires |ql| == |queue| && QueuedBy(c, k, queue, ql) && queue != []
    ensures (c == queue[0] && ql[0] <= k) || QueuedBy(c, k, queue[1..], ql[1..])
  {
    var i :| 0 <= i < |queue| && queue[i] == c && ql[i] <= k;
    if i > 0 {
      assert queue[1..][i - 1] == c && ql[1..][i - 1] <= k;
    }
  }

  lemma QueuedMore(c: StorePath, k: nat, queue: seq<StorePath>, ql: seq<nat>, more: seq<StorePath>, ml: seq<nat>)
    requires |ql| == |queue| && |ml| == |more| && QueuedBy(c, k, queue, ql)
    ensures QueuedBy(c, k, queue + more, ql + ml)
  {
    var i :| 0 <= i < |queue| && queue[i] == c && ql[i] <= k;
    assert (queue + more)[i] == c && (ql + ml)[i] <= k;
  }

  /** Dropping a head that has been resolved before. */
  lemma BfsSkip(fetch: Fetch, root: StorePath, queue: seq<StorePath>, ql: seq<nat>, done: seq<StorePath>, dl: seq<nat>)
    requires Bfs(fetch, root, queue, ql, done, dl) && queue != [] && queue[0] in done
    ensures Bfs(fetch, root, queue[1..], ql[1..], done, dl)
  {
    hide IsDistance, ReachedIn, Children;
    forall c, k: nat | KnownBy(c, k, queue, ql, done, dl)
      ensures KnownBy(c, k, queue[1..], ql[1..], done, dl)
    {
      if QueuedBy(c, k, queue, ql) {
        QueuedTail(c, k, queue, ql);
        if c == queue[0] && ql[0] <= k {
          assert ReachedIn(fetch, root, queue[0], ql[0]);
          ResolvedNear(fetch, root, done, dl, c, ql[0]);
        }
      }
    }
    hide KnownBy;
  }

  lemma DoneMore(c: StorePath, k: nat, done: seq<StorePath>, dl: seq<nat>, x: StorePath, l: nat)
    requires |dl| == |done|
    ensures DoneBy(c, k, done, dl) ==> DoneBy(c, k, done + [x], dl + [l])
    ensures l <= k ==> DoneBy(x, k, done + [x], dl + [l])
  {
    if DoneBy(c, k, done, dl) {
      var i :| 0 <= i < |done| && done[i] == c && dl[i] <= k;
      assert (done + [x])[i] == c && (dl + [l])[i] <= k;
    }
    assert (done + [x])[|done|] == x && (dl + [l])[|done|] == l;
  }

  lemma LevelsResolve(ql: seq<nat>, dl: seq<nat>, ml: seq<nat>)
    requires ql != [] && Levels(ql, dl) && forall i :: 0 <= i < |ml| ==> ml[i] == ql[0] + 1
    ensures Levels(ql[1..] + ml, dl + [ql[0]])
  {
  }

  lemma MeasuredResolve(fetch: Fetch, root: StorePath, queue: seq<StorePath>, ql: seq<nat>, done: seq<StorePath>,
      dl: seq<nat>,
                        queued: seq<StorePath>, ml: seq<nat>)
    requires |ql| == |queue| > 0 && |dl| == |done| && |ml| == |queued|
    requires Measured(fetch, root, queue, ql, done, dl) && IsDistance(fetch, root, queue[0], ql[0])
    requires forall c :: c in queued ==> c in Children(fetch, queue[0])
    requires forall i :: 0 <= i < |ml| ==> ml[i] == ql[0] + 1
    ensures Measured(fetch, root, queue[1..] + queued, ql[1..] + ml, done + [queue[0]], dl + [ql[0]])
  {
    hide Children, ReachedIn;
    var queue', ql' := queue[1..] + queued, ql[1..] + ml;
    forall i | 0 <= i < |queue'|
      ensures ReachedIn(fetch, root, queue'[i], ql'[i])
    {
      if i < |queue| - 1 {
        assert ReachedIn(fetch, root, queue[i + 1], ql[i + 1]);
      } else {
        assert queue'[i] in queued;
        ChildReached(fetch, root, queue[0], ql[0], queue'[i]);
      }
    }
  }

  lemma KnownStays(c: StorePath, k: nat, queue: seq<StorePath>, ql: seq<nat>, done: seq<StorePath>, dl: seq<nat>,
                   queued: seq<StorePath>, ml: seq<nat>)
    requires |ql| == |queue| > 0 && |dl| == |done| && |ml| == |queued|
    requires KnownBy(c, k, queue, ql, done, dl)
    ensures KnownBy(c, k, queue[1..] + queued, ql[1..] + ml, done + [queue[0]], dl + [ql[0]])
  {
    hide DoneBy, QueuedBy;
    DoneMore(c, k, done, dl, queue[0], ql[0]);
    if QueuedBy(c, k, queue, ql) {
      QueuedTail(c, k, queue, ql);
      if QueuedBy(c, k, queue[1..], ql[1..]) {
        QueuedMore(c, k, queue[1..], ql[1..], queued, ml);
      }
    }
  }

  lemma ChildKnown(fetch: Fetch, root: StorePath, c: StorePath, l: nat, front: seq<StorePath>, fl: seq<nat>,
                   queued: seq<StorePath>, ml: seq<nat>, done: seq<StorePath>, dl: seq<nat>)
    requires |fl| == |front| && |dl| == |done| && |ml| == |queued|
    requires Measured(fetch, root, front + queued, fl + ml, done, dl)
    requires forall i :: 0 <= i < |ml| ==> ml[i] == l + 1
    requires ReachedIn(fetch, root, c, l + 1) && (c in done || c in queued)
    ensures KnownBy(c, l + 1, front + queued, fl + ml, done, dl)
  {
    hide ReachedIn, IsDistance;
    if c in done {
      ResolvedNear(fetch, root, done, dl, c, l + 1);
    } else {
      var i :| 0 <= i < |queued| && queued[i] == c;
      assert (front + queued)[|front| + i] == c && (fl + ml)[|front| + i] == l + 1;
    }
  }

  /** Resolving a new head and queueing its unresolved references one level further out. */
  lemma BfsResolve(fetch: Fetch, root: StorePath, queue: seq<StorePath>, ql: seq<nat>, done: seq<StorePath>,
      dl: seq<nat>,
                   queued: seq<StorePath>)
    requires Bfs(fetch, root, queue, ql, done, dl) && queue != [] && queue[0] !in done
    requires forall c :: c in queued <==> c in Children(fetch, queue[0]) && c !in done + [queue[0]]
    ensures Bfs(fetch, root, queue[1..] + queued, ql[1..] + seq(|queued|, _ => ql[0] + 1),
                done + [queue[0]], dl + [ql[0]])
  {
    var ml := seq(|queued|, _ => ql[0] + 1);
    HeadDistance(fetch, root, queue, ql, done, dl);
    LevelsResolve(ql, dl, ml);
    MeasuredResolve(fetch, root, queue, ql, done, dl, queued, ml);
    CoveredResolve(fetch, root, queue, ql, done, dl, queued, ml);
    hide ReachedIn, Children, Levels, Measured, Covered, IsDistance;
  }

  lemma CoveredResolve(fetch: Fetch, root: StorePath, queue: seq<StorePath>, ql: seq<nat>, done: seq<StorePath>,
      dl: seq<nat>,
                       queued: seq<StorePath>, ml: seq<nat>)
    requires |ql| == |queue| > 0 && |dl| == |done| && |ml| == |queued|
    requires Covered(fetch, root, queue, ql, done, dl)
    requires Measured(fetch, root, queue[1..] + queued, ql[1..] + ml, done + [queue[0]], dl + [ql[0]])
    requires forall i :: 0 <= i < |ml| ==> ml[i] == ql[0] + 1
    requires ReachedIn(fetch, root, queue[0], ql[0])
    requires forall c :: c in queued <==> c in Children(fetch, queue[0]) && c !in done + [queue[0]]
    ensures Covered(fetch, root, queue[1..] + queued, ql[1..] + ml, done + [queue[0]], dl + [ql[0]])
  {
    hide ReachedIn, Children, Measured, KnownBy;
    var x, l := queue[0], ql[0];
    var done', dl', queue', ql' := done + [x], dl + [l], queue[1..] + queued, ql[1..] + ml;
    forall i, c | 0 <= i < |done'| && c in Children(fetch, done'[i])
      ensures KnownBy(c, dl'[i] + 1, queue', ql', done', dl')
    {
      if i < |done| {
        assert c in Children(fetch, done[i]);
        KnownStays(c, dl[i] + 1, queue, ql, done, dl, queued, ml);
      } else {
        ChildReached(fetch, root, x, l, c);
        ChildKnown(fetch, root, c, l, queue[1..], ql[1..], queued, ml, done', dl');
      }
    }
    KnownStays(root, 0, queue, ql, done, dl, queued, ml);
  }

  lemma BfsStart(fetch: Fetch, root: StorePath)
    ensures Bfs(fetch, root, [root], [0], [], [])
  {
    RootReached(fetch, root);
    assert [root][0] == root && [0][0] == 0;
    assert QueuedBy(root, 0, [root], [0]);
  }

  //////////////////////////////////////////////////////////////////////////////
  // First come, first served, one fetch at a time
  //////////////////////////////////////////////////////////////////////////////

  /** The elements of `xs` that are not in `seen`, in their order. */
  function AppendNew(seen: seq<StorePath>, xs: seq<StorePath>): seq<StorePath> {
    if xs == [] then []
    else (if xs[0] in seen then [] else [xs[0]]) + AppendNew(seen, xs[1..])
  }

  /** `xs` appended to `seen`, keeping only first occurrences. */
  function Dedup(seen: seq<StorePath>, xs: seq<StorePath>): seq<StorePath>
    decreases |xs|
  {
    if xs == [] then seen
    else if xs[0] in seen then Dedup(seen, xs[1..])
    else Dedup(seen + [xs[0]], xs[1..])
  }

  /** Everything the resolved paths referenced, in the order in which it was listed. */
  function Mentioned(fetch: Fetch, root: StorePath, done: seq<StorePath>): seq<StorePath> {
    if done == [] then [root]
    else Mentioned(fetch, root, done[..|done| - 1]) + Children(fetch, done[|done| - 1])
  }

  /** The order of first mention. */
  ghost predicate SerialOrder(fetch: Fetch, root: StorePath, done: seq<StorePath>) {
    done == Dedup([], Mentioned(fetch, root, done))
  }

  /** Resolved and waiting paths together are what has been mentioned. */
  ghost predicate Serial(fetch: Fetch, root: StorePath, queue: seq<StorePath>, done: seq<StorePath>) {
    Dedup(done, queue) == Dedup([], Mentioned(fetch, root, done))
  }

  lemma {:induction false} DedupAppend(seen: seq<StorePath>, a: seq<StorePath>, b: seq<StorePath>)
    ensures Dedup(seen, a + b) == Dedup(Dedup(seen, a), b)
    decreases |a|
  {
    if a == [] {
      assert a + b == b;
    } else {
      assert (a + b)[1..] == a[1..] + b;
      DedupAppend(if a[0] in seen then seen else seen + [a[0]], a[1..], b);
    }
  }

  lemma {:induction false} DedupKeeps(seen: seq<StorePath>, xs: seq<StorePath>, x: StorePath)
    requires x in seen
    ensures x in Dedup(seen, xs)
    decreases |xs|
  {
    if xs != [] {
      DedupKeeps(if xs[0] in seen then seen else seen + [xs[0]], xs[1..], x);
    }
  }

  /** Leaving out what was seen before changes nothing. */
  lemma {:induction false} DedupAppendNew(old_: seq<StorePath>, seen: seq<StorePath>, xs: seq<StorePath>)
    requires forall x :: x in old_ ==> x in seen
    ensures Dedup(seen, AppendNew(old_, xs)) == Dedup(seen, xs)
    decreases |xs|
  {
    if xs != [] {
      var seen' := if xs[0] in seen then seen else seen + [xs[0]];
      DedupAppendNew(old_, seen', xs[1..]);
      if xs[0] in old_ {
        assert [] + AppendNew(old_, xs[1..]) == AppendNew(old_, xs[1..]);
      } else {
        assert ([xs[0]] + AppendNew(old_, xs[1..]))[1..] == AppendNew(old_, xs[1..]);
      }
    }
  }

  lemma SerialStart(fetch: Fetch, root: StorePath)
    ensures Serial(fetch, root, [root], [])
  {
  }

  lemma SerialStep(fetch: Fetch, root: StorePath, queue: seq<StorePath>, done: seq<StorePath>)
    requires Serial(fetch, root, queue, done) && queue != []
    ensures queue[0] in done ==> Serial(fetch, root, queue[1..], done)
    ensures queue[0] !in done ==>
              var done' := done + [queue[0]];
              Serial(fetch, root, queue[1..] + AppendNew(done', Children(fetch, queue[0])), done')
  {
    hide Children;
    var x, rest := queue[0], queue[1..];
    if x !in done {
      var done', children := done + [x], Children(fetch, x);
      assert done'[..|done'| - 1] == done;
      var all := Mentioned(fetch, root, done);
      DedupAppend([], all, children);
      DedupAppend(done', rest, children);
      DedupAppend(done', rest, AppendNew(done', children));
      forall y | y in done'
        ensures y in Dedup(done', rest)
      {
        DedupKeeps(done', rest, y);
      }
      DedupAppendNew(done', Dedup(done', rest), children);
    }
  }

  //////////////////////////////////////////////////////////////////////////////
  // The search
  //////////////////////////////////////////////////////////////////////////////

  datatype ResolvedClosure = ResolvedClosure(narinfos: map<string, NarInfo>, paths: seq<string>)

  /** More references than the whole reachable graph holds are needed to use up the time. */
  ghost predicate OutOfTime(fetch: Fetch, root: StorePath, deadline: nat) {
    forall u: set<StorePath> :: (forall sp :: Reachable(fetch, root, sp) ==> sp in u) ==>
      deadline < SetSum(u, ReferenceCount(fetch))
  }

  lemma OutOfTimeMeans(fetch: Fetch, root: StorePath, done: seq<StorePath>, iterations: nat, deadline: nat)
    requires Distinct(done) && forall d :: d in done ==> Reachable(fetch, root, d)
    requires deadline < iterations <= SeqSum(done, ReferenceCount(fetch))
    ensures OutOfTime(fetch, root, deadline)
  {
    hide Reachable;
    forall u: set<StorePath> | forall sp :: Reachable(fetch, root, sp) ==> sp in u
      ensures deadline < SetSum(u, ReferenceCount(fetch))
    {
      SeqSumWithin(done, u, ReferenceCount(fetch));
    }
  }

  //////////////////////////////////////////////////////////////////////////////
  // Schedules
  //////////////////////////////////////////////////////////////////////////////

  /** The paths of a batch that are launched: not resolved before, and each once. */
  function Fresh(done: seq<StorePath>, batch: seq<StorePath>): seq<StorePath> {
    if batch == [] then []
    else
      var init, last := Fresh(done, batch[..|batch| - 1]), batch[|batch| - 1];
      if last in done || last in init then init else init + [last]
  }

  /** What the completed fetches of a batch queue, in the order in which they completed. */
  function Queued(fetch: Fetch, seen: seq<StorePath>, finished: seq<StorePath>): seq<StorePath> {
    if finished == [] then []
    else
      Queued(fetch, seen, finished[..|finished| - 1]) + AppendNew(seen, Children(fetch, finished[|finished| - 1]))
  }

  datatype Search = Search(queue: seq<StorePath>, done: seq<StorePath>)

  function Min(a: nat, b: nat): nat { if a < b then a else b }

  /** One batch of at most `concurrency` paths, whose fetches complete in the order `finished`. */
  ghost predicate Completes(fetch: Fetch, concurrency: nat, s: Search, finished: seq<StorePath>, s': Search) {
    var n := Min(|s.queue|, concurrency);
    var fresh_ := Fresh(s.done, s.queue[..n]);
    && multiset(finished) == multiset(fresh_) && (forall x :: x in finished ==> fetch(x).Ok?)
    && s'.done == s.done + finished
    && s'.queue == s.queue[n..] + Queued(fetch, s.done + fresh_, finished)
  }

  ghost predicate Batch(fetch: Fetch, concurrency: nat, s: Search, s': Search) {
    exists finished :: Completes(fetch, concurrency, s, finished, s')
  }

  /** One of the fetches of the next batch fails. */
  ghost predicate Stops(fetch: Fetch, concurrency: nat, s: Search) {
    exists sp :: sp in Fresh(s.done, s.queue[..Min(|s.queue|, concurrency)]) && !fetch(sp).Ok?
  }

  /** The states between the batches of one run. */
  ghost predicate Trace(fetch: Fetch, root: StorePath, concurrency: nat, trace: seq<Search>) {
    && trace != [] && trace[0] == Search([root], [])
    && forall i :: 0 < i < |trace| ==> Batch(fetch, concurrency, trace[i - 1], trace[i])
  }

  /** Some schedule of the search returns this order. */
  ghost predicate Returns(fetch: Fetch, root: StorePath, concurrency: nat, done: seq<StorePath>) {
    exists trace :: Trace(fetch, root, concurrency, trace) && trace[|trace| - 1] == Search([], done)
  }

  lemma {:induction false} AppendNewSame(a: seq<StorePath>, b: seq<StorePath>, xs: seq<StorePath>)
    requires forall x :: x in a <==> x in b
    ensures AppendNew(a, xs) == AppendNew(b, xs)
  {
    if xs != [] {
      AppendNewSame(a, b, xs[1..]);
    }
  }

  /** Some fetches of a batch have completed, the others are pending. */
  ghost predicate Collected(fetch: Fetch, queue0: seq<StorePath>, futures: seq<StorePath>, done0: seq<StorePath>,
                            finished: seq<StorePath>, pending: seq<StorePath>, queue: seq<StorePath>,
                                done: seq<StorePath>)
  {
    && multiset(finished) + multiset(pending) == multiset(futures) && (forall x :: x in finished ==> fetch(x).Ok?)
    && done == done0 + finished
    && queue == queue0 + Queued(fetch, done0 + futures, finished)
  }

  lemma CollectedStep(fetch: Fetch, queue0: seq<StorePath>, futures: seq<StorePath>, done0: seq<StorePath>,
                      finished: seq<StorePath>, pending: seq<StorePath>, queue: seq<StorePath>, done: seq<StorePath>,
                          i: nat)
    requires Collected(fetch, queue0, futures, done0, finished, pending, queue, done) && i < |pending|
    requires fetch(pending[i]).Ok?
    ensures Collected(fetch, queue0, futures, done0, finished + [pending[i]], Without(pending, i),
                      queue + AppendNew(done + pending, Children(fetch, pending[i])), done + [pending[i]])
  {
    hide Children, AppendNew;
    var x := pending[i];
    OneFinishes(finished, pending, i);
    assert (finished + [x])[..|finished|] == finished;
    forall y
      ensures y in done + pending <==> y in done0 + futures
    {
      SplitMembers(finished, pending, futures, y);
    }
    AppendNewSame(done + pending, done0 + futures, Children(fetch, x));
  }

  lemma OneFinishes(finished: seq<StorePath>, pending: seq<StorePath>, i: nat)
    requires i < |pending|
    ensures multiset(finished + [pending[i]]) + multiset(Without(pending, i)) == multiset(finished) + multiset(pending)
  {
    assert pending == pending[..i] + [pending[i]] + pending[i + 1..];
  }

  lemma SplitMembers(finished: seq<StorePath>, pending: seq<StorePath>, futures: seq<StorePath>, y: StorePath)
    requires multiset(finished) + multiset(pending) == multiset(futures)
    ensures y in finished || y in pending <==> y in futures
  {
    assert y in finished || y in pending <==> y in multiset(finished) + multiset(pending);
    assert y in futures <==> y in multiset(futures);
  }

  lemma TraceGrows(fetch: Fetch, root: StorePath, concurrency: nat, trace: seq<Search>, s: Search)
    requires Trace(fetch, root, concurrency, trace) && Batch(fetch, concurrency, trace[|trace| - 1], s)
    ensures Trace(fetch, root, concurrency, trace + [s])
  {
    hide Batch;
    var t := trace + [s];
    forall i | 0 < i < |t|
      ensures Batch(fetch, concurrency, t[i - 1], t[i])
    {
      if i < |trace| {
        assert t[i - 1] == trace[i - 1] && t[i] == trace[i];
      }
    }
  }

  //////////////////////////////////////////////////////////////////////////////
  // The search as it is written
  //////////////////////////////////////////////////////////////////////////////

  /** Looks at one batch: paths with a visited key are dropped, the others are marked and launched. */
  method LaunchBatch(fetch: Fetch, root: StorePath, visited: set<string>, batch: seq<StorePath>,
                     ghost narinfos: map<string, NarInfo>, ghost queue: seq<StorePath>, ghost done: seq<StorePath>)
    returns (visited': set<string>, futures: seq<StorePath>)
    requires Inv(fetch, root, visited, narinfos, batch + queue, [], done)
    ensures Inv(fetch, root, visited', narinfos, queue, futures, done)
    ensures futures == Fresh(done, batch)
  {
    hide Inv, Display;
    visited', futures := visited, [];
    var k := 0;
    assert batch[0..] == batch;
    while k < |batch|
      invariant 0 <= k <= |batch|
      invariant Inv(fetch, root, visited', narinfos, batch[k..] + queue, futures, done)
      invariant futures == Fresh(done, batch[..k])
    {
      var sp := batch[k];
      InvLaunch(fetch, root, visited', narinfos, batch[k..] + queue, futures, done);
      assert (batch[k..] + queue)[1..] == batch[k + 1..] + queue;
      assert (batch[k..] + queue)[0] == sp;
      assert batch[..k + 1][..k] == batch[..k];
      var key := Display(sp);
      if key !in visited' {
        visited' := visited' + {key};
        futures := futures + [sp];
      }
      k := k + 1;
    }
    assert batch[k..] + queue == queue && batch[..k] == batch;
  }

  /** The outcome of one iteration of the search. */
  ghost predicate Progress(fetch: Fetch, root: StorePath, batch: seq<StorePath>, queue0: seq<StorePath>,
      done0: seq<StorePath>,
                           queue: seq<StorePath>, done: seq<StorePath>)
  {
    && (batch == [] ==> queue == queue0 && done == done0)
    && |queue| + SeqSum(done0, ReferenceCount(fetch)) <= |queue0| + SeqSum(done, ReferenceCount(fetch))
    && (|batch| == 1 && batch[0] in done0 ==> queue == queue0 && done == done0)
    && (|batch| == 1 && batch[0] !in done0 ==>
          && done == done0 + batch
          && |queue| >= |queue0| && queue[..|queue0|] == queue0
          && queue[|queue0|..] == AppendNew(done, Children(fetch, batch[0]))
          && forall c :: c in queue[|queue0|..] <==> c in Children(fetch, batch[0]) && c !in done)
  }

  /** Some fetches of the batch are still pending; with a batch of one, nothing has happened yet. */
  ghost predicate Partway(fetch: Fetch, root: StorePath, batch: seq<StorePath>, queue0: seq<StorePath>,
      done0: seq<StorePath>,
                          pending: seq<StorePath>, queue: seq<StorePath>, done: seq<StorePath>)
  {
    && (pending == [] ==> Progress(fetch, root, batch, queue0, done0, queue, done))
    && (pending != [] ==> batch != [])
    && (pending != [] && |batch| == 1 ==> pending == batch && queue == queue0 && done == done0 && batch[0] !in done0)
    && |queue| + SeqSum(done0, ReferenceCount(fetch)) <= |queue0| + SeqSum(done, ReferenceCount(fetch))
  }

  lemma PartwayStart(fetch: Fetch, root: StorePath, batch: seq<StorePath>, queue: seq<StorePath>, done: seq<StorePath>,
      futures: seq<StorePath>)
    requires batch == [] ==> futures == []
    requires |batch| == 1 ==> futures == (if batch[0] in done then [] else batch)
    ensures Partway(fetch, root, batch, queue, done, futures, queue, done)
  {
  }

  lemma PartwayStep(fetch: Fetch, root: StorePath, batch: seq<StorePath>, queue0: seq<StorePath>, done0: seq<StorePath>,
                    pending: seq<StorePath>, queue: seq<StorePath>, done: seq<StorePath>, i: nat,
                        queued: seq<StorePath>)
    requires Partway(fetch, root, batch, queue0, done0, pending, queue, done) && i < |pending|
    requires |queued| <= ReferenceCount(fetch)(pending[i])
    requires |pending| == 1 ==>
               && queued == AppendNew(done + pending, Children(fetch, pending[i]))
               && forall c :: c in queued <==> c in Children(fetch, pending[i]) && c !in done + [pending[i]]
    ensures Partway(fetch, root, batch, queue0, done0, Without(pending, i), queue + queued, done + [pending[i]])
  {
    hide Children;
    SeqSumAppend(done, pending[i], ReferenceCount(fetch));
    hide ReferenceCount, SeqSum;
    if |batch| == 1 {
      assert pending == [pending[i]] == batch;
      assert (queue + queued)[|queue0|..] == queued && (queue + queued)[..|queue0|] == queue0;
    }
  }

  /** Takes completed fetches in an arbitrary order until none is left or one has failed. */
  method CollectBatch(fetch: Fetch, root: StorePath, visited: set<string>, narinfos: map<string, NarInfo>,
      order: seq<string>,
                      queue: seq<StorePath>, futures: seq<StorePath>, ghost batch: seq<StorePath>,
                          ghost done: seq<StorePath>)
    returns (ok: bool, narinfos': map<string, NarInfo>, order': seq<string>, queue': seq<StorePath>,
        ghost done': seq<StorePath>,
             ghost finished: seq<StorePath>)
    requires GoodReferences(fetch)
    requires Inv(fetch, root, visited, narinfos, queue, futures, done) && order == Shown(done)
    requires futures == Fresh(done, batch)
    ensures ok ==> Inv(fetch, root, visited, narinfos', queue', [], done') && order' == Shown(done')
    ensures ok ==> Progress(fetch, root, batch, queue, done, queue', done')
    ensures ok ==> Collected(fetch, queue, futures, done, finished, [], queue', done')
    ensures !ok ==> exists sp :: sp in futures && Reachable(fetch, root, sp) && !fetch(sp).Ok?
  {
    FreshOfOne(done, batch);
    PartwayStart(fetch, root, batch, queue, done, futures);
    CollectedStart(fetch, queue, futures, done);
    hide *;
    narinfos', order', queue', done' := narinfos, order, queue, done;
    finished := [];
    var pending := futures;
    while |pending| > 0
      invariant Inv(fetch, root, visited, narinfos', queue', pending, done') && order' == Shown(done')
      invariant Partway(fetch, root, batch, queue, done, pending, queue', done')
      invariant Collected(fetch, queue, futures, done, finished, pending, queue', done')
      decreases |pending|
    {
      var i :| 0 <= i < |pending|;
      var sp := pending[i];
      var result := fetch(sp);
      if !result.Ok? {
        PendingReachable(fetch, root, visited, narinfos', queue', pending, done', i);
        PendingOfBatch(fetch, queue, futures, done, finished, pending, queue', done', i);
        ok := false;
        return;
      }
      InvComplete(fetch, root, visited, narinfos', queue', pending, done', i);
      CollectedOne(fetch, root, visited, narinfos', queue', pending, done', i);
      PartwayStep(fetch, root, batch, queue, done, pending, queue', done', i,
          Unvisited(visited, result.value.references));
      CollectedStep(fetch, queue, futures, done, finished, pending, queue', done', i);
      GoodReferencesOf(fetch, sp);
      var q := PushReferences(visited, result.value.references, queue');
      ShownAppend(done', sp);
      queue', done', finished := q, done' + [sp], finished + [sp];
      order' := order' + [Display(sp)];
      narinfos' := narinfos'[Display(sp) := result.value];
      pending := Without(pending, i);
    }
    assert pending == [];
    PartwayEnd(fetch, root, batch, queue, done, queue', done');
    ok := true;
  }

  lemma FreshOfOne(done: seq<StorePath>, batch: seq<StorePath>)
    ensures batch == [] ==> Fresh(done, batch) == []
    ensures |batch| == 1 ==> Fresh(done, batch) == (if batch[0] in done then [] else batch)
  {
    if |batch| == 1 {
      assert Fresh(done, batch[..0]) == [];
    }
  }

  lemma CollectedStart(fetch: Fetch, queue: seq<StorePath>, futures: seq<StorePath>, done: seq<StorePath>)
    ensures Collected(fetch, queue, futures, done, [], futures, queue, done)
  {
  }

  lemma ShownAppend(xs: seq<StorePath>, x: StorePath)
    ensures Shown(xs + [x]) == Shown(xs) + [Display(x)]
  {
    hide Display;
  }

  lemma PartwayEnd(fetch: Fetch, root: StorePath, batch: seq<StorePath>, queue0: seq<StorePath>, done0: seq<StorePath>,
                   queue: seq<StorePath>, done: seq<StorePath>)
    requires Partway(fetch, root, batch, queue0, done0, [], queue, done)
    ensures Progress(fetch, root, batch, queue0, done0, queue, done)
  {
  }

  lemma GoodReferencesOf(fetch: Fetch, sp: StorePath)
    requires GoodReferences(fetch) && fetch(sp).Ok?
    ensures forall r :: r in fetch(sp).value.references ==> ParseBasename(r).Ok?
  {
  }

  lemma PendingOfBatch(fetch: Fetch, queue0: seq<StorePath>, futures: seq<StorePath>, done0: seq<StorePath>,
      finished: seq<StorePath>, pending: seq<StorePath>, queue: seq<StorePath>, done: seq<StorePath>, i: nat)
    requires Collected(fetch, queue0, futures, done0, finished, pending, queue, done) && i < |pending|
    ensures pending[i] in futures
  {
    assert pending[i] in multiset(finished) + multiset(pending);
  }

  lemma PendingReachable(fetch: Fetch, root: StorePath, visited: set<string>, narinfos: map<string, NarInfo>,
                         queue: seq<StorePath>, pending: seq<StorePath>, done: seq<StorePath>, i: nat)
    requires Inv(fetch, root, visited, narinfos, queue, pending, done) && i < |pending|
    ensures Reachable(fetch, root, pending[i])
  {
    hide Reachable, Resolved, Discovered;
    assert pending[i] in pending;
  }

  lemma {:induction false} UnvisitedIsFilter(visited: set<string>, refs: seq<string>, seen: seq<StorePath>)
    requires visited == Keys(seen) && AllValid(seen)
    requires forall r :: r in refs ==> ParseBasename(r).Ok?
    ensures Unvisited(visited, refs) == AppendNew(seen, ParsedRefs(refs))
  {
    hide Parse, Display, ParseBasename, RefToPath, Keys;
    if refs != [] {
      UnvisitedIsFilter(visited, refs[1..], seen);
      ReferenceKeysAgree(refs[0]);
      var sp := Parse(RefToPath(refs[0])).value;
      ParseThenPrint(RefToPath(refs[0]));
      KeyMeansMember(sp, seen);
      assert ([sp] + ParsedRefs(refs[1..]))[1..] == ParsedRefs(refs[1..]);
    }
  }

  lemma CollectedOne(fetch: Fetch, root: StorePath, visited: set<string>, narinfos: map<string, NarInfo>,
                     queue: seq<StorePath>, pending: seq<StorePath>, done: seq<StorePath>, i: nat)
    requires Inv(fetch, root, visited, narinfos, queue, pending, done) && GoodReferences(fetch)
    requires i < |pending| && fetch(pending[i]).Ok?
    ensures var queued := Unvisited(visited, fetch(pending[i]).value.references);
            && |queued| <= ReferenceCount(fetch)(pending[i])
            && queued == AppendNew(done + pending, Children(fetch, pending[i]))
            && (|pending| == 1 ==>
                  forall c :: c in queued <==> c in Children(fetch, pending[i]) && c !in done + [pending[i]])
  {
    hide Unvisited, ParsedRefs, Reachable, Valid, ParseBasename, AppendNew;
    assert AllValid(done + pending);
    var refs := fetch(pending[i]).value.references;
    forall c
      ensures c in Unvisited(visited, refs) <==> c in ParsedRefs(refs) && c !in done + pending
    {
      UnvisitedMeaning(visited, refs, done + pending, c);
    }
    UnvisitedMeaning(visited, refs, done + pending, pending[i]);
    UnvisitedIsFilter(visited, refs, done + pending);
    if |pending| == 1 {
      assert pending == [pending[i]];
    }
  }

  /** Breadth-first search over `References`. The clock is the number of loop iterations it lets pass. */
  method ResolveClosure(fetch: Fetch, root: StorePath, concurrency: nat, deadline: nat)
    returns (r: Outcome<ResolvedClosure, Error>, ghost done: seq<StorePath>, ghost trace: seq<Search>)
    requires Valid(root) && GoodReferences(fetch)
    ensures Trace(fetch, root, concurrency, trace) && |trace| <= deadline + 2
    ensures r.Ok? <==> trace[|trace| - 1].queue == []
    ensures r.Ok? ==> trace[|trace| - 1].done == done
    ensures r == Err(Timeout) <==> |trace| == deadline + 2 && trace[|trace| - 1].queue != []
    ensures r == Err(ClosureResolution) ==> Stops(fetch, concurrency, trace[|trace| - 1])
    ensures r.Ok? ==> r.value.paths == Shown(done) && IsClosure(fetch, root, r.value.narinfos, done)
    ensures r.Ok? ==> Returns(fetch, root, concurrency, done)
    ensures r.Ok? && concurrency == 1 ==> ByDistance(fetch, root, done) && SerialOrder(fetch, root, done)
    ensures !r.Ok? ==> r == Err(Timeout) || r == Err(ClosureResolution)
    ensures r == Err(ClosureResolution) ==> exists sp :: Reachable(fetch, root, sp) && !fetch(sp).Ok?
    ensures r == Err(Timeout) && concurrency > 0 ==> OutOfTime(fetch, root, deadline)
    ensures concurrency == 0 ==> r == Err(Timeout)
  {
    hide Inv, Bfs, IsClosure, Reachable, Serial, Progress, Children, ReferenceCount, Trace, Batch, Collected, Fresh,
        Stops;
    var visited: set<string> := {};
    var narinfos: map<string, NarInfo> := map[];
    var order: seq<string> := [];
    var queue := [root];
    done := [];
    ghost var ql, dl: seq<nat> := [0], [];
    var iterations := 0;
    InvStart(fetch, root);
    BfsStart(fetch, root);
    SerialStart(fetch, root);
    trace := [Search([root], [])];
    assert Trace(fetch, root, concurrency, trace) by { TraceStart(fetch, root, concurrency); }
    while |queue| > 0
      invariant Inv(fetch, root, visited, narinfos, queue, [], done) && order == Shown(done)
      invariant trace != [] && Trace(fetch, root, concurrency, trace) && trace[|trace| - 1] == Search(queue, done)
      invariant concurrency == 0 ==> |queue| > 0
      invariant concurrency > 0 ==> iterations + |queue| <= 1 + SeqSum(done, ReferenceCount(fetch))
      invariant concurrency == 1 ==> Bfs(fetch, root, queue, ql, done, dl) && Serial(fetch, root, queue, done)
      invariant iterations <= deadline + 1 && |trace| == iterations + 1
      decreases deadline + 1 - iterations
    {
      if iterations > deadline {
        InvBasics(fetch, root, visited, narinfos, queue, done);
        if concurrency > 0 {
          OutOfTimeMeans(fetch, root, done, iterations, deadline);
        }
        return Err(Timeout), done, trace;
      }
      iterations := iterations + 1;
      var n := if |queue| < concurrency then |queue| else concurrency;
      var batch := queue[..n];
      ghost var queue0, done0 := queue, done;
      queue := queue[n..];
      assert batch + queue == queue0;
      var futures;
      visited, futures := LaunchBatch(fetch, root, visited, batch, narinfos, queue, done);
      FreshOfOne(done0, batch);
      ghost var rest := queue;
      var ok;
      ghost var finished;
      ok, narinfos, order, queue, done,
          finished := CollectBatch(fetch, root, visited, narinfos, order, queue, futures, batch, done);
      if !ok {
        BatchStops(fetch, concurrency, queue0, done0, futures);
        return Err(ClosureResolution), done, trace;
      }
      ProgressBound(fetch, root, batch, rest, done0, queue, done);
      BatchCompletes(fetch, concurrency, queue0, done0, futures, finished, queue, done);
      TraceGrows(fetch, root, concurrency, trace, Search(queue, done));
      trace := trace + [Search(queue, done)];
      if concurrency == 1 {
        ql, dl := BfsIteration(fetch, root, queue0, ql, done0, dl, batch, rest, queue, done);
      }
    }
    InvFinish(fetch, root, visited, narinfos, done);
    if concurrency == 1 {
      BfsFinish(fetch, root, queue, ql, done, dl);
      SerialFinish(fetch, root, done);
    }
    r := Ok(ResolvedClosure(narinfos, order));
  }

  lemma TraceStart(fetch: Fetch, root: StorePath, concurrency: nat)
    ensures Trace(fetch, root, concurrency, [Search([root], [])])
  {
  }

  lemma BatchStops(fetch: Fetch, concurrency: nat, queue: seq<StorePath>, done: seq<StorePath>, futures: seq<StorePath>)
    requires futures == Fresh(done, queue[..Min(|queue|, concurrency)])
    requires exists sp :: sp in futures && !fetch(sp).Ok?
    ensures Stops(fetch, concurrency, Search(queue, done)) && queue != []
  {
  }

  lemma BatchCompletes(fetch: Fetch, concurrency: nat, queue0: seq<StorePath>, done0: seq<StorePath>,
      futures: seq<StorePath>,
                       finished: seq<StorePath>, queue: seq<StorePath>, done: seq<StorePath>)
    requires var n := Min(|queue0|, concurrency);
             && futures == Fresh(done0, queue0[..n])
             && Collected(fetch, queue0[n..], futures, done0, finished, [], queue, done)
    ensures Batch(fetch, concurrency, Search(queue0, done0), Search(queue, done))
  {
    hide Queued, Fresh;
    assert multiset(finished) + multiset([]) == multiset(finished);
    assert Completes(fetch, concurrency, Search(queue0, done0), finished, Search(queue, done));
  }

  lemma ProgressBound(fetch: Fetch, root: StorePath, batch: seq<StorePath>, queue0: seq<StorePath>,
      done0: seq<StorePath>,
                      queue: seq<StorePath>, done: seq<StorePath>)
    requires Progress(fetch, root, batch, queue0, done0, queue, done)
    ensures batch == [] ==> queue == queue0 && done == done0
    ensures |queue| + SeqSum(done0, ReferenceCount(fetch)) <= |queue0| + SeqSum(done, ReferenceCount(fetch))
  {
  }

  lemma InvBasics(fetch: Fetch, root: StorePath, visited: set<string>, narinfos: map<string, NarInfo>,
                  queue: seq<StorePath>, done: seq<StorePath>)
    requires Inv(fetch, root, visited, narinfos, queue, [], done)
    ensures Distinct(done) && forall d :: d in done ==> Reachable(fetch, root, d)
  {
    assert done + [] == done;
  }

  lemma BfsFinish(fetch: Fetch, root: StorePath, queue: seq<StorePath>, ql: seq<nat>, done: seq<StorePath>,
      dl: seq<nat>)
    requires Bfs(fetch, root, queue, ql, done, dl)
    ensures ByDistance(fetch, root, done)
  {
    hide IsDistance;
    assert Distances(fetch, root, done, dl);
  }

  lemma SerialFinish(fetch: Fetch, root: StorePath, done: seq<StorePath>)
    requires Serial(fetch, root, [], done)
    ensures SerialOrder(fetch, root, done)
  {
  }

  lemma BfsIteration(fetch: Fetch, root: StorePath, queue0: seq<StorePath>, ql: seq<nat>, done0: seq<StorePath>,
      dl: seq<nat>,
                     batch: seq<StorePath>, rest: seq<StorePath>, queue: seq<StorePath>, done: seq<StorePath>)
    returns (ql': seq<nat>, dl': seq<nat>)
    requires Bfs(fetch, root, queue0, ql, done0, dl) && Serial(fetch, root, queue0, done0)
    requires queue0 == batch + rest && |batch| == 1
    requires Progress(fetch, root, batch, rest, done0, queue, done)
    ensures Bfs(fetch, root, queue, ql', done, dl')
    ensures Serial(fetch, root, queue, done)
  {
    assert |ql| == |queue0|;
    var x := batch[0];
    assert queue0[0] == x && queue0[1..] == rest && batch == [x];
    ProgressOne(fetch, root, x, rest, done0, queue, done);
    hide Bfs, Children, Serial, AppendNew, Progress;
    SerialStep(fetch, root, queue0, done0);
    if x in done0 {
      BfsSkip(fetch, root, queue0, ql, done0, dl);
      ql', dl' := ql[1..], dl;
    } else {
      var queued := AppendNew(done, Children(fetch, x));
      BfsResolve(fetch, root, queue0, ql, done0, dl, queued);
      ql', dl' := ql[1..] + seq(|queued|, _ => ql[0] + 1), dl + [ql[0]];
    }
  }

  lemma ProgressOne(fetch: Fetch, root: StorePath, x: StorePath, rest: seq<StorePath>, done0: seq<StorePath>,
                    queue: seq<StorePath>, done: seq<StorePath>)
    requires Progress(fetch, root, [x], rest, done0, queue, done)
    ensures x in done0 ==> queue == rest && done == done0
    ensures x !in done0 ==>
              && done == done0 + [x] && queue == rest + AppendNew(done, Children(fetch, x))
              && forall c :: c in AppendNew(done, Children(fetch, x)) <==> c in Children(fetch, x) && c !in done
  {
    hide Children, AppendNew, ReferenceCount, SeqSum;
    assert [x][0] == x;
    if x !in done0 {
      assert queue == queue[..|rest|] + queue[|rest|..];
    }
  }

  //////////////////////////////////////////////////////////////////////////////
  // Consequences
  //////////////////////////////////////////////////////////////////////////////

  /** `ResolvedClosure::nar_size`: the wrapping sum of the values of the map. */
  ghost function NarSize(narinfos: map<string, NarInfo>): nat {
    SetSum(narinfos.Keys, (k: string) => if k in narinfos then narinfos[k].narSize else 0) % U64
  }

  lemma {:induction false} SumByKey(xs: seq<StorePath>, weight: StorePath -> nat, keyWeight: string -> nat)
    requires Distinct(xs) && AllValid(xs)
    requires forall x :: x in xs ==> keyWeight(Display(x)) == weight(x)
    ensures SetSum(Keys(xs), keyWeight) == SeqSum(xs, weight)
  {
    hide Display, Valid;
    if xs == [] {
      assert Keys(xs) == {};
    } else {
      var x := xs[0];
      assert xs == [x] + xs[1..];
      SumByKey(xs[1..], weight, keyWeight);
      KeyMeansMember(x, xs[1..]);
      assert Keys(xs) == {Display(x)} + Keys(xs[1..]);
      assert Keys(xs) - {Display(x)} == Keys(xs[1..]);
      SetSumRemove(Keys(xs), keyWeight, Display(x));
    }
  }

  lemma NarSizeBySeq(fetch: Fetch, narinfos: map<string, NarInfo>, done: seq<StorePath>)
    requires Resolved(fetch, narinfos, done) && Distinct(done) && AllValid(done)
    ensures NarSize(narinfos) == SeqSum(done, NarSizeOf(fetch)) % U64
  {
    hide Display, SetSum, SeqSum, Valid;
    var keyWeight := (k: string) => if k in narinfos then narinfos[k].narSize else 0;
    forall x | x in done
      ensures keyWeight(Display(x)) == NarSizeOf(fetch)(x)
    {
    }
    SumByKey(done, NarSizeOf(fetch), keyWeight);
  }

  /** The reported size is the sum over the reachable set (modulo 2^64). */
  lemma NarSizeOfClosure(fetch: Fetch, root: StorePath, narinfos: map<string, NarInfo>, done: seq<StorePath>,
      reachable: set<StorePath>)
    requires Valid(root) && IsClosure(fetch, root, narinfos, done)
    requires forall sp :: sp in reachable <==> Reachable(fetch, root, sp)
    ensures NarSize(narinfos) == SetSum(reachable, NarSizeOf(fetch)) % U64
  {
    hide Display, SetSum, SeqSum, Resolved, RootFirst, NarSize, NarSizeOf, Reachable;
    forall x | x in done
      ensures Valid(x)
    {
      ReachableValid(fetch, root, x);
    }
    NarSizeBySeq(fetch, narinfos, done);
    SeqSumWithin(done, reachable, NarSizeOf(fetch));
  }

  /** Two successful runs, under whatever schedules and concurrency, return the same narinfos
      and the same paths up to order. */
  lemma SchedulesAgree(fetch: Fetch, root: StorePath, n1: map<string, NarInfo>, d1: seq<StorePath>, n2: map<string,
      NarInfo>, d2: seq<StorePath>)
    requires IsClosure(fetch, root, n1, d1) && IsClosure(fetch, root, n2, d2)
    ensures multiset(d1) == multiset(d2) && multiset(Shown(d1)) == multiset(Shown(d2))
    ensures n1 == n2 && NarSize(n1) == NarSize(n2)
  {
    hide Reachable, Resolved, RootFirst, NarSize, Shown;
    assert forall x :: x in d1 <==> x in d2;
    SameMembers(d1, d2);
    ShownPermutes(d1, d2);
    SameNarInfos(fetch, n1, d1, n2, d2);
  }

  lemma SameNarInfos(fetch: Fetch, n1: map<string, NarInfo>, d1: seq<StorePath>, n2: map<string, NarInfo>,
      d2: seq<StorePath>)
    requires Resolved(fetch, n1, d1) && Resolved(fetch, n2, d2) && forall x :: x in d1 <==> x in d2
    ensures n1 == n2
  {
    hide Display;
    assert Keys(d1) == Keys(d2);
    forall k | k in n1
      ensures n1[k] == n2[k]
    {
      var d :| d in d1 && Display(d) == k;
    }
  }

  lemma {:induction false} DistinctCount<T(!new)>(xs: seq<T>, x: T)
    requires Distinct(xs)
    ensures multiset(xs)[x] == if x in xs then 1 else 0
  {
    if xs != [] {
      DistinctCount(xs[1..], x);
      assert xs == [xs[0]] + xs[1..];
    }
  }

  lemma SameMembers<T(!new)>(a: seq<T>, b: seq<T>)
    requires Distinct(a) && Distinct(b) && forall x :: x in a <==> x in b
    ensures multiset(a) == multiset(b)
  {
    forall x
      ensures multiset(a)[x] == multiset(b)[x]
    {
      DistinctCount(a, x);
      DistinctCount(b, x);
    }
  }

  lemma {:induction false} ShownPermutes(a: seq<StorePath>, b: seq<StorePath>)
    requires multiset(a) == multiset(b)
    ensures multiset(Shown(a)) == multiset(Shown(b))
  {
    hide Display;
    assert |a| == |multiset(a)| == |multiset(b)| == |b|;
    if a == [] {
      assert Shown(a) == Shown(b) == [];
    } else {
      assert a[0] in multiset(b);
      var i :| 0 <= i < |b| && b[i] == a[0];
      var rest := b[..i] + b[i + 1..];
      RemainderPermutes(a, b, i);
      ShownPermutes(a[1..], rest);
      assert Shown(a) == [Display(a[0])] + Shown(a[1..]);
      assert Shown(b) == Shown(b[..i]) + [Display(a[0])] + Shown(b[i + 1..]);
      assert Shown(rest) == Shown(b[..i]) + Shown(b[i + 1..]);
    }
  }
}
