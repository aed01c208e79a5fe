/**
 How far the order that `resolve_closure` returns is topological, as its
 documentation calls it: never for some graphs, for others at some concurrencies
 only, for others always.
 */
module ClosureOrder {
  import opened Outcomes
  import opened StorePaths
  import opened NarInfos
  import opened Closures

  /** Every path comes before the other paths it references. */
  ghost predicate Topological(fetch: Fetch, done: seq<StorePath>) {
    forall i, j :: 0 <= i < |done| && 0 <= j < |done| && i != j && done[j] in Children(fetch, done[i]) ==> i < j
  }

  lemma {:induction false} DedupExtends(seen: seq<StorePath>, xs: seq<StorePath>)
    ensures seen <= Dedup(seen, xs)
    decreases |xs|
  {
    if xs != [] {
      DedupExtends(if xs[0] in seen then seen else seen + [xs[0]], xs[1..]);
    }
  }

  lemma {:induction false} MentionedPrefix(fetch: Fetch, root: StorePath, done: seq<StorePath>, n: nat)
    requires n <= |done|
    ensures Mentioned(fetch, root, done[..n]) <= Mentioned(fetch, root, done)
    decreases |done|
  {
    hide Children;
    if n == |done| {
      assert done[..n] == done;
    } else {
      var init := done[..|done| - 1];
      assert init[..n] == done[..n];
      MentionedPrefix(fetch, root, init, n);
    }
  }

  /** What the first `n` resolved paths mention opens the order. */
  lemma FirstMentions(fetch: Fetch, root: StorePath, done: seq<StorePath>, n: nat)
    requires SerialOrder(fetch, root, done) && n <= |done|
    ensures Dedup([], Mentioned(fetch, root, done[..n])) <= done
  {
    hide Children, Dedup, Mentioned;
    var a, all := Mentioned(fetch, root, done[..n]), Mentioned(fetch, root, done);
    MentionedPrefix(fetch, root, done, n);
    assert all == a + all[|a|..];
    DedupAppend([], a, all[|a|..]);
    DedupExtends(Dedup([], a), all[|a|..]);
  }

  /** The documentation calls the order topological. It is not: when A references B and C, and C references B,
      every serial run resolves B before C. */
  lemma OrderIsNotTopological(fetch: Fetch, a: StorePath, b: StorePath, c: StorePath, done: seq<StorePath>)
    requires a != b && b != c && a != c
    requires Children(fetch, a) == [b, c] && Children(fetch, c) == [b]
    requires SerialOrder(fetch, a, done)
    ensures |done| >= 3 && done[..3] == [a, b, c] && !Topological(fetch, done)
  {
    hide Children;
    FirstMentions(fetch, a, done, 0);
    assert done[..0] == [];
    assert Dedup([], [a]) == [a];
    FirstMentions(fetch, a, done, 1);
    assert done[..1] == [a] && [a][..0] == [];
    assert Mentioned(fetch, a, [a]) == [a] + [b, c] == [a, b, c];
    assert Dedup([], [a, b, c]) == Dedup([a], [b, c]) == Dedup([a, b], [c]) == Dedup([a, b, c], []) by {
      assert [a, b, c][1..] == [b, c] && [b, c][1..] == [c] && [c][1..] == [];
      assert [] + [a] == [a] && [a] + [b] == [a, b] && [a, b] + [c] == [a, b, c];
    }
    assert done[1] in Children(fetch, done[2]);
  }

  /** Every reference, but to itself, leads one step further from the root. */
  ghost predicate Forward(fetch: Fetch, root: StorePath) {
    forall x, y, k: nat ::
      IsDistance(fetch, root, x, k) && y in Children(fetch, x) && y != x ==> IsDistance(fetch, root, y, k + 1)
  }

  lemma ForwardOrderIsTopological(fetch: Fetch, root: StorePath, done: seq<StorePath>)
    requires Forward(fetch, root) && ByDistance(fetch, root, done) && Distinct(done)
    ensures Topological(fetch, done)
  {
    hide Children, ReachedIn;
    var dl: seq<nat> :| Distances(fetch, root, done, dl);
    forall i, j | 0 <= i < |done| && 0 <= j < |done| && i != j && done[j] in Children(fetch, done[i])
      ensures i < j
    {
      assert IsDistance(fetch, root, done[i], dl[i]) && IsDistance(fetch, root, done[j], dl[j]);
      assert done[j] != done[i];
      assert IsDistance(fetch, root, done[j], dl[i] + 1);
    }
  }

  //////////////////////////////////////////////////////////////////////////////
  // Every concurrency and every schedule
  //////////////////////////////////////////////////////////////////////////////

  ghost predicate Refers(fetch: Fetch, root: StorePath, x: StorePath, z: StorePath) {
    Reachable(fetch, root, x) && x != z && z in Children(fetch, x)
  }

  /** No reachable path is referenced by two others, and the root by none. */
  ghost predicate OneReferrer(fetch: Fetch, root: StorePath) {
    forall x, y, z ::
      Refers(fetch, root, x, z) && Refers(fetch, root, y, z) ==> x == y && z != root
  }

  /** When every path has one referrer, every order that the search can return is topological. */
  lemma OneReferrerIsTopological(fetch: Fetch, root: StorePath, narinfos: map<string, NarInfo>, done: seq<StorePath>)
    requires OneReferrer(fetch, root) && IsClosure(fetch, root, narinfos, done)
    ensures Topological(fetch, done)
  {
    hide Children, Reachable, Resolved;
    forall i, j | 0 <= i < |done| && 0 <= j < |done| && i != j && done[j] in Children(fetch, done[i])
      ensures i < j
    {
      assert done[i] in done && done[j] in done && done[i] != done[j];
      assert Refers(fetch, root, done[i], done[j]);
      assert done[j] != root && j > 0;
      var k :| 0 <= k < j && done[j] in Children(fetch, done[k]);
      assert done[k] in done && done[k] != done[j];
      assert Refers(fetch, root, done[k], done[j]);
    }
  }

  //////////////////////////////////////////////////////////////////////////////
  // One fetch at a time: the exact condition
  //////////////////////////////////////////////////////////////////////////////

  /** A walk from the root, as the positions of the references it takes. */
  type Word = seq<nat>

  function Follow(fetch: Fetch, root: StorePath, w: Word): Option<StorePath> {
    if w == [] then Some(root)
    else
      var p :- Follow(fetch, root, w[..|w| - 1]);
      if w[|w| - 1] < |Children(fetch, p)| then Some(Children(fetch, p)[w[|w| - 1]]) else None
  }

  /** Shorter first, then by the first position that differs. */
  predicate Before(a: Word, b: Word) {
    || |a| < |b|
    || (&& |a| == |b| > 0
        && var a', b' := a[..|a| - 1], b[..|b| - 1];
           Before(a', b') || (a' == b' && a[|a| - 1] < b[|b| - 1]))
  }

  predicate AtMost(a: Word, b: Word) { a == b || Before(a, b) }

  ghost predicate LeastWord(fetch: Fetch, root: StorePath, sp: StorePath, w: Word) {
    Follow(fetch, root, w) == Some(sp) && forall v :: Follow(fetch, root, v) == Some(sp) ==> AtMost(w, v)
  }

  /** A path's least word comes before those of the other paths it references. */
  ghost predicate WordsAscend(fetch: Fetch, root: StorePath) {
    forall x, y, v, w ::
      (&& LeastWord(fetch, root, x, v) && LeastWord(fetch, root, y, w)
       && y in Children(fetch, x) && y != x) ==> Before(v, w)
  }

  lemma {:induction false} BeforeIsStrict(a: Word, b: Word)
    ensures !(Before(a, b) && Before(b, a)) && !Before(a, a)
    ensures a == b || Before(a, b) || Before(b, a)
    decreases |a|
  {
    if |a| == |b| > 0 {
      BeforeIsStrict(a[..|a| - 1], b[..|b| - 1]);
      assert a == a[..|a| - 1] + [a[|a| - 1]] && b == b[..|b| - 1] + [b[|b| - 1]];
    } else if a != [] {
      BeforeIsStrict(a[..|a| - 1], a[..|a| - 1]);
    }
    if |a| > 0 {
      BeforeIsStrict(a[..|a| - 1], a[..|a| - 1]);
    }
  }

  lemma {:induction false} BeforeIsTransitive(a: Word, b: Word, c: Word)
    requires Before(a, b) && Before(b, c)
    ensures Before(a, c)
    decreases |a|
  {
    if |a| == |b| == |c| {
      var a', b', c' := a[..|a| - 1], b[..|b| - 1], c[..|c| - 1];
      if Before(a', b') && Before(b', c') {
        BeforeIsTransitive(a', b', c');
      }
    }
  }

  /** Words keep their order when they are continued. */
  lemma ContinuedWords(a: Word, i: nat, b: Word, j: nat)
    requires Before(a, b) || (a == b && i < j)
    ensures Before(a + [i], b + [j])
  {
    assert (a + [i])[..|a|] == a && (b + [j])[..|b|] == b;
  }

  ghost predicate Mentions(fetch: Fetch, done: seq<StorePath>, y: StorePath, i: nat, k: nat) {
    i < |done| && k < |Children(fetch, done[i])| && Children(fetch, done[i])[k] == y
  }

  /** The first mention of `y`: by the earliest path, at the earliest position. */
  ghost predicate FirstMention(fetch: Fetch, done: seq<StorePath>, y: StorePath, i: nat, k: nat) {
    && Mentions(fetch, done, y, i, k)
    && forall i': nat, k': nat :: Mentions(fetch, done, y, i', k') ==> i < i' || (i == i' && k <= k')
  }

  lemma {:induction false} FirstIn(xs: seq<StorePath>, y: StorePath) returns (k: nat)
    requires y in xs
    ensures k < |xs| && xs[k] == y && forall k' :: 0 <= k' < k ==> xs[k'] != y
    decreases |xs|
  {
    if xs[0] == y {
      k := 0;
    } else {
      k := FirstIn(xs[1..], y);
      k := k + 1;
    }
  }

  lemma {:induction false} FirstReferrer(fetch: Fetch, done: seq<StorePath>, y: StorePath, n: nat) returns (i: nat)
    requires n <= |done| && exists j :: 0 <= j < n && y in Children(fetch, done[j])
    ensures i < n && y in Children(fetch, done[i]) && forall j :: 0 <= j < i ==> y !in Children(fetch, done[j])
  {
    if exists j :: 0 <= j < n - 1 && y in Children(fetch, done[j]) {
      i := FirstReferrer(fetch, done, y, n - 1);
    } else {
      i := n - 1;
    }
  }

  lemma HasFirstMention(fetch: Fetch, root: StorePath, done: seq<StorePath>, j: nat) returns (i: nat, k: nat)
    requires RootFirst(fetch, root, done) && 0 < j < |done|
    ensures i < j && FirstMention(fetch, done, done[j], i, k)
  {
    hide Children;
    i := FirstReferrer(fetch, done, done[j], j);
    k := FirstIn(Children(fetch, done[i]), done[j]);
    forall i': nat, k': nat | Mentions(fetch, done, done[j], i', k')
      ensures i < i' || (i == i' && k <= k')
    {
      assert done[j] in Children(fetch, done[i']);
    }
  }

  lemma {:induction false} DedupMembers(seen: seq<StorePath>, xs: seq<StorePath>, x: StorePath)
    ensures x in Dedup(seen, xs) <==> x in seen || x in xs
    decreases |xs|
  {
    if xs != [] {
      DedupMembers(if xs[0] in seen then seen else seen + [xs[0]], xs[1..], x);
      assert xs == [xs[0]] + xs[1..];
    }
  }

  lemma {:induction false} DedupNew(seen: seq<StorePath>, xs: seq<StorePath>, j: nat)
    requires |seen| <= j < |Dedup(seen, xs)|
    ensures Dedup(seen, xs)[j] !in seen
    decreases |xs|
  {
    if xs != [] {
      if xs[0] in seen {
        DedupNew(seen, xs[1..], j);
      } else if j == |seen| {
        DedupExtends(seen + [xs[0]], xs[1..]);
        assert (seen + [xs[0]])[j] == xs[0];
      } else {
        DedupNew(seen + [xs[0]], xs[1..], j);
      }
    }
  }

  /** First occurrences stay in order. */
  lemma {:induction false} DedupOrder(seen: seq<StorePath>, xs: seq<StorePath>, j: nat, j': nat, k: nat, k': nat)
    requires |seen| <= j < j' < |Dedup(seen, xs)| && k < |xs| && k' < |xs|
    requires xs[k] == Dedup(seen, xs)[j] && xs[k'] == Dedup(seen, xs)[j']
    requires forall l :: 0 <= l < k ==> xs[l] != xs[k]
    ensures k < k'
    decreases |xs|
  {
    DedupNew(seen, xs, j);
    DedupNew(seen, xs, j');
    assert forall l :: 0 <= l < k - 1 ==> xs[1..][l] == xs[l + 1];
    if xs[0] in seen {
      DedupOrder(seen, xs[1..], j, j', k - 1, k' - 1);
    } else {
      var seen' := seen + [xs[0]];
      DedupNew(seen', xs[1..], j');
      if j == |seen| {
        DedupExtends(seen', xs[1..]);
        assert seen'[j] == xs[0];
      } else {
        DedupNew(seen', xs[1..], j);
        DedupOrder(seen', xs[1..], j, j', k - 1, k' - 1);
      }
    }
  }

  lemma {:induction false} MentionedMembers(fetch: Fetch, root: StorePath, done: seq<StorePath>, x: StorePath)
    ensures x in Mentioned(fetch, root, done) <==>
            x == root || exists i :: 0 <= i < |done| && x in Children(fetch, done[i])
  {
    hide Children;
    if done != [] {
      var init := done[..|done| - 1];
      MentionedMembers(fetch, root, init, x);
      if x in Children(fetch, done[|done| - 1]) {
        assert x in Children(fetch, done[|done| - 1]);
      }
      if i :| 0 <= i < |init| && x in Children(fetch, init[i]) {
        assert x in Children(fetch, done[i]);
      }
      if i :| 0 <= i < |done| && x in Children(fetch, done[i]) {
        assert i < |init| ==> x in Children(fetch, init[i]);
      }
    }
  }

  /** How much of the order the first `n` paths have mentioned. */
  ghost function Known(fetch: Fetch, root: StorePath, done: seq<StorePath>, n: nat): seq<StorePath>
    requires n <= |done|
  {
    Dedup([], Mentioned(fetch, root, done[..n]))
  }

  /** A path other than the root is known to the first `n` paths exactly when one of them mentions it. */
  lemma KnownExactly(fetch: Fetch, root: StorePath, done: seq<StorePath>, n: nat, j: nat, i: nat, k: nat)
    requires SerialOrder(fetch, root, done) && Distinct(done) && n <= |done| && 0 < j < |done| && done[0] == root
    requires FirstMention(fetch, done, done[j], i, k)
    ensures j < |Known(fetch, root, done, n)| <==> i < n
  {
    hide Children, Dedup, Mentioned;
    var known := Known(fetch, root, done, n);
    FirstMentions(fetch, root, done, n);
    assert known == done[..|known|];
    MentionedMembers(fetch, root, done[..n], done[j]);
    DedupMembers([], Mentioned(fetch, root, done[..n]), done[j]);
    assert done[j] != root;
    if j < |known| {
      assert done[j] == known[j];
      var i' :| 0 <= i' < n && done[j] in Children(fetch, done[..n][i']);
      var k' :| 0 <= k' < |Children(fetch, done[i'])| && Children(fetch, done[i'])[k'] == done[j];
      assert Mentions(fetch, done, done[j], i', k');
    }
    if i < n {
      assert done[j] in Children(fetch, done[..n][i]);
      var l :| 0 <= l < |known| && known[l] == done[j];
      assert done[l] == known[l];
    }
  }

  lemma KnownNext(fetch: Fetch, root: StorePath, done: seq<StorePath>, n: nat)
    requires n < |done|
    ensures Known(fetch, root, done, n + 1) == Dedup(Known(fetch, root, done, n), Children(fetch, done[n]))
  {
    hide Children, Dedup;
    assert done[..n + 1][..n] == done[..n];
    DedupAppend([], Mentioned(fetch, root, done[..n]), Children(fetch, done[n]));
  }

  /** A serial run returns paths in the order of their first mentions. */
  lemma MentionOrder(fetch: Fetch, root: StorePath, done: seq<StorePath>, j: nat, i: nat, k: nat, j': nat, i': nat,
      k': nat)
    requires SerialOrder(fetch, root, done) && Distinct(done) && 0 < j < j' < |done| && done[0] == root
    requires FirstMention(fetch, done, done[j], i, k) && FirstMention(fetch, done, done[j'], i', k')
    ensures i < i' || (i == i' && k < k')
  {
    hide Children, Dedup, Mentioned, Known;
    KnownExactly(fetch, root, done, i, j, i, k);
    KnownExactly(fetch, root, done, i + 1, j, i, k);
    KnownExactly(fetch, root, done, i + 1, j', i', k');
    KnownExactly(fetch, root, done, i, j', i', k');
    if i' == i {
      KnownNext(fetch, root, done, i);
      KnownIsPrefix(fetch, root, done, i + 1);
      var before, xs := Known(fetch, root, done, i), Children(fetch, done[i]);
      assert Dedup(before, xs)[j] == done[j] && Dedup(before, xs)[j'] == done[j'];
      forall l | 0 <= l < k
        ensures xs[l] != xs[k]
      {
        assert xs[l] == done[j] ==> Mentions(fetch, done, done[j], i, l);
      }
      DedupOrder(before, xs, j, j', k, k');
    }
  }

  lemma KnownIsPrefix(fetch: Fetch, root: StorePath, done: seq<StorePath>, n: nat)
    requires SerialOrder(fetch, root, done) && n <= |done|
    ensures Known(fetch, root, done, n) <= done
  {
    FirstMentions(fetch, root, done, n);
  }

  /** Each path is spelled by its first mention: the word of the path that mentions it, and the position there. */
  ghost predicate Spelled(fetch: Fetch, root: StorePath, done: seq<StorePath>, ws: seq<Word>) {
    && |ws| <= |done|
    && (forall j :: 0 <= j < |ws| ==> Follow(fetch, root, ws[j]) == Some(done[j]))
    && (ws != [] ==> ws[0] == [])
    && (forall j :: 0 < j < |ws| ==> HasSpelling(fetch, done, ws, j))
    && Increasing(ws)
  }

  ghost predicate SpelledBy(fetch: Fetch, done: seq<StorePath>, ws: seq<Word>, j: nat, i: nat, k: nat)
    requires j < |ws| <= |done|
  {
    i < j && FirstMention(fetch, done, done[j], i, k) && ws[j] == ws[i] + [k]
  }

  ghost predicate HasSpelling(fetch: Fetch, done: seq<StorePath>, ws: seq<Word>, j: nat)
    requires j < |ws| <= |done|
  {
    exists i: nat, k: nat :: SpelledBy(fetch, done, ws, j, i, k)
  }

  lemma {:induction false} Spell(fetch: Fetch, root: StorePath, done: seq<StorePath>, n: nat) returns (ws: seq<Word>)
    requires SerialOrder(fetch, root, done) && Distinct(done) && RootFirst(fetch, root, done) && n <= |done|
    ensures |ws| == n && Spelled(fetch, root, done, ws)
  {
    if n == 0 {
      ws := [];
    } else {
      var init := Spell(fetch, root, done, n - 1);
      if n == 1 {
        ws := [[]];
      } else {
        var i, k := HasFirstMention(fetch, root, done, n - 1);
        ws := init + [init[i] + [k]];
        SpellOne(fetch, root, done, init, i, k);
      }
    }
  }

  lemma SpellOne(fetch: Fetch, root: StorePath, done: seq<StorePath>, init: seq<Word>, i: nat, k: nat)
    requires SerialOrder(fetch, root, done) && Distinct(done) && RootFirst(fetch, root, done)
    requires 0 < |init| < |done| && Spelled(fetch, root, done, init)
    requires i < |init| && FirstMention(fetch, done, done[|init|], i, k)
    ensures Spelled(fetch, root, done, init + [init[i] + [k]])
  {
    hide Children, SerialOrder, RootFirst, Distinct, FirstMention, Before;
    var n := |init|;
    var w := init[i] + [k];
    var ws := init + [w];
    assert w[..|w| - 1] == init[i]
           && Mentions(fetch, done, done[n], i, k) by { FirstIsMention(fetch, done, done[n], i, k); }
    assert Follow(fetch, root, w) == Some(done[n]);
    assert SpelledBy(fetch, done, ws, n, i, k) && HasSpelling(fetch, done, ws, n);
    forall j | 0 < j < n
      ensures HasSpelling(fetch, done, ws, j)
    {
      assert HasSpelling(fetch, done, init, j);
        var i': nat, k': nat :| SpelledBy(fetch, done, init, j, i', k');
      assert SpelledBy(fetch, done, ws, j, i', k');
    }
    forall j | 0 <= j < n
      ensures Before(ws[j], w)
    {
      if j == 0 {
        assert ws[0] == [] && |w| > 0;
        ShorterIsBefore([], w);
      } else {
        assert HasSpelling(fetch, done, init, j);
        var i': nat, k': nat :| SpelledBy(fetch, done, init, j, i', k');
        assert done[0] == root by { RootIsFirst(fetch, root, done); }
        MentionOrder(fetch, root, done, j, i', k', n, i, k);
        ContinuedWords(init[i'], k', init[i], k);
      }
    }
  }

  lemma RootIsFirst(fetch: Fetch, root: StorePath, done: seq<StorePath>)
    requires RootFirst(fetch, root, done) && done != []
    ensures done[0] == root
  {
  }

  lemma FirstIsMention(fetch: Fetch, done: seq<StorePath>, y: StorePath, i: nat, k: nat)
    requires FirstMention(fetch, done, y, i, k)
    ensures Mentions(fetch, done, y, i, k)
  {
  }

  lemma ShorterIsBefore(a: Word, b: Word)
    requires |a| < |b|
    ensures Before(a, b)
  {
  }

  /** Whatever a word leads to is resolved. */
  lemma {:induction false} WordsLeadToDone(fetch: Fetch, root: StorePath, done: seq<StorePath>, v: Word)
    requires SerialOrder(fetch, root, done) && Follow(fetch, root, v).Some?
    ensures Follow(fetch, root, v).value in done
  {
    hide Children, Dedup, Mentioned;
    var x := Follow(fetch, root, v).value;
    MentionedMembers(fetch, root, done, x);
    DedupMembers([], Mentioned(fetch, root, done), x);
    if v != [] {
      var u := v[..|v| - 1];
      WordsLeadToDone(fetch, root, done, u);
      var i :| 0 <= i < |done| && done[i] == Follow(fetch, root, u).value;
      assert x in Children(fetch, done[i]);
    }
  }

  /** The spelled words are the least ones. */
  lemma {:induction false} SpelledIsLeast(fetch: Fetch, root: StorePath, done: seq<StorePath>, ws: seq<Word>, j: nat,
      v: Word)
    requires SerialOrder(fetch, root, done) && Distinct(done) && Spelled(fetch, root, done, ws) && |ws| == |done|
    requires j < |done| && Follow(fetch, root, v) == Some(done[j])
    ensures AtMost(ws[j], v)
    decreases |v|
  {
    hide Children, SerialOrder, FirstMention, Before, Follow;
    assert Follow(fetch, root, ws[0]) == Some(done[0]) && ws[0] == [];
    FollowNothing(fetch, root);
    if j == 0 {
      if v != [] {
        ShorterIsBefore([], v);
      }
    } else {
      assert done[j] != root && HasSpelling(fetch, done, ws, j);
      assert Increasing(ws);
      var i: nat, k: nat :| SpelledBy(fetch, done, ws, j, i, k);
      var u, k' := v[..|v| - 1], v[|v| - 1];
      FollowLast(fetch, root, v);
      WordsLeadToDone(fetch, root, done, u);
      var i' :| 0 <= i' < |done| && done[i'] == Follow(fetch, root, u).value;
      SpelledIsLeast(fetch, root, done, ws, i', u);
      hide Spelled, Distinct, Increasing;
      assert Mentions(fetch, done, done[j], i', k');
      FirstIsFirst(fetch, done, done[j], i, k, i', k');
      assert v == u + [k'];
      LeastContinues(ws, i, k, i', k', u);
    }
  }

  predicate Increasing(ws: seq<Word>) { forall i, j :: 0 <= i < j < |ws| ==> Before(ws[i], ws[j]) }

  lemma FollowNothing(fetch: Fetch, root: StorePath)
    ensures Follow(fetch, root, []) == Some(root)
  {
  }

  lemma FollowLast(fetch: Fetch, root: StorePath, v: Word)
    requires v != [] && Follow(fetch, root, v).Some?
    ensures var p := Follow(fetch, root, v[..|v| - 1]);
            && p.Some? && v[|v| - 1] < |Children(fetch, p.value)|
            && Follow(fetch, root, v).value == Children(fetch, p.value)[v[|v| - 1]]
  {
    hide Children;
  }

  lemma FirstIsFirst(fetch: Fetch, done: seq<StorePath>, y: StorePath, i: nat, k: nat, i': nat, k': nat)
    requires FirstMention(fetch, done, y, i, k) && Mentions(fetch, done, y, i', k')
    ensures i < i' || (i == i' && k <= k')
  {
  }

  lemma LeastContinues(ws: seq<Word>, i: nat, k: nat, i': nat, k': nat, u: Word)
    requires i <= i' < |ws| && (i == i' ==> k <= k') && AtMost(ws[i'], u)
    requires Increasing(ws)
    ensures AtMost(ws[i] + [k], u + [k'])
  {
    hide Before;
    if i < i' && ws[i'] != u {
      BeforeIsTransitive(ws[i], ws[i'], u);
    }
    if i < i' || ws[i'] != u || k < k' {
      ContinuedWords(ws[i], k, u, k');
    }
  }

  /** The order of a serial run is the order of the paths' least words. */
  lemma SerialOrderIsWordOrder(fetch: Fetch, root: StorePath, narinfos: map<string, NarInfo>, done: seq<StorePath>)
    returns (ws: seq<Word>)
    requires IsClosure(fetch, root, narinfos, done) && SerialOrder(fetch, root, done)
    ensures |ws| == |done| && forall j :: 0 <= j < |done| ==> LeastWord(fetch, root, done[j], ws[j])
    ensures Increasing(ws)
  {
    hide Children, Reachable, Resolved, RootFirst, SerialOrder, Before, Follow;
    ws := Spell(fetch, root, done, |done|);
    forall j | 0 <= j < |done|
      ensures LeastWord(fetch, root, done[j], ws[j])
    {
      forall v | Follow(fetch, root, v) == Some(done[j])
        ensures AtMost(ws[j], v)
      {
        SpelledIsLeast(fetch, root, done, ws, j, v);
      }
    }
  }

  /** With one fetch at a time the order returned is topological exactly when, in the graph, each path's least word
      comes before those of the other paths it references. */
  lemma SerialTopologicalExactly(fetch: Fetch, root: StorePath, narinfos: map<string, NarInfo>, done: seq<StorePath>)
    requires IsClosure(fetch, root, narinfos, done) && SerialOrder(fetch, root, done)
    ensures Topological(fetch, done) <==> WordsAscend(fetch, root)
  {
    var ws := SerialOrderIsWordOrder(fetch, root, narinfos, done);
    hide Children, Reachable, Resolved, RootFirst, Before, Follow, Dedup, Mentioned;
    if WordsAscend(fetch, root) {
      forall i, j | 0 <= i < |done| && 0 <= j < |done| && i != j && done[j] in Children(fetch, done[i])
        ensures i < j
      {
        assert LeastWord(fetch, root, done[i], ws[i]) && LeastWord(fetch, root, done[j], ws[j]);
        assert done[i] != done[j];
        BeforeIsStrict(ws[i], ws[j]);
      }
    }
    if Topological(fetch, done) {
      forall x, y, v, w | LeastWord(fetch, root, x, v) && LeastWord(fetch, root, y, w) && y in Children(fetch, x)
          && y != x
        ensures Before(v, w)
      {
        WordsLeadToDone(fetch, root, done, v);
        WordsLeadToDone(fetch, root, done, w);
        var i :| 0 <= i < |done| && done[i] == x;
        var j :| 0 <= j < |done| && done[j] == y;
        assert LeastWord(fetch, root, done[i], ws[i]) && LeastWord(fetch, root, done[j], ws[j]);
        BeforeIsStrict(ws[i], v);
        BeforeIsStrict(ws[j], w);
      }
    }
  }

  //////////////////////////////////////////////////////////////////////////////
  // Two fetches at a time
  //////////////////////////////////////////////////////////////////////////////

  /** A references B, C and D, and both B and D reference E. */
  ghost predicate Kite(fetch: Fetch, a: StorePath, b: StorePath, c: StorePath, d: StorePath, e: StorePath) {
    && Distinct([a, b, c, d, e]) && (forall x :: x in [a, b, c, d, e] ==> fetch(x).Ok?)
    && Children(fetch, a) == [b, c, d] && Children(fetch, b) == [e] && Children(fetch, c) == []
    && Children(fetch, d) == [e] && Children(fetch, e) == []
  }

  lemma KiteDistinct(fetch: Fetch, a: StorePath, b: StorePath, c: StorePath, d: StorePath, e: StorePath)
    requires Kite(fetch, a, b, c, d, e)
    ensures a != b && a != c && a != d && a != e && b != c && b != d && b != e && c != d && c != e && d != e
  {
    hide Children;
    var xs := [a, b, c, d, e];
    assert xs[0] == a && xs[1] == b && xs[2] == c && xs[3] == d && xs[4] == e;
  }

  lemma KiteEdge(fetch: Fetch, a: StorePath, b: StorePath, c: StorePath, d: StorePath, e: StorePath, x: StorePath,
      y: StorePath)
    requires Kite(fetch, a, b, c, d, e) && x in [a, b, c, d, e] && y in Children(fetch, x)
    ensures (x == a && (y == b || y == c || y == d)) || ((x == b || x == d) && y == e)
  {
    hide Children, Distinct;
  }

  lemma {:induction false} KiteLevels(fetch: Fetch, a: StorePath, b: StorePath, c: StorePath, d: StorePath,
      e: StorePath,
                                      x: StorePath, n: nat)
    requires Kite(fetch, a, b, c, d, e) && ReachedIn(fetch, a, x, n)
    ensures (n == 0 && x == a) || (n == 1 && x in [b, c, d]) || (n == 2 && x == e)
    decreases n
  {
    hide ReachedIn, Children, Distinct;
    if n == 0 {
      ReachedInZero(fetch, a, x);
    } else {
      var parent := ReachedLast(fetch, a, x, n);
      KiteLevels(fetch, a, b, c, d, e, parent, n - 1);
      KiteEdge(fetch, a, b, c, d, e, parent, x);
      KiteDistinct(fetch, a, b, c, d, e);
      hide Kite;
    }
  }

  lemma KiteIsForward(fetch: Fetch, a: StorePath, b: StorePath, c: StorePath, d: StorePath, e: StorePath)
    requires Kite(fetch, a, b, c, d, e)
    ensures Forward(fetch, a)
  {
    hide ReachedIn, Children;
    forall x, y, n: nat | IsDistance(fetch, a, x, n) && y in Children(fetch, x) && y != x
      ensures IsDistance(fetch, a, y, n + 1)
    {
      ChildReached(fetch, a, x, n, y);
      KiteLevels(fetch, a, b, c, d, e, y, n + 1);
      KiteDistinct(fetch, a, b, c, d, e);
      hide Kite;
      forall j: nat | ReachedIn(fetch, a, y, j)
        ensures n + 1 <= j
      {
        KiteLevels(fetch, a, b, c, d, e, y, j);
      }
    }
  }

  lemma {:induction false} DedupDistinct(seen: seq<StorePath>, xs: seq<StorePath>)
    requires Distinct(seen + xs)
    ensures Dedup(seen, xs) == seen + xs
    decreases |xs|
  {
    if xs != [] {
      assert (seen + xs)[|seen|] == xs[0];
      forall i | 0 <= i < |seen|
        ensures seen[i] != xs[0]
      {
        assert (seen + xs)[i] == seen[i];
      }
      assert seen + xs == (seen + [xs[0]]) + xs[1..];
      DedupDistinct(seen + [xs[0]], xs[1..]);
    }
  }

  lemma MentionedOneMore(fetch: Fetch, root: StorePath, done: seq<StorePath>, x: StorePath, mentioned: seq<StorePath>,
      kids: seq<StorePath>)
    requires Mentioned(fetch, root, done) == mentioned && Children(fetch, x) == kids
    ensures Mentioned(fetch, root, done + [x]) == mentioned + kids
  {
    hide Children;
    assert (done + [x])[..|done|] == done;
  }

  lemma KiteLists<T>(a: T, b: T, c: T, d: T, e: T)
    ensures [] + [a] + [b] + [c] + [d] + [e] == [a, b, c, d, e]
    ensures [a] + [b, c, d] + [e] + [] + [e] + [] == [a, b, c, d, e] + [e]
  {
  }

  lemma KiteMentions(fetch: Fetch, a: StorePath, b: StorePath, c: StorePath, d: StorePath, e: StorePath)
    requires Kite(fetch, a, b, c, d, e)
    ensures Mentioned(fetch, a, [a, b, c, d, e]) == [a, b, c, d, e] + [e]
  {
    assert Mentioned(fetch, a, []) == [a];
    KiteChildren(fetch, a, b, c, d, e);
    hide *;
    MentionedOneMore(fetch, a, [], a, [a], [b, c, d]);
    MentionedOneMore(fetch, a, [] + [a], b, [a] + [b, c, d], [e]);
    MentionedOneMore(fetch, a, [] + [a] + [b], c, [a] + [b, c, d] + [e], []);
    MentionedOneMore(fetch, a, [] + [a] + [b] + [c], d, [a] + [b, c, d] + [e] + [], [e]);
    MentionedOneMore(fetch, a, [] + [a] + [b] + [c] + [d], e, [a] + [b, c, d] + [e] + [] + [e], []);
    KiteLists(a, b, c, d, e);
  }

  lemma KiteChildren(fetch: Fetch, a: StorePath, b: StorePath, c: StorePath, d: StorePath, e: StorePath)
    requires Kite(fetch, a, b, c, d, e)
    ensures Children(fetch, a) == [b, c, d] && Children(fetch, b) == [e] && Children(fetch, c) == []
    ensures Children(fetch, d) == [e] && Children(fetch, e) == []
    ensures fetch(a).Ok? && fetch(b).Ok? && fetch(c).Ok? && fetch(d).Ok? && fetch(e).Ok?
  {
    hide Children, Distinct;
    assert a in [a, b, c, d, e] && b in [a, b, c, d, e] && c in [a, b, c, d, e] && d in [a, b, c, d, e]
           && e in [a, b, c, d, e];
  }

  lemma KiteSerially(fetch: Fetch, a: StorePath, b: StorePath, c: StorePath, d: StorePath, e: StorePath)
    requires Kite(fetch, a, b, c, d, e)
    ensures SerialOrder(fetch, a, [a, b, c, d, e])
  {
    hide Children, Mentioned, Dedup;
    var done := [a, b, c, d, e];
    KiteMentions(fetch, a, b, c, d, e);
    assert [] + done == done;
    DedupDistinct([], done);
    DedupAppend([], done, [e]);
    assert done[4] == e;
    DedupKnown(done, e);
  }

  lemma DedupKnown(seen: seq<StorePath>, x: StorePath)
    requires x in seen
    ensures Dedup(seen, [x]) == seen
  {
    assert [x][1..] == [];
  }

  lemma KiteOrders(fetch: Fetch, a: StorePath, b: StorePath, c: StorePath, d: StorePath, e: StorePath)
    requires Kite(fetch, a, b, c, d, e)
    ensures Topological(fetch, [a, b, c, d, e]) && !Topological(fetch, [a, b, c, e, d])
  {
    hide Children;
    KiteDistinct(fetch, a, b, c, d, e);
    var good, bad := [a, b, c, d, e], [a, b, c, e, d];
    forall i, j | 0 <= i < |good| && 0 <= j < |good| && i != j && good[j] in Children(fetch, good[i])
      ensures i < j
    {
      KiteEdge(fetch, a, b, c, d, e, good[i], good[j]);
      hide Kite;
    }
    assert bad[3] == e && bad[4] == d && bad[3] in Children(fetch, bad[4]);
  }

  lemma FreshOfTwo(done: seq<StorePath>, x: StorePath, y: StorePath)
    requires x != y && x !in done && y !in done
    ensures Fresh(done, [x, y]) == [x, y]
  {
    assert [x, y][..1] == [x] && [x][..0] == [];
    assert Fresh(done, []) == [];
    assert Fresh(done, [x]) == [x];
  }

  lemma QueuedByTwo(fetch: Fetch, seen: seq<StorePath>, x: StorePath, y: StorePath)
    ensures Queued(fetch, seen, [x, y]) == AppendNew(seen, Children(fetch, x)) + AppendNew(seen, Children(fetch, y))
  {
    hide Children, AppendNew;
    assert [x, y][..1] == [x] && [x][..0] == [];
    assert Queued(fetch, seen, []) == [];
    assert Queued(fetch, seen, [x]) == AppendNew(seen, Children(fetch, x));
  }

  lemma NewOne(seen: seq<StorePath>, x: StorePath)
    ensures AppendNew(seen, [x]) == if x in seen then [] else [x]
  {
    assert [x][1..] == [];
    assert AppendNew(seen, []) == [];
  }

  lemma KiteFirstBatch(fetch: Fetch, a: StorePath, b: StorePath, c: StorePath, d: StorePath, e: StorePath)
    requires Kite(fetch, a, b, c, d, e)
    ensures Batch(fetch, 2, Search([a], []), Search([b, c, d], [a]))
  {
    hide Children;
    KiteDistinct(fetch, a, b, c, d, e);
    assert [a][..1] == [a] && [a][..0] == [];
    assert Fresh([], []) == [];
    assert Fresh([], [a]) == [a];
    assert Queued(fetch, [a], []) == [];
    assert AppendNew([a], [b, c, d]) == [b, c, d] by {
      assert [b, c, d][1..] == [c, d] && [c, d][1..] == [d];
      NewOne([a], d);
    }
    assert Queued(fetch, [a], [a]) == [b, c, d];
    assert Completes(fetch, 2, Search([a], []), [a], Search([b, c, d], [a]));
  }

  /** Two new paths at the head of the queue, whose fetches complete in either order. */
  lemma BatchOfTwo(fetch: Fetch, x: StorePath, y: StorePath, rest: seq<StorePath>, done: seq<StorePath>, f: StorePath,
      g: StorePath,
                   queued: seq<StorePath>)
    requires x !in done && y !in done && x != y && fetch(x).Ok? && fetch(y).Ok?
    requires (f == x && g == y) || (f == y && g == x)
    requires var seen := done + [x, y];
             queued == AppendNew(seen, Children(fetch, f)) + AppendNew(seen, Children(fetch, g))
    ensures Batch(fetch, 2, Search([x, y] + rest, done), Search(rest + queued, done + [f, g]))
  {
    hide Children, Fresh, Queued, AppendNew;
    var queue := [x, y] + rest;
    assert queue[..2] == [x, y] && queue[2..] == rest;
    FreshOfTwo(done, x, y);
    QueuedByTwo(fetch, done + [x, y], f, g);
    assert multiset([f, g]) == multiset([x, y]);
    assert Completes(fetch, 2, Search(queue, done), [f, g], Search(rest + queued, done + [f, g]));
  }

  lemma KiteSecondBatch(fetch: Fetch, a: StorePath, b: StorePath, c: StorePath, d: StorePath, e: StorePath)
    requires Kite(fetch, a, b, c, d, e)
    ensures Batch(fetch, 2, Search([b, c, d], [a]), Search([d, e], [a, b, c]))
  {
    KiteDistinct(fetch, a, b, c, d, e);
    KiteChildren(fetch, a, b, c, d, e);
    hide *;
    NewOne([a] + [b, c], e);
    NewNone([a] + [b, c]);
    BatchOfTwo(fetch, b, c, [d], [a], b, c, [e] + []);
    assert [b, c] + [d] == [b, c, d] && [d] + ([e] + []) == [d, e] && [a] + [b, c] == [a, b, c];
  }

  lemma KiteThirdBatch(fetch: Fetch, a: StorePath, b: StorePath, c: StorePath, d: StorePath, e: StorePath)
    requires Kite(fetch, a, b, c, d, e)
    ensures Batch(fetch, 2, Search([d, e], [a, b, c]), Search([], [a, b, c, e, d]))
  {
    KiteDistinct(fetch, a, b, c, d, e);
    KiteChildren(fetch, a, b, c, d, e);
    hide *;
    var seen := [a, b, c] + [d, e];
    assert seen[4] == e;
    NewOne(seen, e);
    NewNone(seen);
    var none: seq<StorePath> := [];
    BatchOfTwo(fetch, d, e, none, [a, b, c], e, d, none);
    assert [d, e] + none == [d, e] && none + none == none && [a, b, c] + [e, d] == [a, b, c, e, d];
  }

  lemma NewNone(seen: seq<StorePath>)
    ensures AppendNew(seen, []) == []
  {
  }

  /** With two fetches at a time, D and E share a batch, and E may complete first, although every reference leads one
      step further from the root and a serial run returns a topological order. */
  lemma ConcurrentOrderIsNotTopological(fetch: Fetch, a: StorePath, b: StorePath, c: StorePath, d: StorePath,
      e: StorePath)
    requires Kite(fetch, a, b, c, d, e)
    ensures Forward(fetch, a) && SerialOrder(fetch, a, [a, b, c, d, e]) && Topological(fetch, [a, b, c, d, e])
    ensures Returns(fetch, a, 2, [a, b, c, e, d]) && !Topological(fetch, [a, b, c, e, d])
  {
    KiteIsForward(fetch, a, b, c, d, e);
    KiteSerially(fetch, a, b, c, d, e);
    KiteOrders(fetch, a, b, c, d, e);
    KiteFirstBatch(fetch, a, b, c, d, e);
    KiteSecondBatch(fetch, a, b, c, d, e);
    KiteThirdBatch(fetch, a, b, c, d, e);
    TraceStart(fetch, a, 2);
    hide *;
    var s0, s1, s2, s3 := Search([a], []), Search([b, c, d], [a]), Search([d, e], [a, b, c]),
        Search([], [a, b, c, e, d]);
    TraceGrows(fetch, a, 2, [s0], s1);
    TraceGrows(fetch, a, 2, [s0] + [s1], s2);
    TraceGrows(fetch, a, 2, [s0] + [s1] + [s2], s3);
    TraceReturns(fetch, a, 2, [s0] + [s1] + [s2] + [s3], [a, b, c, e, d]);
  }

  lemma TraceReturns(fetch: Fetch, root: StorePath, concurrency: nat, trace: seq<Search>, done: seq<StorePath>)
    requires Trace(fetch, root, concurrency, trace) && trace[|trace| - 1] == Search([], done)
    ensures Returns(fetch, root, concurrency, done)
  {
    hide Trace;
  }

  //////////////////////////////////////////////////////////////////////////////
  // As many fetches at a time as there is work: the exact condition
  //////////////////////////////////////////////////////////////////////////////

  /** Between two batches that take the whole queue: the queue holds the paths at distance `n`, nearer ones are
      resolved. */
  ghost predicate AtLevel(fetch: Fetch, root: StorePath, s: Search, n: nat) {
    && (forall x :: x in s.queue <==> IsDistance(fetch, root, x, n))
    && (forall x :: x in s.done <==> Nearer(fetch, root, x, n))
    && Distinct(s.done) && ByDistance(fetch, root, s.done)
  }

  ghost predicate Nearer(fetch: Fetch, root: StorePath, x: StorePath, n: nat) {
    exists k: nat :: k < n && IsDistance(fetch, root, x, k)
  }

  lemma {:induction false} HasDistance(fetch: Fetch, root: StorePath, x: StorePath, n: nat) returns (k: nat)
    requires ReachedIn(fetch, root, x, n)
    ensures k <= n && IsDistance(fetch, root, x, k)
  {
    hide ReachedIn;
    if j: nat :| j < n && ReachedIn(fetch, root, x, j) {
      k := HasDistance(fetch, root, x, j);
    } else {
      k := n;
    }
  }

  lemma OneDistance(fetch: Fetch, root: StorePath, x: StorePath, j: nat, k: nat)
    requires IsDistance(fetch, root, x, j) && IsDistance(fetch, root, x, k)
    ensures j == k
  {
    hide ReachedIn;
  }

  /** A path is one step further than the root exactly when a path at the distance before references it and none
      nearer is it. */
  lemma NextDistance(fetch: Fetch, root: StorePath, c: StorePath, n: nat)
    ensures IsDistance(fetch, root, c, n + 1) <==>
            (exists f :: IsDistance(fetch, root, f, n) && c in Children(fetch, f)) && !Nearer(fetch, root, c, n + 1)
  {
    hide ReachedIn, Children;
    if IsDistance(fetch, root, c, n + 1) {
      var f := ReachedLast(fetch, root, c, n + 1);
      var k := HasDistance(fetch, root, f, n);
      ChildReached(fetch, root, f, k, c);
      assert k == n;
    } else if f :| IsDistance(fetch, root, f, n) && c in Children(fetch, f) {
      ChildReached(fetch, root, f, n, c);
      var k := HasDistance(fetch, root, c, n + 1);
      assert k < n + 1;
    }
  }

  lemma {:induction false} FreshMembers(done: seq<StorePath>, batch: seq<StorePath>)
    ensures forall x :: x in Fresh(done, batch) <==> x in batch && x !in done
    ensures Distinct(Fresh(done, batch))
  {
    if batch != [] {
      var init := batch[..|batch| - 1];
      FreshMembers(done, init);
      assert batch == init + [batch[|batch| - 1]];
    }
  }

  lemma {:induction false} AppendNewMembers(seen: seq<StorePath>, xs: seq<StorePath>, c: StorePath)
    ensures c in AppendNew(seen, xs) <==> c in xs && c !in seen
    ensures |AppendNew(seen, xs)| <= |xs|
  {
    if xs != [] {
      AppendNewMembers(seen, xs[1..], c);
      assert xs == [xs[0]] + xs[1..];
    }
  }

  lemma {:induction false} QueuedMembers(fetch: Fetch, seen: seq<StorePath>, finished: seq<StorePath>, c: StorePath)
    ensures c in Queued(fetch, seen, finished) <==> c !in seen && exists f :: f in finished && c in Children(fetch, f)
    ensures |Queued(fetch, seen, finished)| <= SeqSum(finished, ReferenceCount(fetch))
  {
    hide Children, AppendNew;
    if finished != [] {
      var init, last := finished[..|finished| - 1], finished[|finished| - 1];
      QueuedMembers(fetch, seen, init, c);
      AppendNewMembers(seen, Children(fetch, last), c);
      FewChildren(fetch, last);
      assert finished == init + [last];
      SeqSumAppend(init, last, ReferenceCount(fetch));
    }
  }

  lemma FewChildren(fetch: Fetch, x: StorePath)
    ensures |Children(fetch, x)| <= ReferenceCount(fetch)(x)
  {
    if fetch(x).Ok? {
      ParsedRefsValid(fetch(x).value.references);
    }
  }

  lemma DistinctByCount(a: seq<StorePath>, b: seq<StorePath>)
    requires Distinct(a) && multiset(a) == multiset(b)
    ensures Distinct(b) && forall x :: x in a <==> x in b
  {
    forall x
      ensures x in a <==> x in b
    {
      assert x in a <==> x in multiset(a);
      assert x in b <==> x in multiset(b);
    }
    forall i, j | 0 <= i < j < |b|
      ensures b[i] != b[j]
    {
      assert b[i] in multiset(b);
      DistinctCount(a, b[i]);
      assert b == b[..j] + b[j..];
      assert multiset(b) == multiset(b[..j]) + multiset(b[j..]);
      assert b[..j][i] == b[i] && b[i] in multiset(b[..j]);
      assert b[j..][0] == b[j] && b[j] in multiset(b[j..]);
    }
  }

  /** A batch that takes the whole queue goes from one level to the next. */
  lemma LevelStep(fetch: Fetch, root: StorePath, concurrency: nat, s: Search, finished: seq<StorePath>, s': Search,
      n: nat)
    requires AtLevel(fetch, root, s, n) && |s.queue| <= concurrency && Completes(fetch, concurrency, s, finished, s')
    ensures AtLevel(fetch, root, s', n + 1)
    ensures Distinct(finished) && forall x :: x in finished <==> IsDistance(fetch, root, x, n)
    ensures s'.done == s.done + finished && |s'.queue| <= SeqSum(finished, ReferenceCount(fetch))
  {
    hide IsDistance, Children, Queued, Fresh, ReferenceCount, SeqSum;
    var batch := Fresh(s.done, s.queue);
    assert s.queue[..|s.queue|] == s.queue && s.queue[|s.queue|..] == [];
    FreshMembers(s.done, s.queue);
    DistinctByCount(batch, finished);
    forall x
      ensures x in finished <==> IsDistance(fetch, root, x, n)
      ensures Nearer(fetch, root, x, n + 1) <==> Nearer(fetch, root, x, n) || IsDistance(fetch, root, x, n)
      ensures IsDistance(fetch, root, x, n) ==> !Nearer(fetch, root, x, n)
    {
      NearerStep(fetch, root, x, n);
    }
    assert s'.queue == Queued(fetch, s.done + batch, finished);
    QueuedMembers(fetch, s.done + batch, finished, root);
    forall c
      ensures c in s'.queue <==> IsDistance(fetch, root, c, n + 1)
    {
      QueuedMembers(fetch, s.done + batch, finished, c);
      NextDistance(fetch, root, c, n);
    }
    hide Nearer;
    LevelOrder(fetch, root, s.done, finished, n);
  }

  lemma NearerStep(fetch: Fetch, root: StorePath, x: StorePath, n: nat)
    ensures Nearer(fetch, root, x, n + 1) <==> Nearer(fetch, root, x, n) || IsDistance(fetch, root, x, n)
    ensures IsDistance(fetch, root, x, n) ==> !Nearer(fetch, root, x, n)
  {
    hide IsDistance;
    if IsDistance(fetch, root, x, n) && Nearer(fetch, root, x, n) {
      var k: nat :| k < n && IsDistance(fetch, root, x, k);
      OneDistance(fetch, root, x, k, n);
    }
    if Nearer(fetch, root, x, n + 1) {
      var k: nat :| k < n + 1 && IsDistance(fetch, root, x, k);
    }
  }

  lemma LevelOrder(fetch: Fetch, root: StorePath, done: seq<StorePath>, finished: seq<StorePath>, n: nat)
    requires Distinct(done) && ByDistance(fetch, root, done) && Distinct(finished)
    requires forall x :: x in done <==> Nearer(fetch, root, x, n)
    requires forall x :: x in finished <==> IsDistance(fetch, root, x, n)
    ensures Distinct(done + finished) && ByDistance(fetch, root, done + finished)
  {
    hide IsDistance;
    var dl: seq<nat> :| Distances(fetch, root, done, dl);
    var all, dl' := done + finished, dl + seq(|finished|, _ => n);
    forall i | 0 <= i < |done|
      ensures dl[i] < n
    {
      assert done[i] in done;
      var k: nat :| k < n && IsDistance(fetch, root, done[i], k);
      OneDistance(fetch, root, done[i], k, dl[i]);
    }
    forall i, j | 0 <= i < |done| && 0 <= j < |finished|
      ensures done[i] != finished[j]
    {
      assert done[i] in done && finished[j] in finished;
      NearerStep(fetch, root, done[i], n);
    }
    forall i | 0 <= i < |all|
      ensures IsDistance(fetch, root, all[i], dl'[i])
    {
      if i >= |done| {
        assert all[i] in finished;
      }
    }
    assert Distances(fetch, root, all, dl');
  }

  lemma LevelStart(fetch: Fetch, root: StorePath)
    ensures AtLevel(fetch, root, Search([root], []), 0)
  {
    forall x
      ensures x in [root] <==> IsDistance(fetch, root, x, 0)
    {
      RootReached(fetch, root);
      if ReachedIn(fetch, root, x, 0) {
        ReachedInZero(fetch, root, x);
      }
    }
    hide IsDistance;
    assert Distances(fetch, root, [], []);
  }

  /** More fetches at a time than the whole closure has references. */
  ghost predicate Wide(fetch: Fetch, root: StorePath, u: set<StorePath>, concurrency: nat) {
    && (forall x :: x in u <==> Reachable(fetch, root, x))
    && (forall x :: x in u ==> fetch(x).Ok?)
    && SetSum(u, ReferenceCount(fetch)) < concurrency
  }

  lemma QueueFits(fetch: Fetch, root: StorePath, u: set<StorePath>, concurrency: nat, finished: seq<StorePath>, n: nat)
    requires Wide(fetch, root, u, concurrency) && Distinct(finished)
             && forall x :: x in finished <==> IsDistance(fetch, root, x, n)
    ensures SeqSum(finished, ReferenceCount(fetch)) <= concurrency
  {
    hide ReachedIn, ReferenceCount;
    assert forall x :: x in finished ==> Reachable(fetch, root, x);
    SeqSumWithin(finished, u, ReferenceCount(fetch));
  }

  /** Wide runs go level by level. */
  lemma {:induction false} WideLevels(fetch: Fetch, root: StorePath, u: set<StorePath>, concurrency: nat,
      trace: seq<Search>, n: nat)
    requires Wide(fetch, root, u, concurrency) && Trace(fetch, root, concurrency, trace) && n < |trace|
    ensures AtLevel(fetch, root, trace[n], n) && |trace[n].queue| <= concurrency
  {
    hide AtLevel, Wide, IsDistance;
    if n == 0 {
      LevelStart(fetch, root);
      assert concurrency > 0 by { WideIsPositive(fetch, root, u, concurrency); }
    } else {
      WideLevels(fetch, root, u, concurrency, trace, n - 1);
      assert Batch(fetch, concurrency, trace[n - 1], trace[n]);
      var finished :| Completes(fetch, concurrency, trace[n - 1], finished, trace[n]);
      LevelStep(fetch, root, concurrency, trace[n - 1], finished, trace[n], n - 1);
      QueueFits(fetch, root, u, concurrency, finished, n - 1);
    }
  }

  lemma WideIsPositive(fetch: Fetch, root: StorePath, u: set<StorePath>, concurrency: nat)
    requires Wide(fetch, root, u, concurrency)
    ensures concurrency > 0
  {
  }

  lemma WideReturnsByDistance(fetch: Fetch, root: StorePath, u: set<StorePath>, concurrency: nat, done: seq<StorePath>)
    requires Wide(fetch, root, u, concurrency) && Returns(fetch, root, concurrency, done)
    ensures Distinct(done) && ByDistance(fetch, root, done)
  {
    hide Wide, IsDistance, Nearer, ByDistance, Batch;
    var trace :| Trace(fetch, root, concurrency, trace) && trace[|trace| - 1] == Search([], done);
    WideLevels(fetch, root, u, concurrency, trace, |trace| - 1);
  }

  /** `x` has not been resolved without `y` before it. */
  ghost predicate Overtaken(done: seq<StorePath>, x: StorePath, y: StorePath) {
    x in done ==> exists i, j :: 0 <= j < i < |done| && done[j] == y && done[i] == x
  }

  /** The paths of a batch, with `y` first if it is among them. */
  lemma PutFirst(batch: seq<StorePath>, y: StorePath) returns (finished: seq<StorePath>)
    requires Distinct(batch)
    ensures multiset(finished) == multiset(batch) && (y in batch ==> finished != [] && finished[0] == y)
  {
    finished := batch;
    if y in batch {
      var i :| 0 <= i < |batch| && batch[i] == y;
      finished := [y] + (batch[..i] + batch[i + 1..]);
      assert batch == batch[..i] + [y] + batch[i + 1..];
    }
  }

  lemma OvertakenStep(done: seq<StorePath>, finished: seq<StorePath>, x: StorePath, y: StorePath)
    requires Overtaken(done, x, y) && x != y
    requires x in finished ==> y in done || (finished != [] && finished[0] == y)
    ensures Overtaken(done + finished, x, y)
  {
    var all := done + finished;
    if x in all {
      if x in done {
        var i, j :| 0 <= j < i < |done| && done[j] == y && done[i] == x;
        assert all[j] == y && all[i] == x;
      } else {
        var k :| 0 <= k < |finished| && finished[k] == x;
        assert all[|done| + k] == x;
        if y in done {
          var j :| 0 <= j < |done| && done[j] == y;
          assert all[j] == y;
        } else {
          assert all[|done|] == y;
        }
      }
    }
  }

  ghost function Last(trace: seq<Search>): Search
    requires trace != []
  {
    trace[|trace| - 1]
  }

  /** One more batch of a wide run in which `y` is resolved before `x`. */
  lemma OvertakingStep(
    fetch: Fetch, root: StorePath, u: set<StorePath>, concurrency: nat, trace: seq<Search>, x: StorePath, y: StorePath,
        dx: nat, dy: nat)
    returns (longer: seq<Search>)
    requires Wide(fetch, root, u, concurrency) && trace != [] && Trace(fetch, root, concurrency, trace) && x != y
    requires IsDistance(fetch, root, x, dx) && IsDistance(fetch, root, y, dy) && dy <= dx
    requires Overtaken(Last(trace).done, x, y) && Last(trace).queue != []
    ensures longer != [] && Trace(fetch, root, concurrency, longer) && Overtaken(Last(longer).done, x, y)
    ensures |u - Members(Last(longer).done)| < |u - Members(Last(trace).done)|
  {
    hide IsDistance, Wide, Trace, Overtaken, Completes, Batch, AtLevel, Members;
    var n, s := |trace| - 1, Last(trace);
    WideLevels(fetch, root, u, concurrency, trace, n);
    var finished, s' := OvertakingBatch(fetch, root, u, concurrency, s, n, x, y, dx, dy);
    TraceGrows(fetch, root, concurrency, trace, s');
    LevelStep(fetch, root, concurrency, s, finished, s', n);
    BatchProgress(fetch, root, u, concurrency, s, finished, n);
    longer := trace + [s'];
    assert Last(longer) == s';
  }

  /** Some wide run resolves `y` before `x`, when it is no further from the root. */
  lemma {:induction false} OvertakingRun(
    fetch: Fetch, root: StorePath, u: set<StorePath>, concurrency: nat, trace: seq<Search>, x: StorePath, y: StorePath,
        dx: nat, dy: nat)
    returns (done: seq<StorePath>)
    requires Wide(fetch, root, u, concurrency) && trace != [] && Trace(fetch, root, concurrency, trace) && x != y
    requires IsDistance(fetch, root, x, dx) && IsDistance(fetch, root, y, dy) && dy <= dx
    requires Overtaken(Last(trace).done, x, y)
    ensures Returns(fetch, root, concurrency, done) && Overtaken(done, x, y)
    ensures forall z :: z in u ==> z in done
    decreases |u - Members(Last(trace).done)|
  {
    hide IsDistance, Wide, Trace, Overtaken, AtLevel, Members, Returns;
    if Last(trace).queue == [] {
      done := Last(trace).done;
      TraceReturns(fetch, root, concurrency, trace, done);
      WideLevels(fetch, root, u, concurrency, trace, |trace| - 1);
      AllLevels(fetch, root, u, concurrency, Last(trace), |trace| - 1);
    } else {
      var longer := OvertakingStep(fetch, root, u, concurrency, trace, x, y, dx, dy);
      done := OvertakingRun(fetch, root, u, concurrency, longer, x, y, dx, dy);
    }
  }

  function Members(xs: seq<StorePath>): set<StorePath> { set x | x in xs }

  lemma BatchProgress(fetch: Fetch, root: StorePath, u: set<StorePath>, concurrency: nat, s: Search,
      finished: seq<StorePath>, n: nat)
    requires Wide(fetch, root, u, concurrency) && AtLevel(fetch, root, s, n) && s.queue != []
    requires forall z :: z in finished <==> IsDistance(fetch, root, z, n)
    ensures |u - Members(s.done + finished)| < |u - Members(s.done)|
  {
    hide ReachedIn, ReferenceCount;
    var z := s.queue[0];
    assert z in s.queue && IsDistance(fetch, root, z, n) && Reachable(fetch, root, z);
    NearerStep(fetch, root, z, n);
    assert z in u && z !in s.done && z in s.done + finished;
    var before, after := u - Members(s.done), u - Members(s.done + finished);
    assert after <= before - {z};
    SubsetSize(after, before - {z});
  }

  lemma {:induction false} SubsetSize(a: set<StorePath>, b: set<StorePath>)
    requires a <= b
    ensures |a| <= |b|
  {
    assert b == a + (b - a);
  }

  /** An empty queue: there is no path at this distance, so none further. */
  lemma AllLevels(fetch: Fetch, root: StorePath, u: set<StorePath>, concurrency: nat, s: Search, n: nat)
    requires Wide(fetch, root, u, concurrency) && AtLevel(fetch, root, s, n) && s.queue == []
    ensures forall z :: z in u ==> z in s.done
  {
    hide ReachedIn, ReferenceCount;
    forall z | z in u
      ensures z in s.done
    {
      var m: nat :| ReachedIn(fetch, root, z, m);
      NothingFurther(fetch, root, s, n, z, m);
    }
  }

  lemma {:induction false} NothingFurther(fetch: Fetch, root: StorePath, s: Search, n: nat, z: StorePath, m: nat)
    requires AtLevel(fetch, root, s, n) && s.queue == [] && ReachedIn(fetch, root, z, m)
    ensures z in s.done
    decreases m
  {
    hide ReachedIn, Children;
    var k := HasDistance(fetch, root, z, m);
    if k > n {
      var parent := ReachedLast(fetch, root, z, k);
      NothingFurther(fetch, root, s, n, parent, k - 1);
      var j: nat :| j < n && IsDistance(fetch, root, parent, j);
      ChildReached(fetch, root, parent, j, z);
      assert false;
    }
    assert k != n;
  }

  lemma OvertakingBatch(
    fetch: Fetch, root: StorePath, u: set<StorePath>, concurrency: nat, s: Search, n: nat, x: StorePath, y: StorePath,
        dx: nat, dy: nat)
    returns (finished: seq<StorePath>, s': Search)
    requires Wide(fetch, root, u, concurrency) && AtLevel(fetch, root, s, n) && |s.queue| <= concurrency && x != y
    requires IsDistance(fetch, root, x, dx) && IsDistance(fetch, root, y, dy) && dy <= dx && Overtaken(s.done, x, y)
    ensures Completes(fetch, concurrency, s, finished, s') && Batch(fetch, concurrency, s, s')
    ensures Overtaken(s'.done, x, y)
  {
    hide IsDistance, Overtaken, Fresh, Queued, ReferenceCount;
    var batch := Fresh(s.done, s.queue);
    FreshMembers(s.done, s.queue);
    finished := PutFirst(batch, y);
    DistinctByCount(batch, finished);
    s' := Search(Queued(fetch, s.done + batch, finished), s.done + finished);
    assert s.queue[..|s.queue|] == s.queue && s.queue[|s.queue|..] == [];
    forall z | z in finished
      ensures fetch(z).Ok?
    {
      DistanceReaches(fetch, root, z, n);
    }
    assert [] + Queued(fetch, s.done + batch, finished) == Queued(fetch, s.done + batch, finished);
    assert Completes(fetch, concurrency, s, finished, s');
    if x in finished {
      OneDistance(fetch, root, x, n, dx);
      NearerStep(fetch, root, y, n);
      assert dy < n ==> Nearer(fetch, root, y, n);
    }
    OvertakenStep(s.done, finished, x, y);
  }

  lemma DistanceReaches(fetch: Fetch, root: StorePath, z: StorePath, n: nat)
    requires IsDistance(fetch, root, z, n)
    ensures Reachable(fetch, root, z)
  {
    hide ReachedIn;
  }

  lemma OvertakenIsNotTopological(fetch: Fetch, done: seq<StorePath>, x: StorePath, y: StorePath)
    requires Overtaken(done, x, y) && x in done && y in Children(fetch, x)
    ensures !Topological(fetch, done)
  {
    hide Children;
  }

  /** With more fetches at a time than there are references, every order that can be returned is topological exactly
      when every reference leads one step further from the root. */
  lemma WideTopologicalExactly(fetch: Fetch, root: StorePath, u: set<StorePath>, concurrency: nat)
    requires Wide(fetch, root, u, concurrency)
    ensures (forall done :: Returns(fetch, root, concurrency, done) ==> Topological(fetch, done)) <==>
            Forward(fetch, root)
  {
    hide Returns, Topological, ReachedIn, Children, Wide;
    if Forward(fetch, root) {
      forall done | Returns(fetch, root, concurrency, done)
        ensures Topological(fetch, done)
      {
        WideReturnsByDistance(fetch, root, u, concurrency, done);
        ForwardOrderIsTopological(fetch, root, done);
      }
    } else {
      var x, y, dx: nat :| IsDistance(fetch, root, x, dx) && y in Children(fetch, x) && y != x
          && !IsDistance(fetch, root, y, dx + 1);
      ChildReached(fetch, root, x, dx, y);
      var dy := HasDistance(fetch, root, y, dx + 1);
      TraceStart(fetch, root, concurrency);
      var done := OvertakingRun(fetch, root, u, concurrency, [Search([root], [])], x, y, dx, dy);
      assert x in u by { WideHolds(fetch, root, u, concurrency, x, dx); }
      OvertakenIsNotTopological(fetch, done, x, y);
    }
  }

  lemma WideHolds(fetch: Fetch, root: StorePath, u: set<StorePath>, concurrency: nat, x: StorePath, n: nat)
    requires Wide(fetch, root, u, concurrency) && IsDistance(fetch, root, x, n)
    ensures x in u
  {
    hide ReachedIn;
  }

  //////////////////////////////////////////////////////////////////////////////
  // Such graphs exist
  //////////////////////////////////////////////////////////////////////////////

  function Basenames(xs: seq<StorePath>): seq<string> { seq(|xs|, i requires 0 <= i < |xs| => Basename(xs[i])) }

  /** A binary cache whose narinfos list these references. */
  function Listing(kids: map<StorePath, seq<StorePath>>, ni: NarInfo): Fetch {
    sp => if sp in kids then Ok(ni.(references := Basenames(kids[sp]))) else Err(Cache)
  }

  lemma {:induction false} BasenamesParse(xs: seq<StorePath>)
    requires forall i :: 0 <= i < |xs| ==> Valid(xs[i])
    ensures ParsedRefs(Basenames(xs)) == xs
    ensures forall r :: r in Basenames(xs) ==> ParseBasename(r).Ok?
  {
    hide Parse, ParseBasename, Basename, RefToPath;
    forall i | 0 <= i < |xs|
      ensures ParseBasename(Basename(xs[i])) == Ok(xs[i])
    {
      PrintThenParse(xs[i]);
    }
    if xs != [] {
      assert Basenames(xs)[1..] == Basenames(xs[1..]);
      BasenamesParse(xs[1..]);
      ReferenceKeysAgree(Basename(xs[0]));
      assert xs == [xs[0]] + xs[1..];
    }
  }

  /** Any finite graph of valid store paths is that of some binary cache, and its references are good. */
  lemma AnyGraphCanBeListed(kids: map<StorePath, seq<StorePath>>, ni: NarInfo)
    requires forall x, i :: x in kids && 0 <= i < |kids[x]| ==> Valid(kids[x][i])
    ensures GoodReferences(Listing(kids, ni))
    ensures forall x :: x in kids ==> Listing(kids, ni)(x).Ok? && Children(Listing(kids, ni), x) == kids[x]
  {
    hide ParseBasename, ParsedRefs, Basenames;
    forall x | x in kids
      ensures Children(Listing(kids, ni), x) == kids[x]
      ensures forall r :: r in Basenames(kids[x]) ==> ParseBasename(r).Ok?
    {
      BasenamesParse(kids[x]);
    }
  }

  function Named(name: string): StorePath { StorePath(seq(20, _ => 0), name) }

  /** The graph of `OrderIsNotTopological`. */
  lemma TriangleExists(ni: NarInfo) returns (fetch: Fetch, a: StorePath, b: StorePath, c: StorePath)
    ensures GoodReferences(fetch) && Valid(a) && a != b && b != c && a != c
    ensures Children(fetch, a) == [b, c] && Children(fetch, b) == [] && Children(fetch, c) == [b]
    ensures fetch(a).Ok? && fetch(b).Ok? && fetch(c).Ok?
  {
    a, b, c := Named("a"), Named("b"), Named("c");
    assert a.name != b.name && b.name != c.name && a.name != c.name;
    var kids := map[a := [b, c], b := [], c := [b]];
    fetch := Listing(kids, ni);
    AnyGraphCanBeListed(kids, ni);
    hide Children, GoodReferences, Listing;
    assert a in kids && b in kids && c in kids;
  }

  /** The graph of `ConcurrentOrderIsNotTopological`. */
  lemma KiteExists(ni: NarInfo) returns (fetch: Fetch, a: StorePath, b: StorePath, c: StorePath, d: StorePath,
      e: StorePath)
    ensures GoodReferences(fetch) && Valid(a) && Kite(fetch, a, b, c, d, e)
  {
    a, b, c, d, e := Named("a"), Named("b"), Named("c"), Named("d"), Named("e");
    var kids := map[a := [b, c, d], b := [e], c := [], d := [e], e := []];
    fetch := Listing(kids, ni);
    AnyGraphCanBeListed(kids, ni);
    NamesDiffer(a, b, c, d, e);
    hide Children, GoodReferences, Listing;
    assert a in kids && b in kids && c in kids && d in kids && e in kids;
    assert kids[a] == [b, c, d] && kids[b] == [e] && kids[c] == [] && kids[d] == [e] && kids[e] == [];
  }

  lemma NamesDiffer(a: StorePath, b: StorePath, c: StorePath, d: StorePath, e: StorePath)
    requires a.name == "a" && b.name == "b" && c.name == "c" && d.name == "d" && e.name == "e"
    ensures Distinct([a, b, c, d, e])
    ensures a != b && a != c && a != d && a != e && b != c && b != d && b != e && c != d && c != e && d != e
  {
    assert a.name != b.name && a.name != c.name && a.name != d.name && a.name != e.name && b.name != c.name
           && b.name != d.name
        && b.name != e.name && c.name != d.name && c.name != e.name && d.name != e.name;
  }
}
