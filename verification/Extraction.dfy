/**
 Writing a parsed tree to disk (`extract_node` in `cache.rs`), over an abstract
 file system rooted at the directory that is being filled.
 */
module Extraction {
  import opened Outcomes
  import opened Paths
  import opened Nar

  type Path = seq<Bytes>

  datatype FsNode = Dir | File(contents: Bytes, mode: nat) | Link(target: Bytes)

  type Fs = map<Path, FsNode>

  const READ_ONLY: nat := 0x124     // 0444
  const READ_EXECUTE: nat := 0x16D  // 0555

  function ModeOf(executable: bool): nat { if executable then READ_EXECUTE else READ_ONLY }

  /** Read for everyone, write for no one, execute for everyone or no one: the three octal digits are 5 or 4. */
  lemma ModeBits(executable: bool, who: nat)
    requires who < 3
    ensures ModeOf(executable) < 512
    ensures var digit := ModeOf(executable) / (if who == 0 then 1 else if who == 1 then 8 else 64) % 8;
            digit / 4 == 1 && digit / 2 % 2 == 0 && digit % 2 == if executable then 1 else 0
  {
  }

  //////////////////////////////////////////////////////////////////////////////
  // Joining a name to a path
  //////////////////////////////////////////////////////////////////////////////

  const BYTES: Alphabet<bv8> := Alphabet(0x2f, 0x2e)

  function Join(path: Path, name: Bytes): Path { JoinPath(path, name, BYTES) }

  /** The names the parser lets through add one component and cannot climb. */
  lemma JoinValidName(path: Path, name: Bytes)
    requires ValidName(name)
    ensures Join(path, name) == path + [name]
  {
    assert Ascii(".") == [BYTES.dot] && Ascii("..") == [BYTES.dot, BYTES.dot];
    JoinIsEntryExactly(path, name, BYTES);
  }

  //////////////////////////////////////////////////////////////////////////////
  // File-system calls
  //////////////////////////////////////////////////////////////////////////////

  /** What a call leaves behind, whether it succeeded, and the paths it created, in order. */
  datatype Done = Done(fs: Fs, ok: bool, created: seq<Path>)

  predicate InDirectory(fs: Fs, p: Path) {
    p != [] && p[..|p| - 1] in fs && fs[p[..|p| - 1]].Dir?
  }

  /** `fs::write` then `set_permissions`. A symbolic link in the way is reported as an error here;
      extraction never meets one, since no attempt leaves a link where the tree has a file. */
  function WriteFile(fs: Fs, p: Path, contents: Bytes, mode: nat): Done {
    if p in fs then
      if fs[p].File? then Done(fs[p := File(contents, mode)], true, []) else Done(fs, false, [])
    else if InDirectory(fs, p) then Done(fs[p := File(contents, mode)], true, [p])
    else Done(fs, false, [])
  }

  /** A target that `symlink` takes: the archive parser also lets through empty ones and ones with a zero byte. */
  predicate Linkable(target: Bytes) { target != [] && 0 !in target }

  function MakeLink(fs: Fs, p: Path, target: Bytes): Done {
    if p !in fs && InDirectory(fs, p)
        && Linkable(target) then Done(fs[p := Link(target)], true, [p]) else Done(fs, false, [])
  }

  /** `create_dir_all`: creates the missing ancestors too. */
  function MakeDirAll(fs: Fs, p: Path): Done {
    if p in fs then Done(fs, fs[p].Dir?, [])
    else if p == [] then Done(fs[[] := Dir], true, [[]])
    else
      var up := MakeDirAll(fs, p[..|p| - 1]);
      if up.ok then Done(up.fs[p := Dir], true, up.created + [p]) else up
  }

  /** With `p[..k]` the longest prefix that exists: a success exactly if that is a directory, and then
      the missing prefixes have become directories, outermost first, and nothing else has changed. */
  lemma {:induction false} MakeDirAllExactly(fs: Fs, p: Path, k: nat)
    requires k <= |p| && p[..k] in fs && forall j :: k < j <= |p| ==> p[..j] !in fs
    ensures MakeDirAll(fs, p).ok <==> fs[p[..k]].Dir?
    ensures !MakeDirAll(fs, p).ok ==> MakeDirAll(fs, p).fs == fs && MakeDirAll(fs, p).created == []
    ensures MakeDirAll(fs, p).ok ==>
              && |MakeDirAll(fs, p).created| == |p| - k
              && (forall i :: 0 <= i < |p| - k ==> MakeDirAll(fs, p).created[i] == p[..k + 1 + i])
              && forall q :: if q !in fs && q in MakeDirAll(fs, p).created
                   then q in MakeDirAll(fs, p).fs && MakeDirAll(fs, p).fs[q] == Dir
                   else SameAt(fs, MakeDirAll(fs, p).fs, q)
  {
    assert p[..|p|] == p;
    if k < |p| {
      var above := p[..|p| - 1];
      assert forall j :: 0 <= j <= |above| ==> above[..j] == p[..j];
      MakeDirAllExactly(fs, above, k);
    }
  }

  function Extract(fs: Fs, node: Node, p: Path): Done
    decreases node, 1
  {
    match node
    case Regular(executable, contents) => WriteFile(fs, p, contents, ModeOf(executable))
    case Symlink(target) => MakeLink(fs, p, target)
    case Directory(entries) =>
      var made := if p in fs then Done(fs, true, []) else MakeDirAll(fs, p);
      if !made.ok then made
      else
        var rest := ExtractEntries(made.fs, entries, p);
        Done(rest.fs, rest.ok, made.created + rest.created)
  }

  function ExtractEntries(fs: Fs, entries: seq<Entry>, p: Path): Done
    decreases entries, 0
  {
    if entries == [] then Done(fs, true, [])
    else
      var first := Extract(fs, entries[0].node, Join(p, entries[0].name));
      if !first.ok then first
      else
        var rest := ExtractEntries(first.fs, entries[1..], p);
        Done(rest.fs, rest.ok, first.created + rest.created)
  }

  /** The extractor as written, on a mutable file system. */
  class Disk {
    var fs: Fs

    constructor (initial: Fs)
      ensures fs == initial
    {
      fs := initial;
    }

    method ExtractNode(node: Node, p: Path) returns (r: Outcome<(), Error>)
      modifies this
      ensures fs == Extract(old(fs), node, p).fs
      ensures r == if Extract(old(fs), node, p).ok then Ok(()) else Err(Io)
      decreases node
    {
      match node
      case Regular(executable, contents) =>
        var done := WriteFile(fs, p, contents, ModeOf(executable));
        fs := done.fs;
        r := if done.ok then Ok(()) else Err(Io);
      case Symlink(target) =>
        var done := MakeLink(fs, p, target);
        fs := done.fs;
        r := if done.ok then Ok(()) else Err(Io);
      case Directory(entries) =>
        if p !in fs {
          var done := MakeDirAll(fs, p);
          fs := done.fs;
          if !done.ok {
            return Err(Io);
          }
        }
        ghost var start := fs;
        ghost var all := ExtractEntries(start, entries, p);
        var i := 0;
        while i < |entries|
          invariant 0 <= i <= |entries|
          invariant ExtractEntries(fs, entries[i..], p).fs == all.fs
          invariant ExtractEntries(fs, entries[i..], p).ok == all.ok
        {
          assert entries[i..][1..] == entries[i + 1..];
          var child := Join(p, entries[i].name);
          var _ :- ExtractNode(entries[i].node, child);
          i := i + 1;
        }
        r := Ok(());
    }
  }

  //////////////////////////////////////////////////////////////////////////////
  // What a file system holds
  //////////////////////////////////////////////////////////////////////////////

  function Names(entries: seq<Entry>): set<Bytes> { set i | 0 <= i < |entries| :: entries[i].name }

  /** Reading the file system back at `p` gives exactly this tree: same names, contents, modes and targets. */
  ghost predicate Holds(fs: Fs, p: Path, node: Node)
    decreases node, 1
  {
    p in fs &&
    match node
    case Regular(executable, contents) => fs[p] == File(contents, ModeOf(executable))
    case Symlink(target) => fs[p] == Link(target)
    case Directory(entries) =>
      && fs[p] == Dir
      && (forall n :: p + [n] in fs ==> n in Names(entries))
      && HoldsEntries(fs, p, entries)
  }

  ghost predicate HoldsEntries(fs: Fs, p: Path, entries: seq<Entry>)
    decreases entries, 0
  {
    entries != [] ==> Holds(fs, p + [entries[0].name], entries[0].node) && HoldsEntries(fs, p, entries[1..])
  }

  /** Every link of the tree has a target that can be written. */
  predicate Writable(node: Node)
    decreases node, 1
  {
    match node
    case Regular(_, _) => true
    case Symlink(target) => Linkable(target)
    case Directory(entries) => WritableEntries(entries)
  }

  predicate WritableEntries(entries: seq<Entry>)
    decreases entries, 0
  {
    entries != [] ==> Writable(entries[0].node) && WritableEntries(entries[1..])
  }

  /** Nothing lives at or below `p`. */
  ghost predicate Vacant(fs: Fs, p: Path) { forall q :: q in fs ==> !(p <= q) }

  /** `p` is an empty directory. */
  ghost predicate EmptyDirectory(fs: Fs, p: Path) {
    p in fs && fs[p].Dir? && forall q :: q in fs && p <= q ==> q == p
  }

  /** Two file systems agree at `q`. */
  predicate SameAt(fs: Fs, gs: Fs, q: Path) {
    (q in fs <==> q in gs) && (q in fs ==> fs[q] == gs[q])
  }

  ghost predicate SameUnder(fs: Fs, gs: Fs, p: Path) { forall q :: p <= q ==> SameAt(fs, gs, q) }

  ghost predicate SameOutside(fs: Fs, gs: Fs, p: Path) { forall q :: !(p <= q) ==> SameAt(fs, gs, q) }

  ghost predicate NoDuplicates(ps: seq<Path>) { forall i, j :: 0 <= i < j < |ps| ==> ps[i] != ps[j] }

  lemma {:induction false} HoldsDependsOnSubtree(fs: Fs, gs: Fs, p: Path, node: Node)
    requires Holds(fs, p, node) && SameUnder(fs, gs, p)
    ensures Holds(gs, p, node)
    decreases node, 1
  {
    assert SameAt(fs, gs, p);
    match node
    case Regular(_, _) =>
    case Symlink(_) =>
    case Directory(entries) =>
      forall n | p + [n] in gs
        ensures n in Names(entries)
      {
        assert SameAt(fs, gs, p + [n]);
      }
      EntriesDependOnSubtree(fs, gs, p, entries);
  }

  lemma {:induction false} EntriesDependOnSubtree(fs: Fs, gs: Fs, p: Path, entries: seq<Entry>)
    requires HoldsEntries(fs, p, entries) && SameUnder(fs, gs, p)
    ensures HoldsEntries(gs, p, entries)
    decreases entries, 0
  {
    if entries != [] {
      HoldsDependsOnSubtree(fs, gs, p + [entries[0].name], entries[0].node);
      EntriesDependOnSubtree(fs, gs, p, entries[1..]);
    }
  }

  //////////////////////////////////////////////////////////////////////////////
  // Extraction is lossless and confined
  //////////////////////////////////////////////////////////////////////////////

  /** What extracting a tree at `p` promises: success exactly for a writable tree, then the tree on disk; in any case
      nothing touched elsewhere, and every created path new, at or below `p`, and created once. */
  ghost predicate Placed(fs: Fs, d: Done, p: Path, node: Node) {
    && (d.ok <==> Writable(node))
    && (d.ok ==> Holds(d.fs, p, node))
    && SameOutside(fs, d.fs, p)
    && CreatedUnder(fs, d.created, p)
  }

  ghost predicate CreatedUnder(fs: Fs, created: seq<Path>, p: Path) {
    NoDuplicates(created) && forall i :: 0 <= i < |created| ==> p <= created[i] && created[i] !in fs
  }

  /** As `Placed`, for some of the entries of a directory that exists already. */
  ghost predicate EntriesPlaced(fs: Fs, d: Done, p: Path, entries: seq<Entry>) {
    && (d.ok <==> WritableEntries(entries))
    && (d.ok ==> HoldsEntries(d.fs, p, entries))
    && (forall q :: (forall n :: n in Names(entries) ==> !(p + [n] <= q)) ==> SameAt(fs, d.fs, q))
    && NoDuplicates(d.created)
    && (forall i :: 0 <= i < |d.created| ==> NewUnder(fs, d.created[i], p, Names(entries)))
  }

  /** `c` did not exist and lies below one of these children of `p`. */
  predicate NewUnder(fs: Fs, c: Path, p: Path, names: set<Bytes>) {
    c !in fs && |p| < |c| && p <= c && c[|p|] in names
  }

  lemma {:induction false} ExtractVacant(fs: Fs, node: Node, p: Path)
    requires WellFormed(node)
    requires (Vacant(fs, p) && InDirectory(fs, p)) || (node.Directory? && EmptyDirectory(fs, p))
    ensures Placed(fs, Extract(fs, node, p), p, node)
    ensures node.Directory? && p in fs ==>
              forall i :: 0 <= i < |Extract(fs, node, p).created| ==> p < Extract(fs, node, p).created[i]
    decreases node, 1
  {
    match node
    case Regular(_, _) => assert p <= p;
    case Symlink(_) => assert p <= p;
    case Directory(entries) =>
      var made := if p in fs then Done(fs, true, []) else MakeDirAll(fs, p);
      assert made == (if p in fs then Done(fs, true, []) else Done(fs[p := Dir], true, [p])) by {
        assert p !in fs ==> MakeDirAll(fs, p[..|p| - 1]) == Done(fs, true, []);
        assert [] + [p] == [p];
      }
      forall n, q | n in Names(entries) && q in made.fs
        ensures !(p + [n] <= q)
      {
        assert p + [n] <= q ==> p <= q;
      }
      ExtractFreshEntries(made.fs, entries, None, p);
      DirectoryPlaced(fs, made, entries, p);
  }

  lemma {:induction false} ExtractFreshEntries(fs: Fs, entries: seq<Entry>, last: Option<Bytes>, p: Path)
    requires WellFormedEntries(entries, last)
    requires p in fs && fs[p].Dir?
    requires forall n :: n in Names(entries) ==> Vacant(fs, p + [n])
    ensures EntriesPlaced(fs, ExtractEntries(fs, entries, p), p, entries)
    decreases entries, 0
  {
    if entries != [] {
      var e := entries[0];
      var child := p + [e.name];
      JoinValidName(p, e.name);
      assert e.name in Names(entries);
      assert child[..|child| - 1] == p;
      ExtractVacant(fs, e.node, child);
      var first := Extract(fs, e.node, child);
      NamesSplit(entries, last);
      if first.ok {
        assert SameAt(fs, first.fs, p);
        forall n | n in Names(entries[1..])
          ensures Vacant(first.fs, p + [n])
        {
          forall q | p + [n] <= q
            ensures q !in first.fs
          {
            SiblingsApart(p, n, e.name, q);
            assert SameAt(fs, first.fs, q);
          }
        }
        ExtractFreshEntries(first.fs, entries[1..], Some(e.name), p);
        EntryThenRest(fs, first, ExtractEntries(first.fs, entries[1..], p), p, entries);
      } else {
        EntryFails(fs, first, p, entries);
      }
    }
  }

  lemma SiblingsApart(p: Path, m: Bytes, n: Bytes, q: Path)
    requires m != n && p + [m] <= q
    ensures !(p + [n] <= q)
  {
    assert q[|p|] == (p + [m])[|p|] == m;
    assert (p + [n])[|p|] == n;
  }

  lemma NamesSplit(entries: seq<Entry>, last: Option<Bytes>)
    requires entries != [] && WellFormedEntries(entries, last)
    ensures Names(entries) == {entries[0].name} + Names(entries[1..])
    ensures entries[0].name !in Names(entries[1..])
  {
    assert forall i :: 0 < i < |entries| ==> entries[i] == entries[1..][i - 1];
    forall i | 0 < i < |entries|
      ensures entries[i].name != entries[0].name
    {
      NamesAscend(entries, last, 0, i);
    }
  }

  lemma EntryFails(fs: Fs, first: Done, p: Path, entries: seq<Entry>)
    requires entries != [] && Placed(fs, first, p + [entries[0].name], entries[0].node) && !first.ok
    ensures EntriesPlaced(fs, first, p, entries)
  {
    hide Holds, HoldsEntries, Writable;
    var name := entries[0].name;
    var child := p + [name];
    assert name in Names(entries);
    forall i | 0 <= i < |first.created|
      ensures NewUnder(fs, first.created[i], p, Names(entries))
    {
      assert first.created[i][|p|] == child[|p|];
    }
  }

  /** One entry placed, then the others: the first stays as it was. */
  lemma EntryThenRest(fs: Fs, first: Done, rest: Done, p: Path, entries: seq<Entry>)
    requires entries != [] && Names(entries) == {entries[0].name} + Names(entries[1..])
    requires entries[0].name !in Names(entries[1..])
    requires Placed(fs, first, p + [entries[0].name], entries[0].node) && first.ok
    requires EntriesPlaced(first.fs, rest, p, entries[1..])
    ensures EntriesPlaced(fs, Done(rest.fs, rest.ok, first.created + rest.created), p, entries)
  {
    var name := entries[0].name;
    var child := p + [name];
    forall q | child <= q
      ensures SameAt(first.fs, rest.fs, q)
    {
      forall n | n in Names(entries[1..])
        ensures !(p + [n] <= q)
      {
        SiblingsApart(p, name, n, q);
      }
    }
    HoldsDependsOnSubtree(first.fs, rest.fs, child, entries[0].node);
    forall q | forall n :: n in Names(entries) ==> !(p + [n] <= q)
      ensures SameAt(fs, rest.fs, q)
    {
      assert name in Names(entries);
      assert SameAt(fs, first.fs, q);
      assert forall n :: n in Names(entries[1..]) ==> n in Names(entries);
      assert SameAt(first.fs, rest.fs, q);
    }
    CreatedApart(fs, first, rest, p, entries);
  }

  lemma CreatedApart(fs: Fs, first: Done, rest: Done, p: Path, entries: seq<Entry>)
    requires entries != [] && Names(entries) == {entries[0].name} + Names(entries[1..])
    requires entries[0].name !in Names(entries[1..])
    requires Placed(fs, first, p + [entries[0].name], entries[0].node)
    requires EntriesPlaced(first.fs, rest, p, entries[1..])
    ensures NoDuplicates(first.created + rest.created)
    ensures forall i :: 0 <= i < |first.created + rest.created| ==>
              NewUnder(fs, (first.created + rest.created)[i], p, Names(entries))
  {
    var child := p + [entries[0].name];
    forall i | 0 <= i < |first.created|
      ensures |p| < |first.created[i]| && p <= first.created[i] && first.created[i][|p|] == entries[0].name
    {
      assert first.created[i][|p|] == child[|p|];
    }
    forall i | 0 <= i < |rest.created|
      ensures rest.created[i] !in fs
    {
      var c := rest.created[i];
      assert c[|p|] != child[|p|];
      assert SameAt(fs, first.fs, c);
    }
  }

  /** The directory itself, then all of its entries. */
  lemma DirectoryPlaced(fs: Fs, made: Done, entries: seq<Entry>, p: Path)
    requires made == if p in fs then Done(fs, true, []) else Done(fs[p := Dir], true, [p])
    requires p !in fs ==> MakeDirAll(fs, p) == made
    requires p in made.fs && made.fs[p] == Dir
    requires forall q :: q in made.fs && p <= q ==> q == p
    requires EntriesPlaced(made.fs, ExtractEntries(made.fs, entries, p), p, entries)
    ensures Placed(fs, Extract(fs, Directory(entries), p), p, Directory(entries))
    ensures p in fs ==>
              var created := Extract(fs, Directory(entries), p).created;
              forall i :: 0 <= i < |created| ==> p < created[i]
  {
    hide MakeDirAll, ExtractEntries, HoldsEntries;
    var rest := ExtractEntries(made.fs, entries, p);
    assert forall n :: !(p + [n] <= p);
    assert SameAt(made.fs, rest.fs, p);
    forall n | n !in Names(entries)
      ensures p + [n] !in rest.fs
    {
      forall m | m in Names(entries)
        ensures !(p + [m] <= p + [n])
      {
        SiblingsApart(p, n, m, p + [n]);
      }
      assert SameAt(made.fs, rest.fs, p + [n]);
      assert p <= p + [n] && p != p + [n];
    }
    forall q | !(p <= q)
      ensures SameAt(fs, rest.fs, q)
    {
      assert forall n :: p + [n] <= q ==> p <= q;
      assert SameAt(made.fs, rest.fs, q);
    }
    DirectoryCreates(fs, made, rest, entries, p);
  }

  lemma DirectoryCreates(fs: Fs, made: Done, rest: Done, entries: seq<Entry>, p: Path)
    requires made == if p in fs then Done(fs, true, []) else Done(fs[p := Dir], true, [p])
    requires NoDuplicates(rest.created)
    requires forall i :: 0 <= i < |rest.created| ==> NewUnder(made.fs, rest.created[i], p, Names(entries))
    ensures CreatedUnder(fs, made.created + rest.created, p)
    ensures p in fs ==> forall i :: 0 <= i < |made.created + rest.created| ==> p < (made.created + rest.created)[i]
  {
    forall i | 0 <= i < |rest.created|
      ensures p < rest.created[i] && rest.created[i] !in fs
    {
      assert NewUnder(made.fs, rest.created[i], p, Names(entries));
    }
  }

  /** Extraction of a parsed directory into an empty one: it succeeds exactly when every link target can be written, and
      then the disk reads back as the tree; in any case nothing outside the directory changes, and every path it
      creates is strictly below it, new, and created once. */
  lemma ExtractIntoFresh(fs: Fs, entries: seq<Entry>, p: Path)
    requires WellFormed(Directory(entries)) && EmptyDirectory(fs, p)
    ensures var d := Extract(fs, Directory(entries), p);
            && (d.ok <==> Writable(Directory(entries)))
            && (d.ok ==> Holds(d.fs, p, Directory(entries)))
            && SameOutside(fs, d.fs, p)
            && NoDuplicates(d.created)
            && forall i :: 0 <= i < |d.created| ==> p < d.created[i] && d.created[i] !in fs
  {
    ExtractVacant(fs, Directory(entries), p);
  }

  /** A root that is not a directory cannot be written over the directory made for it. */
  lemma RootMustBeDirectory(fs: Fs, node: Node, p: Path)
    requires p in fs && fs[p].Dir? && !node.Directory?
    ensures !Extract(fs, node, p).ok && Extract(fs, node, p).fs == fs
  {
  }

  //////////////////////////////////////////////////////////////////////////////
  // The disk determines the tree
  //////////////////////////////////////////////////////////////////////////////

  lemma {:induction false} HoldsEntryAt(fs: Fs, p: Path, entries: seq<Entry>, i: nat)
    requires HoldsEntries(fs, p, entries) && i < |entries|
    ensures Holds(fs, p + [entries[i].name], entries[i].node)
    decreases |entries|
  {
    if i > 0 {
      HoldsEntryAt(fs, p, entries[1..], i - 1);
    }
  }

  /** In strictly ascending lists with the same names, the first names agree. */
  lemma FirstNamesAgree(a: seq<Entry>, la: Option<Bytes>, b: seq<Entry>, lb: Option<Bytes>)
    requires WellFormedEntries(a, la) && WellFormedEntries(b, lb)
    requires Names(a) == Names(b) && a != [] && b != []
    ensures a[0].name == b[0].name
  {
    assert a[0].name in Names(b) && b[0].name in Names(a);
    var i :| 0 <= i < |b| && b[i].name == a[0].name;
    var j :| 0 <= j < |a| && a[j].name == b[0].name;
    if i > 0 {
      NamesAscend(b, lb, 0, i);
    }
    if j > 0 {
      NamesAscend(a, la, 0, j);
    }
    OrderIsTotal(a[0].name, b[0].name);
  }

  lemma NamesEmpty(entries: seq<Entry>)
    ensures Names(entries) == {} <==> entries == []
  {
    if entries != [] {
      assert entries[0].name in Names(entries);
    }
  }

  lemma {:induction false} SameNamesSameEntries(fs: Fs, p: Path, a: seq<Entry>, la: Option<Bytes>, b: seq<Entry>,
      lb: Option<Bytes>)
    requires WellFormedEntries(a, la) && WellFormedEntries(b, lb)
    requires HoldsEntries(fs, p, a) && HoldsEntries(fs, p, b) && Names(a) == Names(b)
    ensures a == b
    decreases a, 0
  {
    NamesEmpty(a);
    NamesEmpty(b);
    if a != [] {
      FirstNamesAgree(a, la, b, lb);
      HoldsDetermines(fs, p + [a[0].name], a[0].node, b[0].node);
      NamesSplit(a, la);
      NamesSplit(b, lb);
      SameNamesSameEntries(fs, p, a[1..], Some(a[0].name), b[1..], Some(b[0].name));
      assert a == [a[0]] + a[1..] && b == [b[0]] + b[1..];
    }
  }

  lemma NamesOnDisk(fs: Fs, p: Path, entries: seq<Entry>, n: Bytes)
    requires Holds(fs, p, Directory(entries))
    ensures n in Names(entries) <==> p + [n] in fs
  {
    if n in Names(entries) {
      var i :| 0 <= i < |entries| && entries[i].name == n;
      HoldsEntryAt(fs, p, entries, i);
    }
  }

  /** No two well-formed trees read back from the same place. */
  lemma {:induction false} HoldsDetermines(fs: Fs, p: Path, t: Node, u: Node)
    requires WellFormed(t) && WellFormed(u) && Holds(fs, p, t) && Holds(fs, p, u)
    ensures t == u
    decreases t, 1
  {
    if t.Directory? {
      forall n
        ensures n in Names(t.entries) <==> n in Names(u.entries)
      {
        NamesOnDisk(fs, p, t.entries, n);
        NamesOnDisk(fs, p, u.entries, n);
      }
      SameNamesSameEntries(fs, p, t.entries, None, u.entries, None);
    }
  }

  //////////////////////////////////////////////////////////////////////////////
  // Extraction one call at a time
  //////////////////////////////////////////////////////////////////////////////

  /** The file-system calls an extraction makes, so that it can be interrupted between them. */
  datatype Op =
    | PutFile(path: Path, contents: Bytes, mode: nat)
    | PutLink(path: Path, target: Bytes)
    | EnsureDir(path: Path)

  function Plan(node: Node, p: Path): seq<Op>
    decreases node, 1
  {
    match node
    case Regular(executable, contents) => [PutFile(p, contents, ModeOf(executable))]
    case Symlink(target) => [PutLink(p, target)]
    case Directory(entries) => [EnsureDir(p)] + PlanEntries(entries, p)
  }

  function PlanEntries(entries: seq<Entry>, p: Path): seq<Op>
    decreases entries, 0
  {
    if entries == [] then []
    else Plan(entries[0].node, Join(p, entries[0].name)) + PlanEntries(entries[1..], p)
  }

  function Apply(fs: Fs, op: Op): Option<Fs> {
    match op
    case PutFile(p, contents, mode) =>
      var d := WriteFile(fs, p, contents, mode);
      if d.ok then Some(d.fs) else None
    case PutLink(p, target) =>
      var d := MakeLink(fs, p, target);
      if d.ok then Some(d.fs) else None
    case EnsureDir(p) =>
      if p in fs then Some(fs)
      else if InDirectory(fs, p) then Some(fs[p := Dir])
      else None
  }

  function ApplyAll(fs: Fs, ops: seq<Op>): Option<Fs>
    decreases |ops|
  {
    if ops == [] then Some(fs)
    else
      var next :- Apply(fs, ops[0]);
      ApplyAll(next, ops[1..])
  }

  lemma {:induction false} ApplyAllAppend(fs: Fs, a: seq<Op>, b: seq<Op>)
    ensures ApplyAll(fs, a + b) == if ApplyAll(fs, a).Some? then ApplyAll(ApplyAll(fs, a).value, b) else None
    decreases |a|
  {
    hide Apply;
    if a == [] {
      assert a + b == b;
    } else {
      assert (a + b)[0] == a[0] && (a + b)[1..] == a[1..] + b;
      if Apply(fs, a[0]).Some? {
        ApplyAllAppend(Apply(fs, a[0]).value, a[1..], b);
      }
    }
  }

  function Result(d: Done): Option<Fs> { if d.ok then Some(d.fs) else None }

  /** The parent of `p` exists. */
  predicate Anchored(fs: Fs, p: Path) { if p == [] then [] in fs else p[..|p| - 1] in fs }

  lemma {:induction false} ApplyKeeps(fs: Fs, ops: seq<Op>, q: Path)
    requires q in fs && ApplyAll(fs, ops).Some?
    ensures q in ApplyAll(fs, ops).value
    decreases |ops|
  {
    if ops != [] {
      ApplyKeeps(Apply(fs, ops[0]).value, ops[1..], q);
    }
  }

  /** The planned calls do what the extractor does. */
  lemma {:induction false} PlanIsExtract(fs: Fs, node: Node, p: Path)
    requires WellFormed(node) && Anchored(fs, p)
    ensures ApplyAll(fs, Plan(node, p)) == Result(Extract(fs, node, p))
    decreases node, 1
  {
    match node
    case Regular(executable, contents) =>
      assert ApplyAll(fs, Plan(node, p)) == Apply(fs, PutFile(p, contents, ModeOf(executable)));
    case Symlink(target) =>
      assert ApplyAll(fs, Plan(node, p)) == Apply(fs, PutLink(p, target));
    case Directory(entries) =>
      assert Plan(node, p)[0] == EnsureDir(p) && Plan(node, p)[1..] == PlanEntries(entries, p);
      var made := if p in fs then Done(fs, true, []) else MakeDirAll(fs, p);
      if p !in fs {
        assert MakeDirAll(fs, p[..|p| - 1]) == Done(fs, fs[p[..|p| - 1]].Dir?, []);
      }
      assert Apply(fs, EnsureDir(p)) == Result(made);
      if made.ok {
        PlanEntriesIsExtract(made.fs, entries, None, p);
      }
  }

  lemma {:induction false} PlanEntriesIsExtract(fs: Fs, entries: seq<Entry>, last: Option<Bytes>, p: Path)
    requires WellFormedEntries(entries, last) && p in fs
    ensures ApplyAll(fs, PlanEntries(entries, p)) == Result(ExtractEntries(fs, entries, p))
    decreases entries, 0
  {
    if entries != [] {
      hide WriteFile, MakeLink, MakeDirAll, Apply;
      var child := Join(p, entries[0].name);
      JoinValidName(p, entries[0].name);
      assert child[..|child| - 1] == p;
      PlanIsExtract(fs, entries[0].node, child);
      var first := Plan(entries[0].node, child);
      ApplyAllAppend(fs, first, PlanEntries(entries[1..], p));
      if ApplyAll(fs, first).Some? {
        ApplyKeeps(fs, first, p);
        PlanEntriesIsExtract(ApplyAll(fs, first).value, entries[1..], Some(entries[0].name), p);
      }
    }
  }

  /** An empty directory to extract into. */
  const EMPTY_ROOT: Fs := map[[] := Dir]

  /** What a call puts at its path. */
  function Content(op: Op): FsNode {
    match op
    case PutFile(_, contents, mode) => File(contents, mode)
    case PutLink(_, target) => Link(target)
    case EnsureDir(_) => Dir
  }

  function Written(fs: Fs, ops: seq<Op>): Fs {
    if ops == [] then fs else Written(fs, ops[..|ops| - 1])[ops[|ops| - 1].path := Content(ops[|ops| - 1])]
  }

  /** What a tree looks like on disk, at the root of its own file system. */
  function OnDisk(node: Node): Fs { Written(EMPTY_ROOT, Plan(node, [])) }

  //////////////////////////////////////////////////////////////////////////////
  // The shape of a plan
  //////////////////////////////////////////////////////////////////////////////

  /** A plan stays at or below its path. */
  lemma {:induction false} PlanPaths(node: Node, p: Path, i: nat)
    requires WellFormed(node) && i < |Plan(node, p)|
    ensures p <= Plan(node, p)[i].path && (i == 0 <==> Plan(node, p)[i].path == p)
    decreases node, 1
  {
    if node.Directory? && i > 0 {
      PlanEntriesPaths(node.entries, None, p, i - 1);
    }
  }

  lemma {:induction false} PlanEntriesPaths(entries: seq<Entry>, last: Option<Bytes>, p: Path, i: nat)
    requires WellFormedEntries(entries, last) && i < |PlanEntries(entries, p)|
    ensures p < PlanEntries(entries, p)[i].path && PlanEntries(entries, p)[i].path[|p|] in Names(entries)
    decreases entries, 0
  {
    var child := Join(p, entries[0].name);
    JoinValidName(p, entries[0].name);
    NamesSplit(entries, last);
    var n := |Plan(entries[0].node, child)|;
    if i < n {
      PlanPaths(entries[0].node, child, i);
      assert child[|p|] == entries[0].name;
    } else {
      PlanEntriesPaths(entries[1..], Some(entries[0].name), p, i - n);
    }
  }

  /** No two calls of a plan have the same path. */
  lemma {:induction false} PlanDistinct(node: Node, p: Path, i: nat, j: nat)
    requires WellFormed(node) && i < j < |Plan(node, p)|
    ensures Plan(node, p)[i].path != Plan(node, p)[j].path
    decreases node, 1
  {
    if i == 0 {
      PlanPaths(node, p, 0);
      PlanPaths(node, p, j);
    } else {
      PlanEntriesDistinct(node.entries, None, p, i - 1, j - 1);
    }
  }

  lemma {:induction false} PlanEntriesDistinct(entries: seq<Entry>, last: Option<Bytes>, p: Path, i: nat, j: nat)
    requires WellFormedEntries(entries, last) && i < j < |PlanEntries(entries, p)|
    ensures PlanEntries(entries, p)[i].path != PlanEntries(entries, p)[j].path
    decreases entries, 0
  {
    hide Join, WellFormed, ValidName, Utf8, Less;
    var child := Join(p, entries[0].name);
    JoinValidName(p, entries[0].name);
    NamesSplit(entries, last);
    var n := |Plan(entries[0].node, child)|;
    if j < n {
      PlanDistinct(entries[0].node, child, i, j);
    } else if i >= n {
      PlanEntriesDistinct(entries[1..], Some(entries[0].name), p, i - n, j - n);
    } else {
      PlanPaths(entries[0].node, child, i);
      PlanEntriesPaths(entries[1..], Some(entries[0].name), p, j - n);
      assert child[|p|] == entries[0].name;
    }
  }

  /** The directory of a path, but the first, is made before it. */
  lemma {:induction false} PlanParent(node: Node, p: Path, i: nat) returns (j: nat)
    requires WellFormed(node) && 0 < i < |Plan(node, p)|
    ensures j < i && Plan(node, p)[i].path != [] && Plan(node, p)[j] == EnsureDir(Up(Plan(node, p)[i].path))
    decreases node, 1
  {
    var found, k := PlanEntriesParent(node.entries, None, p, i - 1);
    j := if found then k + 1 else 0;
  }

  function Up(p: Path): Path
    requires p != []
  {
    p[..|p| - 1]
  }

  lemma {:induction false} PlanEntriesParent(entries: seq<Entry>, last: Option<Bytes>, p: Path, i: nat)
    returns (found: bool, j: nat)
    requires WellFormedEntries(entries, last) && i < |PlanEntries(entries, p)|
    ensures PlanEntries(entries, p)[i].path != []
    ensures found ==> j < i && PlanEntries(entries, p)[j] == EnsureDir(Up(PlanEntries(entries, p)[i].path))
    ensures !found ==> Up(PlanEntries(entries, p)[i].path) == p
    decreases entries, 0
  {
    var child := Join(p, entries[0].name);
    JoinValidName(p, entries[0].name);
    var n := |Plan(entries[0].node, child)|;
    j := 0;
    if i == 0 {
      PlanPaths(entries[0].node, child, 0);
      found := false;
    } else if i < n {
      found := true;
      j := PlanParent(entries[0].node, child, i);
    } else {
      found, j := PlanEntriesParent(entries[1..], Some(entries[0].name), p, i - n);
      j := j + n;
    }
  }

  predicate LinksWritable(ops: seq<Op>) { forall i :: 0 <= i < |ops| && ops[i].PutLink? ==> Linkable(ops[i].target) }

  lemma LinksWritableAppend(a: seq<Op>, b: seq<Op>)
    ensures LinksWritable(a + b) <==> LinksWritable(a) && LinksWritable(b)
  {
    hide Linkable;
    assert forall i :: 0 <= i < |a| ==> (a + b)[i] == a[i];
    assert forall i :: 0 <= i < |b| ==> (a + b)[|a| + i] == b[i];
  }

  /** Links of a plan are the links of its tree. */
  lemma {:induction false} PlanWritable(node: Node, p: Path)
    ensures Writable(node) <==> LinksWritable(Plan(node, p))
    decreases node, 1
  {
    match node
    case Regular(_, _) =>
    case Symlink(_) => assert Plan(node, p)[0].PutLink?;
    case Directory(entries) =>
      PlanEntriesWritable(entries, p);
      LinksWritableAppend([EnsureDir(p)], PlanEntries(entries, p));
  }

  lemma {:induction false} PlanEntriesWritable(entries: seq<Entry>, p: Path)
    ensures WritableEntries(entries) <==> LinksWritable(PlanEntries(entries, p))
    decreases entries, 0
  {
    if entries != [] {
      PlanWritable(entries[0].node, Join(p, entries[0].name));
      PlanEntriesWritable(entries[1..], p);
      LinksWritableAppend(Plan(entries[0].node, Join(p, entries[0].name)), PlanEntries(entries[1..], p));
    }
  }

  lemma {:induction false} WrittenAt(fs: Fs, ops: seq<Op>, i: nat)
    requires i < |ops| && forall j, k :: 0 <= j < k < |ops| ==> ops[j].path != ops[k].path
    ensures ops[i].path in Written(fs, ops) && Written(fs, ops)[ops[i].path] == Content(ops[i])
  {
    if i < |ops| - 1 {
      WrittenAt(fs, ops[..|ops| - 1], i);
    }
  }

  lemma {:induction false} WrittenOnly(fs: Fs, ops: seq<Op>, q: Path)
    requires q in Written(fs, ops)
    ensures q in fs || exists i :: 0 <= i < |ops| && ops[i].path == q
  {
    if ops != [] && q != ops[|ops| - 1].path {
      WrittenOnly(fs, ops[..|ops| - 1], q);
    }
  }

  /** A call writes what `goal` has at its path. */
  predicate Fits(op: Op, goal: Fs) { op.path in goal && goal[op.path] == Content(op) }

  lemma PlanFits(node: Node, i: nat)
    requires WellFormed(node) && i < |Plan(node, [])|
    ensures Fits(Plan(node, [])[i], OnDisk(node))
  {
    hide Plan, WellFormed;
    forall j, k | 0 <= j < k < |Plan(node, [])|
      ensures Plan(node, [])[j].path != Plan(node, [])[k].path
    {
      PlanDistinct(node, [], j, k);
    }
    WrittenAt(EMPTY_ROOT, Plan(node, []), i);
  }

  /** The paths of a directory tree on disk are those of its plan. */
  lemma OnDiskPaths(node: Node, q: Path) returns (i: nat)
    requires WellFormed(node) && node.Directory? && q in OnDisk(node)
    ensures i < |Plan(node, [])| && Plan(node, [])[i].path == q
  {
    WrittenOnly(EMPTY_ROOT, Plan(node, []), q);
    if q == [] {
      i := 0;
    } else {
      i :| 0 <= i < |Plan(node, [])| && Plan(node, [])[i].path == q;
    }
  }

  //////////////////////////////////////////////////////////////////////////////
  // Extraction over what an earlier attempt has left
  //////////////////////////////////////////////////////////////////////////////

  /** Part of `goal`: nothing that is not in it, directories and links as they are in it, files possibly torn. */
  predicate PartOf(fs: Fs, goal: Fs) {
    && [] in fs
    && forall q :: q in fs ==> q in goal && (if goal[q].File? then fs[q].File? else fs[q] == goal[q])
  }

  predicate NoLinks(fs: Fs) { forall q :: q in fs ==> !fs[q].Link? }

  /** The first `n` calls have left their paths as in `goal`. */
  predicate DoneUpTo(fs: Fs, goal: Fs, ops: seq<Op>, n: nat)
    requires n <= |ops|
  {
    forall i :: 0 <= i < n ==> ops[i].path in fs && ops[i].path in goal && fs[ops[i].path] == goal[ops[i].path]
  }

  lemma ApplyTowards(fs: Fs, goal: Fs, ops: seq<Op>, n: nat)
    requires PartOf(fs, goal) && n < |ops| && DoneUpTo(fs, goal, ops, n) && Fits(ops[n], goal)
    requires Apply(fs, ops[n]).Some?
    ensures PartOf(Apply(fs, ops[n]).value, goal) && DoneUpTo(Apply(fs, ops[n]).value, goal, ops, n + 1)
  {
  }

  /** When every call has been made, a part of the tree is the whole tree. */
  lemma AllDoneIsOnDisk(fs: Fs, node: Node)
    requires WellFormed(node) && node.Directory?
    requires PartOf(fs, OnDisk(node)) && DoneUpTo(fs, OnDisk(node), Plan(node, []), |Plan(node, [])|)
    ensures fs == OnDisk(node)
  {
    hide OnDisk, Plan, WellFormed;
    forall q | q in OnDisk(node)
      ensures q in fs && fs[q] == OnDisk(node)[q]
    {
      var i := OnDiskPaths(node, q);
    }
  }

  /** Every link on the disk was made by one of the first `n` calls. */
  ghost predicate OwnLinks(fs: Fs, ops: seq<Op>, n: nat)
    requires n <= |ops|
  {
    forall q :: q in fs && fs[q].Link? ==> exists i :: 0 <= i < n && ops[i].path == q
  }

  lemma NextCallSucceeds(fs: Fs, node: Node, n: nat)
    requires WellFormed(node) && node.Directory? && n < |Plan(node, [])|
    requires PartOf(fs, OnDisk(node)) && DoneUpTo(fs, OnDisk(node), Plan(node, []), n)
    requires OwnLinks(fs, Plan(node, []), n)
    requires Plan(node, [])[n].PutLink? ==> Linkable(Plan(node, [])[n].target)
    ensures Apply(fs, Plan(node, [])[n]).Some?
    ensures OwnLinks(Apply(fs, Plan(node, [])[n]).value, Plan(node, []), n + 1)
  {
    var op := Plan(node, [])[n];
    PlanFits(node, n);
    assert Plan(node, [])[0] == EnsureDir([]);
    if n > 0 {
      var j := PlanParent(node, [], n);
      PlanFits(node, j);
      hide OnDisk, Plan, WellFormed;
      assert InDirectory(fs, op.path);
    }
    hide OnDisk, Plan, WellFormed;
    if op.PutLink? && op.path in fs {
      var i :| 0 <= i < n && Plan(node, [])[i].path == op.path;
      PlanDistinct(node, [], i, n);
    }
    OwnLinksStep(fs, Plan(node, []), n);
  }

  lemma OwnLinksStep(fs: Fs, ops: seq<Op>, n: nat)
    requires n < |ops| && OwnLinks(fs, ops, n) && Apply(fs, ops[n]).Some?
    ensures OwnLinks(Apply(fs, ops[n]).value, ops, n + 1)
  {
    var after := Apply(fs, ops[n]).value;
    forall q | q in after && after[q].Link?
      ensures exists i :: 0 <= i < n + 1 && ops[i].path == q
    {
      if q != ops[n].path {
        assert q in fs && fs[q].Link?;
      }
    }
  }

  lemma {:induction false} PlanRuns(fs: Fs, node: Node, n: nat)
    requires WellFormed(node) && node.Directory? && Writable(node) && n <= |Plan(node, [])|
    requires PartOf(fs, OnDisk(node)) && NoLinks(fs)
    ensures ApplyAll(fs, Plan(node, [])[..n]).Some?
    ensures var after := ApplyAll(fs, Plan(node, [])[..n]).value;
            PartOf(after, OnDisk(node)) && DoneUpTo(after, OnDisk(node), Plan(node, []), n)
                && OwnLinks(after, Plan(node, []), n)
  {
    hide Plan, OnDisk, WellFormed, Writable, Apply, PartOf;
    var ops := Plan(node, []);
    if n > 0 {
      PlanRuns(fs, node, n - 1);
      var before := ApplyAll(fs, ops[..n - 1]).value;
      PlanWritable(node, []);
      NextCallSucceeds(before, node, n - 1);
      PlanFits(node, n - 1);
      ApplyTowards(before, OnDisk(node), ops, n - 1);
      hide DoneUpTo, OwnLinks;
      ApplyAllLast(fs, ops, n);
    }
  }

  lemma ApplyAllLast(fs: Fs, ops: seq<Op>, n: nat)
    requires 0 < n <= |ops|
    ensures ApplyAll(fs, ops[..n]) ==
            if ApplyAll(fs, ops[..n - 1]).Some? then Apply(ApplyAll(fs, ops[..n - 1]).value, ops[n - 1]) else None
  {
    hide Apply;
    assert ops[..n] == ops[..n - 1] + [ops[n - 1]];
    ApplyAllAppend(fs, ops[..n - 1], [ops[n - 1]]);
    if ApplyAll(fs, ops[..n - 1]).Some? {
      var before := ApplyAll(fs, ops[..n - 1]).value;
      assert ApplyAll(before, [ops[n - 1]]) == Apply(before, ops[n - 1]);
    }
  }

  lemma {:induction false} PrefixSucceeds(fs: Fs, ops: seq<Op>, n: nat)
    requires n <= |ops| && ApplyAll(fs, ops).Some?
    ensures ApplyAll(fs, ops[..n]).Some?
  {
    assert ops == ops[..n] + ops[n..];
    ApplyAllAppend(fs, ops[..n], ops[n..]);
  }

  /** A link that is there already, or cannot be written, stops the extraction. */
  lemma BadLinkStops(fs: Fs, ops: seq<Op>, n: nat)
    requires n < |ops| && ops[n].PutLink? && (ops[n].path in fs || !Linkable(ops[n].target))
    ensures ApplyAll(fs, ops).None?
  {
    if ApplyAll(fs, ops).Some? {
      PrefixSucceeds(fs, ops, n);
      PrefixSucceeds(fs, ops, n + 1);
      ApplyAllLast(fs, ops, n + 1);
      if ops[n].path in fs {
        ApplyKeeps(fs, ops[..n], ops[n].path);
      }
      assert false;
    }
  }

  /** Extraction over what an earlier attempt has left succeeds exactly when every link target can be written and no
      link is left over, and then the whole tree is there. */
  lemma ExtractOverLeftover(fs: Fs, node: Node)
    requires WellFormed(node) && node.Directory? && PartOf(fs, OnDisk(node))
    ensures Extract(fs, node, []).ok <==> Writable(node) && NoLinks(fs)
    ensures Extract(fs, node, []).ok ==> Extract(fs, node, []).fs == OnDisk(node)
    ensures ApplyAll(fs, Plan(node, [])) == Result(Extract(fs, node, []))
  {
    hide Extract, WellFormed, Writable, Plan, Apply, OnDisk;
    var ops := Plan(node, []);
    PlanIsExtract(fs, node, []);
    if Writable(node) && NoLinks(fs) {
      PlanRuns(fs, node, |ops|);
      assert ops[..|ops|] == ops;
      AllDoneIsOnDisk(ApplyAll(fs, ops).value, node);
    } else if !NoLinks(fs) {
      var q :| q in fs && fs[q].Link?;
      var i := OnDiskPaths(node, q);
      PlanFits(node, i);
      BadLinkStops(fs, ops, i);
    } else {
      PlanWritable(node, []);
      var i :| 0 <= i < |ops| && ops[i].PutLink? && !Linkable(ops[i].target);
      BadLinkStops(fs, ops, i);
    }
  }

  /** The disk image of a writable directory tree reads back as the tree. */
  lemma OnDiskHolds(node: Node)
    requires WellFormed(node) && node.Directory?
    ensures PartOf(EMPTY_ROOT, OnDisk(node))
    ensures Writable(node) ==> Holds(OnDisk(node), [], node)
    ensures Writable(node) ==> ApplyAll(EMPTY_ROOT, Plan(node, [])) == Some(OnDisk(node))
  {
    hide Extract, WellFormed, Writable, Holds, OnDisk;
    assert Plan(node, [])[0] == EnsureDir([]);
    PlanFits(node, 0);
    hide Plan;
    ExtractOverLeftover(EMPTY_ROOT, node);
    ExtractIntoFresh(EMPTY_ROOT, node.entries, []);
  }

  /** Some link in the tree has this target. */
  ghost predicate LinksTo(node: Node, target: Bytes) {
    match node
    case Regular(_, _) => false
    case Symlink(t) => t == target
    case Directory(entries) => exists i :: 0 <= i < |entries| && LinksTo(entries[i].node, target)
  }

  /** No link in the tree has an empty target or one with a zero byte. */
  ghost predicate TargetsFine(node: Node) {
    forall target :: LinksTo(node, target) ==> target != [] && 0 !in target
  }

  lemma TargetsOfEntries(entries: seq<Entry>)
    ensures TargetsFine(Directory(entries)) <==> forall i :: 0 <= i < |entries| ==> TargetsFine(entries[i].node)
  {
    var node := Directory(entries);
    if TargetsFine(node) {
      forall i | 0 <= i < |entries|
        ensures TargetsFine(entries[i].node)
      {
        assert forall target :: LinksTo(entries[i].node, target) ==> LinksTo(node, target);
      }
    }
    if forall i :: 0 <= i < |entries| ==> TargetsFine(entries[i].node) {
      forall target | LinksTo(node, target)
        ensures target != [] && 0 !in target
      {
        var i :| 0 <= i < |entries| && LinksTo(entries[i].node, target);
        assert TargetsFine(entries[i].node);
      }
    }
  }

  /** A tree can be written exactly when the targets of all its links are fine. */
  lemma {:induction false} WritableExactly(node: Node)
    ensures Writable(node) <==> TargetsFine(node)
    decreases node, 1
  {
    match node
    case Regular(_, _) =>
    case Symlink(_) => assert LinksTo(node, node.target);
    case Directory(entries) =>
      hide TargetsFine;
      TargetsOfEntries(entries);
      WritableEntriesExactly(entries);
  }

  lemma {:induction false} WritableEntriesExactly(entries: seq<Entry>)
    ensures WritableEntries(entries) <==> forall i :: 0 <= i < |entries| ==> TargetsFine(entries[i].node)
    decreases entries, 0
  {
    if entries != [] {
      hide TargetsFine, Writable;
      WritableExactly(entries[0].node);
      WritableEntriesExactly(entries[1..]);
      assert entries == [entries[0]] + entries[1..];
    }
  }
}
