/**
 Paths as the code builds them and the kernel reads them: a directory, and a name
 joined to it, over characters or over bytes.
 */
module Paths {
  import opened Sequences

  /** The two characters that mean something in a path. */
  datatype Alphabet<T> = Alphabet(slash: T, dot: T)

  /** A part that names something in the directory it is read in. */
  predicate Naming<T(==)>(part: seq<T>, alphabet: Alphabet<T>) {
    part != [] && part != [alphabet.dot] && part != [alphabet.dot, alphabet.dot]
  }

  /** Reading the parts of a path one by one, where every directory on the way exists: `..` climbs. */
  function Resolve<T(==)>(path: seq<seq<T>>, parts: seq<seq<T>>, alphabet: Alphabet<T>): seq<seq<T>>
    decreases |parts|
  {
    if parts == [] then path
    else if Naming(parts[0], alphabet) then Resolve(path + [parts[0]], parts[1..], alphabet)
    else if parts[0] == [alphabet.dot, alphabet.dot] then
      Resolve(if path == [] then [] else path[..|path| - 1], parts[1..], alphabet)
    else Resolve(path, parts[1..], alphabet)
  }

  /** `Path::join` and the kernel's reading of the result: an absolute name replaces the directory. */
  function JoinPath<T(==)>(dir: seq<seq<T>>, name: seq<T>, alphabet: Alphabet<T>): seq<seq<T>> {
    Resolve(if name != [] && name[0] == alphabet.slash then [] else dir, Split(name, alphabet.slash), alphabet)
  }

  /** A name that is one part and names something. */
  predicate PlainName<T(==)>(name: seq<T>, alphabet: Alphabet<T>) { alphabet.slash !in name && Naming(name, alphabet) }

  lemma {:induction false} ResolvedParts<T>(path: seq<seq<T>>, parts: seq<seq<T>>, alphabet: Alphabet<T>, i: nat)
    requires i < |Resolve(path, parts, alphabet)|
    ensures var part := Resolve(path, parts, alphabet)[i];
            (i < |path| && part == path[i]) || (part in parts && Naming(part, alphabet))
    decreases |parts|
  {
    if parts != [] {
      var next := if Naming(parts[0], alphabet) then path + [parts[0]]
                  else if parts[0] == [alphabet.dot, alphabet.dot] then (if path == [] then [] else path[..|path| - 1])
                  else path;
      ResolvedParts(next, parts[1..], alphabet, i);
    }
  }

  /** A joined name is an entry of the directory under that name exactly when it is plain. */
  lemma JoinIsEntryExactly<T>(dir: seq<seq<T>>, name: seq<T>, alphabet: Alphabet<T>)
    ensures JoinPath(dir, name, alphabet) == dir + [name] <==> PlainName(name, alphabet)
  {
    var parts := Split(name, alphabet.slash);
    if PlainName(name, alphabet) {
      SplitPlain(name, alphabet.slash, []);
      assert Resolve(dir, [name], alphabet) == Resolve(dir + [name], [name][1..], alphabet);
    } else if JoinPath(dir, name, alphabet) == dir + [name] {
      var start := if name != [] && name[0] == alphabet.slash then [] else dir;
      assert (dir + [name])[|dir|] == name;
      ResolvedParts(start, parts, alphabet, |dir|);
      var i :| 0 <= i < |parts| && parts[i] == name;
      PartsHaveNoSeparator(name, alphabet.slash, i);
    }
  }

  /** Climbing out of a first part and down again leads to the last part alone. */
  lemma DetourResolves<T>(dir: seq<seq<T>>, a: seq<T>, b: seq<T>, alphabet: Alphabet<T>)
    requires PlainName(a, alphabet) && PlainName(b, alphabet) && alphabet.slash != alphabet.dot
    ensures var up := [alphabet.slash, alphabet.dot, alphabet.dot, alphabet.slash];
            JoinPath(dir, a + up + b, alphabet) == dir + [b]
  {
    var slash, dots := alphabet.slash, [alphabet.dot, alphabet.dot];
    var name := a + [slash, alphabet.dot, alphabet.dot, slash] + b;
    assert name == a + [slash] + (dots + [slash] + b);
    SplitPlain(a, slash, dots + [slash] + b);
    SplitPlain(dots, slash, b);
    SplitPlain(b, slash, []);
    var parts := [a, dots, b];
    assert Split(name, slash) == [a] + ([dots] + [b]) == parts;
    assert parts[1..] == [dots, b] && [dots, b][1..] == [b] && [b][1..] == [];
    assert (dir + [a])[..|dir|] == dir;
    assert Resolve(dir, parts, alphabet) == Resolve(dir + [a], [dots, b], alphabet)
        == Resolve(dir, [b], alphabet) == Resolve(dir + [b], [], alphabet);
    assert name[0] == a[0] != slash;
  }

  lemma {:induction false} ResolveAppend<T>(path: seq<seq<T>>, a: seq<seq<T>>, b: seq<seq<T>>, alphabet: Alphabet<T>)
    ensures Resolve(path, a + b, alphabet) == Resolve(Resolve(path, a, alphabet), b, alphabet)
    decreases |a|
  {
    if a == [] {
      assert a + b == b;
    } else {
      assert (a + b)[0] == a[0] && (a + b)[1..] == a[1..] + b;
      var next := if Naming(a[0], alphabet) then path + [a[0]]
                  else if a[0] == [alphabet.dot, alphabet.dot] then (if path == [] then [] else path[..|path| - 1])
                  else path;
      ResolveAppend(next, a[1..], b, alphabet);
    }
  }

  lemma {:induction false} SplitAppend<T>(a: seq<T>, c: T, b: seq<T>)
    ensures Split(a + [c] + b, c) == Split(a, c) + Split(b, c)
  {
    var s := a + [c] + b;
    if a == [] {
      assert s == [c] + b;
    } else {
      assert s[1..] == a[1..] + [c] + b;
      SplitAppend(a[1..], c, b);
    }
  }

  /** A name without a slash is one step: up for two dots, nothing for one or none, and down otherwise. */
  lemma JoinOne<T>(dir: seq<seq<T>>, name: seq<T>, alphabet: Alphabet<T>)
    requires alphabet.slash !in name
    ensures JoinPath(dir, name, alphabet) ==
            if name == [alphabet.dot, alphabet.dot] then (if dir == [] then [] else dir[..|dir| - 1])
            else if name == [] || name == [alphabet.dot] then dir
            else dir + [name]
  {
    SplitPlain(name, alphabet.slash, []);
    var next := if name == [alphabet.dot, alphabet.dot] then (if dir == [] then [] else dir[..|dir| - 1])
                else if name == [] || name == [alphabet.dot] then dir
                else dir + [name];
    assert [name][1..] == [];
    assert Resolve(dir, [name], alphabet) == Resolve(next, [name][1..], alphabet);
  }

  /** A path is read from the root if it starts with a slash, and the parts before a slash before those after it. */
  lemma JoinSteps<T>(dir: seq<seq<T>>, a: seq<T>, b: seq<T>, alphabet: Alphabet<T>)
    ensures JoinPath(dir, [alphabet.slash] + b, alphabet) == Resolve([], Split(b, alphabet.slash), alphabet)
    ensures a != [] && (b != [] ==> b[0] != alphabet.slash) ==>
              JoinPath(dir, a + [alphabet.slash] + b, alphabet) == JoinPath(JoinPath(dir, a, alphabet), b, alphabet)
  {
    var slash := alphabet.slash;
    var none: seq<T> := [];
    SplitAppend(none, slash, b);
    assert none + [slash] + b == [slash] + b;
    assert [none][1..] == [];
    ResolveAppend([], [none], Split(b, slash), alphabet);
    assert Resolve([], [none], alphabet) == Resolve([], [], alphabet);
    if a != [] {
      SplitAppend(a, slash, b);
      ResolveAppend(if a[0] == slash then [] else dir, Split(a, slash), Split(b, slash), alphabet);
    }
  }

  /** The first parts of a path are the parts of the text before one of its slashes. */
  lemma {:induction false} PartsBefore<T>(s: seq<T>, c: T, i: nat) returns (k: nat)
    requires 0 < i < |Split(s, c)|
    ensures k < |s| && s[k] == c && Split(s[..k], c) == Split(s, c)[..i]
  {
    var more := Split(s[1..], c);
    if s[0] == c {
      if i == 1 {
        return 0;
      }
      k := PartsBefore(s[1..], c, i - 1);
    } else {
      k := PartsBefore(s[1..], c, i);
    }
    assert s[1..][..k] == s[..k + 1][1..] && s[..k + 1][0] == s[0];
    k := k + 1;
  }
}
