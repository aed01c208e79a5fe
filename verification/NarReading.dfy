/**
 `NarReader` (`nar.rs`): the token reader as it is written, mutating the stream,
 the depth counter, the byte count and the running hash. Every method is proved
 to compute the function of the same name in `Nar`, and `Valid()` ties the hash
 and the count to exactly the bytes consumed.
 */
module NarReading {
  import opened Outcomes
  import opened Base32
  import opened Nar
  import opened StorePaths

  /** The value of a parse, without the remaining stream. */
  function Value<T>(p: Parsed<T>): Outcome<T, Error> {
    match p
    case Ok((v, _)) => Ok(v)
    case Err(e) => Err(e)
    case Panic => Panic
  }

  class NarReader {
    var inner: Bytes
    var depth: nat
    var maxDepth: nat
    var bytesRead: nat
    /** The running SHA-256 state, as the bytes it has absorbed. */
    var hasher: Bytes
    ghost const source: Bytes

    ghost predicate Valid()
      reads this
    {
      && hasher + inner == source
      && bytesRead == |hasher|
      && depth <= maxDepth < U16
    }

    constructor (stream: Bytes)
      ensures Valid() && inner == source == stream && depth == 0 && maxDepth == DEFAULT_MAX_DEPTH
    {
      inner := stream;
      depth := 0;
      maxDepth := DEFAULT_MAX_DEPTH;
      bytesRead := 0;
      hasher := [];
      source := stream;
    }

    method WithMaxDepth(limit: nat)
      requires Valid() && depth == 0 && limit < U16
      modifies this`maxDepth
      ensures Valid() && maxDepth == limit
    {
      maxDepth := limit;
    }

    method ReadExact(n: nat) returns (r: Outcome<Bytes, Error>)
      requires Valid()
      modifies this`inner, this`hasher, this`bytesRead
      ensures r == Value(Nar.ReadExact(old(inner), n))
      ensures r.Ok? ==> Valid() && Nar.ReadExact(old(inner), n) == Ok((r.value, inner))
    {
      if |inner| < n {
        return Err(NarParse(UnexpectedEof));
      }
      var buf := inner[..n];
      inner := inner[n..];
      hasher := hasher + buf;
      bytesRead := bytesRead + |buf|;
      r := Ok(buf);
    }

    method ReadU64() returns (r: Outcome<nat, Error>)
      requires Valid()
      modifies this`inner, this`hasher, this`bytesRead
      ensures r.Ok? <==> |old(inner)| >= 8
      ensures r.Ok? ==> Valid() && r.value == BytesValue(old(inner)[..8]) && inner == old(inner)[8..]
      ensures !r.Ok? ==> r == Err(NarParse(UnexpectedEof))
    {
      var buf :- ReadExact(8);
      r := Ok(BytesValue(buf));
    }

    method ReadBytes() returns (r: Outcome<Bytes, Error>)
      requires Valid()
      modifies this`inner, this`hasher, this`bytesRead
      ensures r == Value(Nar.ReadBytes(old(inner)))
      ensures r.Ok? ==> Valid() && Nar.ReadBytes(old(inner)) == Ok((r.value, inner))
    {
      hide BytesValue;
      var len :- ReadU64();
      if len > MAX_STRING {
        return Err(NarParse(StringTooLarge));
      }
      var data :- ReadExact(len);
      var padLen := (8 - len % 8) % 8;
      if padLen > 0 {
        var pad :- ReadExact(padLen);
        if exists i :: 0 <= i < |pad| && pad[i] != 0 {
          return Err(NarParse(NonZeroPadding));
        }
      }
      r := Ok(data);
    }

    method ReadStr() returns (r: Outcome<Bytes, Error>)
      requires Valid()
      modifies this`inner, this`hasher, this`bytesRead
      ensures r == Value(Nar.ReadStr(old(inner)))
      ensures r.Ok? ==> Valid() && Nar.ReadStr(old(inner)) == Ok((r.value, inner))
    {
      hide Nar.ReadBytes, Utf8;
      var bytes :- ReadBytes();
      if Utf8(bytes) {
        r := Ok(bytes);
      } else {
        r := Err(NarParse(InvalidUtf8));
      }
    }

    method ExpectStr(token: Token) returns (r: Outcome<(), Error>)
      requires Valid()
      modifies this`inner, this`hasher, this`bytesRead
      ensures r.Ok? <==> Nar.ExpectStr(old(inner), token).Ok?
      ensures r.Ok? ==> Valid() && Nar.ExpectStr(old(inner), token) == Ok(inner)
      ensures !r.Ok? ==> r.Err? && Nar.ExpectStr(old(inner), token) == Err(r.error)
    {
      hide Nar.ReadStr, Word;
      var s :- ReadStr();
      if s != Word(token) {
        return Err(NarParse(UnexpectedToken));
      }
      r := Ok(());
    }

    method ParseRegular() returns (r: Outcome<Node, Error>)
      requires Valid()
      modifies this`inner, this`hasher, this`bytesRead
      ensures r == Value(Nar.ParseRegular(old(inner)))
      ensures r.Ok? ==> Valid() && Nar.ParseRegular(old(inner)) == Ok((r.value, inner))
    {
      hide Nar.ReadStr, Nar.ReadBytes, Nar.ExpectStr, Word;
      WordsDistinct();
      var next :- ReadStr();
      if next == Word(Executable) {
        var _ :- ExpectStr(Empty);
        var _ :- ExpectStr(Contents);
        var contents :- ReadBytes();
        r := Ok(Regular(true, contents));
      } else if next == Word(Contents) {
        var contents :- ReadBytes();
        r := Ok(Regular(false, contents));
      } else {
        r := Err(NarParse(UnexpectedToken));
      }
    }

    method ParseSymlink() returns (r: Outcome<Node, Error>)
      requires Valid()
      modifies this`inner, this`hasher, this`bytesRead
      ensures r == Value(Nar.ParseSymlink(old(inner)))
      ensures r.Ok? ==> Valid() && Nar.ParseSymlink(old(inner)) == Ok((r.value, inner))
    {
      hide Nar.ReadStr, Nar.ExpectStr, Word;
      var _ :- ExpectStr(Target);
      var target :- ReadStr();
      r := Ok(Symlink(target));
    }

    /** The loop pushes entries until it reads the closing token, which it consumes. */
    method ParseDirectory() returns (r: Outcome<Node, Error>)
      requires Valid()
      modifies this
      ensures maxDepth == old(maxDepth)
      ensures r == Value(Nar.ParseDirectory(old(inner), old(depth), old(maxDepth)))
      ensures r.Ok? ==> Valid() && depth == old(depth)
      ensures r.Ok? ==> Nar.ParseDirectory(old(inner), old(depth), old(maxDepth)) == Ok((r.value, inner))
      decreases |inner|, 2
    {
      hide Nar.ReadStr, Word, ParseEntry, ParseEntries;
      ghost var start := inner;
      depth := (depth + 1) % U16;
      if depth > maxDepth {
        return Err(NarParse(DepthExceeded));
      }
      var entries: seq<Entry> := [];
      var lastName: Option<Bytes> := None;
      PrependNothing(start, depth, maxDepth);
      while true
        invariant Valid() && maxDepth == old(maxDepth) && depth == (old(depth) + 1) % U16
        invariant |inner| <= |start|
        invariant ParseEntries(start, None, depth, maxDepth)
                  == Prepend(entries, ParseEntries(inner, lastName, depth, maxDepth))
        decreases |inner|
      {
        EntriesUnfold(inner, lastName, depth, maxDepth);
        var next :- ReadStr();
        if next == Word(Close) {
          depth := (depth + U16 - 1) % U16;
          assert entries + [] == entries;
          return Ok(Directory(entries));
        }
        if next != Word(EntryKey) {
          return Err(NarParse(UnexpectedToken));
        }
        var entry :- ParseEntryBody(lastName);
        lastName := Some(entry.name);
        PrependOne(entries, entry, ParseEntries(inner, lastName, depth, maxDepth));
        entries := entries + [entry];
      }
    }

    /** The part of the directory loop that follows an `entry` token. */
    method ParseEntryBody(lastName: Option<Bytes>) returns (r: Outcome<Entry, Error>)
      requires Valid()
      modifies this
      ensures maxDepth == old(maxDepth)
      ensures r == Value(ParseEntry(old(inner), lastName, old(depth), old(maxDepth)))
      ensures r.Ok? ==> Valid() && depth == old(depth)
      ensures r.Ok? ==> ParseEntry(old(inner), lastName, old(depth), old(maxDepth)) == Ok((r.value, inner))
      decreases |inner|, 1
    {
      hide Nar.ReadStr, Nar.ExpectStr, Word, Nar.ParseNodeInner, NameFault, LessOrEqual;
      var _ :- ExpectStr(Open);
      var _ :- ExpectStr(NameKey);
      var name :- ReadStr();
      if NameFault(name).Some? {
        return Err(NarParse(NameFault(name).value));
      }
      if lastName.Some? && LessOrEqual(name, lastName.value) {
        return Err(NarParse(NotSorted));
      }
      var _ :- ExpectStr(NodeKey);
      var node :- ParseNodeInner();
      var _ :- ExpectStr(Close);
      r := Ok(Entry(name, node));
    }

    method ParseNodeInner() returns (r: Outcome<Node, Error>)
      requires Valid()
      modifies this
      ensures maxDepth == old(maxDepth)
      ensures r == Value(Nar.ParseNodeInner(old(inner), old(depth), old(maxDepth)))
      ensures r.Ok? ==> Valid() && depth == old(depth)
      ensures r.Ok? ==> Nar.ParseNodeInner(old(inner), old(depth), old(maxDepth)) == Ok((r.value, inner))
      decreases |inner|, 0
    {
      hide Nar.ReadStr, Nar.ExpectStr, Word, Nar.ParseRegular, Nar.ParseSymlink, Nar.ParseDirectory;
      WordsDistinct();
      var _ :- ExpectStr(Open);
      var _ :- ExpectStr(Type);
      var kind :- ReadStr();
      var node: Node;
      if kind == Word(RegularKind) {
        node :- ParseRegular();
        var _ :- ExpectStr(Close);
      } else if kind == Word(SymlinkKind) {
        node :- ParseSymlink();
        var _ :- ExpectStr(Close);
      } else if kind == Word(DirectoryKind) {
        node :- ParseDirectory();
      } else {
        return Err(NarParse(UnknownNodeType));
      }
      r := Ok(node);
    }

    method ParseNode() returns (r: Outcome<Node, Error>)
      requires Valid()
      modifies this
      ensures maxDepth == old(maxDepth)
      ensures r == Value(Nar.ParseNode(old(inner), old(depth), old(maxDepth)))
      ensures r.Ok? ==> Valid() && depth == old(depth)
      ensures r.Ok? ==> Nar.ParseNode(old(inner), old(depth), old(maxDepth)) == Ok((r.value, inner))
    {
      hide Nar.ReadStr, Nar.ExpectStr, Word, Nar.ParseRegular, Nar.ParseSymlink, Nar.ParseDirectory;
      WordsDistinct();
      var _ :- ExpectStr(Open);
      var _ :- ExpectStr(Type);
      var kind :- ReadStr();
      var node: Node;
      if kind == Word(RegularKind) {
        node :- ParseRegular();
      } else if kind == Word(SymlinkKind) {
        node :- ParseSymlink();
      } else if kind == Word(DirectoryKind) {
        node :- ParseDirectory();
      } else {
        return Err(NarParse(UnknownNodeType));
      }
      var _ :- ExpectStr(Close);
      r := Ok(node);
    }

    /** The whole archive, hashed as it is read; bytes after the root are neither read nor hashed. */
    method Parse(sha: Bytes -> Bytes) returns (r: Outcome<(Node, NixHash), Error>)
      requires Valid() && depth == 0 && hasher == []
      modifies this
      ensures r == ParseHashed(old(inner), old(maxDepth), sha)
      ensures r.Ok? ==> Valid() && depth == 0
      ensures r.Ok? ==> WellFormed(r.value.0) && hasher == ArchiveOf(r.value.0) && bytesRead == |ArchiveOf(r.value.0)|
    {
      hide Nar.ParseNode, Nar.ExpectStr, ArchiveOf, WellFormed, Nesting;
      var _ :- ExpectStr(Magic);
      var node :- ParseNode();
      ParseArchiveExact(old(inner), node, inner, old(maxDepth));
      assert hasher == ArchiveOf(node) by {
        assert hasher + inner == ArchiveOf(node) + inner;
        CancelSuffix(hasher, ArchiveOf(node), inner);
      }
      assert old(inner)[..|old(inner)| - |inner|] == hasher;
      r := Ok((node, NixHash(Sha256, sha(hasher))));
    }
  }

  /** What `parse` returns: the tree, and the digest of the bytes the parser consumed. */
  function ParseHashed(b: Bytes, maxDepth: nat, sha: Bytes -> Bytes): Outcome<(Node, NixHash), Error>
    requires maxDepth < U16
  {
    var (node, rest) :- ParseArchive(b, maxDepth);
    Ok((node, NixHash(Sha256, sha(if |rest| <= |b| then b[..|b| - |rest|] else b))))
  }

  /** The digest covers the archive and nothing after it. */
  lemma DigestCoversArchive(node: Node, rest: Bytes, maxDepth: nat, sha: Bytes -> Bytes)
    requires maxDepth < U16 && WellFormed(node) && WithinDepth(Nesting(node), 0, maxDepth)
    ensures ParseHashed(ArchiveOf(node) + rest, maxDepth, sha) == Ok((node, NixHash(Sha256, sha(ArchiveOf(node)))))
  {
    hide ParseArchive, ArchiveOf, WellFormed, Nesting;
    var b := ArchiveOf(node) + rest;
    ParseArchiveExact(b, node, rest, maxDepth);
    assert b[..|b| - |rest|] == ArchiveOf(node);
  }

  lemma CancelSuffix(a: Bytes, b: Bytes, c: Bytes)
    requires a + c == b + c
    ensures a == b
  {
    assert |a| == |b|;
    assert (a + c)[..|a|] == a && (b + c)[..|b|] == b;
  }

  function Prepend(entries: seq<Entry>, p: Parsed<seq<Entry>>): Parsed<seq<Entry>> {
    match p
    case Ok((more, rest)) => Ok((entries + more, rest))
    case Err(e) => Err(e)
    case Panic => Panic
  }

  lemma PrependNothing(b: Bytes, depth: nat, maxDepth: nat)
    requires depth <= maxDepth < U16
    ensures ParseEntries(b, None, depth, maxDepth) == Prepend([], ParseEntries(b, None, depth, maxDepth))
  {
    hide ParseEntries;
    var p := ParseEntries(b, None, depth, maxDepth);
    if p.Ok? {
      assert [] + p.value.0 == p.value.0;
    }
  }

  lemma PrependOne(entries: seq<Entry>, entry: Entry, p: Parsed<seq<Entry>>)
    ensures Prepend(entries, Prepend([entry], p)) == Prepend(entries + [entry], p)
  {
    if p.Ok? {
      assert entries + ([entry] + p.value.0) == entries + [entry] + p.value.0;
    }
  }

  /** `ParseEntries` after its next token is `next` and the stream is at `b1`. */
  function AfterToken(next: Bytes, b1: Bytes, last: Option<Bytes>, depth: nat, maxDepth: nat): Parsed<seq<Entry>>
    requires depth <= maxDepth < U16
  {
    if next == Word(Close) then Ok(([], b1))
    else if next != Word(EntryKey) then Err(NarParse(UnexpectedToken))
    else
      var p := ParseEntry(b1, last, depth, maxDepth);
      if p.Ok? then Prepend([p.value.0], ParseEntries(p.value.1, Some(p.value.0.name), depth, maxDepth))
      else p.PropagateFailure()
  }

  lemma EntriesUnfold(b: Bytes, last: Option<Bytes>, depth: nat, maxDepth: nat)
    requires depth <= maxDepth < U16
    ensures Nar.ReadStr(b).Ok? ==>
              ParseEntries(b, last, depth, maxDepth)
              == AfterToken(Nar.ReadStr(b).value.0, Nar.ReadStr(b).value.1, last, depth, maxDepth)
    ensures !Nar.ReadStr(b).Ok? ==> ParseEntries(b, last, depth, maxDepth) == Nar.ReadStr(b).PropagateFailure()
  {
    hide Nar.ReadStr, Word, ParseEntry;
  }
}
