/**
 Filling the node-local cache (`cache.rs`), one task at a time: fetch, verify,
 parse, extract under a temporary name, rename. `CacheProtocol` interleaves these
 steps between tasks and crashes.
 */
module Fetching {
  import opened Outcomes
  import opened Sequences
  import opened Paths
  import opened Text
  import opened Base32
  import opened StorePaths
  import opened NarInfos
  import opened Nar
  import opened NarReading
  import opened Extraction

  /** The binary cache and the library code around it: HTTP, decompression and SHA-256. */
  datatype Remote = Remote(
    narinfo: string -> Outcome<NarInfo, Error>,
    nar: NarInfo -> Outcome<Bytes, Error>,
    inflate: (Compression, Bytes) -> Outcome<Bytes, Error>,
    sha: Bytes -> Bytes)

  function Decompress(remote: Remote, ni: NarInfo, data: Bytes): Outcome<Bytes, Error> {
    match ni.compression
    case Uncompressed => Ok(data)
    case Zstd => remote.inflate(Zstd, data)
    case Xz => remote.inflate(Xz, data)
    case Bzip2 => remote.inflate(Bzip2, data)
    case Br => Err(Cache)
    case Lzip => Err(Cache)
    case Lz4 => Err(Cache)
  }

  /** The downloaded archive and the hash it must have, once the compressed file's own hash has been checked. */
  function Payload(remote: Remote, basename: string): Outcome<(Bytes, NixHash), Error> {
    var sp :- ParseBasename(basename);
    var ni :- remote.narinfo(HashString(sp));
    var data :- remote.nar(ni);
    if NixHash(Sha256, remote.sha(data)) != ni.fileHash then Err(HashMismatch)
    else
      var bytes :- Decompress(remote, ni, data);
      Ok((bytes, ni.narHash))
  }

  /** The tree in an archive whose digest is as promised. */
  function CheckedTree(remote: Remote, bytes: Bytes, narHash: NixHash): Outcome<Node, Error> {
    var (node, hash) :- ParseHashed(bytes, DEFAULT_MAX_DEPTH, remote.sha);
    if hash == narHash then Ok(node) else Err(HashMismatch)
  }

  /** The tree that a name stands for, when the remote has it and every check passes. */
  function Verified(remote: Remote, basename: string): Outcome<Node, Error> {
    var (bytes, narHash) :- Payload(remote, basename);
    CheckedTree(remote, bytes, narHash)
  }

  /** The narinfo of a name, the file it promises with the right hash, and the archive in that file. */
  ghost predicate Downloads(remote: Remote, name: string, ni: NarInfo, data: Bytes, bytes: Bytes) {
    && ParseBasename(name).Ok? && |name| >= 32 && remote.narinfo(name[..32]) == Ok(ni)
    && remote.nar(ni) == Ok(data) && ni.fileHash == NixHash(Sha256, remote.sha(data))
    && match ni.compression
       case Uncompressed => bytes == data
       case Xz => remote.inflate(Xz, data) == Ok(bytes)
       case Zstd => remote.inflate(Zstd, data) == Ok(bytes)
       case Bzip2 => remote.inflate(Bzip2, data) == Ok(bytes)
       case Br => false
       case Lzip => false
       case Lz4 => false
  }

  /** The archive at the front of `bytes` is that of a tree the format allows, and has the hash that the narinfo
      promises for it. */
  ghost predicate Contains(remote: Remote, ni: NarInfo, bytes: Bytes, node: Node) {
    && WellFormed(node) && WithinDepth(Nesting(node), 0, 256) && ArchiveOf(node) <= bytes
    && ni.narHash == NixHash(Sha256, remote.sha(ArchiveOf(node)))
  }

  /** The hash digits of a name are its first 32 characters. */
  lemma HashDigits(name: string)
    requires ParseBasename(name).Ok?
    ensures |name| >= 34 && HashString(ParseBasename(name).value) == name[..32]
  {
    hide ParseBasename, Encode, Decode, DigitValue;
    ParseBasenameOutcome(name);
    DecodeOutcome(name[..32]);
    HashCodingIsBijective(name[..32], ParseBasename(name).value.hash);
  }

  lemma PayloadExactly(remote: Remote, name: string, bytes: Bytes, narHash: NixHash)
    ensures Payload(remote, name) == Ok((bytes, narHash)) <==>
            exists ni, data :: Downloads(remote, name, ni, data, bytes) && ni.narHash == narHash
  {
    hide ParseBasename, HashString;
    if ParseBasename(name).Ok? {
      HashDigits(name);
      var found := remote.narinfo(name[..32]);
      if found.Ok? && remote.nar(found.value).Ok? {
        var ni, data := found.value, remote.nar(found.value).value;
        assert Payload(remote, name) == Ok((bytes, narHash)) <==>
          Downloads(remote, name, ni, data, bytes) && ni.narHash == narHash;
      }
    }
  }

  lemma CheckedTreeExactly(remote: Remote, bytes: Bytes, narHash: NixHash, node: Node)
    ensures CheckedTree(remote, bytes, narHash) == Ok(node) <==>
            && WellFormed(node) && WithinDepth(Nesting(node), 0, 256) && ArchiveOf(node) <= bytes
            && narHash == NixHash(Sha256, remote.sha(ArchiveOf(node)))
  {
    hide ParseArchive, ArchiveOf, WellFormed, Nesting, ParseHashed;
    if CheckedTree(remote, bytes, narHash) == Ok(node) {
      HashedTree(remote, bytes);
      CheckedTreeWellFormed(remote, bytes, narHash);
    }
    if WellFormed(node) && WithinDepth(Nesting(node), 0, 256) && ArchiveOf(node) <= bytes {
      var rest := bytes[|ArchiveOf(node)|..];
      assert bytes == ArchiveOf(node) + rest;
      DigestCoversArchive(node, rest, DEFAULT_MAX_DEPTH, remote.sha);
    }
  }

  lemma HashedTree(remote: Remote, bytes: Bytes)
    requires ParseHashed(bytes, DEFAULT_MAX_DEPTH, remote.sha).Ok?
    ensures WithinDepth(Nesting(ParseHashed(bytes, DEFAULT_MAX_DEPTH, remote.sha).value.0), 0, 256)
  {
    hide ParseArchive, ArchiveOf, WellFormed, Nesting;
    var (node, rest) := ParseArchive(bytes, DEFAULT_MAX_DEPTH).value;
    ParseArchiveExact(bytes, node, rest, DEFAULT_MAX_DEPTH);
  }

  /** What passes every check, in terms of the answers of the remote alone: the narinfo of the name's hash digits, the
      file with the file hash, the archive in it, and the archive hash over the archive of the tree. */
  lemma VerifiedExactly(remote: Remote, name: string, node: Node)
    ensures Verified(remote, name) == Ok(node) <==>
            exists ni, data, bytes :: Downloads(remote, name, ni, data, bytes) && Contains(remote, ni, bytes, node)
  {
    hide Payload, CheckedTree, Downloads, WellFormed, Nesting, ArchiveOf;
    if Verified(remote, name) == Ok(node) {
      var (bytes, narHash) := Payload(remote, name).value;
      PayloadExactly(remote, name, bytes, narHash);
      CheckedTreeExactly(remote, bytes, narHash, node);
      var ni, data :| Downloads(remote, name, ni, data, bytes) && ni.narHash == narHash;
      assert Contains(remote, ni, bytes, node);
    }
    forall ni, data, bytes | Downloads(remote, name, ni, data, bytes) && Contains(remote, ni, bytes, node)
      ensures Verified(remote, name) == Ok(node)
    {
      PayloadExactly(remote, name, bytes, ni.narHash);
      CheckedTreeExactly(remote, bytes, ni.narHash, node);
    }
  }

  //////////////////////////////////////////////////////////////////////////////
  // Names in the cache directory
  //////////////////////////////////////////////////////////////////////////////

  const TMP_PREFIX: string := ".tmp-"

  predicate IsTmp(name: string) { TMP_PREFIX <= name }

  function TmpName(basename: string, pid: nat): string { TMP_PREFIX + basename + "-" + Decimal(pid) }

  /** Process ids are digits only, so a temporary name determines its basename and its process. */
  lemma TmpNameInjective(a: string, p: nat, b: string, q: nat)
    requires TmpName(a, p) == TmpName(b, q)
    ensures a == b && p == q
  {
    DecimalMeaning(p);
    DecimalMeaning(q);
    hide Decimal, DigitsValue;
    var x, y := Decimal(p), Decimal(q);
    var s := TmpName(a, p);
    var i, j := |s| - |x| - 1, |s| - |y| - 1;
    assert s[i] == '-' && s[j] == '-';
    assert forall k :: i < k < |s| ==> s[k] == x[k - i - 1];
    assert forall k :: j < k < |s| ==> s[k] == y[k - j - 1];
    assert i == j;
    assert s[|s| - |x|..] == x && s[|s| - |y|..] == y;
    assert s[5..i] == a && s[5..j] == b;
  }

  lemma TmpNameShape(basename: string, pid: nat)
    ensures IsTmp(TmpName(basename, pid)) && TmpName(basename, pid) != basename
  {
    assert TmpName(basename, pid)[..5] == TMP_PREFIX;
    assert |TmpName(basename, pid)| > |basename|;
  }

  /** A full stop is not a base-32 digit, so no store-path basename looks like a temporary name. */
  lemma BasenameIsNotTmp(basename: string)
    requires ParseBasename(basename).Ok?
    ensures !IsTmp(basename)
  {
    ParseBasenameOutcome(basename);
    hide ParseBasename, Decode;
    assert basename[..32][0] == basename[0];
    assert DigitValue(basename[0]).Some?;
    ValueOfDigit(basename[0]);
    AlphabetBelow(DigitValue(basename[0]).value as nat);
    assert basename[0] != '.';
    assert TMP_PREFIX[0] == '.';
  }

  const CHARS: Alphabet<char> := Alphabet('/', '.')

  /** A path, as the parts from the root of the file system. */
  type Place = seq<string>

  /** A name that stands for the entry of that name in the cache directory, and for nothing else. */
  predicate Local(name: string) { PlainName(name, CHARS) }

  predicate Final(name: string) { Local(name) && !IsTmp(name) }

  /** A name that leads elsewhere is not fetched: it does not parse. */
  predicate Addressable(name: string) { ParseBasename(name).Ok? ==> Local(name) }

  /** Store-path names may contain a slash, and that is the only way in which one leads elsewhere. */
  lemma AddressableExactly(name: string)
    requires ParseBasename(name).Ok?
    ensures Local(name) <==> '/' !in name
    ensures forall dir: Place :: JoinPath(dir, name, CHARS) == dir + [name] <==> '/' !in name
  {
    ParseBasenameOutcome(name);
    hide ParseBasename, Decode, JoinPath;
    assert |name| >= 34;
    forall dir: Place
      ensures JoinPath(dir, name, CHARS) == dir + [name] <==> Local(name)
    {
      JoinIsEntryExactly(dir, name, CHARS);
    }
  }

  lemma TmpNameIsLocal(basename: string, pid: nat)
    requires '/' !in basename
    ensures Local(TmpName(basename, pid))
  {
    DecimalMeaning(pid);
    hide Decimal, DigitsValue;
    assert |TmpName(basename, pid)| >= 6;
  }

  //////////////////////////////////////////////////////////////////////////////
  // One fetch
  //////////////////////////////////////////////////////////////////////////////

  /** The cache directory: what is in it, by name. */
  type Entries = map<string, Fs>

  /** All that exists where the code may look, by path, with the tree below it. */
  type Places = map<Place, Fs>

  function Start(dir: Place, name: string): Place { if name != "" && name[0] == '/' then [] else dir }

  /** Every directory on the way exists. */
  predicate Walkable(places: Places, dir: Place, name: string) {
    var parts := Split(name, '/');
    forall i :: 0 < i < |parts| ==> Resolve(Start(dir, name), parts[..i], CHARS) in places
  }

  /** In terms of the text: what stands before each slash leads to something that exists. */
  lemma WalkableExactly(places: Places, dir: Place, name: string)
    ensures Walkable(places, dir, name) <==>
              forall k :: 0 <= k < |name| && name[k] == '/' ==>
                (if k == 0 then [] else JoinPath(dir, name[..k], CHARS)) in places
  {
    var parts := Split(name, '/');
    forall k | 0 <= k < |name| && name[k] == '/'
      ensures exists i :: 0 < i < |parts| && Resolve(Start(dir, name), parts[..i], CHARS)
                == if k == 0 then [] else JoinPath(dir, name[..k], CHARS)
    {
      var front := Split(name[..k], '/');
      SplitAppend(name[..k], '/', name[k + 1..]);
      assert name == name[..k] + ['/'] + name[k + 1..];
      assert parts[..|front|] == front && 0 < |front| < |parts|;
      if k == 0 {
        assert front == [[]] && [""][1..] == [];
        assert Resolve([], front, CHARS) == Resolve([], front[1..], CHARS);
      }
      assert Resolve(Start(dir, name), parts[..|front|], CHARS)
          == if k == 0 then [] else JoinPath(dir, name[..k], CHARS);
    }
    forall i | 0 < i < |parts|
      ensures exists k :: 0 <= k < |name| && name[k] == '/' && Resolve(Start(dir, name), parts[..i], CHARS)
                == if k == 0 then [] else JoinPath(dir, name[..k], CHARS)
    {
      var k := PartsBefore(name, '/', i);
      if k == 0 {
        assert parts[..i] == [""] && [""][1..] == [];
        assert Resolve([], [""], CHARS) == Resolve([], [""][1..], CHARS);
      }
      assert Resolve(Start(dir, name), parts[..i], CHARS) == if k == 0 then [] else JoinPath(dir, name[..k], CHARS);
    }
  }

  /** `exists` of a name joined to the cache directory. */
  predicate Found(places: Places, dir: Place, name: string) {
    Walkable(places, dir, name) && JoinPath(dir, name, CHARS) in places
  }

  /** `create_dir_all`, part by part. */
  function CreateAll(places: Places, dir: Place, parts: seq<string>): (r: Places)
    ensures parts != [] ==> Resolve(dir, parts, CHARS) in r
    ensures forall q :: q in places ==> q in r && r[q] == places[q]
    ensures forall q :: q in r && q !in places ==> r[q] == EMPTY_ROOT
  {
    if parts == [] then places
    else
      var made := CreateAll(places, dir, parts[..|parts| - 1]);
      var q := Resolve(dir, parts, CHARS);
      if q in made then made else made[q := EMPTY_ROOT]
  }

  /** Each part of the path is there afterwards, as an empty directory if it was not there before, and nothing more. */
  lemma {:induction false} CreateAllExactly(places: Places, dir: Place, parts: seq<string>, q: Place)
    ensures q in CreateAll(places, dir, parts) <==>
              q in places || exists i :: 0 < i <= |parts| && q == Resolve(dir, parts[..i], CHARS)
    ensures q in CreateAll(places, dir, parts) ==>
              CreateAll(places, dir, parts)[q] == if q in places then places[q] else map[[] := Dir]
  {
    if parts != [] {
      var front := parts[..|parts| - 1];
      CreateAllExactly(places, dir, front, q);
      assert parts[..|parts|] == parts;
      assert forall i :: 0 < i <= |front| ==> front[..i] == parts[..i];
    }
  }

  predicate CanReplace<K(==)>(entries: map<K, Fs>, name: K) { name !in entries || entries[name] == EMPTY_ROOT }

  function StagingPlace(dir: Place, basename: string, pid: nat): Place { JoinPath(dir, TmpName(basename, pid), CHARS) }

  function Staged(places: Places, dir: Place, basename: string, pid: nat): (r: Places)
    ensures StagingPlace(dir, basename, pid) in r
    ensures forall q :: q in places ==> q in r && r[q] == places[q]
    ensures forall q :: q in r && q !in places ==> r[q] == EMPTY_ROOT
  {
    CreateAll(places, dir, Split(TmpName(basename, pid), '/'))
  }

  /** `fetch_and_extract` when the disk itself does not fail: what exists afterwards and the outcome. */
  function FetchAndExtract(places: Places, dir: Place, basename: string, pid: nat, remote: Remote)
    : (Places, Outcome<(), Error>)
  {
    var payload := Payload(remote, basename);
    if !payload.Ok? then (places, payload.PropagateFailure())
    else
      var tmp, final := StagingPlace(dir, basename, pid), JoinPath(dir, basename, CHARS);
      var made := Staged(places, dir, basename, pid);
      var tree := CheckedTree(remote, payload.value.0, payload.value.1);
      if !tree.Ok? then (made - {tmp}, tree.PropagateFailure())
      else
        var d := Extract(made[tmp], tree.value, []);
        if !d.ok then (made[tmp := d.fs], Err(Io))
        else if !Walkable(made, dir, basename) || !CanReplace(made, final) then (made - {tmp}, Err(Io))
        else ((made - {tmp})[final := d.fs], Ok(()))
  }

  /** A name that can be cached: every check passes, the root is a directory and its links can be written. */
  predicate Cacheable(remote: Remote, basename: string) {
    && Verified(remote, basename).Ok? && Verified(remote, basename).value.Directory?
    && Writable(Verified(remote, basename).value)
  }

  /** What the directory of a name converges to. */
  function Goal(remote: Remote, basename: string): Fs {
    if Verified(remote, basename).Ok? && Verified(remote, basename).value.Directory?
    then OnDisk(Verified(remote, basename).value)
    else EMPTY_ROOT
  }

  /** What an earlier attempt of this process has left under the temporary name. */
  function Leftover<K(==)>(entries: map<K, Fs>, tmp: K): Fs { if tmp in entries then entries[tmp] else EMPTY_ROOT }

  /** A fetch of any name over whatever earlier attempts have left succeeds exactly when the name can be cached, no
      link is left over and the way to its place exists, and then it publishes exactly the tree there. */
  lemma FetchExact(places: Places, dir: Place, basename: string, pid: nat, remote: Remote)
    requires JoinPath(dir, basename, CHARS) !in places
    requires PartOf(Leftover(places, StagingPlace(dir, basename, pid)), Goal(remote, basename))
    ensures var (after, r) := FetchAndExtract(places, dir, basename, pid, remote);
            var tmp, made := StagingPlace(dir, basename, pid), Staged(places, dir, basename, pid);
            && (r.Ok? <==>
                  Cacheable(remote, basename) && NoLinks(Leftover(places, tmp)) && Walkable(made, dir, basename))
            && (r.Ok? ==>
                  after == (made - {tmp})[JoinPath(dir, basename, CHARS) := OnDisk(Verified(remote, basename).value)])
  {
    hide FetchAndExtract, Verified, StagingPlace, Staged, Extract, PartOf, NoLinks, OnDisk, Writable, Leftover, Goal,
        Walkable;
    hide JoinPath;
    FetchUnfolds(places, dir, basename, pid, remote);
    if Verified(remote, basename).Ok? {
      LeftoverExtraction(remote, basename, Leftover(places, StagingPlace(dir, basename, pid)));
    }
  }

  /** What a failed fetch leaves, by how far it came: nothing new without a download; with one, no staging place if the
      archive is refused or cannot be put in its place, and what could be written if the extraction fails. */
  lemma FailedFetchLeaves(places: Places, dir: Place, basename: string, pid: nat, remote: Remote)
    requires JoinPath(dir, basename, CHARS) !in places
    requires !FetchAndExtract(places, dir, basename, pid, remote).1.Ok?
    ensures var (after, r) := FetchAndExtract(places, dir, basename, pid, remote);
            var tmp, made := StagingPlace(dir, basename, pid), Staged(places, dir, basename, pid);
            && ((forall ni, data, bytes :: !Downloads(remote, basename, ni, data, bytes)) ==> after == places)
            && ((exists ni, data, bytes :: Downloads(remote, basename, ni, data, bytes)) ==>
                  if forall node :: Verified(remote, basename) != Ok(node) then after == made - {tmp}
                  else
                    var d := Extract(Leftover(places, tmp), Verified(remote, basename).value, []);
                    if d.ok then r == Err(Io) && after == made - {tmp} && !Walkable(made, dir, basename)
                    else r == Err(Io) && after == made[tmp := d.fs])
  {
    hide Downloads, Extract, Walkable, JoinPath, StagingPlace, Staged, Payload, CheckedTree;
    var tmp, made := StagingPlace(dir, basename, pid), Staged(places, dir, basename, pid);
    assert made[tmp] == Leftover(places, tmp);
    var payload := Payload(remote, basename);
    if payload.Ok? {
      PayloadExactly(remote, basename, payload.value.0, payload.value.1);
    }
    forall ni, data, bytes | Downloads(remote, basename, ni, data, bytes)
      ensures payload == Ok((bytes, ni.narHash))
    {
      PayloadExactly(remote, basename, bytes, ni.narHash);
    }
    if Verified(remote, basename).Ok? {
      assert Verified(remote, basename) == Ok(Verified(remote, basename).value);
    }
  }

  lemma FetchUnfolds(places: Places, dir: Place, basename: string, pid: nat, remote: Remote)
    requires JoinPath(dir, basename, CHARS) !in places
    ensures FetchAndExtract(places, dir, basename, pid, remote).1.Ok? ==> Verified(remote, basename).Ok?
    ensures Verified(remote, basename).Ok? ==>
              var tmp, made := StagingPlace(dir, basename, pid), Staged(places, dir, basename, pid);
              var d := Extract(Leftover(places, tmp), Verified(remote, basename).value, []);
              var (after, r) := FetchAndExtract(places, dir, basename, pid, remote);
              && (r.Ok? <==> d.ok && Walkable(made, dir, basename))
              && (r.Ok? ==> after == (made - {tmp})[JoinPath(dir, basename, CHARS) := d.fs])
  {
    hide Payload, CheckedTree, StagingPlace, Staged, Extract, Walkable, JoinPath;
    var tmp, made := StagingPlace(dir, basename, pid), Staged(places, dir, basename, pid);
    assert made[tmp] == Leftover(places, tmp);
    assert CanReplace(made, JoinPath(dir, basename, CHARS));
    hide Leftover, CanReplace;
  }

  lemma LeftoverExtraction(remote: Remote, basename: string, left: Fs)
    requires Verified(remote, basename).Ok? && PartOf(left, Goal(remote, basename))
    ensures var d := Extract(left, Verified(remote, basename).value, []);
            && (d.ok <==> Cacheable(remote, basename) && NoLinks(left))
            && (d.ok ==> d.fs == OnDisk(Verified(remote, basename).value))
  {
    hide Extract, Writable, OnDisk, WellFormed, NoLinks;
    VerifiedWellFormed(remote, basename);
    var node := Verified(remote, basename).value;
    if node.Directory? {
      ExtractOverLeftover(left, node);
    } else {
      RootMustBeDirectory(left, node, []);
    }
  }

  lemma VerifiedWellFormed(remote: Remote, name: string)
    requires Verified(remote, name).Ok?
    ensures WellFormed(Verified(remote, name).value)
  {
    hide Payload, CheckedTree, WellFormed;
    var (bytes, narHash) := Payload(remote, name).value;
    CheckedTreeWellFormed(remote, bytes, narHash);
  }

  lemma GoalHolds(remote: Remote, name: string)
    ensures [] in Goal(remote, name) && Goal(remote, name)[[]] == Dir
    ensures PartOf(EMPTY_ROOT, Goal(remote, name))
    ensures Cacheable(remote, name) ==> Holds(Goal(remote, name), [], Verified(remote, name).value)
  {
    hide Verified, OnDisk, WellFormed, Writable;
    if Verified(remote, name).Ok? && Verified(remote, name).value.Directory? {
      VerifiedWellFormed(remote, name);
      OnDiskHolds(Verified(remote, name).value);
    }
  }

  lemma CheckedTreeWellFormed(remote: Remote, bytes: Bytes, narHash: NixHash)
    requires CheckedTree(remote, bytes, narHash).Ok?
    ensures var node := CheckedTree(remote, bytes, narHash).value;
            && WellFormed(node)
            && ArchiveOf(node) <= bytes
            && narHash == NixHash(Sha256, remote.sha(ArchiveOf(node)))
  {
    hide ParseArchive, ArchiveOf, WellFormed, Nesting;
    var (node, rest) := ParseArchive(bytes, DEFAULT_MAX_DEPTH).value;
    ParseArchiveExact(bytes, node, rest, DEFAULT_MAX_DEPTH);
    assert bytes == ArchiveOf(node) + rest;
    assert bytes[..|bytes| - |rest|] == ArchiveOf(node);
  }

  /** A canonical archive is never verified as a directory: the parser wants one token more. */
  lemma CanonicalIsNotCacheable(remote: Remote, basename: string, node: Node, ni: NarInfo, data: Bytes)
    requires WellFormed(node)
    requires Downloads(remote, basename, ni, data, Str(Word(Magic)) + Ser(node))
    ensures !Cacheable(remote, basename)
  {
    hide Payload, Ser, Str, Word, WellFormed, ParseArchive, Writable, Nesting, ParseHashed, Downloads;
    PayloadExactly(remote, basename, Str(Word(Magic)) + Ser(node), ni.narHash);
    var (bytes, narHash) := Payload(remote, basename).value;
    if Verified(remote, basename).Ok? && Verified(remote, basename).value.Directory? {
      var other := Verified(remote, basename).value;
      CheckedTreeWellFormed(remote, bytes, narHash);
      var rest := bytes[|ArchiveOf(other)|..];
      assert bytes == ArchiveOf(other) + rest;
      var magic, close := Str(Word(Magic)), Str(Word(Close));
      assert ArchiveOf(other) == magic + Ser(other) + close;
      assert bytes == magic + (Ser(other) + (close + rest));
      assert Ser(node) == bytes[|magic|..] == Ser(other) + (close + rest);
      assert Ser(node) + [] == Ser(node);
      SerializationIsPrefixFree(node, other, [], close + rest);
      TokenIsNotEmpty(Close);
      assert false;
    }
  }

  lemma TokenIsNotEmpty(t: Token)
    ensures |Str(Word(t))| > 0
  {
    hide Word;
  }

  /** No archive in the canonical form is published by a fetch, whatever is left over: a directory is rejected by the
      parser, and a file or link cannot be written over the directory made for it. */
  lemma CanonicalArchiveIsNeverCached(places: Places, dir: Place, basename: string, pid: nat, remote: Remote,
      node: Node, ni: NarInfo, data: Bytes)
    requires JoinPath(dir, basename, CHARS) !in places && WellFormed(node)
    requires PartOf(Leftover(places, StagingPlace(dir, basename, pid)), Goal(remote, basename))
    requires Downloads(remote, basename, ni, data, Str(Word(Magic)) + Ser(node))
    ensures !FetchAndExtract(places, dir, basename, pid, remote).1.Ok?
  {
    hide Downloads, FetchAndExtract, Ser, Str, Word, WellFormed, PartOf, JoinPath, StagingPlace;
    CanonicalIsNotCacheable(remote, basename, node, ni, data);
    FetchExact(places, dir, basename, pid, remote);
  }

  /** A binary cache that answers every request with one archive, uncompressed. */
  function Serving(archive: Bytes, sha: Bytes -> Bytes, ni: NarInfo): Remote {
    var hash := NixHash(Sha256, sha(archive));
    Remote(
      _ => Ok(ni.(compression := Uncompressed, fileHash := hash, narHash := hash)),
      _ => Ok(archive),
      (_, _) => Err(Cache),
      sha)
  }

  /** Every well-formed tree within the depth limit can be served so that it passes every check. */
  lemma AnyTreeCanBeServed(basename: string, node: Node, sha: Bytes -> Bytes, ni: NarInfo)
    requires ParseBasename(basename).Ok? && WellFormed(node) && WithinDepth(Nesting(node), 0, DEFAULT_MAX_DEPTH)
    ensures Verified(Serving(ArchiveOf(node), sha, ni), basename) == Ok(node)
  {
    hide ParseBasename, HashString, ArchiveOf, WellFormed, Nesting, ParseArchive;
    var archive := ArchiveOf(node);
    assert archive == archive + [];
    ParseArchiveExact(archive, node, [], DEFAULT_MAX_DEPTH);
    assert archive[..|archive|] == archive;
  }

  /** The code takes three of the compressions it knows, and not Brotli, which its documentation lists as supported. */
  lemma BrotliIsNeverCached(places: Places, dir: Place, basename: string, pid: nat, remote: Remote)
    requires ParseBasename(basename).Ok? && remote.narinfo(HashString(ParseBasename(basename).value)).Ok?
    requires remote.narinfo(HashString(ParseBasename(basename).value)).value.compression == Br
    ensures FetchAndExtract(places, dir, basename, pid, remote).0 == places
    ensures !FetchAndExtract(places, dir, basename, pid, remote).1.Ok? && !Cacheable(remote, basename)
  {
    hide ParseBasename, HashString, CheckedTree, Extract;
  }

  //////////////////////////////////////////////////////////////////////////////
  // Names that lead elsewhere
  //////////////////////////////////////////////////////////////////////////////

  /** A name that is a detour through one entry to another. */
  function Detour(a: string, b: string): string { a + "/../" + b }

  /** A detour through a store path is a store path with the same hash, and stands for the place of the other entry. */
  lemma DetourParses(a: string, b: string, dir: Place)
    requires ParseBasename(a).Ok? && Local(a) && Local(b)
    ensures var name := Detour(a, b);
            && ParseBasename(name).Ok? && ParseBasename(name).value.hash == ParseBasename(a).value.hash
            && !Addressable(name) && !IsTmp(name)
            && JoinPath(dir, name, CHARS) == dir + [b]
  {
    var name := Detour(a, b);
    ParseBasenameOutcome(a);
    ParseBasenameOutcome(name);
    hide ParseBasename, Decode, JoinPath, AllDigits, ByteLen, CharIndex;
    assert name[..32] == a[..32] && name[32] == a[32];
    BasenameIsNotTmp(name);
    assert name[|a|] == '/';
    assert name == a + ['/', '.', '.', '/'] + b;
    DetourResolves(dir, a, b, CHARS);
  }

  lemma DetourStages(a: string, b: string, dir: Place, pid: nat)
    requires Local(a) && Local(b)
    ensures StagingPlace(dir, Detour(a, b), pid) == dir + [b + "-" + Decimal(pid)]
  {
    hide JoinPath;
    var first, last := TMP_PREFIX + a, b + "-" + Decimal(pid);
    DecimalMeaning(pid);
    hide Decimal, DigitsValue;
    assert |first| > 2 && |last| > 1;
    assert PlainName(first, CHARS);
    assert PlainName(last, CHARS) by { assert last[|b|] == '-'; }
    assert TmpName(Detour(a, b), pid) == first + ['/', '.', '.', '/'] + last;
    DetourResolves(dir, first, last, CHARS);
  }

  lemma SameHashSameTree(remote: Remote, a: string, b: string)
    requires ParseBasename(a).Ok? && ParseBasename(b).Ok? && ParseBasename(a).value.hash == ParseBasename(b).value.hash
    ensures Verified(remote, a) == Verified(remote, b)
  {
    hide ParseBasename, CheckedTree;
  }

  lemma DetourWalks(places: Places, a: string, b: string, dir: Place)
    requires Local(a) && Local(b) && dir in places && dir + [a] in places
    ensures Walkable(places, dir, Detour(a, b))
  {
    var name := Detour(a, b);
    assert name == a + ['/'] + (".." + ['/'] + b);
    SplitPlain(a, '/', ".." + ['/'] + b);
    SplitPlain("..", '/', b);
    SplitPlain(b, '/', "");
    var parts := [a, "..", b];
    assert Split(name, '/') == [a] + ([".."] + [b]) == parts;
    assert parts[..1] == [a] && parts[..2] == [a, ".."] && [a, ".."][1..] == [".."] && [".."][1..] == []
           && [a][1..] == [];
    assert Resolve(dir, [a], CHARS) == Resolve(dir + [a], [], CHARS);
    assert (dir + [a])[..|dir|] == dir;
    assert Resolve(dir, [a, ".."], CHARS) == Resolve(dir + [a], [".."], CHARS) == Resolve(dir, [], CHARS);
  }

  /** With one entry cached and another missing, a fetch of the detour publishes the tree of the first under the name
      of the second, whatever that name is meant to hold. */
  lemma DetourPublishesOtherTree(places: Places, dir: Place, a: string, b: string, pid: nat, remote: Remote)
    requires ParseBasename(a).Ok? && Local(a) && Local(b) && Cacheable(remote, a)
    requires dir in places && dir + [a] in places && dir + [b] !in places && dir + [b + "-" + Decimal(pid)] !in places
    ensures var (after, r) := FetchAndExtract(places, dir, Detour(a, b), pid, remote);
            && r.Ok? && dir + [b] in after && after[dir + [b]] == OnDisk(Verified(remote, a).value)
            && (Cacheable(remote, b) && Verified(remote, b) != Verified(remote, a) ==>
                  after[dir + [b]] != OnDisk(Verified(remote, b).value))
  {
    hide FetchAndExtract, ParseBasename, JoinPath, Writable, OnDisk, Walkable, Local, Decimal, Detour, Staged,
        Verified, PartOf;
    var name := Detour(a, b);
    DetourParses(a, b, dir);
    DetourStages(a, b, dir, pid);
    SameHashSameTree(remote, a, name);
    var made := Staged(places, dir, name, pid);
    DetourWalks(made, a, b, dir);
    GoalHolds(remote, name);
    FetchExact(places, dir, name, pid, remote);
    assert Leftover(places, StagingPlace(dir, name, pid)) == EMPTY_ROOT;
    if Cacheable(remote, b) && Verified(remote, b) != Verified(remote, a) {
      TreesDiffer(remote, a, b);
    }
  }

  lemma TreesDiffer(remote: Remote, a: string, b: string)
    requires Cacheable(remote, a) && Cacheable(remote, b) && Verified(remote, b) != Verified(remote, a)
    ensures OnDisk(Verified(remote, a).value) != OnDisk(Verified(remote, b).value)
  {
    hide Verified, Writable, OnDisk, WellFormed, Holds;
    VerifiedWellFormed(remote, a);
    VerifiedWellFormed(remote, b);
    OnDiskHolds(Verified(remote, a).value);
    OnDiskHolds(Verified(remote, b).value);
    if OnDisk(Verified(remote, a).value) == OnDisk(Verified(remote, b).value) {
      HoldsDetermines(OnDisk(Verified(remote, a).value), [], Verified(remote, a).value, Verified(remote, b).value);
    }
  }

  //////////////////////////////////////////////////////////////////////////////
  // The cache of one process
  //////////////////////////////////////////////////////////////////////////////

  function StripStore(path: string): string {
    var s := StripPrefix(path, "/nix/store/");
    if s.Some? then s.value else path
  }

  /** `ensure_cached` when no other task is around. */
  function EnsureAll(places: Places, dir: Place, paths: seq<string>, pid: nat, remote: Remote): (Places, Outcome<(),
      Error>)
    decreases |paths|
  {
    if paths == [] then (places, Ok(()))
    else
      var basename := StripStore(paths[0]);
      if Found(places, dir, basename) then EnsureAll(places, dir, paths[1..], pid, remote)
      else
        var fetched := FetchAndExtract(places, dir, basename, pid, remote);
        if fetched.1.Ok? then EnsureAll(fetched.0, dir, paths[1..], pid, remote) else fetched
  }

  /** As long as no store path contains a slash: success means that every final name is present, what was present
      stays as it was, and a new name is one whose archive passed every check. */
  ghost predicate Settles(before: Places, after: Places, dir: Place, remote: Remote) {
    forall n :: Final(n) ==>
      && (dir + [n] in before ==> dir + [n] in after && after[dir + [n]] == before[dir + [n]])
      && (dir + [n] in after && dir + [n] !in before ==> Verified(remote, n).Ok?)
  }

  lemma {:induction false} EnsureAllOutcome(places: Places, dir: Place, paths: seq<string>, pid: nat, remote: Remote)
    requires forall i :: 0 <= i < |paths| ==> Addressable(StripStore(paths[i]))
    ensures var (after, r) := EnsureAll(places, dir, paths, pid, remote);
            && Settles(places, after, dir, remote)
            && (r.Ok? ==>
                  forall i :: 0 <= i < |paths| && Final(StripStore(paths[i])) ==> dir + [StripStore(paths[i])] in after)
    decreases |paths|
  {
    hide FetchAndExtract, Final, Found, Verified, StripStore, Addressable;
    if paths != [] {
      var basename := StripStore(paths[0]);
      assert Addressable(basename);
      if Final(basename) {
        FinalIsLocal(basename);
        FoundIsPresent(places, dir, basename);
      }
      if Found(places, dir, basename) {
        EnsureAllOutcome(places, dir, paths[1..], pid, remote);
      } else {
        FetchFrame(places, dir, basename, pid, remote);
        var (next, r) := FetchAndExtract(places, dir, basename, pid, remote);
        if r.Ok? {
          EnsureAllOutcome(next, dir, paths[1..], pid, remote);
        }
      }
      assert paths == [paths[0]] + paths[1..];
    }
  }

  lemma FinalIsLocal(name: string)
    requires Final(name)
    ensures Local(name)
  {
  }

  lemma FoundIsPresent(places: Places, dir: Place, name: string)
    requires Local(name)
    ensures Found(places, dir, name) <==> dir + [name] in places
    ensures Walkable(places, dir, name) && JoinPath(dir, name, CHARS) == dir + [name]
  {
    JoinIsEntryExactly(dir, name, CHARS);
    SplitPlain(name, '/', "");
    hide JoinPath;
  }

  class NarCache {
    var places: Places
    const dir: Place
    const pid: nat

    constructor (initial: Places, dir: Place, pid: nat)
      ensures places == initial && this.dir == dir && this.pid == pid
    {
      places := initial;
      this.dir := dir;
      this.pid := pid;
    }

    method Fetch(basename: string, remote: Remote) returns (r: Outcome<(), Error>)
      modifies this`places
      ensures (places, r) == FetchAndExtract(old(places), dir, basename, pid, remote)
    {
      hide Payload, CheckedTree, Extract, Walkable, JoinPath, StagingPlace, Staged;
      var payload := Payload(remote, basename);
      if !payload.Ok? {
        return payload.PropagateFailure();
      }
      var tmp, final := StagingPlace(dir, basename, pid), JoinPath(dir, basename, CHARS);
      places := Staged(places, dir, basename, pid);
      ghost var made := places;
      var tree := CheckedTree(remote, payload.value.0, payload.value.1);
      if !tree.Ok? {
        places := places - {tmp};
        return tree.PropagateFailure();
      }
      var done := Extract(places[tmp], tree.value, []);
      if !done.ok {
        places := places[tmp := done.fs];
        return Err(Io);
      }
      if Walkable(places, dir, basename) && CanReplace(places, final) {
        places := (places - {tmp})[final := done.fs];
      } else {
        places := places - {tmp};
        return Err(Io);
      }
      r := Ok(());
    }

    /** `ensure_cached` with no other task around: the paths one by one, up to the first that cannot be had. */
    method EnsureCached(closurePaths: seq<string>, remote: Remote) returns (r: Outcome<(), Error>)
      modifies this`places
      ensures (places, r) == EnsureAll(old(places), dir, closurePaths, pid, remote)
    {
      hide FetchAndExtract, Found;
      var i := 0;
      while i < |closurePaths|
        invariant 0 <= i <= |closurePaths|
        invariant EnsureAll(places, dir, closurePaths[i..], pid, remote)
               == EnsureAll(old(places), dir, closurePaths, pid, remote)
      {
        assert closurePaths[i..][0] == closurePaths[i] && closurePaths[i..][1..] == closurePaths[i + 1..];
        var basename := StripStore(closurePaths[i]);
        if !Found(places, dir, basename) {
          var fetched := Fetch(basename, remote);
          if !fetched.Ok? {
            return fetched;
          }
        }
        i := i + 1;
      }
      r := Ok(());
    }

    /** Startup cleanup: every temporary entry of the cache directory goes with all below it, nothing else does. */
    method CleanupTempDirs()
      modifies this`places
      ensures forall q :: q in places <==> q in old(places) && !Under(q, TmpEntries(old(places), dir))
      ensures forall q :: q in places ==> places[q] == old(places[q])
    {
      var rest := TmpEntries(places, dir);
      ghost var gone: set<Place> := {};
      hide IsTmp, TmpEntries;
      while rest != {}
        invariant rest + gone == TmpEntries(old(places), dir)
        invariant forall q :: q in places <==> q in old(places) && !Under(q, gone)
        invariant forall q :: q in places ==> places[q] == old(places[q])
        decreases rest
      {
        var e :| e in rest;
        places := map q | q in places && !(e <= q) :: places[q];
        rest, gone := rest - {e}, gone + {e};
      }
    }
  }

  predicate Under(q: Place, entries: set<Place>) { exists e :: e in entries && e <= q }

  /** What the startup cleanup finds in the cache directory. */
  function TmpEntries(places: Places, dir: Place): (r: set<Place>)
    ensures forall q :: q in r <==> q in places && exists rest :: q == dir + [".tmp-" + rest]
  {
    forall q: Place, rest | q == dir + [".tmp-" + rest]
      ensures |q| == |dir| + 1 && dir <= q && q[|dir|][..5] == TMP_PREFIX
    {
    }
    forall q: Place | |q| == |dir| + 1 && dir <= q && IsTmp(q[|dir|])
      ensures q == dir + [".tmp-" + q[|dir|][5..]]
    {
      var name := q[|dir|];
      assert name == TMP_PREFIX + name[5..];
      assert q == dir + [name];
    }
    set q | q in places && |q| == |dir| + 1 && dir <= q && IsTmp(q[|dir|])
  }

  /** A fetch of an addressable name touches its temporary name and its final name only. */
  lemma FetchFrame(places: Places, dir: Place, basename: string, pid: nat, remote: Remote)
    requires Addressable(basename) && !Found(places, dir, basename)
    ensures var (after, r) := FetchAndExtract(places, dir, basename, pid, remote);
            Settles(places, after, dir, remote) && (r.Ok? ==> Final(basename) && dir + [basename] in after)
  {
    hide Payload, CheckedTree, Extract, JoinPath, Found, Walkable;
    if Payload(remote, basename).Ok? {
      PayloadNamesAreBasenames(remote, basename);
      FoundIsPresent(places, dir, basename);
      LocalStaging(places, dir, basename, pid);
      TmpNameShape(basename, pid);
      hide TmpName, IsTmp, ParseBasename, Staged, StagingPlace, Local;
      var tmp := TmpName(basename, pid);
      forall n | Final(n)
        ensures dir + [n] != dir + [tmp] && (n != basename ==> dir + [n] != dir + [basename])
      {
        assert (dir + [n])[|dir|] == n && (dir + [tmp])[|dir|] == tmp && (dir + [basename])[|dir|] == basename;
      }
    }
  }

  /** For an entry of the cache directory the staging directory is one too. */
  lemma LocalStaging(places: Places, dir: Place, basename: string, pid: nat)
    requires Local(basename)
    ensures var tmp := dir + [TmpName(basename, pid)];
            && StagingPlace(dir, basename, pid) == tmp
            && Staged(places, dir, basename, pid) == (if tmp in places then places else places[tmp := EMPTY_ROOT])
  {
    var name := TmpName(basename, pid);
    TmpNameIsLocal(basename, pid);
    FoundIsPresent(places, dir, name);
    SplitPlain(name, '/', "");
    hide TmpName;
    assert [name][..0] == [];
    assert Resolve(dir, [name], CHARS) == JoinPath(dir, name, CHARS);
    assert CreateAll(places, dir, []) == places;
  }

  lemma PayloadNamesAreBasenames(remote: Remote, basename: string)
    requires Payload(remote, basename).Ok?
    ensures ParseBasename(basename).Ok? && !IsTmp(basename)
  {
    hide ParseBasename, IsTmp, HashString;
    BasenameIsNotTmp(basename);
  }

  //////////////////////////////////////////////////////////////////////////////
  // When a whole list can be had
  //////////////////////////////////////////////////////////////////////////////

  /** What earlier attempts of this process have left is part of what they were after. */
  ghost predicate Orderly(places: Places, dir: Place, pid: nat, remote: Remote) {
    forall n :: Final(n) ==> PartOf(Leftover(places, dir + [TmpName(n, pid)]), Goal(remote, n))
  }

  /** Present, or such that a fetch will publish it. */
  ghost predicate Available(places: Places, dir: Place, pid: nat, remote: Remote, name: string) {
    || dir + [name] in places
    || (Cacheable(remote, name) && NoLinks(Leftover(places, dir + [TmpName(name, pid)])))
  }

  /** A fetch of a missing entry: success, and what it leaves for the other entries. */
  lemma FetchOfEntry(places: Places, dir: Place, name: string, pid: nat, remote: Remote)
    requires Final(name) && dir + [name] !in places && Orderly(places, dir, pid, remote)
    ensures var (after, r) := FetchAndExtract(places, dir, name, pid, remote);
            && (r.Ok? <==> Available(places, dir, pid, remote, name))
            && (r.Ok? ==>
                  var tmp := dir + [TmpName(name, pid)];
                  after == (places - {tmp})[dir + [name] := OnDisk(Verified(remote, name).value)])
  {
    hide FetchAndExtract, Verified, OnDisk, NoLinks, PartOf, Goal, Cacheable, IsTmp, TmpName, JoinPath, Walkable;
    FinalIsLocal(name);
    FoundIsPresent(places, dir, name);
    LocalStaging(places, dir, name, pid);
    var tmp := dir + [TmpName(name, pid)];
    FetchExact(places, dir, name, pid, remote);
    var made := Staged(places, dir, name, pid);
    FoundIsPresent(made, dir, name);
    assert made - {tmp} == places - {tmp};
  }

  lemma EntriesApart(dir: Place, n: string, m: string, pid: nat)
    requires Final(n) && Final(m)
    ensures dir + [n] != dir + [TmpName(m, pid)]
    ensures n != m ==> dir + [n] != dir + [m] && dir + [TmpName(n, pid)] != dir + [TmpName(m, pid)]
  {
    TmpNameShape(m, pid);
    if TmpName(n, pid) == TmpName(m, pid) {
      TmpNameInjective(n, pid, m, pid);
    }
    hide TmpName, IsTmp, Local;
    assert (dir + [n])[|dir|] == n && (dir + [m])[|dir|] == m;
    assert (dir + [TmpName(n, pid)])[|dir|] == TmpName(n, pid) && (dir + [TmpName(m, pid)])[|dir|] == TmpName(m, pid);
  }

  /** A published entry changes nothing for the others. */
  lemma OthersAvailable(places: Places, dir: Place, pid: nat, remote: Remote, name: string, tree: Fs, other: string)
    requires Final(name) && Final(other) && Available(places, dir, pid, remote, name) && dir + [name] !in places
    ensures var after := (places - {dir + [TmpName(name, pid)]})[dir + [name] := tree];
            && (Available(after, dir, pid, remote, other) <==> Available(places, dir, pid, remote, other))
            && (other != name ==> (dir + [other] in after <==> dir + [other] in places))
            && (PartOf(Leftover(places, dir + [TmpName(other, pid)]), Goal(remote, other)) ==>
                  PartOf(Leftover(after, dir + [TmpName(other, pid)]), Goal(remote, other)))
  {
    EntriesApart(dir, name, other, pid);
    EntriesApart(dir, other, name, pid);
    GoalHolds(remote, other);
    hide TmpName, Final, Verified, OnDisk, NoLinks, PartOf, Goal, Cacheable;
  }

  predicate Asks(paths: seq<string>, name: string) { exists i :: 0 <= i < |paths| && StripStore(paths[i]) == name }

  ghost predicate AllAvailable(places: Places, dir: Place, paths: seq<string>, pid: nat, remote: Remote) {
    forall n :: Asks(paths, n) ==> Available(places, dir, pid, remote, n)
  }

  /** What was there is as it was, what was asked for is there with its verified tree, and nothing else is new. */
  ghost predicate Supplied(before: Places, after: Places, dir: Place, paths: seq<string>, remote: Remote) {
    forall n :: Final(n) ==>
      if dir + [n] in before then dir + [n] in after && after[dir + [n]] == before[dir + [n]]
      else if Asks(paths, n)
      then dir + [n] in after && Cacheable(remote, n) && after[dir + [n]] == OnDisk(Verified(remote, n).value)
      else dir + [n] !in after
  }

  lemma AsksFirst(paths: seq<string>, name: string)
    requires paths != []
    ensures Asks(paths, name) <==> name == StripStore(paths[0]) || Asks(paths[1..], name)
  {
    hide StripStore;
    if Asks(paths, name) {
      var i :| 0 <= i < |paths| && StripStore(paths[i]) == name;
      assert i > 0 ==> paths[1..][i - 1] == paths[i];
    }
    if Asks(paths[1..], name) {
      var i :| 0 <= i < |paths[1..]| && StripStore(paths[1..][i]) == name;
      assert paths[i + 1] == paths[1..][i];
    }
  }

  lemma SuppliedBoth(places: Places, next: Places, after: Places, dir: Place, paths: seq<string>, pid: nat,
      remote: Remote)
    requires paths != [] && Final(StripStore(paths[0])) && dir + [StripStore(paths[0])] !in places
    requires Available(places, dir, pid, remote, StripStore(paths[0]))
    requires var name := StripStore(paths[0]);
             && Cacheable(remote, name)
             && next == (places - {dir + [TmpName(name, pid)]})[dir + [name] := OnDisk(Verified(remote, name).value)]
    requires Supplied(next, after, dir, paths[1..], remote)
    ensures Supplied(places, after, dir, paths, remote)
  {
    hide StripStore, Verified, OnDisk, Cacheable, Final, TmpName, Available, Asks;
    var name := StripStore(paths[0]);
    forall n | Final(n)
      ensures dir + [n] != dir + [TmpName(name, pid)]
      ensures n != name ==> dir + [n] != dir + [name]
      ensures Asks(paths, n) <==> n == name || Asks(paths[1..], n)
    {
      EntriesApart(dir, n, name, pid);
      AsksFirst(paths, n);
    }
  }

  lemma NextIsOrderly(places: Places, dir: Place, paths: seq<string>, pid: nat, remote: Remote, name: string, tree: Fs)
    requires Final(name) && Available(places, dir, pid, remote, name) && dir + [name] !in places
    requires Orderly(places, dir, pid, remote) && forall n :: Asks(paths, n) ==> Final(n)
    ensures var next := (places - {dir + [TmpName(name, pid)]})[dir + [name] := tree];
            && Orderly(next, dir, pid, remote)
            && (AllAvailable(next, dir, paths, pid, remote) <==> AllAvailable(places, dir, paths, pid, remote))
  {
    hide Final, TmpName, Available, Asks, PartOf, Goal, Leftover;
    forall n | Final(n)
      ensures var next := (places - {dir + [TmpName(name, pid)]})[dir + [name] := tree];
              && (Available(next, dir, pid, remote, n) <==> Available(places, dir, pid, remote, n))
              && PartOf(Leftover(next, dir + [TmpName(n, pid)]), Goal(remote, n))
    {
      OthersAvailable(places, dir, pid, remote, name, tree, n);
    }
  }

  lemma AvailableFirst(places: Places, dir: Place, paths: seq<string>, pid: nat, remote: Remote)
    requires paths != []
    ensures AllAvailable(places, dir, paths, pid, remote) <==>
            && Available(places, dir, pid, remote, StripStore(paths[0]))
            && AllAvailable(places, dir, paths[1..], pid, remote)
    ensures Asks(paths, StripStore(paths[0])) && forall n :: Asks(paths[1..], n) ==> Asks(paths, n)
  {
    hide StripStore, Available, Asks;
    forall n
      ensures Asks(paths, n) <==> n == StripStore(paths[0]) || Asks(paths[1..], n)
    {
      AsksFirst(paths, n);
    }
  }

  lemma SuppliedFound(places: Places, after: Places, dir: Place, paths: seq<string>, remote: Remote)
    requires paths != [] && dir + [StripStore(paths[0])] in places
    requires Supplied(places, after, dir, paths[1..], remote)
    ensures Supplied(places, after, dir, paths, remote)
  {
    hide StripStore, Verified, OnDisk, Cacheable, Final, Asks;
    forall n
      ensures Asks(paths, n) <==> n == StripStore(paths[0]) || Asks(paths[1..], n)
    {
      AsksFirst(paths, n);
    }
  }

  lemma SuppliedNone(places: Places, dir: Place, pid: nat, remote: Remote)
    ensures AllAvailable(places, dir, [], pid, remote) && Supplied(places, places, dir, [], remote)
  {
    hide Final;
    assert forall n :: !Asks([], n);
  }

  /** For entries of the cache directory: every path can be had exactly when each one is there or can be fetched; then
      each is there, the new ones with their verified trees. */
  lemma {:induction false} EnsureAllExactly(places: Places, dir: Place, paths: seq<string>, pid: nat, remote: Remote)
    requires Orderly(places, dir, pid, remote) && forall n :: Asks(paths, n) ==> Final(n)
    ensures var (after, r) := EnsureAll(places, dir, paths, pid, remote);
            && (r.Ok? <==> AllAvailable(places, dir, paths, pid, remote))
            && (r.Ok? ==> Supplied(places, after, dir, paths, remote))
    decreases |paths|
  {
    hide StripStore, Verified, OnDisk, Final, TmpName, Asks, Orderly, FetchAndExtract, Found, Supplied, AllAvailable,
        Available, Cacheable;
    if paths == [] {
      SuppliedNone(places, dir, pid, remote);
    } else {
      var name := StripStore(paths[0]);
      AvailableFirst(places, dir, paths, pid, remote);
      FinalIsLocal(name);
      FoundIsPresent(places, dir, name);
      if Found(places, dir, name) {
        PresentIsAvailable(places, dir, pid, remote, name);
        EnsureAllExactly(places, dir, paths[1..], pid, remote);
        if EnsureAll(places, dir, paths[1..], pid, remote).1.Ok? {
          SuppliedFound(places, EnsureAll(places, dir, paths[1..], pid, remote).0, dir, paths, remote);
        }
      } else {
        FetchOfEntry(places, dir, name, pid, remote);
        if Available(places, dir, pid, remote, name) {
          var next := FetchAndExtract(places, dir, name, pid, remote).0;
          PresentIsAvailable(places, dir, pid, remote, name);
          NextIsOrderly(places, dir, paths[1..], pid, remote, name, OnDisk(Verified(remote, name).value));
          EnsureAllExactly(next, dir, paths[1..], pid, remote);
          if EnsureAll(next, dir, paths[1..], pid, remote).1.Ok? {
            SuppliedBoth(places, next, EnsureAll(next, dir, paths[1..], pid, remote).0, dir, paths, pid, remote);
          }
        }
      }
    }
  }

  lemma PresentIsAvailable(places: Places, dir: Place, pid: nat, remote: Remote, name: string)
    ensures dir + [name] in places ==> Available(places, dir, pid, remote, name)
    ensures dir + [name] !in places && Available(places, dir, pid, remote, name) ==>
              Cacheable(remote, name) && Verified(remote, name).Ok?
  {
    hide Verified;
  }

  /** The text of a temporary name, and of the names that the cleanup takes for one. */
  lemma TmpNameText(name: string, basename: string, pid: nat)
    ensures IsTmp(name) <==> exists rest :: name == ".tmp-" + rest
    ensures TmpName(basename, pid) == ".tmp-" + basename + "-" + Decimal(pid)
  {
    if IsTmp(name) {
      assert name == ".tmp-" + name[5..];
    }
  }

  /** A store path is cached under its basename; other text is taken as it is. */
  lemma StripStoreExactly(path: string)
    ensures StripStore("/nix/store/" + path) == path
    ensures (forall rest :: path != "/nix/store/" + rest) ==> StripStore(path) == path
  {
    assert ("/nix/store/" + path)[11..] == path;
    if "/nix/store/" <= path {
      assert path == "/nix/store/" + path[11..];
    }
  }
}
