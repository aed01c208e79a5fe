/**
 The NAR format (`nar.rs`): trees, their one serialization, and the parser as a
 function of the byte stream. The main result, `ParseNodeExact`, says that the
 parser accepts a stream with a given tree and remainder if and only if the
 stream is that tree's serialization followed by that remainder and the tree
 obeys the format's rules.
 */
module Nar {
  import opened Outcomes
  import opened Base32

  type Bytes = seq<bv8>

  datatype Node =
    | Regular(executable: bool, contents: Bytes)
    | Symlink(target: Bytes)
    | Directory(entries: seq<Entry>)

  datatype Entry = Entry(name: Bytes, node: Node)

  /** The value parsed and the bytes after it. */
  type Parsed<T> = Outcome<(T, Bytes), Error>

  const MAX_STRING: nat := 128 * 1024 * 1024
  const DEFAULT_MAX_DEPTH: nat := 256
  const U16: nat := 65536

  function Ascii(s: string): (b: Bytes)
    ensures |b| == |s|
  {
    seq(|s|, i requires 0 <= i < |s| => (s[i] as int % 256) as bv8)
  }

  /** The fixed words of the format. */
  datatype Token =
    | Magic | Open | Close | Type | RegularKind | SymlinkKind | DirectoryKind
    | Executable | Empty | Contents | Target | EntryKey | NameKey | NodeKey

  function Spelling(t: Token): string {
    match t
    case Magic => "nix-archive-1"
    case Open => "("
    case Close => ")"
    case Type => "type"
    case RegularKind => "regular"
    case SymlinkKind => "symlink"
    case DirectoryKind => "directory"
    case Executable => "executable"
    case Empty => ""
    case Contents => "contents"
    case Target => "target"
    case EntryKey => "entry"
    case NameKey => "name"
    case NodeKey => "node"
  }

  function Word(t: Token): Bytes { Ascii(Spelling(t)) }

  lemma WordsDistinct()
    ensures Word(RegularKind) != Word(SymlinkKind)
    ensures Word(RegularKind) != Word(DirectoryKind)
    ensures Word(SymlinkKind) != Word(DirectoryKind)
    ensures Word(Executable) != Word(Contents)
    ensures Word(Close) != Word(EntryKey)
  {
    assert Word(RegularKind)[0] != Word(SymlinkKind)[0];
    assert |Word(RegularKind)| == |Word(SymlinkKind)| == 7 && |Word(DirectoryKind)| == 9;
    assert |Word(Executable)| == 10 && |Word(Contents)| == 8;
    assert |Word(Close)| == 1 && |Word(EntryKey)| == 5;
  }

  //////////////////////////////////////////////////////////////////////////////
  // UTF-8 (the table of section 4 of RFC 3629)
  //////////////////////////////////////////////////////////////////////////////

  predicate Continuation(b: bv8) { 0x80 <= b <= 0xBF }

  /** Length of the valid scalar encoding a non-empty byte string starts with, or 0. */
  function ScalarLength(b: Bytes): (n: nat)
    requires b != []
    ensures n <= |b|
  {
    var x := b[0];
    if x < 0x80 then 1
    else if 0xC2 <= x <= 0xDF && |b| >= 2 && Continuation(b[1]) then 2
    else if
      && |b| >= 3 && Continuation(b[1]) && Continuation(b[2])
      && (|| (x == 0xE0 && b[1] >= 0xA0) || 0xE1 <= x <= 0xEC || (x == 0xED && b[1] <= 0x9F) || 0xEE <= x <= 0xEF)
    then 3
    else if
      && |b| >= 4 && Continuation(b[1]) && Continuation(b[2]) && Continuation(b[3])
      && (|| (x == 0xF0 && b[1] >= 0x90) || 0xF1 <= x <= 0xF3 || (x == 0xF4 && b[1] <= 0x8F))
    then 4
    else 0
  }

  predicate Utf8(b: Bytes)
    decreases |b|
  {
    b == [] || (ScalarLength(b) > 0 && Utf8(b[ScalarLength(b)..]))
  }

  lemma {:induction false} AsciiIsUtf8(b: Bytes)
    requires forall i :: 0 <= i < |b| ==> b[i] < 0x80
    ensures Utf8(b)
  {
    if b != [] {
      AsciiIsUtf8(b[1..]);
    }
  }

  lemma AsciiBytes(s: string)
    requires forall i :: 0 <= i < |s| ==> s[i] as int < 128
    ensures forall i :: 0 <= i < |s| ==> Ascii(s)[i] < 0x80
    ensures Utf8(Ascii(s))
  {
    forall i | 0 <= i < |s|
      ensures Ascii(s)[i] < 0x80
    {
      SmallCode(s[i] as int);
    }
    AsciiIsUtf8(Ascii(s));
  }

  lemma SmallCode(n: nat)
    requires n < 128
    ensures (n % 256) as bv8 < 0x80
  {
  }

  lemma WordIsUtf8(t: Token)
    ensures Utf8(Word(t)) && |Word(t)| <= 16
  {
    AsciiBytes(Spelling(t));
    hide Utf8;
  }

  //////////////////////////////////////////////////////////////////////////////
  // Wire strings
  //////////////////////////////////////////////////////////////////////////////

  function LeBytes(n: nat, width: nat): (b: Bytes)
    ensures |b| == width
  {
    if width == 0 then [] else [ByteOf(n % 256)] + LeBytes(n / 256, width - 1)
  }

  function Pow256(k: nat): nat { if k == 0 then 1 else 256 * Pow256(k - 1) }

  lemma {:induction false} LeBytesValue(n: nat, width: nat)
    requires n < Pow256(width)
    ensures BytesValue(LeBytes(n, width)) == n
  {
    if width > 0 {
      LeBytesValue(n / 256, width - 1);
      hide ByteOf;
      ByteOfValue(n % 256);
      var b := LeBytes(n, width);
      assert b[1..] == LeBytes(n / 256, width - 1);
    }
  }

  lemma SplitByte(v: nat, w: nat)
    requires v < 256
    ensures (v + 256 * w) % 256 == v && (v + 256 * w) / 256 == w
  {
  }

  lemma LeStep(x: bv8, w: nat, width: nat)
    ensures LeBytes(x as nat + 256 * w, width + 1) == [x] + LeBytes(w, width)
  {
    hide ByteOf;
    var v: nat := x as nat;
    SplitByte(v, w);
    ByteOfValue(v);
    ByteValueInjective(ByteOf(v), x);
  }

  lemma {:induction false} ValueLeBytes(b: Bytes)
    ensures LeBytes(BytesValue(b), |b|) == b
  {
    if b != [] {
      var rest := b[1..];
      assert BytesValue(b) == b[0] as nat + 256 * BytesValue(rest);
      hide BytesValue;
      ValueLeBytes(rest);
      LeStep(b[0], BytesValue(rest), |rest|);
      hide LeBytes;
      assert b == [b[0]] + rest;
    }
  }

  function PadLength(len: nat): nat { (8 - len % 8) % 8 }

  function Zeros(n: nat): Bytes { seq(n, _ => 0) }

  /** A length-prefixed string padded to eight bytes. */
  function Str(d: Bytes): Bytes { LeBytes(|d|, 8) + d + Zeros(PadLength(|d|)) }

  /** A string followed by the rest of the stream. */
  function Put(d: Bytes, rest: Bytes): Bytes { Str(d) + rest }

  function ReadExact(b: Bytes, n: nat): Parsed<Bytes> {
    if |b| < n then Err(NarParse(UnexpectedEof)) else Ok((b[..n], b[n..]))
  }

  predicate AllZero(b: Bytes) { forall i :: 0 <= i < |b| ==> b[i] == 0 }

  function ReadBytes(b: Bytes): (r: Parsed<Bytes>)
    ensures r.Ok? ==> |r.value.1| + 8 <= |b|
    ensures !r.Panic?
  {
    var (prefix, afterLen) :- ReadExact(b, 8);
    var len := BytesValue(prefix);
    if len > MAX_STRING then Err(NarParse(StringTooLarge))
    else
      var (data, afterData) :- ReadExact(afterLen, len);
      var (pad, rest) :- ReadExact(afterData, PadLength(len));
      if AllZero(pad) then Ok((data, rest)) else Err(NarParse(NonZeroPadding))
  }

  lemma LengthFits(n: nat)
    requires n <= MAX_STRING
    ensures n < Pow256(8)
  {
    assert Pow256(4) == 256 * 256 * 256 * 256;
    assert Pow256(6) == 256 * 256 * Pow256(4);
    assert Pow256(8) == 256 * 256 * Pow256(6);
  }

  /** What the reader makes of a length prefix, data, padding and a rest. */
  lemma ReadPieces(prefix: Bytes, d: Bytes, pad: Bytes, rest: Bytes)
    requires |prefix| == 8 && BytesValue(prefix) == |d| <= MAX_STRING && |pad| == PadLength(|d|)
    ensures ReadBytes(prefix + d + pad + rest) == if AllZero(pad) then Ok((d, rest)) else Err(NarParse(NonZeroPadding))
  {
    hide BytesValue, PadLength, AllZero;
    var b := prefix + d + pad + rest;
    assert ReadExact(b, 8) == Ok((prefix, d + pad + rest)) by { SplitAt(prefix, d + pad + rest, b); }
    assert ReadExact(d + pad + rest, |d|) == Ok((d, pad + rest)) by { SplitAt(d, pad + rest, d + pad + rest); }
    assert ReadExact(pad + rest, |pad|) == Ok((pad, rest)) by { SplitAt(pad, rest, pad + rest); }
    hide ReadExact;
  }

  lemma SplitAt(a: Bytes, c: Bytes, b: Bytes)
    requires b == a + c
    ensures b[..|a|] == a && b[|a|..] == c
  {
  }

  lemma PiecesRead(b: Bytes) returns (prefix: Bytes, pad: Bytes)
    requires ReadBytes(b).Ok?
    ensures var (d, rest) := ReadBytes(b).value;
            && b == prefix + d + pad + rest && |prefix| == 8
            && BytesValue(prefix) == |d| <= MAX_STRING && |pad| == PadLength(|d|) && AllZero(pad)
  {
    hide BytesValue, PadLength, AllZero;
    prefix := ReadExact(b, 8).value.0;
    var afterLen := ReadExact(b, 8).value.1;
    var len := BytesValue(prefix);
    var (data, afterData) := ReadExact(afterLen, len).value;
    pad := ReadExact(afterData, PadLength(len)).value.0;
  }

  lemma ReadBytesSound(b: Bytes)
    requires ReadBytes(b).Ok?
    ensures var (d, rest) := ReadBytes(b).value; |d| <= MAX_STRING && b == Put(d, rest)
  {
    var prefix, pad := PiecesRead(b);
    hide ReadBytes;
    ValueLeBytes(prefix);
    hide LeBytes, BytesValue, PadLength;
    assert pad == Zeros(|pad|);
  }

  lemma ReadBytesComplete(d: Bytes, rest: Bytes)
    requires |d| <= MAX_STRING
    ensures ReadBytes(Put(d, rest)) == Ok((d, rest))
  {
    LengthFits(|d|);
    LeBytesValue(|d|, 8);
    hide ReadBytes, LeBytes, BytesValue, Pow256, PadLength;
    ReadPieces(LeBytes(|d|, 8), d, Zeros(PadLength(|d|)), rest);
  }

  /** The reader accepts exactly the strings the format writes. */
  lemma ReadBytesExact(b: Bytes, d: Bytes, rest: Bytes)
    ensures ReadBytes(b) == Ok((d, rest)) <==> |d| <= MAX_STRING && b == Put(d, rest)
  {
    hide ReadBytes, Put;
    if ReadBytes(b) == Ok((d, rest)) {
      ReadBytesSound(b);
    }
    if |d| <= MAX_STRING {
      ReadBytesComplete(d, rest);
    }
  }

  function ReadStr(b: Bytes): (r: Parsed<Bytes>)
    ensures r.Ok? ==> |r.value.1| + 8 <= |b|
    ensures !r.Panic?
  {
    var (d, rest) :- ReadBytes(b);
    if Utf8(d) then Ok((d, rest)) else Err(NarParse(InvalidUtf8))
  }

  lemma ReadStrExact(b: Bytes, d: Bytes, rest: Bytes)
    ensures ReadStr(b) == Ok((d, rest)) <==> |d| <= MAX_STRING && Utf8(d) && b == Put(d, rest)
  {
    hide ReadBytes, Put;
    ReadBytesExact(b, d, rest);
  }

  /** The bytes after the expected token. */
  function ExpectStr(b: Bytes, token: Token): (r: Outcome<Bytes, Error>)
    ensures r.Ok? ==> |r.value| + 8 <= |b|
    ensures !r.Panic?
  {
    var (d, rest) :- ReadStr(b);
    if d == Word(token) then Ok(rest) else Err(NarParse(UnexpectedToken))
  }

  lemma ExpectStrExact(b: Bytes, token: Token, rest: Bytes)
    ensures ExpectStr(b, token) == Ok(rest) <==> b == Put(Word(token), rest)
    ensures ReadStr(b) == Ok((Word(token), rest)) <==> b == Put(Word(token), rest)
  {
    hide ReadStr, Put, Word, Utf8;
    WordIsUtf8(token);
    ReadStrExact(b, Word(token), rest);
  }

  //////////////////////////////////////////////////////////////////////////////
  // Names
  //////////////////////////////////////////////////////////////////////////////

  /** `validate_entry_name`: None when the name is fine. */
  function NameFault(name: Bytes): Option<NarFault> {
    if name == [] then Some(EmptyName)
    else if name == Ascii(".") || name == Ascii("..") then Some(DotName)
    else if 0x2f in name || 0 in name then Some(ForbiddenCharacter)
    else None
  }

  predicate ValidName(name: Bytes) { NameFault(name).None? }

  /** Bytewise lexicographic order, the order of Rust strings. */
  predicate Less(a: Bytes, b: Bytes) {
    b != [] && (a == [] || a[0] < b[0] || (a[0] == b[0] && Less(a[1..], b[1..])))
  }

  predicate LessOrEqual(a: Bytes, b: Bytes) { a == b || Less(a, b) }

  lemma {:induction false} OrderIsTotal(a: Bytes, b: Bytes)
    ensures LessOrEqual(a, b) <==> !Less(b, a)
  {
    if a != [] && b != [] {
      OrderIsTotal(a[1..], b[1..]);
      assert a == [a[0]] + a[1..] && b == [b[0]] + b[1..];
    }
  }

  lemma {:induction false} OrderIsTransitive(a: Bytes, b: Bytes, c: Bytes)
    requires Less(a, b) && Less(b, c)
    ensures Less(a, c)
  {
    if a != [] && a[0] == b[0] == c[0] {
      OrderIsTransitive(a[1..], b[1..], c[1..]);
    }
  }

  /** The strings agree up to `k`, and there the first one ends or has the smaller byte. */
  ghost predicate PrecedesAt(a: Bytes, b: Bytes, k: nat) {
    k <= |a| && k < |b| && a[..k] == b[..k] && (k == |a| || a[k] as nat < b[k] as nat)
  }

  ghost predicate Before(a: Bytes, b: Bytes) { exists k: nat :: PrecedesAt(a, b, k) }

  /** The order said without recursion, on the values of the bytes. */
  lemma {:induction false} LessMeaning(a: Bytes, b: Bytes)
    ensures Less(a, b) <==> Before(a, b)
  {
    if Less(a, b) {
      var k := FirstDifference(a, b);
    }
    forall k: nat | PrecedesAt(a, b, k)
      ensures Less(a, b)
    {
      DifferenceDecides(a, b, k);
    }
  }

  lemma {:induction false} FirstDifference(a: Bytes, b: Bytes) returns (k: nat)
    requires Less(a, b)
    ensures PrecedesAt(a, b, k)
  {
    if a == [] {
      k := 0;
    } else if a[0] < b[0] {
      ByteOrder(a[0], b[0]);
      k := 0;
    } else {
      var n := FirstDifference(a[1..], b[1..]);
      k := n + 1;
      assert a[..k] == [a[0]] + a[1..][..n] && b[..k] == [b[0]] + b[1..][..n];
    }
  }

  lemma {:induction false} DifferenceDecides(a: Bytes, b: Bytes, k: nat)
    requires PrecedesAt(a, b, k)
    ensures Less(a, b)
  {
    if k == 0 {
      if a != [] {
        ByteOrder(a[0], b[0]);
      }
    } else {
      assert a[0] == a[..k][0] == b[..k][0] == b[0];
      assert a[1..][..k - 1] == a[..k][1..] == b[..k][1..] == b[1..][..k - 1];
      DifferenceDecides(a[1..], b[1..], k - 1);
    }
  }

  lemma ByteOrder(x: bv8, y: bv8)
    ensures x < y <==> x as nat < y as nat
  {
  }

  predicate Above(name: Bytes, last: Option<Bytes>) { last.Some? ==> Less(last.value, name) }

  //////////////////////////////////////////////////////////////////////////////
  // Trees and their serialization
  //////////////////////////////////////////////////////////////////////////////

  /** What the format demands of a tree: short strings, UTF-8 targets and names, valid names in strictly ascending
      order. */
  predicate WellFormed(node: Node)
    decreases node, 1
  {
    match node
    case Regular(_, contents) => |contents| <= MAX_STRING
    case Symlink(target) => |target| <= MAX_STRING && Utf8(target)
    case Directory(entries) => WellFormedEntries(entries, None)
  }

  predicate WellFormedEntries(entries: seq<Entry>, last: Option<Bytes>)
    decreases entries, 0
  {
    entries != [] ==>
      && |entries[0].name| <= MAX_STRING && Utf8(entries[0].name) && ValidName(entries[0].name)
      && Above(entries[0].name, last)
      && WellFormed(entries[0].node)
      && WellFormedEntries(entries[1..], Some(entries[0].name))
  }

  /** Directory levels of a tree. */
  function Nesting(node: Node): nat
    decreases node, 1
  {
    match node
    case Regular(_, _) => 0
    case Symlink(_) => 0
    case Directory(entries) => 1 + EntriesNesting(entries)
  }

  function EntriesNesting(entries: seq<Entry>): nat
    decreases entries, 0
  {
    if entries == [] then 0
    else
      var a, b := Nesting(entries[0].node), EntriesNesting(entries[1..]);
      if a > b then a else b
  }

  /** The reader counts depth in a `u16` that wraps, so a limit of 65535 is no limit. */
  predicate WithinDepth(levels: nat, depth: nat, maxDepth: nat) {
    maxDepth == U16 - 1 || levels == 0 || depth + levels <= maxDepth
  }

  /** The serialization of a tree in front of the rest of a stream. */
  function SerOnto(node: Node, rest: Bytes): Bytes
    decreases node, 1
  {
    Put(Word(Open), Put(Word(Type),
      match node
      case Regular(executable, contents) =>
        Put(Word(RegularKind), FileOnto(executable, contents, Put(Word(Close), rest)))
      case Symlink(target) => Put(Word(SymlinkKind), Put(Word(Target), Put(target, Put(Word(Close), rest))))
      case Directory(entries) => Put(Word(DirectoryKind), EntriesOnto(entries, Put(Word(Close), rest)))))
  }

  function FileOnto(executable: bool, contents: Bytes, rest: Bytes): Bytes {
    var body := Put(Word(Contents), Put(contents, rest));
    if executable then Put(Word(Executable), Put(Word(Empty), body)) else body
  }

  function EntriesOnto(entries: seq<Entry>, rest: Bytes): Bytes
    decreases entries, 0
  {
    if entries == [] then rest
    else
      Put(Word(EntryKey), Put(Word(Open), Put(Word(NameKey), Put(entries[0].name, Put(Word(NodeKey),
        SerOnto(entries[0].node, Put(Word(Close), EntriesOnto(entries[1..], rest))))))))
  }

  function Ser(node: Node): Bytes { SerOnto(node, []) }

  lemma PutAppend(d: Bytes, a: Bytes, b: Bytes)
    ensures Put(d, a + b) == Put(d, a) + b
  {
  }

  lemma {:induction false} SerOntoAppend(node: Node, a: Bytes, b: Bytes)
    ensures SerOnto(node, a + b) == SerOnto(node, a) + b
    decreases node, 1
  {
    hide Put;
    PutAppend(Word(Close), a, b);
    var c := Put(Word(Close), a);
    match node
    case Regular(executable, contents) =>
      PutAppend(contents, c, b);
      PutAppend(Word(Contents), Put(contents, c), b);
      var body := Put(Word(Contents), Put(contents, c));
      PutAppend(Word(Empty), body, b);
      PutAppend(Word(Executable), Put(Word(Empty), body), b);
      PutAppend(Word(RegularKind), FileOnto(executable, contents, c), b);
      PutAppend(Word(Type), Put(Word(RegularKind), FileOnto(executable, contents, c)), b);
      PutAppend(Word(Open), Put(Word(Type), Put(Word(RegularKind), FileOnto(executable, contents, c))), b);
    case Symlink(target) =>
      PutAppend(target, c, b);
      PutAppend(Word(Target), Put(target, c), b);
      PutAppend(Word(SymlinkKind), Put(Word(Target), Put(target, c)), b);
      PutAppend(Word(Type), Put(Word(SymlinkKind), Put(Word(Target), Put(target, c))), b);
      PutAppend(Word(Open), Put(Word(Type), Put(Word(SymlinkKind), Put(Word(Target), Put(target, c)))), b);
    case Directory(entries) =>
      EntriesOntoAppend(entries, c, b);
      PutAppend(Word(DirectoryKind), EntriesOnto(entries, c), b);
      PutAppend(Word(Type), Put(Word(DirectoryKind), EntriesOnto(entries, c)), b);
      PutAppend(Word(Open), Put(Word(Type), Put(Word(DirectoryKind), EntriesOnto(entries, c))), b);
  }

  lemma {:induction false} EntriesOntoAppend(entries: seq<Entry>, a: Bytes, b: Bytes)
    ensures EntriesOnto(entries, a + b) == EntriesOnto(entries, a) + b
    decreases entries, 0
  {
    hide Put;
    if entries != [] {
      var more := EntriesOnto(entries[1..], a);
      EntriesOntoAppend(entries[1..], a, b);
      PutAppend(Word(Close), more, b);
      SerOntoAppend(entries[0].node, Put(Word(Close), more), b);
      var s1 := SerOnto(entries[0].node, Put(Word(Close), more));
      PutAppend(Word(NodeKey), s1, b);
      PutAppend(entries[0].name, Put(Word(NodeKey), s1), b);
      PutAppend(Word(NameKey), Put(entries[0].name, Put(Word(NodeKey), s1)), b);
      PutAppend(Word(Open), Put(Word(NameKey), Put(entries[0].name, Put(Word(NodeKey), s1))), b);
      PutAppend(Word(EntryKey), Put(Word(Open), Put(Word(NameKey), Put(entries[0].name, Put(Word(NodeKey), s1)))), b);
    }
  }

  lemma SerPrefix(node: Node, rest: Bytes)
    ensures SerOnto(node, rest) == Ser(node) + rest
  {
    hide SerOnto;
    SerOntoAppend(node, [], rest);
    assert [] + rest == rest;
  }

  //////////////////////////////////////////////////////////////////////////////
  // The parser
  //////////////////////////////////////////////////////////////////////////////

  function ParseRegular(b: Bytes): (r: Parsed<Node>)
    ensures r.Ok? ==> |r.value.1| < |b|
    ensures !r.Panic?
  {
    var (next, b1) :- ReadStr(b);
    if next == Word(Executable) then
      var b2 :- ExpectStr(b1, Empty);
      var b3 :- ExpectStr(b2, Contents);
      var (contents, rest) :- ReadBytes(b3);
      Ok((Regular(true, contents), rest))
    else if next == Word(Contents) then
      var (contents, rest) :- ReadBytes(b1);
      Ok((Regular(false, contents), rest))
    else Err(NarParse(UnexpectedToken))
  }

  function ParseSymlink(b: Bytes): (r: Parsed<Node>)
    ensures r.Ok? ==> |r.value.1| < |b|
    ensures !r.Panic?
  {
    var b1 :- ExpectStr(b, Target);
    var (target, rest) :- ReadStr(b1);
    Ok((Symlink(target), rest))
  }

  /** A directory consumes its own closing token. */
  function ParseDirectory(b: Bytes, depth: nat, maxDepth: nat): (r: Parsed<Node>)
    requires depth <= maxDepth < U16
    ensures r.Ok? ==> |r.value.1| < |b|
    ensures !r.Panic?
    decreases |b|, 2
  {
    var inner := (depth + 1) % U16;
    if inner > maxDepth then Err(NarParse(DepthExceeded))
    else
      var (entries, rest) :- ParseEntries(b, None, inner, maxDepth);
      Ok((Directory(entries), rest))
  }

  function ParseEntries(b: Bytes, last: Option<Bytes>, depth: nat, maxDepth: nat): (r: Parsed<seq<Entry>>)
    requires depth <= maxDepth < U16
    ensures r.Ok? ==> |r.value.1| < |b|
    ensures !r.Panic?
    decreases |b|, 1
  {
    var (next, b1) :- ReadStr(b);
    if next == Word(Close) then Ok(([], b1))
    else if next != Word(EntryKey) then Err(NarParse(UnexpectedToken))
    else
      var (entry, b2) :- ParseEntry(b1, last, depth, maxDepth);
      var (more, rest) :- ParseEntries(b2, Some(entry.name), depth, maxDepth);
      Ok(([entry] + more, rest))
  }

  /** One entry after its `entry` token: `( name <name> node <node> )`. */
  function ParseEntry(b: Bytes, last: Option<Bytes>, depth: nat, maxDepth: nat): (r: Parsed<Entry>)
    requires depth <= maxDepth < U16
    ensures r.Ok? ==> |r.value.1| < |b|
    ensures !r.Panic?
    decreases |b|, 1
  {
    var b1 :- ExpectStr(b, Open);
    var b2 :- ExpectStr(b1, NameKey);
    var (name, b3) :- ReadStr(b2);
    if NameFault(name).Some? then Err(NarParse(NameFault(name).value))
    else if last.Some? && LessOrEqual(name, last.value) then Err(NarParse(NotSorted))
    else
      var b4 :- ExpectStr(b3, NodeKey);
      var (node, b5) :- ParseNodeInner(b4, depth, maxDepth);
      var rest :- ExpectStr(b5, Close);
      Ok((Entry(name, node), rest))
  }

  function ParseNodeInner(b: Bytes, depth: nat, maxDepth: nat): (r: Parsed<Node>)
    requires depth <= maxDepth < U16
    ensures r.Ok? ==> |r.value.1| < |b|
    ensures !r.Panic?
    decreases |b|, 0
  {
    var b1 :- ExpectStr(b, Open);
    var b2 :- ExpectStr(b1, Type);
    var (kind, b3) :- ReadStr(b2);
    if kind == Word(RegularKind) then
      var (node, b4) :- ParseRegular(b3);
      var rest :- ExpectStr(b4, Close);
      Ok((node, rest))
    else if kind == Word(SymlinkKind) then
      var (node, b4) :- ParseSymlink(b3);
      var rest :- ExpectStr(b4, Close);
      Ok((node, rest))
    else if kind == Word(DirectoryKind) then ParseDirectory(b3, depth, maxDepth)
    else Err(NarParse(UnknownNodeType))
  }

  /** The entry point for the root: it reads a closing token after every kind of node. */
  function ParseNode(b: Bytes, depth: nat, maxDepth: nat): (r: Parsed<Node>)
    requires depth <= maxDepth < U16
    ensures !r.Panic?
  {
    var b1 :- ExpectStr(b, Open);
    var b2 :- ExpectStr(b1, Type);
    var (kind, b3) :- ReadStr(b2);
    var (node, b4) :-
      if kind == Word(RegularKind) then ParseRegular(b3)
      else if kind == Word(SymlinkKind) then ParseSymlink(b3)
      else if kind == Word(DirectoryKind) then ParseDirectory(b3, depth, maxDepth)
      else Err(NarParse(UnknownNodeType));
    var rest :- ExpectStr(b4, Close);
    Ok((node, rest))
  }

  function ParseArchive(b: Bytes, maxDepth: nat): (r: Parsed<Node>)
    requires maxDepth < U16
    ensures !r.Panic?
  {
    var b1 :- ExpectStr(b, Magic);
    ParseNode(b1, 0, maxDepth)
  }

  //////////////////////////////////////////////////////////////////////////////
  // Soundness: what is accepted is a serialization
  //////////////////////////////////////////////////////////////////////////////

  /** `ReadStr` gave this string: the stream is the string and the rest. */
  lemma ReadStrConsumes(b: Bytes)
    requires ReadStr(b).Ok?
    ensures b == Put(ReadStr(b).value.0, ReadStr(b).value.1)
    ensures |ReadStr(b).value.0| <= MAX_STRING && Utf8(ReadStr(b).value.0)
  {
    hide ReadStr, Put;
    ReadStrExact(b, ReadStr(b).value.0, ReadStr(b).value.1);
  }

  lemma ExpectStrConsumes(b: Bytes, token: Token)
    requires ExpectStr(b, token).Ok?
    ensures b == Put(Word(token), ExpectStr(b, token).value)
  {
    hide ExpectStr, Put, Word;
    ExpectStrExact(b, token, ExpectStr(b, token).value);
  }

  lemma ReadBytesConsumes(b: Bytes)
    requires ReadBytes(b).Ok?
    ensures b == Put(ReadBytes(b).value.0, ReadBytes(b).value.1) && |ReadBytes(b).value.0| <= MAX_STRING
  {
    hide ReadBytes, Put;
    ReadBytesExact(b, ReadBytes(b).value.0, ReadBytes(b).value.1);
  }

  lemma RegularSound(b: Bytes)
    requires ParseRegular(b).Ok?
    ensures var (node, rest) := ParseRegular(b).value;
            node.Regular? && WellFormed(node) && b == FileOnto(node.executable, node.contents, rest)
  {
    hide Put, Word, ReadStr, ReadBytes, ExpectStr, Utf8;
    ReadStrConsumes(b);
    var (next, b1) := ReadStr(b).value;
    if next == Word(Executable) {
      ExpectStrConsumes(b1, Empty);
      var b2 := ExpectStr(b1, Empty).value;
      ExpectStrConsumes(b2, Contents);
      ReadBytesConsumes(ExpectStr(b2, Contents).value);
    } else {
      ReadBytesConsumes(b1);
    }
  }

  lemma SymlinkSound(b: Bytes)
    requires ParseSymlink(b).Ok?
    ensures var (node, rest) := ParseSymlink(b).value;
            node.Symlink? && WellFormed(node) && b == Put(Word(Target), Put(node.target, rest))
  {
    hide Put, Word, ReadStr, ExpectStr, Utf8;
    ExpectStrConsumes(b, Target);
    ReadStrConsumes(ExpectStr(b, Target).value);
  }

  lemma DepthOfDirectory(entries: seq<Entry>, depth: nat, maxDepth: nat)
    requires depth <= maxDepth < U16 && (depth + 1) % U16 <= maxDepth
    ensures WithinDepth(EntriesNesting(entries), (depth + 1) % U16, maxDepth) <==>
            WithinDepth(Nesting(Directory(entries)), depth, maxDepth)
  {
  }

  lemma {:induction false} DirectorySound(b: Bytes, depth: nat, maxDepth: nat)
    requires depth <= maxDepth < U16
    requires ParseDirectory(b, depth, maxDepth).Ok?
    ensures var (node, rest) := ParseDirectory(b, depth, maxDepth).value;
            && node.Directory? && WellFormed(node) && WithinDepth(Nesting(node), depth, maxDepth)
            && b == EntriesOnto(node.entries, Put(Word(Close), rest))
    decreases |b|, 2
  {
    hide Put, Word, ParseEntries, EntriesOnto, EntriesNesting, WellFormedEntries;
    var inner := (depth + 1) % U16;
    EntriesSound(b, None, inner, maxDepth);
    DepthOfDirectory(ParseEntries(b, None, inner, maxDepth).value.0, depth, maxDepth);
  }

  lemma {:induction false} EntriesSound(b: Bytes, last: Option<Bytes>, depth: nat, maxDepth: nat)
    requires depth <= maxDepth < U16
    requires ParseEntries(b, last, depth, maxDepth).Ok?
    ensures var (entries, rest) := ParseEntries(b, last, depth, maxDepth).value;
            && WellFormedEntries(entries, last) && WithinDepth(EntriesNesting(entries), depth, maxDepth)
            && b == EntriesOnto(entries, Put(Word(Close), rest))
    decreases |b|, 1
  {
    hide Put, Word, ReadStr, Utf8, ParseEntry, SerOnto, Nesting, WellFormed;
    ReadStrConsumes(b);
    var (next, b1) := ReadStr(b).value;
    if next != Word(Close) {
      EntrySound(b1, last, depth, maxDepth);
      var (entry, b2) := ParseEntry(b1, last, depth, maxDepth).value;
      EntriesSound(b2, Some(entry.name), depth, maxDepth);
      var (more, rest) := ParseEntries(b2, Some(entry.name), depth, maxDepth).value;
      assert ([entry] + more)[1..] == more;
    }
  }

  predicate WellFormedEntry(entry: Entry, last: Option<Bytes>) {
    && |entry.name| <= MAX_STRING && Utf8(entry.name) && ValidName(entry.name)
    && Above(entry.name, last)
    && WellFormed(entry.node)
  }

  function EntryOnto(entry: Entry, rest: Bytes): Bytes {
    Put(Word(Open), Put(Word(NameKey),
        Put(entry.name, Put(Word(NodeKey), SerOnto(entry.node, Put(Word(Close), rest))))))
  }

  lemma {:induction false} EntrySound(b: Bytes, last: Option<Bytes>, depth: nat, maxDepth: nat)
    requires depth <= maxDepth < U16
    requires ParseEntry(b, last, depth, maxDepth).Ok?
    ensures var (entry, rest) := ParseEntry(b, last, depth, maxDepth).value;
            && WellFormedEntry(entry, last) && WithinDepth(Nesting(entry.node), depth, maxDepth)
            && b == EntryOnto(entry, rest)
    decreases |b|, 1
  {
    hide Put, Word, ReadStr, ExpectStr, Utf8, ParseNodeInner, SerOnto, Nesting, WellFormed, NameFault, Less;
    ExpectStrConsumes(b, Open);
    var b1 := ExpectStr(b, Open).value;
    ExpectStrConsumes(b1, NameKey);
    var b2 := ExpectStr(b1, NameKey).value;
    ReadStrConsumes(b2);
    var (name, b3) := ReadStr(b2).value;
    if last.Some? {
      OrderIsTotal(name, last.value);
    }
    ExpectStrConsumes(b3, NodeKey);
    var b4 := ExpectStr(b3, NodeKey).value;
    NodeSound(b4, depth, maxDepth);
    ExpectStrConsumes(ParseNodeInner(b4, depth, maxDepth).value.1, Close);
  }

  lemma {:induction false} NodeSound(b: Bytes, depth: nat, maxDepth: nat)
    requires depth <= maxDepth < U16
    requires ParseNodeInner(b, depth, maxDepth).Ok?
    ensures var (node, rest) := ParseNodeInner(b, depth, maxDepth).value;
            WellFormed(node) && WithinDepth(Nesting(node), depth, maxDepth) && b == SerOnto(node, rest)
    decreases |b|, 0
  {
    hide Put, Word, ReadStr, ExpectStr, Utf8, ParseRegular, ParseSymlink, ParseDirectory, EntriesOnto, EntriesNesting;
    hide WellFormed, FileOnto;
    ExpectStrConsumes(b, Open);
    var b1 := ExpectStr(b, Open).value;
    ExpectStrConsumes(b1, Type);
    var b2 := ExpectStr(b1, Type).value;
    ReadStrConsumes(b2);
    var (kind, b3) := ReadStr(b2).value;
    if kind == Word(RegularKind) {
      RegularSound(b3);
      ExpectStrConsumes(ParseRegular(b3).value.1, Close);
    } else if kind == Word(SymlinkKind) {
      SymlinkSound(b3);
      ExpectStrConsumes(ParseSymlink(b3).value.1, Close);
    } else {
      DirectorySound(b3, depth, maxDepth);
    }
  }

  //////////////////////////////////////////////////////////////////////////////
  // Completeness: every serialization is accepted
  //////////////////////////////////////////////////////////////////////////////

  lemma ExpectPut(token: Token, rest: Bytes)
    ensures ExpectStr(Put(Word(token), rest), token) == Ok(rest)
    ensures ReadStr(Put(Word(token), rest)) == Ok((Word(token), rest))
  {
    ExpectStrExact(Put(Word(token), rest), token, rest);
    hide *;
  }

  lemma RegularComplete(executable: bool, contents: Bytes, rest: Bytes)
    requires |contents| <= MAX_STRING
    ensures ParseRegular(FileOnto(executable, contents, rest)) == Ok((Regular(executable, contents), rest))
  {
    hide Put, Word, ReadStr, ReadBytes, ExpectStr;
    WordsDistinct();
    var data := Put(contents, rest);
    ReadBytesExact(data, contents, rest);
    ExpectPut(Contents, data);
    ExpectPut(Empty, Put(Word(Contents), data));
    ExpectPut(Executable, Put(Word(Empty), Put(Word(Contents), data)));
  }

  lemma SymlinkComplete(target: Bytes, rest: Bytes)
    requires |target| <= MAX_STRING && Utf8(target)
    ensures ParseSymlink(Put(Word(Target), Put(target, rest))) == Ok((Symlink(target), rest))
  {
    hide Put, Word, ReadStr, ExpectStr, Utf8;
    ExpectPut(Target, Put(target, rest));
    ReadStrExact(Put(target, rest), target, rest);
  }

  lemma {:induction false} NodeComplete(node: Node, rest: Bytes, depth: nat, maxDepth: nat)
    requires depth <= maxDepth < U16
    requires WellFormed(node) && WithinDepth(Nesting(node), depth, maxDepth)
    ensures ParseNodeInner(SerOnto(node, rest), depth, maxDepth) == Ok((node, rest))
    decreases node, 1
  {
    hide Put, Word, ReadStr, ExpectStr, Utf8, ParseRegular, ParseSymlink, FileOnto, EntriesOnto, ParseEntries;
    hide EntriesNesting;
    WordsDistinct();
    var end := Put(Word(Close), rest);
    ExpectPut(Close, rest);
    match node
    case Regular(executable, contents) =>
      var body := FileOnto(executable, contents, end);
      RegularComplete(executable, contents, end);
      ExpectPut(RegularKind, body);
      ExpectPut(Type, Put(Word(RegularKind), body));
      ExpectPut(Open, Put(Word(Type), Put(Word(RegularKind), body)));
    case Symlink(target) =>
      var body := Put(Word(Target), Put(target, end));
      SymlinkComplete(target, end);
      ExpectPut(SymlinkKind, body);
      ExpectPut(Type, Put(Word(SymlinkKind), body));
      ExpectPut(Open, Put(Word(Type), Put(Word(SymlinkKind), body)));
    case Directory(entries) =>
      var body := EntriesOnto(entries, end);
      ExpectPut(DirectoryKind, body);
      ExpectPut(Type, Put(Word(DirectoryKind), body));
      ExpectPut(Open, Put(Word(Type), Put(Word(DirectoryKind), body)));
      DepthOfDirectory(entries, depth, maxDepth);
      EntriesComplete(entries, rest, None, (depth + 1) % U16, maxDepth);
  }

  lemma {:induction false} EntriesComplete(entries: seq<Entry>, rest: Bytes, last: Option<Bytes>, depth: nat,
      maxDepth: nat)
    requires depth <= maxDepth < U16
    requires WellFormedEntries(entries, last) && WithinDepth(EntriesNesting(entries), depth, maxDepth)
    ensures ParseEntries(EntriesOnto(entries, Put(Word(Close), rest)), last, depth, maxDepth) == Ok((entries, rest))
    decreases entries, 0
  {
    hide Put, Word, ReadStr, ExpectStr, Utf8, SerOnto, ParseNodeInner, Nesting, NameFault, Less, WellFormed;
    WordsDistinct();
    if entries == [] {
      ExpectPut(Close, rest);
    } else {
      var e, more := entries[0], EntriesOnto(entries[1..], Put(Word(Close), rest));
      ExpectPut(EntryKey, EntryOnto(e, more));
      EntriesComplete(entries[1..], rest, Some(e.name), depth, maxDepth);
      NodeComplete(e.node, Put(Word(Close), more), depth, maxDepth);
      EntryComplete(e, more, last, depth, maxDepth);
      assert entries == [e] + entries[1..];
    }
  }

  /** An entry is read back as soon as its node is. */
  lemma EntryComplete(e: Entry, more: Bytes, last: Option<Bytes>, depth: nat, maxDepth: nat)
    requires depth <= maxDepth < U16 && WellFormedEntry(e, last)
    requires ParseNodeInner(SerOnto(e.node, Put(Word(Close), more)), depth, maxDepth)
             == Ok((e.node, Put(Word(Close), more)))
    ensures ParseEntry(EntryOnto(e, more), last, depth, maxDepth) == Ok((e, more))
  {
    hide Put, Word, ReadStr, ExpectStr, Utf8, SerOnto, ParseNodeInner, Nesting, NameFault, Less, WellFormed;
    var node := SerOnto(e.node, Put(Word(Close), more));
    ExpectPut(Close, more);
    ExpectPut(NodeKey, node);
    var named := Put(e.name, Put(Word(NodeKey), node));
    ReadStrExact(named, e.name, Put(Word(NodeKey), node));
    ExpectPut(NameKey, named);
    ExpectPut(Open, Put(Word(NameKey), named));
    if last.Some? {
      OrderIsTotal(e.name, last.value);
    }
  }

  //////////////////////////////////////////////////////////////////////////////
  // The language of the parser
  //////////////////////////////////////////////////////////////////////////////

  /** The parser of nested nodes accepts exactly the serializations of well-formed trees within the
      depth limit, and returns that tree and whatever follows it. */
  lemma ParseNodeExact(b: Bytes, node: Node, rest: Bytes, depth: nat, maxDepth: nat)
    requires depth <= maxDepth < U16
    ensures ParseNodeInner(b, depth, maxDepth) == Ok((node, rest)) <==>
            WellFormed(node) && WithinDepth(Nesting(node), depth, maxDepth) && b == Ser(node) + rest
  {
    hide ParseNodeInner, SerOnto, WellFormed, Nesting;
    SerPrefix(node, rest);
    if ParseNodeInner(b, depth, maxDepth) == Ok((node, rest)) {
      NodeSound(b, depth, maxDepth);
    }
    if WellFormed(node) && WithinDepth(Nesting(node), depth, maxDepth) {
      NodeComplete(node, rest, depth, maxDepth);
    }
  }

  /** No serialization is a prefix of another: trees and what follows them are determined by the bytes. */
  lemma SerializationIsPrefixFree(t: Node, u: Node, a: Bytes, b: Bytes)
    requires WellFormed(t) && WellFormed(u) && Ser(t) + a == Ser(u) + b
    ensures t == u && a == b
  {
    hide ParseNodeInner, SerOnto, WellFormed, Nesting;
    ParseNodeExact(Ser(t) + a, t, a, 0, U16 - 1);
    ParseNodeExact(Ser(u) + b, u, b, 0, U16 - 1);
  }

  /** The bytes the root entry point reads for a tree: a directory needs one closing token too many. */
  function ArchiveOf(node: Node): Bytes {
    Str(Word(Magic)) + Ser(node) + (if node.Directory? then Str(Word(Close)) else [])
  }

  lemma ParseNodeViaInner(b: Bytes, node: Node, rest: Bytes, depth: nat, maxDepth: nat)
    requires depth <= maxDepth < U16
    ensures ParseNode(b, depth, maxDepth) == Ok((node, rest)) <==>
            ParseNodeInner(b, depth, maxDepth) == Ok((node, if node.Directory? then Put(Word(Close), rest) else rest))
  {
    hide Put, Word, ReadStr, ExpectStr, ParseRegular, ParseSymlink, ParseEntries;
    WordsDistinct();
    if ExpectStr(b, Open).Ok? && ExpectStr(ExpectStr(b, Open).value, Type).Ok? {
      var b2 := ExpectStr(ExpectStr(b, Open).value, Type).value;
      if ReadStr(b2).Ok? {
        var (kind, b3) := ReadStr(b2).value;
        if kind == Word(RegularKind) {
          if ParseRegular(b3).Ok? { RegularSound(b3); }
        } else if kind == Word(SymlinkKind) {
          if ParseSymlink(b3).Ok? { SymlinkSound(b3); }
        } else if kind == Word(DirectoryKind) && ParseDirectory(b3, depth, maxDepth).Ok? {
          ExpectStrExact(ParseDirectory(b3, depth, maxDepth).value.1, Close, rest);
        }
      }
    }
  }

  /** Exactly which streams the archive parser accepts, for which tree, and what it leaves unread. */
  lemma ParseArchiveExact(b: Bytes, node: Node, rest: Bytes, maxDepth: nat)
    requires maxDepth < U16
    ensures ParseArchive(b, maxDepth) == Ok((node, rest)) <==>
            WellFormed(node) && WithinDepth(Nesting(node), 0, maxDepth) && b == ArchiveOf(node) + rest
  {
    hide Word, ExpectStr, ParseNode, ParseNodeInner, Ser, WellFormed, Nesting, Str;
    var body := if node.Directory? then Put(Word(Close), rest) else rest;
    var archive := ArchiveOf(node) + rest;
    assert archive == Put(Word(Magic), Ser(node) + body);
    ExpectStrExact(archive, Magic, Ser(node) + body);
    if ExpectStr(b, Magic).Ok? {
      var b1 := ExpectStr(b, Magic).value;
      ExpectStrExact(b, Magic, b1);
      ParseNodeViaInner(b1, node, rest, 0, maxDepth);
      ParseNodeExact(b1, node, body, 0, maxDepth);
    }
  }

  /** A canonical directory archive, the form every other tool writes, ends where the root entry
      point wants one more token: it is always rejected. */
  lemma CanonicalDirectoryRejected(entries: seq<Entry>, maxDepth: nat)
    requires maxDepth < U16
    requires WellFormed(Directory(entries)) && WithinDepth(Nesting(Directory(entries)), 0, maxDepth)
    ensures ParseArchive(Str(Word(Magic)) + Ser(Directory(entries)), maxDepth) == Err(NarParse(UnexpectedEof))
    ensures ParseNodeInner(Ser(Directory(entries)), 0, maxDepth) == Ok((Directory(entries), []))
  {
    hide Word, ExpectStr, ReadStr, ParseEntries, Ser, WellFormed, Nesting, Str;
    var node := Directory(entries);
    var s := Ser(node);
    assert s + [] == s;
    ParseNodeExact(s, node, [], 0, maxDepth);
    assert Str(Word(Magic)) + s == Put(Word(Magic), s);
    ExpectPut(Magic, s);
    KindOfInner(s, node, [], 0, maxDepth);
    EmptyStream(Close);
  }

  lemma EmptyStream(token: Token)
    ensures ExpectStr([], token) == Err(NarParse(UnexpectedEof))
  {
  }

  lemma KindOfInner(b: Bytes, node: Node, rest: Bytes, depth: nat, maxDepth: nat)
    requires depth <= maxDepth < U16
    requires ParseNodeInner(b, depth, maxDepth) == Ok((node, rest)) && node.Directory?
    ensures ExpectStr(b, Open).Ok? && ExpectStr(ExpectStr(b, Open).value, Type).Ok?
    ensures var b2 := ExpectStr(ExpectStr(b, Open).value, Type).value;
            && ReadStr(b2).Ok? && ReadStr(b2).value.0 == Word(DirectoryKind)
            && ParseDirectory(ReadStr(b2).value.1, depth, maxDepth) == Ok((node, rest))
  {
    hide Word, ReadStr, ExpectStr, ParseRegular, ParseSymlink, ParseDirectory;
    WordsDistinct();
    var b2 := ExpectStr(ExpectStr(b, Open).value, Type).value;
    var (kind, b3) := ReadStr(b2).value;
    if ParseRegular(b3).Ok? { RegularSound(b3); }
    if ParseSymlink(b3).Ok? { SymlinkSound(b3); }
  }

  //////////////////////////////////////////////////////////////////////////////
  // Names in a directory are distinct
  //////////////////////////////////////////////////////////////////////////////

  lemma {:induction false} NamesAbove(entries: seq<Entry>, last: Option<Bytes>, i: nat)
    requires WellFormedEntries(entries, last) && i < |entries|
    ensures Above(entries[i].name, last) && ValidName(entries[i].name) && WellFormed(entries[i].node)
    decreases |entries|
  {
    if i > 0 {
      NamesAbove(entries[1..], Some(entries[0].name), i - 1);
      if last.Some? {
        OrderIsTransitive(last.value, entries[0].name, entries[i].name);
      }
    }
  }

  lemma {:induction false} NamesAscend(entries: seq<Entry>, last: Option<Bytes>, i: nat, j: nat)
    requires WellFormedEntries(entries, last) && i < j < |entries|
    ensures Less(entries[i].name, entries[j].name) && entries[i].name != entries[j].name
    ensures Before(entries[i].name, entries[j].name)
    decreases |entries|
  {
    if i > 0 {
      NamesAscend(entries[1..], Some(entries[0].name), i - 1, j - 1);
    } else {
      NamesAbove(entries[1..], Some(entries[0].name), j - 1);
      OrderIsTotal(entries[i].name, entries[j].name);
      LessMeaning(entries[i].name, entries[j].name);
    }
  }
}
