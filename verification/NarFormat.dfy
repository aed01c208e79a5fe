/**
 What the format asks of an archive, said apart from the functions of the parser:
 UTF-8 as the encoding of characters, strings on the wire byte by byte, the rules
 for names and directories by index, and the words as text.
 */
module NarFormat {
  import opened Outcomes
  import opened Text
  import opened Base32
  import opened Nar

  //////////////////////////////////////////////////////////////////////////////
  // UTF-8 is the encoding of characters
  //////////////////////////////////////////////////////////////////////////////

  /** The bytes of a scalar value, as numbers (section 3 of RFC 3629). */
  function ScalarValues(c: char): (v: seq<nat>)
    ensures 1 <= |v| <= 4
  {
    var n: nat := c as int;
    if n < 0x80 then [n]
    else if n < 0x800 then [0xC0 + n / 64, 0x80 + n % 64]
    else if n < 0x10000 then [0xE0 + n / 64 / 64, 0x80 + n / 64 % 64, 0x80 + n % 64]
    else [0xF0 + n / 64 / 64 / 64, 0x80 + n / 64 / 64 % 64, 0x80 + n / 64 % 64, 0x80 + n % 64]
  }

  function Values(b: Bytes): seq<nat> { seq(|b|, i requires 0 <= i < |b| => b[i] as nat) }

  function OfValues(v: seq<nat>): (b: Bytes)
    ensures |b| == |v|
  {
    seq(|v|, i requires 0 <= i < |v| => ByteOf(v[i]))
  }

  function ScalarBytes(c: char): (b: Bytes)
    ensures 1 <= |b| <= 4
  {
    OfValues(ScalarValues(c))
  }

  function TextBytes(text: string): Bytes {
    if text == "" then [] else ScalarBytes(text[0]) + TextBytes(text[1..])
  }

  predicate Tail(v: nat) { 0x80 <= v < 0xC0 }

  /** `ScalarLength` on the values of the bytes. */
  function ValueLength(v: seq<nat>): nat
    requires v != []
  {
    if v[0] < 0x80 then 1
    else if 0xC2 <= v[0] <= 0xDF && |v| >= 2 && Tail(v[1]) then 2
    else if |v| >= 3 && Tail(v[1]) && Tail(v[2])
            && ((v[0] == 0xE0 && v[1] >= 0xA0) || 0xE1 <= v[0] <= 0xEC || (v[0] == 0xED && v[1] <= 0x9F)
                || 0xEE <= v[0] <= 0xEF) then 3
    else if |v| >= 4 && Tail(v[1]) && Tail(v[2]) && Tail(v[3])
            && ((v[0] == 0xF0 && v[1] >= 0x90) || 0xF1 <= v[0] <= 0xF3 || (v[0] == 0xF4 && v[1] <= 0x8F)) then 4
    else 0
  }

  lemma LengthByValue(b: Bytes)
    requires b != []
    ensures ScalarLength(b) == ValueLength(Values(b))
  {
  }

  lemma ValuesBack(v: seq<nat>, rest: Bytes)
    requires forall i :: 0 <= i < |v| ==> v[i] < 256
    ensures Values(OfValues(v) + rest) == v + Values(rest)
  {
    hide ByteOf;
    forall i | 0 <= i < |v|
      ensures ByteOf(v[i]) as nat == v[i]
    {
      ByteOfValue(v[i]);
    }
  }

  lemma ScalarValuesRead(c: char, rest: seq<nat>)
    ensures forall i :: 0 <= i < |ScalarValues(c)| ==> ScalarValues(c)[i] < 256
    ensures ValueLength(ScalarValues(c) + rest) == |ScalarValues(c)|
  {
  }

  lemma ScalarIsRead(c: char, rest: Bytes)
    ensures ScalarLength(ScalarBytes(c) + rest) == |ScalarBytes(c)|
  {
    hide ByteOf, ScalarLength, ScalarValues, ValueLength;
    ScalarValuesRead(c, Values(rest));
    ValuesBack(ScalarValues(c), rest);
    LengthByValue(ScalarBytes(c) + rest);
  }

  lemma Base64Digits(a: nat, b: nat)
    requires b < 64
    ensures (a * 64 + b) / 64 == a && (a * 64 + b) % 64 == b
  {
  }

  /** What is read as a scalar value is the encoding of one. */
  lemma ReadTwo(x: nat, y: nat) returns (c: char)
    requires 0xC2 <= x <= 0xDF && Tail(y)
    ensures ScalarValues(c) == [x, y]
  {
    Base64Digits(x - 0xC0, y - 0x80);
    c := ((x - 0xC0) * 64 + (y - 0x80)) as char;
  }

  lemma ReadThree(x: nat, y: nat, z: nat) returns (c: char)
    requires ValueLength([x, y, z]) == 3
    ensures ScalarValues(c) == [x, y, z]
  {
    var high := (x - 0xE0) * 64 + (y - 0x80);
    Base64Digits(x - 0xE0, y - 0x80);
    Base64Digits(high, z - 0x80);
    c := (high * 64 + (z - 0x80)) as char;
  }

  lemma ReadFour(x: nat, y: nat, z: nat, u: nat) returns (c: char)
    requires ValueLength([x, y, z, u]) == 4
    ensures ScalarValues(c) == [x, y, z, u]
  {
    var high := (x - 0xF0) * 64 + (y - 0x80);
    var mid := high * 64 + (z - 0x80);
    Base64Digits(x - 0xF0, y - 0x80);
    Base64Digits(high, z - 0x80);
    Base64Digits(mid, u - 0x80);
    c := (mid * 64 + (u - 0x80)) as char;
  }

  lemma ValuesRead(v: seq<nat>) returns (c: char)
    requires v != [] && ValueLength(v) > 0
    ensures ValueLength(v) <= |v| && ScalarValues(c) == v[..ValueLength(v)]
  {
    var k := ValueLength(v);
    if k == 1 {
      c := v[0] as char;
    } else if k == 2 {
      c := ReadTwo(v[0], v[1]);
    } else if k == 3 {
      c := ReadThree(v[0], v[1], v[2]);
    } else {
      c := ReadFour(v[0], v[1], v[2], v[3]);
    }
  }

  lemma ReadIsScalar(b: Bytes) returns (c: char)
    requires b != [] && ScalarLength(b) > 0
    ensures ScalarBytes(c) == b[..ScalarLength(b)]
  {
    LengthByValue(b);
    hide ByteOf, ScalarLength, ValueLength, ScalarValues;
    c := ValuesRead(Values(b));
    forall i | 0 <= i < ScalarLength(b)
      ensures ByteOf(Values(b)[i]) == b[i]
    {
      ByteOfValue(b[i] as nat);
      ByteValueInjective(ByteOf(b[i] as nat), b[i]);
    }
  }

  lemma {:induction false} TextIsUtf8(text: string)
    ensures Utf8(TextBytes(text))
  {
    hide ScalarBytes, ScalarLength;
    if text != "" {
      TextIsUtf8(text[1..]);
      ScalarIsRead(text[0], TextBytes(text[1..]));
      var b := TextBytes(text);
      assert b[ScalarLength(b)..] == TextBytes(text[1..]);
    }
  }

  lemma {:induction false} Utf8IsText(b: Bytes) returns (text: string)
    requires Utf8(b)
    ensures TextBytes(text) == b
    decreases |b|
  {
    hide ScalarBytes, ScalarLength;
    if b == [] {
      text := "";
    } else {
      var c := ReadIsScalar(b);
      var more := Utf8IsText(b[ScalarLength(b)..]);
      text := [c] + more;
      assert text[1..] == more;
      assert b == b[..ScalarLength(b)] + b[ScalarLength(b)..];
    }
  }

  /** The strings that the parser takes for text are exactly the encodings of sequences of characters. */
  lemma Utf8Exactly(b: Bytes)
    ensures Utf8(b) <==> exists text: string :: TextBytes(text) == b
  {
    if Utf8(b) {
      var text := Utf8IsText(b);
    }
    forall text: string | TextBytes(text) == b
      ensures Utf8(b)
    {
      TextIsUtf8(text);
    }
  }

  /** The length that slices are counted in is that of the encoding. */
  lemma {:induction false} ByteLenIsEncodedLength(text: string)
    ensures ByteLen(text) == |TextBytes(text)|
  {
    if text != "" {
      ByteLenIsEncodedLength(text[1..]);
    }
  }

  lemma {:induction false} AsciiIsText(s: string)
    requires IsAscii(s)
    ensures Ascii(s) == TextBytes(s)
  {
    if s != "" {
      AsciiIsText(s[1..]);
      OneCharacter(s[0]);
      AsciiMore(s);
      hide ScalarBytes, Ascii;
    }
  }

  lemma AsciiMore(s: string)
    requires s != ""
    ensures Ascii(s) == [(s[0] as int % 256) as bv8] + Ascii(s[1..])
  {
  }

  lemma OneCharacter(c: char)
    requires c as int < 128
    ensures ScalarBytes(c) == [(c as int % 256) as bv8]
  {
    hide ByteOf;
    var n: nat := c as int;
    ByteOfValue(n);
    AsciiCode(n);
    ByteValueInjective(ByteOf(n), (n % 256) as bv8);
  }

  lemma AsciiCode(n: nat)
    requires n < 128
    ensures (n % 256) as bv8 as nat == n
  {
  }

  //////////////////////////////////////////////////////////////////////////////
  // Strings on the wire
  //////////////////////////////////////////////////////////////////////////////

  /** A string is its length in eight bytes, least significant first, the data, and fewer than eight zeros up to a
      multiple of eight. */
  lemma StringOnTheWire(d: Bytes)
    requires |d| <= 134_217_728
    ensures var s := Str(d);
            && |s| % 8 == 0 && 8 + |d| <= |s| < 16 + |d|
            && BytesValue(s[..8]) == |d|
            && s[8..8 + |d|] == d
            && forall i :: 8 + |d| <= i < |s| ==> s[i] == 0
  {
    LengthFits(|d|);
    LeBytesValue(|d|, 8);
    Padded(|d|);
    hide LeBytes, BytesValue, Pow256, PadLength, Zeros;
    assert forall i :: 0 <= i < PadLength(|d|) ==> Zeros(PadLength(|d|))[i] == 0 by { ZerosAreZero(PadLength(|d|)); }
    ThreeParts(LeBytes(|d|, 8), d, Zeros(PadLength(|d|)));
  }

  lemma Padded(n: nat)
    ensures |Zeros(PadLength(n))| == PadLength(n) < 8 && (8 + n + PadLength(n)) % 8 == 0
  {
  }

  lemma ZerosAreZero(n: nat)
    ensures |Zeros(n)| == n && forall i :: 0 <= i < n ==> Zeros(n)[i] == 0
  {
  }

  lemma ThreeParts(a: Bytes, b: Bytes, c: Bytes)
    ensures var s := a + b + c;
            && |s| == |a| + |b| + |c| && s[..|a|] == a && s[|a|..|a| + |b|] == b
            && forall i :: |a| + |b| <= i < |s| ==> s[i] == c[i - |a| - |b|]
  {
  }

  //////////////////////////////////////////////////////////////////////////////
  // The grammar
  //////////////////////////////////////////////////////////////////////////////

  function Words(words: seq<string>): seq<Bytes> {
    seq(|words|, i requires 0 <= i < |words| => TextBytes(words[i]))
  }

  /** The strings of a tree, one after the other. */
  function Phrase(node: Node): seq<Bytes>
    decreases node, 1
  {
    match node
    case Regular(executable, contents) =>
      Words(["(", "type", "regular"]) + (if executable then Words(["executable", ""]) else [])
      + Words(["contents"]) + [contents] + Words([")"])
    case Symlink(target) => Words(["(", "type", "symlink", "target"]) + [target] + Words([")"])
    case Directory(entries) => Words(["(", "type", "directory"]) + EntryPhrases(entries) + Words([")"])
  }

  function EntryPhrases(entries: seq<Entry>): seq<Bytes>
    decreases entries, 0
  {
    if entries == [] then []
    else
      Words(["entry", "(", "name"]) + [entries[0].name] + Words(["node"]) + Phrase(entries[0].node) + Words([")"])
      + EntryPhrases(entries[1..])
  }

  function OnTheWire(strings: seq<Bytes>): Bytes {
    if strings == [] then [] else Str(strings[0]) + OnTheWire(strings[1..])
  }

  lemma {:induction false} WireAppend(a: seq<Bytes>, b: seq<Bytes>)
    ensures OnTheWire(a + b) == OnTheWire(a) + OnTheWire(b)
  {
    hide Str;
    if a == [] {
      assert a + b == b;
    } else {
      assert (a + b)[1..] == a[1..] + b;
      WireAppend(a[1..], b);
    }
  }

  lemma WordIsText(t: Token)
    ensures Word(t) == TextBytes(Spelling(t))
  {
    AsciiIsText(Spelling(t));
    hide TextBytes, Ascii;
  }

  /** Strings in front of the rest of a stream. */
  function PutAll(strings: seq<Bytes>, rest: Bytes): Bytes {
    if strings == [] then rest else Put(strings[0], PutAll(strings[1..], rest))
  }

  lemma {:induction false} PutAllAppend(a: seq<Bytes>, b: seq<Bytes>, rest: Bytes)
    ensures PutAll(a + b, rest) == PutAll(a, PutAll(b, rest))
  {
    hide Put;
    if a == [] {
      assert a + b == b;
    } else {
      assert (a + b)[1..] == a[1..] + b;
      PutAllAppend(a[1..], b, rest);
    }
  }

  lemma {:induction false} PutAllIsWire(strings: seq<Bytes>)
    ensures PutAll(strings, []) == OnTheWire(strings)
  {
    hide Str;
    if strings != [] {
      PutAllIsWire(strings[1..]);
    }
  }

  lemma PutOne(a: Bytes, rest: Bytes)
    ensures PutAll([a], rest) == Put(a, rest)
  {
    hide Put;
    assert [a][1..] == [];
  }

  lemma PutThree(a: Bytes, b: Bytes, c: Bytes, rest: Bytes)
    ensures PutAll([a, b, c], rest) == Put(a, Put(b, Put(c, rest)))
  {
    hide Put;
    assert [a, b, c] == [a] + ([b] + [c]);
    PutAllAppend([a], [b] + [c], rest);
    PutAllAppend([b], [c], rest);
    PutOne(c, rest);
    PutOne(b, Put(c, rest));
    PutOne(a, Put(b, Put(c, rest)));
  }

  lemma WordsOne(t: Token, rest: Bytes)
    ensures PutAll(Words([Spelling(t)]), rest) == Put(Word(t), rest)
  {
    hide Put, TextBytes, Word, Spelling;
    WordIsText(t);
    assert Words([Spelling(t)]) == [Word(t)];
    PutOne(Word(t), rest);
  }

  lemma WordsThree(t: Token, u: Token, v: Token, rest: Bytes)
    ensures PutAll(Words([Spelling(t), Spelling(u), Spelling(v)]), rest)
         == Put(Word(t), Put(Word(u), Put(Word(v), rest)))
  {
    hide Put, TextBytes, Word, Spelling;
    WordIsText(t);
    WordIsText(u);
    WordIsText(v);
    assert Words([Spelling(t), Spelling(u), Spelling(v)]) == [Word(t), Word(u), Word(v)];
    PutThree(Word(t), Word(u), Word(v), rest);
  }

  lemma TwoWords(a: string, b: string)
    ensures Words([a]) + Words([b]) == Words([a, b])
  {
    hide TextBytes;
  }

  lemma NoStrings(rest: Bytes)
    ensures PutAll([], rest) == rest
  {
  }

  lemma FilePhrase(executable: bool, contents: Bytes, rest: Bytes)
    ensures PutAll(Phrase(Regular(executable, contents)), rest) == SerOnto(Regular(executable, contents), rest)
  {
    hide Put, Word, PutAll, Words;
    var close := Put(Word(Close), rest);
    var body := Put(Word(Contents), Put(contents, close));
    var head, middle, contents' := Words(["(", "type", "regular"]),
        (if executable then Words(["executable", ""]) else []), Words(["contents"]);
    WordsOne(Close, rest);
    PutOne(contents, close);
    WordsOne(Contents, Put(contents, close));
    PutAllAppend(head + middle + contents' + [contents], Words([")"]), rest);
    PutAllAppend(head + middle + contents', [contents], close);
    PutAllAppend(head + middle, contents', Put(contents, close));
    PutAllAppend(head, middle, body);
    WordsThree(Open, Type, RegularKind, PutAll(middle, body));
    if executable {
      WordsOne(Executable, Put(Word(Empty), body));
      WordsOne(Empty, body);
      PutAllAppend(Words(["executable"]), Words([""]), body);
      TwoWords("executable", "");
    } else {
      NoStrings(body);
    }
  }

  lemma LinkPhrase(target: Bytes, rest: Bytes)
    ensures PutAll(Phrase(Symlink(target)), rest) == SerOnto(Symlink(target), rest)
  {
    hide Put, Word, PutAll, Words;
    var close := Put(Word(Close), rest);
    WordsOne(Close, rest);
    PutOne(target, close);
    PutAllAppend(Words(["(", "type", "symlink", "target"]) + [target], Words([")"]), rest);
    PutAllAppend(Words(["(", "type", "symlink", "target"]), [target], close);
    FourWords("(", "type", "symlink", "target");
    PutAllAppend(Words(["(", "type", "symlink"]), Words(["target"]), Put(target, close));
    WordsOne(Target, Put(target, close));
    WordsThree(Open, Type, SymlinkKind, Put(Word(Target), Put(target, close)));
  }

  lemma FourWords(a: string, b: string, c: string, d: string)
    ensures Words([a, b, c]) + Words([d]) == Words([a, b, c, d])
  {
    hide TextBytes;
  }

  lemma DirectoryPhrase(phrases: seq<Bytes>, body: Bytes, rest: Bytes)
    requires PutAll(phrases, Put(Word(Close), rest)) == body
    ensures PutAll(Words(["(", "type", "directory"]) + phrases + Words([")"]), rest)
         == Put(Word(Open), Put(Word(Type), Put(Word(DirectoryKind), body)))
  {
    hide Put, Word, PutAll, Words;
    WordsOne(Close, rest);
    PutAllAppend(Words(["(", "type", "directory"]) + phrases, Words([")"]), rest);
    PutAllAppend(Words(["(", "type", "directory"]), phrases, Put(Word(Close), rest));
    WordsThree(Open, Type, DirectoryKind, body);
  }

  lemma EntryPhrase(name: Bytes, phrase: seq<Bytes>, node: Bytes, more: seq<Bytes>, tail: Bytes, rest: Bytes)
    requires PutAll(more, rest) == tail && PutAll(phrase, Put(Word(Close), tail)) == node
    ensures PutAll(Words(["entry", "(", "name"]) + [name] + Words(["node"]) + phrase + Words([")"]) + more, rest)
         == Put(Word(EntryKey), Put(Word(Open), Put(Word(NameKey), Put(name, Put(Word(NodeKey), node)))))
  {
    hide Put, Word, PutAll, Words;
    var head, key := Words(["entry", "(", "name"]), Words(["node"]);
    PutAllAppend(head + [name] + key + phrase + Words([")"]), more, rest);
    PutAllAppend(head + [name] + key + phrase, Words([")"]), tail);
    WordsOne(Close, tail);
    PutAllAppend(head + [name] + key, phrase, Put(Word(Close), tail));
    PutAllAppend(head + [name], key, node);
    WordsOne(NodeKey, node);
    PutAllAppend(head, [name], Put(Word(NodeKey), node));
    PutOne(name, Put(Word(NodeKey), node));
    WordsThree(EntryKey, Open, NameKey, Put(name, Put(Word(NodeKey), node)));
  }

  lemma {:induction false} PhraseOnto(node: Node, rest: Bytes)
    ensures PutAll(Phrase(node), rest) == SerOnto(node, rest)
    decreases node, 1
  {
    hide Put, Word, PutAll, Words;
    match node
    case Regular(executable, contents) => FilePhrase(executable, contents, rest);
    case Symlink(target) => LinkPhrase(target, rest);
    case Directory(entries) =>
      EntryPhrasesOnto(entries, Put(Word(Close), rest));
      hide EntriesOnto, EntryPhrases;
      DirectoryPhrase(EntryPhrases(entries), EntriesOnto(entries, Put(Word(Close), rest)), rest);
  }

  lemma {:induction false} EntryPhrasesOnto(entries: seq<Entry>, rest: Bytes)
    ensures PutAll(EntryPhrases(entries), rest) == EntriesOnto(entries, rest)
    decreases entries, 0
  {
    hide Put, Word, PutAll, Words, SerOnto, Phrase;
    if entries == [] {
      NoStrings(rest);
    } else {
      var tail := EntriesOnto(entries[1..], rest);
      EntryPhrasesOnto(entries[1..], rest);
      PhraseOnto(entries[0].node, Put(Word(Close), tail));
      EntryPhrase(entries[0].name, Phrase(entries[0].node), SerOnto(entries[0].node, Put(Word(Close), tail)),
        EntryPhrases(entries[1..]), tail, rest);
    }
  }

  /** The serialization is the grammar of the format, word by word. */
  lemma SerializationIsGrammar(node: Node)
    ensures Ser(node) == OnTheWire(Phrase(node))
    ensures Str(Word(Magic)) == OnTheWire(Words(["nix-archive-1"]))
  {
    hide SerOnto, Phrase, Word, Put, Words;
    PhraseOnto(node, []);
    PutAllIsWire(Phrase(node));
    PutAllIsWire(Words(["nix-archive-1"]));
    WordsOne(Magic, []);
    PutNothing(Word(Magic));
  }

  lemma PutNothing(d: Bytes)
    ensures Put(d, []) == Str(d)
  {
  }

  //////////////////////////////////////////////////////////////////////////////
  // Directories
  //////////////////////////////////////////////////////////////////////////////

  lemma ScalarInjective(c: char, d: char)
    requires ScalarValues(c) == ScalarValues(d)
    ensures c == d
  {
    var m: nat, n: nat := c as int, d as int;
    assert m % 64 == n % 64 || m < 0x80;
    assert c as int == d as int;
  }

  lemma {:induction false} TextInjective(a: string, b: string)
    requires TextBytes(a) == TextBytes(b)
    ensures a == b
  {
    if a != "" && b != "" {
      var x := TextBytes(a);
      ScalarIsRead(a[0], TextBytes(a[1..]));
      ScalarIsRead(b[0], TextBytes(b[1..]));
      var k := ScalarLength(x);
      assert x[..k] == ScalarBytes(a[0]) == ScalarBytes(b[0]);
      assert x[k..] == TextBytes(a[1..]) == TextBytes(b[1..]);
      TextInjective(a[1..], b[1..]);
      SameBytesSameScalar(a[0], b[0]);
      assert a == [a[0]] + a[1..] && b == [b[0]] + b[1..];
    }
  }

  lemma SameBytesSameScalar(c: char, d: char)
    requires ScalarBytes(c) == ScalarBytes(d)
    ensures c == d
  {
    hide ByteOf, ScalarValues;
    ScalarValuesRead(c, []);
    ScalarValuesRead(d, []);
    ValuesBack(ScalarValues(c), []);
    ValuesBack(ScalarValues(d), []);
    assert ScalarBytes(c) + [] == ScalarBytes(d) + [];
    assert ScalarValues(c) + Values([]) == ScalarValues(c) && ScalarValues(d) + Values([]) == ScalarValues(d);
    ScalarInjective(c, d);
  }

  /** A byte below 128 stands for itself. */
  lemma {:induction false} AsciiByteIn(text: string, c: char)
    requires c as int < 128
    ensures c in text <==> (c as int % 256) as bv8 in TextBytes(text)
  {
    hide ScalarBytes;
    if text != "" {
      AsciiByteIn(text[1..], c);
      AsciiByteOfScalar(text[0], c);
      assert text == [text[0]] + text[1..];
    }
  }

  lemma AsciiByteOfScalar(d: char, c: char)
    requires c as int < 128
    ensures d == c <==> (c as int % 256) as bv8 in ScalarBytes(d)
  {
    hide ByteOf;
    var x, v := (c as int % 256) as bv8, ScalarValues(d);
    AsciiCode(c as int);
    if d as int < 128 {
      OneCharacter(d);
      AsciiCode(d as int);
    } else {
      HighValues(d);
      forall i | 0 <= i < |v|
        ensures ByteOf(v[i]) != x
      {
        ByteOfValue(v[i]);
      }
    }
  }

  lemma HighValues(d: char)
    requires d as int >= 128
    ensures forall i :: 0 <= i < |ScalarValues(d)| ==> 128 <= ScalarValues(d)[i] < 256
  {
  }

  /** A name in a directory: text of one character or more, no slash, no zero byte, and not `.` or `..`. */
  ghost predicate EntryName(name: Bytes) {
    && |name| <= 134_217_728
    && exists text: string :: TextBytes(text) == name && PlainText(text)
  }

  predicate PlainText(text: string) {
    text != "" && text != "." && text != ".." && '/' !in text && '\0' !in text
  }

  lemma DotNames(text: string)
    ensures TextBytes(text) == [] <==> text == ""
    ensures TextBytes(text) == Ascii(".") <==> text == "."
    ensures TextBytes(text) == Ascii("..") <==> text == ".."
  {
    AsciiIsText(".");
    AsciiIsText("..");
    assert TextBytes("") == [];
    hide TextBytes, Ascii;
    if TextBytes(text) == TextBytes(".") { TextInjective(text, "."); }
    if TextBytes(text) == TextBytes("..") { TextInjective(text, ".."); }
    if TextBytes(text) == [] { TextInjective(text, ""); }
  }

  lemma PlainTextIsValid(text: string)
    ensures ValidName(TextBytes(text)) <==> PlainText(text)
  {
    DotNames(text);
    hide TextBytes, Ascii;
    AsciiByteIn(text, '/');
    AsciiByteIn(text, '\0');
    assert ('/' as int % 256) as bv8 == 0x2f && ('\0' as int % 256) as bv8 == 0;
  }

  lemma NameExactly(name: Bytes)
    ensures |name| <= MAX_STRING && Utf8(name) && ValidName(name) <==> EntryName(name)
  {
    hide Utf8, ValidName, TextBytes, PlainText;
    Utf8Exactly(name);
    if Utf8(name) {
      var text :| TextBytes(text) == name;
      PlainTextIsValid(text);
    }
    if EntryName(name) {
      var text :| TextBytes(text) == name && PlainText(text);
      PlainTextIsValid(text);
    }
  }

  ghost predicate Ascending(entries: seq<Entry>) {
    forall i, j :: 0 <= i < j < |entries| ==> Before(entries[i].name, entries[j].name)
  }

  lemma {:induction false} EntriesFromIndices(entries: seq<Entry>, last: Option<Bytes>)
    requires forall i :: 0 <= i < |entries| ==> EntryName(entries[i].name) && WellFormed(entries[i].node)
    requires Ascending(entries) && (entries != [] ==> Above(entries[0].name, last))
    ensures WellFormedEntries(entries, last)
    decreases |entries|
  {
    if entries != [] {
      NameExactly(entries[0].name);
      if |entries| > 1 {
        LessMeaning(entries[0].name, entries[1].name);
      }
      hide EntryName, ValidName, Utf8, Less, Before;
      EntriesFromIndices(entries[1..], Some(entries[0].name));
    }
  }

  lemma {:induction false} NamesOfEntries(entries: seq<Entry>, last: Option<Bytes>, i: nat)
    requires WellFormedEntries(entries, last) && i < |entries|
    ensures EntryName(entries[i].name)
    decreases |entries|
  {
    hide EntryName, ValidName, Utf8;
    if i == 0 {
      NameExactly(entries[0].name);
    } else {
      NamesOfEntries(entries[1..], Some(entries[0].name), i - 1);
    }
  }

  /** A directory is well formed exactly when its names are such text, each before the next ones bytewise, and its
      nodes are well formed. */
  lemma DirectoryExactly(entries: seq<Entry>)
    ensures WellFormed(Directory(entries)) <==>
            && (forall i :: 0 <= i < |entries| ==> EntryName(entries[i].name) && WellFormed(entries[i].node))
            && Ascending(entries)
  {
    hide EntryName, Before, WellFormedEntries;
    if WellFormed(Directory(entries)) {
      forall i | 0 <= i < |entries|
        ensures EntryName(entries[i].name) && WellFormed(entries[i].node)
      {
        NamesOfEntries(entries, None, i);
        NamesAbove(entries, None, i);
      }
      forall i, j | 0 <= i < j < |entries|
        ensures Before(entries[i].name, entries[j].name)
      {
        NamesAscend(entries, None, i, j);
      }
    } else if (forall i :: 0 <= i < |entries| ==> EntryName(entries[i].name) && WellFormed(entries[i].node))
        && Ascending(entries) {
      EntriesFromIndices(entries, None);
    }
  }

  /** Files and links are bounded, and a target is text. */
  lemma LeavesExactly(executable: bool, bytes: Bytes)
    ensures WellFormed(Regular(executable, bytes)) <==> |bytes| <= 134_217_728
    ensures WellFormed(Symlink(bytes)) <==> |bytes| <= 134_217_728 && exists text: string :: TextBytes(text) == bytes
  {
    Utf8Exactly(bytes);
  }
}
