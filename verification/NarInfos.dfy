/**
 `.narinfo` files (`narinfo.rs`): the line-oriented parser with its accumulators,
 proved to invert the documented text form for every order of the lines, and the
 signature fingerprint.
 */
module NarInfos {
  import opened Outcomes
  import opened Text
  import opened Base32
  import opened StorePaths

  datatype Compression = Uncompressed | Xz | Bzip2 | Zstd | Br | Lzip | Lz4

  function ParseCompression(s: string): Option<Compression> {
    if s == "none" then Some(Uncompressed)
    else if s == "xz" then Some(Xz)
    else if s == "bzip2" then Some(Bzip2)
    else if s == "zstd" then Some(Zstd)
    else if s == "br" then Some(Br)
    else if s == "lzip" then Some(Lzip)
    else if s == "lz4" then Some(Lz4)
    else None
  }

  function DisplayCompression(c: Compression): string {
    match c
    case Uncompressed => "none"
    case Xz => "xz"
    case Bzip2 => "bzip2"
    case Zstd => "zstd"
    case Br => "br"
    case Lzip => "lzip"
    case Lz4 => "lz4"
  }

  /** A signature is a key name and opaque bytes; `SignatureCodec` stands for its base64 text form. */
  datatype Signature = Signature(keyName: string, blob: seq<bv8>)

  datatype SignatureCodec = SignatureCodec(decode: string -> Option<seq<bv8>>, encode: seq<bv8> -> string)

  datatype NarInfo = NarInfo(
    storePath: StorePath,
    url: string,
    compression: Compression,
    fileHash: NixHash,
    fileSize: nat,
    narHash: NixHash,
    narSize: nat,
    references: seq<string>,
    deriver: Option<string>,
    signatures: seq<Signature>,
    ca: Option<string>)

  //////////////////////////////////////////////////////////////////////////////
  // One line
  //////////////////////////////////////////////////////////////////////////////

  /** What a line says, once its value has been parsed. */
  datatype Field =
    | FStorePath(sp: StorePath)
    | FUrl(text: string)
    | FCompression(compression: Compression)
    | FFileHash(hash: NixHash)
    | FFileSize(size: nat)
    | FNarHash(hash: NixHash)
    | FNarSize(size: nat)
    | FReferences(refs: seq<string>)
    | FDeriver(text: string)
    | FSig(sig: Signature)
    | FCa(text: string)
    | FNothing

  function ParseReferences(words: seq<string>): Outcome<seq<string>, Error> {
    if words == [] then Ok([])
    else
      var _ :- ParseBasename(words[0]);
      var more :- ParseReferences(words[1..]);
      Ok([words[0]] + more)
  }

  function ParseSignature(s: string, codec: SignatureCodec): Outcome<Signature, Error> {
    match SplitOnce(s, ":")
    case None => Err(NarInfoParse(MissingSeparator))
    case Some((keyName, text)) =>
      match codec.decode(text)
      case None => Err(NarInfoParse(InvalidSignature))
      case Some(blob) => if |blob| == 64 then Ok(Signature(keyName, blob)) else Err(NarInfoParse(InvalidSignature))
  }

  function ParseSize(s: string): Outcome<nat, Error> {
    match ParseU64(s)
    case None => Err(NarInfoParse(InvalidSize))
    case Some(n) => Ok(n)
  }

  function ParseField(key: string, value: string, codec: SignatureCodec): Outcome<Field, Error> {
    if key == "StorePath" then
      var sp :- Parse(value);
      Ok(FStorePath(sp))
    else if key == "URL" then Ok(FUrl(value))
    else if key == "Compression" then
      match ParseCompression(value)
      case None => Err(NarInfoParse(UnknownCompression))
      case Some(c) => Ok(FCompression(c))
    else if key == "FileHash" then
      var h :- ParseHash(value);
      Ok(FFileHash(h))
    else if key == "FileSize" then
      var n :- ParseSize(value);
      Ok(FFileSize(n))
    else if key == "NarHash" then
      var h :- ParseHash(value);
      Ok(FNarHash(h))
    else if key == "NarSize" then
      var n :- ParseSize(value);
      Ok(FNarSize(n))
    else if key == "References" then
      if value == "" then Ok(FNothing)
      else
        var refs :- ParseReferences(SplitWhitespace(value));
        Ok(FReferences(refs))
    else if key == "Deriver" then Ok(FDeriver(value))
    else if key == "Sig" then
      var sig :- ParseSignature(value, codec);
      Ok(FSig(sig))
    else if key == "CA" then Ok(FCa(value))
    else Ok(FNothing)
  }

  function ParseLine(raw: string, codec: SignatureCodec): Outcome<Field, Error> {
    var line := Trim(raw);
    if line == "" then Ok(FNothing)
    else
      match SplitOnce(line, ": ")
      case None => Err(NarInfoParse(MalformedLine))
      case Some((key, value)) => ParseField(key, value, codec)
  }

  //////////////////////////////////////////////////////////////////////////////
  // The accumulators
  //////////////////////////////////////////////////////////////////////////////

  datatype Partial = Partial(
    storePath: Option<StorePath>,
    url: Option<string>,
    compression: Option<Compression>,
    fileHash: Option<NixHash>,
    fileSize: Option<nat>,
    narHash: Option<NixHash>,
    narSize: Option<nat>,
    references: seq<string>,
    deriver: Option<string>,
    signatures: seq<Signature>,
    ca: Option<string>)

  const NOTHING_YET: Partial := Partial(None, None, None, None, None, None, None, [], None, [], None)

  function Record(acc: Partial, f: Field): Partial {
    match f
    case FStorePath(sp) => acc.(storePath := Some(sp))
    case FUrl(text) => acc.(url := Some(text))
    case FCompression(c) => acc.(compression := Some(c))
    case FFileHash(h) => acc.(fileHash := Some(h))
    case FFileSize(n) => acc.(fileSize := Some(n))
    case FNarHash(h) => acc.(narHash := Some(h))
    case FNarSize(n) => acc.(narSize := Some(n))
    case FReferences(refs) => acc.(references := refs)
    case FDeriver(text) => acc.(deriver := Some(text))
    case FSig(sig) => acc.(signatures := acc.signatures + [sig])
    case FCa(text) => acc.(ca := Some(text))
    case FNothing => acc
  }

  function RecordAll(acc: Partial, fields: seq<Field>): Partial {
    if fields == [] then acc else Record(RecordAll(acc, fields[..|fields| - 1]), fields[|fields| - 1])
  }

  /** The parsed lines, or the first failure. */
  function ParseLines(lines: seq<string>, codec: SignatureCodec): Outcome<seq<Field>, Error> {
    if lines == [] then Ok([])
    else
      var init :- ParseLines(lines[..|lines| - 1], codec);
      var f :- ParseLine(lines[|lines| - 1], codec);
      Ok(init + [f])
  }

  /** The missing-field checks, in the order of the source. */
  function Finish(acc: Partial): Outcome<NarInfo, Error> {
    if acc.storePath.None? then Err(NarInfoParse(MissingField("StorePath")))
    else if acc.url.None? then Err(NarInfoParse(MissingField("URL")))
    else if acc.compression.None? then Err(NarInfoParse(MissingField("Compression")))
    else if acc.fileHash.None? then Err(NarInfoParse(MissingField("FileHash")))
    else if acc.fileSize.None? then Err(NarInfoParse(MissingField("FileSize")))
    else if acc.narHash.None? then Err(NarInfoParse(MissingField("NarHash")))
    else if acc.narSize.None? then Err(NarInfoParse(MissingField("NarSize")))
    else
      Ok(NarInfo(acc.storePath.value, acc.url.value, acc.compression.value, acc.fileHash.value, acc.fileSize.value,
        acc.narHash.value, acc.narSize.value, acc.references, acc.deriver, acc.signatures, acc.ca))
  }

  function ParseText(input: string, codec: SignatureCodec): Outcome<NarInfo, Error> {
    var fields :- ParseLines(Lines(input), codec);
    Finish(RecordAll(NOTHING_YET, fields))
  }

  /** The parser as written: one pass over the lines with mutable accumulators. */
  method ParseNarInfo(input: string, codec: SignatureCodec) returns (r: Outcome<NarInfo, Error>)
    ensures r == ParseText(input, codec)
  {
    hide ParseLine, Record, Lines;
    var lines := Lines(input);
    var acc := NOTHING_YET;
    ghost var fields: seq<Field> := [];
    var i := 0;
    while i < |lines|
      invariant 0 <= i <= |lines|
      invariant ParseLines(lines[..i], codec) == Ok(fields)
      invariant acc == RecordAll(NOTHING_YET, fields)
    {
      assert lines[..i + 1][..i] == lines[..i];
      var f := ParseLine(lines[i], codec);
      if !f.Ok? {
        LinesFail(lines, i + 1, codec);
        return f.PropagateFailure();
      }
      acc := Record(acc, f.value);
      assert (fields + [f.value])[..|fields|] == fields;
      fields := fields + [f.value];
      i := i + 1;
    }
    assert lines[..i] == lines;
    r := Finish(acc);
  }

  lemma {:induction false} LinesFail(lines: seq<string>, i: nat, codec: SignatureCodec)
    requires i <= |lines| && !ParseLines(lines[..i], codec).Ok?
    ensures ParseLines(lines, codec) == ParseLines(lines[..i], codec)
    decreases |lines|
  {
    hide ParseLine;
    if i < |lines| {
      var init := lines[..|lines| - 1];
      assert init[..i] == lines[..i];
      LinesFail(init, i, codec);
    } else {
      assert lines[..i] == lines;
    }
  }

  //////////////////////////////////////////////////////////////////////////////
  // The text form
  //////////////////////////////////////////////////////////////////////////////

  function Key(f: Field): string {
    match f
    case FStorePath(_) => "StorePath"
    case FUrl(_) => "URL"
    case FCompression(_) => "Compression"
    case FFileHash(_) => "FileHash"
    case FFileSize(_) => "FileSize"
    case FNarHash(_) => "NarHash"
    case FNarSize(_) => "NarSize"
    case FReferences(_) => "References"
    case FDeriver(_) => "Deriver"
    case FSig(_) => "Sig"
    case FCa(_) => "CA"
    case FNothing => "X"
  }

  function FieldText(f: Field, codec: SignatureCodec): string {
    match f
    case FStorePath(sp) => Display(sp)
    case FUrl(text) => text
    case FCompression(c) => DisplayCompression(c)
    case FFileHash(h) => DisplayHash(h)
    case FFileSize(n) => Decimal(n)
    case FNarHash(h) => DisplayHash(h)
    case FNarSize(n) => Decimal(n)
    case FReferences(refs) => JoinWith(refs, " ")
    case FDeriver(text) => text
    case FSig(sig) => sig.keyName + ":" + codec.encode(sig.blob)
    case FCa(text) => text
    case FNothing => "x"
  }

  function Line(f: Field, codec: SignatureCodec): string { Key(f) + ": " + FieldText(f, codec) }

  function Document(fields: seq<Field>, codec: SignatureCodec): string {
    Unlines(seq(|fields|, i requires 0 <= i < |fields| => Line(fields[i], codec)))
  }

  predicate Plain(s: string) { s != "" && NoWhitespace(s) }

  /** Neither a newline nor a trailing white space. */
  predicate VisibleName(name: string) { name != "" && '\n' !in name && !IsWhitespace(name[|name| - 1]) }

  /** A value that the text form can carry. */
  predicate PrintableField(f: Field, codec: SignatureCodec) {
    match f
    case FStorePath(sp) => Valid(sp) && VisibleName(sp.name)
    case FUrl(text) => VisibleEnds(text)
    case FCompression(_) => true
    case FFileHash(h) => |h.digest| == DigestLen(h.algo)
    case FFileSize(n) => n < U64
    case FNarHash(h) => |h.digest| == DigestLen(h.algo)
    case FNarSize(n) => n < U64
    case FReferences(refs) => refs != [] && forall i :: 0 <= i < |refs| ==> Plain(refs[i]) && ParseBasename(refs[i]).Ok?
    case FDeriver(text) => VisibleEnds(text)
    case FSig(sig) =>
      && NoWhitespace(sig.keyName) && ':' !in sig.keyName && |sig.blob| == 64
      && codec.decode(codec.encode(sig.blob)) == Some(sig.blob) && Plain(codec.encode(sig.blob))
    case FCa(text) => VisibleEnds(text)
    case FNothing => true
  }

  lemma EncodedVisible(bytes: seq<bv8>, i: nat)
    requires i < |Encode(bytes)|
    ensures !IsWhitespace(Encode(bytes)[i])
  {
    hide IsWhitespace, Digit;
    var n := EncodedLength(|bytes|) - 1 - i;
    EncodedAt(bytes, n);
    hide Encode;
    AlphabetBelow(Digit(bytes, n) as nat);
  }

  lemma EncodedHasNoWhitespace(bytes: seq<bv8>)
    ensures NoWhitespace(Encode(bytes))
  {
    hide IsWhitespace, Encode, Digit;
    var s := Encode(bytes);
    forall i | 0 <= i < |s|
      ensures !IsWhitespace(s[i])
    {
      EncodedVisible(bytes, i);
    }
  }

  /** Each value's text has no newline, begins and ends with a visible character, and reads back. */
  lemma FieldReadsBack(f: Field, codec: SignatureCodec)
    requires PrintableField(f, codec)
    ensures ParseField(Key(f), FieldText(f, codec), codec) == Ok(f)
    ensures VisibleEnds(FieldText(f, codec))
  {
    hide Parse, ParseHash, Encode, Decimal, ParseU64, SplitWhitespace, ParseBasename, IsWhitespace, JoinWith, SplitOnce;
    match f
    case FStorePath(sp) =>
      PrintThenParse(sp);
      EncodedHasNoWhitespace(sp.hash);
      VisibleStorePath(sp);
    case FFileHash(h) =>
      HashPrintThenParse(h);
      PlainHash(h);
      PlainVisible(DisplayHash(h));
    case FNarHash(h) =>
      HashPrintThenParse(h);
      PlainHash(h);
      PlainVisible(DisplayHash(h));
    case FFileSize(n) =>
      ParseOfDecimal(n);
      PlainVisible(Decimal(n));
    case FNarSize(n) =>
      ParseOfDecimal(n);
      PlainVisible(Decimal(n));
    case FReferences(refs) =>
      SplitWhitespaceOfJoin(refs);
      ReferencesReadBack(refs);
      JoinVisible(refs);
    case FSig(sig) =>
      SplitOnceFirst(sig.keyName, ":", codec.encode(sig.blob));
      PlainColon(sig.keyName, codec.encode(sig.blob));
      PlainVisible(FieldText(f, codec));
    case FCompression(c) => PlainCompression(c);
    case FNothing => PlainX();
    case FUrl(text) =>
    case FDeriver(text) =>
    case FCa(text) =>
  }

  /** Non-empty, with no newline, and neither end is whitespace. */
  predicate VisibleEnds(s: string) { s != "" && Trimmed(s) && '\n' !in s }

  lemma PlainVisible(s: string)
    requires Plain(s)
    ensures VisibleEnds(s)
  {
    assert IsWhitespace('\n');
  }

  lemma PlainX()
    ensures VisibleEnds("x")
  {
  }

  lemma PlainCompression(c: Compression)
    ensures VisibleEnds(DisplayCompression(c))
  {
  }

  lemma PlainColon(a: string, b: string)
    requires NoWhitespace(a) && Plain(b)
    ensures Plain(a + ":" + b)
  {
  }

  lemma VisibleStorePath(sp: StorePath)
    requires VisibleName(sp.name) && NoWhitespace(Encode(sp.hash))
    ensures VisibleEnds(Display(sp))
  {
    hide Encode;
    assert IsWhitespace('\n') && !IsWhitespace('/');
    hide IsWhitespace;
    var text := Display(sp);
    assert text[0] == '/' && text[|text| - 1] == sp.name[|sp.name| - 1];
    assert '\n' !in Encode(sp.hash);
  }

  lemma PlainHash(h: NixHash)
    ensures Plain(DisplayHash(h))
  {
    EncodedHasNoWhitespace(h.digest);
    hide Encode;
  }

  lemma {:induction false} ReferencesReadBack(refs: seq<string>)
    requires forall i :: 0 <= i < |refs| ==> ParseBasename(refs[i]).Ok?
    ensures ParseReferences(refs) == Ok(refs)
  {
    hide ParseBasename;
    if refs != [] {
      ReferencesReadBack(refs[1..]);
      assert refs == [refs[0]] + refs[1..];
    }
  }

  lemma {:induction false} JoinVisible(refs: seq<string>)
    requires refs != [] && forall i :: 0 <= i < |refs| ==> Plain(refs[i])
    ensures VisibleEnds(JoinWith(refs, " "))
  {
    PlainVisible(refs[0]);
    if |refs| > 1 {
      JoinVisible(refs[1..]);
      hide IsWhitespace;
      var s := refs[0] + " " + JoinWith(refs[1..], " ");
      assert s[0] == refs[0][0];
      assert s[|s| - 1] == JoinWith(refs[1..], " ")[|JoinWith(refs[1..], " ")| - 1];
    }
  }

  lemma KeyShape(f: Field)
    ensures VisibleEnds(Key(f)) && ':' !in Key(f)
  {
  }

  /** A key and a value with visible ends make a line that splits into them again. */
  lemma KeyValueLine(key: string, text: string)
    requires VisibleEnds(key) && ':' !in key && VisibleEnds(text)
    ensures var line := key + ": " + text;
            line != "" && Trim(line) == line && SplitOnce(line, ": ") == Some((key, text)) && PlainLine(line)
  {
    assert IsWhitespace('\r');
    hide IsWhitespace, SplitOnce, Trim;
    var line := key + ": " + text;
    assert line[0] == key[0] && line[|line| - 1] == text[|text| - 1];
    TrimPlain(line);
    SplitOnceFirst(key, ": ", text);
  }

  lemma LineReadsBack(f: Field, codec: SignatureCodec)
    requires PrintableField(f, codec)
    ensures ParseLine(Line(f, codec), codec) == Ok(f)
    ensures PlainLine(Line(f, codec))
  {
    hide ParseField, PrintableField, FieldText, Key, SplitOnce, Trim, PlainLine, VisibleEnds;
    FieldReadsBack(f, codec);
    KeyShape(f);
    KeyValueLine(Key(f), FieldText(f, codec));
  }

  lemma {:induction false} LinesReadBack(fields: seq<Field>, codec: SignatureCodec)
    requires forall i :: 0 <= i < |fields| ==> PrintableField(fields[i], codec)
    ensures ParseLines(seq(|fields|, i requires 0 <= i < |fields| => Line(fields[i], codec)), codec) == Ok(fields)
  {
    hide ParseLine, PrintableField, Line;
    var lines := seq(|fields|, i requires 0 <= i < |fields| => Line(fields[i], codec));
    if fields != [] {
      var init := fields[..|fields| - 1];
      LinesReadBack(init, codec);
      assert lines[..|lines| - 1] == seq(|init|, i requires 0 <= i < |init| => Line(init[i], codec));
      LineReadsBack(fields[|fields| - 1], codec);
      assert fields == init + [fields[|fields| - 1]];
    }
  }

  lemma DocumentReadsBack(fields: seq<Field>, codec: SignatureCodec)
    requires forall i :: 0 <= i < |fields| ==> PrintableField(fields[i], codec)
    ensures ParseText(Document(fields, codec), codec) == Finish(RecordAll(NOTHING_YET, fields))
  {
    hide PrintableField, Line, Lines, Unlines, Finish, RecordAll, ParseLines;
    var lines := seq(|fields|, i requires 0 <= i < |fields| => Line(fields[i], codec));
    forall i | 0 <= i < |lines|
      ensures PlainLine(lines[i])
    {
      LineReadsBack(fields[i], codec);
    }
    LinesOfUnlines(lines);
    LinesReadBack(fields, codec);
  }

  //////////////////////////////////////////////////////////////////////////////
  // Order of the lines
  //////////////////////////////////////////////////////////////////////////////

  function SigFields(sigs: seq<Signature>): seq<Field> { seq(|sigs|, i requires 0 <= i < |sigs| => FSig(sigs[i])) }

  /** The lines of a narinfo in the documented order. */
  function FieldsOf(ni: NarInfo): seq<Field> {
    [FStorePath(ni.storePath), FUrl(ni.url), FCompression(ni.compression), FFileHash(ni.fileHash),
        FFileSize(ni.fileSize),
     FNarHash(ni.narHash), FNarSize(ni.narSize), FReferences(ni.references)]
    + (if ni.deriver.Some? then [FDeriver(ni.deriver.value)] else [])
    + SigFields(ni.signatures)
    + (if ni.ca.Some? then [FCa(ni.ca.value)] else [])
  }

  function Signatures(fields: seq<Field>): seq<Signature> {
    if fields == [] then []
    else
      var init := Signatures(fields[..|fields| - 1]);
      if fields[|fields| - 1].FSig? then init + [fields[|fields| - 1].sig] else init
  }

  /** A line of this narinfo (signatures are compared as a sequence, separately). */
  predicate Belongs(f: Field, ni: NarInfo) {
    match f
    case FStorePath(sp) => sp == ni.storePath
    case FUrl(text) => text == ni.url
    case FCompression(c) => c == ni.compression
    case FFileHash(h) => h == ni.fileHash
    case FFileSize(n) => n == ni.fileSize
    case FNarHash(h) => h == ni.narHash
    case FNarSize(n) => n == ni.narSize
    case FReferences(refs) => refs == ni.references
    case FDeriver(text) => ni.deriver == Some(text)
    case FSig(_) => true
    case FCa(text) => ni.ca == Some(text)
    case FNothing => true
  }

  /** Some order, possibly with repetitions, of the lines of `ni`, keeping the signatures in sequence. */
  ghost predicate Arranges(fields: seq<Field>, ni: NarInfo) {
    && (forall f :: f in fields ==> Belongs(f, ni))
    && FStorePath(ni.storePath) in fields && FUrl(ni.url) in fields && FCompression(ni.compression) in fields
    && FFileHash(ni.fileHash) in fields && FFileSize(ni.fileSize) in fields
    && FNarHash(ni.narHash) in fields && FNarSize(ni.narSize) in fields
    && (FReferences(ni.references) in fields || ni.references == [])
    && (ni.deriver.Some? ==> FDeriver(ni.deriver.value) in fields)
    && (ni.ca.Some? ==> FCa(ni.ca.value) in fields)
    && Signatures(fields) == ni.signatures
  }

  function IfSeen<T>(seen: bool, value: T): Option<T> { if seen then Some(value) else None }

  /** The accumulators after reading lines that all belong to `ni`: a slot is filled exactly when its line was seen. */
  ghost predicate Recorded(acc: Partial, seen: set<Field>, sigs: seq<Signature>, ni: NarInfo) {
    && acc.storePath == IfSeen(FStorePath(ni.storePath) in seen, ni.storePath)
    && acc.url == IfSeen(FUrl(ni.url) in seen, ni.url)
    && acc.compression == IfSeen(FCompression(ni.compression) in seen, ni.compression)
    && acc.fileHash == IfSeen(FFileHash(ni.fileHash) in seen, ni.fileHash)
    && acc.fileSize == IfSeen(FFileSize(ni.fileSize) in seen, ni.fileSize)
    && acc.narHash == IfSeen(FNarHash(ni.narHash) in seen, ni.narHash)
    && acc.narSize == IfSeen(FNarSize(ni.narSize) in seen, ni.narSize)
    && acc.references == (if FReferences(ni.references) in seen then ni.references else [])
    && acc.deriver == (if ni.deriver.Some? && FDeriver(ni.deriver.value) in seen then ni.deriver else None)
    && acc.signatures == sigs
    && acc.ca == (if ni.ca.Some? && FCa(ni.ca.value) in seen then ni.ca else None)
  }

  predicate Early(f: Field) {
    f.FStorePath? || f.FUrl? || f.FCompression? || f.FFileHash? || f.FFileSize? || f.FNothing?
  }

  lemma RecordEarly(acc: Partial, seen: set<Field>, sigs: seq<Signature>, ni: NarInfo, f: Field)
    requires Recorded(acc, seen, sigs, ni) && Belongs(f, ni) && Early(f)
    ensures Recorded(Record(acc, f), seen + {f}, sigs, ni)
  {
    match f
    case FStorePath(_) =>
    case FUrl(_) =>
    case FCompression(_) =>
    case FFileHash(_) =>
    case FFileSize(_) =>
    case FNothing =>
  }

  lemma RecordLate(acc: Partial, seen: set<Field>, sigs: seq<Signature>, ni: NarInfo, f: Field)
    requires Recorded(acc, seen, sigs, ni) && Belongs(f, ni) && !Early(f)
    ensures Recorded(Record(acc, f), seen + {f}, if f.FSig? then sigs + [f.sig] else sigs, ni)
  {
    match f
    case FNarHash(_) =>
    case FNarSize(_) =>
    case FReferences(_) =>
    case FDeriver(_) =>
    case FSig(_) =>
    case FCa(_) =>
  }

  lemma RecordStep(acc: Partial, seen: set<Field>, sigs: seq<Signature>, ni: NarInfo, f: Field)
    requires Recorded(acc, seen, sigs, ni) && Belongs(f, ni)
    ensures Recorded(Record(acc, f), seen + {f}, if f.FSig? then sigs + [f.sig] else sigs, ni)
  {
    hide Recorded, Belongs, Record;
    if Early(f) {
      RecordEarly(acc, seen, sigs, ni, f);
    } else {
      RecordLate(acc, seen, sigs, ni, f);
    }
  }

  function Seen(fields: seq<Field>): set<Field> { set f | f in fields }

  lemma {:induction false} RecordedSoFar(fields: seq<Field>, ni: NarInfo)
    requires forall f :: f in fields ==> Belongs(f, ni)
    ensures Recorded(RecordAll(NOTHING_YET, fields), Seen(fields), Signatures(fields), ni)
  {
    if fields != [] {
      hide Record, Belongs, Recorded;
      var init, last := fields[..|fields| - 1], fields[|fields| - 1];
      RecordedSoFar(init, ni);
      RecordStep(RecordAll(NOTHING_YET, init), Seen(init), Signatures(init), ni, last);
      assert fields == init + [last];
      assert Seen(fields) == Seen(init) + {last};
    }
  }

  /** Every arrangement of the printed lines parses to the narinfo they came from. */
  lemma NarInfoRoundTrip(ni: NarInfo, fields: seq<Field>, codec: SignatureCodec)
    requires Arranges(fields, ni)
    requires forall i :: 0 <= i < |fields| ==> PrintableField(fields[i], codec)
    ensures ParseText(Document(fields, codec), codec) == Ok(ni)
  {
    hide ParseText, Document, PrintableField;
    DocumentReadsBack(fields, codec);
    RecordedSoFar(fields, ni);
  }

  lemma {:induction false} SignaturesAppend(a: seq<Field>, b: seq<Field>)
    ensures Signatures(a + b) == Signatures(a) + Signatures(b)
  {
    if b == [] {
      assert a + b == a;
    } else {
      assert (a + b)[..|a + b| - 1] == a + b[..|b| - 1];
      SignaturesAppend(a, b[..|b| - 1]);
    }
  }

  lemma {:induction false} SignaturesOfSigFields(sigs: seq<Signature>)
    ensures Signatures(SigFields(sigs)) == sigs
  {
    if sigs != [] {
      var fs := SigFields(sigs);
      assert fs[..|fs| - 1] == SigFields(sigs[..|sigs| - 1]);
      SignaturesOfSigFields(sigs[..|sigs| - 1]);
      assert sigs == sigs[..|sigs| - 1] + [sigs[|sigs| - 1]];
    }
  }

  lemma DocumentedSignatures(ni: NarInfo)
    ensures Signatures(FieldsOf(ni)) == ni.signatures
  {
    var head := [FStorePath(ni.storePath), FUrl(ni.url), FCompression(ni.compression), FFileHash(ni.fileHash),
                 FFileSize(ni.fileSize), FNarHash(ni.narHash), FNarSize(ni.narSize), FReferences(ni.references)];
    var deriver := if ni.deriver.Some? then [FDeriver(ni.deriver.value)] else [];
    var sigs := SigFields(ni.signatures);
    var ca := if ni.ca.Some? then [FCa(ni.ca.value)] else [];
    NoSignatures(head);
    NoSignatures(deriver);
    NoSignatures(ca);
    hide Signatures, SigFields;
    SignaturesOfSigFields(ni.signatures);
    SignaturesAppend(head, deriver);
    SignaturesAppend(head + deriver, sigs);
    SignaturesAppend(head + deriver + sigs, ca);
    assert [] + [] + ni.signatures + [] == ni.signatures;
  }

  lemma DocumentedFieldsBelong(ni: NarInfo, i: nat)
    requires i < |FieldsOf(ni)|
    ensures Belongs(FieldsOf(ni)[i], ni)
  {
    var fields := FieldsOf(ni);
    var tail := if ni.deriver.Some? then 9 else 8;
    if tail <= i < tail + |ni.signatures| {
      assert fields[i] == FSig(ni.signatures[i - tail]);
    } else if i >= 8 {
      assert fields[i] == if i < tail then FDeriver(ni.deriver.value) else FCa(ni.ca.value);
    }
  }

  lemma DocumentedFieldsPresent(ni: NarInfo)
    ensures var fields := FieldsOf(ni);
            && |fields| >= 8
            && fields[0] == FStorePath(ni.storePath) && fields[1] == FUrl(ni.url)
            && fields[2] == FCompression(ni.compression) && fields[3] == FFileHash(ni.fileHash)
            && fields[4] == FFileSize(ni.fileSize) && fields[5] == FNarHash(ni.narHash)
            && fields[6] == FNarSize(ni.narSize) && fields[7] == FReferences(ni.references)
            && (ni.deriver.Some? ==> |fields| > 8 && fields[8] == FDeriver(ni.deriver.value))
            && (ni.ca.Some? ==> fields[|fields| - 1] == FCa(ni.ca.value))
  {
    hide SigFields;
  }

  /** The documented order is one of the arrangements. */
  lemma DocumentedOrderArranges(ni: NarInfo)
    ensures Arranges(FieldsOf(ni), ni)
  {
    hide Signatures, Belongs, FieldsOf;
    DocumentedSignatures(ni);
    DocumentedFieldsPresent(ni);
    forall i | 0 <= i < |FieldsOf(ni)|
      ensures Belongs(FieldsOf(ni)[i], ni)
    {
      DocumentedFieldsBelong(ni, i);
    }
  }

  lemma {:induction false} NoSignatures(fields: seq<Field>)
    requires forall i :: 0 <= i < |fields| ==> !fields[i].FSig?
    ensures Signatures(fields) == []
  {
    if fields != [] {
      NoSignatures(fields[..|fields| - 1]);
    }
  }

  /** A `References:` line with nothing after it loses its space to `trim` and is then malformed:
      a narinfo with no references, printed with that line, never parses. */
  lemma EmptyReferencesRejected(before: seq<Field>, after: string, codec: SignatureCodec)
    requires forall i :: 0 <= i < |before| ==> PrintableField(before[i], codec)
    ensures ParseText(Document(before, codec) + "References: \n" + after, codec) == Err(NarInfoParse(MalformedLine))
  {
    hide PrintableField, Line, Lines, ParseLine, Unlines;
    var lines := seq(|before|, i requires 0 <= i < |before| => Line(before[i], codec));
    forall i | 0 <= i < |lines|
      ensures PlainLine(lines[i])
    {
      LineReadsBack(before[i], codec);
    }
    LinesReadBack(before, codec);
    var bare := "References: ";
    assert PlainLine(bare);
    LinesOfConcat(lines, bare, after);
    assert "References: \n" == bare + "\n";
    assert Unlines(lines) + "References: \n" + after == Unlines(lines) + bare + "\n" + after;
    var all := Lines(Document(before, codec) + "References: \n" + after);
    var upTo := lines + [bare];
    assert all == upTo + Lines(after);
    assert all[..|upTo|] == upTo;
    assert upTo[..|upTo| - 1] == lines;
    assert "References" + ": " == bare;
    BareKey("References", codec);
    LinesFail(all, |upTo|, codec);
  }

  lemma {:induction false} UnlinesAppend(a: seq<string>, b: seq<string>)
    ensures Unlines(a + b) == Unlines(a) + Unlines(b)
  {
    if a == [] {
      assert a + b == b;
    } else {
      assert (a + b)[1..] == a[1..] + b;
      UnlinesAppend(a[1..], b);
    }
  }

  lemma DocumentAppend(a: seq<Field>, b: seq<Field>, codec: SignatureCodec)
    ensures Document(a + b, codec) == Document(a, codec) + Document(b, codec)
  {
    hide Line;
    var la := seq(|a|, i requires 0 <= i < |a| => Line(a[i], codec));
    var lb := seq(|b|, i requires 0 <= i < |b| => Line(b[i], codec));
    UnlinesAppend(la, lb);
    assert seq(|a + b|, i requires 0 <= i < |a + b| => Line((a + b)[i], codec)) == la + lb;
  }

  /** A narinfo whose values the text form can carry; its reference list may be empty. */
  predicate Printable(ni: NarInfo, codec: SignatureCodec) {
    forall i :: 0 <= i < |FieldsOf(ni)| && FieldsOf(ni)[i] != FReferences([]) ==> PrintableField(FieldsOf(ni)[i], codec)
  }

  /** The documented text of a narinfo parses back to it exactly when it has references. */
  lemma DocumentedTextParsesExactly(ni: NarInfo, codec: SignatureCodec)
    requires Printable(ni, codec)
    ensures ParseText(Document(FieldsOf(ni), codec), codec) == Ok(ni) <==> ni.references != []
  {
    hide ParseText, Document, PrintableField;
    var fields := FieldsOf(ni);
    if ni.references != [] {
      DocumentedOrderArranges(ni);
      NoEmptyReferences(ni);
      hide FieldsOf;
      NarInfoRoundTrip(ni, fields, codec);
    } else {
      DocumentedFieldsPresent(ni);
      OnlyOneReferences(ni);
      hide FieldsOf;
      var before, after := fields[..7], fields[8..];
      assert fields == before + ([FReferences([])] + after);
      DocumentAppend(before, [FReferences([])] + after, codec);
      DocumentAppend([FReferences([])], after, codec);
      EmptyLine(codec);
      assert Document(before, codec) + ("References: \n" + Document(after, codec))
          == Document(before, codec) + "References: \n" + Document(after, codec);
      EmptyReferencesRejected(before, Document(after, codec), codec);
    }
  }

  lemma EmptyLine(codec: SignatureCodec)
    ensures Document([FReferences([])], codec) == "References: \n"
  {
    var f := FReferences([]);
    assert Line(f, codec) == "References: ";
    var lines := seq(|[f]|, i requires 0 <= i < |[f]| => Line([f][i], codec));
    assert lines == [Line(f, codec)];
    assert Unlines(lines) == lines[0] + "\n" + Unlines(lines[1..]);
  }

  /** The eighth line of the documented order is the only one for references. */
  lemma OnlyOneReferences(ni: NarInfo)
    ensures forall i :: 0 <= i < |FieldsOf(ni)| && FieldsOf(ni)[i].FReferences? ==> i == 7
  {
  }

  lemma NoEmptyReferences(ni: NarInfo)
    requires ni.references != []
    ensures forall i :: 0 <= i < |FieldsOf(ni)| ==> FieldsOf(ni)[i] != FReferences([])
  {
    hide FieldsOf;
    forall i | 0 <= i < |FieldsOf(ni)|
      ensures FieldsOf(ni)[i] != FReferences([])
    {
      DocumentedFieldsBelong(ni, i);
    }
  }

  /** A key with an empty value is malformed. */
  lemma BareKey(key: string, codec: SignatureCodec)
    requires key != "" && ':' !in key && NoWhitespace(key)
    ensures ParseLine(key + ": ", codec) == Err(NarInfoParse(MalformedLine))
  {
    var raw := key + ": ";
    assert TrimStart(raw) == raw;
    assert raw[..|raw| - 1] == key + ":";
    assert TrimEnd(raw) == TrimEnd(key + ":") == key + ":";
    ColonAtEnd(key);
  }

  lemma {:induction false} ColonAtEnd(a: string)
    requires ':' !in a
    ensures SplitOnce(a + ":", ": ") == None
  {
    var s := a + ":";
    if a == "" {
      assert s[1..] == "";
    } else {
      assert s[0] != ':';
      assert s[1..] == a[1..] + ":";
      ColonAtEnd(a[1..]);
    }
  }

  lemma LinesCons(line: string, rest: string)
    requires PlainLine(line)
    ensures Lines(line + "\n" + rest) == [line] + Lines(rest)
  {
    hide SplitOnce;
    SplitOnceFirst(line, "\n", rest);
  }

  lemma {:induction false} LinesOfConcat(lines: seq<string>, line: string, after: string)
    requires forall i :: 0 <= i < |lines| ==> PlainLine(lines[i])
    requires PlainLine(line)
    ensures Lines(Unlines(lines) + line + "\n" + after) == lines + [line] + Lines(after)
  {
    hide Lines, PlainLine;
    if lines == [] {
      LinesCons(line, after);
      assert Unlines(lines) + line + "\n" + after == line + "\n" + after;
      assert [] + [line] + Lines(after) == [line] + Lines(after);
    } else {
      var rest := Unlines(lines[1..]) + line + "\n" + after;
      LinesOfConcat(lines[1..], line, after);
      LinesCons(lines[0], rest);
      assert Unlines(lines) + line + "\n" + after == lines[0] + "\n" + rest;
      assert lines + [line] + Lines(after) == [lines[0]] + (lines[1..] + [line] + Lines(after));
    }
  }

  /** After `trim`, no line yields an empty value, so the empty-references case of the parser is dead code. */
  lemma ValuesAreNeverEmpty(raw: string)
    ensures SplitOnce(Trim(raw), ": ").Some? ==> SplitOnce(Trim(raw), ": ").value.1 != ""
  {
    var line := Trim(raw);
    TrimIsTrimmed(raw);
    SplitOnceJoins(line, ": ");
    if SplitOnce(line, ": ").Some? {
      var (key, value) := SplitOnce(line, ": ").value;
      var upTo := key + ": ";
      assert upTo[|upTo| - 1] == ' ';
      assert line == upTo + value;
      assert value == "" ==> line == upTo;
    }
  }

  /** Seven words are compressions, and nothing else is. */
  lemma ParseCompressionExactly(s: string, c: Compression)
    ensures ParseCompression(s) == Some(c) <==> s == DisplayCompression(c)
    ensures ParseCompression(s).None? <==>
            s != "none" && s != "xz" && s != "bzip2" && s != "zstd" && s != "br" && s != "lzip" && s != "lz4"
    ensures DisplayCompression(Uncompressed) == "none" && DisplayCompression(Xz) == "xz"
            && DisplayCompression(Bzip2) == "bzip2" && DisplayCompression(Zstd) == "zstd"
            && DisplayCompression(Br) == "br" && DisplayCompression(Lzip) == "lzip" && DisplayCompression(Lz4) == "lz4"
  {
    match c
    case Uncompressed => assert s == "none" <==> s == DisplayCompression(c);
    case Xz => assert s == "xz" <==> s == DisplayCompression(c);
    case Bzip2 => assert s == "bzip2" <==> s == DisplayCompression(c);
    case Zstd => assert s == "zstd" <==> s == DisplayCompression(c);
    case Br => assert s == "br" <==> s == DisplayCompression(c);
    case Lzip => assert s == "lzip" <==> s == DisplayCompression(c);
    case Lz4 => assert s == "lz4" <==> s == DisplayCompression(c);
  }

  /** A signature is a key name without a colon, a colon, and text that decodes to 64 bytes. */
  lemma ParseSignatureExactly(s: string, codec: SignatureCodec, sig: Signature)
    ensures ParseSignature(s, codec) == Ok(sig) <==>
            && ':' !in sig.keyName && |sig.blob| == 64
            && exists text :: s == sig.keyName + ":" + text && codec.decode(text) == Some(sig.blob)
  {
    hide SplitOnce;
    SplitOnceJoins(s, ":");
    if ParseSignature(s, codec) == Ok(sig) {
      var text := SplitOnce(s, ":").value.1;
      assert s == sig.keyName + ":" + text;
    }
    if ':' !in sig.keyName && |sig.blob| == 64 {
      forall text | s == sig.keyName + ":" + text && codec.decode(text) == Some(sig.blob)
        ensures ParseSignature(s, codec) == Ok(sig)
      {
        SplitOnceFirst(sig.keyName, ":", text);
      }
    }
  }
}
