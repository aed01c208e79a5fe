/**
 What any narinfo document means (`narinfo.rs`), line by line: which lines are
 accepted, which are ignored, which line decides each field, and what is missing.
 */
module NarInfoDocuments {
  import opened Outcomes
  import opened Text
  import opened StorePaths
  import opened NarInfos

  //////////////////////////////////////////////////////////////////////////////
  // Lines
  //////////////////////////////////////////////////////////////////////////////

  /** The line, without the white space around it, is `key: value`. */
  predicate Says(raw: string, key: string, value: string) { SplitOnce(Trim(raw), ": ") == Some((key, value)) }

  predicate Known(key: string) {
    || key == "StorePath" || key == "URL" || key == "Compression" || key == "FileHash" || key == "FileSize"
    || key == "NarHash" || key == "NarSize" || key == "References" || key == "Deriver" || key == "Sig" || key == "CA"
  }

  /** What the value of a key must be. */
  ghost predicate Acceptable(key: string, value: string, codec: SignatureCodec) {
    && (key == "StorePath" ==> Parse(value).Ok?)
    && (key == "Compression" ==> ParseCompression(value).Some?)
    && (key == "FileHash" || key == "NarHash" ==> ParseHash(value).Ok?)
    && (key == "FileSize" || key == "NarSize" ==> ParseU64(value).Some?)
    && (key == "References" ==> forall ref :: ref in SplitWhitespace(value) ==> ParseBasename(ref).Ok?)
    && (key == "Sig" ==> ParseSignature(value, codec).Ok?)
  }

  /** A line that the parser takes: blank, or a key with a value that suits it. */
  ghost predicate Accepted(raw: string, codec: SignatureCodec) {
    Trim(raw) == "" || exists key, value :: Says(raw, key, value) && Acceptable(key, value, codec)
  }

  lemma {:induction false} ReferencesAccepted(words: seq<string>)
    ensures ParseReferences(words).Ok? <==> forall ref :: ref in words ==> ParseBasename(ref).Ok?
    ensures ParseReferences(words).Ok? ==> ParseReferences(words).value == words
  {
    hide ParseBasename;
    if words != [] {
      ReferencesAccepted(words[1..]);
      assert words == [words[0]] + words[1..];
    }
  }

  /** What an accepted line adds to the accumulators. */
  ghost predicate Gives(key: string, value: string, codec: SignatureCodec, f: Field) {
    && (key == "StorePath" ==> f.FStorePath? && Parse(value) == Ok(f.sp))
    && (key == "URL" ==> f == FUrl(value))
    && (key == "Compression" ==> f.FCompression? && ParseCompression(value) == Some(f.compression))
    && (key == "FileHash" ==> f.FFileHash? && ParseHash(value) == Ok(f.hash))
    && (key == "FileSize" ==> f.FFileSize? && ParseU64(value) == Some(f.size))
    && (key == "NarHash" ==> f.FNarHash? && ParseHash(value) == Ok(f.hash))
    && (key == "NarSize" ==> f.FNarSize? && ParseU64(value) == Some(f.size))
    && (key == "References" ==> f == FReferences(SplitWhitespace(value)))
    && (key == "Deriver" ==> f == FDeriver(value))
    && (key == "Sig" ==> f.FSig? && ParseSignature(value, codec) == Ok(f.sig))
    && (key == "CA" ==> f == FCa(value))
    && (!Known(key) ==> f == FNothing)
  }

  lemma FieldExactly(key: string, value: string, codec: SignatureCodec)
    requires value != ""
    ensures ParseField(key, value, codec).Ok? <==> Acceptable(key, value, codec)
    ensures ParseField(key, value, codec).Ok? ==> Gives(key, value, codec, ParseField(key, value, codec).value)
  {
    hide Parse, ParseHash, ParseU64, SplitWhitespace, ParseSignature, ParseCompression, ParseReferences, ParseBasename;
    ReferencesAccepted(SplitWhitespace(value));
  }

  /** Exactly which lines the parser takes; a line with neither white space alone nor `: ` is malformed. */
  lemma LineExactly(raw: string, codec: SignatureCodec)
    ensures ParseLine(raw, codec).Ok? <==> Accepted(raw, codec)
    ensures Trim(raw) != "" && (forall key, value :: !Says(raw, key, value)) ==>
              ParseLine(raw, codec) == Err(NarInfoParse(MalformedLine))
  {
    hide ParseField, SplitOnce, Trim, Acceptable;
    ValuesAreNeverEmpty(raw);
    var split := SplitOnce(Trim(raw), ": ");
    if split.Some? {
      var (key, value) := split.value;
      assert Says(raw, key, value);
      FieldExactly(key, value, codec);
    }
  }

  lemma LineGives(raw: string, key: string, value: string, codec: SignatureCodec)
    requires Says(raw, key, value) && ParseLine(raw, codec).Ok?
    ensures Trim(raw) != "" && Gives(key, value, codec, ParseLine(raw, codec).value)
  {
    hide ParseField, Gives;
    ValuesAreNeverEmpty(raw);
    FieldExactly(key, value, codec);
  }

  lemma BlankGives(raw: string, codec: SignatureCodec)
    requires ParseLine(raw, codec).Ok? && SplitOnce(Trim(raw), ": ").None?
    ensures ParseLine(raw, codec).value == FNothing
  {
    hide ParseField, SplitOnce, Trim;
  }

  //////////////////////////////////////////////////////////////////////////////
  // Documents
  //////////////////////////////////////////////////////////////////////////////

  /** The value in the last line with a key. */
  function LastValue(lines: seq<string>, key: string): Option<string> {
    if lines == [] then None
    else
      match SplitOnce(Trim(lines[|lines| - 1]), ": ")
      case Some((k, value)) => if k == key then Some(value) else LastValue(lines[..|lines| - 1], key)
      case None => LastValue(lines[..|lines| - 1], key)
  }

  predicate IsLast(lines: seq<string>, key: string, value: string, i: nat) {
    && i < |lines| && Says(lines[i], key, value)
    && forall j :: i < j < |lines| ==> !HasKey(lines[j], key)
  }

  predicate HasKey(raw: string, key: string) {
    var split := SplitOnce(Trim(raw), ": ");
    split.Some? && split.value.0 == key
  }

  lemma {:induction false} LastValueMeaning(lines: seq<string>, key: string)
    ensures LastValue(lines, key).None? <==> forall i :: 0 <= i < |lines| ==> !HasKey(lines[i], key)
    ensures LastValue(lines, key).Some? ==>
              exists i: nat :: IsLast(lines, key, LastValue(lines, key).value, i)
  {
    hide SplitOnce, Trim;
    if lines != [] {
      var init, last := lines[..|lines| - 1], |lines| - 1;
      LastValueMeaning(init, key);
      if HasKey(lines[last], key) {
        assert IsLast(lines, key, LastValue(lines, key).value, last);
      } else if LastValue(init, key).Some? {
        var i: nat :| IsLast(init, key, LastValue(init, key).value, i);
        assert IsLast(lines, key, LastValue(lines, key).value, i);
      }
    }
  }

  /** The signatures of the `Sig` lines, in order. */
  function SignaturesIn(lines: seq<string>, codec: SignatureCodec): seq<Signature> {
    if lines == [] then []
    else
      var init := SignaturesIn(lines[..|lines| - 1], codec);
      match SplitOnce(Trim(lines[|lines| - 1]), ": ")
      case Some((k, value)) =>
        if k == "Sig" && ParseSignature(value, codec).Ok? then init + [ParseSignature(value, codec).value] else init
      case None => init
  }

  lemma {:induction false} LinesExactly(lines: seq<string>, codec: SignatureCodec)
    ensures ParseLines(lines, codec).Ok? <==> forall i :: 0 <= i < |lines| ==> Accepted(lines[i], codec)
  {
    hide ParseLine, Accepted;
    if lines != [] {
      LinesExactly(lines[..|lines| - 1], codec);
      LineExactly(lines[|lines| - 1], codec);
    }
  }

  /** The first line that is not accepted decides. */
  lemma FirstBadLine(lines: seq<string>, i: nat, codec: SignatureCodec)
    requires i < |lines| && !Accepted(lines[i], codec) && forall j :: 0 <= j < i ==> Accepted(lines[j], codec)
    ensures !ParseLine(lines[i], codec).Ok?
    ensures ParseLines(lines, codec) == ParseLine(lines[i], codec).PropagateFailure()
  {
    hide ParseLine, Accepted;
    LineExactly(lines[i], codec);
    LinesExactly(lines[..i], codec);
    var upTo := lines[..i + 1];
    assert upTo[..i] == lines[..i] && upTo[i] == lines[i];
    LinesFail(lines, i + 1, codec);
  }

  /** The deciding value of each key. */
  datatype Deciding = Deciding(
    storePath: Option<string>,
    url: Option<string>,
    compression: Option<string>,
    fileHash: Option<string>,
    fileSize: Option<string>,
    narHash: Option<string>,
    narSize: Option<string>,
    references: Option<string>,
    deriver: Option<string>,
    ca: Option<string>,
    signatures: seq<Signature>)

  function Decides(lines: seq<string>, codec: SignatureCodec): Deciding {
    Deciding(LastValue(lines, "StorePath"), LastValue(lines, "URL"), LastValue(lines, "Compression"),
      LastValue(lines, "FileHash"), LastValue(lines, "FileSize"), LastValue(lines, "NarHash"),
      LastValue(lines, "NarSize"), LastValue(lines, "References"), LastValue(lines, "Deriver"), LastValue(lines, "CA"),
      SignaturesIn(lines, codec))
  }

  /** The accumulators hold what the deciding values say. */
  ghost predicate Fills(d: Deciding, acc: Partial) {
    && d.storePath.Some? == acc.storePath.Some? && d.compression.Some? == acc.compression.Some?
    && d.fileHash.Some? == acc.fileHash.Some? && d.fileSize.Some? == acc.fileSize.Some?
    && d.narHash.Some? == acc.narHash.Some? && d.narSize.Some? == acc.narSize.Some?
    && (d.storePath.Some? ==> Parse(d.storePath.value) == Ok(acc.storePath.value))
    && acc.url == d.url
    && (d.compression.Some? ==> ParseCompression(d.compression.value) == acc.compression)
    && (d.fileHash.Some? ==> ParseHash(d.fileHash.value) == Ok(acc.fileHash.value))
    && (d.fileSize.Some? ==> ParseU64(d.fileSize.value) == acc.fileSize)
    && (d.narHash.Some? ==> ParseHash(d.narHash.value) == Ok(acc.narHash.value))
    && (d.narSize.Some? ==> ParseU64(d.narSize.value) == acc.narSize)
    && acc.references == (if d.references.None? then [] else SplitWhitespace(d.references.value))
    && acc.deriver == d.deriver && acc.signatures == d.signatures && acc.ca == d.ca
  }

  function Decided(d: Deciding, key: string, value: string, sigs: seq<Signature>): Deciding {
    if key == "StorePath" then d.(storePath := Some(value))
    else if key == "URL" then d.(url := Some(value))
    else if key == "Compression" then d.(compression := Some(value))
    else if key == "FileHash" then d.(fileHash := Some(value))
    else if key == "FileSize" then d.(fileSize := Some(value))
    else if key == "NarHash" then d.(narHash := Some(value))
    else if key == "NarSize" then d.(narSize := Some(value))
    else if key == "References" then d.(references := Some(value))
    else if key == "Deriver" then d.(deriver := Some(value))
    else if key == "CA" then d.(ca := Some(value))
    else if key == "Sig" then d.(signatures := sigs)
    else d
  }

  lemma FillsOne(d: Deciding, acc: Partial, key: string, value: string, codec: SignatureCodec, f: Field)
    requires Fills(d, acc) && Gives(key, value, codec, f)
    ensures Fills(Decided(d, key, value, if f.FSig? then d.signatures + [f.sig] else d.signatures), Record(acc, f))
  {
    hide Parse, ParseHash, ParseU64, ParseCompression, SplitWhitespace, ParseSignature;
    if Known(key) {
    } else {
      assert f == FNothing;
    }
  }

  lemma DecidesOneMore(init: seq<string>, raw: string, key: string, value: string, codec: SignatureCodec)
    requires Says(raw, key, value)
    ensures Decides(init + [raw], codec) == Decided(Decides(init, codec), key, value, SignaturesIn(init + [raw], codec))
    ensures SignaturesIn(init + [raw], codec) ==
            if key == "Sig" && ParseSignature(value, codec).Ok?
            then SignaturesIn(init, codec) + [ParseSignature(value, codec).value] else SignaturesIn(init, codec)
  {
    hide SplitOnce, Trim, ParseSignature;
    var lines := init + [raw];
    assert lines[..|lines| - 1] == init && lines[|lines| - 1] == raw;
  }

  lemma DecidesBlank(init: seq<string>, raw: string, codec: SignatureCodec)
    requires SplitOnce(Trim(raw), ": ").None?
    ensures Decides(init + [raw], codec) == Decides(init, codec)
  {
    hide SplitOnce, Trim, ParseSignature;
    var lines := init + [raw];
    assert lines[..|lines| - 1] == init && lines[|lines| - 1] == raw;
  }

  lemma OneMoreLine(init: seq<string>, raw: string, codec: SignatureCodec, acc: Partial)
    requires ParseLine(raw, codec).Ok? && Fills(Decides(init, codec), acc)
    ensures Fills(Decides(init + [raw], codec), Record(acc, ParseLine(raw, codec).value))
  {
    hide ParseLine, SplitOnce, Trim, Fills, Decides, Decided, ParseSignature, SignaturesIn;
    var split := SplitOnce(Trim(raw), ": ");
    var f := ParseLine(raw, codec).value;
    if split.Some? {
      var (key, value) := split.value;
      LineGives(raw, key, value, codec);
      DecidesOneMore(init, raw, key, value, codec);
      FillsOne(Decides(init, codec), acc, key, value, codec, f);
      SignaturesKept(init, raw, key, value, codec, f);
    } else {
      BlankGives(raw, codec);
      DecidesBlank(init, raw, codec);
    }
  }

  lemma SignaturesKept(init: seq<string>, raw: string, key: string, value: string, codec: SignatureCodec, f: Field)
    requires Says(raw, key, value) && Gives(key, value, codec, f)
    ensures var sigs := Decides(init, codec).signatures;
            SignaturesIn(init + [raw], codec) == if f.FSig? then sigs + [f.sig] else sigs
  {
    hide SplitOnce, Trim, ParseSignature, SignaturesIn;
    DecidesOneMore(init, raw, key, value, codec);
  }

  lemma {:induction false} LinesFill(lines: seq<string>, codec: SignatureCodec)
    requires ParseLines(lines, codec).Ok?
    ensures Fills(Decides(lines, codec), RecordAll(NOTHING_YET, ParseLines(lines, codec).value))
  {
    hide ParseLine, Fills, Record, Decides;
    if lines == [] {
      NothingFilled(codec);
    } else {
      var init, raw := lines[..|lines| - 1], lines[|lines| - 1];
      LinesFill(init, codec);
      var fields, f := ParseLines(init, codec).value, ParseLine(raw, codec).value;
      assert (fields + [f])[..|fields|] == fields;
      assert RecordAll(NOTHING_YET, fields + [f]) == Record(RecordAll(NOTHING_YET, fields), f);
      assert lines == init + [raw];
      OneMoreLine(init, raw, codec, RecordAll(NOTHING_YET, fields));
    }
  }

  lemma NothingFilled(codec: SignatureCodec)
    ensures Fills(Decides([], codec), NOTHING_YET)
  {
  }

  const REQUIRED: seq<string> := ["StorePath", "URL", "Compression", "FileHash", "FileSize", "NarHash", "NarSize"]

  /** The narinfo that lines describe: each field is the value of the last line with its key, the signatures are those
      of all `Sig` lines in order, and without a `References` line there are none. */
  ghost predicate Describes(lines: seq<string>, codec: SignatureCodec, ni: NarInfo) {
    && (forall k :: 0 <= k < |REQUIRED| ==> LastValue(lines, REQUIRED[k]).Some?)
    && LastValue(lines, "StorePath").Some? && Parse(LastValue(lines, "StorePath").value) == Ok(ni.storePath)
    && LastValue(lines, "URL") == Some(ni.url)
    && LastValue(lines, "Compression").Some?
    && ParseCompression(LastValue(lines, "Compression").value) == Some(ni.compression)
    && LastValue(lines, "FileHash").Some? && ParseHash(LastValue(lines, "FileHash").value) == Ok(ni.fileHash)
    && LastValue(lines, "FileSize").Some? && ParseU64(LastValue(lines, "FileSize").value) == Some(ni.fileSize)
    && LastValue(lines, "NarHash").Some? && ParseHash(LastValue(lines, "NarHash").value) == Ok(ni.narHash)
    && LastValue(lines, "NarSize").Some? && ParseU64(LastValue(lines, "NarSize").value) == Some(ni.narSize)
    && ni.references == (if LastValue(lines, "References").None? then []
                         else SplitWhitespace(LastValue(lines, "References").value))
    && ni.deriver == LastValue(lines, "Deriver")
    && ni.signatures == SignaturesIn(lines, codec)
    && ni.ca == LastValue(lines, "CA")
  }

  ghost predicate AllAccepted(lines: seq<string>, codec: SignatureCodec) {
    forall i :: 0 <= i < |lines| ==> Accepted(lines[i], codec)
  }

  /** Any text parses to a narinfo exactly when every line is accepted and the lines describe it. */
  lemma ParseTextExactly(input: string, codec: SignatureCodec, ni: NarInfo)
    ensures ParseText(input, codec) == Ok(ni) <==>
            AllAccepted(Lines(input), codec) && Describes(Lines(input), codec, ni)
  {
    hide ParseLines, RecordAll, Lines, LastValue, SignaturesIn, Parse, ParseHash, ParseU64, ParseCompression,
        SplitWhitespace, Accepted;
    var lines := Lines(input);
    LinesExactly(lines, codec);
    if AllAccepted(lines, codec) {
      LinesFill(lines, codec);
    }
  }

  ghost predicate Mentions(lines: seq<string>, key: string) {
    exists i :: 0 <= i < |lines| && HasKey(lines[i], key)
  }

  /** The `k`-th required key is on no line, and those before it are. */
  ghost predicate FirstMissing(lines: seq<string>, k: nat) {
    k < |REQUIRED| && !Mentions(lines, REQUIRED[k]) && forall j :: 0 <= j < k ==> Mentions(lines, REQUIRED[j])
  }

  /** With every line accepted, the failure is the first required key that no line has. */
  lemma MissingFieldExactly(input: string, codec: SignatureCodec, field: string)
    requires AllAccepted(Lines(input), codec)
    ensures ParseText(input, codec) == Err(NarInfoParse(MissingField(field))) <==>
            exists k: nat :: FirstMissing(Lines(input), k) && field == REQUIRED[k]
    ensures ParseText(input, codec).Ok? <==> forall k: nat :: !FirstMissing(Lines(input), k)
  {
    hide ParseLines, RecordAll, Lines, SignaturesIn, Parse, ParseHash, ParseU64, ParseCompression, SplitWhitespace,
        Accepted, HasKey;
    var lines := Lines(input);
    LinesExactly(lines, codec);
    LinesFill(lines, codec);
    forall k | 0 <= k < 7
      ensures LastValue(lines, REQUIRED[k]).Some? <==> Mentions(lines, REQUIRED[k])
    {
      LastValueMeaning(lines, REQUIRED[k]);
    }
    hide LastValue, Mentions;
    var k := FirstUnset(lines);
    if k < 7 {
      assert FirstMissing(lines, k);
      OnlyOneMissing(lines, k);
      UnsetFails(lines, codec, RecordAll(NOTHING_YET, ParseLines(lines, codec).value), k);
    } else {
      assert forall j: nat :: !FirstMissing(lines, j);
    }
  }

  ghost function FirstUnset(lines: seq<string>): (k: nat)
    ensures k <= 7 && (k < 7 ==> LastValue(lines, REQUIRED[k]).None?)
    ensures forall j :: 0 <= j < k ==> LastValue(lines, REQUIRED[j]).Some?
  {
    if LastValue(lines, REQUIRED[0]).None? then 0
    else if LastValue(lines, REQUIRED[1]).None? then 1
    else if LastValue(lines, REQUIRED[2]).None? then 2
    else if LastValue(lines, REQUIRED[3]).None? then 3
    else if LastValue(lines, REQUIRED[4]).None? then 4
    else if LastValue(lines, REQUIRED[5]).None? then 5
    else if LastValue(lines, REQUIRED[6]).None? then 6
    else 7
  }

  lemma OnlyOneMissing(lines: seq<string>, k: nat)
    requires FirstMissing(lines, k)
    ensures forall j: nat :: FirstMissing(lines, j) ==> j == k
  {
    hide Mentions;
  }

  lemma UnsetFails(lines: seq<string>, codec: SignatureCodec, acc: Partial, k: nat)
    requires Fills(Decides(lines, codec), acc) && k < 7 && LastValue(lines, REQUIRED[k]).None?
    requires forall j :: 0 <= j < k ==> LastValue(lines, REQUIRED[j]).Some?
    ensures Finish(acc) == Err(NarInfoParse(MissingField(REQUIRED[k])))
  {
    hide LastValue, SignaturesIn, Parse, ParseHash, ParseU64, ParseCompression, SplitWhitespace;
    if k > 0 { assert LastValue(lines, REQUIRED[0]).Some?; }
    if k > 1 { assert LastValue(lines, REQUIRED[1]).Some?; }
    if k > 2 { assert LastValue(lines, REQUIRED[2]).Some?; }
    if k > 3 { assert LastValue(lines, REQUIRED[3]).Some?; }
    if k > 4 { assert LastValue(lines, REQUIRED[4]).Some?; }
    if k > 5 { assert LastValue(lines, REQUIRED[5]).Some?; }
  }

  //////////////////////////////////////////////////////////////////////////////
  // Lines that are ignored
  //////////////////////////////////////////////////////////////////////////////

  /** The accumulators after some lines, or the first failure. */
  function Folded(lines: seq<string>, codec: SignatureCodec): Outcome<Partial, Error> {
    var fields :- ParseLines(lines, codec);
    Ok(RecordAll(NOTHING_YET, fields))
  }

  lemma FoldedOneMore(lines: seq<string>, raw: string, codec: SignatureCodec)
    ensures Folded(lines + [raw], codec) ==
            if !Folded(lines, codec).Ok? then Folded(lines, codec)
            else if !ParseLine(raw, codec).Ok? then ParseLine(raw, codec).PropagateFailure()
            else Ok(Record(Folded(lines, codec).value, ParseLine(raw, codec).value))
  {
    hide ParseLine, Record;
    assert (lines + [raw])[..|lines|] == lines;
    if ParseLines(lines, codec).Ok? && ParseLine(raw, codec).Ok? {
      var fields, f := ParseLines(lines, codec).value, ParseLine(raw, codec).value;
      assert (fields + [f])[..|fields|] == fields;
    }
  }

  lemma {:induction false} IgnoredAnywhere(a: seq<string>, raw: string, b: seq<string>, codec: SignatureCodec)
    requires ParseLine(raw, codec) == Ok(FNothing)
    ensures Folded(a + [raw] + b, codec) == Folded(a + b, codec)
    decreases |b|
  {
    hide Folded, ParseLine;
    if b == [] {
      assert a + [raw] + b == a + [raw] && a + b == a;
      FoldedOneMore(a, raw, codec);
    } else {
      var init, last := b[..|b| - 1], b[|b| - 1];
      IgnoredAnywhere(a, raw, init, codec);
      assert b == init + [last];
      assert a + [raw] + b == (a + [raw] + init) + [last] && a + b == (a + init) + [last];
      FoldedOneMore(a + [raw] + init, last, codec);
      FoldedOneMore(a + init, last, codec);
    }
  }

  lemma {:induction false} LinesConcat(before: string, rest: string)
    requires before == "" || before[|before| - 1] == '\n'
    ensures Lines(before + rest) == Lines(before) + Lines(rest)
    decreases |before|
  {
    if before == "" {
      assert before + rest == rest;
    } else {
      SplitOnceJoins(before, "\n");
      var split := SplitOnce(before, "\n");
      if split.None? {
        SplitOnceFinds(before, "\n", |before| - 1);
      } else {
        var (line, more) := split.value;
        hide SplitOnce;
        assert before + rest == line + "\n" + (more + rest);
        SplitOnceFirst(line, "\n", more + rest);
        assert more != "" ==> more[|more| - 1] == before[|before| - 1];
        LinesConcat(more, rest);
      }
    }
  }

  /** Blank, or with a key that is none of the eleven. */
  ghost predicate Ignored(raw: string) {
    Trim(raw) == "" || exists key, value :: Says(raw, key, value) && !Known(key)
  }

  lemma IgnoredLine(raw: string, codec: SignatureCodec)
    requires Ignored(raw)
    ensures ParseLine(raw, codec) == Ok(FNothing)
  {
    hide SplitOnce, Trim;
  }

  /** A line whose key is none of the eleven, or a blank one, can be added or left out anywhere: the document parses to
      the same, whatever that is. */
  lemma UnknownLineIgnored(before: string, line: string, after: string, codec: SignatureCodec)
    requires before == "" || before[|before| - 1] == '\n'
    requires '\n' !in line && Ignored(line)
    ensures ParseText(before + line + "\n" + after, codec) == ParseText(before + after, codec)
  {
    hide ParseLine, ParseLines, RecordAll, Lines, SplitOnce, Trim, Finish;
    var stripped := StripCarriageReturn(line);
    TrimStripped(line);
    if Trim(line) != "" {
      var key, value :| Says(line, key, value) && !Known(key);
      assert Says(stripped, key, value);
    }
    IgnoredLine(stripped, codec);
    LinesConcat(before, line + "\n" + after);
    LinesConcat(before, after);
    LinesMeaning(line, after);
    assert before + line + "\n" + after == before + (line + "\n" + after);
    IgnoredAnywhere(Lines(before), stripped, Lines(after), codec);
    assert Lines(before) + ([stripped] + Lines(after)) == Lines(before) + [stripped] + Lines(after);
  }

  lemma TrimStripped(line: string)
    ensures Trim(StripCarriageReturn(line)) == Trim(line)
  {
    if line != "" && line[|line| - 1] == '\r' {
      var s := line[..|line| - 1];
      assert line == s + ['\r'];
      assert IsWhitespace('\r');
      TrimStartAppend(s, '\r');
      if TrimStart(line) != "" {
        assert TrimStart(line)[..|TrimStart(line)| - 1] == TrimStart(s);
      }
    }
  }

  lemma {:induction false} TrimStartAppend(s: string, c: char)
    requires IsWhitespace(c)
    ensures TrimStart(s + [c]) == if TrimStart(s) == "" then "" else TrimStart(s) + [c]
  {
    var t := s + [c];
    if s == "" {
      assert t[1..] == "";
    } else if IsWhitespace(s[0]) {
      assert t[1..] == s[1..] + [c];
      TrimStartAppend(s[1..], c);
    }
  }

  /** The failure of a line with a value that does not suit its key. */
  lemma UnsuitableValue(raw: string, key: string, value: string, codec: SignatureCodec)
    requires Says(raw, key, value) && !ParseLine(raw, codec).Ok?
    ensures var r := ParseLine(raw, codec);
            && (key == "StorePath" ==> r == Parse(value).PropagateFailure())
            && (key == "Compression" ==> r == Err(NarInfoParse(UnknownCompression)))
            && (key == "FileHash" || key == "NarHash" ==> r == ParseHash(value).PropagateFailure())
            && (key == "FileSize" || key == "NarSize" ==> r == Err(NarInfoParse(InvalidSize)))
            && (key == "Sig" ==> r == Err(NarInfoParse(if ':' in value then InvalidSignature else MissingSeparator)))
            && (key == "References" ==> exists ref :: ref in SplitWhitespace(value) && !ParseBasename(ref).Ok?
                                                      && r == ParseBasename(ref).PropagateFailure())
            && Known(key) && key != "URL" && key != "Deriver" && key != "CA"
  {
    ValuesAreNeverEmpty(raw);
    hide Parse, ParseHash, ParseU64, SplitWhitespace, ParseCompression, ParseReferences, ParseBasename, Trim, SplitOnce;
    if key == "Sig" {
      if ':' in value {
        var k: nat :| k < |value| && value[k] == ':';
        assert OccursAt(value, ":", k);
        SplitOnceFinds(value, ":", k);
      } else {
        SplitOnceNone(value, ":");
      }
    }
    if key == "References" {
      var ref := BadReference(SplitWhitespace(value));
    }
  }

  lemma {:induction false} BadReference(words: seq<string>) returns (ref: string)
    requires !ParseReferences(words).Ok?
    ensures ref in words && !ParseBasename(ref).Ok?
    ensures ParseReferences(words) == ParseBasename(ref).PropagateFailure()
  {
    hide ParseBasename;
    if ParseBasename(words[0]).Ok? {
      ref := BadReference(words[1..]);
    } else {
      ref := words[0];
    }
  }
}
