/**
 The text that a binary cache signs (`fingerprint` in `narinfo.rs`), and what it
 determines.
 */
module Fingerprints {
  import opened Outcomes
  import opened Sequences
  import opened Text
  import opened Base32
  import opened StorePaths
  import opened NarInfos

  function Insert(x: string, s: seq<string>): seq<string> {
    if s == [] || StringLeq(x, s[0]) then [x] + s else [s[0]] + Insert(x, s[1..])
  }

  /** The full reference paths, sorted. */
  function SortedPaths(refs: seq<string>): seq<string> {
    if refs == [] then [] else Insert(RefToPath(refs[0]), SortedPaths(refs[1..]))
  }

  function Fingerprint(ni: NarInfo): string {
    "1;" + Display(ni.storePath) + ";" + DisplayHash(ni.narHash) + ";" + Decimal(ni.narSize) + ";"
    + JoinWith(SortedPaths(ni.references), ",")
  }

  predicate SortedStrings(s: seq<string>) { forall i, j :: 0 <= i < j < |s| ==> StringLeq(s[i], s[j]) }

  lemma {:induction false} InsertSorts(x: string, s: seq<string>)
    requires SortedStrings(s)
    ensures SortedStrings(Insert(x, s)) && multiset(Insert(x, s)) == multiset(s) + multiset{x}
  {
    hide StringLeq;
    if s == [] {
    } else if StringLeq(x, s[0]) {
      forall j | 0 <= j < |s|
        ensures StringLeq(x, s[j])
      {
        if j > 0 { StringOrderTransitive(x, s[0], s[j]); }
      }
    } else {
      LeqTotal(x, s[0]);
      InsertSorts(x, s[1..]);
      var t := Insert(x, s[1..]);
      assert s == [s[0]] + s[1..];
      forall y | y in t
        ensures StringLeq(s[0], y)
      {
        assert y in multiset(t);
        if y != x {
          assert y in multiset(s[1..]);
        }
      }
    }
  }

  lemma LeqTotal(x: string, y: string)
    ensures StringLeq(x, y) || StringLeq(y, x)
  {
    StringOrderTotal(x, y);
    hide StringLess;
  }

  lemma {:induction false} SortedPathsSorted(refs: seq<string>)
    ensures SortedStrings(SortedPaths(refs))
  {
    if refs != [] {
      SortedPathsSorted(refs[1..]);
      InsertSorts(RefToPath(refs[0]), SortedPaths(refs[1..]));
    }
  }

  lemma {:induction false} InsertCommutes(x: string, y: string, s: seq<string>)
    ensures Insert(x, Insert(y, s)) == Insert(y, Insert(x, s))
  {
    StringOrderTotal(x, y);
    StringOrderTotal(y, x);
    if s != [] {
      InsertCommutes(x, y, s[1..]);
      StringOrderTotal(x, s[0]);
      StringOrderTotal(y, s[0]);
      StringOrderTotal(s[0], x);
      StringOrderTotal(s[0], y);
      if StringLeq(x, s[0]) && StringLeq(s[0], y) { StringOrderTransitive(x, s[0], y); }
      if StringLeq(y, s[0]) && StringLeq(s[0], x) { StringOrderTransitive(y, s[0], x); }
    }
  }

  lemma {:induction false} SortedPathsMoveToFront(left: seq<string>, x: string, right: seq<string>)
    ensures SortedPaths(left + [x] + right) == Insert(RefToPath(x), SortedPaths(left + right))
  {
    var all := left + [x] + right;
    if left == [] {
      assert all[1..] == right && left + right == right;
    } else {
      assert all[1..] == left[1..] + [x] + right;
      assert (left + right)[1..] == left[1..] + right;
      SortedPathsMoveToFront(left[1..], x, right);
      InsertCommutes(RefToPath(left[0]), RefToPath(x), SortedPaths(left[1..] + right));
    }
  }

  lemma {:induction false} SortedPathsPermute(a: seq<string>, b: seq<string>)
    requires multiset(a) == multiset(b)
    ensures SortedPaths(a) == SortedPaths(b)
  {
    assert |a| == |multiset(a)| == |multiset(b)| == |b|;
    if a != [] {
      assert a[0] in multiset(b);
      var i :| 0 <= i < |b| && b[i] == a[0];
      RemainderPermutes(a, b, i);
      SortedPathsPermute(a[1..], b[..i] + b[i + 1..]);
      SortedPathsMoveToFront(b[..i], a[0], b[i + 1..]);
      assert b == b[..i] + [a[0]] + b[i + 1..];
    }
  }

  /** The order in which the references are listed does not change what is signed, and the signed list is sorted. */
  lemma FingerprintIgnoresOrder(a: NarInfo, b: NarInfo)
    requires a.storePath == b.storePath && a.narHash == b.narHash && a.narSize == b.narSize
    requires multiset(a.references) == multiset(b.references)
    ensures Fingerprint(a) == Fingerprint(b)
    ensures SortedStrings(SortedPaths(a.references))
  {
    SortedPathsPermute(a.references, b.references);
    SortedPathsSorted(a.references);
  }

  lemma {:induction false} SortedPathsAre(refs: seq<string>)
    ensures multiset(SortedPaths(refs)) == multiset(StorePathsOf(refs))
  {
    hide Insert, SortedStrings, RefToPath, StorePathsOf;
    if refs == [] {
      NoPaths();
    } else {
      SortedPathsAre(refs[1..]);
      SortedPathsSorted(refs[1..]);
      InsertSorts(RefToPath(refs[0]), SortedPaths(refs[1..]));
      PathsOfMore(refs);
    }
  }

  lemma NoPaths()
    ensures StorePathsOf([]) == []
  {
  }

  lemma PathsOfMore(refs: seq<string>)
    requires refs != []
    ensures StorePathsOf(refs) == [RefToPath(refs[0])] + StorePathsOf(refs[1..])
  {
    assert STORE_DIR + "/" == "/nix/store/";
    assert RefToPath(refs[0]) == "/nix/store/" + refs[0];
  }

  function StorePathsOf(refs: seq<string>): seq<string> {
    seq(|refs|, i requires 0 <= i < |refs| => "/nix/store/" + refs[i])
  }

  /** What is signed, part by part: the version, the path, the hash of the archive, its size, and the full paths of the
      references in code-point order, separated by commas. */
  lemma FingerprintLayout(ni: NarInfo) returns (paths: seq<string>)
    ensures multiset(paths) == multiset(StorePathsOf(ni.references))
    ensures forall i, j :: 0 <= i < j < |paths| ==> paths[i] == paths[j] || ComesBefore(paths[i], paths[j])
    ensures Fingerprint(ni)
         == JoinWith(["1", "/nix/store/" + Encode(ni.storePath.hash) + "-" + ni.storePath.name,
                      AlgoName(ni.narHash.algo) + ":" + Encode(ni.narHash.digest), Decimal(ni.narSize),
                      JoinWith(paths, ",")], ";")
  {
    paths := SortedPaths(ni.references);
    SortedPathsAre(ni.references);
    SortedPathsAscend(ni.references);
    LayoutOf(ni);
    hide *;
  }

  lemma SortedPathsAscend(refs: seq<string>)
    ensures var paths := SortedPaths(refs);
            forall i, j :: 0 <= i < j < |paths| ==> paths[i] == paths[j] || ComesBefore(paths[i], paths[j])
  {
    hide SortedPaths, StringLess, ComesBefore;
    var paths := SortedPaths(refs);
    SortedPathsSorted(refs);
    forall i, j | 0 <= i < j < |paths|
      ensures paths[i] == paths[j] || ComesBefore(paths[i], paths[j])
    {
      StringLessMeaning(paths[i], paths[j]);
    }
  }

  lemma LayoutOf(ni: NarInfo)
    ensures Fingerprint(ni)
         == JoinWith(["1", "/nix/store/" + Encode(ni.storePath.hash) + "-" + ni.storePath.name,
                      AlgoName(ni.narHash.algo) + ":" + Encode(ni.narHash.digest), Decimal(ni.narSize),
                      JoinWith(SortedPaths(ni.references), ",")], ";")
  {
    hide Encode, Decimal, SortedPaths, AlgoName, JoinWith;
    var sp, h, n := Display(ni.storePath), DisplayHash(ni.narHash), Decimal(ni.narSize);
    var refs := JoinWith(SortedPaths(ni.references), ",");
    assert STORE_DIR + "/" == "/nix/store/";
    assert sp == "/nix/store/" + Encode(ni.storePath.hash) + "-" + ni.storePath.name;
    hide Display, DisplayHash;
    FiveParts("1", sp, h, n, refs);
    SameText(sp, h, n, refs);
  }

  lemma SameText(sp: string, h: string, n: string, refs: string)
    ensures "1;" + sp + ";" + h + ";" + n + ";" + refs == "1" + ";" + (sp + ";" + (h + ";" + (n + ";" + refs)))
  {
  }

  lemma FiveParts(a: string, b: string, c: string, d: string, e: string)
    ensures JoinWith([a, b, c, d, e], ";") == a + ";" + (b + ";" + (c + ";" + (d + ";" + e)))
  {
    assert [a, b, c, d, e][1..] == [b, c, d, e] && [b, c, d, e][1..] == [c, d, e] && [c, d, e][1..] == [d, e]
           && [d, e][1..] == [e];
    assert JoinWith([d, e], ";") == d + ";" + JoinWith([e], ";");
    assert JoinWith([c, d, e], ";") == c + ";" + JoinWith([d, e], ";");
    assert JoinWith([b, c, d, e], ";") == b + ";" + JoinWith([c, d, e], ";");
  }

  //////////////////////////////////////////////////////////////////////////////
  // What a fingerprint determines
  //////////////////////////////////////////////////////////////////////////////

  /** No separator of the fingerprint occurs inside its parts. */
  predicate Separable(ni: NarInfo) {
    && Valid(ni.storePath) && ';' !in ni.storePath.name
    && |ni.narHash.digest| == DigestLen(ni.narHash.algo)
    && forall i :: 0 <= i < |ni.references| ==> ',' !in ni.references[i]
  }

  /** What a signature is meant to cover. */
  predicate SameSigned(a: NarInfo, b: NarInfo) {
    && a.storePath == b.storePath && a.narHash == b.narHash && a.narSize == b.narSize
    && multiset(a.references) == multiset(b.references)
  }

  lemma FirstSeparator(a: string, x: string, b: string, y: string, c: char)
    requires c !in a && c !in b && a + [c] + x == b + [c] + y
    ensures a == b && x == y
  {
    var s := a + [c] + x;
    assert s[|a|] == c && s[|b|] == c;
    assert forall i :: 0 <= i < |a| ==> s[i] == a[i];
    assert forall i :: 0 <= i < |b| ==> s[i] == b[i];
    assert |a| == |b|;
    assert s[..|a|] == a && s[..|b|] == b;
    assert s[|a| + 1..] == x && s[|b| + 1..] == y;
  }

  lemma EncodedHasNo(bytes: seq<bv8>, c: char)
    requires DigitValue(c).None?
    ensures c !in Encode(bytes)
  {
    hide Encode, DigitValue;
    var s := Encode(bytes);
    forall i | 0 <= i < |s|
      ensures s[i] != c
    {
      EncodedIsDigit(bytes, i);
    }
  }

  lemma EncodedIsDigit(bytes: seq<bv8>, i: nat)
    requires i < |Encode(bytes)|
    ensures DigitValue(Encode(bytes)[i]).Some?
  {
    hide Digit, DigitValue;
    var n := EncodedLength(|bytes|) - 1 - i;
    EncodedAt(bytes, n);
    hide Encode;
    DigitRoundTrip(Digit(bytes, n));
  }

  lemma PartsHaveNoSemicolon(ni: NarInfo)
    requires Separable(ni)
    ensures ';' !in Display(ni.storePath) && ';' !in DisplayHash(ni.narHash) && ';' !in Decimal(ni.narSize)
  {
    assert DigitValue(';').None? by { SemicolonIsNoDigit(); }
    EncodedHasNo(ni.storePath.hash, ';');
    EncodedHasNo(ni.narHash.digest, ';');
    DecimalMeaning(ni.narSize);
    hide Encode, Decimal, DigitsValue;
  }

  lemma AlphabetGap(i: nat)
    requires i < 32
    ensures ALPHABET[i] <= '9' || 'a' <= ALPHABET[i]
  {
    assert ALPHABET[9] == '9' && ALPHABET[10] == 'a';
    if i < 9 {
      AlphabetStrict(i, 9);
    } else if i > 10 {
      AlphabetStrict(10, i);
    }
  }

  lemma SemicolonIsNoDigit()
    ensures DigitValue(';').None?
  {
    var c := ';';
    if DigitValue(c).Some? {
      ValueOfDigit(c);
      AlphabetGap(DigitValue(c).value as nat);
    }
  }

  lemma {:induction false} SortedPathsCount(refs: seq<string>, r: string)
    ensures multiset(SortedPaths(refs))[RefToPath(r)] == multiset(refs)[r]
  {
    hide RefToPath, Insert, SortedStrings;
    if refs != [] {
      SortedPathsCount(refs[1..], r);
      SortedPathsSorted(refs[1..]);
      InsertSorts(RefToPath(refs[0]), SortedPaths(refs[1..]));
      RefToPathInjective(refs[0], r);
      assert refs == [refs[0]] + refs[1..];
      assert multiset(refs) == multiset{refs[0]} + multiset(refs[1..]);
    }
  }

  lemma RefToPathInjective(a: string, b: string)
    ensures RefToPath(a) == RefToPath(b) <==> a == b
  {
    var n := |RefToPath(a)| - |a|;
    assert RefToPath(a)[n..] == a;
    assert |RefToPath(b)| >= n && RefToPath(b)[n..] == b;
  }

  lemma {:induction false} SortedPathsPlain(refs: seq<string>, p: string)
    requires (forall i :: 0 <= i < |refs| ==> ',' !in refs[i]) && p in SortedPaths(refs)
    ensures ',' !in p && p != ""
  {
    SortedPathsSorted(refs[1..]);
    InsertSorts(RefToPath(refs[0]), SortedPaths(refs[1..]));
    assert p in multiset(SortedPaths(refs));
    if p != RefToPath(refs[0]) {
      assert p in multiset(SortedPaths(refs[1..]));
      SortedPathsPlain(refs[1..], p);
    }
  }

  lemma JoinedListsAgree(a: seq<string>, b: seq<string>)
    requires forall p :: p in a || p in b ==> ',' !in p && p != ""
    requires JoinWith(a, ",") == JoinWith(b, ",")
    ensures a == b
  {
    if a != [] {
      SplitOfJoin(a, ',');
      assert a[0] in a;
    }
    if b != [] {
      SplitOfJoin(b, ',');
      assert b[0] in b;
    }
  }

  /** Where no part contains a separator, two narinfos have the same fingerprint exactly when they agree on path,
      hash, size and references: a signature covers all of these and no more. */
  lemma FingerprintDeterminesExactly(a: NarInfo, b: NarInfo)
    requires Separable(a) && Separable(b)
    ensures Fingerprint(a) == Fingerprint(b) <==> SameSigned(a, b)
  {
    hide Display, DisplayHash, Decimal, JoinWith, SortedPaths, Valid;
    if SameSigned(a, b) {
      FingerprintIgnoresOrder(a, b);
    }
    if Fingerprint(a) == Fingerprint(b) {
      PartsHaveNoSemicolon(a);
      PartsHaveNoSemicolon(b);
      var ra, rb := JoinWith(SortedPaths(a.references), ","), JoinWith(SortedPaths(b.references), ",");
      FingerprintParts(a, b, ra, rb);
      DisplayInjective(a.storePath, b.storePath);
      HashPrintThenParse(a.narHash);
      HashPrintThenParse(b.narHash);
      DecimalMeaning(a.narSize);
      DecimalMeaning(b.narSize);
      SameReferences(a, b);
    }
  }

  lemma FingerprintParts(a: NarInfo, b: NarInfo, ra: string, rb: string)
    requires ';' !in Display(a.storePath) && ';' !in DisplayHash(a.narHash) && ';' !in Decimal(a.narSize)
    requires ';' !in Display(b.storePath) && ';' !in DisplayHash(b.narHash) && ';' !in Decimal(b.narSize)
    requires ra == JoinWith(SortedPaths(a.references), ",") && rb == JoinWith(SortedPaths(b.references), ",")
    requires Fingerprint(a) == Fingerprint(b)
    ensures Display(a.storePath) == Display(b.storePath) && DisplayHash(a.narHash) == DisplayHash(b.narHash)
    ensures Decimal(a.narSize) == Decimal(b.narSize) && ra == rb
  {
    hide Display, DisplayHash, Decimal, JoinWith, SortedPaths;
    var na, nb := Decimal(a.narSize) + ";" + ra, Decimal(b.narSize) + ";" + rb;
    var ha, hb := DisplayHash(a.narHash) + ";" + na, DisplayHash(b.narHash) + ";" + nb;
    assert Fingerprint(a) == "1;" + (Display(a.storePath) + ";" + ha);
    assert Fingerprint(b) == "1;" + (Display(b.storePath) + ";" + hb);
    assert Fingerprint(a)[2..] == Display(a.storePath) + ";" + ha
           && Fingerprint(b)[2..] == Display(b.storePath) + ";" + hb;
    FirstSeparator(Display(a.storePath), ha, Display(b.storePath), hb, ';');
    FirstSeparator(DisplayHash(a.narHash), na, DisplayHash(b.narHash), nb, ';');
    FirstSeparator(Decimal(a.narSize), ra, Decimal(b.narSize), rb, ';');
  }

  lemma SameReferences(a: NarInfo, b: NarInfo)
    requires Separable(a) && Separable(b)
    requires JoinWith(SortedPaths(a.references), ",") == JoinWith(SortedPaths(b.references), ",")
    ensures multiset(a.references) == multiset(b.references)
  {
    hide JoinWith, SortedPaths, RefToPath, Valid;
    forall p | p in SortedPaths(a.references) || p in SortedPaths(b.references)
      ensures ',' !in p && p != ""
    {
      if p in SortedPaths(a.references) {
        SortedPathsPlain(a.references, p);
      } else {
        SortedPathsPlain(b.references, p);
      }
    }
    JoinedListsAgree(SortedPaths(a.references), SortedPaths(b.references));
    forall r: string
      ensures multiset(a.references)[r] == multiset(b.references)[r]
    {
      SortedPathsCount(a.references, r);
      SortedPathsCount(b.references, r);
    }
  }

  //////////////////////////////////////////////////////////////////////////////
  // What a parsed narinfo is made of
  //////////////////////////////////////////////////////////////////////////////

  /** Some text parses to this narinfo. */
  ghost predicate Accepted(ni: NarInfo, codec: SignatureCodec) { exists text :: ParseText(text, codec) == Ok(ni) }

  predicate AllParse(refs: seq<string>) { forall i :: 0 <= i < |refs| ==> ParseBasename(refs[i]).Ok? }

  predicate AllWords(refs: seq<string>) { forall i :: 0 <= i < |refs| ==> NoWhitespace(refs[i]) }

  predicate HasLength(h: NixHash) { |h.digest| == DigestLen(h.algo) }

  predicate ParsedField(f: Field) {
    match f
    case FStorePath(sp) => Valid(sp) && VisibleName(sp.name)
    case FNarHash(h) => HasLength(h)
    case FNarSize(n) => n < U64
    case FReferences(refs) => AllParse(refs) && AllWords(refs)
    case _ => true
  }

  predicate ParsedSoFar(acc: Partial) {
    && (acc.storePath.Some? ==> Valid(acc.storePath.value) && VisibleName(acc.storePath.value.name))
    && (acc.narHash.Some? ==> HasLength(acc.narHash.value))
    && (acc.narSize.Some? ==> acc.narSize.value < U64)
    && AllParse(acc.references) && AllWords(acc.references)
  }

  lemma {:induction false} ReferencesParse(words: seq<string>)
    requires ParseReferences(words).Ok?
    ensures AllParse(ParseReferences(words).value) && ParseReferences(words).value == words
  {
    hide ParseBasename;
    if words != [] {
      ReferencesParse(words[1..]);
    }
  }

  lemma {:induction false} WordsHaveNoWhitespace(s: string)
    ensures AllWords(SplitWhitespace(s))
    decreases |s|
  {
    if s != "" && IsWhitespace(s[0]) {
      WordsHaveNoWhitespace(s[1..]);
    } else if s != "" {
      WordHasNoWhitespace(s);
      WordsHaveNoWhitespace(s[WordLength(s)..]);
    }
  }

  lemma {:induction false} WordHasNoWhitespace(s: string)
    ensures NoWhitespace(s[..WordLength(s)])
  {
    if s != "" && !IsWhitespace(s[0]) {
      WordHasNoWhitespace(s[1..]);
      assert s[..WordLength(s)] == [s[0]] + s[1..][..WordLength(s[1..])];
    }
  }

  /** The name of a store path is the end of its text. */
  lemma NameEndsPath(value: string)
    requires Parse(value).Ok? && value != "" && '\n' !in value && !IsWhitespace(value[|value| - 1])
    ensures Valid(Parse(value).value) && VisibleName(Parse(value).value.name)
  {
    ParseThenPrint(value);
    hide Parse, Encode, IsWhitespace;
    var sp := Parse(value).value;
    assert Display(sp) == value;
    assert value[|value| - 1] == sp.name[|sp.name| - 1];
    assert forall c :: c in sp.name ==> c in value by {
      forall i | 0 <= i < |sp.name|
        ensures sp.name[i] in value
      {
        assert value[|value| - |sp.name| + i] == sp.name[i];
      }
    }
  }

  lemma FieldIsParsed(key: string, value: string, codec: SignatureCodec)
    requires ParseField(key, value, codec).Ok? && value != "" && '\n' !in value && !IsWhitespace(value[|value| - 1])
    ensures ParsedField(ParseField(key, value, codec).value)
  {
    if key == "StorePath" {
      NameEndsPath(value);
    } else if key == "References" {
      ReferencesParse(SplitWhitespace(value));
      WordsHaveNoWhitespace(value);
    }
    hide Parse, Decode, SplitOnce, AllParse, AllWords, Valid, SplitWhitespace, ParseReferences, ParseSignature,
      ParseCompression, DigitsValue, VisibleName, IsWhitespace;
  }

  lemma {:induction false} NotSplit(s: string, c: char)
    requires SplitOnce(s, [c]).None?
    ensures c !in s
  {
    if s != "" {
      NotSplit(s[1..], c);
      assert s == [s[0]] + s[1..];
    }
  }

  lemma {:induction false} LinesHaveNoNewline(s: string, i: nat)
    requires i < |Lines(s)|
    ensures '\n' !in Lines(s)[i]
    decreases |s|
  {
    if SplitOnce(s, "\n").None? {
      NotSplit(s, '\n');
    } else {
      SplitOnceJoins(s, "\n");
      if i > 0 {
        LinesHaveNoNewline(SplitOnce(s, "\n").value.1, i - 1);
      }
    }
  }

  /** The value of a line ends where the trimmed line ends, and is not empty. */
  lemma ValueIsVisible(raw: string)
    requires '\n' !in raw && SplitOnce(Trim(raw), ": ").Some?
    ensures var value := SplitOnce(Trim(raw), ": ").value.1;
            value != "" && '\n' !in value && !IsWhitespace(value[|value| - 1])
  {
    ValuesAreNeverEmpty(raw);
    TrimIsTrimmed(raw);
    TrimmingKeepsCharacters(raw, '\n');
    TrimmingKeepsCharacters(TrimStart(raw), '\n');
    var line := Trim(raw);
    SplitOnceJoins(line, ": ");
    hide SplitOnce, Trim, IsWhitespace;
    var (key, value) := SplitOnce(line, ": ").value;
    assert line == key + ": " + value;
    assert line[|line| - 1] == value[|value| - 1];
    forall i | 0 <= i < |value|
      ensures value[i] != '\n'
    {
      assert line[|line| - |value| + i] == value[i];
    }
  }

  lemma LineIsParsed(line: string, codec: SignatureCodec)
    requires ParseLine(line, codec).Ok? && '\n' !in line
    ensures ParsedField(ParseLine(line, codec).value)
  {
    hide ParsedField, ParseField, Trim, SplitOnce;
    if Trim(line) == "" {
      assert ParsedField(FNothing) by { NothingIsParsed(); }
    } else {
      var (key, value) := SplitOnce(Trim(line), ": ").value;
      ValueIsVisible(line);
      FieldIsParsed(key, value, codec);
    }
  }

  lemma NothingIsParsed()
    ensures ParsedField(FNothing)
  {
  }

  lemma {:induction false} LinesAreParsed(lines: seq<string>, codec: SignatureCodec)
    requires ParseLines(lines, codec).Ok? && forall i :: 0 <= i < |lines| ==> '\n' !in lines[i]
    ensures ParsedSoFar(RecordAll(NOTHING_YET, ParseLines(lines, codec).value))
  {
    hide ParseLine, ParsedSoFar, ParsedField, Record;
    if lines == [] {
      NothingYet();
    } else {
      var init := lines[..|lines| - 1];
      LinesAreParsed(init, codec);
      LineIsParsed(lines[|lines| - 1], codec);
      var fields := ParseLines(lines, codec).value;
      assert fields[..|fields| - 1] == ParseLines(init, codec).value;
      RecordKeepsParsed(RecordAll(NOTHING_YET, ParseLines(init, codec).value), fields[|fields| - 1]);
    }
  }

  lemma NothingYet()
    ensures ParsedSoFar(NOTHING_YET)
  {
  }

  lemma RecordKeepsParsed(acc: Partial, f: Field)
    requires ParsedSoFar(acc) && ParsedField(f)
    ensures ParsedSoFar(Record(acc, f))
  {
    hide Valid, VisibleName, HasLength, AllParse, AllWords;
  }

  lemma AcceptedParts(ni: NarInfo, codec: SignatureCodec)
    requires Accepted(ni, codec)
    ensures Valid(ni.storePath) && VisibleName(ni.storePath.name) && HasLength(ni.narHash) && ni.narSize < U64
    ensures AllParse(ni.references) && AllWords(ni.references)
  {
    hide Valid, VisibleName, HasLength, AllParse, AllWords, ParseLines, Lines, RecordAll;
    var text :| ParseText(text, codec) == Ok(ni);
    forall i | 0 <= i < |Lines(text)|
      ensures '\n' !in Lines(text)[i]
    {
      LinesHaveNoNewline(text, i);
    }
    LinesAreParsed(Lines(text), codec);
  }

  //////////////////////////////////////////////////////////////////////////////
  // What a fingerprint determines among all narinfos
  //////////////////////////////////////////////////////////////////////////////

  /** No separator in the parts. */
  predicate Clean(ni: NarInfo) {
    && ';' !in ni.storePath.name
    && forall i :: 0 <= i < |ni.references| ==> ',' !in ni.references[i] && ';' !in ni.references[i]
  }

  /** Whatever narinfo has this fingerprint agrees with this one on path, hash, size and references. */
  ghost predicate Determines(ni: NarInfo, codec: SignatureCodec) {
    forall other :: Accepted(other, codec) && Fingerprint(other) == Fingerprint(ni) ==> SameSigned(ni, other)
  }

  function Semicolons(s: string): nat { if s == "" then 0 else (if s[0] == ';' then 1 else 0) + Semicolons(s[1..]) }

  lemma {:induction false} SemicolonsAppend(a: string, b: string)
    ensures Semicolons(a + b) == Semicolons(a) + Semicolons(b)
  {
    if a == "" {
      assert a + b == b;
    } else {
      assert (a + b)[1..] == a[1..] + b;
      SemicolonsAppend(a[1..], b);
    }
  }

  lemma {:induction false} NoSemicolons(s: string)
    ensures Semicolons(s) == 0 <==> ';' !in s
  {
    if s != "" {
      NoSemicolons(s[1..]);
      assert s == [s[0]] + s[1..];
    }
  }

  lemma FingerprintSemicolons(ni: NarInfo)
    ensures Semicolons(Fingerprint(ni))
         == 4 + Semicolons(Display(ni.storePath)) + Semicolons(DisplayHash(ni.narHash))
            + Semicolons(Decimal(ni.narSize)) + Semicolons(JoinWith(SortedPaths(ni.references), ","))
  {
    assert Semicolons(";") == 1 by { assert ";"[1..] == ""; }
    assert Semicolons("1;") == 1 by { assert "1;"[1..] == ";"; }
    hide Display, DisplayHash, Decimal, JoinWith, SortedPaths, Semicolons;
    var d, h, n := Display(ni.storePath), DisplayHash(ni.narHash), Decimal(ni.narSize);
    var r := JoinWith(SortedPaths(ni.references), ",");
    SemicolonsAppend("1;", d);
    SemicolonsAppend("1;" + d, ";");
    SemicolonsAppend("1;" + d + ";", h);
    SemicolonsAppend("1;" + d + ";" + h, ";");
    SemicolonsAppend("1;" + d + ";" + h + ";", n);
    SemicolonsAppend("1;" + d + ";" + h + ";" + n, ";");
    SemicolonsAppend("1;" + d + ";" + h + ";" + n + ";", r);
  }

  lemma JoinedSmall(refs: seq<string>)
    ensures refs == [] ==> JoinWith(SortedPaths(refs), ",") == ""
    ensures |refs| == 1 ==> JoinWith(SortedPaths(refs), ",") == RefToPath(refs[0])
  {
    if |refs| == 1 {
      assert refs[1..] == [];
    }
  }

  lemma {:induction false} SortedPathsLength(refs: seq<string>)
    ensures |SortedPaths(refs)| == |refs|
  {
    if refs != [] {
      SortedPathsLength(refs[1..]);
      SortedPathsSorted(refs[1..]);
      InsertSorts(RefToPath(refs[0]), SortedPaths(refs[1..]));
      assert |multiset(SortedPaths(refs))| == |SortedPaths(refs)|;
      assert |multiset(SortedPaths(refs[1..]))| == |SortedPaths(refs[1..])|;
    }
  }

  /** Two references or more leave a comma. */
  lemma JoinedLarge(refs: seq<string>)
    requires |refs| >= 2
    ensures ',' in JoinWith(SortedPaths(refs), ",")
  {
    SortedPathsLength(refs);
    hide SortedPaths;
    var s := SortedPaths(refs);
    assert JoinWith(s, ",")[|s[0]|] == ',';
  }

  /** With at most one reference, a clean narinfo is determined by its fingerprint, whatever the other narinfo is. */
  lemma FewReferencesDetermine(a: NarInfo, b: NarInfo)
    requires Clean(a) && Valid(a.storePath) && HasLength(a.narHash) && |a.references| <= 1
    requires Valid(b.storePath) && HasLength(b.narHash) && Fingerprint(a) == Fingerprint(b)
    ensures SameSigned(a, b)
  {
    hide Valid, DigestLen, Display, DisplayHash, Decimal, Fingerprint, JoinWith, SortedPaths;
    var ra, rb := JoinWith(SortedPaths(a.references), ","), JoinWith(SortedPaths(b.references), ",");
    JoinedSmall(a.references);
    JoinedSmall(b.references);
    if |b.references| >= 2 {
      JoinedLarge(b.references);
    }
    FingerprintSemicolons(a);
    FingerprintSemicolons(b);
    assert ';' !in ra && ',' !in ra;
    HashHasNoSemicolon(a);
    HashHasNoSemicolon(b);
    assert ';' !in Display(a.storePath) by { PathHasNoSemicolon(a); }
    NoSemicolonsIn(a, ra);
    NoSemicolons(Display(b.storePath));
    NoSemicolons(rb);
    FingerprintParts(a, b, ra, rb);
    DisplayInjective(a.storePath, b.storePath);
    HashPrintThenParse(a.narHash);
    HashPrintThenParse(b.narHash);
    DecimalMeaning(a.narSize);
    DecimalMeaning(b.narSize);
    OneReferenceAgrees(a.references, b.references, ra, rb);
  }

  lemma NoSemicolonsIn(a: NarInfo, ra: string)
    requires ';' !in Display(a.storePath) && ';' !in DisplayHash(a.narHash) && ';' !in Decimal(a.narSize) && ';' !in ra
    ensures Semicolons(Display(a.storePath)) == Semicolons(DisplayHash(a.narHash)) == Semicolons(Decimal(a.narSize))
         == Semicolons(ra) == 0
  {
    hide Display, DisplayHash, Decimal;
    NoSemicolons(Display(a.storePath));
    NoSemicolons(DisplayHash(a.narHash));
    NoSemicolons(Decimal(a.narSize));
    NoSemicolons(ra);
  }

  lemma HashHasNoSemicolon(ni: NarInfo)
    ensures ';' !in DisplayHash(ni.narHash) && ';' !in Decimal(ni.narSize)
  {
    SemicolonIsNoDigit();
    EncodedHasNo(ni.narHash.digest, ';');
    DecimalMeaning(ni.narSize);
    hide Encode, Decimal, DigitsValue;
  }

  lemma PathHasNoSemicolon(ni: NarInfo)
    requires ';' !in ni.storePath.name
    ensures ';' !in Display(ni.storePath)
  {
    SemicolonIsNoDigit();
    EncodedHasNo(ni.storePath.hash, ';');
    hide Encode;
  }

  lemma OneReferenceAgrees(a: seq<string>, b: seq<string>, ra: string, rb: string)
    requires ra == JoinWith(SortedPaths(a), ",") == rb == JoinWith(SortedPaths(b), ",") && ',' !in ra && |a| <= 1
    ensures a == b
  {
    hide JoinWith, SortedPaths, RefToPath;
    assert |b| <= 1 by {
      if |b| >= 2 {
        JoinedLarge(b);
      }
    }
    JoinedSmall(a);
    JoinedSmall(b);
    SmallListsAgree(a, b);
  }

  lemma SmallListsAgree(a: seq<string>, b: seq<string>)
    requires |a| <= 1 && |b| <= 1
    requires (if a == [] then "" else RefToPath(a[0])) == (if b == [] then "" else RefToPath(b[0]))
    ensures a == b
  {
    hide RefToPath;
    if |a| == 1 {
      PathIsNotEmpty(a[0]);
    }
    if |b| == 1 {
      PathIsNotEmpty(b[0]);
    }
    if |a| == 1 && |b| == 1 {
      RefToPathInjective(a[0], b[0]);
      assert a == [a[0]] && b == [b[0]];
    }
  }

  lemma PathIsNotEmpty(r: string)
    ensures RefToPath(r) != ""
  {
  }

  //////////////////////////////////////////////////////////////////////////////
  // One reference that stands for many
  //////////////////////////////////////////////////////////////////////////////

  /** A store-path name may go on with anything. */
  lemma LongerNameParses(r: string, more: string)
    requires ParseBasename(r).Ok?
    ensures ParseBasename(r + more).Ok?
  {
    ParseBasenameOutcome(r);
    ParseBasenameOutcome(r + more);
    hide ParseBasename, Decode, ByteLen, CharIndex;
    assert (r + more)[..32] == r[..32] && (r + more)[32] == r[32];
  }

  lemma {:induction false} SortedPathIsReference(refs: seq<string>, p: string) returns (r: string)
    requires p in SortedPaths(refs)
    ensures r in refs && p == RefToPath(r)
  {
    SortedPathsSorted(refs[1..]);
    InsertSorts(RefToPath(refs[0]), SortedPaths(refs[1..]));
    assert p in multiset(SortedPaths(refs));
    if p == RefToPath(refs[0]) {
      r := refs[0];
    } else {
      assert p in multiset(SortedPaths(refs[1..]));
      r := SortedPathIsReference(refs[1..], p);
    }
  }

  lemma {:induction false} JoinedHasNoWhitespace(parts: seq<string>)
    requires forall i :: 0 <= i < |parts| ==> NoWhitespace(parts[i])
    ensures NoWhitespace(JoinWith(parts, ","))
  {
    if |parts| > 1 {
      JoinedHasNoWhitespace(parts[1..]);
    }
  }

  /** The whole sorted list, as the name of a single reference. */
  lemma MergedReference(refs: seq<string>) returns (merged: string)
    requires |refs| >= 2 && AllParse(refs) && AllWords(refs)
    ensures ParseBasename(merged).Ok? && NoWhitespace(merged) && merged != ""
    ensures RefToPath(merged) == JoinWith(SortedPaths(refs), ",")
  {
    hide ParseBasename, SortedPaths, IsWhitespace;
    SortedPathsLength(refs);
    var s := SortedPaths(refs);
    var r := SortedPathIsReference(refs, s[0]);
    merged := r + "," + JoinWith(s[1..], ",");
    assert RefToPath(merged) == RefToPath(r) + "," + JoinWith(s[1..], ",");
    assert merged == r + ("," + JoinWith(s[1..], ","));
    LongerNameParses(r, "," + JoinWith(s[1..], ","));
    forall i | 0 <= i < |s[1..]|
      ensures NoWhitespace(s[1..][i])
    {
      var q := SortedPathIsReference(refs, s[1..][i]);
      PathHasNoWhitespace(q);
    }
    JoinedHasNoWhitespace(s[1..]);
    CommaIsVisible();
  }

  lemma PathHasNoWhitespace(r: string)
    requires NoWhitespace(r)
    ensures NoWhitespace(RefToPath(r))
  {
    assert NoWhitespace(STORE_DIR + "/");
  }

  lemma CommaIsVisible()
    ensures !IsWhitespace(',')
  {
  }

  /** A narinfo that says little else. */
  function Bare(ni: NarInfo, refs: seq<string>): NarInfo {
    NarInfo(ni.storePath, "x", Uncompressed, ni.narHash, 0, ni.narHash, ni.narSize, refs, None, [], None)
  }

  lemma BareIsAccepted(ni: NarInfo, merged: string, codec: SignatureCodec)
    requires Valid(ni.storePath) && VisibleName(ni.storePath.name) && HasLength(ni.narHash) && ni.narSize < U64
    requires ParseBasename(merged).Ok? && NoWhitespace(merged) && merged != ""
    ensures Accepted(Bare(ni, [merged]), codec)
  {
    hide ParseBasename, ParseText, Document, Valid;
    var b := Bare(ni, [merged]);
    var fields := FieldsOf(b);
    assert |fields| == 8;
    forall i | 0 <= i < |fields|
      ensures PrintableField(fields[i], codec)
    {
      assert fields[i] in [FStorePath(b.storePath), FUrl(b.url), FCompression(b.compression), FFileHash(b.fileHash),
                           FFileSize(b.fileSize), FNarHash(b.narHash), FNarSize(b.narSize), FReferences(b.references)];
      assert !IsWhitespace('x');
    }
    hide FieldsOf, PrintableField;
    DocumentedTextParsesExactly(b, codec);
  }

  /** Every narinfo with two references or more shares its fingerprint with one that has a single reference, and that
      one is accepted too. */
  lemma ManyReferencesMerge(a: NarInfo, codec: SignatureCodec) returns (b: NarInfo)
    requires Accepted(a, codec) && Clean(a) && |a.references| >= 2
    ensures Accepted(b, codec) && Fingerprint(b) == Fingerprint(a) && |b.references| == 1 && !SameSigned(a, b)
  {
    hide ParseBasename, Valid, SortedPaths, RefToPath;
    AcceptedParts(a, codec);
    var merged := MergedReference(a.references);
    b := Bare(a, [merged]);
    BareIsAccepted(a, merged, codec);
    JoinedSmall([merged]);
    assert |multiset(a.references)| == |a.references| && |multiset(b.references)| == 1;
  }

  /** The fingerprint of a clean narinfo determines it among all that the parser accepts exactly when it has at most one
      reference. */
  lemma FingerprintSufficesExactly(a: NarInfo, codec: SignatureCodec)
    requires Accepted(a, codec) && Clean(a)
    ensures Determines(a, codec) <==> |a.references| <= 1
  {
    hide Accepted, Clean, Fingerprint, Valid, HasLength;
    if |a.references| <= 1 {
      AcceptedParts(a, codec);
      forall b | Accepted(b, codec) && Fingerprint(b) == Fingerprint(a)
        ensures SameSigned(a, b)
      {
        AcceptedParts(b, codec);
        FewReferencesDetermine(a, b);
      }
    } else {
      var b := ManyReferencesMerge(a, codec);
    }
  }
}
