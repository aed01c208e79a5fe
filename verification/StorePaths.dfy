/**
 Store paths (`store_path.rs`) and the textual form of hashes (`NixHash` in
 `hash.rs`), both on top of Nix-base32.
 */
module StorePaths {
  import opened Outcomes
  import opened Text
  import opened Base32

  const STORE_DIR: string := "/nix/store"
  const HASH_LEN: nat := 32

  datatype StorePath = StorePath(hash: seq<bv8>, name: string)

  /** What the type of `hash: [u8; 20]` and the parser guarantee. */
  predicate Valid(sp: StorePath) { |sp.hash| == 20 && sp.name != "" }

  function ParseBasename(basename: string): Outcome<StorePath, Error> {
    if ByteLen(basename) < HASH_LEN + 2 then Err(InvalidStorePath)
    else
      match CharIndex(basename, HASH_LEN)
      case None => Panic
      case Some(k) =>
        CharIndexMeaning(basename, HASH_LEN);
        ByteLenAppend(basename[..k], basename[k..]);
        assert basename == basename[..k] + basename[k..];
        if basename[k] != '-' then Err(InvalidStorePath)
        else if basename[k + 1..] == "" then Err(InvalidStorePath)
        else
          var hash :- Decode(basename[..k]);
          if |hash| != 20 then Err(InvalidStorePath)
          else Ok(StorePath(hash, basename[k + 1..]))
  }

  function Parse(s: string): Outcome<StorePath, Error> {
    match StripPrefix(s, STORE_DIR)
    case None => Err(InvalidStorePath)
    case Some(rest) =>
      match StripPrefix(rest, "/")
      case None => Err(InvalidStorePath)
      case Some(basename) => ParseBasename(basename)
  }

  function HashString(sp: StorePath): string { Encode(sp.hash) }

  function Basename(sp: StorePath): string { HashString(sp) + "-" + sp.name }

  function Display(sp: StorePath): string { STORE_DIR + "/" + HashString(sp) + "-" + sp.name }

  /** `StorePathRef::to_store_path_string`. */
  function RefToPath(ref: string): string { STORE_DIR + "/" + ref }

  //////////////////////////////////////////////////////////////////////////////
  // Parsing and printing are mutual inverses
  //////////////////////////////////////////////////////////////////////////////

  predicate AllDigits(s: string) { forall i :: 0 <= i < |s| ==> DigitValue(s[i]).Some? }

  lemma AllDigitsAscii(s: string)
    requires AllDigits(s)
    ensures IsAscii(s)
  {
    forall i | 0 <= i < |s|
      ensures s[i] as int < 128
    {
      LookupFinds(s[i], 0);
    }
  }

  lemma ThirtyTwoDigits(h: string)
    requires |h| == 32 && AllDigits(h)
    ensures Decode(h).Ok? && |Decode(h).value| == 20 && IsAscii(h)
  {
    AllDigitsAscii(h);
    DecodeOutcome(h);
  }

  lemma AcceptedBasename(s: string)
    requires |s| >= 34 && AllDigits(s[..32]) && s[32] == '-'
    ensures Decode(s[..32]).Ok? && ParseBasename(s) == Ok(StorePath(Decode(s[..32]).value, s[33..]))
  {
    hide Decode, DigitValue, CharIndex, ByteLen;
    ThirtyTwoDigits(s[..32]);
    CharIndexAscii(s, 32);
    ByteLenBounds(s);
  }

  /** A hash part of 32 bytes that decodes is 32 ASCII characters, and never hits the decoder's abort. */
  lemma HashPart(h: string)
    requires ByteLen(h) == 32
    ensures !Decode(h).Panic?
    ensures Decode(h).Ok? ==> |h| == 32 && AllDigits(h)
  {
    hide Decode, DigitValue, ByteLen;
    DecodeOutcome(h);
    ByteLenBounds(h);
    if AllDigits(h) {
      AllDigitsAscii(h);
    }
  }

  /** Exactly which basenames are accepted; the one way to abort is a character straddling byte 32. */
  lemma ParseBasenameOutcome(s: string)
    ensures ParseBasename(s).Ok? <==> |s| >= 34 && AllDigits(s[..32]) && s[32] == '-'
    ensures ParseBasename(s).Ok? ==>
              Decode(s[..32]).Ok? && ParseBasename(s).value == StorePath(Decode(s[..32]).value, s[33..])
    ensures ParseBasename(s).Panic? <==> ByteLen(s) >= 34 && CharIndex(s, 32).None?
  {
    hide Decode, DigitValue, CharIndex, ByteLen;
    if |s| >= 34 && AllDigits(s[..32]) && s[32] == '-' {
      AcceptedBasename(s);
      ThirtyTwoDigits(s[..32]);
      CharIndexAscii(s, 32);
    }
    if ByteLen(s) >= 34 && CharIndex(s, 32).Some? {
      var k := CharIndex(s, 32).value;
      CharIndexMeaning(s, 32);
      HashPart(s[..k]);
      ByteLenAppend(s[..k], s[k..]);
      assert s == s[..k] + s[k..];
      assert ByteLen("") == 0 by { ByteLenBounds(""); }
      assert k < |s|;
      assert ParseBasename(s).Ok? ==> s[k] == '-' && s[k + 1..] != "" && Decode(s[..k]).Ok?;
    }
  }

  lemma PrintThenParse(sp: StorePath)
    requires Valid(sp)
    ensures Parse(Display(sp)) == Ok(sp)
    ensures ParseBasename(Basename(sp)) == Ok(sp)
  {
    hide Decode, Encode, DigitValue, ParseBasename;
    var s := Basename(sp);
    HashCodingIsBijective(Encode(sp.hash), sp.hash);
    assert s[..32] == Encode(sp.hash) && s[33..] == sp.name;
    DecodeOutcome(Encode(sp.hash));
    AcceptedBasename(s);
    assert Display(sp) == STORE_DIR + ("/" + s);
    assert Display(sp)[|STORE_DIR|..] == "/" + s;
    assert ("/" + s)[1..] == s;
  }

  lemma ParseThenPrint(s: string)
    ensures ParseBasename(s).Ok? ==> Valid(ParseBasename(s).value) && Basename(ParseBasename(s).value) == s
    ensures Parse(s).Ok? ==> Valid(Parse(s).value) && Display(Parse(s).value) == s
  {
    hide ParseBasename, Encode;
    ParseBasenamePrints(s);
    if Parse(s).Ok? {
      var basename := s[|STORE_DIR|..][1..];
      ParseBasenamePrints(basename);
      assert s == STORE_DIR + s[|STORE_DIR|..];
      assert s[|STORE_DIR|..] == "/" + basename;
      var sp := Parse(s).value;
      assert Display(sp) == STORE_DIR + ("/" + Basename(sp));
    }
  }

  lemma ParseBasenamePrints(s: string)
    ensures ParseBasename(s).Ok? ==> Valid(ParseBasename(s).value) && Basename(ParseBasename(s).value) == s
  {
    hide ParseBasename, Encode, Decode, DigitValue;
    ParseBasenameOutcome(s);
    if ParseBasename(s).Ok? {
      DecodeOutcome(s[..32]);
      HashCodingIsBijective(s[..32], ParseBasename(s).value.hash);
      assert s == s[..32] + "-" + s[33..];
    }
  }

  lemma DisplayInjective(a: StorePath, b: StorePath)
    requires Valid(a) && Valid(b) && Display(a) == Display(b)
    ensures a == b
  {
    PrintThenParse(a);
    PrintThenParse(b);
  }

  /** The closure search keys its visited set once by `to_string` and once by the
      reference's own text: for a parsed reference the two keys are one string. */
  lemma ReferenceKeysAgree(ref: string)
    requires ParseBasename(ref).Ok?
    ensures Parse(RefToPath(ref)) == ParseBasename(ref)
    ensures Display(ParseBasename(ref).value) == RefToPath(ref)
  {
    hide ParseBasename, Encode;
    var s := RefToPath(ref);
    assert s == STORE_DIR + ("/" + ref);
    assert s[|STORE_DIR|..] == "/" + ref;
    assert ("/" + ref)[1..] == ref;
    ParseThenPrint(s);
  }

  //////////////////////////////////////////////////////////////////////////////
  // Hashes in text
  //////////////////////////////////////////////////////////////////////////////

  datatype HashAlgo = Sha256 | Sha512 | Sha1 | Md5

  function DigestLen(algo: HashAlgo): nat {
    match algo
    case Sha256 => 32
    case Sha512 => 64
    case Sha1 => 20
    case Md5 => 16
  }

  function AlgoName(algo: HashAlgo): string {
    match algo
    case Sha256 => "sha256"
    case Sha512 => "sha512"
    case Sha1 => "sha1"
    case Md5 => "md5"
  }

  function ParseAlgo(s: string): Option<HashAlgo> {
    if s == "sha256" then Some(Sha256)
    else if s == "sha512" then Some(Sha512)
    else if s == "sha1" then Some(Sha1)
    else if s == "md5" then Some(Md5)
    else None
  }

  datatype NixHash = NixHash(algo: HashAlgo, digest: seq<bv8>)

  function ParseHash(s: string): Outcome<NixHash, Error> {
    match SplitOnce(s, ":")
    case None => Err(NarInfoParse(MissingSeparator))
    case Some((algoText, hashText)) =>
      match ParseAlgo(algoText)
      case None => Err(NarInfoParse(UnknownAlgorithm))
      case Some(algo) =>
        var digest :- Decode(hashText);
        if |digest| != DigestLen(algo) then Err(NarInfoParse(DigestLength))
        else Ok(NixHash(algo, digest))
  }

  function DisplayHash(h: NixHash): string { AlgoName(h.algo) + ":" + Encode(h.digest) }

  lemma HashPrintThenParse(h: NixHash)
    requires |h.digest| == DigestLen(h.algo)
    ensures ParseHash(DisplayHash(h)) == Ok(h)
  {
    hide Encode, Decode, SplitOnce;
    SplitOnceFirst(AlgoName(h.algo), ":", Encode(h.digest));
    DecodeEncode(h.digest);
  }

  /** Printing a parsed hash restores the text exactly when the first digit carries no dropped bits;
      a SHA-256 text has 52 digits for 256 bits, so that digit must be 0 or 1. */
  lemma HashParseThenPrint(s: string)
    requires ParseHash(s).Ok?
    ensures DisplayHash(ParseHash(s).value) == s <==> TopDigitFits(SplitOnce(s, ":").value.1)
  {
    hide Encode, Decode, SplitOnce, TopDigitFits;
    SplitOnceJoins(s, ":");
    var (a, b) := SplitOnce(s, ":").value;
    var h := ParseHash(s).value;
    EncodeDecode(b);
    assert a == AlgoName(h.algo);
    if DisplayHash(h) == s {
      assert (a + ":" + Encode(h.digest))[|a| + 1..] == Encode(h.digest);
      assert (a + ":" + b)[|a| + 1..] == b;
    }
  }

  /** The digest that the text of a hash stands for: one of four prefixes and as many bytes as that algorithm has. */
  ghost predicate HashText(s: string, prefix: string, bytes: nat, digest: seq<bv8>) {
    |digest| == bytes && exists text :: s == prefix + text && Decode(text) == Ok(digest)
  }

  /** Exactly which texts are hashes, and which hash each is. */
  lemma ParseHashExactly(s: string, digest: seq<bv8>)
    ensures ParseHash(s) == Ok(NixHash(Sha256, digest)) <==> HashText(s, "sha256:", 32, digest)
    ensures ParseHash(s) == Ok(NixHash(Sha512, digest)) <==> HashText(s, "sha512:", 64, digest)
    ensures ParseHash(s) == Ok(NixHash(Sha1, digest)) <==> HashText(s, "sha1:", 20, digest)
    ensures ParseHash(s) == Ok(NixHash(Md5, digest)) <==> HashText(s, "md5:", 16, digest)
  {
    hide Decode, SplitOnce;
    HashTextOf(s, Sha256, "sha256", 32, digest);
    HashTextOf(s, Sha512, "sha512", 64, digest);
    HashTextOf(s, Sha1, "sha1", 20, digest);
    HashTextOf(s, Md5, "md5", 16, digest);
    assert "sha256" + ":" == "sha256:" && "sha512" + ":" == "sha512:" && "sha1" + ":" == "sha1:"
           && "md5" + ":" == "md5:";
  }

  lemma HashTextOf(s: string, algo: HashAlgo, name: string, bytes: nat, digest: seq<bv8>)
    requires ':' !in name && DigestLen(algo) == bytes && forall text :: ParseAlgo(text) == Some(algo) <==> text == name
    ensures ParseHash(s) == Ok(NixHash(algo, digest)) <==> HashText(s, name + ":", bytes, digest)
  {
    hide Decode, SplitOnce, ParseAlgo;
    SplitOnceJoins(s, ":");
    if ParseHash(s) == Ok(NixHash(algo, digest)) {
      var text := SplitOnce(s, ":").value.1;
      assert s == name + ":" + text;
    }
    if HashText(s, name + ":", bytes, digest) {
      var text :| s == name + ":" + text && Decode(text) == Ok(digest);
      SplitOnceFirst(name, ":", text);
    }
  }

  /** Why a text is no hash: no colon, an unknown name before the first one, what the decoder reports, or a digest of
      another length, in this order. */
  lemma ParseHashFailures(s: string, name: string, text: string)
    ensures ':' !in s ==> ParseHash(s) == Err(NarInfoParse(MissingSeparator))
    ensures s == name + ":" + text && ':' !in name ==>
              var known := name == "sha256" || name == "sha512" || name == "sha1" || name == "md5";
              && (!known ==> ParseHash(s) == Err(NarInfoParse(UnknownAlgorithm)))
              && (known && !Decode(text).Ok? ==> ParseHash(s) == Decode(text).PropagateFailure())
              && (known && Decode(text).Ok? ==>
                    ParseHash(s).Ok? || ParseHash(s) == Err(NarInfoParse(DigestLength)))
  {
    hide Decode, SplitOnce;
    if ':' !in s {
      SplitOnceNone(s, ":");
    }
    if s == name + ":" + text && ':' !in name {
      SplitOnceFirst(name, ":", text);
    }
  }
}
