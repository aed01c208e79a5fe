/**
 The archive parser as a reader of a stream (`nar.rs`): its verdict depends only
 on what it has read. More bytes after the end change nothing but the rest, and
 the only failure that more bytes can mend is the end of the stream.
 */
module NarStreams {
  import opened Outcomes
  import opened Base32
  import opened Nar

  /** `q` is what `p` becomes when `more` follows on the stream. */
  predicate Continues<T(==)>(p: Parsed<T>, q: Parsed<T>, more: Bytes) {
    && (p.Ok? ==> q == Ok((p.value.0, p.value.1 + more)))
    && (p.Err? && p.error != NarParse(UnexpectedEof) ==> q == p)
  }

  predicate ContinuesPast(p: Outcome<Bytes, Error>, q: Outcome<Bytes, Error>, more: Bytes) {
    && (p.Ok? ==> q == Ok(p.value + more))
    && (p.Err? && p.error != NarParse(UnexpectedEof) ==> q == p)
  }

  lemma ReadExactContinues(b: Bytes, n: nat, more: Bytes)
    ensures Continues(ReadExact(b, n), ReadExact(b + more, n), more)
  {
    if |b| >= n {
      assert (b + more)[..n] == b[..n] && (b + more)[n..] == b[n..] + more;
    }
  }

  lemma ReadBytesContinues(b: Bytes, more: Bytes)
    ensures Continues(ReadBytes(b), ReadBytes(b + more), more)
  {
    hide BytesValue, ReadExact, AllZero;
    ReadExactContinues(b, 8, more);
    if ReadExact(b, 8).Ok? {
      var (prefix, afterLen) := ReadExact(b, 8).value;
      var len := BytesValue(prefix);
      ReadExactContinues(afterLen, len, more);
      if ReadExact(afterLen, len).Ok? {
        ReadExactContinues(ReadExact(afterLen, len).value.1, PadLength(len), more);
      }
      hide PadLength;
    }
    OnlyEof(b);
  }

  /** Reading bytes fails at the end of the stream or by what it has read. */
  lemma OnlyEof(b: Bytes)
    ensures ReadBytes(b).Err? ==> ReadBytes(b).error.NarParse?
  {
    hide BytesValue;
  }

  lemma ReadStrContinues(b: Bytes, more: Bytes)
    ensures Continues(ReadStr(b), ReadStr(b + more), more)
  {
    hide ReadBytes, Utf8;
    ReadBytesContinues(b, more);
  }

  lemma ExpectStrContinues(b: Bytes, token: Token, more: Bytes)
    ensures ContinuesPast(ExpectStr(b, token), ExpectStr(b + more, token), more)
  {
    hide ReadStr, Word;
    ReadStrContinues(b, more);
  }

  lemma ParseRegularContinues(b: Bytes, more: Bytes)
    ensures Continues(ParseRegular(b), ParseRegular(b + more), more)
  {
    hide ReadStr, ReadBytes, ExpectStr, Word;
    ReadStrContinues(b, more);
    if ReadStr(b).Ok? {
      var b1 := ReadStr(b).value.1;
      ReadBytesContinues(b1, more);
      ExpectStrContinues(b1, Empty, more);
      if ExpectStr(b1, Empty).Ok? {
        var b2 := ExpectStr(b1, Empty).value;
        ExpectStrContinues(b2, Contents, more);
        if ExpectStr(b2, Contents).Ok? {
          ReadBytesContinues(ExpectStr(b2, Contents).value, more);
        }
      }
    }
  }

  lemma ParseSymlinkContinues(b: Bytes, more: Bytes)
    ensures Continues(ParseSymlink(b), ParseSymlink(b + more), more)
  {
    hide ReadStr, ExpectStr, Word;
    ExpectStrContinues(b, Target, more);
    if ExpectStr(b, Target).Ok? {
      ReadStrContinues(ExpectStr(b, Target).value, more);
    }
  }

  lemma {:induction false} ParseDirectoryContinues(b: Bytes, depth: nat, maxDepth: nat, more: Bytes)
    requires depth <= maxDepth < U16
    ensures Continues(ParseDirectory(b, depth, maxDepth), ParseDirectory(b + more, depth, maxDepth), more)
    decreases |b|, 2
  {
    hide ParseEntries;
    var inner := (depth + 1) % U16;
    if inner <= maxDepth {
      ParseEntriesContinues(b, None, inner, maxDepth, more);
    }
  }

  lemma {:induction false} ParseEntriesContinues(b: Bytes, last: Option<Bytes>, depth: nat, maxDepth: nat, more: Bytes)
    requires depth <= maxDepth < U16
    ensures Continues(ParseEntries(b, last, depth, maxDepth), ParseEntries(b + more, last, depth, maxDepth), more)
    decreases |b|, 1
  {
    hide ReadStr, ParseEntry, Word;
    ReadStrContinues(b, more);
    if ReadStr(b).Ok? {
      var (next, b1) := ReadStr(b).value;
      if next == Word(EntryKey) && next != Word(Close) {
        ParseEntryContinues(b1, last, depth, maxDepth, more);
        if ParseEntry(b1, last, depth, maxDepth).Ok? {
          var (entry, b2) := ParseEntry(b1, last, depth, maxDepth).value;
          ParseEntriesContinues(b2, Some(entry.name), depth, maxDepth, more);
        }
      }
    }
  }

  lemma {:induction false} ParseEntryContinues(b: Bytes, last: Option<Bytes>, depth: nat, maxDepth: nat, more: Bytes)
    requires depth <= maxDepth < U16
    ensures Continues(ParseEntry(b, last, depth, maxDepth), ParseEntry(b + more, last, depth, maxDepth), more)
    decreases |b|, 1
  {
    hide ReadStr, ExpectStr, Word, ParseNodeInner, NameFault, LessOrEqual;
    ExpectStrContinues(b, Open, more);
    if ExpectStr(b, Open).Ok? {
      var b1 := ExpectStr(b, Open).value;
      ExpectStrContinues(b1, NameKey, more);
      if ExpectStr(b1, NameKey).Ok? {
        var b2 := ExpectStr(b1, NameKey).value;
        ReadStrContinues(b2, more);
        if ReadStr(b2).Ok? {
          var (name, b3) := ReadStr(b2).value;
          ExpectStrContinues(b3, NodeKey, more);
          if ExpectStr(b3, NodeKey).Ok? {
            var b4 := ExpectStr(b3, NodeKey).value;
            ParseNodeInnerContinues(b4, depth, maxDepth, more);
            if ParseNodeInner(b4, depth, maxDepth).Ok? {
              ExpectStrContinues(ParseNodeInner(b4, depth, maxDepth).value.1, Close, more);
            }
          }
        }
      }
    }
  }

  lemma {:induction false} ParseNodeInnerContinues(b: Bytes, depth: nat, maxDepth: nat, more: Bytes)
    requires depth <= maxDepth < U16
    ensures Continues(ParseNodeInner(b, depth, maxDepth), ParseNodeInner(b + more, depth, maxDepth), more)
    decreases |b|, 0
  {
    hide ReadStr, ExpectStr, Word, ParseRegular, ParseSymlink, ParseDirectory;
    ExpectStrContinues(b, Open, more);
    if ExpectStr(b, Open).Ok? {
      var b1 := ExpectStr(b, Open).value;
      ExpectStrContinues(b1, Type, more);
      if ExpectStr(b1, Type).Ok? {
        var b2 := ExpectStr(b1, Type).value;
        ReadStrContinues(b2, more);
        if ReadStr(b2).Ok? {
          KindContinues(ReadStr(b2).value.1, more);
          ParseDirectoryContinues(ReadStr(b2).value.1, depth, maxDepth, more);
        }
      }
    }
  }

  /** A file or link with its closing token. */
  lemma KindContinues(b: Bytes, more: Bytes)
    ensures Continues(ParseRegular(b), ParseRegular(b + more), more)
    ensures Continues(ParseSymlink(b), ParseSymlink(b + more), more)
    ensures ParseRegular(b).Ok? ==>
              var rest := ParseRegular(b).value.1;
              ContinuesPast(ExpectStr(rest, Close), ExpectStr(rest + more, Close), more)
    ensures ParseSymlink(b).Ok? ==>
              var rest := ParseSymlink(b).value.1;
              ContinuesPast(ExpectStr(rest, Close), ExpectStr(rest + more, Close), more)
  {
    hide ParseRegular, ParseSymlink, ExpectStr;
    ParseRegularContinues(b, more);
    ParseSymlinkContinues(b, more);
    if ParseRegular(b).Ok? {
      ExpectStrContinues(ParseRegular(b).value.1, Close, more);
    }
    if ParseSymlink(b).Ok? {
      ExpectStrContinues(ParseSymlink(b).value.1, Close, more);
    }
  }

  lemma ParseNodeContinues(b: Bytes, depth: nat, maxDepth: nat, more: Bytes)
    requires depth <= maxDepth < U16
    ensures Continues(ParseNode(b, depth, maxDepth), ParseNode(b + more, depth, maxDepth), more)
  {
    hide ReadStr, ExpectStr, Word, ParseRegular, ParseSymlink, ParseDirectory;
    ExpectStrContinues(b, Open, more);
    if ExpectStr(b, Open).Ok? {
      var b1 := ExpectStr(b, Open).value;
      ExpectStrContinues(b1, Type, more);
      if ExpectStr(b1, Type).Ok? {
        var b2 := ExpectStr(b1, Type).value;
        ReadStrContinues(b2, more);
        if ReadStr(b2).Ok? {
          var b3 := ReadStr(b2).value.1;
          KindContinues(b3, more);
          ParseDirectoryContinues(b3, depth, maxDepth, more);
          if ParseDirectory(b3, depth, maxDepth).Ok? {
            ExpectStrContinues(ParseDirectory(b3, depth, maxDepth).value.1, Close, more);
          }
        }
      }
    }
  }

  /** The verdict on a stream stays when more follows, unless it was that the stream had ended. */
  lemma VerdictIsFinal(b: Bytes, maxDepth: nat, more: Bytes)
    requires maxDepth < U16
    ensures var p, q := ParseArchive(b, maxDepth), ParseArchive(b + more, maxDepth);
            && (p.Ok? ==> q == Ok((p.value.0, p.value.1 + more)))
            && (p.Err? && p.error != NarParse(UnexpectedEof) ==> q == p)
  {
    hide ExpectStr, ParseNode;
    ExpectStrContinues(b, Magic, more);
    if ExpectStr(b, Magic).Ok? {
      ParseNodeContinues(ExpectStr(b, Magic).value, 0, maxDepth, more);
    }
  }

  /** An archive cut short anywhere is reported as the end of the stream, and as nothing else. */
  lemma TruncatedIsEof(node: Node, cut: nat, maxDepth: nat)
    requires maxDepth < U16 && WellFormed(node) && WithinDepth(Nesting(node), 0, maxDepth) && cut < |ArchiveOf(node)|
    ensures ParseArchive(ArchiveOf(node)[..cut], maxDepth) == Err(NarParse(UnexpectedEof))
  {
    hide ParseArchive, ArchiveOf, WellFormed, Nesting;
    var archive := ArchiveOf(node);
    var b, more := archive[..cut], archive[cut..];
    assert b + more == archive && archive + [] == archive;
    ParseArchiveExact(archive, node, [], maxDepth);
    VerdictIsFinal(b, maxDepth, more);
    assert more != [];
  }

  //////////////////////////////////////////////////////////////////////////////
  // Why an archive is refused
  //////////////////////////////////////////////////////////////////////////////

  /** A string is refused for its length first, then because the stream ends, then for its padding. */
  lemma ReadBytesFailures(b: Bytes)
    ensures |b| < 8 ==> ReadBytes(b) == Err(NarParse(UnexpectedEof))
    ensures |b| >= 8 && BytesValue(b[..8]) > 134_217_728 ==> ReadBytes(b) == Err(NarParse(StringTooLarge))
    ensures |b| >= 8 && BytesValue(b[..8]) <= 134_217_728 ==>
              var len := BytesValue(b[..8]);
              var padded := (8 + len + 7) / 8 * 8;
              && (|b| < padded ==> ReadBytes(b) == Err(NarParse(UnexpectedEof)))
              && (|b| >= padded ==>
                    if forall i :: 8 + len <= i < padded ==> b[i] == 0
                    then ReadBytes(b) == Ok((b[8..8 + len], b[padded..]))
                    else ReadBytes(b) == Err(NarParse(NonZeroPadding)))
  {
    hide BytesValue;
    if |b| >= 8 && BytesValue(b[..8]) <= 134_217_728 {
      var len := BytesValue(b[..8]);
      var padded := (8 + len + 7) / 8 * 8;
      PaddedLength(len);
      hide PadLength;
      if |b| >= padded {
        var data, pad := b[8..][..len], b[8..][len..][..PadLength(len)];
        assert data == b[8..8 + len];
        assert b[8..][len..][PadLength(len)..] == b[padded..];
        assert forall i :: 0 <= i < |pad| ==> pad[i] == b[8 + len + i];
        assert forall i :: 8 + len <= i < padded ==> b[i] == pad[i - 8 - len];
      }
    }
  }

  lemma PaddedLength(len: nat)
    ensures 8 + len + PadLength(len) == (8 + len + 7) / 8 * 8
  {
  }

  /** A name is refused for being empty, a dot name, or for a slash or zero byte, and only then for its place. */
  lemma NameRefusals(name: Bytes, rest: Bytes, last: Option<Bytes>, depth: nat, maxDepth: nat)
    requires depth <= maxDepth < U16 && |name| <= MAX_STRING && Utf8(name)
    ensures var b := Put(Word(Open), Put(Word(NameKey), Put(name, rest)));
            var r := ParseEntry(b, last, depth, maxDepth);
            && (name == [] ==> r == Err(NarParse(EmptyName)))
            && (name == [0x2e] || name == [0x2e, 0x2e] ==> r == Err(NarParse(DotName)))
            && (0x2f in name || 0 in name ==> r == Err(NarParse(ForbiddenCharacter)))
            && (ValidName(name) && last.Some? && !Before(last.value, name) ==> r == Err(NarParse(NotSorted)))
  {
    hide Put, Word, ReadStr, ExpectStr, Utf8, ParseNodeInner, Less;
    assert Ascii(".") == [0x2e] && Ascii("..") == [0x2e, 0x2e];
    ReadStrExact(Put(name, rest), name, rest);
    ExpectPut(NameKey, Put(name, rest));
    ExpectPut(Open, Put(Word(NameKey), Put(name, rest)));
    if last.Some? {
      OrderIsTotal(name, last.value);
      LessMeaning(last.value, name);
    }
  }

  /** A tree that keeps every rule but the depth limit is refused for its depth, wherever in it that is exceeded. */
  lemma {:induction false} TooDeepIsRefused(node: Node, rest: Bytes, depth: nat, maxDepth: nat)
    requires depth <= maxDepth < U16 && WellFormed(node) && !WithinDepth(Nesting(node), depth, maxDepth)
    ensures ParseNodeInner(SerOnto(node, rest), depth, maxDepth) == Err(NarParse(DepthExceeded))
    decreases node, 1
  {
    hide Put, Word, ReadStr, ExpectStr, Utf8, ParseRegular, ParseSymlink, FileOnto, EntriesOnto, ParseEntries;
    hide EntriesNesting;
    WordsDistinct();
    var entries := node.entries;
    var body := EntriesOnto(entries, Put(Word(Close), rest));
    ExpectPut(DirectoryKind, body);
    ExpectPut(Type, Put(Word(DirectoryKind), body));
    ExpectPut(Open, Put(Word(Type), Put(Word(DirectoryKind), body)));
    if (depth + 1) % U16 <= maxDepth {
      DepthOfDirectory(entries, depth, maxDepth);
      TooDeepEntries(entries, rest, None, (depth + 1) % U16, maxDepth);
    }
  }

  lemma {:induction false} TooDeepEntries(entries: seq<Entry>, rest: Bytes, last: Option<Bytes>, depth: nat,
      maxDepth: nat)
    requires depth <= maxDepth < U16 && WellFormedEntries(entries, last)
    requires !WithinDepth(EntriesNesting(entries), depth, maxDepth)
    ensures ParseEntries(EntriesOnto(entries, Put(Word(Close), rest)), last, depth, maxDepth)
         == Err(NarParse(DepthExceeded))
    decreases entries, 0
  {
    hide Put, Word, ReadStr, ExpectStr, Utf8, SerOnto, ParseNodeInner, Nesting, NameFault, Less, WellFormed;
    WordsDistinct();
    var e, more := entries[0], EntriesOnto(entries[1..], Put(Word(Close), rest));
    ExpectPut(EntryKey, EntryOnto(e, more));
    if WithinDepth(Nesting(e.node), depth, maxDepth) {
      NodeComplete(e.node, Put(Word(Close), more), depth, maxDepth);
      EntryComplete(e, more, last, depth, maxDepth);
      TooDeepEntries(entries[1..], rest, Some(e.name), depth, maxDepth);
    } else {
      TooDeepIsRefused(e.node, Put(Word(Close), more), depth, maxDepth);
      TooDeepEntry(e, more, last, depth, maxDepth);
    }
  }

  lemma TooDeepEntry(e: Entry, more: Bytes, last: Option<Bytes>, depth: nat, maxDepth: nat)
    requires depth <= maxDepth < U16 && WellFormedEntry(e, last)
    requires ParseNodeInner(SerOnto(e.node, Put(Word(Close), more)), depth, maxDepth) == Err(NarParse(DepthExceeded))
    ensures ParseEntry(EntryOnto(e, more), last, depth, maxDepth) == Err(NarParse(DepthExceeded))
  {
    hide Put, Word, ReadStr, ExpectStr, Utf8, SerOnto, ParseNodeInner, Nesting, NameFault, Less, WellFormed;
    var node := SerOnto(e.node, Put(Word(Close), more));
    ExpectPut(NodeKey, node);
    var named := Put(e.name, Put(Word(NodeKey), node));
    ReadStrExact(named, e.name, Put(Word(NodeKey), node));
    ExpectPut(NameKey, named);
    ExpectPut(Open, Put(Word(NameKey), named));
    if last.Some? {
      OrderIsTotal(e.name, last.value);
    }
  }
}
