/**
 The flake allowlist: the glob matcher (`allowlist.rs`) against a declarative
 meaning of patterns, and the request validator (`eval.rs` in niphas-core) whose
 ASCII guarantee the matcher's byte slicing depends on.
 */
module Globs {
  import opened Outcomes
  import opened Text

  //////////////////////////////////////////////////////////////////////////////
  // What a pattern means
  //////////////////////////////////////////////////////////////////////////////

  function StarCount(pattern: string): nat {
    if pattern == "" then 0 else (if pattern[0] == '*' then 1 else 0) + StarCount(pattern[1..])
  }

  /** The pattern with its stars replaced, in order. */
  function Fill(pattern: string, stars: seq<string>): string
    requires |stars| == StarCount(pattern)
  {
    if pattern == "" then ""
    else if pattern[0] == '*' then stars[0] + Fill(pattern[1..], stars[1..])
    else [pattern[0]] + Fill(pattern[1..], stars)
  }

  ghost predicate Matches(input: string, pattern: string) {
    exists stars: seq<string> :: |stars| == StarCount(pattern) && Fill(pattern, stars) == input
  }

  lemma MatchesEmpty(input: string)
    ensures Matches(input, "") <==> input == ""
  {
    var none: seq<string> := [];
    assert Fill("", none) == "";
  }

  lemma MatchesLiteral(input: string, pattern: string)
    requires pattern != "" && pattern[0] != '*'
    ensures Matches(input, pattern) <==> input != "" && input[0] == pattern[0] && Matches(input[1..], pattern[1..])
  {
    if Matches(input, pattern) {
      var stars: seq<string> :| |stars| == StarCount(pattern) && Fill(pattern, stars) == input;
      assert Fill(pattern[1..], stars) == input[1..];
    }
    if input != "" && input[0] == pattern[0] && Matches(input[1..], pattern[1..]) {
      var stars: seq<string> :| |stars| == StarCount(pattern[1..]) && Fill(pattern[1..], stars) == input[1..];
      assert Fill(pattern, stars) == input;
    }
  }

  lemma MatchesStar(input: string, pattern: string)
    requires pattern != "" && pattern[0] == '*'
    ensures Matches(input, pattern) <==> exists k :: 0 <= k <= |input| && Matches(input[k..], pattern[1..])
  {
    if Matches(input, pattern) {
      var stars: seq<string> :| |stars| == StarCount(pattern) && Fill(pattern, stars) == input;
      var k := |stars[0]|;
      assert input[k..] == Fill(pattern[1..], stars[1..]);
      assert Matches(input[k..], pattern[1..]);
    }
    forall k | 0 <= k <= |input| && Matches(input[k..], pattern[1..])
      ensures Matches(input, pattern)
    {
      var rest: seq<string> :| |rest| == StarCount(pattern[1..]) && Fill(pattern[1..], rest) == input[k..];
      var stars := [input[..k]] + rest;
      assert stars[1..] == rest;
      assert Fill(pattern, stars) == input[..k] + input[k..] == input;
    }
  }

  lemma LoneStarMatches(input: string)
    ensures Matches(input, "*")
  {
    MatchesStar(input, "*");
    assert "*"[1..] == "" && input[|input|..] == "";
    MatchesEmpty("");
  }

  //////////////////////////////////////////////////////////////////////////////
  // The matcher
  //////////////////////////////////////////////////////////////////////////////

  /** `Aborted` is a string slice at a byte offset inside a character. */
  datatype Verdict = Yes | No | Aborted

  function Glob(input: string, pattern: string): Verdict
    decreases |pattern|, 0
  {
    if pattern != "" && pattern[0] == '*' then
      if |pattern| == 1 then Yes else TryFrom(input, pattern[1..], 0)
    else if pattern != "" && input != "" then
      if pattern[0] == input[0] then Glob(input[1..], pattern[1..]) else No
    else if pattern == "" && input == "" then Yes
    else No
  }

  /** The rest of the pattern tried at every byte offset from `offset` on. */
  function TryFrom(input: string, pattern: string, offset: nat): Verdict
    decreases |pattern|, 1 + (if offset <= ByteLen(input) then ByteLen(input) - offset + 1 else 0)
  {
    if offset > ByteLen(input) then No
    else
      match CharIndex(input, offset)
      case None => Aborted
      case Some(k) =>
        CharIndexMeaning(input, offset);
        var v := Glob(input[k..], pattern);
        if v == No then TryFrom(input, pattern, offset + 1) else v
  }

  /** The matcher as written: two cursors, and a recursive attempt per byte offset at a star. */
  method MatchesGlob(input: string, pattern: string) returns (v: Verdict)
    ensures v == Glob(input, pattern)
    decreases |pattern|
  {
    hide ByteLen, CharIndex;
    var i, p := 0, 0;
    assert input[0..] == input && pattern[0..] == pattern;
    while true
      invariant 0 <= i <= |input| && 0 <= p <= |pattern|
      invariant Glob(input[i..], pattern[p..]) == Glob(input, pattern)
      decreases |pattern| - p
    {
      if p < |pattern| && pattern[p] == '*' {
        p := p + 1;
        assert pattern[p - 1..][1..] == pattern[p..];
        if p == |pattern| {
          return Yes;
        }
        var remainingPattern, remainingInput := pattern[p..], input[i..];
        var offset := 0;
        while offset <= ByteLen(remainingInput)
          invariant TryFrom(remainingInput, remainingPattern, offset) == Glob(input, pattern)
        {
          var at := CharIndex(remainingInput, offset);
          if at.None? {
            return Aborted;
          }
          CharIndexMeaning(remainingInput, offset);
          v := MatchesGlob(remainingInput[at.value..], remainingPattern);
          if v != No {
            return;
          }
          offset := offset + 1;
        }
        return No;
      } else if p < |pattern| && i < |input| {
        assert input[i..][1..] == input[i + 1..] && pattern[p..][1..] == pattern[p + 1..];
        if pattern[p] == input[i] {
          p := p + 1;
          i := i + 1;
        } else {
          return No;
        }
      } else if p == |pattern| && i == |input| {
        return Yes;
      } else {
        return No;
      }
    }
  }

  /** Whenever the matcher returns, its answer is the meaning of the pattern. */
  lemma {:induction false} GlobCorrect(input: string, pattern: string)
    ensures Glob(input, pattern) == Yes ==> Matches(input, pattern)
    ensures Glob(input, pattern) == No ==> !Matches(input, pattern)
    decreases |pattern|, 0
  {
    hide Matches, TryFrom;
    if pattern == "" {
      MatchesEmpty(input);
    } else if pattern[0] == '*' {
      if |pattern| == 1 {
        assert pattern == "*";
        LoneStarMatches(input);
      } else {
        MatchesStar(input, pattern);
        TryCorrect(input, pattern[1..], 0);
      }
    } else {
      MatchesLiteral(input, pattern);
      if input != "" {
        GlobCorrect(input[1..], pattern[1..]);
      }
    }
  }

  lemma {:induction false} TryCorrect(input: string, pattern: string, offset: nat)
    ensures TryFrom(input, pattern, offset) == Yes ==> exists k :: 0 <= k <= |input| && Matches(input[k..], pattern)
    ensures TryFrom(input, pattern, offset) == No ==>
              forall k :: 0 <= k <= |input| && ByteLen(input[..k]) >= offset ==> !Matches(input[k..], pattern)
    decreases |pattern|, 1 + (if offset <= ByteLen(input) then ByteLen(input) - offset + 1 else 0)
  {
    hide Matches, Glob, CharIndex, ByteLen;
    forall k | 0 <= k <= |input|
      ensures ByteLen(input[..k]) <= ByteLen(input)
    {
      ByteLenAppend(input[..k], input[k..]);
      assert input == input[..k] + input[k..];
    }
    if offset <= ByteLen(input) && CharIndex(input, offset).Some? {
      CharIndexMeaning(input, offset);
      GlobCorrect(input[CharIndex(input, offset).value..], pattern);
      if Glob(input[CharIndex(input, offset).value..], pattern) == No {
        TryCorrect(input, pattern, offset + 1);
      }
    }
  }

  lemma {:induction false} AsciiNeverAborts(input: string, pattern: string)
    requires IsAscii(input)
    ensures Glob(input, pattern) != Aborted
    decreases |pattern|, 0
  {
    hide TryFrom;
    if pattern != "" && pattern[0] == '*' {
      if |pattern| > 1 {
        AsciiTryNeverAborts(input, pattern[1..], 0);
      }
    } else if pattern != "" && input != "" {
      AsciiNeverAborts(input[1..], pattern[1..]);
    }
  }

  lemma {:induction false} AsciiTryNeverAborts(input: string, pattern: string, offset: nat)
    requires IsAscii(input)
    ensures TryFrom(input, pattern, offset) != Aborted
    decreases |pattern|, 1 + (if offset <= ByteLen(input) then ByteLen(input) - offset + 1 else 0)
  {
    hide Glob, CharIndex, ByteLen;
    ByteLenBounds(input);
    if offset <= |input| {
      CharIndexAscii(input, offset);
      AsciiNeverAborts(input[offset..], pattern);
      AsciiTryNeverAborts(input, pattern, offset + 1);
    }
  }

  /** On ASCII input the matcher decides the pattern. */
  lemma GlobDecides(input: string, pattern: string)
    requires IsAscii(input)
    ensures Glob(input, pattern) == if Matches(input, pattern) then Yes else No
  {
    GlobCorrect(input, pattern);
    AsciiNeverAborts(input, pattern);
  }

  /** A byte offset inside a character. */
  lemma {:induction false} InsideCharacter(s: string) returns (offset: nat)
    requires !IsAscii(s)
    ensures offset <= ByteLen(s) && CharIndex(s, offset).None?
  {
    if s[0] as int >= 128 {
      offset := 1;
    } else {
      assert s == [s[0]] + s[1..];
      offset := InsideCharacter(s[1..]);
      offset := offset + 1;
    }
  }

  lemma {:induction false} LongLiteralFails(input: string, pattern: string)
    requires '*' !in pattern && |pattern| > |input|
    ensures Glob(input, pattern) == No
    decreases |pattern|
  {
    if input != "" {
      LongLiteralFails(input[1..], pattern[1..]);
    }
  }

  lemma {:induction false} TryAborts(input: string, pattern: string, offset: nat, bad: nat)
    requires '*' !in pattern && |pattern| > |input| && offset <= bad <= ByteLen(input) && CharIndex(input, bad).None?
    ensures TryFrom(input, pattern, offset) == Aborted
    decreases bad - offset
  {
    hide ByteLen, CharIndex, Glob;
    if CharIndex(input, offset).Some? {
      CharIndexMeaning(input, offset);
      LongLiteralFails(input[CharIndex(input, offset).value..], pattern);
      TryAborts(input, pattern, offset + 1, bad);
    }
  }

  /** The matcher aborts for some pattern exactly on the inputs that are not ASCII: a star before more literals than the
      input has characters makes it slice at every byte. */
  lemma AbortsExactly(input: string)
    ensures (forall pattern :: Glob(input, pattern) != Aborted) <==> IsAscii(input)
  {
    hide TryFrom, IsAscii;
    if IsAscii(input) {
      forall pattern
        ensures Glob(input, pattern) != Aborted
      {
        AsciiNeverAborts(input, pattern);
      }
    } else {
      var bad := InsideCharacter(input);
      var literals := seq(|input| + 1, _ => 'x');
      TryAborts(input, literals, 0, bad);
      assert (['*'] + literals)[1..] == literals;
      assert Glob(input, ['*'] + literals) == Aborted;
    }
  }

  //////////////////////////////////////////////////////////////////////////////
  // The documented meaning of a star
  //////////////////////////////////////////////////////////////////////////////

  /** As documented, a star stands for text without a slash. */
  ghost predicate MatchesAsDocumented(input: string, pattern: string) {
    exists stars: seq<string> ::
      |stars| == StarCount(pattern) && Fill(pattern, stars) == input
          && forall i :: 0 <= i < |stars| ==> '/' !in stars[i]
  }

  function Slashes(s: string): nat {
    if s == "" then 0 else (if s[0] == '/' then 1 else 0) + Slashes(s[1..])
  }

  lemma {:induction false} SlashesAppend(a: string, b: string)
    ensures Slashes(a + b) == Slashes(a) + Slashes(b)
  {
    if a == "" {
      assert a + b == b;
    } else {
      assert (a + b)[1..] == a[1..] + b;
      SlashesAppend(a[1..], b);
    }
  }

  lemma {:induction false} NoSlashes(s: string)
    ensures Slashes(s) == 0 <==> '/' !in s
  {
    if s != "" {
      NoSlashes(s[1..]);
      assert s == [s[0]] + s[1..];
    }
  }

  lemma {:induction false} SlashesOfFill(pattern: string, stars: seq<string>)
    requires |stars| == StarCount(pattern)
    ensures Slashes(Fill(pattern, stars)) >= Slashes(pattern)
    ensures Slashes(Fill(pattern, stars)) == Slashes(pattern) <==> forall i :: 0 <= i < |stars| ==> '/' !in stars[i]
  {
    if pattern != "" {
      if pattern[0] == '*' {
        SlashesOfFill(pattern[1..], stars[1..]);
        SlashesAppend(stars[0], Fill(pattern[1..], stars[1..]));
        NoSlashes(stars[0]);
        assert forall i :: 0 < i < |stars| ==> stars[i] == stars[1..][i - 1];
      } else {
        SlashesOfFill(pattern[1..], stars);
        SlashesAppend([pattern[0]], Fill(pattern[1..], stars));
      }
    }
  }

  /** The code's meaning is the documented one, for one input, exactly when input and pattern have the same number of
      slashes. */
  lemma DocumentedWhenSlashesAgree(input: string, pattern: string)
    ensures MatchesAsDocumented(input, pattern) <==> Matches(input, pattern) && Slashes(input) == Slashes(pattern)
  {
    hide Fill, Slashes;
    forall stars: seq<string> | |stars| == StarCount(pattern) && Fill(pattern, stars) == input
      ensures (forall i :: 0 <= i < |stars| ==> '/' !in stars[i]) <==> Slashes(input) == Slashes(pattern)
    {
      SlashesOfFill(pattern, stars);
    }
  }

  lemma {:induction false} StarCountMeaning(pattern: string)
    ensures StarCount(pattern) == 0 <==> '*' !in pattern
  {
    if pattern != "" {
      StarCountMeaning(pattern[1..]);
      assert pattern == [pattern[0]] + pattern[1..];
    }
  }

  /** The two meanings agree on every input exactly for the patterns without a star. */
  lemma DocumentedForAllInputs(pattern: string)
    ensures (forall input :: Matches(input, pattern) <==> MatchesAsDocumented(input, pattern)) <==> '*' !in pattern
  {
    hide Fill, Slashes;
    StarCountMeaning(pattern);
    if '*' in pattern {
      var stars := seq(StarCount(pattern), _ => "/");
      var input := Fill(pattern, stars);
      SlashesOfFill(pattern, stars);
      assert '/' in stars[0];
      assert Matches(input, pattern);
      DocumentedWhenSlashesAgree(input, pattern);
    } else {
      forall input
        ensures Matches(input, pattern) <==> MatchesAsDocumented(input, pattern)
      {
        if Matches(input, pattern) {
          var stars: seq<string> :| |stars| == StarCount(pattern) && Fill(pattern, stars) == input;
          assert stars == [];
        }
      }
    }
  }

  //////////////////////////////////////////////////////////////////////////////
  // The request validator and the allowlist
  //////////////////////////////////////////////////////////////////////////////

  predicate IsAlpha(c: char) { 'a' <= c <= 'z' || 'A' <= c <= 'Z' }

  predicate IsAlphanumeric(c: char) { IsAlpha(c) || '0' <= c <= '9' }

  predicate SchemeChar(c: char) { IsAlphanumeric(c) || c == '+' || c == '-' || c == '.' }

  predicate PathChar(c: char) {
    || IsAlphanumeric(c) || c == '/' || c == '_' || c == '-' || c == '.' || c == '@' || c == ':'
    || c == '#' || c == '+' || c == '?' || c == '=' || c == '&' || c == '~'
  }

  /** `scheme:path`, both non-empty, of the permitted characters. */
  predicate SafeFlakeRef(s: string) {
    && SplitOnce(s, ":").Some?
    && var (scheme, path) := SplitOnce(s, ":").value;
       && scheme != "" && IsAlpha(scheme[0]) && (forall i :: 1 <= i < |scheme| ==> SchemeChar(scheme[i]))
       && path != "" && forall i :: 0 <= i < |path| ==> PathChar(path[i])
  }

  method ValidateFlakeRef(flakeRef: string) returns (r: Outcome<(), Error>)
    ensures r == if SafeFlakeRef(flakeRef) then Ok(()) else Err(InvalidInput)
  {
    if flakeRef == "" {
      return Err(InvalidInput);
    }
    var parts := SplitOnce(flakeRef, ":");
    if parts.None? {
      return Err(InvalidInput);
    }
    var (scheme, path) := parts.value;
    if scheme == "" || !IsAlpha(scheme[0]) {
      return Err(InvalidInput);
    }
    for i := 1 to |scheme|
      invariant forall j :: 1 <= j < i ==> SchemeChar(scheme[j])
    {
      if !SchemeChar(scheme[i]) {
        return Err(InvalidInput);
      }
    }
    if path == "" {
      return Err(InvalidInput);
    }
    for i := 0 to |path|
      invariant forall j :: 0 <= j < i ==> PathChar(path[j])
    {
      if !PathChar(path[i]) {
        return Err(InvalidInput);
      }
    }
    r := Ok(());
  }

  lemma SafeIsAscii(s: string)
    requires SafeFlakeRef(s)
    ensures IsAscii(s)
  {
    SplitOnceJoins(s, ":");
    hide SplitOnce;
    var (scheme, path) := SplitOnce(s, ":").value;
    forall i | 0 <= i < |s|
      ensures s[i] as int < 128
    {
      if i < |scheme| {
        assert s[i] == scheme[i];
      } else if i > |scheme| {
        assert s[i] == path[i - |scheme| - 1];
      }
    }
  }

  datatype Admission = Admitted | Denied | Crashed

  /** The allowlist scan of `allowlist::validate_flake_ref`; an empty list admits nothing. */
  method CheckAllowlist(flakeRef: string, allowlist: seq<string>) returns (a: Admission)
    ensures a == Admitted ==> exists i :: 0 <= i < |allowlist| && Matches(flakeRef, allowlist[i])
    ensures a == Denied ==> forall i :: 0 <= i < |allowlist| ==> !Matches(flakeRef, allowlist[i])
    ensures a == Crashed ==> !IsAscii(flakeRef)
  {
    hide Glob, Matches, IsAscii;
    if allowlist == [] {
      return Denied;
    }
    for i := 0 to |allowlist|
      invariant forall j :: 0 <= j < i ==> !Matches(flakeRef, allowlist[j])
    {
      GlobCorrect(flakeRef, allowlist[i]);
      if IsAscii(flakeRef) {
        AsciiNeverAborts(flakeRef, allowlist[i]);
      }
      var v := MatchesGlob(flakeRef, allowlist[i]);
      if v == Aborted {
        return Crashed;
      }
      if v == Yes {
        return Admitted;
      }
    }
    a := Denied;
  }

  /** The first two steps of `evaluate`: every request is decided, none aborts the service, and only
      references that are both safe and matched by some pattern go on to evaluation. */
  method AdmitRequest(flakeRef: string, allowlist: seq<string>) returns (a: Admission)
    ensures a != Crashed
    ensures a == Admitted <==>
            SafeFlakeRef(flakeRef) && exists i :: 0 <= i < |allowlist| && Matches(flakeRef, allowlist[i])
  {
    var safe := ValidateFlakeRef(flakeRef);
    if !safe.Ok? {
      return Denied;
    }
    SafeIsAscii(flakeRef);
    a := CheckAllowlist(flakeRef, allowlist);
  }

  const UPPER: string := "ABCDEFGHIJKLMNOPQRSTUVWXYZ"
  const LOWER: string := "abcdefghijklmnopqrstuvwxyz"
  const FIGURES: string := "0123456789"

  lemma UpperAt(i: nat)
    requires i < 26
    ensures UPPER[i] as int == 'A' as int + i
  {
  }

  lemma LowerAt(i: nat)
    requires i < 26
    ensures LOWER[i] as int == 'a' as int + i
  {
  }

  lemma FigureAt(i: nat)
    requires i < 10
    ensures FIGURES[i] as int == '0' as int + i
  {
  }

  lemma InARow(s: string, first: int, c: char)
    requires forall i :: 0 <= i < |s| ==> s[i] as int == first + i
    ensures c in s <==> first <= c as int < first + |s|
  {
    if first <= c as int < first + |s| {
      assert s[c as int - first] == c;
    }
  }

  lemma LettersAndFigures(c: char)
    ensures c in UPPER <==> 'A' <= c <= 'Z'
    ensures c in LOWER <==> 'a' <= c <= 'z'
    ensures c in FIGURES <==> '0' <= c <= '9'
  {
    assert |UPPER| == 26 && |LOWER| == 26 && |FIGURES| == 10;
    forall i | 0 <= i < |UPPER| ensures UPPER[i] as int == 65 + i { UpperAt(i); }
    forall i | 0 <= i < |LOWER| ensures LOWER[i] as int == 97 + i { LowerAt(i); }
    forall i | 0 <= i < |FIGURES| ensures FIGURES[i] as int == 48 + i { FigureAt(i); }
    InARow(UPPER, 65, c);
    InARow(LOWER, 97, c);
    InARow(FIGURES, 48, c);
  }

  /** The characters that the validator allows, written out. */
  lemma AllowedCharacters(c: char)
    ensures IsAlpha(c) <==> c in UPPER || c in LOWER
    ensures SchemeChar(c) <==> c in UPPER || c in LOWER || c in FIGURES || c in "+-."
    ensures PathChar(c) <==> c in UPPER || c in LOWER || c in FIGURES || c in "/_-.@:#+?=&~"
  {
    LettersAndFigures(c);
  }
}
