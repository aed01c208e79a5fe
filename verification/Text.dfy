/**
 Text as sequences of Unicode scalar values, with the byte lengths and byte
 offsets that Rust string slices work in.
 */
module Text {
  import opened Outcomes
  import opened Sequences

  /** Length of a scalar value in UTF-8. */
  function Utf8Len(c: char): (n: nat)
    ensures 1 <= n <= 4
  {
    if c as int < 0x80 then 1
    else if c as int < 0x800 then 2
    else if c as int < 0x10000 then 3
    else 4
  }

  function ByteLen(s: string): nat {
    if s == "" then 0 else Utf8Len(s[0]) + ByteLen(s[1..])
  }

  lemma {:induction false} ByteLenAppend(a: string, b: string)
    ensures ByteLen(a + b) == ByteLen(a) + ByteLen(b)
  {
    if a == "" {
      assert a + b == b;
    } else {
      assert (a + b)[1..] == a[1..] + b;
      ByteLenAppend(a[1..], b);
    }
  }

  predicate IsAscii(s: string) {
    forall i :: 0 <= i < |s| ==> s[i] as int < 128
  }

  lemma {:induction false} ByteLenBounds(s: string)
    ensures |s| <= ByteLen(s)
    ensures IsAscii(s) <==> ByteLen(s) == |s|
  {
    if s != "" {
      ByteLenBounds(s[1..]);
      assert s == [s[0]] + s[1..];
    }
  }

  /** Unicode White_Space, as in `char::is_whitespace`. */
  predicate IsWhitespace(c: char) {
    var n := c as int;
    || 9 <= n <= 13 || n == 0x20 || n == 0x85 || n == 0xA0 || n == 0x1680
    || 0x2000 <= n <= 0x200A || n == 0x2028 || n == 0x2029 || n == 0x202F
    || n == 0x205F || n == 0x3000
  }

  //////////////////////////////////////////////////////////////////////////////
  // Byte offsets
  //////////////////////////////////////////////////////////////////////////////

  /** The character index at a byte offset, or None when the offset is not a character boundary. */
  function CharIndex(s: string, offset: nat): Option<nat> {
    if offset == 0 then Some(0)
    else if s == "" || offset < Utf8Len(s[0]) then None
    else
      var k :- CharIndex(s[1..], offset - Utf8Len(s[0]));
      Some(k + 1)
  }

  lemma {:induction false} CharIndexMeaning(s: string, offset: nat)
    ensures CharIndex(s, offset).Some? ==>
              CharIndex(s, offset).value <= |s| && ByteLen(s[..CharIndex(s, offset).value]) == offset
    ensures forall k :: 0 <= k <= |s| && ByteLen(s[..k]) == offset ==> CharIndex(s, offset) == Some(k)
  {
    forall k | 0 < k <= |s|
      ensures ByteLen(s[..k]) == Utf8Len(s[0]) + ByteLen(s[1..][..k - 1])
    {
      assert s[..k][1..] == s[1..][..k - 1];
    }
    if offset != 0 && s != "" && offset >= Utf8Len(s[0]) {
      CharIndexMeaning(s[1..], offset - Utf8Len(s[0]));
    }
  }

  lemma CharIndexAscii(s: string, offset: nat)
    requires offset <= |s| && IsAscii(s[..offset])
    ensures CharIndex(s, offset) == Some(offset)
  {
    ByteLenBounds(s[..offset]);
    CharIndexMeaning(s, offset);
  }

  //////////////////////////////////////////////////////////////////////////////
  // Prefixes and separators
  //////////////////////////////////////////////////////////////////////////////

  function StripPrefix(s: string, prefix: string): Option<string> {
    if prefix <= s then Some(s[|prefix|..]) else None
  }

  /** The two sides of the first occurrence of `sep`. */
  function SplitOnce(s: string, sep: string): Option<(string, string)>
    requires sep != ""
  {
    if sep <= s then Some(("", s[|sep|..]))
    else if s == "" then None
    else
      var (a, b) :- SplitOnce(s[1..], sep);
      Some(([s[0]] + a, b))
  }

  lemma {:induction false} SplitOnceJoins(s: string, sep: string)
    requires sep != ""
    ensures SplitOnce(s, sep).Some? ==>
              var (a, b) := SplitOnce(s, sep).value; s == a + sep + b
    ensures SplitOnce(s, sep).Some? && |sep| == 1 ==> sep[0] !in SplitOnce(s, sep).value.0
  {
    if sep <= s {
    } else if s != "" {
      SplitOnceJoins(s[1..], sep);
      if SplitOnce(s[1..], sep).Some? {
        var (a, b) := SplitOnce(s[1..], sep).value;
        assert s == [s[0]] + s[1..] == ([s[0]] + a) + sep + b;
        assert |sep| == 1 ==> (sep <= s <==> sep[0] == s[0]);
      }
    }
  }

  lemma {:induction false} SplitOnceFirst(a: string, sep: string, b: string)
    requires sep != "" && sep[0] !in a
    ensures SplitOnce(a + sep + b, sep) == Some((a, b))
  {
    var s := a + sep + b;
    if a == "" {
      assert s == sep + b;
    } else {
      assert s[0] == a[0] != sep[0];
      assert s[1..] == a[1..] + sep + b;
      SplitOnceFirst(a[1..], sep, b);
      assert [a[0]] + a[1..] == a;
    }
  }

  /** The separator is at this place. */
  predicate OccursAt(s: string, sep: string, k: nat) { k <= |s| && sep <= s[k..] }

  lemma {:induction false} SplitOnceFinds(s: string, sep: string, k: nat)
    requires sep != "" && OccursAt(s, sep, k)
    ensures SplitOnce(s, sep).Some? && |SplitOnce(s, sep).value.0| <= k
  {
    if !(sep <= s) {
      assert k > 0 by { assert s[0..] == s; }
      assert s[1..][k - 1..] == s[k..];
      SplitOnceFinds(s[1..], sep, k - 1);
    }
  }

  /** The split is at the first occurrence, and there is none exactly when nothing occurs. */
  lemma SplitOnceExactly(s: string, sep: string, a: string, b: string)
    requires sep != ""
    ensures SplitOnce(s, sep) == Some((a, b)) <==>
            s == a + sep + b && forall k: nat :: k < |a| ==> !OccursAt(s, sep, k)
    ensures SplitOnce(s, sep).None? <==> forall k: nat :: !OccursAt(s, sep, k)
  {
    hide SplitOnce;
    SplitOnceJoins(s, sep);
    forall k: nat | OccursAt(s, sep, k)
      ensures SplitOnce(s, sep).Some? && |SplitOnce(s, sep).value.0| <= k
    {
      SplitOnceFinds(s, sep, k);
    }
    if SplitOnce(s, sep).Some? {
      var (x, y) := SplitOnce(s, sep).value;
      assert s[|x|..] == sep + y;
      assert OccursAt(s, sep, |x|);
      if s == a + sep + b && forall k: nat :: k < |a| ==> !OccursAt(s, sep, k) {
        assert s[|a|..] == sep + b;
        assert OccursAt(s, sep, |a|);
        assert |a| == |x|;
        assert a == s[..|a|] == x;
        assert b == s[|a| + |sep|..] == y;
      }
    }
    if s == a + sep + b {
      assert s[|a|..] == sep + b;
      assert OccursAt(s, sep, |a|);
    }
  }

  lemma {:induction false} SplitOnceNone(s: string, sep: string)
    requires sep != "" && sep[0] !in s
    ensures SplitOnce(s, sep) == None
  {
    if s != "" {
      assert s[0] != sep[0];
      SplitOnceNone(s[1..], sep);
    }
  }

  //////////////////////////////////////////////////////////////////////////////
  // Whitespace and lines
  //////////////////////////////////////////////////////////////////////////////

  predicate NoWhitespace(s: string) { forall i :: 0 <= i < |s| ==> !IsWhitespace(s[i]) }

  function TrimStart(s: string): string {
    if s != "" && IsWhitespace(s[0]) then TrimStart(s[1..]) else s
  }

  function TrimEnd(s: string): string {
    if s != "" && IsWhitespace(s[|s| - 1]) then TrimEnd(s[..|s| - 1]) else s
  }

  function Trim(s: string): string { TrimEnd(TrimStart(s)) }

  predicate Trimmed(s: string) { s != "" ==> !IsWhitespace(s[0]) && !IsWhitespace(s[|s| - 1]) }

  lemma {:induction false} TrimEndResult(s: string)
    ensures TrimEnd(s) <= s
    ensures TrimEnd(s) != "" ==> !IsWhitespace(TrimEnd(s)[|TrimEnd(s)| - 1])
  {
    if s != "" && IsWhitespace(s[|s| - 1]) {
      TrimEndResult(s[..|s| - 1]);
    }
  }

  lemma {:induction false} TrimStartResult(s: string)
    ensures TrimStart(s) != "" ==> !IsWhitespace(TrimStart(s)[0])
  {
    if s != "" && IsWhitespace(s[0]) {
      TrimStartResult(s[1..]);
    }
  }

  lemma TrimIsTrimmed(s: string)
    ensures Trimmed(Trim(s))
  {
    TrimStartResult(s);
    TrimEndResult(TrimStart(s));
  }

  function StripCarriageReturn(s: string): string {
    if s != "" && s[|s| - 1] == '\r' then s[..|s| - 1] else s
  }

  /** `str::lines`. */
  function Lines(s: string): seq<string>
    decreases |s|
  {
    if s == "" then []
    else
      match SplitOnce(s, "\n")
      case None => [s]
      case Some((line, rest)) =>
        SplitOnceJoins(s, "\n");
        [StripCarriageReturn(line)] + Lines(rest)
  }

  /** Lines written one after the other, each with its newline. */
  function Unlines(lines: seq<string>): string {
    if lines == [] then "" else lines[0] + "\n" + Unlines(lines[1..])
  }

  predicate PlainLine(s: string) { '\n' !in s && (s != "" ==> s[|s| - 1] != '\r') }

  lemma {:induction false} LinesOfUnlines(lines: seq<string>)
    requires forall i :: 0 <= i < |lines| ==> PlainLine(lines[i])
    ensures Lines(Unlines(lines)) == lines
  {
    if lines != [] {
      SplitOnceFirst(lines[0], "\n", Unlines(lines[1..]));
      LinesOfUnlines(lines[1..]);
      assert lines == [lines[0]] + lines[1..];
    }
  }

  /** `str::split_whitespace`: the maximal runs of characters that are not whitespace. */
  function SplitWhitespace(s: string): seq<string>
    decreases |s|
  {
    if s == "" then []
    else if IsWhitespace(s[0]) then SplitWhitespace(s[1..])
    else
      var n := WordLength(s);
      [s[..n]] + SplitWhitespace(s[n..])
  }

  function WordLength(s: string): (n: nat)
    ensures n <= |s|
    ensures s != "" && !IsWhitespace(s[0]) ==> n > 0
  {
    if s == "" || IsWhitespace(s[0]) then 0 else 1 + WordLength(s[1..])
  }

  lemma {:induction false} WordLengthOf(w: string, rest: string)
    requires NoWhitespace(w) && (rest != "" ==> IsWhitespace(rest[0]))
    ensures WordLength(w + rest) == |w|
  {
    if w == "" {
      assert w + rest == rest;
    } else {
      assert (w + rest)[1..] == w[1..] + rest;
      WordLengthOf(w[1..], rest);
    }
  }

  function JoinWith(parts: seq<string>, sep: string): string {
    if parts == [] then ""
    else if |parts| == 1 then parts[0]
    else parts[0] + sep + JoinWith(parts[1..], sep)
  }

  lemma {:induction false} SplitWhitespaceOfJoin(words: seq<string>)
    requires forall i :: 0 <= i < |words| ==> words[i] != "" && NoWhitespace(words[i])
    ensures SplitWhitespace(JoinWith(words, " ")) == words
  {
    if words != [] {
      hide SplitWhitespace, NoWhitespace;
      SplitWhitespaceOfJoin(words[1..]);
      WordsBeforeSpace(words[0], ' ', JoinWith(words[1..], " "));
      assert words == [words[0]] + words[1..];
    }
  }

  lemma {:induction false} SplitOfJoin(parts: seq<string>, c: char)
    requires parts != [] && forall i :: 0 <= i < |parts| ==> c !in parts[i]
    ensures Split(JoinWith(parts, [c]), c) == parts
  {
    if |parts| == 1 {
      SplitPlain(parts[0], c, "");
    } else {
      SplitPlain(parts[0], c, JoinWith(parts[1..], [c]));
      SplitOfJoin(parts[1..], c);
      assert parts == [parts[0]] + parts[1..];
    }
  }

  lemma {:induction false} TrimmingKeepsCharacters(s: string, c: char)
    requires c !in s
    ensures c !in TrimStart(s) && c !in TrimEnd(s)
    decreases |s|
  {
    if s != "" {
      TrimmingKeepsCharacters(s[1..], c);
      TrimmingKeepsCharacters(s[..|s| - 1], c);
    }
  }

  lemma TrimPlain(s: string)
    requires Trimmed(s)
    ensures Trim(s) == s
  {
  }

  //////////////////////////////////////////////////////////////////////////////
  // Decimal numbers
  //////////////////////////////////////////////////////////////////////////////

  const U64: nat := 0x1_0000_0000_0000_0000

  function DecimalDigit(n: nat): char
    requires n < 10
  {
    "0123456789"[n]
  }

  function Decimal(n: nat): (s: string)
    ensures s != ""
  {
    if n < 10 then [DecimalDigit(n)] else Decimal(n / 10) + [DecimalDigit(n % 10)]
  }

  predicate IsDecimalDigit(c: char) { '0' <= c <= '9' }

  function DigitsValue(s: string): Option<nat> {
    if s == "" then Some(0)
    else
      var n :- DigitsValue(s[..|s| - 1]);
      var c := s[|s| - 1];
      if IsDecimalDigit(c) then Some(10 * n + (c as int - '0' as int)) else None
  }

  /** `str::parse::<u64>`: an optional plus sign, at least one digit, no overflow. */
  function ParseU64(s: string): Option<nat> {
    var digits := if s != "" && s[0] == '+' then s[1..] else s;
    if digits == "" then None
    else
      var n :- DigitsValue(digits);
      if n < U64 then Some(n) else None
  }

  lemma DecimalDigitValue(n: nat)
    requires n < 10
    ensures IsDecimalDigit(DecimalDigit(n)) && DecimalDigit(n) as int - '0' as int == n
  {
  }

  lemma {:induction false} DecimalMeaning(n: nat)
    ensures DigitsValue(Decimal(n)) == Some(n)
    ensures forall i :: 0 <= i < |Decimal(n)| ==> IsDecimalDigit(Decimal(n)[i])
  {
    var s := Decimal(n);
    if n < 10 {
      DecimalDigitValue(n);
      assert s[..|s| - 1] == "";
    } else {
      DecimalMeaning(n / 10);
      DecimalDigitValue(n % 10);
      assert s[..|s| - 1] == Decimal(n / 10);
    }
  }

  lemma ParseOfDecimal(n: nat)
    requires n < U64
    ensures ParseU64(Decimal(n)) == Some(n) && NoWhitespace(Decimal(n))
  {
    DecimalMeaning(n);
    assert IsDecimalDigit(Decimal(n)[0]);
  }

  //////////////////////////////////////////////////////////////////////////////
  // Order of strings (code-point order, which is also the order of their UTF-8 bytes)
  //////////////////////////////////////////////////////////////////////////////

  predicate StringLess(a: string, b: string) {
    b != "" && (a == "" || a[0] < b[0] || (a[0] == b[0] && StringLess(a[1..], b[1..])))
  }

  predicate StringLeq(a: string, b: string) { a == b || StringLess(a, b) }

  lemma {:induction false} StringOrderTotal(a: string, b: string)
    ensures StringLeq(a, b) <==> !StringLess(b, a)
  {
    if a != "" && b != "" {
      StringOrderTotal(a[1..], b[1..]);
      assert a == [a[0]] + a[1..] && b == [b[0]] + b[1..];
    }
  }

  lemma {:induction false} StringOrderTransitive(a: string, b: string, c: string)
    requires StringLeq(a, b) && StringLeq(b, c)
    ensures StringLeq(a, c)
  {
    if a != b && b != c && a != "" && a[0] == b[0] == c[0] {
      assert a == [a[0]] + a[1..] && b == [b[0]] + b[1..] && c == [c[0]] + c[1..];
      StringOrderTransitive(a[1..], b[1..], c[1..]);
    }
  }

  /** The strings agree up to `k`, and there the first one ends or has the smaller code point. */
  ghost predicate PrecedesAt(a: string, b: string, k: nat) {
    k <= |a| && k < |b| && a[..k] == b[..k] && (k == |a| || (a[k] as int) < b[k] as int)
  }

  ghost predicate ComesBefore(a: string, b: string) { exists k: nat :: PrecedesAt(a, b, k) }

  /** The order said without recursion, on code points. */
  lemma StringLessMeaning(a: string, b: string)
    ensures StringLess(a, b) <==> ComesBefore(a, b)
  {
    if StringLess(a, b) {
      var k := FirstDifference(a, b);
    }
    forall k: nat | PrecedesAt(a, b, k)
      ensures StringLess(a, b)
    {
      DifferenceDecides(a, b, k);
    }
  }

  lemma {:induction false} FirstDifference(a: string, b: string) returns (k: nat)
    requires StringLess(a, b)
    ensures PrecedesAt(a, b, k)
  {
    if a == "" || a[0] < b[0] {
      k := 0;
    } else {
      var n := FirstDifference(a[1..], b[1..]);
      k := n + 1;
      assert a[..k] == [a[0]] + a[1..][..n] && b[..k] == [b[0]] + b[1..][..n];
    }
  }

  lemma {:induction false} DifferenceDecides(a: string, b: string, k: nat)
    requires PrecedesAt(a, b, k)
    ensures StringLess(a, b)
  {
    if k > 0 {
      assert a[0] == a[..k][0] == b[..k][0] == b[0];
      assert a[1..][..k - 1] == a[..k][1..] == b[..k][1..] == b[1..][..k - 1];
      DifferenceDecides(a[1..], b[1..], k - 1);
    }
  }

  //////////////////////////////////////////////////////////////////////////////
  // What the functions on text mean
  //////////////////////////////////////////////////////////////////////////////

  predicate AllWhitespace(s: string) { forall i :: 0 <= i < |s| ==> IsWhitespace(s[i]) }

  lemma {:induction false} TrimStartSplits(s: string) returns (a: string)
    ensures AllWhitespace(a) && s == a + TrimStart(s)
  {
    if s != "" && IsWhitespace(s[0]) {
      var rest := TrimStartSplits(s[1..]);
      a := [s[0]] + rest;
    } else {
      a := "";
    }
  }

  lemma {:induction false} TrimEndSplits(s: string) returns (b: string)
    ensures AllWhitespace(b) && s == TrimEnd(s) + b
  {
    if s != "" && IsWhitespace(s[|s| - 1]) {
      var rest := TrimEndSplits(s[..|s| - 1]);
      b := rest + [s[|s| - 1]];
    } else {
      b := "";
    }
  }

  lemma {:induction false} TrimStartOf(a: string, t: string)
    requires AllWhitespace(a) && (t != "" ==> !IsWhitespace(t[0]))
    ensures TrimStart(a + t) == t
  {
    if a == "" {
      assert a + t == t;
    } else {
      assert (a + t)[1..] == a[1..] + t;
      TrimStartOf(a[1..], t);
    }
  }

  lemma {:induction false} TrimEndOf(t: string, b: string)
    requires AllWhitespace(b) && (t != "" ==> !IsWhitespace(t[|t| - 1]))
    ensures TrimEnd(t + b) == t
  {
    if b == "" {
      assert t + b == t;
    } else {
      assert (t + b)[..|t + b| - 1] == t + b[..|b| - 1];
      TrimEndOf(t, b[..|b| - 1]);
    }
  }

  ghost predicate TrimsTo(s: string, t: string) {
    Trimmed(t) && exists a, b :: AllWhitespace(a) && AllWhitespace(b) && s == a + t + b
  }

  /** Trimming is the one way to leave out white space at both ends and no more. */
  lemma TrimExactly(s: string, t: string)
    ensures Trim(s) == t <==> TrimsTo(s, t)
  {
    hide IsWhitespace, TrimStart, TrimEnd;
    if Trim(s) == t {
      TrimIsTrimmed(s);
      var a := TrimStartSplits(s);
      var b := TrimEndSplits(TrimStart(s));
      assert s == a + t + b;
    }
    if TrimsTo(s, t) {
      var a, b :| AllWhitespace(a) && AllWhitespace(b) && s == a + t + b;
      if t == "" {
        assert AllWhitespace(a + b) && s == (a + b) + "";
        TrimStartOf(a + b, "");
        TrimEndOf("", "");
      } else {
        assert s == a + (t + b) && (t + b)[0] == t[0];
        TrimStartOf(a, t + b);
        TrimEndOf(t, b);
      }
    }
  }

  /** Lines end at each newline, with a carriage return before it left out; a last line need not end. */
  lemma LinesMeaning(line: string, rest: string)
    requires '\n' !in line
    ensures Lines(line) == if line == "" then [] else [line]
    ensures Lines(line + "\n" + rest) == [StripCarriageReturn(line)] + Lines(rest)
    ensures StripCarriageReturn(line + "\r") == line && ('\r' !in line ==> StripCarriageReturn(line) == line)
  {
    hide SplitOnce;
    SplitOnceFirst(line, "\n", rest);
    SplitOnceNone(line, "\n");
    assert (line + "\r")[..|line|] == line;
  }

  lemma {:induction false} WordsBeforeSpace(w: string, c: char, rest: string)
    requires NoWhitespace(w) && IsWhitespace(c)
    ensures SplitWhitespace(w) == if w == "" then [] else [w]
    ensures SplitWhitespace(w + [c] + rest) == SplitWhitespace(w) + SplitWhitespace(rest)
  {
    var s := w + [c] + rest;
    WordLengthOf(w, [c] + rest);
    WordLengthOf(w, "");
    assert s == w + ([c] + rest) && w + "" == w;
    if w == "" {
      assert s[1..] == rest;
    } else {
      assert s[..|w|] == w && s[|w|..] == [c] + rest && ([c] + rest)[1..] == rest;
      assert w[..|w|] == w && w[|w|..] == "";
    }
  }

  /** The twenty-five characters that Unicode calls white space. */
  lemma WhitespaceIs(c: char)
    ensures IsWhitespace(c) <==>
            c as int in {0x9, 0xA, 0xB, 0xC, 0xD, 0x20, 0x85, 0xA0, 0x1680, 0x2000, 0x2001, 0x2002, 0x2003, 0x2004,
                         0x2005, 0x2006, 0x2007, 0x2008, 0x2009, 0x200A, 0x2028, 0x2029, 0x202F, 0x205F, 0x3000}
  {
  }

  function Pow10(k: nat): nat { if k == 0 then 1 else 10 * Pow10(k - 1) }

  /** The value of a numeral by the weight of its places. */
  function PlaceValue(s: string): int {
    if s == "" then 0 else (s[0] as int - '0' as int) * Pow10(|s| - 1) + PlaceValue(s[1..])
  }

  predicate IsNumeral(s: string) { forall i :: 0 <= i < |s| ==> IsDecimalDigit(s[i]) }

  lemma {:induction false} PlaceValueAppend(s: string, c: char)
    ensures PlaceValue(s + [c]) == 10 * PlaceValue(s) + (c as int - '0' as int)
  {
    var t := s + [c];
    if s == "" {
      assert t[1..] == "";
    } else {
      assert t[1..] == s[1..] + [c];
      PlaceValueAppend(s[1..], c);
      var d, p := s[0] as int - '0' as int, Pow10(|s| - 1);
      assert Pow10(|s|) == 10 * p;
      assert d * (10 * p) == 10 * (d * p);
    }
  }

  lemma {:induction false} DigitsValueExactly(s: string)
    ensures DigitsValue(s).Some? <==> IsNumeral(s)
    ensures DigitsValue(s).Some? ==> DigitsValue(s).value == PlaceValue(s)
  {
    if s != "" {
      var init, c := s[..|s| - 1], s[|s| - 1];
      DigitsValueExactly(init);
      assert s == init + [c];
      PlaceValueAppend(init, c);
    }
  }

  /** What reads as a size: figures, at least one, perhaps after a plus sign, for a number below 2^64. */
  lemma ParseU64Exactly(s: string, n: nat)
    ensures ParseU64(s) == Some(n) <==>
            var figures := if "+" <= s then s[1..] else s;
            figures != "" && IsNumeral(figures) && PlaceValue(figures) == n && n < 18446744073709551616
  {
    hide DigitsValue, PlaceValue;
    var figures := if "+" <= s then s[1..] else s;
    assert "+" <= s <==> s != "" && s[0] == '+';
    DigitsValueExactly(figures);
  }
}
