/**
 Nix-base32 (`hash.rs`): the bit-level encoder and decoder, proved against the
 arithmetic reading of both sides. A byte string and a digit string are two
 groupings, by eight and by five, of one little-endian bit sequence.
 */
module Base32 {
  import opened Outcomes
  import opened Text

  const ALPHABET: string := "0123456789abcdfghijklmnpqrsvwxyz"

  //////////////////////////////////////////////////////////////////////////////
  // Bits of a byte
  //////////////////////////////////////////////////////////////////////////////

  predicate Bit(x: bv8, i: nat)
    requires i < 8
  {
    if i == 0 then x & 1 != 0
    else if i == 1 then x & 2 != 0
    else if i == 2 then x & 4 != 0
    else if i == 3 then x & 8 != 0
    else if i == 4 then x & 16 != 0
    else if i == 5 then x & 32 != 0
    else if i == 6 then x & 64 != 0
    else x & 128 != 0
  }

  /** Bit `i` of a byte string, least significant first, zero past its end. */
  predicate BitAt(bs: seq<bv8>, i: nat) {
    i < 8 * |bs| && Bit(bs[i / 8], i % 8)
  }

  /** Bit `i` of a sequence of five-bit digits, least significant digit first. */
  predicate DigitBitAt(ds: seq<bv8>, i: nat) {
    i < 5 * |ds| && Bit(ds[i / 5], i % 5)
  }

  function AsNat(b: bool): nat { if b then 1 else 0 }

  /** Five and eight bits as a number, least significant first. */
  function Quintet(b0: bool, b1: bool, b2: bool, b3: bool, b4: bool): nat {
    AsNat(b0) + 2 * AsNat(b1) + 4 * AsNat(b2) + 8 * AsNat(b3) + 16 * AsNat(b4)
  }

  function Octet(b0: bool, b1: bool, b2: bool, b3: bool, b4: bool, b5: bool, b6: bool, b7: bool): nat {
    Quintet(b0, b1, b2, b3, b4) + 32 * AsNat(b5) + 64 * AsNat(b6) + 128 * AsNat(b7)
  }

  lemma ByteFromBits(x: bv8)
    ensures x as nat == Octet(Bit(x, 0), Bit(x, 1), Bit(x, 2), Bit(x, 3), Bit(x, 4), Bit(x, 5), Bit(x, 6), Bit(x, 7))
  {
  }

  function OctetByte(b0: bool, b1: bool, b2: bool, b3: bool, b4: bool, b5: bool, b6: bool, b7: bool): bv8 {
    (if b0 then 1 else 0) | (if b1 then 2 else 0) | (if b2 then 4 else 0) | (if b3 then 8 else 0)
    | (if b4 then 16 else 0) | (if b5 then 32 else 0) | (if b6 then 64 else 0) | (if b7 then 128 else 0)
  }

  lemma OctetByteValue(b0: bool, b1: bool, b2: bool, b3: bool, b4: bool, b5: bool, b6: bool, b7: bool)
    ensures OctetByte(b0, b1, b2, b3, b4, b5, b6, b7) as nat == Octet(b0, b1, b2, b3, b4, b5, b6, b7)
  {
    var x := OctetByte(b0, b1, b2, b3, b4, b5, b6, b7);
    assert Bit(x, 0) == b0 && Bit(x, 1) == b1 && Bit(x, 2) == b2 && Bit(x, 3) == b3;
    assert Bit(x, 4) == b4 && Bit(x, 5) == b5 && Bit(x, 6) == b6 && Bit(x, 7) == b7;
    ByteFromBits(x);
  }

  predicate Odd(n: nat) { n % 2 == 1 }

  function Halved(n: nat, k: nat): nat { if k == 0 then n else Halved(n, k - 1) / 2 }

  /** The low byte of a number. */
  function ByteOf(n: nat): bv8 {
    OctetByte(Odd(n), Odd(Halved(n, 1)), Odd(Halved(n, 2)), Odd(Halved(n, 3)),
      Odd(Halved(n, 4)), Odd(Halved(n, 5)), Odd(Halved(n, 6)), Odd(Halved(n, 7)))
  }

  lemma HalvedStep(n: nat, k: nat)
    ensures Halved(n, k) == 2 * Halved(n, k + 1) + AsNat(Odd(Halved(n, k)))
  {
  }

  lemma BinaryExpansion(n: nat)
    requires n < 256
    ensures n == Octet(Odd(n), Odd(Halved(n, 1)), Odd(Halved(n, 2)), Odd(Halved(n, 3)),
                       Odd(Halved(n, 4)), Odd(Halved(n, 5)), Odd(Halved(n, 6)), Odd(Halved(n, 7)))
  {
    assert Halved(n, 0) == n;
    hide Halved, Odd;
    HalvedStep(n, 0);
    HalvedStep(n, 1);
    HalvedStep(n, 2);
    HalvedStep(n, 3);
    HalvedStep(n, 4);
    HalvedStep(n, 5);
    HalvedStep(n, 6);
    HalvedStep(n, 7);
  }

  lemma ByteOfValue(n: nat)
    requires n < 256
    ensures ByteOf(n) as nat == n
  {
    hide Halved, Odd, OctetByte, Octet;
    OctetByteValue(Odd(n), Odd(Halved(n, 1)), Odd(Halved(n, 2)), Odd(Halved(n, 3)),
      Odd(Halved(n, 4)), Odd(Halved(n, 5)), Odd(Halved(n, 6)), Odd(Halved(n, 7)));
    BinaryExpansion(n);
  }

  lemma ByteValueInjective(x: bv8, y: bv8)
    requires x as nat == y as nat
    ensures x == y
  {
  }

  lemma DigitFromBits(x: bv8)
    requires x < 32
    ensures x as nat == Quintet(Bit(x, 0), Bit(x, 1), Bit(x, 2), Bit(x, 3), Bit(x, 4))
  {
    assert !Bit(x, 5) && !Bit(x, 6) && !Bit(x, 7);
    ByteFromBits(x);
  }

  lemma BitsDetermineByte(x: bv8, y: bv8)
    requires forall i: nat :: i < 8 ==> Bit(x, i) == Bit(y, i)
    ensures x == y
  {
    assert Bit(x, 0) == Bit(y, 0) && Bit(x, 1) == Bit(y, 1) && Bit(x, 2) == Bit(y, 2) && Bit(x, 3) == Bit(y, 3);
    assert Bit(x, 4) == Bit(y, 4) && Bit(x, 5) == Bit(y, 5) && Bit(x, 6) == Bit(y, 6) && Bit(x, 7) == Bit(y, 7);
  }

  lemma BitsDetermineDigit(x: bv8, y: bv8)
    requires x < 32 && y < 32
    requires forall i: nat :: i < 5 ==> Bit(x, i) == Bit(y, i)
    ensures x == y
  {
    assert Bit(x, 0) == Bit(y, 0) && Bit(x, 1) == Bit(y, 1) && Bit(x, 2) == Bit(y, 2);
    assert Bit(x, 3) == Bit(y, 3) && Bit(x, 4) == Bit(y, 4);
  }

  lemma BytesFromBits(a: seq<bv8>, b: seq<bv8>)
    requires |a| == |b|
    requires forall k: nat :: k < 8 * |a| ==> BitAt(a, k) == BitAt(b, k)
    ensures a == b
  {
    forall n | 0 <= n < |a|
      ensures a[n] == b[n]
    {
      forall i: nat | i < 8
        ensures Bit(a[n], i) == Bit(b[n], i)
      {
        assert (8 * n + i) / 8 == n && (8 * n + i) % 8 == i;
        assert BitAt(a, 8 * n + i) == BitAt(b, 8 * n + i);
      }
      BitsDetermineByte(a[n], b[n]);
    }
  }

  //////////////////////////////////////////////////////////////////////////////
  // Encoding
  //////////////////////////////////////////////////////////////////////////////

  function EncodedLength(n: nat): nat { (n * 8 + 4) / 5 }

  /** Two adjacent bytes seen through a five-bit window at bit `k` of the lower one. */
  function Window(lo: bv8, hi: bv8, k: nat): bv8
    requires k < 8
  {
    var c := (lo >> k) & 0x1f;
    if k > 3 then (c | (hi << (8 - k))) & 0x1f else c
  }

  lemma WindowBits(lo: bv8, hi: bv8, k: nat, j: nat)
    requires k < 8 && j < 5
    ensures Window(lo, hi, k) < 32
    ensures Bit(Window(lo, hi, k), j) == if k + j < 8 then Bit(lo, k + j) else Bit(hi, k + j - 8)
  {
    if k == 0 {} else if k == 1 {} else if k == 2 {} else if k == 3 {}
    else if k == 4 {} else if k == 5 {} else if k == 6 {} else {}
  }

  /** The digit the encoder emits for bits `5n .. 5n+4`; a missing upper byte reads as zero. */
  function Digit(input: seq<bv8>, n: nat): bv8
    requires n < EncodedLength(|input|)
  {
    var b := n * 5;
    Window(input[b / 8], if b / 8 + 1 < |input| then input[b / 8 + 1] else 0, b % 8)
  }

  lemma DigitBits(input: seq<bv8>, n: nat, j: nat)
    requires n < EncodedLength(|input|) && j < 5
    ensures Digit(input, n) < 32
    ensures Bit(Digit(input, n), j) == BitAt(input, 5 * n + j)
  {
    var b := n * 5;
    WindowBits(input[b / 8], if b / 8 + 1 < |input| then input[b / 8 + 1] else 0, b % 8, j);
    if b % 8 + j < 8 {
      assert (b + j) / 8 == b / 8 && (b + j) % 8 == b % 8 + j;
    } else {
      assert (b + j) / 8 == b / 8 + 1 && (b + j) % 8 == b % 8 + j - 8;
    }
  }

  function EncodedDigits(input: seq<bv8>): (ds: seq<bv8>)
    ensures |ds| == EncodedLength(|input|)
    ensures forall n :: 0 <= n < |ds| ==> ds[n] < 32 && ds[n] == Digit(input, n)
  {
    seq(EncodedLength(|input|), n requires 0 <= n < EncodedLength(|input|) =>
      DigitBits(input, n, 0);
      Digit(input, n))
  }

  function DigitChar(d: bv8): char
    requires d < 32
  {
    ALPHABET[d as nat]
  }

  /** Most significant digit first. */
  function Show(ds: seq<bv8>): (s: string)
    requires forall n :: 0 <= n < |ds| ==> ds[n] < 32
    ensures |s| == |ds|
    ensures forall p :: 0 <= p < |s| ==> s[p] == DigitChar(ds[|ds| - 1 - p])
  {
    seq(|ds|, p requires 0 <= p < |ds| => DigitChar(ds[|ds| - 1 - p]))
  }

  function Encode(input: seq<bv8>): (s: string)
    ensures |s| == EncodedLength(|input|)
  {
    Show(EncodedDigits(input))
  }

  /** The loop body of the encoder. */
  method EncodeDigit(input: seq<bv8>, n: nat) returns (c: bv8)
    requires n < EncodedLength(|input|)
    ensures c == Digit(input, n) && c < 32
  {
    var b := n * 5;
    var byteIdx := b / 8;
    var bitIdx := b % 8;
    c := (input[byteIdx] >> bitIdx) & 0x1f;
    if bitIdx > 3 && byteIdx + 1 < |input| {
      c := c | (input[byteIdx + 1] << (8 - bitIdx));
      c := c & 0x1f;
    }
    NoUpperByte(input[byteIdx], bitIdx);
    DigitBits(input, n, 0);
  }

  lemma EncodedAt(input: seq<bv8>, n: nat)
    requires n < EncodedLength(|input|)
    ensures Digit(input, n) < 32
    ensures Encode(input)[EncodedLength(|input|) - 1 - n] == DigitChar(Digit(input, n))
  {
    DigitBits(input, n, 0);
    assert EncodedDigits(input)[n] == Digit(input, n);
  }

  method ToNixBase32(input: seq<bv8>) returns (out: string)
    ensures out == Encode(input)
  {
    hide Encode, Digit;
    out := "";
    ghost var encoded := Encode(input);
    if |input| == 0 {
      assert encoded == "";
      return;
    }
    var len := (|input| * 8 + 4) / 5;
    var n := len;
    while n > 0
      invariant 0 <= n <= len
      invariant out == encoded[..len - n]
    {
      n := n - 1;
      var c := EncodeDigit(input, n);
      EncodedAt(input, n);
      out := out + [DigitChar(c)];
    }
  }

  lemma NoUpperByte(x: bv8, k: nat)
    requires k < 8
    ensures Window(x, 0, k) == (x >> k) & 0x1f
  {
    if k == 4 {} else if k == 5 {} else if k == 6 {} else if k == 7 {} else {}
  }

  //////////////////////////////////////////////////////////////////////////////
  // Decoding
  //////////////////////////////////////////////////////////////////////////////

  function Lookup(c: char, i: nat): Option<bv8>
    requires i <= 32
    decreases 32 - i
  {
    if i == 32 then None
    else if ALPHABET[i] == c then Some(i as bv8)
    else Lookup(c, i + 1)
  }

  function DigitValue(c: char): Option<bv8> { Lookup(c, 0) }

  lemma AlphabetAscends(i: nat)
    requires i < 31
    ensures ALPHABET[i] < ALPHABET[i + 1]
  {
  }

  lemma {:induction false} AscendingPair(s: string, i: nat, j: nat)
    requires forall k :: 0 <= k < |s| - 1 ==> s[k] < s[k + 1]
    requires i < j < |s|
    ensures s[i] < s[j]
    decreases j - i
  {
    if i + 1 < j {
      AscendingPair(s, i + 1, j);
    }
  }

  lemma AlphabetStrict(i: nat, j: nat)
    requires i < j < 32
    ensures ALPHABET[i] < ALPHABET[j]
  {
    forall k: nat | k < 31
      ensures ALPHABET[k] < ALPHABET[k + 1]
    {
      AlphabetAscends(k);
    }
    AscendingPair(ALPHABET, i, j);
  }

  lemma SmallByte(i: nat)
    requires i < 32
    ensures i as bv8 < 32 && (i as bv8) as nat == i
  {
  }

  lemma {:induction false} LookupFinds(c: char, i: nat)
    requires i <= 32
    ensures Lookup(c, i).Some? ==> Lookup(c, i).value < 32 && DigitChar(Lookup(c, i).value) == c && c as int < 128
    ensures forall d: nat :: i <= d < 32 && ALPHABET[d] == c ==> Lookup(c, i) == Some(d as bv8)
    decreases 32 - i
  {
    if i < 32 {
      LookupFinds(c, i + 1);
      SmallByte(i);
      AlphabetBelow(i);
      forall d: nat | i < d < 32
        ensures ALPHABET[i] != ALPHABET[d]
      {
        AlphabetStrict(i, d);
      }
    }
  }

  lemma AlphabetBelow(i: nat)
    requires i < 32
    ensures ALPHABET[i] <= 'z' && ALPHABET[i] != '.' && ALPHABET[i] != '/' && ALPHABET[i] >= '0'
    ensures !IsWhitespace(ALPHABET[i])
  {
    if i < 31 {
      AlphabetStrict(i, 31);
    }
    if i > 0 {
      AlphabetStrict(0, i);
    }
  }

  lemma ValueOfDigit(c: char)
    requires DigitValue(c).Some?
    ensures DigitValue(c).value < 32 && DigitChar(DigitValue(c).value) == c && c as int < 128
  {
    LookupFinds(c, 0);
  }

  lemma DigitRoundTrip(d: bv8)
    requires d < 32
    ensures DigitValue(DigitChar(d)) == Some(d)
  {
    LookupFinds(DigitChar(d), 0);
    assert (d as nat) as bv8 == d;
  }

  /** Figures and lower-case letters, without e, o, t and u. */
  predicate IsNixDigit(c: char) {
    '0' <= c <= '9' || ('a' <= c <= 'z' && c != 'e' && c != 'o' && c != 't' && c != 'u')
  }

  /** The place of a digit among them. */
  function Rank(c: char): nat
    requires IsNixDigit(c)
  {
    if c <= '9' then c as int - '0' as int
    else
      10 + (c as int - 'a' as int) - AsNat(c > 'e') - AsNat(c > 'o') - AsNat(c > 't') - AsNat(c > 'u')
  }

  lemma AlphabetRank(i: nat)
    requires i < 32
    ensures IsNixDigit(ALPHABET[i]) && Rank(ALPHABET[i]) == i
  {
  }

  lemma RankInjective(c: char, d: char)
    requires IsNixDigit(c) && IsNixDigit(d) && Rank(c) == Rank(d)
    ensures c == d
  {
    assert c as int == d as int;
  }

  /** Exactly which characters are digits, and what each is worth. */
  lemma DigitExactly(c: char)
    ensures DigitValue(c).Some? <==> IsNixDigit(c)
    ensures IsNixDigit(c) ==> Rank(c) < 32 && DigitValue(c) == Some(Rank(c) as bv8)
  {
    hide Lookup;
    LookupFinds(c, 0);
    if DigitValue(c).Some? {
      AlphabetRank(DigitValue(c).value as nat);
    }
    if IsNixDigit(c) {
      AlphabetRank(Rank(c));
      RankInjective(c, ALPHABET[Rank(c)]);
    }
  }

  /** The digit values of a string, least significant (last character) first;
      the decoder scans from the end, so the last bad character is reported. */
  function Digits(s: string): Outcome<seq<bv8>, Error> {
    if s == "" then Ok([])
    else
      match DigitValue(s[|s| - 1])
      case None => Err(NarInfoParse(InvalidDigit(s[|s| - 1])))
      case Some(d) =>
        var ds :- Digits(s[..|s| - 1]);
        Ok([d] + ds)
  }

  lemma {:induction false} DigitsMeaning(s: string)
    ensures Digits(s).Ok? <==> forall i :: 0 <= i < |s| ==> DigitValue(s[i]).Some?
    ensures !Digits(s).Panic?
    ensures Digits(s).Ok? ==>
              && |Digits(s).value| == |s| == ByteLen(s)
              && forall n :: 0 <= n < |s| ==>
                   Digits(s).value[n] < 32 && DigitValue(s[|s| - 1 - n]) == Some(Digits(s).value[n])
  {
    if s != "" {
      var init := s[..|s| - 1];
      DigitsMeaning(init);
      LookupFinds(s[|s| - 1], 0);
      hide Lookup;
      assert s == init + [s[|s| - 1]];
      ByteLenAppend(init, [s[|s| - 1]]);
      if DigitValue(s[|s| - 1]).Some? {
        ByteLenBounds([s[|s| - 1]]);
      }
      hide ByteLen;
    }
  }

  /** Bytes assembled from the bits of a digit stream. */
  function Pack(ds: seq<bv8>): (bs: seq<bv8>)
    ensures |bs| == |ds| * 5 / 8
  {
    seq(|ds| * 5 / 8, b requires 0 <= b => PackByte(ds, b))
  }

  function PackByte(ds: seq<bv8>, b: nat): bv8 {
    (if DigitBitAt(ds, 8 * b) then 1 else 0) | (if DigitBitAt(ds, 8 * b + 1) then 2 else 0)
    | (if DigitBitAt(ds, 8 * b + 2) then 4 else 0) | (if DigitBitAt(ds, 8 * b + 3) then 8 else 0)
    | (if DigitBitAt(ds, 8 * b + 4) then 16 else 0) | (if DigitBitAt(ds, 8 * b + 5) then 32 else 0)
    | (if DigitBitAt(ds, 8 * b + 6) then 64 else 0) | (if DigitBitAt(ds, 8 * b + 7) then 128 else 0)
  }

  lemma PackByteBits(ds: seq<bv8>, b: nat, j: nat)
    requires j < 8
    ensures Bit(PackByte(ds, b), j) == DigitBitAt(ds, 8 * b + j)
  {
    hide DigitBitAt;
    if j == 0 {} else if j == 1 {} else if j == 2 {} else if j == 3 {}
    else if j == 4 {} else if j == 5 {} else if j == 6 {} else {}
  }

  lemma PackBits(ds: seq<bv8>, k: nat)
    requires k < 8 * (|ds| * 5 / 8)
    ensures BitAt(Pack(ds), k) == DigitBitAt(ds, k)
  {
    var b, j := k / 8, k % 8;
    assert k == 8 * b + j;
    PackByteBits(ds, b, j);
    assert Pack(ds)[b] == PackByte(ds, b);
    hide PackByte, Bit, DigitBitAt;
  }

  /** A length leaves room for every digit exactly when it is 0, 2, 4, 5 or 7 modulo 8. */
  predicate FitsBytes(len: nat) { len % 8 != 1 && len % 8 != 3 && len % 8 != 6 }

  lemma FitsBytesMeaning(len: nat)
    requires len > 0
    ensures FitsBytes(len) <==> (len - 1) * 5 / 8 < len * 5 / 8
    ensures FitsBytes(len) <==> EncodedLength(len * 5 / 8) == len
  {
    var q, r := len / 8, len % 8;
    assert len == 8 * q + r;
    assert len * 5 / 8 == 5 * q + r * 5 / 8;
    assert r > 0 ==> (len - 1) * 5 / 8 == 5 * q + (r - 1) * 5 / 8;
    assert r == 0 ==> (len - 1) * 5 / 8 == 5 * q - 1;
  }

  function Decode(s: string): Outcome<seq<bv8>, Error> {
    var ds :- Digits(s);
    if FitsBytes(|s|) then Ok(Pack(ds)) else Panic
  }

  lemma {:induction false} DigitsExtend(t: string, ch: char)
    requires Digits(t).Ok?
    ensures Digits([ch] + t) ==
            match DigitValue(ch)
            case None => Err(NarInfoParse(InvalidDigit(ch)))
            case Some(d) => Ok(Digits(t).value + [d])
  {
    var u := [ch] + t;
    if t == "" {
      assert u[..|u| - 1] == "" && Digits("") == Ok([]);
      assert DigitValue(ch).Some? ==> [DigitValue(ch).value] + [] == [] + [DigitValue(ch).value];
    } else {
      DigitsExtend(t[..|t| - 1], ch);
      assert u[..|u| - 1] == [ch] + t[..|t| - 1];
      assert u[|u| - 1] == t[|t| - 1];
      if DigitValue(ch).Some? {
        var d, ds, e := DigitValue(t[|t| - 1]).value, Digits(t[..|t| - 1]).value, DigitValue(ch).value;
        assert [d] + (ds + [e]) == ([d] + ds) + [e];
      }
    }
  }

  lemma {:induction false} DigitsError(pre: string, t: string)
    requires Digits(t).Err?
    ensures Digits(pre + t) == Digits(t)
  {
    var u := pre + t;
    assert u[|u| - 1] == t[|t| - 1];
    if DigitValue(t[|t| - 1]).Some? {
      DigitsError(pre, t[..|t| - 1]);
      assert u[..|u| - 1] == pre + t[..|t| - 1];
    }
  }

  lemma OrBit(x: bv8, y: bv8, j: nat)
    requires j < 8
    ensures Bit(x | y, j) == (Bit(x, j) || Bit(y, j))
  {
    if j == 0 {} else if j == 1 {} else if j == 2 {} else if j == 3 {}
    else if j == 4 {} else if j == 5 {} else if j == 6 {} else {}
  }

  lemma ShiftLeftBit(d: bv8, k: nat, j: nat)
    requires k < 8 && j < 8 && d < 32
    ensures Bit(d << k, j) == (k <= j < k + 5 && Bit(d, j - k))
  {
    if k == 0 {} else if k == 1 {} else if k == 2 {} else if k == 3 {}
    else if k == 4 {} else if k == 5 {} else if k == 6 {} else {}
  }

  lemma ShiftRightBit(d: bv8, k: nat, j: nat)
    requires 3 < k < 8 && j < 8 && d < 32
    ensures Bit(d >> (8 - k), j) == (j + 8 - k < 5 && Bit(d, j + 8 - k))
  {
    if k == 4 {} else if k == 5 {} else if k == 6 {} else {}
  }

  /** `y` is `x` with the bits of `digit` added at offset `off`, which may lie partly or wholly outside the byte. */
  ghost predicate ByteAdded(x: bv8, y: bv8, digit: bv8, off: int) {
    forall j: nat :: j < 8 ==> Bit(y, j) == (Bit(x, j) || (0 <= j - off < 5 && Bit(digit, j - off)))
  }

  function OrLeft(x: bv8, digit: bv8, k: nat): bv8
    requires k < 8
  {
    x | (digit << k)
  }

  function OrRight(x: bv8, digit: bv8, k: nat): bv8
    requires 3 < k < 8
  {
    x | (digit >> (8 - k))
  }

  lemma OrLow(x: bv8, digit: bv8, k: nat)
    requires digit < 32 && k < 8
    ensures ByteAdded(x, OrLeft(x, digit, k), digit, k)
  {
    hide Bit;
    forall j: nat | j < 8
      ensures Bit(OrLeft(x, digit, k), j) == (Bit(x, j) || (0 <= j - k < 5 && Bit(digit, j - k)))
    {
      OrBit(x, digit << k, j);
      ShiftLeftBit(digit, k, j);
    }
  }

  lemma OrHigh(x: bv8, digit: bv8, k: nat)
    requires digit < 32 && 3 < k < 8
    ensures ByteAdded(x, OrRight(x, digit, k), digit, k - 8)
  {
    hide Bit;
    forall j: nat | j < 8
      ensures Bit(OrRight(x, digit, k), j) == (Bit(x, j) || (0 <= j - (k - 8) < 5 && Bit(digit, j - (k - 8))))
    {
      OrBit(x, digit >> (8 - k), j);
      ShiftRightBit(digit, k, j);
    }
  }

  /** What one decoder iteration does to the buffer; bits past its end are dropped. */
  ghost predicate DigitAdded(before: seq<bv8>, after: seq<bv8>, pos: nat, digit: bv8) {
    |after| == |before| && forall n :: 0 <= n < |before| ==> ByteAdded(before[n], after[n], digit, pos - 8 * n)
  }

  lemma DigitAddedBit(before: seq<bv8>, after: seq<bv8>, pos: nat, digit: bv8, m: nat)
    requires DigitAdded(before, after, pos, digit) && m < 8 * |before|
    ensures BitAt(after, m) == (BitAt(before, m) || (pos <= m < pos + 5 && Bit(digit, m - pos)))
  {
    var n, j := m / 8, m % 8;
    assert m == 8 * n + j;
    assert ByteAdded(before[n], after[n], digit, pos - 8 * n);
  }

  lemma DigitBitAppend(seen: seq<bv8>, digit: bv8, m: nat)
    requires digit < 32
    ensures var pos := 5 * |seen|;
            DigitBitAt(seen + [digit], m) == (DigitBitAt(seen, m) || (pos <= m < pos + 5 && Bit(digit, m - pos)))
  {
    if m < 5 * |seen| {
      assert (seen + [digit])[m / 5] == seen[m / 5];
    } else if m < 5 * |seen| + 5 {
      assert m / 5 == |seen| && m % 5 == m - 5 * |seen|;
    }
  }

  /** The bytes hold the bits of the digit stream, as many as fit. */
  ghost predicate Agrees(bs: seq<bv8>, ds: seq<bv8>) {
    forall k: nat :: k < 8 * |bs| ==> BitAt(bs, k) == DigitBitAt(ds, k)
  }

  lemma ZeroAgrees(bs: seq<bv8>)
    requires forall n :: 0 <= n < |bs| ==> bs[n] == 0
    ensures Agrees(bs, [])
  {
  }

  lemma PackAgrees(bs: seq<bv8>, ds: seq<bv8>)
    requires |bs| == |ds| * 5 / 8
    ensures Agrees(bs, ds) <==> bs == Pack(ds)
  {
    forall k: nat | k < 8 * |bs|
      ensures BitAt(Pack(ds), k) == DigitBitAt(ds, k)
    {
      PackBits(ds, k);
    }
    if Agrees(bs, ds) {
      BytesFromBits(bs, Pack(ds));
    }
  }

  lemma OrDigit(before: seq<bv8>, after: seq<bv8>, seen: seq<bv8>, digit: bv8)
    requires digit < 32 && DigitAdded(before, after, |seen| * 5, digit)
    requires Agrees(before, seen)
    ensures Agrees(after, seen + [digit])
  {
    forall m: nat | m < 8 * |before|
      ensures BitAt(after, m) == DigitBitAt(seen + [digit], m)
    {
      DigitAddedBit(before, after, |seen| * 5, digit, m);
      DigitBitAppend(seen, digit, m);
    }
  }

  lemma AddedEverywhere(before: seq<bv8>, after: seq<bv8>, pos: nat, digit: bv8)
    requires |after| == |before| && pos / 8 < |before|
    requires ByteAdded(before[pos / 8], after[pos / 8], digit, pos % 8)
    requires pos / 8 + 1 < |before| ==>
               var x, y := before[pos / 8 + 1], after[pos / 8 + 1];
               if pos % 8 > 3 then ByteAdded(x, y, digit, pos % 8 - 8) else x == y
    requires forall n :: 0 <= n < |before| && n != pos / 8 && n != pos / 8 + 1 ==> after[n] == before[n]
    ensures DigitAdded(before, after, pos, digit)
  {
    forall n | 0 <= n < |before|
      ensures ByteAdded(before[n], after[n], digit, pos - 8 * n)
    {
      assert pos == 8 * (pos / 8) + pos % 8;
      if n == pos / 8 {
        assert pos - 8 * n == pos % 8;
      } else if n == pos / 8 + 1 {
        assert pos - 8 * n == pos % 8 - 8;
      }
    }
  }

  /** The loop body of the decoder: the shifts and ors on at most two bytes. */
  method AddDigit(out: array<bv8>, i: nat, digit: bv8)
    requires i * 5 / 8 < out.Length && digit < 32
    modifies out
    ensures DigitAdded(old(out[..]), out[..], i * 5, digit)
  {
    var b := i * 5;
    var byteIdx := b / 8;
    var bitIdx := b % 8;
    hide Bit, ByteAdded, DigitAdded, OrLeft, OrRight;
    ghost var before := out[..];
    OrLow(out[byteIdx], digit, bitIdx);
    out[byteIdx] := OrLeft(out[byteIdx], digit, bitIdx);
    if bitIdx > 3 && byteIdx + 1 < out.Length {
      OrHigh(out[byteIdx + 1], digit, bitIdx);
      out[byteIdx + 1] := OrRight(out[byteIdx + 1], digit, bitIdx);
    }
    AddedEverywhere(before, out[..], b, digit);
  }

  /** The index runs out only at the first character of an all-digit string of the wrong length. */
  lemma OutOfRoom(s: string, i: nat)
    requires i < |s| && Digits(s[|s| - 1 - i..]).Ok?
    requires i * 5 / 8 >= ByteLen(s) * 5 / 8
    ensures Decode(s) == Panic
  {
    ByteLenBounds(s);
    assert i == |s| - 1;
    assert s[|s| - 1 - i..] == s;
    DigitsMeaning(s);
    FitsBytesMeaning(|s|);
  }

  lemma DecodeDone(s: string, bs: seq<bv8>, ds: seq<bv8>)
    requires s != "" && Digits(s) == Ok(ds)
    requires |bs| == ByteLen(s) * 5 / 8 && (|s| - 1) * 5 / 8 < |bs| && Agrees(bs, ds)
    ensures Decode(s) == Ok(bs)
  {
    hide Agrees, Pack, Digits, ByteLen, DigitValue;
    DigitsMeaning(s);
    FitsBytesMeaning(|s|);
    PackAgrees(bs, ds);
  }

  /** The decoder as written: or-ing shifted digits into a zeroed buffer. `Panic` is the unchecked index. */
  method FromNixBase32(s: string) returns (r: Outcome<seq<bv8>, Error>)
    ensures r == Decode(s)
  {
    var len := ByteLen(s);
    if len == 0 {
      assert Pack([]) == [];
      return Ok([]);
    }
    hide Pack, Agrees, ByteLen, DigitValue, FitsBytes;
    var outLen := len * 5 / 8;
    var out := new bv8[outLen](_ => 0);
    ghost var seen: seq<bv8> := [];
    ZeroAgrees(out[..]);
    var i := 0;
    assert s[|s| - i..] == "";
    while i < |s|
      invariant 0 <= i <= |s|
      invariant Digits(s[|s| - i..]) == Ok(seen) && |seen| == i
      invariant i > 0 ==> (i - 1) * 5 / 8 < outLen
      invariant Agrees(out[..], seen)
    {
      var ch := s[|s| - 1 - i];
      ghost var tail := s[|s| - 1 - i..];
      DigitsExtend(s[|s| - i..], ch);
      assert tail == [ch] + s[|s| - i..];
      if DigitValue(ch).None? {
        DigitsError(s[..|s| - 1 - i], tail);
        assert s == s[..|s| - 1 - i] + tail;
        return Err(NarInfoParse(InvalidDigit(ch)));
      }
      var digit := DigitValue(ch).value;
      if i * 5 / 8 >= outLen {
        OutOfRoom(s, i);
        return Panic;
      }
      ValueOfDigit(ch);
      ghost var before := out[..];
      AddDigit(out, i, digit);
      OrDigit(before, out[..], seen, digit);
      seen := seen + [digit];
      i := i + 1;
    }
    assert s[|s| - i..] == s;
    DecodeDone(s, out[..], seen);
    r := Ok(out[..]);
  }

  /** The decoder fails on a bad digit, aborts on a length it has no room for, and succeeds otherwise. */
  lemma DecodeOutcome(s: string)
    ensures Decode(s).Err? <==> exists i :: 0 <= i < |s| && DigitValue(s[i]).None?
    ensures Decode(s).Panic? <==> !FitsBytes(|s|) && forall i :: 0 <= i < |s| ==> DigitValue(s[i]).Some?
    ensures Decode(s).Ok? ==> |Decode(s).value| == |s| * 5 / 8
  {
    DigitsMeaning(s);
  }

  /** The character reported is the last one that is no digit. */
  lemma LastBadDigit(s: string, i: nat)
    requires i < |s| && DigitValue(s[i]).None? && forall j :: i < j < |s| ==> DigitValue(s[j]).Some?
    ensures Decode(s) == Err(NarInfoParse(InvalidDigit(s[i])))
  {
    hide DigitValue;
    var pre, t, good := s[..i], s[i..], s[i + 1..];
    assert t == [s[i]] + good && s == pre + t;
    DigitsMeaning(good);
    DigitsExtend(good, s[i]);
    DigitsError(pre, t);
  }

  //////////////////////////////////////////////////////////////////////////////
  // Round trips
  //////////////////////////////////////////////////////////////////////////////

  lemma {:induction false} DigitsOfShow(ds: seq<bv8>)
    requires forall n :: 0 <= n < |ds| ==> ds[n] < 32
    ensures Digits(Show(ds)) == Ok(ds)
  {
    if ds == [] {
      assert Show(ds) == "";
    } else {
      var s := Show(ds);
      assert s[|s| - 1] == DigitChar(ds[0]);
      DigitRoundTrip(ds[0]);
      assert s[..|s| - 1] == Show(ds[1..]);
      DigitsOfShow(ds[1..]);
      assert ds == [ds[0]] + ds[1..];
    }
  }

  lemma ShowOfDigits(s: string)
    requires Digits(s).Ok?
    ensures forall n :: 0 <= n < |Digits(s).value| ==> Digits(s).value[n] < 32
    ensures Show(Digits(s).value) == s
  {
    DigitsMeaning(s);
    var ds := Digits(s).value;
    forall p | 0 <= p < |s|
      ensures Show(ds)[p] == s[p]
    {
      assert DigitValue(s[|s| - 1 - (|s| - 1 - p)]) == Some(ds[|s| - 1 - p]);
      LookupFinds(s[p], 0);
    }
  }

  lemma EncodedBits(input: seq<bv8>, k: nat)
    ensures DigitBitAt(EncodedDigits(input), k) == BitAt(input, k)
  {
    if k < 5 * EncodedLength(|input|) {
      DigitBits(input, k / 5, k % 5);
    }
  }

  lemma EncodedLengthInverse(n: nat)
    ensures EncodedLength(n) * 5 / 8 == n
    ensures FitsBytes(EncodedLength(n))
  {
    var q, r := n / 5, n % 5;
    assert n == 5 * q + r && EncodedLength(n) == 8 * q + (8 * r + 4) / 5;
  }

  /** Decoding an encoding gives the bytes back, for every byte string. */
  lemma DecodeEncode(input: seq<bv8>)
    ensures Decode(Encode(input)) == Ok(input)
  {
    var ds := EncodedDigits(input);
    DigitsOfShow(ds);
    EncodedLengthInverse(|input|);
    forall k: nat | k < 8 * |input|
      ensures BitAt(input, k) == DigitBitAt(ds, k)
    {
      EncodedBits(input, k);
    }
    PackAgrees(input, ds);
  }

  /** The bits of the digit stream that the decoder drops are all zero. */
  ghost predicate ExcessBitsZero(ds: seq<bv8>) {
    forall k: nat :: 8 * (|ds| * 5 / 8) <= k < 5 * |ds| ==> !DigitBitAt(ds, k)
  }

  /** The first digit must stay below this for the dropped top bits (none to four, by length) to be zero. */
  function TopDigitLimit(len: nat): bv8 {
    if len % 8 == 0 then 32 else if len % 8 == 2 then 8 else if len % 8 == 4 then 2 else if len % 8 == 5 then 16 else 4
  }

  predicate TopDigitFits(s: string) {
    s == "" || (DigitValue(s[0]).Some? && DigitValue(s[0]).value < TopDigitLimit(|s|))
  }

  lemma BelowLimit(d: bv8, e: nat)
    requires d < 32 && e < 5
    ensures d < (if e == 0 then 32 else if e == 1 then 16 else if e == 2 then 8 else if e == 3 then 4 else 2)
            <==> forall i: nat :: 5 - e <= i < 5 ==> !Bit(d, i)
  {
    if e == 1 {
      assert d < 16 <==> !Bit(d, 4);
    } else if e == 2 {
      assert d < 8 <==> !Bit(d, 3) && !Bit(d, 4);
    } else if e == 3 {
      assert d < 4 <==> !Bit(d, 2) && !Bit(d, 3) && !Bit(d, 4);
    } else if e == 4 {
      assert d < 2 <==> !Bit(d, 1) && !Bit(d, 2) && !Bit(d, 3) && !Bit(d, 4);
    }
  }

  lemma ExcessInTopDigit(ds: seq<bv8>, d: bv8, e: nat)
    requires ds != [] && d == ds[|ds| - 1] && e < 5 && 5 * |ds| == 8 * (|ds| * 5 / 8) + e
    ensures ExcessBitsZero(ds) <==> forall i: nat :: 5 - e <= i < 5 ==> !Bit(d, i)
  {
    hide Bit, DigitBitAt;
    var lo, top := 8 * (|ds| * 5 / 8), 5 * (|ds| - 1);
    if ExcessBitsZero(ds) {
      forall i: nat | 5 - e <= i < 5
        ensures !Bit(d, i)
      {
        TopDigitBit(ds, i);
        assert !DigitBitAt(ds, top + i);
      }
    } else {
      var k: nat :| lo <= k < 5 * |ds| && DigitBitAt(ds, k);
      TopDigitBit(ds, k - top);
    }
  }

  lemma TopDigitBit(ds: seq<bv8>, i: nat)
    requires ds != [] && i < 5
    ensures DigitBitAt(ds, 5 * (|ds| - 1) + i) == Bit(ds[|ds| - 1], i)
  {
    var top := |ds| - 1;
    assert (5 * top + i) / 5 == top && (5 * top + i) % 5 == i;
  }

  lemma ExcessCount(len: nat)
    requires FitsBytes(len)
    ensures var e := len * 5 - 8 * (len * 5 / 8);
            && 0 <= e < 5
            && TopDigitLimit(len)
            == if e == 0 then 32 else if e == 1 then 16 else if e == 2 then 8 else if e == 3 then 4 else 2
  {
    var q, r := len / 8, len % 8;
    assert len == 8 * q + r;
    assert len * 5 / 8 == 5 * q + r * 5 / 8;
  }

  lemma TopDigitMeaning(s: string)
    requires Decode(s).Ok?
    ensures TopDigitFits(s) <==> ExcessBitsZero(Digits(s).value)
  {
    if s != "" {
      DigitsMeaning(s);
      var ds := Digits(s).value;
      ExcessCount(|s|);
      var e := |s| * 5 - 8 * (|s| * 5 / 8);
      assert DigitValue(s[|s| - 1 - (|s| - 1)]) == Some(ds[|s| - 1]);
      BelowLimit(ds[|s| - 1], e);
      ExcessInTopDigit(ds, ds[|s| - 1], e);
    }
  }

  lemma ReencodeWhenZero(ds: seq<bv8>, bytes: seq<bv8>)
    requires forall n :: 0 <= n < |ds| ==> ds[n] < 32
    requires |bytes| == |ds| * 5 / 8 && EncodedLength(|bytes|) == |ds| && Agrees(bytes, ds)
    ensures EncodedDigits(bytes) == ds <==> ExcessBitsZero(ds)
  {
    var es := EncodedDigits(bytes);
    if ExcessBitsZero(ds) {
      forall n | 0 <= n < |ds|
        ensures es[n] == ds[n]
      {
        forall i: nat | i < 5
          ensures Bit(es[n], i) == Bit(ds[n], i)
        {
          var k := 5 * n + i;
          assert k / 5 == n && k % 5 == i;
          EncodedBits(bytes, k);
          assert DigitBitAt(es, k) == BitAt(bytes, k) == DigitBitAt(ds, k);
        }
        BitsDetermineDigit(es[n], ds[n]);
      }
      assert es == ds;
    } else {
      var k: nat :| 8 * (|ds| * 5 / 8) <= k < 5 * |ds| && DigitBitAt(ds, k);
      EncodedBits(bytes, k);
    }
  }

  /** Encoding a decoded string restores it exactly when the first digit leaves the dropped bits zero. */
  lemma EncodeDecode(s: string)
    requires Decode(s).Ok?
    ensures Encode(Decode(s).value) == s <==> TopDigitFits(s)
  {
    DigitsMeaning(s);
    var ds, bytes := Digits(s).value, Decode(s).value;
    if s != "" { FitsBytesMeaning(|s|); }
    TopDigitMeaning(s);
    ShowOfDigits(s);
    PackAgrees(bytes, ds);
    ReencodeWhenZero(ds, bytes);
    DigitsOfShow(EncodedDigits(bytes));
  }

  /** A store-path hash is 32 digits for 20 bytes with no bits to spare, so the two codings are inverse bijections. */
  lemma HashCodingIsBijective(s: string, bytes: seq<bv8>)
    requires |s| == 32 && |bytes| == 20
    ensures Decode(s).Ok? ==> |Decode(s).value| == 20 && Encode(Decode(s).value) == s
    ensures |Encode(bytes)| == 32 && Decode(Encode(bytes)) == Ok(bytes)
  {
    if Decode(s).Ok? {
      DecodeOutcome(s);
      LookupFinds(s[0], 0);
      assert TopDigitFits(s);
      EncodeDecode(s);
    }
    DecodeEncode(bytes);
  }

  //////////////////////////////////////////////////////////////////////////////
  // The arithmetic reading
  //////////////////////////////////////////////////////////////////////////////

  /** A byte string as a little-endian base-256 number. */
  function BytesValue(bs: seq<bv8>): nat {
    if bs == [] then 0 else bs[0] as nat + 256 * BytesValue(bs[1..])
  }

  /** A digit string as a base-32 number, most significant digit first. */
  function StringValue(s: string): nat
    requires Digits(s).Ok?
  {
    if s == "" then 0
    else 32 * StringValue(s[..|s| - 1]) + DigitValue(s[|s| - 1]).value as nat
  }

  function BitsValue(bits: seq<bool>): nat {
    if bits == [] then 0 else AsNat(bits[0]) + 2 * BitsValue(bits[1..])
  }

  lemma {:induction false} BitsValueZeros(bits: seq<bool>, zeros: seq<bool>)
    requires forall i :: 0 <= i < |zeros| ==> !zeros[i]
    ensures BitsValue(bits + zeros) == BitsValue(bits)
    decreases |bits| + |zeros|
  {
    var all := bits + zeros;
    if bits != [] {
      assert all[1..] == bits[1..] + zeros;
      BitsValueZeros(bits[1..], zeros);
    } else if zeros != [] {
      assert all[1..] == [] + zeros[1..];
      BitsValueZeros([], zeros[1..]);
    }
  }

  lemma BitsValueFive(bits: seq<bool>)
    requires |bits| >= 5
    ensures BitsValue(bits) == Quintet(bits[0], bits[1], bits[2], bits[3], bits[4]) + 32 * BitsValue(bits[5..])
  {
    assert bits[1..][1..] == bits[2..] && bits[2..][1..] == bits[3..];
    assert bits[3..][1..] == bits[4..] && bits[4..][1..] == bits[5..];
    assert BitsValue(bits[3..]) == AsNat(bits[3]) + 2 * BitsValue(bits[4..]);
    assert BitsValue(bits[4..]) == AsNat(bits[4]) + 2 * BitsValue(bits[5..]);
    assert BitsValue(bits[2..]) == AsNat(bits[2]) + 2 * BitsValue(bits[3..]);
  }

  function BytesBits(bs: seq<bv8>): seq<bool> { seq(8 * |bs|, i requires 0 <= i => BitAt(bs, i)) }

  function DigitsBits(ds: seq<bv8>): seq<bool> { seq(5 * |ds|, i requires 0 <= i => DigitBitAt(ds, i)) }

  lemma BytesBitsTail(bs: seq<bv8>)
    requires bs != []
    ensures BytesBits(bs)[8..] == BytesBits(bs[1..])
    ensures forall i: nat :: i < 8 ==> BytesBits(bs)[i] == Bit(bs[0], i)
  {
    forall i: nat | i < 8 * |bs| - 8
      ensures BytesBits(bs)[8..][i] == BytesBits(bs[1..])[i]
    {
      assert (8 + i) / 8 == 1 + i / 8 && (8 + i) % 8 == i % 8;
    }
  }

  lemma BitsValueEight(bits: seq<bool>)
    requires |bits| >= 8
    ensures BitsValue(bits) ==
            Octet(bits[0], bits[1], bits[2], bits[3], bits[4], bits[5], bits[6], bits[7]) + 256 * BitsValue(bits[8..])
  {
    BitsValueFive(bits);
    assert bits[5..][1..] == bits[6..] && bits[6..][1..] == bits[7..] && bits[7..][1..] == bits[8..];
    assert BitsValue(bits[6..]) == AsNat(bits[6]) + 2 * BitsValue(bits[7..]);
    assert BitsValue(bits[7..]) == AsNat(bits[7]) + 2 * BitsValue(bits[8..]);
  }

  lemma EmptyBits()
    ensures BitsValue(BytesBits([])) == 0
    ensures BitsValue(DigitsBits([])) == 0
  {
    assert BytesBits([]) == [] && DigitsBits([]) == [];
  }

  lemma BytesBitsLength(bs: seq<bv8>)
    ensures |BytesBits(bs)| == 8 * |bs|
  {
  }

  lemma {:induction false} BytesValueIsBits(bs: seq<bv8>)
    ensures BytesValue(bs) == BitsValue(BytesBits(bs))
  {
    hide Bit, BitsValue, BytesBits, Octet;
    if bs == [] {
      EmptyBits();
    } else {
      BytesValueIsBits(bs[1..]);
      BytesBitsTail(bs);
      BytesBitsLength(bs);
      BitsValueEight(BytesBits(bs));
      ByteFromBits(bs[0]);
    }
  }

  lemma DigitsBitsTail(ds: seq<bv8>)
    requires ds != []
    ensures |DigitsBits(ds)| == 5 * |ds| && DigitsBits(ds)[5..] == DigitsBits(ds[1..])
    ensures forall i: nat :: i < 5 ==> DigitsBits(ds)[i] == Bit(ds[0], i)
  {
    forall i: nat | i < 5 * |ds| - 5
      ensures DigitsBits(ds)[5..][i] == DigitsBits(ds[1..])[i]
    {
      assert (5 + i) / 5 == 1 + i / 5 && (5 + i) % 5 == i % 5;
    }
  }

  lemma {:induction false} StringValueIsBits(s: string)
    requires Digits(s).Ok?
    ensures StringValue(s) == BitsValue(DigitsBits(Digits(s).value))
  {
    hide Bit, BitsValue, DigitsBits, Quintet, DigitValue;
    if s == "" {
      EmptyBits();
    } else {
      var ds := Digits(s).value;
      StringValueIsBits(s[..|s| - 1]);
      assert ds == [DigitValue(s[|s| - 1]).value] + Digits(s[..|s| - 1]).value;
      assert Digits(s[..|s| - 1]).value == ds[1..];
      DigitsBitsTail(ds);
      BitsValueFive(DigitsBits(ds));
      ValueOfDigit(s[|s| - 1]);
      DigitFromBits(ds[0]);
    }
  }

  /** The encoder writes the number the bytes stand for, in ceil(8n/5) digits. */
  lemma EncodeValue(input: seq<bv8>)
    ensures Digits(Encode(input)).Ok?
    ensures StringValue(Encode(input)) == BytesValue(input)
    ensures 5 * (|Encode(input)| - 1) < 8 * |input| <= 5 * |Encode(input)| || input == []
  {
    var ds := EncodedDigits(input);
    DigitsOfShow(ds);
    StringValueIsBits(Encode(input));
    BytesValueIsBits(input);
    var long, short := DigitsBits(ds), BytesBits(input);
    forall k: nat | k < |long|
      ensures long[k] == (k < |short| && short[k])
    {
      EncodedBits(input, k);
    }
    assert long == short + long[|short|..];
    BitsValueZeros(short, long[|short|..]);
  }
}
