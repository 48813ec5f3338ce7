/**
 The text codec of `encoding.py`: a printer that writes each character above U+FFFF as a
 `[U+XXXX]` token, the regular-expression scanner that reads tokens back, and the
 truncating printer of the `detail` column.
 A Python string is a sequence of code points, lone surrogates included.
 */
module Codec {

  type CodePoint = c: int | 0 <= c <= 0x10FFFF
  type Text = seq<CodePoint>

  const OPEN: CodePoint := '[' as int
  const LETTER_U: CodePoint := 'U' as int
  const PLUS: CodePoint := '+' as int
  const CLOSE: CodePoint := ']' as int
  const MARK: Text := [OPEN, LETTER_U, PLUS]
  const DETAIL_MAX_LEN := 255

  // ----- hexadecimal -----------------------------------------------------------

  predicate IsHex(c: CodePoint) {
    '0' as int <= c <= '9' as int || 'A' as int <= c <= 'F' as int || 'a' as int <= c <= 'f' as int
  }

  /** One digit as `format(n, "X")` prints it. */
  function Digit(n: nat): CodePoint
    requires n < 16
  {
    if n < 10 then '0' as int + n else 'A' as int + (n - 10)
  }

  function DigitValue(c: CodePoint): (n: nat)
    requires IsHex(c)
    ensures n < 16
  {
    if c <= '9' as int then c - '0' as int
    else if c <= 'F' as int then c - 'A' as int + 10
    else c - 'a' as int + 10
  }

  /** `format(n, "X")`: upper case, no leading zeros. */
  function HexUpper(n: nat): (s: Text)
    ensures |s| >= 1 && (s[0] == '0' as int ==> n == 0)
    ensures forall i :: 0 <= i < |s| ==> IsHex(s[i]) && s[i] < 'a' as int
  {
    if n < 16 then [Digit(n)] else HexUpper(n / 16) + [Digit(n % 16)]
  }

  /** `int(s, 16)` on a string of hexadecimal digits. */
  function HexValue(s: Text): nat
    requires forall i :: 0 <= i < |s| ==> IsHex(s[i])
  {
    if s == [] then 0 else 16 * HexValue(s[..|s| - 1]) + DigitValue(s[|s| - 1])
  }

  lemma {:induction false} HexRoundTrip(n: nat)
    ensures HexValue(HexUpper(n)) == n
  {
    if n >= 16 {
      HexRoundTrip(n / 16);
      assert HexUpper(n)[..|HexUpper(n)| - 1] == HexUpper(n / 16);
    }
  }

  // ----- printing --------------------------------------------------------------

  function EncodeChar(c: CodePoint): (s: Text)
    ensures |s| >= 1
  {
    if c > 0xFFFF then MARK + HexUpper(c) + [CLOSE] else [c]
  }

  function Encode(s: Text): Text {
    if s == [] then [] else EncodeChar(s[0]) + Encode(s[1..])
  }

  // ----- scanning --------------------------------------------------------------

  predicate StartsWithMark(s: Text) {
    |s| >= 3 && s[0] == OPEN && s[1] == LETTER_U && s[2] == PLUS
  }

  /** Number of hexadecimal digits at the front of `s`. */
  function HexRun(s: Text): (k: nat)
    ensures k <= |s|
    ensures forall i :: 0 <= i < k ==> IsHex(s[i])
    ensures k < |s| ==> !IsHex(s[k])
  {
    if s == [] || !IsHex(s[0]) then 0 else 1 + HexRun(s[1..])
  }

  /**
   Length of the match of the regular expression `\[U\+([0-9A-Fa-f]+)\]` at the front
   of `s`, 0 when there is none. The digit run is maximal: giving digits back can
   never help, because `]` is no digit.
   */
  function MatchLen(s: Text): (n: nat)
    ensures n != 0 ==> 5 <= n <= |s| && StartsWithMark(s) && s[n - 1] == CLOSE
                       && forall i :: 3 <= i < n - 1 ==> IsHex(s[i])
  {
    if StartsWithMark(s) then
      var k := HexRun(s[3..]);
      if 0 < k && 3 + k < |s| && s[3 + k] == CLOSE then 4 + k else 0
    else 0
  }

  /** A code point that `chr` may produce: no surrogate, nothing above U+10FFFF. */
  predicate Decodable(code: nat) {
    !(0xD800 <= code <= 0xDFFF) && code <= 0x10FFFF
  }

  /** The replacement callback, applied to one whole match. */
  function Replace(token: Text): (r: Text)
    requires MatchLen(token) == |token| > 0
  {
    var code := HexValue(token[3..|token| - 1]);
    if Decodable(code) then [code] else token
  }

  lemma MatchIsLocal(s: Text)
    requires MatchLen(s) > 0
    ensures MatchLen(s[..MatchLen(s)]) == MatchLen(s)
  {
    var n := MatchLen(s);
    var t := s[..n];
    HexRunIs(t[3..], n - 4);
  }

  lemma {:induction false} HexRunIs(s: Text, k: nat)
    requires k < |s| && !IsHex(s[k])
    requires forall i :: 0 <= i < k ==> IsHex(s[i])
    ensures HexRun(s) == k
  {
    if k == 0 {
    } else {
      HexRunIs(s[1..], k - 1);
    }
  }

  /** `_EMOJI_DECODE_RE.sub(_replace, s)`: leftmost, non-overlapping matches. */
  function Decode(s: Text): Text
    decreases |s|
  {
    var n := MatchLen(s);
    if s == [] then []
    else if n > 0 then
      MatchIsLocal(s);
      Replace(s[..n]) + Decode(s[n..])
    else [s[0]] + Decode(s[1..])
  }

  // ----- the loops of the source -----------------------------------------------

  lemma {:induction false} EncodeAppend(a: Text, b: Text)
    ensures Encode(a + b) == Encode(a) + Encode(b)
  {
    if a == [] {
      assert a + b == b;
    } else {
      assert (a + b)[1..] == a[1..] + b;
      EncodeAppend(a[1..], b);
    }
  }

  lemma {:induction false} EncodeSnoc(s: Text, i: nat)
    requires i < |s|
    ensures Encode(s[..i + 1]) == Encode(s[..i]) + EncodeChar(s[i])
  {
    assert s[..i + 1] == s[..i] + [s[i]];
    EncodeAppend(s[..i], [s[i]]);
    assert Encode([s[i]]) == EncodeChar(s[i]) + Encode([]);
  }

  method EncodeEmoji(text: Text) returns (out: Text)
    ensures out == Encode(text)
  {
    if text == [] {
      return text;
    }
    out := [];
    for i := 0 to |text|
      invariant out == Encode(text[..i])
    {
      EncodeSnoc(text, i);
      if text[i] > 0xFFFF {
        out := out + (MARK + HexUpper(text[i]) + [CLOSE]);
      } else {
        out := out + [text[i]];
      }
    }
    assert text[..|text|] == text;
  }

  /** `"[U+" in s` */
  predicate HasMark(s: Text) {
    exists i | 0 <= i <= |s| :: StartsWithMark(s[i..])
  }

  lemma {:induction false} NoMarkDecodesToItself(s: Text)
    requires !HasMark(s)
    ensures Decode(s) == s
  {
    if s == [] {
    } else {
      assert !StartsWithMark(s[0..]) && s[0..] == s;
      forall i | 0 <= i <= |s[1..]| ensures !StartsWithMark(s[1..][i..]) {
        assert s[1..][i..] == s[i + 1..];
      }
      NoMarkDecodesToItself(s[1..]);
    }
  }

  /** The early exit on strings without `[U+` changes nothing. */
  method DecodeEmoji(text: Text) returns (out: Text)
    ensures out == Decode(text)
  {
    if text == [] || !HasMark(text) {
      NoMarkDecodesToItself(text);
      return text;
    }
    out := Decode(text);
  }

  // ----- encoding is invisible to the decoder -----------------------------------

  lemma {:induction false} EncodePlain(s: Text)
    requires forall i :: 0 <= i < |s| ==> s[i] <= 0xFFFF
    ensures Encode(s) == s
  {
    if s == [] {
    } else {
      EncodePlain(s[1..]);
    }
  }

  lemma {:induction false} EncodePlainPrefix(s: Text, k: nat)
    requires k <= |s|
    requires forall i :: 0 <= i < k ==> s[i] <= 0xFFFF
    ensures Encode(s) == s[..k] + Encode(s[k..])
  {
    assert s == s[..k] + s[k..];
    EncodeAppend(s[..k], s[k..]);
    EncodePlain(s[..k]);
  }

  /** An encoded text starts with the text's own first character, or with `[`. */
  lemma EncodeHead(s: Text)
    ensures s == [] <==> Encode(s) == []
    ensures s != [] ==> Encode(s)[0] == (if s[0] > 0xFFFF then OPEN else s[0])
  {
  }

  lemma {:induction false} HexRunOfEncoded(s: Text)
    ensures HexRun(Encode(s)) == HexRun(s)
  {
    EncodeHead(s);
    if s != [] && IsHex(s[0]) {
      assert Encode(s)[1..] == Encode(s[1..]);
      HexRunOfEncoded(s[1..]);
    }
  }

  /** Only a character left alone shows up at the front of an encoded text. */
  lemma FrontOfEncoded(s: Text, c: CodePoint)
    requires c <= 0xFFFF && c != OPEN
    ensures (Encode(s) != [] && Encode(s)[0] == c) <==> (s != [] && s[0] == c)
    ensures s != [] && s[0] == c ==> Encode(s)[1..] == Encode(s[1..])
  {
    EncodeHead(s);
  }

  lemma MarkOfEncoded(s: Text)
    requires s != [] && s[0] <= 0xFFFF
    ensures StartsWithMark(Encode(s)) <==> StartsWithMark(s)
  {
    var e := Encode(s);
    PlainHead(s);
    FrontOfEncoded(s[1..], LETTER_U);
    if |s| > 1 && s[1] == LETTER_U {
      PlainHead(s[1..]);
      assert s[1..][1..] == s[2..];
      FrontOfEncoded(s[2..], PLUS);
    }
  }

  lemma PlainHead(s: Text)
    requires s != [] && s[0] <= 0xFFFF
    ensures Encode(s)[0] == s[0] && Encode(s)[1..] == Encode(s[1..])
    ensures forall i :: 1 <= i < |Encode(s)| ==> Encode(s)[i] == Encode(s[1..])[i - 1]
  {
  }

  /** Behind the digits, encoding leaves the same character (`]` in particular), or none. */
  lemma CloseOfEncoded(d: Text)
    ensures var k := HexRun(d);
            HexRun(Encode(d)) == k
            && (|Encode(d)| > k <==> |d| > k)
            && (|d| > k ==> (Encode(d)[k] == CLOSE <==> d[k] == CLOSE))
  {
    var k := HexRun(d);
    HexRunOfEncoded(d);
    EncodePlainPrefix(d, k);
    EncodeHead(d[k..]);
  }

  lemma SameMatch(s: Text, e: Text, k: nat)
    requires StartsWithMark(s) && StartsWithMark(e)
    requires HexRun(s[3..]) == k && HexRun(e[3..]) == k
    requires |e[3..]| > k <==> |s[3..]| > k
    requires |s[3..]| > k ==> (e[3..][k] == CLOSE <==> s[3..][k] == CLOSE)
    ensures MatchLen(e) == MatchLen(s)
  {
  }

  lemma DropThree(s: Text)
    requires StartsWithMark(s)
    ensures |Encode(s)| >= 3 && Encode(s)[3..] == Encode(s[3..])
  {
    EncodePlainPrefix(s, 3);
  }

  /** Encoding neither creates nor destroys a match at a character it leaves alone. */
  lemma {:induction false} MatchLenOfEncoded(s: Text)
    requires s != [] && s[0] <= 0xFFFF
    ensures MatchLen(Encode(s)) == MatchLen(s)
  {
    MarkOfEncoded(s);
    if StartsWithMark(s) {
      var d, e := s[3..], Encode(s);
      DropThree(s);
      CloseOfEncoded(d);
      SameMatch(s, e, HexRun(d));
    }
  }

  lemma TokenMatches(c: CodePoint, rest: Text)
    requires c > 0xFFFF
    ensures MatchLen(EncodeChar(c) + rest) == |EncodeChar(c)|
  {
    var hex := HexUpper(c);
    var s := EncodeChar(c) + rest;
    assert s[3..] == hex + [CLOSE] + rest;
    HexRunIs(s[3..], |hex|);
  }

  lemma TokenReplaced(c: CodePoint)
    requires c > 0xFFFF
    ensures MatchLen(EncodeChar(c)) == |EncodeChar(c)| && Replace(EncodeChar(c)) == [c]
  {
    var token := EncodeChar(c);
    TokenMatches(c, []);
    assert token + [] == token;
    assert token[3..|token| - 1] == HexUpper(c);
    HexRoundTrip(c);
  }

  /** A token the printer emits is one whole match and is read back as its character. */
  lemma TokenIsRead(c: CodePoint, rest: Text)
    requires c > 0xFFFF
    ensures Decode(EncodeChar(c) + rest) == [c] + Decode(rest)
  {
    var token := EncodeChar(c);
    TokenMatches(c, rest);
    TokenReplaced(c);
    assert (token + rest)[..|token|] == token && (token + rest)[|token|..] == rest;
  }

  /** For every string, tokens and fragments of tokens included. */
  lemma {:induction false} EncodingIsInvisible(s: Text)
    ensures Decode(Encode(s)) == Decode(s)
    decreases |s|
  {
    var n := MatchLen(s);
    if s == [] {
    } else if s[0] > 0xFFFF {
      EncodingIsInvisible(s[1..]);
      TokenIsRead(s[0], Encode(s[1..]));
    } else if n > 0 {
      MatchLenOfEncoded(s);
      EncodePlainPrefix(s, n);
      var e := Encode(s);
      assert e[..n] == s[..n] && e[n..] == Encode(s[n..]);
      EncodingIsInvisible(s[n..]);
    } else {
      MatchLenOfEncoded(s);
      assert Encode(s)[1..] == Encode(s[1..]);
      EncodingIsInvisible(s[1..]);
    }
  }

  /** A token at position `i` that the decoder turns into a character. */
  predicate TokenAt(s: Text, i: nat)
    requires i <= |s|
  {
    var n := MatchLen(s[i..]);
    n > 0 && Decodable(HexValue(s[i..][3..n - 1]))
  }

  /** `[` occurs in a match only as its first character, so matches cannot overlap. */
  lemma NoMatchInsideMatch(s: Text, i: nat)
    requires 0 < i < MatchLen(s)
    ensures MatchLen(s[i..]) == 0
  {
    assert s[i] != OPEN;
  }

  /** How far one scanning step moves. */
  function Advance(s: Text): nat {
    if MatchLen(s) > 0 then MatchLen(s) else 1
  }

  lemma NoTokenInside(s: Text)
    ensures forall i :: 0 < i < MatchLen(s) ==> !TokenAt(s, i)
  {
    forall i | 0 < i < MatchLen(s) ensures !TokenAt(s, i) {
      MatchIsLocal(s);
      NoMatchInsideMatch(s, i);
    }
  }

  /** One scanning step: what it writes, and that no token starts inside what it reads. */
  lemma {:induction false} ScanStep(s: Text) returns (first: Text)
    requires s != []
    ensures Advance(s) <= |s| && Decode(s) == first + Decode(s[Advance(s)..])
    ensures TokenAt(s, 0) ==> |first| < Advance(s)
    ensures !TokenAt(s, 0) ==> first == s[..Advance(s)]
    ensures forall i :: 0 < i < Advance(s) ==> !TokenAt(s, i)
  {
    assert s[0..] == s;
    var n := MatchLen(s);
    if n > 0 {
      MatchIsLocal(s);
      first := Replace(s[..n]);
      assert s[..n][3..n - 1] == s[3..n - 1];
      NoTokenInside(s);
    } else {
      first := [s[0]];
    }
  }

  lemma TokenShift(s: Text, m: nat, i: nat)
    requires m <= i <= |s|
    ensures TokenAt(s, i) <==> TokenAt(s[m..], i - m)
  {
    assert s[i..] == s[m..][i - m..];
  }

  predicate TokenFree(s: Text) {
    forall i :: 0 <= i <= |s| ==> !TokenAt(s, i)
  }

  lemma {:induction false} TokenFreeIsFixed(s: Text)
    requires TokenFree(s)
    ensures Decode(s) == s
    decreases |s|
  {
    if s == [] {
    } else {
      var first := ScanStep(s);
      var m := Advance(s);
      var rest := s[m..];
      forall i | 0 <= i <= |rest| ensures !TokenAt(rest, i) {
        TokenShift(s, m, i + m);
      }
      TokenFreeIsFixed(rest);
      assert s == s[..m] + rest;
    }
  }

  /** Decoding never lengthens a text, and shortens one that holds a token anywhere. */
  lemma {:induction false} DecodeShrinks(s: Text, i: nat)
    requires i <= |s|
    ensures |Decode(s)| <= |s|
    ensures TokenAt(s, i) ==> |Decode(s)| < |s|
    decreases |s|
  {
    if s == [] {
    } else {
      var first := ScanStep(s);
      var m := Advance(s);
      if i >= m {
        TokenShift(s, m, i);
        DecodeShrinks(s[m..], i - m);
      } else {
        DecodeShrinks(s[m..], 0);
      }
    }
  }

  predicate IsSurrogate(c: CodePoint) {
    0xD800 <= c <= 0xDFFF
  }

  /** Decoding a text that can be written as UTF-8 gives one: no token turns into a surrogate. */
  lemma {:induction false} NoNewSurrogates(s: Text, i: nat)
    requires i < |Decode(s)| && IsSurrogate(Decode(s)[i])
    ensures Decode(s)[i] in s
    decreases |s|
  {
    var n := MatchLen(s);
    if n > 0 {
      MatchIsLocal(s);
      var first := Replace(s[..n]);
      if i < |first| {
        assert first == s[..n];
      } else {
        NoNewSurrogates(s[n..], i - |first|);
      }
    } else if i > 0 {
      NoNewSurrogates(s[1..], i - 1);
    }
  }

  /** The stored text reads back as the original exactly when the original holds no token. */
  lemma {:induction false} RoundTripExact(s: Text)
    ensures Decode(Encode(s)) == s <==> TokenFree(s)
  {
    EncodingIsInvisible(s);
    if i: nat :| i <= |s| && TokenAt(s, i) {
      DecodeShrinks(s, i);
    } else {
      TokenFreeIsFixed(s);
    }
  }

  /** The output fits the 3-byte `utf8` columns. */
  lemma {:induction false} EncodedIsThreeByte(s: Text)
    ensures forall i :: 0 <= i < |Encode(s)| ==> Encode(s)[i] <= 0xFFFF
  {
    if s == [] {
    } else {
      EncodedIsThreeByte(s[1..]);
    }
  }

  lemma EncodeIdempotent(s: Text)
    ensures Encode(Encode(s)) == Encode(s)
  {
    var e := Encode(s);
    EncodedIsThreeByte(s);
    EncodePlainPrefix(e, |e|);
    assert e[..|e|] == e && e[|e|..] == [];
  }

  // ----- the codec in plain terms -------------------------------------------------

  /** The character `c` is the hexadecimal digit of value `v`, in either case. */
  predicate HexDigit(c: int, v: int) {
    (0 <= v < 10 && c == 48 + v) || (10 <= v < 16 && (c == 55 + v || c == 87 + v))
  }

  predicate HexDigits(h: Text, values: seq<int>) {
    |h| == |values| && forall i :: 0 <= i < |h| ==> HexDigit(h[i], values[i])
  }

  /** The number that digit values stand for, most significant first. */
  function Base16(values: seq<int>): int {
    if values == [] then 0 else Base16(values[..|values| - 1]) * 16 + values[|values| - 1]
  }

  lemma {:induction false} HexDigitsValue(h: Text, values: seq<int>)
    requires HexDigits(h, values)
    ensures forall i :: 0 <= i < |h| ==> IsHex(h[i])
    ensures HexValue(h) == Base16(values)
  {
    if h == [] {
    } else {
      HexDigitsValue(h[..|h| - 1], values[..|h| - 1]);
      assert DigitValue(h[|h| - 1]) == values[|h| - 1];
    }
  }

  /** `[U+`, digits, `]`, and anything: one match, as long as the token. */
  lemma DigitsMatch(h: Text, rest: Text)
    requires h != [] && forall i :: 0 <= i < |h| ==> IsHex(h[i])
    ensures MatchLen(MARK + h + [CLOSE] + rest) == |h| + 4
    ensures MatchLen(MARK + h + [CLOSE]) == |h| + 4
  {
    var s := MARK + h + [CLOSE] + rest;
    assert s[3..] == h + [CLOSE] + rest;
    HexRunIs(s[3..], |h|);
    var token := MARK + h + [CLOSE];
    assert token[3..] == h + [CLOSE];
    HexRunIs(token[3..], |h|);
  }

  /**
   Reading a token, for every run of digits of either case, leading zeros included: its
   character if that exists and is no surrogate, otherwise the token itself; then the rest.
   */
  lemma {:induction false} TokenReads(h: Text, values: seq<int>, rest: Text)
    requires h != [] && HexDigits(h, values)
    ensures var n := Base16(values);
            var token: Text := ['[' as int, 'U' as int, '+' as int] + h + [']' as int];
            Decode(token + rest)
            == (if 0 <= n < 0xD800 || 0xDFFF < n <= 0x10FFFF then [n] else token) + Decode(rest)
  {
    var token := MARK + h + [CLOSE];
    HexDigitsValue(h, values);
    DigitsMatch(h, rest);
    assert (token + rest)[..|token|] == token && (token + rest)[|token|..] == rest;
    assert token[3..|token| - 1] == h;
  }

  /** The first `k` characters are `[U+`, at least one digit, and `]`. */
  predicate IsToken(s: Text, k: nat) {
    5 <= k <= |s| && s[0] == '[' as int && s[1] == 'U' as int && s[2] == '+' as int && s[k - 1] == ']' as int
    && forall i :: 3 <= i < k - 1 ==> 48 <= s[i] <= 57 || 65 <= s[i] <= 70 || 97 <= s[i] <= 102
  }

  /** Everything that is no token is read as it is. */
  lemma OtherwiseCopied(s: Text)
    requires s != [] && forall k: nat :: !IsToken(s, k)
    ensures Decode(s) == [s[0]] + Decode(s[1..])
  {
    assert !IsToken(s, MatchLen(s));
  }

  lemma {:induction false} HexUpperDigits(n: nat) returns (values: seq<int>)
    ensures |values| == |HexUpper(n)| && Base16(values) == n && (n > 0 ==> values[0] != 0)
    ensures forall i :: 0 <= i < |values| ==>
              0 <= values[i] < 16 && HexUpper(n)[i] == (if values[i] < 10 then 48 else 55) + values[i]
  {
    if n < 16 {
      values := [n];
      assert values[..0] == [];
    } else {
      var high := HexUpperDigits(n / 16);
      values := high + [n % 16];
      assert values[..|values| - 1] == high;
    }
  }

  /**
   Printing a character: itself up to U+FFFF; above that `[U+`, its upper-case hexadecimal
   digits without a leading zero, and `]`.
   */
  lemma {:induction false} CharPrints(c: CodePoint, rest: Text) returns (h: Text, values: seq<int>)
    ensures c <= 0xFFFF ==> Encode([c] + rest) == [c] + Encode(rest)
    ensures c > 0xFFFF ==>
              |h| == |values| > 0 && values[0] != 0 && Base16(values) == c
              && (forall i :: 0 <= i < |h| ==> 0 <= values[i] < 16 && h[i] == (if values[i] < 10 then 48 else 55) + values[i])
              && Encode([c] + rest) == ['[' as int, 'U' as int, '+' as int] + h + [']' as int] + Encode(rest)
  {
    h := HexUpper(c);
    values := HexUpperDigits(c);
    assert ([c] + rest)[1..] == rest;
  }

  // ----- the detail column -------------------------------------------------------

  /** How many characters of `d` are kept when `budget` columns are left. */
  function FitLength(d: Text, budget: nat): (k: nat)
    ensures k <= |d|
  {
    if d == [] || |EncodeChar(d[0])| > budget then 0
    else 1 + FitLength(d[1..], budget - |EncodeChar(d[0])|)
  }

  /** The kept prefixes are exactly the prefixes whose encoding fits. */
  lemma {:induction false} FitLengthIsLongest(d: Text, budget: nat, j: nat)
    requires j <= |d|
    ensures |Encode(d[..j])| <= budget <==> j <= FitLength(d, budget)
  {
    if j == 0 {
    } else {
      assert d[..j][1..] == d[1..][..j - 1];
      if |EncodeChar(d[0])| <= budget {
        FitLengthIsLongest(d[1..], budget - |EncodeChar(d[0])|, j - 1);
      }
    }
  }

  lemma FitLengthIs(d: Text, budget: nat, i: nat)
    requires i <= |d| && |Encode(d[..i])| <= budget
    requires i < |d| ==> |Encode(d[..i])| + |EncodeChar(d[i])| > budget
    ensures FitLength(d, budget) == i
  {
    FitLengthIsLongest(d, budget, i);
    if i < |d| {
      EncodeSnoc(d, i);
      FitLengthIsLongest(d, budget, i + 1);
    }
  }

  method EncodeDetail(detail: Text) returns (out: Text)
    ensures out == Encode(detail[..FitLength(detail, DETAIL_MAX_LEN)])
  {
    if detail == [] {
      return detail;
    }
    out := [];
    var length := 0;
    for i := 0 to |detail|
      invariant out == Encode(detail[..i]) && length == |out| <= DETAIL_MAX_LEN
    {
      var token := EncodeChar(detail[i]);
      if length + |token| > DETAIL_MAX_LEN {
        FitLengthIs(detail, DETAIL_MAX_LEN, i);
        return;
      }
      EncodeSnoc(detail, i);
      out := out + token;
      length := length + |token|;
    }
    FitLengthIs(detail, DETAIL_MAX_LEN, |detail|);
  }

  lemma HexUpperShort(n: nat)
    requires n < 0x1000000
    ensures |HexUpper(n)| <= 6
  {
    assert n / 16 < 0x100000 && n / 16 / 16 < 0x10000 && n / 16 / 16 / 16 < 0x1000;
    var d := n / 16 / 16 / 16;
    assert |HexUpper(d / 16 / 16)| == 1;
    assert |HexUpper(d / 16)| <= 2;
    assert |HexUpper(d)| <= 3;
    assert |HexUpper(n / 16 / 16)| <= 4;
    assert |HexUpper(n / 16)| <= 5;
  }

  lemma {:induction false} EncodedLength(s: Text)
    ensures |s| <= |Encode(s)| <= 10 * |s|
  {
    if s == [] {
    } else {
      if s[0] > 0xFFFF { HexUpperShort(s[0]); }
      EncodedLength(s[1..]);
    }
  }

  /** What the detail column keeps: at least 25 characters, and it reads back whole. */
  lemma DetailKeepsAPrefix(d: Text)
    ensures var p := d[..FitLength(d, DETAIL_MAX_LEN)];
            |Encode(p)| <= DETAIL_MAX_LEN
            && |p| >= (if |d| <= 25 then |d| else 25)
            && Decode(Encode(p)) == Decode(p)
  {
    var k := FitLength(d, DETAIL_MAX_LEN);
    FitLengthIsLongest(d, DETAIL_MAX_LEN, k);
    var j := if |d| <= 25 then |d| else 25;
    EncodedLength(d[..j]);
    FitLengthIsLongest(d, DETAIL_MAX_LEN, j);
    EncodingIsInvisible(d[..k]);
  }

  /** A stored detail reads back as sent exactly when it holds no token and its encoding fits. */
  lemma {:induction false} DetailReadsBack(d: Text)
    ensures Decode(Encode(d[..FitLength(d, DETAIL_MAX_LEN)])) == d <==>
            TokenFree(d) && |Encode(d)| <= DETAIL_MAX_LEN
  {
    var k := FitLength(d, DETAIL_MAX_LEN);
    assert d[..|d|] == d;
    FitLengthIsLongest(d, DETAIL_MAX_LEN, |d|);
    if k == |d| {
      RoundTripExact(d);
    } else {
      EncodingIsInvisible(d[..k]);
      DecodeShrinks(d[..k], 0);
    }
  }
}
