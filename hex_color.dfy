/** The colour parser `hexToRgb` of the animated circle component.

    The parser matches `/^#?([a-f\d]{2})([a-f\d]{2})([a-f\d]{2})$/i`, turns each
    captured pair of hex digits into a number with `parseInt(_, 16)`, and falls
    back to a fixed triple when the pattern does not match. It is the six-digit
    `#rrggbb` notation of section 5.2 of CSS Color Module Level 4, loosened so
    that the `#` may be left out.
 */
module HexColor {

  /** A value `parseInt(pair, 16)` can return for two hex digits. */
  predicate IsByte(n: int) {
    0 <= n < 256
  }

  /** The three-element array `hexToRgb` returns: red, green and blue. */
  datatype Rgb = Rgb(r: int, g: int, b: int)

  predicate IsByteTriple(c: Rgb) {
    IsByte(c.r) && IsByte(c.g) && IsByte(c.b)
  }

  /** The triple returned when the input does not match the pattern. */
  const Default: Rgb := Rgb(103, 154, 192)

  /** `[a-f\d]` under the `i` flag: an ASCII digit, or a letter a to f in either case. */
  predicate IsHexDigit(ch: char) {
    '0' <= ch <= '9' || 'a' <= ch <= 'f' || 'A' <= ch <= 'F'
  }

  /** The character class is case-blind: a character is in it exactly when its
      lower-case form is one of the sixteen digits `0123456789abcdef`. */
  lemma HexDigitClass(ch: char)
    ensures IsHexDigit(ch) <==> LowerChar(ch) in "0123456789abcdef"
  {
  }

  /** The value of one hex digit, as `parseInt` reads it. */
  function DigitValue(ch: char): (v: int)
    requires IsHexDigit(ch)
    ensures 0 <= v < 16
    ensures ('0' <= ch <= '9') == (v < 10)
  {
    if '0' <= ch <= '9' then ch as int - '0' as int
    else if 'a' <= ch <= 'f' then ch as int - 'a' as int + 10
    else ch as int - 'A' as int + 10
  }

  /** The lower-case hex digit of a value below 16 (the inverse of DigitValue). */
  function DigitChar(v: int): (ch: char)
    requires 0 <= v < 16
    ensures IsHexDigit(ch) && DigitValue(ch) == v
    ensures !('A' <= ch <= 'F')
  {
    if v < 10 then (v + '0' as int) as char else (v - 10 + 'a' as int) as char
  }

  /** ASCII lower-casing of one character; everything else is left alone. */
  function LowerChar(ch: char): char {
    if 'A' <= ch <= 'Z' then (ch as int - 'A' as int + 'a' as int) as char else ch
  }

  /** ASCII lower-casing of a string. */
  function ToLower(s: string): (t: string)
    ensures |t| == |s|
    ensures forall i :: 0 <= i < |s| ==> t[i] == LowerChar(s[i])
  {
    seq(|s|, i requires 0 <= i < |s| => LowerChar(s[i]))
  }

  /** `s` and `t` differ at most in the case of ASCII letters. */
  predicate SameUpToCase(s: string, t: string) {
    |s| == |t| && forall i :: 0 <= i < |s| ==> LowerChar(s[i]) == LowerChar(t[i])
  }

  /** The three capture groups `([a-f\d]{2})` one after the other: six hex digits. */
  predicate IsHexBody(d: string) {
    |d| == 6 && forall i :: 0 <= i < 6 ==> IsHexDigit(d[i])
  }

  /** The whole of `s` matches the pattern: an optional `#`, then exactly six hex digits. */
  predicate Matches(s: string)
    ensures Matches(s) ==> |s| == 6 || |s| == 7
    ensures Matches(s) ==> s[0] == '#' || IsHexDigit(s[0])
    ensures Matches(s) ==> forall i :: 0 < i < |s| ==> IsHexDigit(s[i])
  {
    IsHexBody(s) || (|s| == 7 && s[0] == '#' && IsHexBody(s[1..]))
  }

  /** The text of the three capture groups of a matching string. */
  function Body(s: string): (d: string)
    requires Matches(s)
    ensures IsHexBody(d)
    ensures s == d || s == "#" + d
  {
    if |s| == 6 then s else s[1..]
  }

  /** `parseInt(pair, 16)` for a capture group of two hex digits. */
  function PairValue(hi: char, lo: char): (n: int)
    requires IsHexDigit(hi) && IsHexDigit(lo)
    ensures IsByte(n)
    ensures n / 16 == DigitValue(hi) && n % 16 == DigitValue(lo)
  {
    16 * DigitValue(hi) + DigitValue(lo)
  }

  /** `hexToRgb`: the three decoded pairs, or Default when the pattern does not match. */
  function HexToRgb(s: string): (c: Rgb)
    ensures IsByteTriple(c)
    ensures !Matches(s) ==> c == Default
  {
    if Matches(s) then
      var d := Body(s);
      Rgb(PairValue(d[0], d[1]), PairValue(d[2], d[3]), PairValue(d[4], d[5]))
    else
      Default
  }

  /** Two lower-case hex digits for a byte. */
  function PairText(n: int): (p: string)
    requires IsByte(n)
    ensures |p| == 2 && IsHexDigit(p[0]) && IsHexDigit(p[1])
    ensures PairValue(p[0], p[1]) == n
  {
    [DigitChar(n / 16), DigitChar(n % 16)]
  }

  /** The `#rrggbb` text of a byte triple, in lower case. */
  function FormatHex(c: Rgb): (s: string)
    requires IsByteTriple(c)
    ensures |s| == 7 && s[0] == '#' && Matches(s)
    ensures s == ToLower(s)
  {
    var s := "#" + PairText(c.r) + PairText(c.g) + PairText(c.b);
    assert IsHexBody(s[1..]) by {
      assert s[1..] == PairText(c.r) + PairText(c.g) + PairText(c.b);
    }
    s
  }

  // ---------------------------------------------------------------------------
  // Decoding a matching string
  // ---------------------------------------------------------------------------

  /** Six hex digits, with or without a leading `#`, decode pair by pair to
      `16 * hi + lo`. */
  lemma DecodesDigitPairs(d: string)
    requires IsHexBody(d)
    ensures HexToRgb(d) == HexToRgb("#" + d)
    ensures HexToRgb(d) == Rgb(16 * DigitValue(d[0]) + DigitValue(d[1]),
                               16 * DigitValue(d[2]) + DigitValue(d[3]),
                               16 * DigitValue(d[4]) + DigitValue(d[5]))
  {
  }

  /** The `#` is optional: putting one `#` in front of any input that does not
      already start with `#` never changes the result, match or fallback. */
  lemma HashOptional(s: string)
    requires |s| == 0 || s[0] != '#'
    ensures HexToRgb("#" + s) == HexToRgb(s)
  {
    assert ("#" + s)[1..] == s;
  }

  /** `LowerChar` keeps hex digits hex, keeps `#`, and does not change the digit's value. */
  lemma LowerCharPreserves(a: char, b: char)
    requires LowerChar(a) == LowerChar(b)
    ensures IsHexDigit(a) <==> IsHexDigit(b)
    ensures IsHexDigit(a) ==> DigitValue(a) == DigitValue(b)
    ensures a == '#' <==> b == '#'
  {
  }

  lemma SameUpToCaseBody(s: string, t: string)
    requires SameUpToCase(s, t)
    ensures IsHexBody(s) <==> IsHexBody(t)
    ensures IsHexBody(s) ==>
      forall i :: 0 <= i < 6 ==> DigitValue(s[i]) == DigitValue(t[i])
  {
    forall i | 0 <= i < |s|
      ensures IsHexDigit(s[i]) <==> IsHexDigit(t[i])
      ensures IsHexDigit(s[i]) ==> DigitValue(s[i]) == DigitValue(t[i])
    {
      LowerCharPreserves(s[i], t[i]);
    }
  }

  /** The `i` flag: strings that differ only in the case of letters decode to
      the same triple, whether they match or fall back. */
  lemma CaseInsensitive(s: string, t: string)
    requires SameUpToCase(s, t)
    ensures HexToRgb(s) == HexToRgb(t)
  {
    SameUpToCaseBody(s, t);
    if |s| == 7 {
      LowerCharPreserves(s[0], t[0]);
      assert SameUpToCase(s[1..], t[1..]) by {
        forall i | 0 <= i < |s| - 1 ensures LowerChar(s[1..][i]) == LowerChar(t[1..][i]) {
          assert s[1..][i] == s[i + 1] && t[1..][i] == t[i + 1];
        }
      }
      SameUpToCaseBody(s[1..], t[1..]);
    }
  }

  /** In particular, lower-casing the input never changes the result. */
  lemma LowerCaseDecodesSame(s: string)
    ensures HexToRgb(ToLower(s)) == HexToRgb(s)
  {
  }

  // ---------------------------------------------------------------------------
  // Fallback
  // ---------------------------------------------------------------------------

  /** Any length other than six or seven falls back. */
  lemma WrongLengthFallsBack(s: string)
    requires |s| != 6 && |s| != 7
    ensures HexToRgb(s) == Default
  {
  }

  /** A character after the first that is not a hex digit makes the input fall back. */
  lemma NonHexFallsBack(s: string, i: int)
    requires 0 < i < |s| && !IsHexDigit(s[i])
    ensures HexToRgb(s) == Default
  {
  }

  /** A first character that is neither `#` nor a hex digit makes the input fall back. */
  lemma BadFirstCharFallsBack(s: string)
    requires |s| > 0 && s[0] != '#' && !IsHexDigit(s[0])
    ensures HexToRgb(s) == Default
  {
  }

  /** Only one `#` is allowed: `##` in front falls back. */
  lemma DoubleHashFallsBack(s: string)
    requires |s| >= 2 && s[0] == '#' && s[1] == '#'
    ensures HexToRgb(s) == Default
  {
  }

  /** The pattern is anchored at the end: anything after a matching string falls back. */
  lemma TrailingTextFallsBack(s: string, tail: string)
    requires Matches(s) && |tail| > 0
    ensures HexToRgb(s + tail) == Default
  {
  }

  /** `#679ac0`, the initial value of the app's colour control that is passed
      in as the colour prop, and the same text without `#`, decode to the very
      triple used as the fallback. */
  lemma InitialColourDecodesToFallback()
    ensures HexToRgb("#679ac0") == Default
    ensures HexToRgb("679ac0") == Default
  {
  }

  /** The fallback triple is a byte triple, and its `#rrggbb` text is `#679ac0`. */
  lemma FallbackFormatsAsInitialColour()
    ensures IsByteTriple(Default)
    ensures FormatHex(Default) == "#679ac0"
  {
  }

  // ---------------------------------------------------------------------------
  // Round trip with the #rrggbb formatting
  // ---------------------------------------------------------------------------

  /** Formatting a byte triple as `#rrggbb` and decoding it gives the triple back. */
  lemma RoundTrip(c: Rgb)
    requires IsByteTriple(c)
    ensures HexToRgb(FormatHex(c)) == c
  {
  }

  /** Decoding a matching string and formatting the result gives the string's
      digits in lower case, with `#` in front: nothing but case and the optional
      `#` is lost. */
  lemma CanonicalForm(s: string)
    requires Matches(s)
    ensures FormatHex(HexToRgb(s)) == "#" + ToLower(Body(s))
  {
    var d := Body(s);
    var f := FormatHex(HexToRgb(s));
    var g := "#" + ToLower(d);
    forall i | 0 <= i < 6 ensures DigitChar(DigitValue(d[i])) == LowerChar(d[i]) {
      DigitCharOfValue(d[i]);
    }
    forall i | 0 <= i < 7 ensures f[i] == g[i] {
      if i > 0 {
        assert g[i] == LowerChar(d[i - 1]);
      }
    }
  }

  /** Formatting the value of a hex digit gives the digit in lower case. */
  lemma DigitCharOfValue(ch: char)
    requires IsHexDigit(ch)
    ensures DigitChar(DigitValue(ch)) == LowerChar(ch)
  {
  }
}
