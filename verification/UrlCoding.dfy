/** Percent encoding: `encode_query_param`, `decode_url`, `from_hex_to_i` and `to_utf8`. Characters below 256 stand
    for bytes. */
module UrlCoding {
  import Chunked = ChunkedCoding

  predicate IsByte(c: char) { c as int < 256 }

  predicate IsBytes(s: string) {
    forall i :: 0 <= i < |s| ==> IsByte(s[i])
  }

  // ---------------------------------------------------------------------------------------------
  // Encoding
  // ---------------------------------------------------------------------------------------------

  const UPPER_HEX: string := "0123456789ABCDEF"

  predicate PassesThrough(c: char) {
    || 'a' <= c <= 'z' || 'A' <= c <= 'Z' || '0' <= c <= '9'
    || c == '-' || c == '_' || c == '.' || c == '!' || c == '~' || c == '*' || c == '\'' || c == '(' || c == ')'
  }

  function EncodeByte(c: char): string
    requires IsByte(c)
  {
    if PassesThrough(c) then [c] else ['%', UPPER_HEX[c as int / 16], UPPER_HEX[c as int % 16]]
  }

  function Encode(s: string): string
    requires IsBytes(s)
  {
    if s == "" then "" else EncodeByte(s[0]) + Encode(s[1..])
  }

  method EncodeQueryParam(value: string) returns (escaped: string)
    requires IsBytes(value)
    ensures escaped == Encode(value)
  {
    hide PassesThrough, Encode, EncodeByte;
    escaped := "";
    var i := 0;
    assert value[0..] == value;
    while i < |value|
      invariant i <= |value|
      invariant escaped + Encode(value[i..]) == Encode(value)
    {
      var c := value[i];
      EncodeNext(escaped, value, i);
      if PassesThrough(c) {
        escaped := escaped + [c];
      } else {
        escaped := escaped + ['%', UPPER_HEX[c as int / 16], UPPER_HEX[c as int % 16]];
      }
      i := i + 1;
    }
    assert Encode(value[i..]) == "" by { EncodeNothing(); assert value[i..] == ""; }
  }

  lemma EncodeNext(escaped: string, value: string, i: nat)
    requires IsBytes(value) && i < |value|
    ensures var c := value[i];
            && escaped + Encode(value[i..]) == escaped + EncodeByte(c) + Encode(value[i + 1..])
            && EncodeByte(c)
               == if PassesThrough(c) then [c] else ['%', UPPER_HEX[c as int / 16], UPPER_HEX[c as int % 16]]
  {
    hide PassesThrough;
    assert value[i..][1..] == value[i + 1..];
  }

  lemma EncodeNothing()
    ensures Encode("") == ""
  {
  }

  // ---------------------------------------------------------------------------------------------
  // Decoding
  // ---------------------------------------------------------------------------------------------

  predicate HexAt(s: string, i: nat, count: nat) {
    i + count <= |s| && forall j :: i <= j < i + count ==> Chunked.IsDigit(s[j])
  }

  function HexNumber(s: string): nat {
    Chunked.DigitsValue(s, 0)
  }

  lemma HexNumberOf(s: string)
    requires HexAt(s, 0, |s|)
    ensures |s| == 2 ==> HexNumber(s) == Chunked.DigitValue(s[0]) * 16 + Chunked.DigitValue(s[1]) < 256
    ensures |s| == 4 ==> HexNumber(s) < 0x1_0000
  {
    if |s| == 2 {
      TwoDigits(s, 0);
    } else if |s| == 4 {
      TwoDigits(s, 0);
      TwoDigits(s[2..], Chunked.DigitsValue(s[..2], 0));
      TwoDigits(s[..2], 0);
    }
  }

  lemma TwoDigits(s: string, acc: nat)
    requires |s| >= 2 && HexAt(s, 0, 2)
    ensures Chunked.DigitsValue(s, acc)
            == Chunked.DigitsValue(s[2..], acc * 256 + Chunked.DigitValue(s[0]) * 16 + Chunked.DigitValue(s[1]))
    ensures |s| == 2 ==>
              Chunked.DigitsValue(s, acc) == acc * 256 + Chunked.DigitValue(s[0]) * 16 + Chunked.DigitValue(s[1])
  {
    var t := s[1..];
    assert t[1..] == s[2..];
    assert Chunked.DigitsValue(s, acc) == Chunked.DigitsValue(t, acc * 16 + Chunked.DigitValue(s[0]));
    assert Chunked.DigitsValue(t, acc * 16 + Chunked.DigitValue(s[0]))
        == Chunked.DigitsValue(s[2..], (acc * 16 + Chunked.DigitValue(s[0])) * 16 + Chunked.DigitValue(t[0]));
  }

  function Byte(n: int): char
    requires 0 <= n < 256
  {
    n as char
  }

  /** `to_utf8`: nothing for a surrogate. */
  function Utf8(code: nat): string
    requires code < 0x11_0000
  {
    if code < 0x80 then [Byte(code)]
    else if code < 0x800 then [Byte(0xC0 + code / 0x40), Byte(0x80 + code % 0x40)]
    else if 0xD800 <= code < 0xE000 then ""
    else if code < 0x1_0000 then
      [Byte(0xE0 + code / 0x1000), Byte(0x80 + code / 0x40 % 0x40), Byte(0x80 + code % 0x40)]
    else
      [Byte(0xF0 + code / 0x4_0000), Byte(0x80 + code / 0x1000 % 0x40), Byte(0x80 + code / 0x40 % 0x40),
       Byte(0x80 + code % 0x40)]
  }

  predicate Continues(c: char) { 0x80 <= c as int < 0xC0 }

  /** The code point of a UTF-8 text (section 3 of RFC 3629), or -1. */
  function Utf8Value(s: string): int
    requires IsBytes(s)
  {
    if |s| == 1 && s[0] as int < 0x80 then s[0] as int
    else if |s| == 2 && 0xC0 <= s[0] as int < 0xE0 && Continues(s[1]) then
      (s[0] as int - 0xC0) * 0x40 + (s[1] as int - 0x80)
    else if |s| == 3 && 0xE0 <= s[0] as int < 0xF0 && Continues(s[1]) && Continues(s[2]) then
      ((s[0] as int - 0xE0) * 0x40 + (s[1] as int - 0x80)) * 0x40 + (s[2] as int - 0x80)
    else if |s| == 4 && 0xF0 <= s[0] as int < 0xF8 && Continues(s[1]) && Continues(s[2]) && Continues(s[3]) then
      (((s[0] as int - 0xF0) * 0x40 + (s[1] as int - 0x80)) * 0x40 + (s[2] as int - 0x80)) * 0x40
      + (s[3] as int - 0x80)
    else -1
  }

  /** Every code point but the surrogates is written so that it can be read back. */
  lemma Utf8ReadsBack(code: nat)
    requires code < 0x11_0000
    ensures IsBytes(Utf8(code))
    ensures Utf8Value(Utf8(code)) == if 0xD800 <= code < 0xE000 then -1 else code
  {
    assert code / 0x1000 == code / 0x40 / 0x40 && code / 0x4_0000 == code / 0x1000 / 0x40;
  }

  predicate StartsEscape(s: string) {
    && |s| > 1
    && s[0] == '%'
    && if s[1] == 'u' then HexAt(s, 2, 4) else HexAt(s, 1, 2)
  }

  /** What the escape at the start stands for. */
  function Unescaped(s: string): string
    requires StartsEscape(s)
  {
    if s[1] == 'u' then (HexNumberOf(s[2..6]); Utf8(HexNumber(s[2..6])))
    else (HexNumberOf(s[1..3]); [Byte(HexNumber(s[1..3]))])
  }

  function EscapeLength(s: string): nat
    requires StartsEscape(s)
  {
    if s[1] == 'u' then 6 else 3
  }

  function Decode(s: string, plusToSpace: bool): string
    decreases |s|
  {
    if s == "" then ""
    else if StartsEscape(s) then Unescaped(s) + Decode(s[EscapeLength(s)..], plusToSpace)
    else [if plusToSpace && s[0] == '+' then ' ' else s[0]] + Decode(s[1..], plusToSpace)
  }

  /** `from_hex_to_i`: reading past the end finds the terminating NUL, which is no digit. */
  method FromHexToI(s: string, i0: nat, count: nat) returns (ok: bool, val: nat)
    requires count > 0
    ensures ok <==> HexAt(s, i0, count)
    ensures ok ==> val == HexNumber(s[i0..i0 + count])
  {
    val := 0;
    if i0 >= |s| {
      return false, 0;
    }
    var i, left := i0, count;
    while left > 0
      invariant i0 <= i <= |s| && i + left == i0 + count && HexAt(s, i0, i - i0)
      invariant i + left <= |s| ==>
                  Chunked.DigitsValue(s[i..i + left], val) == HexNumber(s[i0..i0 + count])
                  || !HexAt(s, i0, count)
    {
      if i == |s| || s[i] == 0 as char {
        return false, val;
      }
      if !Chunked.IsDigit(s[i]) {
        return false, val;
      }
      if i + left <= |s| { assert s[i..i + left][1..] == s[i + 1..i + left]; }
      val := val * 16 + Chunked.DigitValue(s[i]);
      i, left := i + 1, left - 1;
    }
    return true, val;
  }

  method DecodeUrl(s: string, plusToSpace: bool) returns (result: string)
    ensures result == Decode(s, plusToSpace)
  {
    hide Utf8, HexNumber, HexAt;
    result := "";
    var i := 0;
    while i < |s|
      invariant i <= |s|
      invariant result + Decode(s[i..], plusToSpace) == Decode(s, plusToSpace)
    {
      EscapeHere(s, i);
      if s[i] == '%' && i + 1 < |s| {
        if s[i + 1] == 'u' {
          var ok, val := FromHexToI(s, i + 2, 4);
          if ok {
            DecodeEscape(s, i, plusToSpace, result);
            HexNumberOf(s[i + 2..i + 6]);
            result := result + Utf8(val);
            i := i + 5;
          } else {
            DecodeLiteral(s, i, plusToSpace, result);
            result := result + [s[i]];
          }
        } else {
          var ok, val := FromHexToI(s, i + 1, 2);
          if ok {
            DecodeEscape(s, i, plusToSpace, result);
            HexNumberOf(s[i + 1..i + 3]);
            result := result + [Byte(val)];
            i := i + 2;
          } else {
            DecodeLiteral(s, i, plusToSpace, result);
            result := result + [s[i]];
          }
        }
      } else {
        DecodeLiteral(s, i, plusToSpace, result);
        if plusToSpace && s[i] == '+' {
          result := result + " ";
        } else {
          result := result + [s[i]];
        }
      }
      i := i + 1;
    }
  }

  /** An escape seen from inside the text. */
  lemma EscapeHere(s: string, i: nat)
    requires i < |s|
    ensures StartsEscape(s[i..]) <==>
            s[i] == '%' && i + 1 < |s| && if s[i + 1] == 'u' then HexAt(s, i + 2, 4) else HexAt(s, i + 1, 2)
    ensures HexAt(s, i + 2, 4) ==> HexAt(s[i + 2..i + 6], 0, 4)
    ensures HexAt(s, i + 1, 2) ==> HexAt(s[i + 1..i + 3], 0, 2)
  {
    assert forall j :: 0 <= j < |s| - i ==> s[i..][j] == s[i + j];
    assert HexAt(s, i + 2, 4) <==> HexAt(s[i..], 2, 4) by { Shift(s, i, 2, 4); }
    assert HexAt(s, i + 1, 2) <==> HexAt(s[i..], 1, 2) by { Shift(s, i, 1, 2); }
  }

  lemma Shift(s: string, i: nat, a: nat, n: nat)
    requires i <= |s|
    ensures HexAt(s, i + a, n) <==> HexAt(s[i..], a, n)
  {
    if HexAt(s[i..], a, n) {
      forall j | i + a <= j < i + a + n
        ensures Chunked.IsDigit(s[j])
      {
        assert s[j] == s[i..][j - i];
      }
    }
  }

  lemma DecodeEscape(s: string, i: nat, plusToSpace: bool, result: string)
    requires i < |s| && StartsEscape(s[i..])
    ensures var t := s[i..];
            && i + EscapeLength(t) <= |s|
            && result + Decode(t, plusToSpace) == result + Unescaped(t) + Decode(s[i + EscapeLength(t)..], plusToSpace)
            && (s[i + 1] == 'u' ==> t[2..6] == s[i + 2..i + 6])
            && (s[i + 1] != 'u' ==> t[1..3] == s[i + 1..i + 3])
  {
    hide Unescaped;
    var t := s[i..];
    var k := EscapeLength(t);
    assert t[k..] == s[i + k..];
    assert result + (Unescaped(t) + Decode(t[k..], plusToSpace)) == result + Unescaped(t) + Decode(t[k..], plusToSpace);
  }

  lemma DecodeLiteral(s: string, i: nat, plusToSpace: bool, result: string)
    requires i < |s| && !StartsEscape(s[i..])
    ensures result + Decode(s[i..], plusToSpace)
            == result + [if plusToSpace && s[i] == '+' then ' ' else s[i]] + Decode(s[i + 1..], plusToSpace)
  {
    assert s[i..][1..] == s[i + 1..];
  }

  // ---------------------------------------------------------------------------------------------
  // Properties
  // ---------------------------------------------------------------------------------------------

  lemma EncodedByteDecodes(c: char, rest: string, plusToSpace: bool)
    requires IsByte(c)
    ensures Decode(EncodeByte(c) + rest, plusToSpace) == [c] + Decode(rest, plusToSpace)
  {
    var s := EncodeByte(c) + rest;
    if PassesThrough(c) {
      assert s[1..] == rest;
    } else {
      var h, l := c as int / 16, c as int % 16;
      HexLetter(h);
      HexLetter(l);
      assert s[1..3] == [UPPER_HEX[h], UPPER_HEX[l]] && s[3..] == rest;
      HexNumberOf(s[1..3]);
    }
  }

  lemma HexLetter(d: nat)
    requires d < 16
    ensures Chunked.DigitValue(UPPER_HEX[d]) == d && UPPER_HEX[d] != 'u'
  {
  }

  /** Every byte string comes back, whatever is done with plus signs. */
  lemma {:induction false} DecodeInvertsEncode(s: string, plusToSpace: bool)
    requires IsBytes(s)
    ensures Decode(Encode(s), plusToSpace) == s
  {
    hide EncodeByte;
    if s != "" {
      EncodedByteDecodes(s[0], Encode(s[1..]), plusToSpace);
      DecodeInvertsEncode(s[1..], plusToSpace);
      assert s == [s[0]] + s[1..];
    }
  }

  /** Encoded text is made of the characters that pass and of percent signs: nothing a query would split at, nothing
      that would be trimmed. */
  lemma {:induction false} EncodedIsPlain(s: string)
    requires IsBytes(s)
    ensures forall c :: c in Encode(s) ==> PassesThrough(c) || c == '%'
  {
    hide PassesThrough, EncodeByte;
    if s != "" {
      EncodedIsPlain(s[1..]);
      EncodedByteIsPlain(s[0]);
    }
  }

  lemma EncodedByteIsPlain(b: char)
    requires IsByte(b)
    ensures forall c :: c in EncodeByte(b) ==> PassesThrough(c) || c == '%'
  {
    HexLetterPasses(b as int / 16);
    HexLetterPasses(b as int % 16);
    hide PassesThrough;
  }

  lemma HexLetterPasses(d: nat)
    requires d < 16
    ensures PassesThrough(UPPER_HEX[d])
  {
  }

  /** A letter, a digit or one of -_.!~*'() is encoded as itself; any other byte as a percent sign and its two
      hexadecimal digits, in upper case. */
  lemma EncodedExactly(c: char)
    requires IsByte(c)
    ensures var alphanumeric := 'a' <= c <= 'z' || 'A' <= c <= 'Z' || '0' <= c <= '9';
            if alphanumeric || c in {'-', '_', '.', '!', '~', '*', '\'', '(', ')'} then Encode([c]) == [c]
            else
              && |Encode([c])| == 3 && Encode([c])[0] == '%'
              && (forall d <- Encode([c])[1..] :: '0' <= d <= '9' || 'A' <= d <= 'F')
              && HexNumber(Encode([c])[1..]) == c as int
  {
    assert [c][1..] == "" && Encode([c]) == EncodeByte(c) + Encode("") == EncodeByte(c);
    if !PassesThrough(c) {
      var h, l := c as int / 16, c as int % 16;
      HexLetter(h);
      HexLetter(l);
      UpperHex(h);
      UpperHex(l);
      var digits := Encode([c])[1..];
      assert digits == [UPPER_HEX[h], UPPER_HEX[l]];
      HexNumberOf(digits);
    }
  }

  lemma UpperHex(d: nat)
    requires d < 16
    ensures '0' <= UPPER_HEX[d] <= '9' || 'A' <= UPPER_HEX[d] <= 'F'
  {
  }

  /** Nothing in the text would be decoded to something else. */
  ghost predicate Literal(s: string) {
    forall i :: 0 <= i < |s| ==> s[i] != '+' && !StartsEscape(s[i..])
  }

  lemma {:induction false} DecodeChangesNothing(s: string)
    ensures |Decode(s, true)| <= |s|
    ensures Decode(s, true) == s <==> Literal(s)
    decreases |s|
  {
    hide StartsEscape, Unescaped, EscapeLength;
    if s != "" {
      assert s[0..] == s;
      if StartsEscape(s) {
        EscapeShrinks(s);
        DecodeChangesNothing(s[EscapeLength(s)..]);
      } else {
        DecodeChangesNothing(s[1..]);
        LiteralTail(s);
        assert s == [s[0]] + s[1..];
        assert Decode(s, true)[1..] == Decode(s[1..], true);
      }
    }
  }

  lemma EscapeShrinks(s: string)
    requires StartsEscape(s)
    ensures |Unescaped(s)| < EscapeLength(s) <= |s|
  {
  }

  lemma LiteralTail(s: string)
    requires s != "" && !StartsEscape(s)
    ensures Literal(s) <==> s[0] != '+' && Literal(s[1..])
  {
    hide StartsEscape;
    assert s[0..] == s;
    assert forall i :: 0 <= i < |s| - 1 ==> s[1..][i..] == s[i + 1..] && s[1..][i] == s[i + 1];
    if s[0] != '+' && Literal(s[1..]) {
      forall i | 0 <= i < |s|
        ensures s[i] != '+' && !StartsEscape(s[i..])
      {
        if i > 0 { assert s[1..][i - 1..] == s[i..] && s[1..][i - 1] == s[i]; }
      }
    }
  }

  /** No place where an escape is complete. */
  ghost predicate NoEscape(s: string) {
    forall i :: 0 <= i < |s| ==> !StartsEscape(s[i..])
  }

  /** The text with a space for each plus sign, or as it is. */
  function Spaced(s: string, plusToSpace: bool): (t: string)
    ensures |t| == |s| && forall i :: 0 <= i < |s| ==> t[i] == if plusToSpace && s[i] == '+' then ' ' else s[i]
  {
    seq(|s|, i requires 0 <= i < |s| => if plusToSpace && s[i] == '+' then ' ' else s[i])
  }

  /** A text is decoded to itself, but for its plus signs, if and only if no escape is in it. */
  lemma {:induction false} DecodeOnlySpaces(s: string, plusToSpace: bool)
    ensures |Decode(s, plusToSpace)| <= |s|
    ensures Decode(s, plusToSpace) == Spaced(s, plusToSpace) <==> NoEscape(s)
    decreases |s|
  {
    hide StartsEscape, Unescaped, EscapeLength;
    if s != "" {
      assert s[0..] == s;
      if StartsEscape(s) {
        EscapeShrinks(s);
        DecodeOnlySpaces(s[EscapeLength(s)..], plusToSpace);
      } else {
        DecodeOnlySpaces(s[1..], plusToSpace);
        NoEscapeTail(s);
        assert Spaced(s, plusToSpace) == [Spaced(s, plusToSpace)[0]] + Spaced(s[1..], plusToSpace);
        assert Decode(s, plusToSpace)[1..] == Decode(s[1..], plusToSpace);
        assert Spaced(s, plusToSpace)[1..] == Spaced(s[1..], plusToSpace);
      }
    }
  }

  lemma NoEscapeTail(s: string)
    requires s != "" && !StartsEscape(s)
    ensures NoEscape(s) <==> NoEscape(s[1..])
  {
    hide StartsEscape;
    assert s[0..] == s;
    assert forall i :: 0 <= i < |s| - 1 ==> s[1..][i..] == s[i + 1..];
    if NoEscape(s[1..]) {
      forall i | 0 <= i < |s|
        ensures !StartsEscape(s[i..])
      {
        if i > 0 { assert s[1..][i - 1..] == s[i..]; }
      }
    }
  }

  /** What a text to be decoded is made of: characters, plus signs, bytes and code points in hexadecimal with the digits
      in either case, and percent signs that begin no escape. */
  datatype Token =
    | Plain(c: char)
    | Plus
    | Percent
    | Hexadecimal(byte: nat, lower: bool)
    | Unicode(code: nat, lower: bool)

  function Digits(lower: bool): string {
    if lower then Chunked.HEX_CHARS else UPPER_HEX
  }

  function Hex2(n: nat, lower: bool): (t: string)
    requires n < 0x100
    ensures |t| == 2
  {
    [Digits(lower)[n / 16], Digits(lower)[n % 16]]
  }

  predicate Written(token: Token) {
    match token
    case Plain(c) => c != '%' && c != '+'
    case Hexadecimal(byte, _) => byte < 0x100
    case Unicode(code, _) => code < 0x1_0000
    case _ => true
  }

  function TokenText(token: Token): string
    requires Written(token)
  {
    match token
    case Plain(c) => [c]
    case Plus => "+"
    case Percent => "%"
    case Hexadecimal(byte, lower) => "%" + Hex2(byte, lower)
    case Unicode(code, lower) => "%u" + Hex2(code / 0x100, lower) + Hex2(code % 0x100, lower)
  }

  /** What it stands for. A surrogate stands for nothing. */
  predicate Means(token: Token, plusToSpace: bool, meaning: string)
    requires Written(token)
  {
    match token
    case Plain(c) => meaning == [c]
    case Plus => meaning == if plusToSpace then " " else "+"
    case Percent => meaning == "%"
    case Hexadecimal(byte, _) => |meaning| == 1 && meaning[0] as int == byte
    case Unicode(code, _) =>
      IsBytes(meaning) && if 0xD800 <= code < 0xE000 then meaning == "" else Utf8Value(meaning) == code
  }

  /** Each token at the start of a text is decoded to what it stands for, and what follows it is decoded alone. */
  lemma TokenDecodes(token: Token, rest: string, plusToSpace: bool) returns (meaning: string)
    requires Written(token) && (token.Percent? ==> !StartsEscape(TokenText(token) + rest))
    ensures Means(token, plusToSpace, meaning)
    ensures Decode(TokenText(token) + rest, plusToSpace) == meaning + Decode(rest, plusToSpace)
  {
    hide Utf8, StartsEscape, Unescaped, EscapeLength, HexNumber;
    var s := TokenText(token) + rest;
    match token
    case Plain(c) =>
      OneCharacter(s);
      assert s[1..] == rest;
      meaning := [c];
    case Plus =>
      OneCharacter(s);
      assert s[1..] == rest;
      meaning := if plusToSpace then " " else "+";
    case Percent =>
      assert s[1..] == rest;
      meaning := "%";
    case Hexadecimal(byte, lower) =>
      assert s == ['%', Digits(lower)[byte / 16], Digits(lower)[byte % 16]] + rest;
      HexEscape(byte, lower, rest);
      meaning := [Byte(byte)];
    case Unicode(code, lower) =>
      UnicodeEscape(code, lower, rest);
      Utf8ReadsBack(code);
      meaning := Utf8(code);
      if 0xD800 <= code < 0xE000 { NoSurrogate(code); }
  }

  lemma OneCharacter(s: string)
    requires s != "" && s[0] != '%'
    ensures !StartsEscape(s)
  {
  }

  lemma NoSurrogate(code: nat)
    requires 0xD800 <= code < 0xE000
    ensures Utf8(code) == ""
  {
  }

  lemma DigitOf(d: nat, lower: bool)
    requires d < 16
    ensures Chunked.DigitValue(Digits(lower)[d]) == d && Digits(lower)[d] != 'u'
  {
    if lower { Chunked.HexDigit(d); LowerIsNotU(d); } else { HexLetter(d); }
  }

  lemma LowerIsNotU(d: nat)
    requires d < 16
    ensures Chunked.HEX_CHARS[d] <= 'f'
  {
    Chunked.HexDigit(d);
  }

  lemma Hex2Value(n: nat, lower: bool)
    requires n < 0x100
    ensures var t := Hex2(n, lower); HexAt(t, 0, 2) && HexNumber(t) == n && t[0] != 'u'
  {
    DigitOf(n / 16, lower);
    DigitOf(n % 16, lower);
    HexNumberOf(Hex2(n, lower));
  }

  lemma HexEscape(byte: nat, lower: bool, rest: string)
    requires byte < 0x100
    ensures var s := "%" + Hex2(byte, lower) + rest;
            StartsEscape(s) && EscapeLength(s) == 3 && Unescaped(s) == [Byte(byte)] && s[3..] == rest
  {
    var s, t := "%" + Hex2(byte, lower) + rest, Hex2(byte, lower);
    Hex2Value(byte, lower);
    assert s[1..3] == t && s[1] == t[0] && s[2] == t[1] && s[3..] == rest;
  }

  lemma UnicodeEscape(code: nat, lower: bool, rest: string)
    requires code < 0x1_0000
    ensures var s := "%u" + Hex2(code / 0x100, lower) + Hex2(code % 0x100, lower) + rest;
            StartsEscape(s) && EscapeLength(s) == 6 && Unescaped(s) == Utf8(code) && s[6..] == rest
  {
    hide Utf8, HexNumber, Hex2;
    var high, low := Hex2(code / 0x100, lower), Hex2(code % 0x100, lower);
    var s, t := "%u" + high + low + rest, high + low;
    Hex2Value(code / 0x100, lower);
    Hex2Value(code % 0x100, lower);
    FourDigits(high, low);
    assert s[2..6] == t && s[6..] == rest;
    assert forall j :: 2 <= j < 6 ==> s[j] == t[j - 2];
  }

  lemma FourDigits(high: string, low: string)
    requires |high| == |low| == 2 && HexAt(high, 0, 2) && HexAt(low, 0, 2)
    ensures HexAt(high + low, 0, 4) && HexNumber(high + low) == HexNumber(high) * 0x100 + HexNumber(low)
  {
    Chunked.DigitsAppend(high, low, 0);
    TwoDigits(low, HexNumber(high));
    TwoDigits(low, 0);
    hide Chunked.DigitsValue;
  }

  method EncodeThenDecode(value: string, plusToSpace: bool) returns (back: string)
    requires IsBytes(value)
    ensures back == value
  {
    var escaped := EncodeQueryParam(value);
    back := DecodeUrl(escaped, plusToSpace);
    DecodeInvertsEncode(value, plusToSpace);
  }
}
