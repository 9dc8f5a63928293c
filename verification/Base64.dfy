/** base64 (section 4 of RFC 4648): the rolling 32-bit accumulator, against the definition by
    three-byte blocks and a decoder. */
module Base64 {

  type Byte = n: nat | n < 256

  const UPPER: string := "ABCDEFGHIJKLMNOPQRSTUVWXYZ"
  const LOWER: string := "abcdefghijklmnopqrstuvwxyz"
  const DIGITS: string := "0123456789"
  const LOOKUP: string := UPPER + LOWER + DIGITS + "+/"

  const TWO_31: int := 0x8000_0000
  const TWO_32: int := 0x1_0000_0000

  /** Conversion to a 32-bit `int`. */
  function ToInt32(x: int): int {
    var m := x % TWO_32;
    if m < TWO_31 then m else m - TWO_32
  }

  function PowerOf2(k: nat): (p: nat)
    ensures p > 0
  {
    if k == 0 then 1 else 2 * PowerOf2(k - 1)
  }

  function Letter(i: nat): char
    requires i < 64
  {
    LOOKUP[i]
  }

  /** `lookup[(val >> shift) & 0x3F]`: the right shift of a possibly negative `int` rounds down. */
  function Digit(val: int, shift: nat): char {
    Letter((val / PowerOf2(shift)) % 64)
  }

  /** Section 4 of RFC 4648: 24 bits give four characters; 8 or 16 final bits are padded with zero bits
      to whole characters, and the output with '=' to four. */
  function Block3(a: Byte, b: Byte, c: Byte): string {
    [Letter(a / 4), Letter(a % 4 * 16 + b / 16), Letter(b % 16 * 4 + c / 64), Letter(c % 64)]
  }

  function Block2(a: Byte, b: Byte): string {
    [Letter(a / 4), Letter(a % 4 * 16 + b / 16), Letter(b % 16 * 4), '=']
  }

  function Block1(a: Byte): string {
    [Letter(a / 4), Letter(a % 4 * 16), '=', '=']
  }

  function Encoded(s: seq<Byte>): string {
    if s == [] then ""
    else if |s| == 1 then Block1(s[0])
    else if |s| == 2 then Block2(s[0], s[1])
    else Block3(s[0], s[1], s[2]) + Encoded(s[3..])
  }

  /** The characters that the loop has put out for the bytes of an unfinished block. */
  function Partial(s: seq<Byte>): string
    requires |s| < 3
  {
    if s == [] then ""
    else if |s| == 1 then [Letter(s[0] / 4)]
    else [Letter(s[0] / 4), Letter(s[0] % 4 * 16 + s[1] / 16)]
  }

  /** The output after the bytes `s`, before the tail is flushed. */
  function Emitted(s: seq<Byte>): string {
    if |s| < 3 then Partial(s) else Block3(s[0], s[1], s[2]) + Emitted(s[3..])
  }

  /** The bytes of the unfinished block. */
  function Pending(s: seq<Byte>): (r: seq<Byte>)
    ensures |r| == |s| % 3
  {
    if |s| < 3 then s else Pending(s[3..])
  }

  /** The characters that a byte brings out, after the bytes `p` of its block. */
  function ByteText(p: seq<Byte>, c: Byte): string
    requires |p| < 3
  {
    if |p| == 0 then [Letter(c / 4)]
    else if |p| == 1 then [Letter(p[0] % 4 * 16 + c / 16)]
    else [Letter(p[1] % 16 * 4 + c / 64), Letter(c % 64)]
  }

  lemma {:induction false} EmittedSnoc(s: seq<Byte>, c: Byte)
    ensures Pending(s + [c]) == if |s| % 3 == 2 then [] else Pending(s) + [c]
    ensures Emitted(s + [c]) == Emitted(s) + ByteText(Pending(s), c)
    decreases |s|
  {
    hide Letter;
    var t := s + [c];
    if |s| >= 3 {
      hide ByteText, Block3;
      assert t[3..] == s[3..] + [c];
      EmittedSnoc(s[3..], c);
      assert Emitted(t) == Block3(s[0], s[1], s[2]) + (Emitted(s[3..]) + ByteText(Pending(s), c));
    } else if |s| == 2 {
      assert t[3..] == [];
      assert Emitted(t) == Block3(s[0], s[1], c) + "";
    }
  }

  /** What the final flush and the padding add. */
  function Flush(pending: seq<Byte>): string
    requires |pending| < 3
  {
    if pending == [] then ""
    else if |pending| == 1 then [Letter(pending[0] % 4 * 16)]
    else [Letter(pending[1] % 16 * 4)]
  }

  function Padding(pending: seq<Byte>): string {
    if |pending| == 1 then "==" else if |pending| == 2 then "=" else ""
  }

  lemma {:induction false} EncodedIsEmitted(s: seq<Byte>)
    ensures Encoded(s) == Emitted(s) + Flush(Pending(s)) + Padding(Pending(s))
    ensures |Encoded(s)| == (|s| + 2) / 3 * 4
    decreases |s|
  {
    EncodedLength(s);
    if |s| >= 3 {
      hide Letter, Flush, Padding, Block1, Block2, Block3, Partial;
      EncodedIsEmitted(s[3..]);
      Associate(Block3(s[0], s[1], s[2]), Emitted(s[3..]), Flush(Pending(s)), Padding(Pending(s)));
    } else {
      UnfinishedBlock(s);
    }
  }

  lemma UnfinishedBlock(s: seq<Byte>)
    requires |s| < 3
    ensures Encoded(s) == Partial(s) + Flush(s) + Padding(s)
  {
    hide *;
    if |s| == 0 {
      NoBytes();
    } else if |s| == 1 {
      assert s == [s[0]];
      OneByte(s[0]);
    } else {
      assert s == [s[0], s[1]];
      TwoBytes(s[0], s[1]);
    }
  }

  lemma NoBytes()
    ensures Encoded([]) == Partial([]) + Flush([]) + Padding([])
  {
  }

  lemma OneByte(a: Byte)
    ensures Encoded([a]) == Partial([a]) + Flush([a]) + Padding([a])
  {
    hide Letter;
    Join2(Letter(a / 4), Letter(a % 4 * 16));
  }

  lemma TwoBytes(a: Byte, b: Byte)
    ensures Encoded([a, b]) == Partial([a, b]) + Flush([a, b]) + Padding([a, b])
  {
    hide Letter;
    Join3(Letter(a / 4), Letter(a % 4 * 16 + b / 16), Letter(b % 16 * 4));
  }

  lemma Join2(x: char, y: char)
    ensures [x] + [y] + "==" == [x, y, '=', '=']
  {
  }

  lemma Join3(x: char, y: char, z: char)
    ensures [x, y] + [z] + "=" == [x, y, z, '=']
  {
  }

  lemma {:induction false} EncodedLength(s: seq<Byte>)
    ensures |Encoded(s)| == (|s| + 2) / 3 * 4
    decreases |s|
  {
    hide Letter;
    if |s| >= 3 {
      EncodedLength(s[3..]);
      assert (|s| + 2) / 3 == (|s[3..]| + 2) / 3 + 1;
    }
  }

  lemma Associate(a: string, b: string, c: string, d: string)
    ensures a + b + c + d == a + (b + c + d)
  {
  }

  /** Wrap-around does not reach the low bits. */
  lemma LowBits(x: int)
    ensures ToInt32(x) % 65536 == x % 65536
  {
    var q := x / TWO_32;
    assert x == TWO_32 * q + x % TWO_32;
    ModShift(x, 65536 * q);
    ModShift(x, 65536 * q + 65536);
  }

  lemma ModShift(x: int, q: int)
    ensures (x - 65536 * q) % 65536 == x % 65536
  {
  }

  lemma PowersOf2()
    ensures PowerOf2(0) == 1 && PowerOf2(2) == 4 && PowerOf2(4) == 16 && PowerOf2(6) == 64
  {
    assert PowerOf2(4) == 2 * (2 * PowerOf2(2)) && PowerOf2(6) == 2 * (2 * PowerOf2(4));
  }

  /** Quotient and remainder are determined by their equation. */
  lemma DivMod(v: int, d: nat, q: int, r: nat)
    requires r < d && v == d * q + r
    ensures v / d == q && v % d == r
  {
    var e := q - v / d;
    assert d * e == d * q - d * (v / d);
    assert d * -e == -(d * e);
    if e > 0 { AtLeast(d, e); }
    if e < 0 { AtLeast(d, -e); }
  }

  lemma {:induction false} AtLeast(d: nat, e: int)
    requires e >= 1
    ensures d * e >= d
    decreases e
  {
    if e > 1 {
      AtLeast(d, e - 1);
      assert d * e == d * (e - 1) + d;
    }
  }

  lemma DivideLow(q: int, m: nat)
    requires m < 4096
    ensures var v := 4096 * q + m;
            v / 4 % 64 == m / 4 % 64 && v / 16 % 64 == m / 16 % 64 && v / 64 % 64 == m / 64 && v % 64 == m % 64
  {
    var v := 4096 * q + m;
    DivMod(v, 4, 1024 * q + m / 4, m % 4);
    DivMod(v, 16, 256 * q + m / 16, m % 16);
    DivMod(v, 64, 64 * q + m / 64, m % 64);
    DivMod(1024 * q + m / 4, 64, 16 * q + m / 4 / 64, m / 4 % 64);
    DivMod(256 * q + m / 16, 64, 4 * q + m / 16 / 64, m / 16 % 64);
    DivMod(64 * q + m / 64, 64, q, m / 64);
  }

  /** Only the low 12 bits of the accumulator reach the output. */
  lemma DigitFromLowBits(v: int)
    ensures Digit(v, 0) == Letter(v % 4096 % 64)
    ensures Digit(v, 2) == Letter(v % 4096 / 4 % 64)
    ensures Digit(v, 4) == Letter(v % 4096 / 16 % 64)
    ensures Digit(v, 6) == Letter(v % 4096 / 64)
  {
    hide Letter;
    PowersOf2();
    DivideLow(v / 4096, v % 4096);
  }

  /** The accumulator and its bit count after some bytes: the bytes of the unfinished block are its low
      bits, and two bits less than a character's worth per byte are due. */
  ghost predicate Accumulated(s: seq<Byte>, val: int, valb: int) {
    var p := Pending(s);
    && valb == (if |p| == 0 then -6 else if |p| == 1 then -4 else -2)
    && (|p| > 0 ==> val % 256 == p[|p| - 1])
  }

  lemma Multiples(w: int, n: nat)
    requires w % 65536 == n * 256 && n < 256
    ensures w % 4096 == n % 16 * 256 && w % 256 == 0
  {
    var q := w / 65536;
    DivMod(w, 4096, 16 * q + n / 16, n % 16 * 256);
    DivMod(w, 256, 256 * q + n, 0);
  }

  /** The next accumulator holds the new byte below the previous one. */
  lemma Shifted(val: int, c: Byte)
    ensures var v := ToInt32(val * 256) + c;
            v % 256 == c && v % 4096 == val % 256 % 16 * 256 + c
  {
    hide ToInt32;
    LowBits(val * 256);
    TimesLow(val);
    var w := ToInt32(val * 256);
    Multiples(w, val % 256);
    AddLow(w, val % 256 % 16 * 256, c);
  }

  lemma TimesLow(val: int)
    ensures val * 256 % 65536 == val % 256 * 256
  {
    DivMod(val * 256, 65536, val / 256, val % 256 * 256);
  }

  lemma AddLow(w: int, m: nat, c: Byte)
    requires w % 4096 == m && m + c < 4096 && w % 256 == 0
    ensures (w + c) % 4096 == m + c && (w + c) % 256 == c
  {
    DivMod(w + c, 4096, w / 4096, m + c);
    DivMod(w + c, 256, w / 256, c);
  }

  /** One byte's turn: which characters come out. */
  lemma ByteStep(s: seq<Byte>, val: int, valb: int, c: Byte)
    requires Accumulated(s, val, valb)
    ensures var v := ToInt32(val * 256) + c;
            && Accumulated(s + [c], v, if valb == -2 then -6 else valb + 2)
            && ByteText(Pending(s), c)
               == if valb == -2 then [Digit(v, 6), Digit(v, 0)] else [Digit(v, (valb + 8) as nat)]
  {
    hide Letter, Digit, ToInt32;
    var v := ToInt32(val * 256) + c;
    EmittedSnoc(s, c);
    Shifted(val, c);
    DigitFromLowBits(v);
    SplitLow(val % 256, c);
  }

  lemma SplitLow(b: Byte, c: Byte)
    ensures var m: nat := b % 16 * 256 + c;
            m / 64 == b % 16 * 4 + c / 64 && m % 64 == c % 64 && m / 4 % 64 == c / 4
            && m / 16 % 64 == b % 4 * 16 + c / 16
  {
    var y, m: nat := b % 16, b % 16 * 256 + c;
    DivMod(m, 64, 4 * y + c / 64, c % 64);
    DivMod(m, 4, 64 * y + c / 4, c % 4);
    DivMod(64 * y + c / 4, 64, y, c / 4);
    DivMod(m, 16, 16 * y + c / 16, c % 16);
    DivMod(16 * y + c / 16, 64, y / 4, y % 4 * 16 + c / 16);
    DivMod(b, 4, 4 * (b / 16) + y / 4, y % 4);
  }

  lemma FlushStep(s: seq<Byte>, val: int, valb: int)
    requires Accumulated(s, val, valb) && valb > -6
    ensures Flush(Pending(s)) == [Digit(ToInt32(val * 256), (valb + 8) as nat)]
  {
    hide Letter, Digit, ToInt32;
    Shifted(val, 0);
    DigitFromLowBits(ToInt32(val * 256));
    SplitLow(val % 256, 0);
  }

  /** `base64_encode`. */
  method Base64Encode(input: seq<Byte>) returns (out: string)
    ensures out == Encoded(input)
  {
    hide Digit, Accumulated, Emitted, Flush, Encoded, Letter, ToInt32, ByteText;
    out := "";
    var val: int, valb: int := 0, -6;
    NothingYet();
    for i := 0 to |input|
      invariant Accumulated(input[..i], val, valb)
      invariant out == Emitted(input[..i])
    {
      assert input[..i + 1] == input[..i] + [input[i]];
      BitCount(input[..i], val, valb);
      ByteStep(input[..i], val, valb, input[i]);
      EmittedSnoc(input[..i], input[i]);
      ghost var before, target := out, if valb == -2 then -6 else valb + 2;
      val := ToInt32(val * 256) + input[i];
      valb := valb + 8;
      var digits := TakeDigits(val, valb);
      out := out + digits;
      valb := if valb == 6 then -6 else valb - 6;
    }
    assert input[..|input|] == input;
    EncodedIsEmitted(input);
    BitCount(input, val, valb);
    if valb > -6 {
      FlushStep(input, val, valb);
      out := out + [Digit(ToInt32(val * 256), (valb + 8) as nat)];
    } else {
      FlushNothing(input);
    }
    out := Pad(out, Pending(input));
  }

  /** The inner loop: characters while a whole one is due. */
  method TakeDigits(val: int, bits: int) returns (out: string)
    requires bits == 2 || bits == 4 || bits == 6
    ensures out == if bits == 6 then [Digit(val, 6), Digit(val, 0)] else [Digit(val, bits as nat)]
  {
    hide Digit;
    out := "";
    var valb := bits;
    while valb >= 0
      invariant valb == bits ==> out == ""
      invariant valb == bits - 6 ==> out == [Digit(val, bits as nat)]
      invariant valb == bits - 12 ==> bits == 6 && out == [Digit(val, 6), Digit(val, 0)]
      invariant valb == bits || valb == bits - 6 || valb == bits - 12
    {
      out := out + [Digit(val, valb as nat)];
      valb := valb - 6;
    }
  }

  /** The padding loop. */
  method Pad(text: string, ghost pending: seq<Byte>) returns (out: string)
    requires |pending| < 3 && (|text| + |Padding(pending)|) % 4 == 0
    ensures out == text + Padding(pending)
  {
    ghost var padding, done := Padding(pending), 0;
    OnlyEqualsSigns(pending);
    hide Padding;
    out := text;
    while |out| % 4 != 0
      invariant done <= |padding| && out == text + padding[..done]
      decreases |padding| - done
    {
      assert padding[..done + 1] == padding[..done] + ['='];
      out := out + ['='];
      done := done + 1;
    }
    assert padding[..|padding|] == padding;
  }

  lemma OnlyEqualsSigns(pending: seq<Byte>)
    ensures |Padding(pending)| <= 2 && forall i :: 0 <= i < |Padding(pending)| ==> Padding(pending)[i] == '='
  {
  }

  lemma NothingYet()
    ensures Accumulated([], 0, -6) && Emitted([]) == ""
  {
  }

  lemma FlushNothing(s: seq<Byte>)
    requires Pending(s) == []
    ensures Flush(Pending(s)) == ""
  {
  }

  lemma BitCount(s: seq<Byte>, val: int, valb: int)
    requires Accumulated(s, val, valb)
    ensures valb == if |s| % 3 == 0 then -6 else if |s| % 3 == 1 then -4 else -2
  {
  }

  /** The inverse of the alphabet. */
  function Value(c: char): (v: nat)
    ensures v <= 64
  {
    if 'A' <= c <= 'Z' then (c - 'A') as nat
    else if 'a' <= c <= 'z' then (c - 'a') as nat + 26
    else if '0' <= c <= '9' then (c - '0') as nat + 52
    else if c == '+' then 62
    else if c == '/' then 63
    else 64
  }

  lemma UpperAt(i: nat)
    requires i < 26
    ensures UPPER[i] == ('A' as int + i) as char
  {
  }

  lemma LowerAt(i: nat)
    requires i < 26
    ensures LOWER[i] == ('a' as int + i) as char
  {
  }

  lemma DigitAt(i: nat)
    requires i < 10
    ensures DIGITS[i] == ('0' as int + i) as char
  {
  }

  /** The parts of the alphabet in their places. */
  lemma LetterAt(i: nat)
    requires i < 64
    ensures Letter(i) == if i < 26 then UPPER[i] else if i < 52 then LOWER[i - 26]
                         else if i < 62 then DIGITS[i - 52] else if i == 62 then '+' else '/'
  {
    assert |UPPER| == |LOWER| == 26 && |DIGITS| == 10;
    JoinedAt(UPPER, LOWER, DIGITS, "+/", i);
  }

  lemma JoinedAt(a: string, b: string, c: string, d: string, i: nat)
    requires |a| == |b| == 26 && |c| == 10 && |d| == 2 && i < 64
    ensures (a + b + c + d)[i] == if i < 26 then a[i] else if i < 52 then b[i - 26]
                                  else if i < 62 then c[i - 52] else d[i - 62]
  {
  }

  /** The letters by their codes. */
  lemma LetterIs(i: nat)
    requires i < 64
    ensures Letter(i) == if i < 26 then ('A' as int + i) as char else if i < 52 then ('a' as int + (i - 26)) as char
                         else if i < 62 then ('0' as int + (i - 52)) as char else if i == 62 then '+' else '/'
  {
    LetterAt(i);
    hide Letter;
    if i < 26 {
      UpperAt(i);
    } else if i < 52 {
      LowerAt(i - 26);
    } else if i < 62 {
      DigitAt(i - 52);
    }
  }

  lemma ValueOfLetter(i: nat)
    requires i < 64
    ensures Value(Letter(i)) == i && Letter(i) != '='
  {
    LetterIs(i);
    hide Letter;
  }

  /** A decoder for the text of whole blocks. */
  function Decoded(t: string): seq<nat> {
    if |t| < 4 then []
    else
      var a, b, c, d := Value(t[0]), Value(t[1]), Value(t[2]), Value(t[3]);
      [a * 4 + b / 16]
      + (if t[2] == '=' then [] else [b % 16 * 16 + c / 4])
      + (if t[3] == '=' then [] else [c % 4 * 64 + d])
      + Decoded(t[4..])
  }

  lemma Block3Decodes(a: Byte, b: Byte, c: Byte, rest: string)
    ensures Decoded(Block3(a, b, c) + rest) == [a, b, c] + Decoded(rest)
  {
    hide Letter, Value;
    ValueOfLetter(a / 4);
    ValueOfLetter(a % 4 * 16 + b / 16);
    ValueOfLetter(b % 16 * 4 + c / 64);
    ValueOfLetter(c % 64);
    PutTogether(a, b);
    PutTogetherLast(b, c);
    hide Decoded;
    FourDecode(Letter(a / 4), Letter(a % 4 * 16 + b / 16), Letter(b % 16 * 4 + c / 64), Letter(c % 64), rest);
  }

  /** The bits of a byte come together again: those at the end of one character and at the start of the next. */
  lemma PutTogether(a: Byte, b: Byte)
    ensures a / 4 * 4 + (a % 4 * 16 + b / 16) / 16 == a
    ensures (a % 4 * 16 + b / 16) % 16 == b / 16
  {
    DivMod(a % 4 * 16 + b / 16, 16, a % 4, b / 16);
  }

  lemma PutTogetherLast(b: Byte, c: Byte)
    ensures b / 16 * 16 + (b % 16 * 4 + c / 64) / 4 == b
    ensures (b % 16 * 4 + c / 64) % 4 * 64 + c % 64 == c
  {
    DivMod(b % 16 * 4 + c / 64, 4, b % 16, c / 64);
  }

  lemma FourDecode(x: char, y: char, z: char, w: char, rest: string)
    requires z != '=' && w != '='
    ensures Decoded([x, y, z, w] + rest) == [Value(x) * 4 + Value(y) / 16, Value(y) % 16 * 16 + Value(z) / 4,
                                             Value(z) % 4 * 64 + Value(w)] + Decoded(rest)
  {
    hide Value;
    assert ([x, y, z, w] + rest)[4..] == rest;
  }

  lemma Block2Decodes(a: Byte, b: Byte)
    ensures Decoded(Block2(a, b)) == [a, b]
  {
    hide Letter, Value;
    ValueOfLetter(a / 4);
    ValueOfLetter(a % 4 * 16 + b / 16);
    ValueOfLetter(b % 16 * 4);
    assert Decoded(Block2(a, b)[4..]) == [];
  }

  lemma Block1Decodes(a: Byte)
    ensures Decoded(Block1(a)) == [a]
  {
    hide Letter, Value;
    ValueOfLetter(a / 4);
    ValueOfLetter(a % 4 * 16);
    assert Decoded(Block1(a)[4..]) == [];
  }

  lemma NothingDecodes()
    ensures Decoded("") == []
  {
  }

  /** Nothing is lost: the decoder recovers every input, of any length. */
  lemma {:induction false} RoundTrip(s: seq<Byte>)
    ensures Decoded(Encoded(s)) == s
    decreases |s|
  {
    hide Letter, Block1, Block2, Block3, Decoded;
    if |s| >= 3 {
      Block3Decodes(s[0], s[1], s[2], Encoded(s[3..]));
      RoundTrip(s[3..]);
      assert s == [s[0], s[1], s[2]] + s[3..];
    } else if |s| == 2 {
      Block2Decodes(s[0], s[1]);
    } else if |s| == 1 {
      Block1Decodes(s[0]);
    } else {
      assert Encoded(s) == "";
      NothingDecodes();
    }
  }
}
