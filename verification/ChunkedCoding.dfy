/** The chunked transfer coding (section 7.1 of RFC 9112): the writer, and the reader on a buffered
    stream, with the compressor that changes nothing. */
module ChunkedCoding {
  import opened Text
  import opened BufferedStream

  const ULONG_MAX: nat := 0xFFFF_FFFF_FFFF_FFFF
  const RECV_BUFSIZ: nat := 16384
  const HEADER_MAX_LENGTH: nat := 8192
  const HEX_CHARS: string := "0123456789abcdef"

  // ---------------------------------------------------------------------------------------------
  // Chunk sizes
  // ---------------------------------------------------------------------------------------------

  function Hex(n: nat): string {
    if n < 16 then [HEX_CHARS[n]] else Hex(n / 16) + [HEX_CHARS[n % 16]]
  }

  /** `from_i_to_hex`. */
  method FromIToHex(value: nat) returns (ret: string)
    ensures ret == Hex(value)
  {
    ret := [HEX_CHARS[value % 16]];
    var n: nat := value / 16;
    while n > 0
      invariant Hex(value) == if n == 0 then ret else Hex(n) + ret
    {
      HexStep(n, ret);
      ret := [HEX_CHARS[n % 16]] + ret;
      n := n / 16;
    }
  }

  lemma HexStep(n: nat, tail: string)
    ensures var t := [HEX_CHARS[n % 16]] + tail; Hex(n) + tail == if n < 16 then t else Hex(n / 16) + t
  {
    var last := [HEX_CHARS[n % 16]];
    if n >= 16 {
      assert Hex(n) == Hex(n / 16) + last;
      hide *;
      assert Hex(n / 16) + last + tail == Hex(n / 16) + (last + tail);
    }
  }

  predicate IsSpace(c: char) {
    c == ' ' || '\t' <= c <= '\r'
  }

  /** The value of a hexadecimal digit, or 16. */
  function DigitValue(c: char): nat {
    if '0' <= c <= '9' then (c - '0') as nat
    else if 'a' <= c <= 'f' then (c - 'a') as nat + 10
    else if 'A' <= c <= 'F' then (c - 'A') as nat + 10
    else 16
  }

  predicate IsDigit(c: char) { DigitValue(c) < 16 }

  /** The digits at the start of the text, read on from `acc`. */
  function DigitsValue(s: string, acc: nat): nat {
    if s == "" || !IsDigit(s[0]) then acc else DigitsValue(s[1..], acc * 16 + DigitValue(s[0]))
  }

  function SkipSpaces(s: string): string {
    if s != "" && IsSpace(s[0]) then SkipSpaces(s[1..]) else s
  }

  /** `strtoul` in base 16: the value, and whether anything was converted. */
  function StrToUL(s: string): (r: (nat, bool)) {
    var t := SkipSpaces(s);
    var signed := t != "" && (t[0] == '-' || t[0] == '+');
    var u := if signed then t[1..] else t;
    var digits := if |u| > 2 && u[0] == '0' && (u[1] == 'x' || u[1] == 'X') && IsDigit(u[2]) then u[2..] else u;
    if digits == "" || !IsDigit(digits[0]) then (0, false)
    else
      var value := DigitsValue(digits, 0);
      if value > ULONG_MAX then (ULONG_MAX, true)
      else if signed && t[0] == '-' then ((ULONG_MAX + 1 - value) % (ULONG_MAX + 1), true)
      else (value, true)
  }

  /** What the reader takes as the size of a chunk; none when it refuses the line. */
  datatype Size = NoSize | Size(n: nat)

  function ChunkSize(line: string): Size {
    var (value, converted) := StrToUL(line);
    if !converted || value == ULONG_MAX then NoSize else Size(value)
  }

  lemma {:induction false} DigitsAppend(digits: string, rest: string, acc: nat)
    requires forall i :: 0 <= i < |digits| ==> IsDigit(digits[i])
    ensures DigitsValue(digits + rest, acc) == DigitsValue(rest, DigitsValue(digits, acc))
    decreases |digits|
  {
    if digits == "" {
      assert digits + rest == rest;
    } else {
      assert (digits + rest)[1..] == digits[1..] + rest;
      DigitsAppend(digits[1..], rest, acc * 16 + DigitValue(digits[0]));
    }
  }

  lemma HexDigit(d: nat)
    requires d < 16
    ensures DigitValue(HEX_CHARS[d]) == d && ('0' <= HEX_CHARS[d] <= '9' || 'a' <= HEX_CHARS[d] <= 'f')
  {
    if d < 10 {
      assert HEX_CHARS[d] == ('0' as int + d) as char;
    } else {
      assert HEX_CHARS[d] == ('a' as int + d - 10) as char;
    }
  }

  lemma {:induction false} HexValue(n: nat)
    ensures Hex(n) != "" && DigitsValue(Hex(n), 0) == n
    ensures forall i :: 0 <= i < |Hex(n)| ==>
              IsDigit(Hex(n)[i]) && ('0' <= Hex(n)[i] <= '9' || 'a' <= Hex(n)[i] <= 'f')
    decreases n
  {
    hide DigitValue, DigitsValue;
    HexDigit(n % 16);
    var last := [HEX_CHARS[n % 16]];
    OneDigit(HEX_CHARS[n % 16], n / 16);
    if n >= 16 {
      HexValue(n / 16);
      DigitsAppend(Hex(n / 16), last, 0);
      hide HEX_CHARS;
    }
  }

  lemma OneDigit(c: char, acc: nat)
    requires IsDigit(c)
    ensures DigitsValue([c], acc) == acc * 16 + DigitValue(c)
  {
    assert [c][1..] == "";
  }

  function Power16(k: nat): nat {
    if k == 0 then 1 else 16 * Power16(k - 1)
  }

  lemma Power16Of16()
    ensures Power16(16) == ULONG_MAX + 1
  {
    assert Power16(4) == 16 * (16 * (16 * (16 * Power16(0))));
    assert Power16(8) == 16 * (16 * (16 * (16 * Power16(4))));
    assert Power16(12) == 16 * (16 * (16 * (16 * Power16(8))));
    assert Power16(16) == 16 * (16 * (16 * (16 * Power16(12))));
  }

  lemma {:induction false} HexLength(n: nat, k: nat)
    requires 0 < k && n < Power16(k)
    ensures |Hex(n)| <= k
    decreases k
  {
    if n >= 16 { HexLength(n / 16, k - 1); }
  }

  /** Base-16 parsing inverts `from_i_to_hex`, on exactly the sizes below the error value; all larger numbers are
      refused. */
  lemma SizeRoundTrip(n: nat, rest: string)
    ensures ChunkSize(Hex(n) + CRLF + rest) == (if n >= ULONG_MAX then NoSize else Size(n))
  {
    hide DigitValue, Hex;
    var line, digits := Hex(n) + CRLF + rest, Hex(n);
    HexValue(n);
    assert line == digits + (CRLF + rest);
    DigitsAppend(digits, CRLF + rest, 0);
    NotDigits();
    assert DigitsValue(CRLF + rest, n) == n;
    assert line[0] == digits[0] && (|digits| > 1 ==> line[1] == digits[1]) && (|digits| == 1 ==> line[1] == '\r');
    assert SkipSpaces(line) == line;
  }

  /** Size lines are read as hexadecimal numbers in either case, and as leniently as `strtoul` reads them: blanks and a
      sign in front, a prefix, and anything behind the digits. */
  lemma SizesAreHexadecimal()
    ensures ChunkSize("1a\r\n") == ChunkSize("1A\r\n") == ChunkSize(" +0x1a;x\r\n") == Size(26)
    ensures ChunkSize("\r\n") == ChunkSize("g\r\n") == ChunkSize("-1\r\n") == NoSize
  {
    hide ChunkSize;
    PlainSize("a\r\n");
    PlainSize("A\r\n");
    LenientSize();
    NoSizes();
    assert "1" + "a\r\n" == "1a\r\n" && "1" + "A\r\n" == "1A\r\n";
  }

  lemma PlainSize(s: string)
    requires |s| >= 2 && (s[0] == 'a' || s[0] == 'A') && !IsDigit(s[1])
    ensures ChunkSize("1" + s) == Size(26)
  {
    DigitsOf1a(s);
    assert SkipSpaces("1" + s) == "1" + s;
    hide SkipSpaces, DigitsValue;
  }

  lemma LenientSize()
    ensures ChunkSize(" +0x1a;x\r\n") == Size(26)
  {
    var digits := "1" + "a;x\r\n";
    DigitsOf1a("a;x\r\n");
    assert " +0x1a;x\r\n" == " +0x" + digits;
    Prefixed(digits);
  }

  lemma Prefixed(digits: string)
    requires digits != "" && IsDigit(digits[0]) && DigitsValue(digits, 0) < ULONG_MAX
    ensures ChunkSize(" +0x" + digits) == Size(DigitsValue(digits, 0))
  {
    hide DigitsValue;
    var line := " +0x" + digits;
    assert line[1..] == "+0x" + digits && SkipSpaces(line[1..]) == line[1..];
    hide SkipSpaces;
    assert line[1..][1..] == "0x" + digits && ("0x" + digits)[2..] == digits;
  }

  lemma NoSizes()
    ensures ChunkSize("\r\n") == ChunkSize("g\r\n") == ChunkSize("-1\r\n") == NoSize
  {
    assert "\r\n"[1..] == "\n" && "\n"[1..] == "" && SkipSpaces("\n") == "" && SkipSpaces("\r\n") == "";
    assert SkipSpaces("-1\r\n") == "-1\r\n" && "-1\r\n"[1..] == "1\r\n" && DigitsValue("1\r\n", 0) == 1 by {
      assert "1\r\n"[1..] == "\r\n";
    }
    assert SkipSpaces("g\r\n") == "g\r\n";
    hide SkipSpaces, DigitsValue;
  }

  lemma DigitsOf1a(s: string)
    requires |s| >= 2 && (s[0] == 'a' || s[0] == 'A') && !IsDigit(s[1])
    ensures DigitsValue("1" + s, 0) == 26
  {
    assert ("1" + s)[1..] == s;
    assert DigitsValue(s, 1) == DigitsValue(s[1..], 26) == 26;
  }

  lemma NotDigits()
    ensures !IsDigit('\r') && !IsDigit('x') && !IsDigit('X') && !IsDigit('-') && !IsDigit('+')
    ensures forall c :: IsSpace(c) ==> !IsDigit(c)
  {
  }

  // ---------------------------------------------------------------------------------------------
  // The writer
  // ---------------------------------------------------------------------------------------------

  function ChunkText(data: string): string {
    if data == "" then "" else Hex(|data|) + CRLF + data + CRLF
  }

  function ChunksText(writes: seq<string>): string {
    if writes == [] then "" else ChunkText(writes[0]) + ChunksText(writes[1..])
  }

  /** A field of the trailer section. */
  datatype Field = Field(name: string, value: string)

  function FieldText(field: Field): string {
    field.name + ": " + field.value + CRLF
  }

  function FieldsText(fields: seq<Field>): string {
    if fields == [] then "" else FieldText(fields[0]) + FieldsText(fields[1..])
  }

  function LastChunk(trailer: seq<Field>): string {
    "0" + CRLF + (FieldsText(trailer) + CRLF)
  }

  function Encoded(writes: seq<string>, trailer: seq<Field>): string {
    ChunksText(writes) + LastChunk(trailer)
  }

  /** What the content provider asks of the sink: to write, or to end the message, with a trailer or without fields. */
  datatype Event = Write(data: string) | Done(trailer: seq<Field>)

  function EventText(event: Event): string {
    match event
    case Write(data) => ChunkText(data)
    case Done(trailer) => LastChunk(trailer)
  }

  function EventsText(events: seq<Event>): string {
    if events == [] then "" else EventText(events[0]) + EventsText(events[1..])
  }

  /** The data sink that `write_content_chunked` hands to the content provider. */
  class ChunkedSink {
    const reliable: bool
    var output: string
    var ok: bool
    var dataAvailable: bool
    var offset: nat

    constructor (reliable: bool)
      ensures output == "" && ok && dataAvailable && offset == 0 && this.reliable == reliable
    {
      this.reliable := reliable;
      output, ok, dataAvailable, offset := "", true, true, 0;
    }

    method WaitWritable() returns (writable: bool)
      ensures reliable ==> writable
    {
      writable := *;
      if reliable { writable := true; }
    }

    /** `write_data` to the stream, which may fail unless the stream is reliable. */
    method WriteData(data: string) returns (written: bool)
      modifies this`output
      ensures written ==> output == old(output) + data
      ensures reliable ==> written
    {
      written := *;
      if reliable { written := true; }
      if written { output := output + data; }
    }

    method Write(data: string) returns (r: bool)
      modifies this
      ensures r == ok && (ok ==> old(ok)) && (reliable ==> ok == old(ok))
      ensures ok ==> output == old(output) + ChunkText(data)
      ensures ok ==> dataAvailable == (data != "") && offset == old(offset) + |data|
    {
      if ok {
        dataAvailable := |data| > 0;
        offset := offset + |data|;
        if data != "" {
          var size := FromIToHex(|data|);
          ok := WriteData(size + CRLF + data + CRLF);
        } else {
          assert output + "" == output;
        }
      }
      return ok;
    }

    /** `done_with_trailer`; `done` is the same without fields. */
    method Done(trailer: seq<Field>)
      modifies this
      ensures ok ==> old(ok) && output == old(output) + LastChunk(trailer)
      ensures reliable ==> ok == old(ok)
      ensures ok ==> !dataAvailable
    {
      if ok {
        dataAvailable := false;
        ghost var before := output;
        WriteOrFail("0" + CRLF);
        WriteFields(trailer);
        WriteOrFail(CRLF);
        assert before + ("0" + CRLF) + FieldsText(trailer) + CRLF == before + LastChunk(trailer);
      }
    }

    method WriteOrFail(data: string)
      modifies this`output, this`ok
      ensures ok ==> old(ok) && output == old(output) + data
      ensures reliable ==> ok == old(ok)
    {
      var written := WriteData(data);
      if !written { ok := false; }
    }

    method WriteFields(trailer: seq<Field>)
      modifies this`output, this`ok
      ensures ok ==> old(ok) && output == old(output) + FieldsText(trailer)
      ensures reliable ==> ok == old(ok)
    {
      hide FieldText;
      var i := 0;
      assert trailer[0..] == trailer;
      while i < |trailer|
        invariant i <= |trailer|
        invariant ok ==> old(ok) && output + FieldsText(trailer[i..]) == old(output) + FieldsText(trailer)
        invariant reliable ==> ok == old(ok)
      {
        FieldsFirst(trailer[i..], output);
        assert trailer[i..][1..] == trailer[i + 1..];
        WriteOrFail(FieldText(trailer[i]));
        i := i + 1;
      }
      assert output + FieldsText([]) == output;
    }
  }

  lemma FieldsFirst(fields: seq<Field>, output: string)
    requires fields != []
    ensures output + FieldsText(fields) == output + FieldText(fields[0]) + FieldsText(fields[1..])
  {
    hide FieldText;
  }

  /** One call of the content provider: what it asks of the sink, in order, and what it returns. */
  datatype Call = Call(events: seq<Event>, result: bool)

  /** Data was written: more may come. */
  predicate GoesOn(event: Event) {
    event.Write? && event.data != ""
  }

  /** The call after which the writer's loop ends: the last it asked for was the end, or to write nothing. */
  predicate Ends(call: Call) {
    call.events != [] && !GoesOn(call.events[|call.events| - 1])
  }

  /** What the calls make the writer put out. Behind the last call the server is shutting down. */
  function Coding(calls: seq<Call>): string {
    if calls == [] then ""
    else EventsText(calls[0].events) + if Ends(calls[0]) then "" else Coding(calls[1..])
  }

  /** No call up to the end of the loop is cancelled by the provider. */
  predicate Completes(calls: seq<Call>) {
    calls == [] || (calls[0].result && (Ends(calls[0]) || Completes(calls[1..])))
  }

  /** `write_content_chunked`: on success the whole coding was put out; it fails only when the provider or the stream
      does. */
  method WriteContentChunked(calls: seq<Call>, reliable: bool) returns (ok: bool, output: string)
    ensures reliable ==> ok == Completes(calls)
    ensures ok ==> Completes(calls) && output == Coding(calls)
  {
    hide EventsText, Coding, Completes, Ends;
    var sink := new ChunkedSink(reliable);
    var i := 0;
    assert calls[0..] == calls && "" + Coding(calls) == Coding(calls);
    while sink.dataAvailable && i < |calls|
      invariant i <= |calls| && sink.ok && sink.reliable == reliable && fresh(sink)
      invariant sink.dataAvailable ==> Coding(calls) == sink.output + Coding(calls[i..])
      invariant sink.dataAvailable ==> Completes(calls) == Completes(calls[i..])
      invariant !sink.dataAvailable ==> Coding(calls) == sink.output && Completes(calls)
      decreases |calls| - i
    {
      NextCall(calls[i..], sink.output);
      assert calls[i..][0] == calls[i] && calls[i..][1..] == calls[i + 1..];
      var writable := sink.WaitWritable();
      if !writable {
        return false, sink.output;
      }
      Provide(sink, calls[i]);
      if !calls[i].result {
        return false, sink.output;
      }
      if !sink.ok {
        return false, sink.output;
      }
      i := i + 1;
    }
    NoCall(calls[i..], sink.output);
    return true, sink.output;
  }

  /** The content provider's use of the sink. */
  method Provide(sink: ChunkedSink, call: Call)
    requires sink.ok && sink.dataAvailable
    modifies sink
    ensures sink.reliable ==> sink.ok
    ensures sink.ok ==> sink.output == old(sink.output) + EventsText(call.events)
    ensures sink.ok ==> sink.dataAvailable == !Ends(call)
  {
    hide EventsText, ChunkText, LastChunk;
    ghost var before := sink.output;
    var j := 0;
    NothingAsked(sink.output);
    assert call.events[0..] == call.events;
    while j < |call.events|
      invariant j <= |call.events|
      invariant sink.reliable ==> sink.ok
      invariant sink.ok ==> sink.output + EventsText(call.events[j..]) == before + EventsText(call.events)
      invariant sink.ok ==> sink.dataAvailable == (j == 0 || GoesOn(call.events[j - 1]))
    {
      EventsFirst(call.events[j..], sink.output);
      assert call.events[j..][1..] == call.events[j + 1..];
      match call.events[j] {
        case Write(data) => var r := sink.Write(data);
        case Done(trailer) => sink.Done(trailer);
      }
      j := j + 1;
    }
    NothingAsked(sink.output);
  }

  lemma NothingAsked(output: string)
    ensures output + EventsText([]) == output
  {
  }

  lemma EventsFirst(events: seq<Event>, output: string)
    requires events != []
    ensures output + EventsText(events) == output + EventText(events[0]) + EventsText(events[1..])
  {
    hide EventText;
  }

  lemma Appended(a: string, b: string, c: string)
    ensures a + b + c == a + (b + c)
  {
  }

  lemma NextCall(calls: seq<Call>, output: string)
    requires calls != []
    ensures var after := output + EventsText(calls[0].events);
            output + Coding(calls) == if Ends(calls[0]) then after else after + Coding(calls[1..])
    ensures Completes(calls) == (calls[0].result && (Ends(calls[0]) || Completes(calls[1..])))
  {
    hide EventsText, Ends;
    var text := EventsText(calls[0].events);
    Appended(output, text, if Ends(calls[0]) then "" else Coding(calls[1..]));
    assert output + text + "" == output + text;
  }

  lemma NoCall(calls: seq<Call>, output: string)
    ensures calls == [] ==> output + Coding(calls) == output && Completes(calls)
  {
  }

  /** All that the provider asked for until the writer's loop ends. */
  function AllEvents(calls: seq<Call>): seq<Event> {
    if calls == [] then []
    else calls[0].events + if Ends(calls[0]) then [] else AllEvents(calls[1..])
  }

  lemma {:induction false} EventsTextOf(a: seq<Event>, b: seq<Event>)
    ensures EventsText(a + b) == EventsText(a) + EventsText(b)
    decreases |a|
  {
    hide EventText;
    if a == [] {
      assert a + b == b;
    } else {
      assert (a + b)[1..] == a[1..] + b;
      EventsTextOf(a[1..], b);
      Appended(EventText(a[0]), EventsText(a[1..]), EventsText(b));
    }
  }

  /** However the provider spreads what it asks over the calls, the coding is that of all of it. */
  lemma {:induction false} CodingIsEvents(calls: seq<Call>)
    ensures Coding(calls) == EventsText(AllEvents(calls))
    decreases |calls|
  {
    hide EventsText, Ends;
    if calls == [] {
      NothingAsked("");
    } else {
      var c := calls[0];
      if Ends(c) {
        assert c.events + [] == c.events && EventsText(c.events) + "" == EventsText(c.events);
      } else {
        CodingIsEvents(calls[1..]);
        EventsTextOf(c.events, AllEvents(calls[1..]));
      }
    }
  }

  /** What ends the writer's loop, said of the events: the last thing asked for in a call was `done` or to write
      nothing. */
  predicate LastCall(call: Call) {
    call.events != [] && (call.events[|call.events| - 1].Done? || call.events[|call.events| - 1] == Write(""))
  }

  function EventsOf(calls: seq<Call>): seq<Event> {
    if calls == [] then [] else calls[0].events + EventsOf(calls[1..])
  }

  /** The calls that are made: all up to the first that ends the loop, which is made too. */
  predicate Made(calls: seq<Call>, n: nat) {
    && n <= |calls|
    && (forall k :: 0 <= k < n - 1 ==> !LastCall(calls[k]))
    && (n == |calls| || (n > 0 && LastCall(calls[n - 1])))
  }

  /** The loop makes just these calls: their events are put out, and the writer succeeds if and only if none of them was
      cancelled. */
  lemma {:induction false} CallsMade(calls: seq<Call>, n: nat)
    requires Made(calls, n)
    ensures AllEvents(calls) == EventsOf(calls[..n])
    ensures Completes(calls) <==> forall k :: 0 <= k < n ==> calls[k].result
    decreases |calls|
  {
    if calls != [] {
      var first, rest := calls[0], calls[1..];
      assert Ends(first) <==> LastCall(first);
      if Ends(first) {
        OneCallMade(calls, n);
        assert n == 1 && calls[..1][1..] == [] && EventsOf([]) == [];
      } else {
        assert forall k :: 0 <= k < |rest| ==> rest[k] == calls[k + 1];
        CallsMade(rest, n - 1);
        assert calls[..n][1..] == rest[..n - 1];
        assert (forall k :: 0 <= k < n ==> calls[k].result)
           <==> first.result && forall k :: 0 <= k < n - 1 ==> rest[k].result;
      }
    }
  }

  lemma OneCallMade(calls: seq<Call>, n: nat)
    requires Made(calls, n) && calls != [] && LastCall(calls[0])
    ensures n == 1
  {
    hide LastCall;
  }

  /** The data written before the provider first comes to `done`. */
  function Writes(events: seq<Event>): seq<string> {
    if events == [] || events[0].Done? then [] else [events[0].data] + Writes(events[1..])
  }

  /** That `done`, and what the provider asked for behind it; nothing when it never comes to it. */
  function FromDone(events: seq<Event>): (rest: seq<Event>)
    ensures rest == [] || rest[0].Done?
  {
    if events == [] || events[0].Done? then events else FromDone(events[1..])
  }

  lemma {:induction false} EventsSplit(events: seq<Event>)
    ensures EventsText(events) == ChunksText(Writes(events)) + EventsText(FromDone(events))
    decreases |events|
  {
    hide EventText, ChunkText;
    if events == [] || events[0].Done? {
      assert "" + EventsText(events) == EventsText(events);
    } else {
      EventsSplit(events[1..]);
      var w, writes := events[0].data, Writes(events[1..]);
      assert ([w] + writes)[1..] == writes;
      assert EventText(events[0]) == ChunkText(w) by { WriteIsChunk(w); }
      Appended(ChunkText(w), ChunksText(writes), EventsText(FromDone(events[1..])));
    }
  }

  lemma WriteIsChunk(w: string)
    ensures EventText(Write(w)) == ChunkText(w)
  {
  }

  // ---------------------------------------------------------------------------------------------
  // The reader
  // ---------------------------------------------------------------------------------------------

  /** What reading a stream of the given content yields: the answer, the payload delivered, the lines of the trailer,
      and the content left unread. */
  datatype Decoded = Decoded(ok: bool, payload: string, trailer: seq<string>, rest: string)

  /** From a chunk-size line on. */
  function DecodeChunks(line: string, data: string): Decoded
    decreases |data|
  {
    var size := ChunkSize(line);
    if size.NoSize? then Decoded(false, "", [], data)
    else if size.n == 0 then DecodeEnd(data)
    else if size.n > |data| then Decoded(false, data, [], "")
    else
      var payload, end := data[..size.n], NextLine(data[size.n..]);
      if end.NoLine? || end.text != CRLF then Decoded(false, payload, [], end.rest)
      else
        var next := NextLine(end.rest);
        if next.NoLine? then Decoded(false, payload, [], next.rest)
        else
          var tail := DecodeChunks(next.text, next.rest);
          tail.(payload := payload + tail.payload)
  }

  /** Behind the last chunk: trailer lines up to an empty line; none of it needs to be there. */
  function DecodeEnd(data: string): Decoded {
    var next := NextLine(data);
    if next.NoLine? then Decoded(true, "", [], next.rest) else DecodeTrailer(next.text, next.rest)
  }

  /** The lines of the trailer read before, and what the rest of it yields. */
  function WithLines(lines: seq<string>, d: Decoded): Decoded {
    d.(trailer := lines + d.trailer)
  }

  function DecodeTrailer(line: string, data: string): Decoded
    decreases |data|
  {
    if line == CRLF then Decoded(true, "", [], data)
    else if |line| > HEADER_MAX_LENGTH then Decoded(false, "", [], data)
    else
      var next := NextLine(data);
      if next.NoLine? then Decoded(false, "", [line], next.rest)
      else WithLines([line], DecodeTrailer(next.text, next.rest))
  }

  function Decode(data: string): Decoded {
    var first := NextLine(data);
    if first.NoLine? then Decoded(false, "", [], first.rest) else DecodeChunks(first.text, first.rest)
  }

  /** The receiver was given something and did not take it. It is asked about all it has been given so far. */
  predicate Refuses(accept: string -> bool, before: string, given: string) {
    given != "" && !accept(before + given)
  }

  lemma NothingGiven(accept: string -> bool, before: string)
    ensures !Refuses(accept, before, "")
  {
  }

  lemma TakenOn(accept: string -> bool, before: string, given: string)
    requires !Refuses(accept, "", before)
    ensures Refuses(accept, "", before + given) <==> Refuses(accept, before, given)
  {
    assert "" + (before + given) == before + given && "" + before == before;
    assert given == "" ==> before + given == before;
  }

  /** `read_content_with_length`: delivers the next `len` bytes, or all there is, or what the receiver refuses. `before`
      is what it was given before that. */
  method ReadContentWithLength(strm: SocketStream, len: nat, accept: string -> bool, before: string)
    returns (ok: bool, payload: string)
    requires strm.Valid()
    modifies strm`readBuffOff, strm`readBuffContentSize, strm`incoming, strm`received, strm`delivered, strm.readBuff
    ensures strm.Valid() && payload + strm.Data() == old(strm.Data()) && |payload| <= len
    ensures ok ==> |payload| == len && !Refuses(accept, before, payload)
    ensures !ok && !Refuses(accept, before, payload) ==> |payload| < len && (strm.reliable ==> strm.Data() == "")
  {
    hide strm.Data, strm.Valid;
    payload := "";
    assert "" + strm.Data() == strm.Data();
    while |payload| < len
      invariant strm.Valid() && |payload| <= len && payload + strm.Data() == old(strm.Data())
      invariant !Refuses(accept, before, payload)
      decreases len - |payload|
    {
      var more, bytes := ReadUpTo(strm, len - |payload|, payload);
      if !more { return false, payload; }
      payload := payload + bytes;
      if !accept(before + payload) { return false, payload; }
    }
    return true, payload;
  }

  /** One turn of its loop. */
  method ReadUpTo(strm: SocketStream, readLen: nat, ghost payload: string) returns (more: bool, bytes: string)
    requires strm.Valid() && readLen > 0
    modifies strm`readBuffOff, strm`readBuffContentSize, strm`incoming, strm`received, strm`delivered, strm.readBuff
    ensures strm.Valid() && payload + bytes + strm.Data() == payload + old(strm.Data())
    ensures if more then 0 < |bytes| <= readLen else bytes == "" && (strm.reliable ==> strm.Data() == "")
  {
    var n;
    n, bytes := strm.Read(if readLen < RECV_BUFSIZ then readLen else RECV_BUFSIZ);
    assert payload + bytes + strm.Data() == payload + (bytes + strm.Data());
    more := n > 0;
  }

  /** `read_content_chunked`: on a reliable stream the answer, what is delivered, the trailer and what is left unread
      are determined by the content alone, whatever the sizes of the receives, unless the receiver refuses. In any case
      what is delivered is a prefix of that payload and the trailer comes with the first of its lines; a successful
      answer comes with all of the payload, taken by the receiver. */
  method ReadContentChunked(strm: SocketStream, accept: string -> bool)
    returns (ok: bool, payload: string, trailer: seq<string>)
    requires strm.Valid()
    modifies strm`readBuffOff, strm`readBuffContentSize, strm`incoming, strm`received, strm`delivered, strm.readBuff
    ensures strm.Valid()
    ensures strm.reliable && !Refuses(accept, "", payload) ==>
              Decoded(ok, payload, trailer, strm.Data()) == Decode(old(strm.Data()))
    ensures payload <= Decode(old(strm.Data())).payload
    ensures ok ==> payload == Decode(old(strm.Data())).payload && !Refuses(accept, "", payload)
    ensures trailer <= Decode(old(strm.Data())).trailer
  {
    hide NextLine, ChunkSize, DecodeEnd, DecodeChunks, Refuses;
    payload, trailer := "", [];
    NothingGiven(accept, "");
    var reader := new StreamLineReader(strm, 16);
    ghost var target := Decode(strm.Data());
    ok := reader.GetLine();
    if !ok { return; }
    assert target == Continued("", DecodeChunks(reader.Text(), strm.Data())) by { NothingBefore(target); }
    while true
      invariant reader.Valid() && strm.Valid() && reader.strm == strm && fresh(reader) && fresh(reader.fixedBuffer)
      invariant target == Continued(payload, DecodeChunks(reader.Text(), strm.Data()))
      invariant !Refuses(accept, "", payload) && trailer == []
      decreases |strm.Data()|
    {
      ghost var line, data := reader.Text(), strm.Data();
      ghost var d := DecodeChunks(line, data);
      ChunksUnfold(line, data, payload);
      var size := ChunkSize(reader.Text());
      if size.NoSize? {
        return false, payload, trailer;
      }
      if size.n == 0 { break; }
      var more, piece := ReadChunk(reader, size.n, accept, payload);
      ContinuedTwice(payload, piece, if more then DecodeChunks(reader.Text(), strm.Data()) else d);
      TakenOn(accept, payload, piece);
      payload := payload + piece;
      if !more { return false, payload, trailer; }
    }
    ok, trailer := ReadTrailer(reader);
  }

  /** What was delivered, and what the rest of the coding yields. */
  function Continued(payload: string, d: Decoded): Decoded {
    d.(payload := payload + d.payload)
  }

  lemma NothingBefore(d: Decoded)
    ensures Continued("", d) == d
  {
  }

  lemma ContinuedTwice(payload: string, piece: string, d: Decoded)
    ensures Continued(payload, Continued(piece, d)) == Continued(payload + piece, d)
    ensures piece <= d.payload ==> payload + piece <= Continued(payload, d).payload
    ensures Continued(payload, Decoded(false, piece, [], d.rest)) == Decoded(false, payload + piece, [], d.rest)
  {
  }

  /** The end of the chunks adds nothing to the payload. */
  lemma ChunksUnfold(line: string, data: string, payload: string)
    ensures var d, size := DecodeChunks(line, data), ChunkSize(line);
            && payload <= Continued(payload, d).payload
            && (size.NoSize? ==> Continued(payload, d) == Decoded(false, payload, [], data))
            && (size.Size? && size.n == 0 ==>
                  d == DecodeEnd(data) && Continued(payload, d) == Decoded(d.ok, payload, d.trailer, d.rest))
  {
    hide NextLine, ChunkSize, DecodeEnd;
    EndHasNoPayload(data);
    assert payload + "" == payload;
  }

  lemma {:induction false} TrailerHasNoPayload(line: string, data: string)
    ensures DecodeTrailer(line, data).payload == ""
    decreases |data|
  {
    hide NextLine;
    var next := NextLine(data);
    if next.Line? { TrailerHasNoPayload(next.text, next.rest); }
  }

  lemma EndHasNoPayload(data: string)
    ensures DecodeEnd(data).payload == ""
  {
    hide NextLine;
    var next := NextLine(data);
    if next.Line? { TrailerHasNoPayload(next.text, next.rest); }
  }

  /** The content of one chunk, the CRLF behind it, and the next chunk-size line. */
  method ReadChunk(reader: StreamLineReader, size: nat, accept: string -> bool, before: string)
    returns (more: bool, piece: string)
    requires reader.Valid() && reader.strm.Valid() && reader.fixedBuffer != reader.strm.readBuff
    requires ChunkSize(reader.Text()) == Size(size) && size > 0
    modifies reader`fixedBufferUsedSize, reader`growableBuffer, reader.fixedBuffer
    modifies reader.strm`readBuffOff, reader.strm`readBuffContentSize, reader.strm`incoming
    modifies reader.strm`received, reader.strm`delivered, reader.strm.readBuff
    ensures reader.Valid() && reader.strm.Valid()
    ensures var d := DecodeChunks(old(reader.Text()), old(reader.strm.Data()));
            if more then
              var tail := DecodeChunks(reader.Text(), reader.strm.Data());
              d == Continued(piece, tail) && !Refuses(accept, before, piece)
            else
              && piece <= d.payload
              && (reader.strm.reliable && !Refuses(accept, before, piece) ==>
                    d == Decoded(false, piece, [], reader.strm.Data()))
    ensures more ==> |reader.strm.Data()| < |old(reader.strm.Data())|
  {
    hide NextLine, ChunkSize;
    ghost var line, data := reader.Text(), reader.strm.Data();
    var read;
    read, piece := ReadContentWithLength(reader.strm, size, accept, before);
    if !read {
      PartialPayload(line, data, size, piece, reader.strm.Data());
      return false, piece;
    }
    assert piece == data[..size] && reader.strm.Data() == data[size..];
    assert piece <= DecodeChunks(line, data).payload;
    var end := reader.GetLine();
    if !end || reader.Text() != CRLF { return false, piece; }
    more := reader.GetLine();
  }

  lemma PartialPayload(line: string, data: string, size: nat, piece: string, rest: string)
    requires ChunkSize(line) == Size(size) && size > 0 && piece + rest == data && |piece| <= size
    ensures piece <= DecodeChunks(line, data).payload
    ensures rest == "" && |piece| < size ==> DecodeChunks(line, data) == Decoded(false, piece, [], rest)
  {
    hide NextLine, ChunkSize;
    if size <= |data| {
      assert piece == data[..size][..|piece|];
    }
    assert rest == "" ==> piece + rest == piece;
  }

  method ReadTrailer(reader: StreamLineReader) returns (ok: bool, trailer: seq<string>)
    requires reader.Valid() && reader.strm.Valid() && reader.fixedBuffer != reader.strm.readBuff
    modifies reader`fixedBufferUsedSize, reader`growableBuffer, reader.fixedBuffer
    modifies reader.strm`readBuffOff, reader.strm`readBuffContentSize, reader.strm`incoming
    modifies reader.strm`received, reader.strm`delivered, reader.strm.readBuff
    ensures reader.Valid() && reader.strm.Valid()
    ensures reader.strm.reliable ==>
              DecodeEnd(old(reader.strm.Data())) == Decoded(ok, "", trailer, reader.strm.Data())
    ensures trailer <= DecodeEnd(old(reader.strm.Data())).trailer
  {
    hide NextLine, DecodeEnd, DecodeTrailer, WithLines;
    trailer := [];
    ghost var target := DecodeEnd(reader.strm.Data());
    EndUnfolds(reader.strm.Data());
    var line := reader.GetLine();
    if !line { return true, []; }
    while reader.Text() != CRLF
      invariant reader.Valid() && reader.strm.Valid()
      invariant target == WithLines(trailer, DecodeTrailer(reader.Text(), reader.strm.Data()))
      decreases |reader.strm.Data()|
    {
      TrailerUnfolds(trailer, reader.Text(), reader.strm.Data());
      if |reader.Text()| > HEADER_MAX_LENGTH { return false, trailer; }
      trailer := trailer + [reader.Text()];
      var next := reader.GetLine();
      if !next { return false, trailer; }
    }
    TrailerUnfolds(trailer, reader.Text(), reader.strm.Data());
    return true, trailer;
  }

  lemma EndUnfolds(data: string)
    ensures match NextLine(data)
            case Line(line, rest) => DecodeEnd(data) == WithLines([], DecodeTrailer(line, rest))
            case NoLine(rest) => DecodeEnd(data) == Decoded(true, "", [], rest)
  {
    hide NextLine, DecodeTrailer;
  }

  /** One turn over the trailer, with the lines read before. */
  lemma TrailerUnfolds(lines: seq<string>, line: string, data: string)
    ensures var d := WithLines(lines, DecodeTrailer(line, data));
            && lines <= d.trailer
            && if line == CRLF then d == Decoded(true, "", lines, data)
               else if |line| > HEADER_MAX_LENGTH then d == Decoded(false, "", lines, data)
               else
                 && lines + [line] <= d.trailer
                 && match NextLine(data)
                    case Line(next, rest) => d == WithLines(lines + [line], DecodeTrailer(next, rest))
                    case NoLine(rest) => d == Decoded(false, "", lines + [line], rest)
  {
    hide NextLine, WithLines;
    NoMoreLines(lines, DecodeTrailer(line, data));
    var next := NextLine(data);
    if next.Line? {
      MoreLines(lines, line, DecodeTrailer(next.text, next.rest));
    } else {
      NoMoreLines(lines + [line], Decoded(false, "", [], next.rest));
      MoreLines(lines, line, Decoded(false, "", [], next.rest));
      NoMoreLines([line], Decoded(false, "", [], next.rest));
    }
  }

  lemma NoMoreLines(lines: seq<string>, d: Decoded)
    ensures lines <= WithLines(lines, d).trailer
    ensures d.trailer == [] ==> WithLines(lines, d) == d.(trailer := lines)
  {
    assert lines + [] == lines;
  }

  lemma MoreLines(lines: seq<string>, line: string, d: Decoded)
    ensures WithLines(lines, WithLines([line], d)) == WithLines(lines + [line], d)
    ensures lines + [line] <= WithLines(lines + [line], d).trailer
  {
    assert lines + ([line] + d.trailer) == lines + [line] + d.trailer;
  }

  // ---------------------------------------------------------------------------------------------
  // Round trip
  // ---------------------------------------------------------------------------------------------

  lemma SizeLine(n: nat, rest: string)
    requires n <= ULONG_MAX
    ensures NextLine(Hex(n) + CRLF + rest) == Line(Hex(n) + CRLF, rest)
  {
    hide Hex, Find, NextLine;
    var digits := Hex(n);
    HexValue(n);
    Power16Of16();
    HexLength(n, 16);
    forall j: nat | j < |digits| ensures !OccursAt(digits, j, CRLF) {
      if j + 2 <= |digits| { assert digits[j..j + 2][0] == digits[j]; }
    }
    FindIs(digits, CRLF, |digits|);
    FindAtSeam(digits, CRLF, "");
    assert digits + CRLF + "" == digits + CRLF;
    LineEnds(digits + CRLF, rest);
  }

  lemma EmptyLine(rest: string)
    ensures NextLine(CRLF + rest) == Line(CRLF, rest)
  {
    assert OccursAt(CRLF, 0, CRLF);
    FindIs(CRLF, CRLF, 0);
    LineEnds(CRLF, rest);
  }

  /** One chunk: its content is delivered and reading goes on behind it; the size that stands for an error is
      refused. */
  lemma ChunkDecodes(w: string, more: string)
    requires |w| <= ULONG_MAX
    ensures if |w| == ULONG_MAX then !Decode(ChunkText(w) + more).ok
            else Decode(ChunkText(w) + more) == Continued(w, Decode(more))
  {
    hide Hex, NextLine, ChunkSize, DecodeEnd;
    if w == "" {
      assert "" + more == more;
      NothingBefore(Decode(more));
    } else {
      assert ChunkText(w) + more == Hex(|w|) + CRLF + (w + (CRLF + more));
      SizeLine(|w|, w + (CRLF + more));
      SizeRoundTrip(|w|, "");
      assert Hex(|w|) + CRLF + "" == Hex(|w|) + CRLF;
      var data := w + (CRLF + more);
      assert data[..|w|] == w && data[|w|..] == CRLF + more;
      EmptyLine(more);
      assert w + "" == w;
    }
  }

  lemma {:induction false} ChunksDecode(writes: seq<string>, more: string)
    requires forall w <- writes :: |w| <= ULONG_MAX
    ensures if GoodWrites(writes) then Decode(ChunksText(writes) + more) == Continued(Flatten(writes), Decode(more))
            else !Decode(ChunksText(writes) + more).ok
    decreases |writes|
  {
    hide ChunkText, Decode;
    if writes == [] {
      assert "" + more == more;
      NothingBefore(Decode(more));
    } else {
      var w, rest := writes[0], ChunksText(writes[1..]) + more;
      assert w in writes;
      Appended(ChunkText(w), ChunksText(writes[1..]), more);
      ChunkDecodes(w, rest);
      ChunksDecode(writes[1..], more);
      ContinuedTwice(w, Flatten(writes[1..]), Decode(more));
    }
  }

  predicate GoodWrites(writes: seq<string>) {
    forall w <- writes :: |w| < ULONG_MAX
  }

  // The trailer.

  function FieldLines(fields: seq<Field>): seq<string> {
    seq(|fields|, i requires 0 <= i < |fields| => FieldText(fields[i]))
  }

  /** A line that has no line break but at its end, and is not too long. */
  predicate GoodLine(line: string) {
    Find(line, CRLF) >= |line| - 2 && |line| <= HEADER_MAX_LENGTH
  }

  predicate GoodLines(lines: seq<string>) {
    forall line <- lines :: GoodLine(line)
  }

  predicate GoodFields(fields: seq<Field>) {
    GoodLines(FieldLines(fields))
  }

  lemma GoodFieldLine(field: Field, rest: string)
    requires GoodLine(FieldText(field))
    ensures NextLine(FieldText(field) + rest) == Line(FieldText(field), rest)
    ensures FieldText(field) != CRLF && |FieldText(field)| <= HEADER_MAX_LENGTH
  {
    var line := FieldText(field);
    assert line[|line| - 2..] == CRLF;
    assert OccursAt(line, |line| - 2, CRLF);
    LineEnds(line, rest);
  }

  lemma {:induction false} FieldsDecode(fields: seq<Field>, line: string, data: string, rest: string)
    requires GoodFields(fields)
    requires NextLine(FieldsText(fields) + (CRLF + rest)) == Line(line, data)
    ensures DecodeTrailer(line, data) == Decoded(true, "", FieldLines(fields), rest)
    decreases |fields|
  {
    hide NextLine, FieldText, GoodLine;
    if fields == [] {
      assert "" + (CRLF + rest) == CRLF + rest;
      EmptyLine(rest);
    } else {
      var f, more := fields[0], FieldsText(fields[1..]) + (CRLF + rest);
      assert FieldLines(fields) == [FieldText(f)] + FieldLines(fields[1..]);
      assert forall l <- FieldLines(fields[1..]) :: l in FieldLines(fields);
      assert FieldText(f) in FieldLines(fields);
      Appended(FieldText(f), FieldsText(fields[1..]), CRLF + rest);
      GoodFieldLine(f, more);
      FieldsStartWithLine(fields[1..], rest);
      var next := NextLine(more);
      FieldsDecode(fields[1..], next.text, next.rest, rest);
    }
  }

  lemma FieldsStartWithLine(fields: seq<Field>, rest: string)
    requires GoodFields(fields)
    ensures NextLine(FieldsText(fields) + (CRLF + rest)).Line?
  {
    hide NextLine, FieldText, GoodLine;
    if fields == [] {
      assert "" + (CRLF + rest) == CRLF + rest;
      EmptyLine(rest);
    } else {
      assert FieldLines(fields)[0] == FieldText(fields[0]);
      Appended(FieldText(fields[0]), FieldsText(fields[1..]), CRLF + rest);
      GoodFieldLine(fields[0], FieldsText(fields[1..]) + (CRLF + rest));
    }
  }

  lemma LastChunkDecodes(trailer: seq<Field>, rest: string)
    requires GoodFields(trailer)
    ensures Decode(LastChunk(trailer) + rest) == Decoded(true, "", FieldLines(trailer), rest)
  {
    hide NextLine, ChunkSize, FieldsText;
    var fields := FieldsText(trailer) + (CRLF + rest);
    assert LastChunk(trailer) + rest == Hex(0) + CRLF + fields;
    SizeLine(0, fields);
    SizeRoundTrip(0, "");
    assert Hex(0) + CRLF + "" == Hex(0) + CRLF;
    FieldsStartWithLine(trailer, rest);
    var next := NextLine(fields);
    FieldsDecode(trailer, next.text, next.rest, rest);
  }

  /** The end of a message may be missing: behind the last size line nothing needs to come, a trailer neither. */
  lemma EndMayBeMissing(writes: seq<string>)
    requires GoodWrites(writes)
    ensures Decode(ChunksText(writes) + "0\r\n") == Decoded(true, Flatten(writes), [], "")
  {
    hide ChunksText, DecodeChunks, NextLine, Decode;
    ChunksDecode(writes, "0\r\n");
    SizeWithoutEnd();
    assert Flatten(writes) + "" == Flatten(writes);
  }

  lemma SizeWithoutEnd()
    ensures Decode("0\r\n") == Decoded(true, "", [], "")
  {
    hide ChunkSize, NextLine;
    SizeLine(0, "");
    SizeRoundTrip(0, "");
    assert Hex(0) + CRLF + "" == "0\r\n" && Hex(0) + CRLF == "0\r\n";
    NoLineAtEnd();
  }

  lemma NoLineAtEnd()
    ensures NextLine("") == NoLine("")
  {
  }

  // What the reader hands on as trailer lines, whatever it reads.

  lemma LineHasOneBreak(data: string)
    requires NextLine(data).Line?
    ensures var line := NextLine(data).text; Find(line, CRLF) >= |line| - 2
  {
    var line := NextLine(data).text;
    forall j: nat | j + 2 < |line| ensures !OccursAt(line, j, CRLF) {
      assert !OccursAt(data, j, CRLF);
      OccursBefore(line, NextLine(data).rest, j, CRLF);
    }
    var pos := Find(line, CRLF);
    assert pos < |line| ==> OccursAt(line, pos, CRLF);
  }

  lemma {:induction false} TrailerIsGood(line: string, data: string)
    requires Find(line, CRLF) >= |line| - 2
    ensures GoodLines(DecodeTrailer(line, data).trailer)
    decreases |data|
  {
    hide NextLine, Find;
    var next := NextLine(data);
    if next.Line? {
      LineHasOneBreak(data);
      TrailerIsGood(next.text, next.rest);
    }
  }

  lemma EndIsGood(data: string)
    ensures GoodLines(DecodeEnd(data).trailer)
  {
    hide NextLine, GoodLine;
    var next := NextLine(data);
    if next.Line? {
      LineHasOneBreak(data);
      TrailerIsGood(next.text, next.rest);
    }
  }

  lemma {:induction false} DecodedTrailerIsGood(line: string, data: string)
    ensures GoodLines(DecodeChunks(line, data).trailer)
    decreases |data|
  {
    hide NextLine, ChunkSize, GoodLine;
    var size := ChunkSize(line);
    EndIsGood(data);
    if size.Size? && 0 < size.n <= |data| {
      var end := NextLine(data[size.n..]);
      if end.Line? {
        var next := NextLine(end.rest);
        if next.Line? { DecodedTrailerIsGood(next.text, next.rest); }
      }
    }
  }

  // What the reader accepts.

  /** A line of the stream: its only line break is at its end. */
  predicate EndsLine(line: string) {
    |line| >= 2 && Find(line, CRLF) == |line| - 2
  }

  /** A chunk as the grammar has it: a line that says its size, so many bytes, and a line break. */
  datatype Chunk = Chunk(line: string, piece: string)

  predicate ProperChunk(c: Chunk) {
    EndsLine(c.line) && c.piece != "" && ChunkSize(c.line) == Size(|c.piece|)
  }

  function ChunkForm(c: Chunk): string {
    c.line + c.piece + CRLF
  }

  function ChunksForm(chunks: seq<Chunk>): string {
    if chunks == [] then "" else ChunkForm(chunks[0]) + ChunksForm(chunks[1..])
  }

  function PiecesOf(chunks: seq<Chunk>): string {
    if chunks == [] then "" else chunks[0].piece + PiecesOf(chunks[1..])
  }

  /** The trailer and the empty line behind it; or nothing, where no line can be read any more. */
  ghost predicate ProperEnd(end: string, trailer: seq<string>, rest: string) {
    || (end == Flatten(trailer) + CRLF
        && forall line <- trailer :: EndsLine(line) && line != CRLF && |line| <= HEADER_MAX_LENGTH)
    || (trailer == [] && NextLine(end + rest) == NoLine(rest))
  }

  /** A message from its first chunk-size line on, cut up as in section 7.1 of RFC 9112. */
  ghost predicate ProperMessage(data: string, chunks: seq<Chunk>, last: string, end: string, d: Decoded) {
    && data == ChunksForm(chunks) + last + end + d.rest
    && (forall c <- chunks :: ProperChunk(c)) && d.payload == PiecesOf(chunks)
    && ChunkSize(last) == Size(0) && (EndsLine(last) || end + d.rest == "")
    && ProperEnd(end, d.trailer, d.rest)
  }

  lemma LineEndsIn(data: string)
    requires NextLine(data).Line?
    ensures var Line(line, rest) := NextLine(data); line + rest == data && (EndsLine(line) || rest == "")
  {
    var Line(line, rest) := NextLine(data);
    if rest != "" {
      LineHasOneBreak(data);
      var pos := Find(data, CRLF);
      assert OccursAt(data, pos, CRLF);
      assert line == data[..pos + 2];
      OccursBefore(line, rest, pos, CRLF);
      assert OccursAt(line, pos, CRLF);
    }
  }

  lemma {:induction false} AcceptedTrailer(line: string, data: string)
    requires DecodeTrailer(line, data).ok && (EndsLine(line) || data == "")
    ensures var d := DecodeTrailer(line, data);
            && line + data == Flatten(d.trailer) + CRLF + d.rest
            && forall l <- d.trailer :: EndsLine(l) && l != CRLF && |l| <= HEADER_MAX_LENGTH
    decreases |data|
  {
    hide NextLine, EndsLine, Flatten;
    NothingFlat();
    if line == CRLF {
      assert Flatten([]) + CRLF + data == line + data;
    } else {
      var next := NextLine(data);
      if data == "" { NothingToRead(); }
      LineEndsIn(data);
      AcceptedTrailer(next.text, next.rest);
      MoreTrailer(line, data, DecodeTrailer(next.text, next.rest));
    }
  }

  lemma NothingFlat()
    ensures Flatten([]) == ""
  {
  }

  lemma MoreTrailer(line: string, data: string, tail: Decoded)
    requires data == Flatten(tail.trailer) + CRLF + tail.rest
    ensures line + data == Flatten([line] + tail.trailer) + CRLF + tail.rest
  {
    FlattenFirst(line, tail.trailer);
    assert line + (Flatten(tail.trailer) + CRLF + tail.rest) == line + Flatten(tail.trailer) + CRLF + tail.rest;
  }

  lemma AcceptedEnd(data: string) returns (end: string)
    requires DecodeEnd(data).ok
    ensures var d := DecodeEnd(data); data == end + d.rest && ProperEnd(end, d.trailer, d.rest) && d.payload == ""
  {
    hide NextLine, EndsLine;
    EndHasNoPayload(data);
    var next, d := NextLine(data), DecodeEnd(data);
    if next.NoLine? {
      end := NotRead(data);
    } else {
      LineEndsIn(data);
      AcceptedTrailer(next.text, next.rest);
      end := Flatten(d.trailer) + CRLF;
    }
  }

  lemma NotRead(data: string) returns (end: string)
    requires NextLine(data).NoLine?
    ensures data == end + NextLine(data).rest
  {
    end := if data == "" then "" else data[..MAX_LINE_LENGTH];
  }

  lemma {:induction false} AcceptedChunks(line: string, data: string)
    returns (chunks: seq<Chunk>, last: string, end: string)
    requires DecodeChunks(line, data).ok && (EndsLine(line) || data == "")
    ensures ProperMessage(line + data, chunks, last, end, DecodeChunks(line, data))
    decreases |data|
  {
    hide NextLine, ChunkSize, EndsLine, ProperEnd, DecodeEnd;
    var size, d := ChunkSize(line), DecodeChunks(line, data);
    if size.n == 0 {
      end := AcceptedEnd(data);
      chunks, last := [], line;
      assert line + data == "" + line + end + d.rest;
    } else {
      var piece, behind := data[..size.n], NextLine(data[size.n..]);
      var next := NextLine(behind.rest);
      LineEndsIn(data[size.n..]);
      LineEndsIn(behind.rest);
      chunks, last, end := AcceptedChunks(next.text, next.rest);
      var c := Chunk(line, piece);
      MoreForm(c, chunks, last + end + d.rest);
      assert data == piece + (CRLF + behind.rest);
      Regroup(line, piece, ChunksForm(chunks), last, end, d.rest);
      chunks := [c] + chunks;
    }
  }

  lemma MoreForm(c: Chunk, chunks: seq<Chunk>, tail: string)
    ensures ChunksForm([c] + chunks) == ChunkForm(c) + ChunksForm(chunks)
    ensures PiecesOf([c] + chunks) == c.piece + PiecesOf(chunks)
  {
    assert ([c] + chunks)[1..] == chunks;
  }

  lemma Regroup(line: string, piece: string, chunks: string, last: string, end: string, rest: string)
    ensures line + (piece + (CRLF + (chunks + last + end + rest)))
         == line + piece + CRLF + chunks + last + end + rest
  {
  }

  /** The converse of the round trip: whatever the reader accepts is a message of the grammar, cut as it was read:
      chunks with their sizes in front and a line break behind each, the last size of zero, the trailer with its empty
      line (or an end of the stream), and then what was left unread. */
  lemma AcceptedForm(data: string) returns (chunks: seq<Chunk>, last: string, end: string)
    requires Decode(data).ok
    ensures ProperMessage(data, chunks, last, end, Decode(data))
  {
    hide NextLine, DecodeChunks, EndsLine;
    var first := NextLine(data);
    LineEndsIn(data);
    chunks, last, end := AcceptedChunks(first.text, first.rest);
  }

  /** Round trip, exactly: of any writes and any trailer, the reader delivers the writes' concatenation and the
      trailer's lines, and consumes exactly the encoded bytes, if and only if no write has the size that stands for an
      error and no field's line is broken or too long. */
  lemma RoundTripExactly(writes: seq<string>, trailer: seq<Field>, rest: string)
    requires forall w <- writes :: |w| <= ULONG_MAX
    ensures Decode(Encoded(writes, trailer) + rest) == Decoded(true, Flatten(writes), FieldLines(trailer), rest)
            <==> GoodWrites(writes) && GoodFields(trailer)
  {
    hide ChunksText, LastChunk, DecodeChunks, GoodLine, NextLine, FieldText;
    var text := ChunksText(writes) + (LastChunk(trailer) + rest);
    Appended(ChunksText(writes), LastChunk(trailer), rest);
    ChunksDecode(writes, LastChunk(trailer) + rest);
    if GoodFields(trailer) {
      LastChunkDecodes(trailer, rest);
      assert Flatten(writes) + "" == Flatten(writes);
    }
    var first := NextLine(text);
    if first.Line? { DecodedTrailerIsGood(first.text, first.rest); }
  }

  /** What the reader makes of the writer's output, whatever the provider's calls ask for. When they come to `done`, the
      message is read as a whole, under the condition above, and what they ask for behind it is left unread, with what
      follows. When they do not, the message is found cut short, with all that was written. An empty last write ends the
      writer's loop before `done`, with success. */
  lemma DecodesExactly(calls: seq<Call>, after: string)
    requires forall w <- Writes(AllEvents(calls)) :: |w| <= ULONG_MAX
    ensures var writes, end := Writes(AllEvents(calls)), FromDone(AllEvents(calls));
            if end == [] then
              !Decode(Coding(calls)).ok
              && (GoodWrites(writes) ==> Decode(Coding(calls)) == Decoded(false, Flatten(writes), [], ""))
            else
              Decode(Coding(calls) + after)
              == Decoded(true, Flatten(writes), FieldLines(end[0].trailer), EventsText(end[1..]) + after)
              <==> GoodWrites(writes) && GoodFields(end[0].trailer)
  {
    var events := AllEvents(calls);
    var writes, end := Writes(events), FromDone(events);
    CodingIsEvents(calls);
    EventsSplit(events);
    hide AllEvents, Coding, ChunksText, Decode, GoodFields, GoodWrites, FieldLines, Writes, FromDone;
    if end == [] {
      assert ChunksText(writes) + EventsText(end) == ChunksText(writes) + "";
      CutShort(writes);
    } else {
      DoneIsLastChunk(writes, end, after);
      RoundTripExactly(writes, end[0].trailer, EventsText(end[1..]) + after);
    }
  }

  lemma CutShort(writes: seq<string>)
    requires forall w <- writes :: |w| <= ULONG_MAX
    ensures var d := Decode(ChunksText(writes) + "");
            !d.ok && (GoodWrites(writes) ==> d == Decoded(false, Flatten(writes), [], ""))
  {
    hide ChunksText, DecodeChunks, NextLine;
    ChunksDecode(writes, "");
    NothingToRead();
    assert Flatten(writes) + "" == Flatten(writes);
  }

  lemma DoneIsLastChunk(writes: seq<string>, end: seq<Event>, after: string)
    requires end != [] && end[0].Done?
    ensures ChunksText(writes) + EventsText(end) + after
         == Encoded(writes, end[0].trailer) + (EventsText(end[1..]) + after)
  {
    hide ChunksText, LastChunk;
    var chunks, last, more := ChunksText(writes), LastChunk(end[0].trailer), EventsText(end[1..]);
    assert EventsText(end) == last + more;
    assert chunks + (last + more) + after == chunks + last + (more + after);
  }

  lemma NothingToRead()
    ensures Decode("") == Decoded(false, "", [], "")
  {
  }

  /** The case in two calls: data, then an empty write. The writer reports success. */
  lemma EmptyWriteCutsShort(data: string)
    requires 0 < |data| < ULONG_MAX
    ensures var calls := [Call([Write(data)], true), Call([Write("")], true)];
            Completes(calls) && Decode(Coding(calls)) == Decoded(false, data, [], "")
  {
    var calls := [Call([Write(data)], true), Call([Write("")], true)];
    assert calls[1..] == [calls[1]];
    var events := [Write(data), Write("")];
    assert AllEvents(calls) == events by { assert AllEvents(calls[1..]) == [Write("")]; }
    TwoWrites(data, "");
    hide AllEvents, Writes, FromDone, Coding, Decode;
    DecodesExactly(calls, "");
  }

  lemma TwoWrites(a: string, b: string)
    ensures var events := [Write(a), Write(b)]; Writes(events) == [a, b] && FromDone(events) == []
    ensures Flatten([a, b]) == a + b
  {
    var events := [Write(a), Write(b)];
    assert events[1..] == [Write(b)] && [Write(b)][1..] == [];
    assert Writes([Write(b)]) == [b] && FromDone([Write(b)]) == [];
    assert [a, b][1..] == [b] && [b][1..] == [];
    assert Flatten([b]) == b + "";
  }

  /** The two ends together: whatever the provider's calls, if they come to `done` with good writes and fields, followed
      by anything, read from a reliable stream in any receives, by a receiver that takes everything. */
  method SendAndReceive(calls: seq<Call>, after: string, reliable: bool)
    returns (sent: bool, ok: bool, payload: string, trailer: seq<string>, rest: string)
    requires var events := AllEvents(calls);
             GoodWrites(Writes(events)) && FromDone(events) != [] && GoodFields(FromDone(events)[0].trailer)
    ensures reliable ==> sent == Completes(calls)
    ensures var writes, end := Writes(AllEvents(calls)), FromDone(AllEvents(calls));
            sent ==> ok && payload == Flatten(writes) && trailer == FieldLines(end[0].trailer)
                     && rest == EventsText(end[1..]) + after
  {
    hide AllEvents, Coding, Completes, Decode, Writes, FromDone, GoodWrites, GoodFields, FieldLines, EventsText;
    hide Refuses;
    var output: string;
    sent, output := WriteContentChunked(calls, reliable);
    if !sent { return false, false, "", [], ""; }
    var strm := new SocketStream(true, output + after);
    ok, payload, trailer := ReadContentChunked(strm, _ => true);
    NeverRefuses(payload);
    SizesFit(Writes(AllEvents(calls)));
    DecodesExactly(calls, after);
    rest := strm.readBuff[strm.readBuffOff..strm.readBuffContentSize] + strm.incoming;
  }

  lemma NeverRefuses(payload: string)
    ensures !Refuses(_ => true, "", payload)
  {
  }

  lemma SizesFit(writes: seq<string>)
    requires GoodWrites(writes)
    ensures forall w <- writes :: |w| <= ULONG_MAX
  {
  }
}
