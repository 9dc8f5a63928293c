/** The buffered socket read, and the two-tier line buffer on top of it. */
module BufferedStream {
  import opened Text

  const READ_BUFF_SIZE: nat := 4096
  const MAX_LINE_LENGTH: nat := 32768
  const CRLF: string := "\r\n"

  /** A socket stream. `incoming` is what the peer has sent or will send and the socket has not yet
      handed over; how much one receive hands over is not determined. A reliable stream never times
      out or fails; the end of the stream is where `incoming` is used up. */
  class SocketStream {
    const reliable: bool
    const readBuff: array<char>
    var readBuffOff: nat
    var readBuffContentSize: nat
    var incoming: string
    ghost var received: string
    ghost var delivered: string

    /** Bytes delivered and bytes buffered are the bytes received. */
    ghost predicate Valid()
      reads this, readBuff
    {
      && readBuff.Length == READ_BUFF_SIZE
      && readBuffOff <= readBuffContentSize <= READ_BUFF_SIZE
      && received == delivered + Buffered()
    }

    ghost function Buffered(): string
      reads this, readBuff
      requires readBuffOff <= readBuffContentSize <= readBuff.Length
    {
      readBuff[readBuffOff..readBuffContentSize]
    }

    /** What a reader without a buffer would still have before it. */
    ghost function Data(): string
      reads this, readBuff
      requires Valid()
    {
      Buffered() + incoming
    }

    constructor (reliable: bool, incoming: string)
      ensures Valid() && Data() == incoming && this.reliable == reliable && fresh(readBuff)
      ensures received == delivered == ""
    {
      this.reliable, this.incoming := reliable, incoming;
      readBuff := new char[READ_BUFF_SIZE](_ => '\0');
      readBuffOff, readBuffContentSize := 0, 0;
      received, delivered := "", "";
    }

    method WaitReadable() returns (b: bool)
      ensures reliable ==> b
    {
      b := true;
      if !reliable { b := *; }
    }

    /** One receive on the socket: some of the next bytes, none at the end of the stream, or an error. */
    method ReadSocket(max: nat) returns (n: int, bytes: string)
      requires 0 < max
      modifies this`incoming, this`received
      ensures n < 0 ==> !reliable && bytes == "" && incoming == old(incoming) && received == old(received)
      ensures n >= 0 ==> n == |bytes| <= max && (n == 0 <==> old(incoming) == "")
      ensures bytes + incoming == old(incoming) && received == old(received) + bytes
    {
      var fails := false;
      if !reliable { fails := *; }
      if fails {
        assert "" + incoming == incoming && received + "" == received;
        return -1, "";
      }
      if incoming == "" { return 0, ""; }
      var k: nat :| 1 <= k <= max && k <= |incoming|;
      bytes := incoming[..k];
      incoming := incoming[k..];
      received := received + bytes;
      n := k;
    }

    /** `SocketStream::read`. Buffering is invisible: a read takes the next bytes of the stream, at least
        one unless none was asked for or the stream is at its end, and nothing is lost, reordered or
        repeated; an error takes nothing. */
    method Read(size: nat) returns (n: int, bytes: string)
      requires Valid()
      modifies this`readBuffOff, this`readBuffContentSize, this`incoming, this`received, this`delivered, readBuff
      ensures Valid()
      ensures n < 0 ==> !reliable && bytes == "" && Data() == old(Data())
      ensures n >= 0 ==> n == |bytes| <= size && bytes + Data() == old(Data())
      ensures n == 0 ==> size == 0 || old(Data()) == ""
      ensures delivered == old(delivered) + bytes
    {
      if readBuffOff < readBuffContentSize {
        n, bytes := ReadFromBuffer(size);
        return;
      }
      var ready := WaitReadable();
      if !ready {
        assert delivered + "" == delivered;
        return -1, "";
      }
      readBuffOff, readBuffContentSize := 0, 0;
      assert Data() == old(Data()) by { assert Buffered() == old(Buffered()) == ""; }
      if size < READ_BUFF_SIZE {
        n, bytes := ReadThroughBuffer(size);
      } else {
        n, bytes := ReadSocket(size);
        delivered := delivered + bytes;
      }
    }

    method ReadFromBuffer(size: nat) returns (n: int, bytes: string)
      requires Valid() && readBuffOff < readBuffContentSize
      modifies this`readBuffOff, this`delivered
      ensures Valid() && n == |bytes| <= size && (n == 0 ==> size == 0)
      ensures bytes + Data() == old(Data()) && delivered == old(delivered) + bytes
    {
      var remaining := readBuffContentSize - readBuffOff;
      var taken := if size <= remaining then size else remaining;
      bytes := readBuff[readBuffOff..readBuffOff + taken];
      assert Buffered() == bytes + readBuff[readBuffOff + taken..readBuffContentSize];
      readBuffOff := readBuffOff + taken;
      delivered := delivered + bytes;
      n := taken;
    }

    /** The receive writes into the buffer. */
    method FillBuffer(chunk: string)
      requires |chunk| <= readBuff.Length
      modifies readBuff
      ensures readBuff[..|chunk|] == chunk
    {
      forall i | 0 <= i < |chunk| { readBuff[i] := chunk[i]; }
    }

    method ReadThroughBuffer(size: nat) returns (n: int, bytes: string)
      requires Valid() && readBuffOff == readBuffContentSize == 0
      modifies this`readBuffOff, this`readBuffContentSize, this`incoming, this`received, this`delivered, readBuff
      ensures Valid()
      ensures n < 0 ==> !reliable && bytes == "" && Data() == old(Data())
      ensures n >= 0 ==> n == |bytes| <= size && bytes + Data() == old(Data())
      ensures n == 0 ==> size == 0 || old(Data()) == ""
      ensures delivered == old(delivered) + bytes
    {
      assert Data() == incoming && received == delivered;
      var got, chunk := ReadSocket(READ_BUFF_SIZE);
      FillBuffer(chunk);
      if got <= 0 {
        n, bytes := got, "";
      } else if got <= size {
        n, bytes := got, chunk;
      } else {
        n, bytes := size, readBuff[..size];
        readBuffOff, readBuffContentSize := size, got;
        assert chunk == bytes + readBuff[size..got];
      }
      delivered := delivered + bytes;
    }
  }

  datatype LineResult = Line(text: string, rest: string) | NoLine(rest: string)

  /** The line that a stream of this content yields: up to and with the first CRLF, or all there is.
      None at the end of the stream or when the line is too long. */
  function NextLine(data: string): (r: LineResult)
    ensures r.Line? ==> r.text != "" && r.text + r.rest == data
  {
    var pos := Find(data, CRLF);
    var len := if pos < |data| then pos + |CRLF| else |data|;
    if data == "" then NoLine("")
    else if len > MAX_LINE_LENGTH || (pos == |data| && len == MAX_LINE_LENGTH) then NoLine(data[MAX_LINE_LENGTH..])
    else Line(data[..len], data[len..])
  }

  /** A line in progress: the bytes so far hold no CRLF. */
  ghost predicate NoLineYet(s: string) {
    Find(s, CRLF) == |s|
  }

  lemma ByteExtendsLine(s: string, c: char)
    requires NoLineYet(s)
    ensures if s != "" && s[|s| - 1] == '\r' && c == '\n' then Find(s + [c], CRLF) == |s| - 1 else NoLineYet(s + [c])
  {
    var t := s + [c];
    var ends := s != "" && s[|s| - 1] == '\r' && c == '\n';
    LastTwo(s, c);
    hide OccursAt;
    forall j: nat | j + 2 <= |s| ensures !OccursAt(t, j, CRLF) {
      OccursBefore(s, [c], j, CRLF);
    }
    FindIs(t, CRLF, if ends then |s| - 1 else |t|);
  }

  /** Where the last character brings the line's end: only at the last two characters. */
  lemma LastTwo(s: string, c: char)
    ensures s != "" ==> (OccursAt(s + [c], |s| - 1, CRLF) <==> s[|s| - 1] == '\r' && c == '\n')
    ensures !OccursAt(s + [c], |s|, CRLF)
  {
    if s != "" { assert (s + [c])[|s| - 1..|s| + 1] == [s[|s| - 1], c]; }
  }

  lemma LineEnds(s: string, rest: string)
    requires 2 <= |s| <= MAX_LINE_LENGTH && Find(s, CRLF) == |s| - 2
    ensures NextLine(s + rest) == Line(s, rest)
  {
    FindExtend(s, rest, CRLF);
    assert (s + rest)[..|s|] == s && (s + rest)[|s|..] == rest;
  }

  /** A line of a stream, said without searching: not empty, no longer than the limit, its one CRLF at its end; the last
      line of a stream may lack it, and is then below the limit. */
  ghost predicate IsLine(text: string, rest: string) {
    && text != "" && |text| <= MAX_LINE_LENGTH
    && (forall j: nat :: j + 2 < |text| ==> !OccursAt(text, j, CRLF))
    && ((|text| >= 2 && OccursAt(text, |text| - 2, CRLF)) || (rest == "" && |text| < MAX_LINE_LENGTH))
  }

  /** What is read is the line that the stream starts with, and a line is missed if and only if it starts with none;
      then as many bytes are gone as a line may have. */
  lemma LineExactly(data: string)
    ensures match NextLine(data)
            case Line(text, rest) => text + rest == data && IsLine(text, rest)
            case NoLine(rest) =>
              && (forall text, more :: text + more == data ==> !IsLine(text, more))
              && rest == if |data| <= MAX_LINE_LENGTH then "" else data[MAX_LINE_LENGTH..]
  {
    var pos := Find(data, CRLF);
    if NextLine(data).Line? {
      LineIsLine(data);
    } else {
      forall text, more | text + more == data ensures !IsLine(text, more) {
        assert more == "" ==> text == data;
        if |text| >= 2 { OccursBefore(text, more, |text| - 2, CRLF); }
      }
    }
  }

  lemma LineIsLine(data: string)
    requires NextLine(data).Line?
    ensures IsLine(NextLine(data).text, NextLine(data).rest)
  {
    var Line(text, rest) := NextLine(data);
    var pos := Find(data, CRLF);
    hide OccursAt;
    forall j: nat | j + 2 <= |text| ensures OccursAt(text, j, CRLF) <==> OccursAt(data, j, CRLF) {
      OccursBefore(text, rest, j, CRLF);
    }
    if pos < |data| {
      OccursInside(data, pos, CRLF);
      assert OccursAt(text, |text| - 2, CRLF);
    }
  }

  lemma LineTooLong(s: string, rest: string)
    requires |s| == MAX_LINE_LENGTH && NoLineYet(s)
    ensures NextLine(s + rest) == NoLine(rest)
  {
    forall j: nat | j + 2 <= |s| ensures !OccursAt(s + rest, j, CRLF) {
      assert !OccursAt(s, j, CRLF);
      assert (s + rest)[j..j + 2] == s[j..j + 2];
    }
    assert Find(s + rest, CRLF) + 2 > |s|;
    assert (s + rest)[|s|..] == rest;
  }

  /** `stream_line_reader`: a fixed buffer, and a growable one for lines that do not fit. */
  class StreamLineReader {
    const strm: SocketStream
    const fixedBuffer: array<char>
    var fixedBufferUsedSize: nat
    var growableBuffer: string

    ghost predicate Valid()
      reads this, fixedBuffer
    {
      && 2 <= fixedBuffer.Length && fixedBufferUsedSize < fixedBuffer.Length
      && (fixedBufferUsedSize > 0 ==> fixedBuffer[fixedBufferUsedSize] == '\0')
      && (growableBuffer != "" ==> fixedBufferUsedSize == fixedBuffer.Length - 1)
    }

    /** What `ptr` and `size` expose. */
    function Text(): string
      reads this, fixedBuffer
      requires fixedBufferUsedSize <= fixedBuffer.Length
    {
      if growableBuffer == "" then fixedBuffer[..fixedBufferUsedSize] else growableBuffer
    }

    constructor (strm: SocketStream, fixedBufferSize: nat)
      requires 2 <= fixedBufferSize
      ensures Valid() && this.strm == strm && fresh(fixedBuffer) && Text() == ""
    {
      this.strm := strm;
      fixedBuffer := new char[fixedBufferSize](_ => '\0');
      fixedBufferUsedSize := 0;
      growableBuffer := "";
    }

    method Append(c: char)
      requires Valid()
      modifies this`fixedBufferUsedSize, this`growableBuffer, fixedBuffer
      ensures Valid() && Text() == old(Text()) + [c]
    {
      if fixedBufferUsedSize < fixedBuffer.Length - 1 {
        fixedBuffer[fixedBufferUsedSize] := c;
        fixedBufferUsedSize := fixedBufferUsedSize + 1;
        fixedBuffer[fixedBufferUsedSize] := '\0';
        assert fixedBuffer[..fixedBufferUsedSize] == old(fixedBuffer[..fixedBufferUsedSize]) + [c];
      } else {
        if growableBuffer == "" {
          assert fixedBuffer[fixedBufferUsedSize] == '\0';
          growableBuffer := fixedBuffer[..fixedBufferUsedSize];
        }
        growableBuffer := growableBuffer + [c];
      }
    }

    /** `getline`. On success the reader exposes exactly the bytes it consumed, which end with their
        first CRLF or with the stream; on a reliable stream it is the line that the stream's content
        determines, whatever the sizes of the receives and wherever the line spills to the growable
        buffer. */
    method GetLine() returns (ok: bool)
      requires Valid() && strm.Valid() && fixedBuffer != strm.readBuff
      modifies this`fixedBufferUsedSize, this`growableBuffer, fixedBuffer
      modifies strm`readBuffOff, strm`readBuffContentSize, strm`incoming, strm`received, strm`delivered, strm.readBuff
      ensures Valid() && strm.Valid()
      ensures Text() + strm.Data() == old(strm.Data())
      ensures ok ==> NextLine(old(strm.Data())) == Line(Text(), strm.Data())
      ensures strm.reliable && !ok ==> NextLine(old(strm.Data())) == NoLine(strm.Data())
    {
      hide NextLine, NoLineYet;
      fixedBufferUsedSize := 0;
      growableBuffer := "";
      var prevByte := '\0';
      var more := true;
      ok := true;
      EmptyIsNoLine();
      assert Text() == "" && "" + strm.Data() == strm.Data();
      while more
        invariant Valid() && strm.Valid()
        invariant Text() + strm.Data() == old(strm.Data())
        invariant more ==> NoLineYet(Text()) && |Text()| <= MAX_LINE_LENGTH && ok
        invariant prevByte == LastOf(Text())
        invariant !more && ok ==> NextLine(old(strm.Data())) == Line(Text(), strm.Data())
        invariant strm.reliable && !ok ==> NextLine(old(strm.Data())) == NoLine(strm.Data())
        decreases more, |strm.Data()|
      {
        if |Text()| >= MAX_LINE_LENGTH {
          LineTooLong(Text(), strm.Data());
          return false;
        }
        more, ok, prevByte := NextByte(prevByte);
      }
    }

    /** One turn of the loop of `getline`: a byte, the end of the stream, or an error. */
    method NextByte(prevByte: char) returns (more: bool, ok: bool, byte: char)
      requires Valid() && strm.Valid() && fixedBuffer != strm.readBuff
      requires NoLineYet(Text()) && |Text()| < MAX_LINE_LENGTH && prevByte == LastOf(Text())
      modifies this`fixedBufferUsedSize, this`growableBuffer, fixedBuffer
      modifies strm`readBuffOff, strm`readBuffContentSize, strm`incoming, strm`received, strm`delivered, strm.readBuff
      ensures Valid() && strm.Valid()
      ensures Text() + strm.Data() == old(Text() + strm.Data()) && byte == LastOf(Text())
      ensures more ==> ok && NoLineYet(Text()) && |Text()| <= MAX_LINE_LENGTH && |strm.Data()| < |old(strm.Data())|
      ensures !more && ok ==> NextLine(old(Text() + strm.Data())) == Line(Text(), strm.Data())
      ensures strm.reliable && !ok ==> NextLine(old(Text() + strm.Data())) == NoLine(strm.Data())
    {
      hide NextLine, NoLineYet, Find;
      ghost var text := Text();
      var n, bytes := strm.Read(1);
      if n <= 0 {
        if n == 0 { StreamEnds(text); }
        return false, n == 0 && Text() != "", prevByte;
      }
      byte := bytes[0];
      ByteExtendsLine(text, byte);
      OneByte(text, bytes, strm.Data());
      Append(byte);
      if prevByte == '\r' && byte == '\n' {
        LineEnds(Text(), strm.Data());
        return false, true, byte;
      }
      return true, true, byte;
    }
  }

  lemma OneByte(s: string, bytes: string, rest: string)
    requires |bytes| == 1
    ensures s + [bytes[0]] + rest == s + (bytes + rest)
  {
  }

  /** The previous byte, NUL before the first. */
  function LastOf(s: string): char {
    if s == "" then '\0' else s[|s| - 1]
  }

  lemma EmptyIsNoLine()
    ensures NoLineYet("")
  {
  }

  lemma StreamEnds(s: string)
    requires NoLineYet(s) && |s| < MAX_LINE_LENGTH
    ensures NextLine(s + "") == if s == "" then NoLine("") else Line(s, "")
  {
    assert s + "" == s && s[..|s|] == s;
  }
}
