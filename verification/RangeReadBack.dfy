/** The multipart/byteranges body read back: by readers that know nothing of how it was made, among them the multipart
    parser. */
module RangeReadBack {
  import opened Text
  import opened Splitting
  import opened Multipart
  import opened MultipartStreaming
  import opened MultipartRoundTrip
  import Pipeline = RangePipeline
  import RangeHeader

  datatype Found<T> = Nothing | Found(value: T)

  /** What a part says of itself, and its bytes. */
  datatype RangePart = RangePart(contentType: string, first: nat, last: nat, len: nat, bytes: string)

  // ---------------------------------------------------------------------------------------------
  // The readers
  // ---------------------------------------------------------------------------------------------

  function Number(s: string): Found<nat> {
    if s != "" && AllDigits(s) then Found(DecimalValue(s)) else Nothing
  }

  /** Section 14.4 of RFC 9110: `bytes first-last/length`. */
  function ReadContentRange(field: string): Found<(nat, nat, nat)> {
    if "bytes " <= field then ReadPositions(field[|"bytes "|..]) else Nothing
  }

  function ReadPositions(positions: string): Found<(nat, nat, nat)> {
    var slash := IndexOf(positions, '/');
    if slash == |positions| then Nothing
    else
      var dash := IndexOf(positions[..slash], '-');
      if dash == slash then Nothing
      else
        var first, last := Number(positions[..dash]), Number(positions[dash + 1..slash]);
        var len := Number(positions[slash + 1..]);
        if first.Nothing? || last.Nothing? || len.Nothing? then Nothing else Found((first.value, last.value, len.value))
  }

  /** The value of the first header line with this name. */
  function HeaderValue(lines: seq<string>, name: string): Found<string> {
    if lines == [] then Nothing
    else if name + ": " <= lines[0] then Found(lines[0][|name| + 2..])
    else HeaderValue(lines[1..], name)
  }

  /** Section 14.6: each part of the body is a range with its own Content-Range. */
  function ReadPart(part: Part): Found<RangePart> {
    var field := HeaderValue(part.headers, "Content-Range");
    var contentType := HeaderValue(part.headers, "Content-Type");
    if field.Nothing? then Nothing
    else
      match ReadContentRange(field.value)
      case Nothing => Nothing
      case Found(r) =>
        Found(RangePart(if contentType.Nothing? then "" else contentType.value, r.0, r.1, r.2, part.content))
  }

  // ---------------------------------------------------------------------------------------------
  // The Content-Range field
  // ---------------------------------------------------------------------------------------------

  /** The field of every range reads back as its positions and the length. */
  lemma ContentRangeReadsBack(first: nat, last: nat, len: nat)
    ensures ReadContentRange(Pipeline.ContentRange(first, last, len)) == Found((first, last, len))
  {
    DecimalRoundTrip(first);
    DecimalRoundTrip(last);
    DecimalRoundTrip(len);
    hide Decimal, DecimalValue, ReadPositions, AllDigits;
    var a, b, c := Decimal(first), Decimal(last), Decimal(len);
    var field, positions := Pipeline.ContentRange(first, last, len), a + "-" + b + "/" + c;
    assert field == "bytes " + positions;
    assert field[..6] == "bytes " && field[6..] == positions;
    PositionsReadBack(a, b, c);
  }

  lemma PositionsReadBack(a: string, b: string, c: string)
    requires a != "" && b != "" && c != "" && AllDigits(a) && AllDigits(b) && AllDigits(c)
    ensures ReadPositions(a + "-" + b + "/" + c) == Found((DecimalValue(a), DecimalValue(b), DecimalValue(c)))
  {
    hide *;
    var positions, n := a + "-" + b + "/" + c, |a| + 1 + |b|;
    Splitted(a, b, c);
    NoSuchDigit(a, b, '/');
    Splitting.FirstDelimiter(positions, n, '/');
    Splitting.FirstDelimiter(a + "-" + b, |a|, '-');
    IsNumber(a);
    IsNumber(b);
    IsNumber(c);
    PositionsAt(positions, n, |a|);
  }

  lemma IsNumber(s: string)
    requires s != "" && AllDigits(s)
    ensures Number(s) == Found(DecimalValue(s))
  {
  }

  lemma PositionsAt(positions: string, slash: nat, dash: nat)
    requires slash == IndexOf(positions, '/') < |positions| && dash == IndexOf(positions[..slash], '-') < slash
    requires Number(positions[..dash]).Found? && Number(positions[dash + 1..slash]).Found?
    requires Number(positions[slash + 1..]).Found?
    ensures ReadPositions(positions)
         == Found((Number(positions[..dash]).value, Number(positions[dash + 1..slash]).value,
                   Number(positions[slash + 1..]).value))
  {
    hide Number, IndexOf;
  }

  lemma Splitted(a: string, b: string, c: string)
    ensures var positions, n := a + "-" + b + "/" + c, |a| + 1 + |b|;
            && |a| < n < |positions| && n == |a + "-" + b| && (a + "-" + b)[|a|] == '-'
            && positions[..n] == a + "-" + b && (a + "-" + b)[..|a|] == a && positions[n] == '/'
            && positions[..|a|] == a && positions[|a| + 1..n] == b && positions[n + 1..] == c
  {
  }

  lemma NoSuchDigit(a: string, b: string, d: char)
    requires AllDigits(a) && AllDigits(b) && d == '/'
    ensures d !in a + "-" + b && '-' !in a
  {
  }

  function PowerOf10(k: nat): nat {
    if k == 0 then 1 else 10 * PowerOf10(k - 1)
  }

  lemma {:induction false} DecimalLength(n: nat, k: nat)
    requires 0 < k && n < PowerOf10(k)
    ensures |Decimal(n)| <= k
    decreases k
  {
    if n >= 10 { DecimalLength(n / 10, k - 1); }
  }

  /** Numbers of 63 bits take at most 19 digits. */
  lemma ShortDecimal(n: nat)
    requires n < TWO_63
    ensures |Decimal(n)| <= 19
  {
    assert PowerOf10(3) == 10 * (10 * (10 * PowerOf10(0)));
    assert PowerOf10(6) == 10 * (10 * (10 * PowerOf10(3)));
    assert PowerOf10(9) == 10 * (10 * (10 * PowerOf10(6)));
    assert PowerOf10(12) == 10 * (10 * (10 * PowerOf10(9)));
    assert PowerOf10(15) == 10 * (10 * (10 * PowerOf10(12)));
    assert PowerOf10(18) == 10 * (10 * (10 * PowerOf10(15)));
    assert PowerOf10(19) == 10 * PowerOf10(18);
    DecimalLength(n, 19);
  }

  // ---------------------------------------------------------------------------------------------
  // The body as entries
  // ---------------------------------------------------------------------------------------------

  /** A client's parser: it takes every header line and every part. */
  function Reader(boundary: string): Config {
    Config(boundary, _ => true, _ => true)
  }

  function RangeLine(q: RangeHeader.Range, len: nat): string
    requires Pipeline.InContent(q, len)
  {
    "Content-Range: " + Pipeline.ContentRange(q.first, q.last, len)
  }

  function HeadLines(q: RangeHeader.Range, contentType: string, len: nat): seq<string>
    requires Pipeline.InContent(q, len)
  {
    (if contentType == "" then [] else ["Content-Type: " + contentType]) + [RangeLine(q, len)]
  }

  function PartOf(q: RangeHeader.Range, contentType: string, content: string): Part
    requires Pipeline.InContent(q, |content|)
  {
    Part(HeadLines(q, contentType, |content|), Pipeline.Slice(content, q))
  }

  function PartsOf(qs: seq<RangeHeader.Range>, contentType: string, content: string): (parts: seq<Part>)
    requires Pipeline.AllInContent(qs, |content|)
    ensures |parts| == |qs| && forall i :: 0 <= i < |qs| ==> parts[i] == PartOf(qs[i], contentType, content)
  {
    seq(|qs|, i requires 0 <= i < |qs| => PartOf(qs[i], contentType, content))
  }

  function PartText(q: RangeHeader.Range, boundary: string, contentType: string, content: string): string
    requires Pipeline.InContent(q, |content|)
  {
    Pipeline.PartHead(q, boundary, contentType, |content|) + Pipeline.Slice(content, q) + CRLF
  }

  lemma {:induction false} PartsFirst(qs: seq<RangeHeader.Range>, boundary: string, contentType: string,
                                      content: string)
    requires qs != [] && Pipeline.AllInContent(qs, |content|)
    ensures Pipeline.Parts(qs, boundary, contentType, content)
         == PartText(qs[0], boundary, contentType, content) + Pipeline.Parts(qs[1..], boundary, contentType, content)
    decreases |qs|
  {
    hide PartText, Pipeline.Parts;
    var n := |qs| - 1;
    PartsLast(qs, boundary, contentType, content);
    NoParts(boundary, contentType, content);
    if n == 0 {
      assert qs[..0] == [] && qs[1..] == [];
      var first := PartText(qs[0], boundary, contentType, content);
      assert "" + first == first + "";
    } else {
      PartsFirst(qs[..n], boundary, contentType, content);
      PartsLast(qs[1..], boundary, contentType, content);
      assert qs[..n][1..] == qs[1..][..n - 1];
      var middle := Pipeline.Parts(qs[..n][1..], boundary, contentType, content);
      MultipartRoundTrip.Associate(PartText(qs[0], boundary, contentType, content), middle,
                                   PartText(qs[n], boundary, contentType, content));
    }
  }

  lemma PartsLast(qs: seq<RangeHeader.Range>, boundary: string, contentType: string, content: string)
    requires qs != [] && Pipeline.AllInContent(qs, |content|)
    ensures var n := |qs| - 1;
            Pipeline.Parts(qs, boundary, contentType, content)
            == Pipeline.Parts(qs[..n], boundary, contentType, content) + PartText(qs[n], boundary, contentType, content)
  {
    hide Pipeline.PartHead;
  }

  lemma NoParts(boundary: string, contentType: string, content: string)
    ensures Pipeline.Parts([], boundary, contentType, content) == ""
  {
  }

  /** One part, with the delimiter of the next. */
  lemma PartIsEntry(q: RangeHeader.Range, boundary: string, contentType: string, content: string, behind: string)
    requires Pipeline.InContent(q, |content|)
    ensures var cfg, part := Reader(boundary), PartOf(q, contentType, content);
            PartText(q, boundary, contentType, content) + (DASH + boundary + behind)
            == cfg.DashBoundaryCrlf() + EntryText(cfg, part.headers, part.content, behind)
  {
    hide Pipeline.ContentRange, LinesText;
    var cfg, lines, slice := Reader(boundary), HeadLines(q, contentType, |content|), Pipeline.Slice(content, q);
    OneOrTwoLines(lines);
    var head := LinesText(lines) + CRLF;
    assert Pipeline.PartHead(q, boundary, contentType, |content|) == cfg.DashBoundaryCrlf() + head;
    Framed(cfg.DashBoundaryCrlf(), LinesText(lines), slice, DASH + boundary, behind);
    assert cfg.CrlfDashBoundary() == CRLF + (DASH + boundary);
  }

  lemma Framed(d: string, lines: string, slice: string, dashes: string, behind: string)
    ensures d + (lines + CRLF) + slice + CRLF + (dashes + behind)
         == d + (lines + (CRLF + (slice + (CRLF + dashes) + behind)))
  {
  }

  lemma {:induction false} BodyIsEntries(qs: seq<RangeHeader.Range>, boundary: string, contentType: string,
                                         content: string, end: string)
    requires qs != [] && Pipeline.AllInContent(qs, |content|)
    ensures var cfg := Reader(boundary);
            Pipeline.Parts(qs, boundary, contentType, content) + (DASH + boundary + end)
            == cfg.DashBoundaryCrlf() + EntriesText(cfg, PartsOf(qs, contentType, content), end)
    decreases |qs|
  {
    hide PartText, PartOf, EntryText, Pipeline.Parts;
    NoParts(boundary, contentType, content);
    var cfg, parts := Reader(boundary), PartsOf(qs, contentType, content);
    var first := PartText(qs[0], boundary, contentType, content);
    var more := Pipeline.Parts(qs[1..], boundary, contentType, content);
    PartsFirst(qs, boundary, contentType, content);
    var behind := if |qs| == 1 then end else CRLF + EntriesText(cfg, parts[1..], end);
    assert more + (DASH + boundary + end) == DASH + boundary + behind by {
      if |qs| > 1 {
        BodyIsEntries(qs[1..], boundary, contentType, content, end);
        assert parts[1..] == PartsOf(qs[1..], contentType, content);
        assert cfg.DashBoundaryCrlf() + EntriesText(cfg, parts[1..], end)
            == DASH + boundary + (CRLF + EntriesText(cfg, parts[1..], end));
      } else {
        assert qs[1..] == [] && more == "";
      }
    }
    PartIsEntry(qs[0], boundary, contentType, content, behind);
    MultipartRoundTrip.Associate(first, more, DASH + boundary + end);
  }

  // ---------------------------------------------------------------------------------------------
  // Reading it back
  // ---------------------------------------------------------------------------------------------

  /** What a part must say and hold: the positions, the length, the type, and the bytes between the positions. */
  predicate IsRange(part: RangePart, q: RangeHeader.Range, contentType: string, content: string) {
    && part.contentType == contentType && part.len == |content|
    && part.first == q.first && part.last == q.last && part.first <= part.last < |content|
    && |part.bytes| == part.last - part.first + 1
    && forall i :: part.first <= i <= part.last ==> part.bytes[i - part.first] == content[i]
  }

  lemma PartReadsBack(q: RangeHeader.Range, contentType: string, content: string)
    requires Pipeline.InContent(q, |content|)
    ensures var read := ReadPart(PartOf(q, contentType, content));
            read.Found? && IsRange(read.value, q, contentType, content)
  {
    hide Pipeline.ContentRange, ReadContentRange;
    ContentRangeReadsBack(q.first, q.last, |content|);
    HeadReadsBack(contentType, Pipeline.ContentRange(q.first, q.last, |content|));
  }

  /** The two lines are told apart by their names. */
  lemma HeadReadsBack(contentType: string, field: string)
    ensures var lines := (if contentType == "" then [] else ["Content-Type: " + contentType])
                         + ["Content-Range: " + field];
            && HeaderValue(lines, "Content-Range") == Found(field)
            && HeaderValue(lines, "Content-Type") == if contentType == "" then Nothing else Found(contentType)
  {
    var range, type_ := "Content-Range: " + field, "Content-Type: " + contentType;
    StartsWith("Content-Range: ", field);
    StartsWith("Content-Type: ", contentType);
    assert "Content-Range" + ": " == "Content-Range: " && "Content-Type" + ": " == "Content-Type: ";
    assert range[8] == 'R' && type_[8] == 'T';
    LastHeader("Content-Range", range);
    LastHeader("Content-Type", range);
    if contentType != "" {
      assert [type_, range][1..] == [range];
      assert [type_] + [range] == [type_, range];
    } else {
      assert [] + [range] == [range];
    }
  }

  lemma StartsWith(name: string, value: string)
    ensures name <= name + value && (name + value)[|name|..] == value
  {
  }

  lemma LastHeader(name: string, line: string)
    ensures HeaderValue([line], name) == if name + ": " <= line then Found(line[|name| + 2..]) else Nothing
  {
    assert [line][1..] == [];
  }

  /** The type has no line break and leaves the lines short enough; no bytes asked for hold the delimiter. */
  predicate Readable(qs: seq<RangeHeader.Range>, boundary: string, contentType: string, content: string)
    requires Pipeline.AllInContent(qs, |content|)
  {
    && BoundaryCharsValid(boundary)
    && Find(contentType, CRLF) == |contentType| && |contentType| < HEADER_MAX_LENGTH - |"Content-Type: "|
    && |content| < TWO_63
    && forall q <- qs ::
         Find(Pipeline.Slice(content, q), Reader(boundary).CrlfDashBoundary()) == |Pipeline.Slice(content, q)|
  }

  lemma GoodRangePart(qs: seq<RangeHeader.Range>, q: RangeHeader.Range, boundary: string, contentType: string,
                      content: string)
    requires Pipeline.AllInContent(qs, |content|) && Readable(qs, boundary, contentType, content) && q in qs
    ensures GoodPart(Reader(boundary), PartOf(q, contentType, content))
  {
    var part := PartOf(q, contentType, content);
    forall line <- part.headers ensures GoodLine(Reader(boundary), line) {
      if line == RangeLine(q, |content|) {
        ShortRangeLine(q, |content|);
      } else {
        NoBreakBehind("Content-Type: ", contentType);
      }
    }
  }

  lemma ShortRangeLine(q: RangeHeader.Range, len: nat)
    requires Pipeline.InContent(q, len) && len < TWO_63
    ensures Find(RangeLine(q, len), CRLF) == |RangeLine(q, len)| < HEADER_MAX_LENGTH
  {
    ShortDecimal(q.first);
    ShortDecimal(q.last);
    ShortDecimal(len);
    DecimalRoundTrip(q.first);
    DecimalRoundTrip(q.last);
    DecimalRoundTrip(len);
    hide Decimal;
    var line := RangeLine(q, len);
    assert forall i :: 0 <= i < |line| ==> line[i] != '\r';
    NoReturn(line);
  }

  lemma NoReturn(s: string)
    requires forall i :: 0 <= i < |s| ==> s[i] != '\r'
    ensures Find(s, CRLF) == |s|
  {
    forall j: nat | j < |s| ensures !OccursAt(s, j, CRLF) {
      if j + 2 <= |s| { assert s[j..j + 2][0] != CRLF[0]; }
    }
    FindIs(s, CRLF, |s|);
  }

  lemma NoBreakBehind(name: string, s: string)
    requires Find(s, CRLF) == |s| && forall i :: 0 <= i < |name| ==> name[i] != '\r'
    ensures Find(name + s, CRLF) == |name + s|
  {
    forall j: nat | j < |name + s| ensures !OccursAt(name + s, j, CRLF) {
      if j < |name| {
        if j + 2 <= |name + s| { assert (name + s)[j..j + 2][0] != CRLF[0]; }
      } else {
        OccursBehind(name, s, j, CRLF);
        assert !OccursAt(s, j - |name|, CRLF);
      }
    }
    FindIs(name + s, CRLF, |name + s|);
  }

  /** The body of a 206 answer, received in any pieces that leave its first delimiter line whole, is read by the
      multipart parser to its closing delimiter, as one part for each range, in order, that says the range's positions,
      the content's length and type, and holds exactly the bytes between the positions. */
  lemma BodyReadsBack(qs: seq<RangeHeader.Range>, boundary: string, contentType: string, content: string,
                      chunks: seq<string>)
    requires qs != [] && Pipeline.AllInContent(qs, |content|) && Readable(qs, boundary, contentType, content)
    requires Flatten(chunks) == Pipeline.Multipart(qs, boundary, contentType, content)
    requires StartsUnsplit(chunks, |Reader(boundary).DashBoundaryCrlf()|)
    ensures var (q, ok) := Feed(Reader(boundary), INITIAL, chunks);
            && ok && q.valid && |q.parts| == |qs|
            && forall i :: 0 <= i < |qs| ==>
                 var read := ReadPart(q.parts[i]); read.Found? && IsRange(read.value, qs[i], contentType, content)
  {
    hide PartOf, ReadPart, GoodPart, Feed, EntriesText, Pipeline.Parts, IsRange, Readable;
    var cfg, parts := Reader(boundary), PartsOf(qs, contentType, content);
    BodyIsEntries(qs, boundary, contentType, content, DASH);
    assert Pipeline.Multipart(qs, boundary, contentType, content)
        == cfg.DashBoundaryCrlf() + (EntriesText(cfg, parts, DASH) + "");
    AllGood(qs, boundary, contentType, content);
    EntriesReadBack(cfg, parts, "", chunks);
    forall i | 0 <= i < |qs|
      ensures var read := ReadPart(parts[i]); read.Found? && IsRange(read.value, qs[i], contentType, content)
    {
      PartReadsBack(qs[i], contentType, content);
    }
  }

  lemma AllGood(qs: seq<RangeHeader.Range>, boundary: string, contentType: string, content: string)
    requires Pipeline.AllInContent(qs, |content|) && Readable(qs, boundary, contentType, content)
    ensures BoundaryCharsValid(boundary) && GoodParts(Reader(boundary), PartsOf(qs, contentType, content))
  {
    hide PartOf, GoodPart;
    var parts := PartsOf(qs, contentType, content);
    forall part <- parts ensures GoodPart(Reader(boundary), part) {
      var i :| 0 <= i < |parts| && parts[i] == part;
      GoodRangePart(qs, qs[i], boundary, contentType, content);
    }
  }

  /** The same of the ranges as they were asked for: an accepted request gets, for each of them, exactly the bytes that
      it selects. */
  lemma AnswerReadsBack(rs: seq<RangeHeader.Range>, boundary: string, contentType: string, content: string,
                        chunks: seq<string>)
    requires rs != [] && forall r <- rs :: RangeHeader.Expressible(r) || r == RangeHeader.Range(-1, -1)
    requires var qs := Pipeline.ResolveAll(rs, |content|);
             && Pipeline.Acceptable(qs, |content|) && Readable(qs, boundary, contentType, content)
             && Flatten(chunks) == Pipeline.Multipart(qs, boundary, contentType, content)
    requires StartsUnsplit(chunks, |Reader(boundary).DashBoundaryCrlf()|)
    ensures var (q, ok) := Feed(Reader(boundary), INITIAL, chunks);
            && ok && q.valid && |q.parts| == |rs|
            && forall k :: 0 <= k < |rs| ==> HoldsSelected(q.parts[k], rs[k], contentType, content)
  {
    hide Pipeline.Resolve, Readable, Feed, ReadPart, Pipeline.Multipart;
    var qs := Pipeline.ResolveAll(rs, |content|);
    BodyReadsBack(qs, boundary, contentType, content, chunks);
    var q := Feed(Reader(boundary), INITIAL, chunks).0;
    forall k | 0 <= k < |rs| ensures HoldsSelected(q.parts[k], rs[k], contentType, content) {
      assert rs[k] in rs;
      Pipeline.ResolveKeepsTheBytes(rs[k], |content|);
    }
  }

  /** The part's positions are those of the bytes that the range selects, in order, and its bytes are these. */
  ghost predicate HoldsSelected(part: Part, r: RangeHeader.Range, contentType: string, content: string) {
    var read := ReadPart(part);
    && read.Found? && read.value.contentType == contentType && read.value.len == |content|
    && |read.value.bytes| == read.value.last - read.value.first + 1
    && forall i :: (Pipeline.Selects(r, |content|, i) <==> read.value.first <= i <= read.value.last)
                   && (Pipeline.Selects(r, |content|, i) ==> read.value.bytes[i - read.value.first] == content[i])
  }
}
