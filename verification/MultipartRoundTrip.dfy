/** What `serialize_multipart_formdata` prints, the parser reads back, however the bytes arrive. */
module MultipartRoundTrip {
  import opened Text
  import opened Multipart
  import opened MultipartStreaming

  datatype Item = Item(name: string, content: string, filename: string, contentType: string)

  predicate BoundaryCharsValid(boundary: string) {
    forall i :: 0 <= i < |boundary| ==> BoundaryChar(boundary[i])
  }

  predicate BoundaryChar(c: char) {
    'a' <= c <= 'z' || 'A' <= c <= 'Z' || '0' <= c <= '9' || c == '-' || c == '_'
  }

  function ItemBegin(item: Item, boundary: string): string {
    "--" + boundary + "\r\n"
    + "Content-Disposition: form-data; name=\"" + item.name + "\""
    + (if item.filename != "" then "; filename=\"" + item.filename + "\"" else "")
    + "\r\n"
    + (if item.contentType != "" then "Content-Type: " + item.contentType + "\r\n" else "")
    + "\r\n"
  }

  function ItemText(item: Item, boundary: string): string {
    ItemBegin(item, boundary) + (item.content + "\r\n")
  }

  function Serialized(items: seq<Item>, boundary: string): string {
    if items == [] then "" else ItemText(items[0], boundary) + Serialized(items[1..], boundary)
  }

  function SerializedFinish(boundary: string): string { "--" + boundary + "--\r\n" }

  lemma {:induction false} SerializedSnoc(items: seq<Item>, item: Item, boundary: string)
    ensures Serialized(items + [item], boundary) == Serialized(items, boundary) + ItemText(item, boundary)
  {
    if items != [] {
      assert (items + [item])[1..] == items[1..] + [item];
      SerializedSnoc(items[1..], item, boundary);
    }
  }

  method SerializeMultipartFormdata(items: seq<Item>, boundary: string, finish: bool) returns (body: string)
    ensures body == Serialized(items, boundary) + if finish then SerializedFinish(boundary) else ""
  {
    hide ItemBegin, SerializedFinish;
    body := "";
    for i := 0 to |items|
      invariant body == Serialized(items[..i], boundary)
    {
      body := body + ItemBegin(items[i], boundary);
      body := body + (items[i].content + "\r\n");
      assert items[..i + 1] == items[..i] + [items[i]];
      SerializedSnoc(items[..i], items[i], boundary);
    }
    assert items[..|items|] == items;
    if finish { body := body + SerializedFinish(boundary); }
  }

  /** The header lines of an item, and what the receiver should get for it. */
  function HeaderLines(item: Item): seq<string> {
    ["Content-Disposition: form-data; name=\"" + item.name + "\""
     + if item.filename != "" then "; filename=\"" + item.filename + "\"" else ""]
    + if item.contentType != "" then ["Content-Type: " + item.contentType] else []
  }

  function ExpectedParts(items: seq<Item>): seq<Part> {
    seq(|items|, i requires 0 <= i < |items| => Part(HeaderLines(items[i]), items[i].content))
  }

  /** A line the parser takes as one acceptable header line below the length limit. */
  predicate GoodLine(cfg: Config, line: string) {
    line != "" && Find(line, CRLF) == |line| && cfg.headerOk(line) && |line| < HEADER_MAX_LENGTH
  }

  /** The entry's text cannot be confused with the framing around it. */
  predicate GoodPart(cfg: Config, part: Part) {
    (forall line <- part.headers :: GoodLine(cfg, line))
    && Find(part.content, cfg.CrlfDashBoundary()) == |part.content|
  }

  predicate GoodParts(cfg: Config, parts: seq<Part>) {
    forall part <- parts :: GoodPart(cfg, part)
  }

  predicate GoodItem(cfg: Config, item: Item) {
    GoodPart(cfg, Part(HeaderLines(item), item.content))
  }

  predicate GoodItems(cfg: Config, items: seq<Item>) {
    forall item <- items :: GoodItem(cfg, item)
  }

  function LinesText(lines: seq<string>): string {
    if lines == [] then "" else lines[0] + CRLF + LinesText(lines[1..])
  }

  /** One entry as the parser meets it, from behind the delimiter line to behind the next delimiter. */
  function EntryText(cfg: Config, lines: seq<string>, content: string, rest: string): string {
    LinesText(lines) + (CRLF + (content + cfg.CrlfDashBoundary() + rest))
  }

  function EntriesText(cfg: Config, parts: seq<Part>, tail: string): string
    requires parts != []
  {
    EntryText(cfg, parts[0].headers, parts[0].content,
              if |parts| == 1 then tail else CRLF + EntriesText(cfg, parts[1..], tail))
  }

  lemma {:induction false} SerializedIsEntries(cfg: Config, items: seq<Item>)
    requires items != []
    ensures Serialized(items, cfg.boundary) + SerializedFinish(cfg.boundary)
         == cfg.DashBoundaryCrlf() + EntriesText(cfg, ExpectedParts(items), DASH + CRLF)
    decreases |items|
  {
    hide ItemText, EntryText;
    var finish := SerializedFinish(cfg.boundary);
    ExpectedFirst(items);
    var behind := if |items| == 1 then DASH + CRLF else CRLF + EntriesText(cfg, ExpectedParts(items[1..]), DASH + CRLF);
    assert Serialized(items[1..], cfg.boundary) + finish == DASH + cfg.boundary + behind by {
      if |items| > 1 {
        SerializedIsEntries(cfg, items[1..]);
        assert cfg.DashBoundaryCrlf() == DASH + cfg.boundary + CRLF;
      } else {
        assert Serialized(items[1..], cfg.boundary) == "";
      }
    }
    ItemIsEntry(cfg, items[0], behind);
    Associate(ItemText(items[0], cfg.boundary), Serialized(items[1..], cfg.boundary), finish);
  }

  lemma Associate(a: string, b: string, c: string)
    ensures a + b + c == a + (b + c)
  {
  }

  lemma ItemIsEntry(cfg: Config, item: Item, behind: string)
    ensures ItemText(item, cfg.boundary) + (DASH + cfg.boundary + behind)
         == cfg.DashBoundaryCrlf() + EntryText(cfg, HeaderLines(item), item.content, behind)
  {
    ItemBeginIsLines(cfg, item);
    var begin, framed := LinesText(HeaderLines(item)) + CRLF, item.content + cfg.CrlfDashBoundary() + behind;
    assert item.content + "\r\n" + (DASH + cfg.boundary + behind) == framed;
    assert LinesText(HeaderLines(item)) + (CRLF + framed) == begin + framed;
    assert ItemText(item, cfg.boundary) == cfg.DashBoundaryCrlf() + begin + (item.content + "\r\n");
  }

  lemma ItemBeginIsLines(cfg: Config, item: Item)
    ensures ItemBegin(item, cfg.boundary) == cfg.DashBoundaryCrlf() + (LinesText(HeaderLines(item)) + CRLF)
  {
    OneOrTwoLines(HeaderLines(item));
    hide LinesText;
  }

  lemma OneOrTwoLines(lines: seq<string>)
    requires 1 <= |lines| <= 2
    ensures LinesText(lines) == lines[0] + CRLF + if |lines| == 2 then lines[1] + CRLF else ""
  {
    if |lines| == 2 {
      assert lines[1..] == [lines[1]] && [lines[1]][1..] == [];
      assert LinesText([lines[1]]) == lines[1] + CRLF;
    } else {
      assert lines[1..] == [];
    }
  }

  /** Header lines are taken one by one. */
  lemma {:induction false} RunLines(cfg: Config, p: Parser, lines: seq<string>, rest: string)
    requires p.phase == 2 && p.buf == LinesText(lines) + rest && rest != []
    requires forall line <- lines :: GoodLine(cfg, line)
    ensures var q := p.(lines := p.lines + lines, buf := rest);
            Run(cfg, p) == Run(cfg, q) && (ShortHeaders(cfg, q) ==> ShortHeaders(cfg, p))
    decreases |lines|
  {
    hide Run, ShortHeaders;
    if lines == [] {
      assert p.buf == rest && p.lines + lines == p.lines;
    } else {
      var more := LinesText(lines[1..]) + rest;
      assert GoodLine(cfg, lines[0]) by { assert lines[0] in lines; }
      assert p.buf == lines[0] + CRLF + more;
      var q := p.(lines := p.lines + [lines[0]], buf := more);
      RunLine(cfg, p, lines[0], more);
      RunLines(cfg, q, lines[1..], rest);
      assert q.lines + lines[1..] == p.lines + lines;
    }
  }

  lemma RunLine(cfg: Config, p: Parser, line: string, more: string)
    requires p.phase == 2 && p.buf == line + CRLF + more && GoodLine(cfg, line)
    ensures var q := p.(lines := p.lines + [line], buf := more);
            Run(cfg, p) == Run(cfg, q) && (ShortHeaders(cfg, q) ==> ShortHeaders(cfg, p))
  {
    FindAtSeam(line, CRLF, more);
    assert p.buf[..|line|] == line;
    assert p.buf[|line| + |CRLF|..] == more;
    assert HeaderStep(cfg, p) == More(p.(lines := p.lines + [line], buf := more));
  }

  lemma BoundaryCannotOverlap(cfg: Config)
    requires BoundaryCharsValid(cfg.boundary)
    ensures forall k :: 0 < k < |cfg.CrlfDashBoundary()| ==> cfg.CrlfDashBoundary()[k] != '\r'
  {
    forall k | 0 < k < |cfg.CrlfDashBoundary()| ensures cfg.CrlfDashBoundary()[k] != '\r' {
      assert 4 <= k ==> BoundaryChar(cfg.boundary[k - 4]);
    }
  }

  lemma RunBody(cfg: Config, p: Parser, lines: seq<string>, content: string, rest: string)
    requires p.phase == 2 && p.buf == CRLF + (content + cfg.CrlfDashBoundary() + rest)
    requires Accepting(cfg) && BoundaryCharsValid(cfg.boundary)
    requires Find(content, cfg.CrlfDashBoundary()) == |content|
    ensures var q := Parser(4, p.valid, p.lines, rest, p.parts + [Part(p.lines, content)]);
            Run(cfg, p) == Run(cfg, q) && (ShortHeaders(cfg, q) ==> ShortHeaders(cfg, p))
  {
    var delimiter := cfg.CrlfDashBoundary();
    assert OccursAt(p.buf, 0, CRLF);
    FindIs(p.buf, CRLF, 0);
    var body := content + delimiter + rest;
    assert p.buf[|CRLF|..] == body;
    var entered := p.(phase := 3, buf := body, parts := p.parts + [Part(p.lines, "")]);
    assert HeaderStep(cfg, p) == More(entered);
    BoundaryCannotOverlap(cfg);
    FindAtSeam(content, delimiter, rest);
    assert body[..|content|] == content && body[|content| + |delimiter|..] == rest;
    DeliverToNew(p.parts, p.lines, content);
    hide Find, Deliver, OccursAt;
    assert BodyStep(cfg, entered) == More(Parser(4, p.valid, p.lines, rest, p.parts + [Part(p.lines, content)]));
  }

  lemma DeliverToNew(parts: seq<Part>, lines: seq<string>, content: string)
    ensures Deliver(parts + [Part(lines, "")], content) == parts + [Part(lines, content)]
  {
    assert "" + content == content;
  }

  lemma RunEntry(cfg: Config, p: Parser, part: Part, rest: string)
    requires p.phase == 1 && p.buf == EntryText(cfg, part.headers, part.content, rest)
    requires Accepting(cfg) && BoundaryCharsValid(cfg.boundary) && GoodPart(cfg, part)
    ensures var q := Parser(4, p.valid, part.headers, rest, p.parts + [part]);
            Run(cfg, p) == Run(cfg, q) && (ShortHeaders(cfg, q) ==> ShortHeaders(cfg, p))
  {
    var lines, content := part.headers, part.content;
    var body := CRLF + (content + cfg.CrlfDashBoundary() + rest);
    var atHeaders := p.(phase := 2, lines := []);
    RunLines(cfg, atHeaders, lines, body);
    var afterHeaders := atHeaders.(lines := lines, buf := body);
    assert [] + lines == lines;
    RunBody(cfg, afterHeaders, lines, content, rest);
  }

  /** The parser reads the entries of a text, one part each, and comes to the tail behind the last delimiter. */
  lemma {:induction false} RunEntries(cfg: Config, p: Parser, parts: seq<Part>, tail: string)
    requires parts != [] && p.phase == 1 && p.buf == EntriesText(cfg, parts, tail)
    requires Accepting(cfg) && BoundaryCharsValid(cfg.boundary) && GoodParts(cfg, parts)
    ensures var q := Parser(4, p.valid, parts[|parts| - 1].headers, tail, p.parts + parts);
            Run(cfg, p) == Run(cfg, q) && (ShortHeaders(cfg, q) ==> ShortHeaders(cfg, p))
    decreases |parts|
  {
    hide Run, ShortHeaders, EntryText, GoodPart;
    var part := parts[0];
    assert part in parts;
    if |parts| == 1 {
      RunEntry(cfg, p, part, tail);
      assert parts == [part];
    } else {
      var more := EntriesText(cfg, parts[1..], tail);
      var next := Parser(1, p.valid, part.headers, more, p.parts + [part]);
      RunEntryAndBoundary(cfg, p, part, next);
      RunEntries(cfg, next, parts[1..], tail);
      assert next.parts + parts[1..] == p.parts + parts;
    }
  }

  lemma ExpectedFirst(items: seq<Item>)
    requires items != []
    ensures var parts := ExpectedParts(items);
            parts[0] == Part(HeaderLines(items[0]), items[0].content) && parts[1..] == ExpectedParts(items[1..])
  {
  }

  lemma GoodItemsAreGoodParts(cfg: Config, items: seq<Item>)
    requires GoodItems(cfg, items)
    ensures GoodParts(cfg, ExpectedParts(items))
  {
    hide GoodPart, HeaderLines;
    forall part <- ExpectedParts(items) ensures GoodPart(cfg, part) {
      var i :| 0 <= i < |items| && ExpectedParts(items)[i] == part;
      assert GoodItem(cfg, items[i]);
    }
  }

  lemma RunEntryAndBoundary(cfg: Config, p: Parser, part: Part, next: Parser)
    requires p.phase == 1 && p.buf == EntryText(cfg, part.headers, part.content, CRLF + next.buf)
    requires Accepting(cfg) && BoundaryCharsValid(cfg.boundary) && GoodPart(cfg, part)
    requires next == Parser(1, p.valid, part.headers, next.buf, p.parts + [part])
    ensures Run(cfg, p) == Run(cfg, next) && (ShortHeaders(cfg, next) ==> ShortHeaders(cfg, p))
  {
    hide Run, ShortHeaders;
    RunEntry(cfg, p, part, CRLF + next.buf);
    PassBoundary(cfg, next);
  }

  lemma PassBoundary(cfg: Config, next: Parser)
    requires next.phase == 1
    ensures var p := next.(phase := 4, buf := CRLF + next.buf);
            Run(cfg, p) == Run(cfg, next) && (ShortHeaders(cfg, next) ==> ShortHeaders(cfg, p))
  {
    var p := next.(phase := 4, buf := CRLF + next.buf);
    assert p.buf[|CRLF|..] == next.buf;
    assert BoundaryStep(p) == More(next);
  }

  /** From `p`, the text `s` brings the closing delimiter, exactly at its last byte. */
  ghost predicate ClosesAt(cfg: Config, p: Parser, s: string, parts: seq<Part>)
  {
    && s != [] && p.phase != 0 && !p.valid
    && ShortHeaders(cfg, p.Append(s))
    && !Run(cfg, p.Append(s[..|s| - 1])).0.valid
    && Run(cfg, p.Append(s)).1
    && Closed(Run(cfg, p.Append(s)).0, parts)
  }

  ghost predicate Closed(q: Parser, parts: seq<Part>) {
    q.valid && q.phase == 4 && q.buf == [] && q.parts == parts
  }

  lemma EntriesClose(cfg: Config, parts: seq<Part>)
    requires parts != [] && Accepting(cfg) && BoundaryCharsValid(cfg.boundary) && GoodParts(cfg, parts)
    ensures ClosesAt(cfg, Parser(1, false, [], [], []), EntriesText(cfg, parts, DASH), parts)
  {
    var p, s := Parser(1, false, [], [], []), EntriesText(cfg, parts, DASH);
    EntriesTextSplits(cfg, parts, "-", "-");
    assert DASH == "-" + "-";
    assert s[..|s| - 1] == EntriesText(cfg, parts, "-");
    assert p.Append(s).buf == s && p.Append(s[..|s| - 1]).buf == s[..|s| - 1];
    RunEntries(cfg, p.Append(s), parts, DASH);
    RunEntries(cfg, p.Append(s[..|s| - 1]), parts, "-");
    assert [] + parts == parts;
    ClosingDash(cfg, parts[|parts| - 1].headers, parts);
  }

  lemma ClosingDash(cfg: Config, lines: seq<string>, parts: seq<Part>)
    ensures Run(cfg, Parser(4, false, lines, "-", parts)) == (Parser(4, false, lines, "-", parts), true)
    ensures Run(cfg, Parser(4, false, lines, DASH, parts)) == (Parser(4, true, lines, [], parts), true)
    ensures ShortHeaders(cfg, Parser(4, false, lines, DASH, parts))
  {
    assert DASH[0] != CRLF[0] && DASH <= DASH;
    assert BoundaryStep(Parser(4, false, lines, DASH, parts)) == More(Parser(4, true, lines, [], parts));
  }

  lemma {:induction false} EntriesTextSplits(cfg: Config, parts: seq<Part>, a: string, b: string)
    requires parts != []
    ensures EntriesText(cfg, parts, a + b) == EntriesText(cfg, parts, a) + b
    decreases |parts|
  {
    if |parts| > 1 {
      EntriesTextSplits(cfg, parts[1..], a, b);
      EntryTextSplits(cfg, parts[0], CRLF + EntriesText(cfg, parts[1..], a), b);
      Associate(CRLF, EntriesText(cfg, parts[1..], a), b);
    } else {
      EntryTextSplits(cfg, parts[0], a, b);
    }
  }

  lemma EntryTextSplits(cfg: Config, part: Part, a: string, b: string)
    ensures EntryText(cfg, part.headers, part.content, a + b) == EntryText(cfg, part.headers, part.content, a) + b
  {
    var before := LinesText(part.headers);
    var body := part.content + cfg.CrlfDashBoundary();
    assert before + (CRLF + (body + (a + b))) == before + (CRLF + (body + a)) + b;
  }

  /** A call with only part of the closing text leaves a state that the rest of it closes. */
  lemma PieceBeforeClosing(cfg: Config, p: Parser, c: string, s: string, parts: seq<Part>)
    requires Accepting(cfg) && s != [] && ClosesAt(cfg, p, c + s, parts)
    ensures ParseCall(cfg, p, c).1
    ensures ClosesAt(cfg, ParseCall(cfg, p, c).0, s, parts)
  {
    hide Run, ShortHeaders, Drain;
    var pc, less := p.Append(c), s[..|s| - 1];
    assert p.Append(c + s) == pc.Append(s) by { assert p.buf + (c + s) == p.buf + c + s; }
    assert p.Append((c + s)[..|c + s| - 1]) == pc.Append(less) by {
      assert (c + s)[..|c + s| - 1] == c + less;
      assert p.buf + (c + less) == p.buf + c + less;
    }
    PieceIsOpen(cfg, pc, less);
    ShortHeadersOfPieces(cfg, pc, s);
    LimitNotReached(cfg, pc, true);
    PhaseStaysPositive(cfg, pc, true);
    RunResumes(cfg, pc, s);
    RunResumes(cfg, pc, less);
  }

  lemma PieceIsOpen(cfg: Config, p: Parser, less: string)
    requires Accepting(cfg) && p.phase != 0 && !p.valid && !Run(cfg, p.Append(less)).0.valid
    ensures !Run(cfg, p).0.valid
  {
    hide Run, ShortHeaders;
    if Run(cfg, p).0.valid {
      if !Run(cfg, p).1 { FailureIsInvalid(cfg, p); }
      ClosingDropsTheRest(cfg, p, less);
    }
  }

  /** The call that brings the closing delimiter drops what follows it in the same piece. */
  lemma PieceWithClosing(cfg: Config, p: Parser, s: string, e: string, parts: seq<Part>)
    requires Accepting(cfg) && ClosesAt(cfg, p, s, parts)
    ensures ParseCall(cfg, p, s + e).1 && Closed(ParseCall(cfg, p, s + e).0, parts)
  {
    hide Run, ShortHeaders, Drain;
    var ps := p.Append(s);
    ClosingDropsTheRest(cfg, ps, e);
    LimitNotReached(cfg, ps.Append(e), true);
    assert p.Append(s + e) == ps.Append(e) by { assert p.buf + (s + e) == p.buf + s + e; }
  }

  /** After the closing delimiter: the final CRLF may still be arriving. */
  ghost predicate Epilogue(p: Parser, rest: string, parts: seq<Part>) {
    && p.valid && p.parts == parts
    && if p.phase == 1 then p.buf == [] && rest == []
       else p.phase == 4 && |p.buf| < |CRLF| && p.buf + rest in {CRLF, CRLF[1..], []}
  }

  lemma {:induction false} FeedEpilogue(cfg: Config, p: Parser, chunks: seq<string>, parts: seq<Part>)
    requires Epilogue(p, Flatten(chunks), parts)
    ensures var (q, ok) := Feed(cfg, p, chunks); ok && q.valid && q.parts == parts
    decreases |chunks|
  {
    if chunks != [] {
      var c, rest := chunks[0], Flatten(chunks[1..]);
      assert p.buf + (c + rest) == p.buf + c + rest;
      EpilogueCall(cfg, p, c, rest, parts);
      FeedEpilogue(cfg, ParseCall(cfg, p, c).0, chunks[1..], parts);
    }
  }

  lemma EpilogueCall(cfg: Config, p: Parser, c: string, rest: string, parts: seq<Part>)
    requires Epilogue(p, c + rest, parts)
    ensures ParseCall(cfg, p, c).1 && Epilogue(ParseCall(cfg, p, c).0, rest, parts)
  {
    var pc := p.Append(c);
    assert p.buf + (c + rest) == pc.buf + rest;
    if p.phase == 4 && |pc.buf| >= |CRLF| {
      assert pc.buf + rest == CRLF;
      assert pc.buf == CRLF && rest == [];
      assert CRLF <= pc.buf && pc.buf[|CRLF|..] == [];
      var q := pc.(phase := 1, buf := []);
      assert BoundaryStep(pc) == More(q);
      assert Drain(cfg, q, true) == (q, true);
    }
  }

  /** Any pieces of a text that brings the closing delimiter, with or without a CRLF behind it. */
  lemma {:induction false} FeedUntilClosed(cfg: Config, p: Parser, chunks: seq<string>, s: string, end: string,
                                           parts: seq<Part>)
    requires Accepting(cfg) && ClosesAt(cfg, p, s, parts) && Flatten(chunks) == s + end && (end == CRLF || end == "")
    ensures var (q, ok) := Feed(cfg, p, chunks); ok && q.valid && q.parts == parts
    decreases |chunks|
  {
    hide Run, ShortHeaders, Drain;
    var c, rest := chunks[0], Flatten(chunks[1..]);
    assert c + rest == s + end;
    if |c| < |s| {
      SplitTwice(c, rest, s, end);
      PieceBeforeClosing(cfg, p, c, s[|c|..], parts);
      FeedUntilClosed(cfg, ParseCall(cfg, p, c).0, chunks[1..], s[|c|..], end, parts);
    } else {
      var e := c[|s|..];
      SplitTwice(s, end, c, rest);
      PieceWithClosing(cfg, p, s, e, parts);
      assert [] + rest == end[|e|..];
      FeedEpilogue(cfg, ParseCall(cfg, p, c).0, chunks[1..], parts);
    }
  }

  /** The `n` bytes from `at` on arrive unsplit: the piece that begins them ends with or behind them. */
  predicate LineUnsplit(chunks: seq<string>, at: nat, n: nat)
    decreases |chunks|
  {
    chunks != []
    && if |chunks[0]| <= at then LineUnsplit(chunks[1..], at - |chunks[0]|, n) else |chunks[0]| >= at + n
  }

  /** The first delimiter line, `n` bytes, arrives unsplit: in the first piece that is not empty. */
  predicate StartsUnsplit(chunks: seq<string>, n: nat) {
    LineUnsplit(chunks, 0, n)
  }

  /** Any good entries, in any pieces that leave the first delimiter line whole, are read as exactly their header lines
      and contents, in order, and the parser ends valid. */
  lemma {:induction false} EntriesReadBack(cfg: Config, parts: seq<Part>, end: string, chunks: seq<string>)
    requires parts != [] && Accepting(cfg) && BoundaryCharsValid(cfg.boundary) && GoodParts(cfg, parts)
    requires Flatten(chunks) == cfg.DashBoundaryCrlf() + (EntriesText(cfg, parts, DASH) + end)
    requires end == CRLF || end == ""
    requires StartsUnsplit(chunks, |cfg.DashBoundaryCrlf()|)
    ensures var (q, ok) := Feed(cfg, INITIAL, chunks); ok && q.valid && q.parts == parts
    decreases |chunks|
  {
    hide ParseCall, EntriesText, GoodPart;
    var delimiter, s := cfg.DashBoundaryCrlf(), EntriesText(cfg, parts, DASH);
    if chunks[0] == [] {
      NothingBrought(cfg);
      EntriesReadBack(cfg, parts, end, chunks[1..]);
    } else {
      var c, rest := chunks[0], chunks[1..];
      assert c + Flatten(rest) == delimiter + (s + end);
      var first := c[|delimiter|..];
      SplitTwice(delimiter, s + end, c, Flatten(rest));
      var p := Parser(1, false, [], [], []);
      FirstDelimiter(cfg, "", first);
      assert "" + delimiter + first == c;
      assert ([first] + rest)[1..] == rest;
      assert Feed(cfg, INITIAL, chunks) == Feed(cfg, p, [first] + rest);
      EntriesClose(cfg, parts);
      FeedUntilClosed(cfg, p, [first] + rest, s, end, parts);
    }
  }

  /** Round trip: the serialized items, in any pieces that leave the first delimiter line whole, are
      read back as exactly their header lines and contents, in order, and the parser ends valid. */
  lemma RoundTrip(cfg: Config, items: seq<Item>, chunks: seq<string>)
    requires items != [] && Accepting(cfg) && BoundaryCharsValid(cfg.boundary) && GoodItems(cfg, items)
    requires Flatten(chunks) == Serialized(items, cfg.boundary) + SerializedFinish(cfg.boundary)
    requires StartsUnsplit(chunks, |cfg.DashBoundaryCrlf()|)
    ensures var (q, ok) := Feed(cfg, INITIAL, chunks); ok && q.valid && q.parts == ExpectedParts(items)
  {
    hide Feed, EntriesText, Serialized, GoodItems, GoodParts;
    SerializedIsEntries(cfg, items);
    EntriesTextSplits(cfg, ExpectedParts(items), DASH, CRLF);
    GoodItemsAreGoodParts(cfg, items);
    EntriesReadBack(cfg, ExpectedParts(items), CRLF, chunks);
  }

  lemma NothingBrought(cfg: Config)
    ensures ParseCall(cfg, INITIAL, []) == (INITIAL, true)
  {
  }

  /** A call that holds the delimiter line does, for every receiver, what a parser that stands behind this line does
      with the rest of the call: a preamble in front of the line is skipped. */
  lemma FirstDelimiter(cfg: Config, pre: string, first: string)
    requires var delimiter := cfg.DashBoundaryCrlf(); pre == "" || Find(pre + delimiter + first, delimiter) == |pre|
    ensures ParseCall(cfg, INITIAL, pre + cfg.DashBoundaryCrlf() + first)
         == ParseCall(cfg, Parser(1, false, [], [], []), first)
  {
    hide Drain, Find;
    var delimiter := cfg.DashBoundaryCrlf();
    var p, q := INITIAL.Append(pre + delimiter + first), Parser(1, false, [], first, []);
    assert p.buf == pre + delimiter + first;
    if pre == "" {
      assert OccursAt(p.buf, 0, delimiter);
      FindIs(p.buf, delimiter, 0);
    }
    assert p.buf[|pre|..] == delimiter + first && (delimiter + first)[|delimiter|..] == first;
    assert InitialStep(cfg, p) == More(q);
    FirstTurn(cfg, p, q);
    assert [] + first == first && Parser(1, false, [], [], []).Append(first) == q;
  }

  lemma FirstTurn(cfg: Config, p: Parser, q: Parser)
    requires p.phase == 0 && p.buf != [] && Step(cfg, p) == More(q)
    ensures Drain(cfg, p, true) == Drain(cfg, q, true)
  {
  }

  /** Before the first delimiter line every call without a whole one is forgotten entirely. */
  lemma {:induction false} LostWithoutDelimiter(cfg: Config, chunks: seq<string>)
    requires Find(Flatten(chunks), cfg.DashBoundaryCrlf()) == |Flatten(chunks)|
    ensures Feed(cfg, INITIAL, chunks) == (INITIAL, true)
    decreases |chunks|
  {
    if chunks != [] {
      var c, rest := chunks[0], Flatten(chunks[1..]);
      NotInParts(c, rest, cfg.DashBoundaryCrlf());
      CallWithoutDelimiter(cfg, c);
      LostWithoutDelimiter(cfg, chunks[1..]);
    }
  }

  lemma CallWithoutDelimiter(cfg: Config, c: string)
    requires Find(c, cfg.DashBoundaryCrlf()) == |c|
    ensures ParseCall(cfg, INITIAL, c) == (INITIAL, true)
  {
    assert INITIAL.Append(c).buf == c;
    if c != [] {
      assert c[|c|..] == [];
      assert InitialStep(cfg, INITIAL.Append(c)) == Stop(INITIAL, true);
    }
  }

  lemma NotInParts(a: string, b: string, pat: string)
    requires 0 < |pat| && Find(a + b, pat) == |a + b|
    ensures Find(a, pat) == |a| && Find(b, pat) == |b|
  {
    forall j: nat ensures !OccursAt(a, j, pat) && !OccursAt(b, j, pat) {
      assert j < |a + b| ==> !OccursAt(a + b, j, pat);
      assert |a| + j < |a + b| ==> !OccursAt(a + b, |a| + j, pat);
      if j + |pat| <= |a| { assert (a + b)[j..j + |pat|] == a[j..j + |pat|]; }
      if j + |pat| <= |b| { assert (a + b)[|a| + j..|a| + j + |pat|] == b[j..j + |pat|]; }
    }
  }

  lemma WholeLineTaken(cfg: Config, p: Parser, line: string)
    requires p.phase == 2 && p.buf == [] && 0 < |line| <= HEADER_MAX_LENGTH
    requires Find(line, CRLF) == |line| && cfg.headerOk(line)
    ensures ParseCall(cfg, p, line + CRLF) == (p.(lines := p.lines + [line]), true)
  {
    hide Find;
    FindAtSeam(line, CRLF, []);
    var whole := p.Append(line + CRLF);
    assert whole.buf == line + CRLF + [];
    assert whole.buf[..|line|] == line && whole.buf[|line| + |CRLF|..] == [];
    var q := p.(lines := p.lines + [line]);
    assert HeaderStep(cfg, whole) == More(q);
    assert Drain(cfg, q, false) == (q, true);
  }

  lemma NoCrlfYet(line: string)
    requires Find(line, CRLF) == |line|
    ensures Find(line + "\r", CRLF) == |line| + 1
  {
    var cut := line + "\r";
    forall j: nat | j < |cut| ensures !OccursAt(cut, j, CRLF) {
      assert j < |line| ==> !OccursAt(line, j, CRLF);
      if j + 2 <= |line| { assert cut[j..j + 2] == line[j..j + 2]; }
      if j + 2 == |cut| { assert cut[j..j + 2][1] == '\r'; }
    }
    FindIs(cut, CRLF, |cut|);
  }
}
