/** Which form items survive serialization: the condition of the multipart round trip is needed. */
module MultipartItems {
  import opened Text
  import opened Multipart
  import opened MultipartStreaming
  import opened MultipartRoundTrip
  import opened MultipartExactness
  import Splitting

  /** The items come back: the calls succeed, the last delimiter is seen, the parts are the items' lines and
      contents. */
  predicate ReadBack(cfg: Config, items: seq<Item>, chunks: seq<string>) {
    var (q, ok) := Feed(cfg, INITIAL, chunks);
    ok && q.valid && q.parts == ExpectedParts(items)
  }

  /** The pieces of the serialized items, behind a preamble that does not hold the delimiter line. */
  predicate PiecesOf(cfg: Config, items: seq<Item>, pre: string, chunks: seq<string>) {
    && Find(pre, cfg.DashBoundaryCrlf()) == |pre|
    && Flatten(chunks) == pre + (Serialized(items, cfg.boundary) + SerializedFinish(cfg.boundary))
  }

  /** Whatever the preamble and the pieces, the items come back exactly when the first delimiter line is whole. */
  ghost predicate Survive(cfg: Config, items: seq<Item>) {
    forall pre, chunks :: PiecesOf(cfg, items, pre, chunks) ==>
      (ReadBack(cfg, items, chunks) <==> LineUnsplit(chunks, |pre|, |cfg.DashBoundaryCrlf()|))
  }

  /** The round trip on all lists of items: they survive every cut if and only if none of their lines and contents can
      be confused with the framing. */
  lemma GoodItemsExactly(cfg: Config, items: seq<Item>)
    requires items != [] && Accepting(cfg) && BoundaryCharsValid(cfg.boundary)
    ensures Survive(cfg, items) <==> GoodItems(cfg, items)
  {
    hide GoodItems, ReadBack, PiecesOf, LineUnsplit;
    if GoodItems(cfg, items) {
      forall pre, chunks | PiecesOf(cfg, items, pre, chunks)
        ensures ReadBack(cfg, items, chunks) <==> LineUnsplit(chunks, |pre|, |cfg.DashBoundaryCrlf()|)
      {
        ExactlyOneCut(cfg, items, pre, chunks);
      }
    } else {
      BytewiseCut(cfg, items);
    }
  }

  lemma ExactlyOneCut(cfg: Config, items: seq<Item>, pre: string, chunks: seq<string>)
    requires items != [] && Accepting(cfg) && BoundaryCharsValid(cfg.boundary) && GoodItems(cfg, items)
    requires PiecesOf(cfg, items, pre, chunks)
    ensures ReadBack(cfg, items, chunks) <==> LineUnsplit(chunks, |pre|, |cfg.DashBoundaryCrlf()|)
  {
    RoundTripExactly(cfg, pre, items, chunks);
  }

  /** The cut that no bad item survives: behind the first delimiter line, a call for every byte. */
  lemma BytewiseCut(cfg: Config, items: seq<Item>)
    requires items != [] && Accepting(cfg) && !GoodItems(cfg, items)
    ensures !Survive(cfg, items)
  {
    assert ExpectedParts(items) != [];
    hide Feed, Serialized, SerializedFinish, EntriesText, GoodItems, ExpectedParts, Bytes, Flatten;
    var first, s := cfg.DashBoundaryCrlf(), EntriesText(cfg, ExpectedParts(items), DASH + CRLF);
    SerializedIsEntries(cfg, items);
    var chunks := [first] + Bytes(s);
    assert Flatten(chunks) == first + s by { FlattenFirst(first, Bytes(s)); FlattenBytes(s); }
    assert LineUnsplit(chunks, 0, |first|);
    assert PiecesOf(cfg, items, "", chunks) by { TooShort("", first); assert "" + (first + s) == first + s; }
    BytewiseIsGood(cfg, s);
    if ReadBack(cfg, items, chunks) {
      ExpectedAreGood(cfg, items);
    }
  }

  function Bytes(s: string): seq<string> {
    if s == "" then [] else [[s[0]]] + Bytes(s[1..])
  }

  lemma {:induction false} FlattenBytes(s: string)
    ensures Flatten(Bytes(s)) == s
    decreases |s|
  {
    if s != "" {
      FlattenBytes(s[1..]);
      FlattenFirst([s[0]], Bytes(s[1..]));
    }
  }

  // ---------------------------------------------------------------------------------------------
  // What a parser that is fed byte by byte lets through
  // ---------------------------------------------------------------------------------------------

  predicate LinesGood(cfg: Config, lines: seq<string>) {
    forall line <- lines :: GoodLine(cfg, line)
  }

  predicate Free(s: string, pat: string)
    requires 0 < |pat|
  {
    Find(s, pat) == |s|
  }

  predicate PartGood(cfg: Config, part: Part) {
    LinesGood(cfg, part.headers) && Free(part.content, cfg.CrlfDashBoundary())
  }

  predicate PartsGood(cfg: Config, parts: seq<Part>) {
    forall part <- parts :: PartGood(cfg, part)
  }

  lemma ExpectedAreGood(cfg: Config, items: seq<Item>)
    requires PartsGood(cfg, ExpectedParts(items))
    ensures GoodItems(cfg, items)
  {
    hide GoodLine;
    forall item <- items ensures GoodItem(cfg, item) {
      var i :| 0 <= i < |items| && items[i] == item;
      assert ExpectedParts(items)[i] in ExpectedParts(items);
      assert PartGood(cfg, Part(HeaderLines(item), item.content));
    }
  }

  /** In the body phase: the entry's content and the unread bytes together. */
  function Whole(p: Parser): string
    requires p.parts != []
  {
    p.parts[|p.parts| - 1].content + p.buf
  }

  /** Between two calls: what is unread is a piece of a line, of a delimiter or of an end. */
  ghost predicate Waiting(cfg: Config, p: Parser) {
    PartsGood(cfg, p.parts) && LinesGood(cfg, p.lines)
    && match p.phase
       case 0 => false
       case 1 => p.buf == ""
       case 2 => Free(p.buf, CRLF) && |p.buf| <= HEADER_MAX_LENGTH
       case 3 => p.parts != [] && Free(Whole(p), cfg.CrlfDashBoundary())
                 && (Whole(p) == p.buf || |p.buf| >= |cfg.CrlfDashBoundary()|)
       case 4 => !(CRLF <= p.buf)
  }

  lemma BytewiseIsGood(cfg: Config, s: string)
    requires Accepting(cfg)
    ensures PartsGood(cfg, Feed(cfg, INITIAL, [cfg.DashBoundaryCrlf()] + Bytes(s)).0.parts)
  {
    var first, p := cfg.DashBoundaryCrlf(), Parser(1, false, [], [], []);
    FirstDelimiter(cfg, "", "");
    assert "" + first + "" == first;
    assert p.Append("") == p && ParseCall(cfg, p, "") == (p, true);
    assert ([first] + Bytes(s))[1..] == Bytes(s);
    BytesKeepGood(cfg, p, s);
  }

  lemma {:induction false} BytesKeepGood(cfg: Config, p: Parser, s: string)
    requires Accepting(cfg) && Waiting(cfg, p)
    ensures PartsGood(cfg, Feed(cfg, p, Bytes(s)).0.parts)
    decreases |s|
  {
    hide Drain, Waiting, PartsGood;
    if s == "" {
      WaitingIsGood(cfg, p);
    } else {
      ByteKeepsGood(cfg, p, s[0]);
      var (q, ok) := ParseCall(cfg, p, [s[0]]);
      assert Bytes(s)[1..] == Bytes(s[1..]);
      if ok { BytesKeepGood(cfg, q, s[1..]); }
    }
  }

  lemma WaitingIsGood(cfg: Config, p: Parser)
    requires Waiting(cfg, p)
    ensures PartsGood(cfg, p.parts)
  {
  }

  lemma ByteKeepsGood(cfg: Config, p: Parser, c: char)
    requires Accepting(cfg) && Waiting(cfg, p)
    ensures var (q, ok) := ParseCall(cfg, p, [c]);
            PartsGood(cfg, q.parts) && (ok ==> Waiting(cfg, q))
  {
    match p.phase
    case 1 => ByteStartsEntry(cfg, p, c);
    case 2 => ByteOfHeader(cfg, p, c);
    case 3 => ByteOfBody(cfg, p, c);
    case 4 => ByteOfBoundary(cfg, p, c);
  }

  /** The call ends with its first turn, as nothing is left unread. */
  lemma OneTurn(cfg: Config, x: Parser)
    requires x.buf != [] && !OverLimit(x) && Step(cfg, x).More? && Step(cfg, x).next.buf == []
    ensures Drain(cfg, x, true) == (Step(cfg, x).next, true)
  {
  }

  lemma ByteStartsEntry(cfg: Config, p: Parser, c: char)
    requires Waiting(cfg, p) && p.phase == 1
    ensures var (q, ok) := ParseCall(cfg, p, [c]); ok && Waiting(cfg, q)
  {
    hide GoodLine, PartGood;
    TooShort([c], CRLF);
    var q := p.(phase := 2, lines := [], buf := [c]);
    assert p.Append([c]).buf == [c];
    assert Drain(cfg, q, true) == (q, true);
  }

  lemma ByteOfHeader(cfg: Config, p: Parser, c: char)
    requires Accepting(cfg) && Waiting(cfg, p) && p.phase == 2
    ensures var (q, ok) := ParseCall(cfg, p, [c]);
            PartsGood(cfg, q.parts) && (ok ==> Waiting(cfg, q))
  {
    hide PartGood, Find;
    var x := p.Append([c]);
    var pos := Find(x.buf, CRLF);
    OneMore(p.buf, c, CRLF);
    if !OverLimit(x) && pos < |x.buf| {
      assert x.buf[pos + |CRLF|..] == "" && x.buf[..pos] == p.buf[..pos];
      PartIsFree(p.buf, 0, pos, CRLF);
      EntryGood(cfg, p.parts, p.lines);
      if Step(cfg, x).More? { OneTurn(cfg, x); }
    }
  }

  lemma EntryGood(cfg: Config, parts: seq<Part>, lines: seq<string>)
    requires PartsGood(cfg, parts) && LinesGood(cfg, lines)
    ensures PartsGood(cfg, parts + [Part(lines, "")])
  {
    TooShort("", cfg.CrlfDashBoundary());
  }

  lemma ByteOfBody(cfg: Config, p: Parser, c: char)
    requires Accepting(cfg) && Waiting(cfg, p) && p.phase == 3
    ensures var (q, ok) := ParseCall(cfg, p, [c]); PartsGood(cfg, q.parts) && ok && Waiting(cfg, q)
  {
    hide PartGood, Find, PartsGood, LinesGood;
    var x, delimiter := p.Append([c]), cfg.CrlfDashBoundary();
    var w, content := Whole(p), p.parts[|p.parts| - 1].content;
    assert w + [c] == content + x.buf;
    OneMore(w, c, delimiter);
    if Find(w + [c], delimiter) == |w + [c]| {
      PartIsFree(w + [c], |content|, |w + [c]|, delimiter);
      assert (w + [c])[|content|..|w + [c]|] == x.buf;
      BodyGoesOn(cfg, x);
    } else {
      BodyIsOver(cfg, p, c);
    }
  }

  lemma BodyGoesOn(cfg: Config, x: Parser)
    requires Accepting(cfg) && PartsGood(cfg, x.parts) && LinesGood(cfg, x.lines) && x.phase == 3 && x.parts != []
    requires Free(Whole(x), cfg.CrlfDashBoundary()) && Free(x.buf, cfg.CrlfDashBoundary())
    requires Whole(x) == x.buf || |x.buf| >= |cfg.CrlfDashBoundary()|
    ensures var (q, ok) := Drain(cfg, x, true); PartsGood(cfg, q.parts) && ok && Waiting(cfg, q)
  {
    hide PartGood, Find, PartsGood, LinesGood;
    var len := |x.buf| - |cfg.CrlfDashBoundary()|;
    if len > 0 {
      var content := x.parts[|x.parts| - 1].content;
      assert content + x.buf[..len] == Whole(x)[0..|content| + len];
      PartIsFree(Whole(x), 0, |content| + len, cfg.CrlfDashBoundary());
      DeliverGood(cfg, x.parts, x.buf[..len]);
      assert content + x.buf[..len] + x.buf[len..] == Whole(x);
    }
  }

  lemma BodyIsOver(cfg: Config, p: Parser, c: char)
    requires Accepting(cfg) && Waiting(cfg, p) && p.phase == 3
    requires Find(Whole(p) + [c], cfg.CrlfDashBoundary()) == |Whole(p)| + 1 - |cfg.CrlfDashBoundary()|
    ensures var (q, ok) := ParseCall(cfg, p, [c]); PartsGood(cfg, q.parts) && ok && Waiting(cfg, q)
  {
    hide PartGood, Find, PartsGood, LinesGood;
    var x, delimiter := p.Append([c]), cfg.CrlfDashBoundary();
    var w, content := Whole(p), p.parts[|p.parts| - 1].content;
    assert w + [c] == content + x.buf;
    var pos := |x.buf| - |delimiter|;
    FoundInTail(content, x.buf, delimiter);
    assert x.buf[pos + |delimiter|..] == "";
    assert content + x.buf[..pos] == w[0..|content| + pos];
    PartIsFree(w, 0, |content| + pos, delimiter);
    DeliverGood(cfg, p.parts, x.buf[..pos]);
    assert BodyStep(cfg, x) == More(x.(parts := Deliver(p.parts, x.buf[..pos]), phase := 4, buf := ""));
    OneTurn(cfg, x);
  }

  lemma DeliverGood(cfg: Config, parts: seq<Part>, data: string)
    requires PartsGood(cfg, parts) && parts != []
    requires Free(parts[|parts| - 1].content + data, cfg.CrlfDashBoundary())
    ensures PartsGood(cfg, Deliver(parts, data))
  {
    hide LinesGood, Free;
    var i := |parts| - 1;
    assert PartGood(cfg, parts[i]);
  }

  lemma ByteOfBoundary(cfg: Config, p: Parser, c: char)
    requires Waiting(cfg, p) && p.phase == 4
    ensures var (q, ok) := ParseCall(cfg, p, [c]); PartsGood(cfg, q.parts) && ok && Waiting(cfg, q)
  {
    hide PartGood, Find, PartsGood, LinesGood;
    var x := p.Append([c]);
    assert |p.buf| >= 2 ==> x.buf[..2] == p.buf[..2];
    if CRLF <= x.buf {
      assert x.buf[|CRLF|..] == "";
    }
    if Step(cfg, x).More? { OneTurn(cfg, x); }
  }

  // ---------------------------------------------------------------------------------------------
  // Searching
  // ---------------------------------------------------------------------------------------------

  /** One more character: the text occurs at the very end or still nowhere. */
  lemma OneMore(s: string, c: char, pat: string)
    requires 0 < |pat| && Free(s, pat)
    ensures Find(s + [c], pat) == |s| + 1 || Find(s + [c], pat) == |s| + 1 - |pat|
  {
    hide OccursAt;
    var t := s + [c];
    forall j: nat | j + |pat| <= |s| ensures !OccursAt(t, j, pat) {
      OccursBefore(s, [c], j, pat);
    }
    OccursInside(t, Find(t, pat), pat);
  }

  lemma PartIsFree(s: string, i: nat, j: nat, pat: string)
    requires 0 < |pat| && Free(s, pat) && i <= j <= |s|
    ensures Free(s[i..j], pat)
  {
    var part := s[i..j];
    forall k: nat | k < |part| ensures !OccursAt(part, k, pat) {
      assert !OccursAt(s, i + k, pat);
      if k + |pat| <= |part| { SliceOfSlice(s, i, j, k, k + |pat|); }
    }
    FindIs(part, pat, |part|);
  }

  /** An occurrence at the very end, and none before, seen from a tail that holds it. */
  lemma FoundInTail(head: string, tail: string, pat: string)
    requires 0 < |pat| <= |tail| && Find(head + tail, pat) == |head| + |tail| - |pat|
    ensures Find(tail, pat) == |tail| - |pat|
  {
    hide OccursAt;
    forall j: nat | j <= |tail| - |pat| ensures OccursAt(head + tail, |head| + j, pat) <==> OccursAt(tail, j, pat) {
      OccursBehind(head, tail, |head| + j, pat);
    }
    FindIs(tail, pat, |tail| - |pat|);
  }

  // ---------------------------------------------------------------------------------------------
  // The items themselves
  // ---------------------------------------------------------------------------------------------

  /** The text behind `opening` up to the next double quote, and what is behind that; nothing without the opening. */
  function Quoted(line: string, opening: string): (r: (string, string)) {
    if !(opening <= line) then ("", line)
    else
      var rest := line[|opening|..];
      var end := Splitting.IndexOf(rest, '"');
      (rest[..end], if end < |rest| then rest[end + 1..] else "")
  }

  function ReadType(lines: seq<string>): string {
    if |lines| >= 2 && "Content-Type: " <= lines[1] then lines[1][|"Content-Type: "|..] else ""
  }

  /** The item that a part stands for, as its header lines say. */
  function ReadItem(part: Part): Item
    requires part.headers != []
  {
    var (name, behind) := Quoted(part.headers[0], "Content-Disposition: form-data; name=\"");
    var (filename, _) := Quoted(behind, "; filename=\"");
    Item(name, part.content, filename, ReadType(part.headers))
  }

  predicate NoQuotes(item: Item) {
    '"' !in item.name && '"' !in item.filename
  }

  lemma QuotedReadsBack(opening: string, value: string, behind: string)
    ensures var read := Quoted(opening + value + "\"" + behind, opening);
            if '"' in value then |read.0| < |value| else read == (value, behind)
  {
    var line, rest := opening + value + "\"" + behind, value + "\"" + behind;
    assert line == opening + rest && line[..|opening|] == opening && line[|opening|..] == rest;
    if '"' in value {
      var i :| 0 <= i < |value| && value[i] == '"';
      NotBehind(rest, i);
    } else {
      assert rest[..|value|] == value && rest[|value| + 1..] == behind;
      Splitting.FirstDelimiter(rest, |value|, '"');
    }
  }

  lemma NotBehind(s: string, i: nat)
    requires i < |s| && s[i] == '"'
    ensures Splitting.IndexOf(s, '"') <= i
  {
    var end := Splitting.IndexOf(s, '"');
    assert forall j :: 0 <= j < end ==> s[j] in s[..end];
  }

  /** A part made of an item stands for this item if and only if its name and its file name hold no double quote, which
      is printed as it is. */
  lemma ItemReadsBack(item: Item)
    ensures ReadItem(Part(HeaderLines(item), item.content)) == item <==> NoQuotes(item)
  {
    hide Quoted;
    var opening, file := "Content-Disposition: form-data; name=\"", "; filename=\"";
    var behind := if item.filename != "" then file + item.filename + "\"" else "";
    var line := HeaderLines(item)[0];
    assert line == opening + item.name + "\"" + behind;
    QuotedReadsBack(opening, item.name, behind);
    QuotedReadsBack(file, item.filename, "");
    assert behind + "" == behind;
    NothingQuoted(file);
    TypeReadsBack(item);
  }

  lemma NothingQuoted(opening: string)
    requires opening != ""
    ensures Quoted("", opening) == ("", "")
  {
  }

  lemma TypeReadsBack(item: Item)
    ensures ReadType(HeaderLines(item)) == item.contentType
  {
    var line := "Content-Type: " + item.contentType;
    assert line[..14] == "Content-Type: " && line[14..] == item.contentType;
  }

  /** The whole way: good items, behind any preamble and in any pieces that leave the first delimiter line whole, are
      read back as the items they were, each if and only if it holds no double quote. */
  lemma ItemsReadBack(cfg: Config, items: seq<Item>, pre: string, chunks: seq<string>)
    requires items != [] && Accepting(cfg) && BoundaryCharsValid(cfg.boundary) && GoodItems(cfg, items)
    requires PiecesOf(cfg, items, pre, chunks) && LineUnsplit(chunks, |pre|, |cfg.DashBoundaryCrlf()|)
    ensures var (q, ok) := Feed(cfg, INITIAL, chunks);
            && ok && q.valid && |q.parts| == |items|
            && forall i :: 0 <= i < |items| ==>
                 q.parts[i].headers != [] && (ReadItem(q.parts[i]) == items[i] <==> NoQuotes(items[i]))
  {
    hide Feed, HeaderLines, ReadItem, GoodItems;
    RoundTripExactly(cfg, pre, items, chunks);
    var parts := Feed(cfg, INITIAL, chunks).0.parts;
    forall i | 0 <= i < |items|
      ensures parts[i].headers != [] && (ReadItem(parts[i]) == items[i] <==> NoQuotes(items[i]))
    {
      ItemReadsBack(items[i]);
      HasHeader(items[i]);
    }
  }

  lemma HasHeader(item: Item)
    ensures HeaderLines(item) != []
  {
  }
}
