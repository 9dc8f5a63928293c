/** The exact half of the multipart round trip: a parser that misses the first delimiter line never gets all items,
    because what is left of the text is too short for them. */
module MultipartExactness {
  import opened Text
  import opened Multipart
  import opened MultipartStreaming
  import opened MultipartRoundTrip

  /** The bytes an entry takes: its header lines, the empty line, its content, the delimiter behind it and that
      delimiter's CRLF. */
  function EntrySize(cfg: Config, part: Part): int {
    |LinesText(part.headers)| + |CRLF| + |part.content| + |cfg.CrlfDashBoundary()| + |CRLF|
  }

  function EntriesSize(cfg: Config, parts: seq<Part>): int {
    if parts == [] then 0 else EntriesSize(cfg, parts[..|parts| - 1]) + EntrySize(cfg, parts[|parts| - 1])
  }

  /** The least number of bytes with which a parser gets into the state, starting with a delimiter line. */
  function Used(cfg: Config, p: Parser): int {
    if p.phase == 0 then 0
    else
      |cfg.DashBoundaryCrlf()| + EntriesSize(cfg, p.parts)
      + (if p.phase == 2 then |LinesText(p.lines)| else 0)
      + (if p.valid then |DASH| else 0)
      - (if p.phase == 3 then |cfg.CrlfDashBoundary()| + |CRLF| else if p.phase == 4 then |CRLF| else 0)
  }

  lemma {:induction false} LinesTextSnoc(lines: seq<string>, line: string)
    ensures LinesText(lines + [line]) == LinesText(lines) + (line + CRLF)
  {
    if lines == [] {
      assert (lines + [line])[1..] == [] && "" + (line + CRLF) == line + CRLF + "";
    } else {
      assert (lines + [line])[1..] == lines[1..] + [line];
      LinesTextSnoc(lines[1..], line);
      assert lines[0] + CRLF + (LinesText(lines[1..]) + (line + CRLF))
          == lines[0] + CRLF + LinesText(lines[1..]) + (line + CRLF);
    }
  }

  lemma EntriesSnoc(cfg: Config, parts: seq<Part>, part: Part)
    ensures EntriesSize(cfg, parts + [part]) == EntriesSize(cfg, parts) + EntrySize(cfg, part)
  {
    assert (parts + [part])[..|parts|] == parts;
  }

  lemma DeliveredSize(cfg: Config, parts: seq<Part>, data: string)
    ensures EntriesSize(cfg, Deliver(parts, data)) <= EntriesSize(cfg, parts) + |data|
  {
    if parts != [] {
      var n := |parts| - 1;
      assert Deliver(parts, data)[..n] == parts[..n];
    }
  }

  /** No step of the loop makes more of the bytes than there are. */
  lemma StepUses(cfg: Config, p: Parser)
    requires p.phase != 0 && p.buf != []
    ensures var o := Step(cfg, p);
            match o
            case More(q) => q.phase != 0 && Used(cfg, q) + |q.buf| <= Used(cfg, p) + |p.buf|
            case Stop(q, ok) => ok ==> q.phase != 0 && Used(cfg, q) + |q.buf| <= Used(cfg, p) + |p.buf|
  {
    hide Find, Deliver, LinesText, EntriesSize;
    match p.phase
    case 1 => assert |LinesText([])| == 0 by { NoLines(); }
    case 2 =>
      var pos := Find(p.buf, CRLF);
      if pos < |p.buf| {
        EntriesSnoc(cfg, p.parts, Part(p.lines, []));
        LinesTextSnoc(p.lines, p.buf[..pos]);
      }
    case 3 =>
      var pos := Find(p.buf, cfg.CrlfDashBoundary());
      DeliveredSize(cfg, p.parts, p.buf[..pos]);
      if |cfg.CrlfDashBoundary()| <= |p.buf| {
        DeliveredSize(cfg, p.parts, p.buf[..|p.buf| - |cfg.CrlfDashBoundary()|]);
      }
    case 4 =>
  }

  lemma NoLines()
    ensures LinesText([]) == ""
  {
  }

  lemma {:induction false} DrainUses(cfg: Config, p: Parser, limited: bool)
    requires p.phase != 0
    ensures var (q, ok) := Drain(cfg, p, limited);
            ok ==> q.phase != 0 && Used(cfg, q) + |q.buf| <= Used(cfg, p) + |p.buf|
    decreases |p.buf|, if p.phase == 1 then 1 else 0
  {
    hide Used, Step;
    if p.buf != [] {
      StepUses(cfg, p);
      if !(limited && OverLimit(p)) && Step(cfg, p).More? {
        DrainUses(cfg, Step(cfg, p).next, p.phase != 2);
      }
    }
  }

  lemma {:induction false} FeedUses(cfg: Config, p: Parser, chunks: seq<string>)
    requires p.phase != 0
    ensures var (q, ok) := Feed(cfg, p, chunks);
            ok ==> q.phase != 0 && Used(cfg, q) + |q.buf| <= Used(cfg, p) + |p.buf| + |Flatten(chunks)|
    decreases |chunks|
  {
    hide Drain;
    if chunks != [] {
      DrainUses(cfg, p.Append(chunks[0]), true);
      assert Used(cfg, p.Append(chunks[0])) == Used(cfg, p);
      var (q, ok) := ParseCall(cfg, p, chunks[0]);
      if ok { FeedUses(cfg, q, chunks[1..]); }
    }
  }

  /** A fresh parser either finds no delimiter line or starts at one of them; everything before that is lost. */
  lemma {:induction false} StartsSomewhere(cfg: Config, chunks: seq<string>) returns (at: nat)
    ensures var (q, ok) := Feed(cfg, INITIAL, chunks);
            ok && q != INITIAL ==>
              && q.phase != 0
              && OccursAt(Flatten(chunks), at, cfg.DashBoundaryCrlf())
              && Used(cfg, q) + |q.buf| + at <= |Flatten(chunks)|
    decreases |chunks|
  {
    hide Used, Drain, Step;
    at := 0;
    if chunks != [] {
      var c, d := chunks[0], cfg.DashBoundaryCrlf();
      if Find(c, d) == |c| {
        CallWithoutDelimiter(cfg, c);
        at := StartsSomewhere(cfg, chunks[1..]);
        OccursLater(c, Flatten(chunks[1..]), at, d);
        at := |c| + at;
      } else {
        at := Find(c, d);
        StartsHere(cfg, c, chunks[1..]);
        assert Flatten(chunks)[at..at + |d|] == c[at..at + |d|];
      }
    }
  }

  lemma OccursLater(a: string, b: string, at: nat, pat: string)
    ensures OccursAt(b, at, pat) ==> OccursAt(a + b, |a| + at, pat)
  {
    if OccursAt(b, at, pat) { assert (a + b)[|a| + at..|a| + at + |pat|] == b[at..at + |pat|]; }
  }

  lemma StartsHere(cfg: Config, c: string, rest: seq<string>)
    requires Find(c, cfg.DashBoundaryCrlf()) < |c|
    ensures var (q, ok) := Feed(cfg, INITIAL, [c] + rest);
            ok ==> q.phase != 0 &&
                   Used(cfg, q) + |q.buf| + Find(c, cfg.DashBoundaryCrlf()) <= |c| + |Flatten(rest)|
  {
    hide Find, Flatten, EntriesSize;
    var d := cfg.DashBoundaryCrlf();
    var at := Find(c, d);
    var p := INITIAL.Append(c);
    assert p.buf == c;
    var q := Parser(1, false, [], c[at..][|d|..], []);
    assert d <= c[at..] by { assert c[at..at + |d|] == c[at..][..|d|]; }
    assert InitialStep(cfg, p) == More(q);
    assert EntriesSize(cfg, []) == 0 by { NoEntries(cfg); }
    assert Used(cfg, q) == |d|;
    DrainUses(cfg, q, true);
    assert ([c] + rest)[1..] == rest;
    assert ParseCall(cfg, INITIAL, c) == Drain(cfg, q, true);
    var (r, ok) := Drain(cfg, q, true);
    if ok { FeedUses(cfg, r, rest); }
  }

  lemma NoEntries(cfg: Config)
    ensures EntriesSize(cfg, []) == 0
  {
  }

  // ---------------------------------------------------------------------------------------------
  // The serialized text
  // ---------------------------------------------------------------------------------------------

  lemma ItemSize(cfg: Config, item: Item)
    ensures |ItemText(item, cfg.boundary)| == EntrySize(cfg, Part(HeaderLines(item), item.content))
  {
    ItemBeginIsLines(cfg, item);
    hide LinesText, HeaderLines, ItemBegin;
  }

  lemma {:induction false} SerializedSize(cfg: Config, items: seq<Item>)
    ensures |Serialized(items, cfg.boundary)| == EntriesSize(cfg, ExpectedParts(items))
    decreases |items|
  {
    hide ItemText, EntrySize;
    if items == [] {
      assert ExpectedParts(items) == [];
    } else {
      var n := |items| - 1;
      assert items == items[..n] + [items[n]];
      SerializedSnoc(items[..n], items[n], cfg.boundary);
      ItemSize(cfg, items[n]);
      SerializedSize(cfg, items[..n]);
      assert ExpectedParts(items)[..n] == ExpectedParts(items[..n]);
    }
  }

  /** The delimiter line comes again only behind the first item's first header characters. */
  lemma NextDelimiterIsLater(cfg: Config, items: seq<Item>, at: nat)
    requires items != [] && BoundaryCharsValid(cfg.boundary) && at > 0
    requires OccursAt(Serialized(items, cfg.boundary) + SerializedFinish(cfg.boundary), at, cfg.DashBoundaryCrlf())
    ensures at >= |cfg.DashBoundaryCrlf()| + 3
  {
    TextStart(cfg, items);
    if at < |cfg.DashBoundaryCrlf()| + 3 {
      NotNearTheStart(cfg, Serialized(items, cfg.boundary) + SerializedFinish(cfg.boundary), at);
      assert false;
    }
  }

  lemma NotNearTheStart(cfg: Config, text: string, at: nat)
    requires BoundaryCharsValid(cfg.boundary) && cfg.DashBoundaryCrlf() + "Content" <= text
    requires 0 < at < |cfg.DashBoundaryCrlf()| + 3
    ensures !OccursAt(text, at, cfg.DashBoundaryCrlf())
  {
    var d := cfg.DashBoundaryCrlf();
    var start := d + "Content";
    assert text[..|start|] == start;
    assert forall k :: 0 <= k < |start| ==> text[k] == start[k];
    if at < |d| {
      LineFeedOnlyLast(cfg, |d| - 1 - at);
      DiffersAt(text, at, d, |d| - 1 - at);
    } else {
      assert start[at] == "Content"[at - |d|];
      DiffersAt(text, at, d, 0);
    }
  }

  lemma DiffersAt(text: string, at: nat, pat: string, k: nat)
    requires k < |pat| && at + k < |text| && text[at + k] != pat[k]
    ensures !OccursAt(text, at, pat)
  {
    assert forall s :: at + |pat| <= |text| && s == text[at..at + |pat|] ==> s[k] == text[at + k];
  }

  lemma LineFeedOnlyLast(cfg: Config, k: nat)
    requires BoundaryCharsValid(cfg.boundary) && k < |cfg.DashBoundaryCrlf()| - 1
    ensures cfg.DashBoundaryCrlf()[k] != '\n' == cfg.DashBoundaryCrlf()[|cfg.DashBoundaryCrlf()| - 1]
  {
    var d := cfg.DashBoundaryCrlf();
    assert 2 <= k < 2 + |cfg.boundary| ==> d[k] == cfg.boundary[k - 2] && BoundaryChar(cfg.boundary[k - 2]);
  }

  lemma TextStart(cfg: Config, items: seq<Item>)
    requires items != []
    ensures var start, text := cfg.DashBoundaryCrlf() + "Content",
                               Serialized(items, cfg.boundary) + SerializedFinish(cfg.boundary);
            start <= text
  {
    var b := cfg.boundary;
    var start := cfg.DashBoundaryCrlf() + "Content";
    var line := "--" + b + "\r\n" + "Content-Disposition: form-data; name=\"";
    assert line[..|start|] == start;
    assert line <= ItemBegin(items[0], b);
    assert ItemBegin(items[0], b) <= ItemText(items[0], b) <= Serialized(items, b);
  }

  lemma SplitIsNotReadBack(cfg: Config, items: seq<Item>, c: string, rest: seq<string>)
    requires items != [] && BoundaryCharsValid(cfg.boundary)
    requires c + Flatten(rest) == Serialized(items, cfg.boundary) + SerializedFinish(cfg.boundary)
    requires 0 < |c| < |cfg.DashBoundaryCrlf()|
    ensures var (q, ok) := Feed(cfg, INITIAL, [c] + rest);
            !(ok && q.valid && q.parts == ExpectedParts(items))
  {
    hide Drain, Step, Serialized, EntriesSize, ExpectedParts;
    TooShort(c, cfg.DashBoundaryCrlf());
    CallWithoutDelimiter(cfg, c);
    assert ([c] + rest)[1..] == rest;
    var (q, ok) := Feed(cfg, INITIAL, rest);
    assert Feed(cfg, INITIAL, [c] + rest) == (q, ok);
    if ok && q.valid {
      var at := StartsSomewhere(cfg, rest);
      OccursLater(c, Flatten(rest), at, cfg.DashBoundaryCrlf());
      NextDelimiterIsLater(cfg, items, |c| + at);
      SerializedSize(cfg, items);
    }
  }

  lemma TooShort(c: string, pat: string)
    requires |c| < |pat|
    ensures Find(c, pat) == |c|
  {
    FindIs(c, pat, |c|);
  }

  // ---------------------------------------------------------------------------------------------
  // Text before the first delimiter line
  // ---------------------------------------------------------------------------------------------

  /** A preamble changes nothing, for every receiver: a call with one in front of the first delimiter line leaves the
      same state, unread bytes, parts and answer as the call without it. */
  lemma PreambleIsDropped(cfg: Config, pre: string, s: string)
    requires Find(pre + cfg.DashBoundaryCrlf() + s, cfg.DashBoundaryCrlf()) == |pre|
    ensures ParseCall(cfg, INITIAL, pre + cfg.DashBoundaryCrlf() + s)
         == ParseCall(cfg, INITIAL, cfg.DashBoundaryCrlf() + s)
  {
    FirstDelimiter(cfg, pre, s);
    FirstDelimiter(cfg, "", s);
    assert "" + cfg.DashBoundaryCrlf() + s == cfg.DashBoundaryCrlf() + s;
  }

  /** Round trip, exactly: the serialized items, behind any preamble that does not hold the delimiter line, are read
      back if and only if the pieces leave the first delimiter line whole. */
  lemma {:induction false} RoundTripExactly(cfg: Config, pre: string, items: seq<Item>, chunks: seq<string>)
    requires items != [] && Accepting(cfg) && BoundaryCharsValid(cfg.boundary) && GoodItems(cfg, items)
    requires Find(pre, cfg.DashBoundaryCrlf()) == |pre|
    requires Flatten(chunks) == pre + (Serialized(items, cfg.boundary) + SerializedFinish(cfg.boundary))
    ensures var (q, ok) := Feed(cfg, INITIAL, chunks);
            (ok && q.valid && q.parts == ExpectedParts(items))
            <==> LineUnsplit(chunks, |pre|, |cfg.DashBoundaryCrlf()|)
    decreases |chunks|
  {
    hide ParseCall, Serialized, SerializedFinish, GoodItems, ExpectedParts, Find;
    var d, text := cfg.DashBoundaryCrlf(), Serialized(items, cfg.boundary) + SerializedFinish(cfg.boundary);
    var behind := TextIsLine(cfg, items);
    assert Flatten(chunks) != [];
    var c, rest := chunks[0], chunks[1..];
    if |c| <= |pre| {
      SplitTwice(c, Flatten(rest), pre, text);
      NotInParts(c, pre[|c|..], d);
      CallWithoutDelimiter(cfg, c);
      RoundTripExactly(cfg, pre[|c|..], items, rest);
    } else {
      var e := c[|pre|..];
      SplitTwice(pre, text, c, Flatten(rest));
      assert e + Flatten(rest) == text;
      assert chunks == [c] + rest && ([e] + rest)[1..] == rest && ([c] + rest)[1..] == rest;
      if |e| < |d| {
        CutLineIsLost(cfg, pre, items, e, rest);
        SplitIsNotReadBack(cfg, items, e, rest);
      } else {
        CallWithPreamble(cfg, pre, items, e, rest);
        RoundTrip(cfg, items, [e] + rest);
      }
    }
  }

  lemma LineIsFirst(cfg: Config, pre: string, rest: string)
    requires BoundaryCharsValid(cfg.boundary) && Find(pre, cfg.DashBoundaryCrlf()) == |pre|
    ensures Find(pre + cfg.DashBoundaryCrlf() + rest, cfg.DashBoundaryCrlf()) == |pre|
  {
    forall k | 0 <= k < |cfg.DashBoundaryCrlf()| - 1
      ensures cfg.DashBoundaryCrlf()[k] != cfg.DashBoundaryCrlf()[|cfg.DashBoundaryCrlf()| - 1]
    {
      LineFeedOnlyLast(cfg, k);
    }
    FindAtSeamByLast(pre, cfg.DashBoundaryCrlf(), rest);
  }

  lemma TextIsLine(cfg: Config, items: seq<Item>) returns (behind: string)
    requires items != []
    ensures Serialized(items, cfg.boundary) + SerializedFinish(cfg.boundary) == cfg.DashBoundaryCrlf() + behind
  {
    SerializedIsEntries(cfg, items);
    behind := EntriesText(cfg, ExpectedParts(items), DASH + CRLF);
  }

  /** A call that ends inside the delimiter line is forgotten, the preamble and the start of the line with it. */
  lemma CutLineIsLost(cfg: Config, pre: string, items: seq<Item>, e: string, rest: seq<string>)
    requires items != [] && BoundaryCharsValid(cfg.boundary) && Find(pre, cfg.DashBoundaryCrlf()) == |pre|
    requires e + Flatten(rest) == Serialized(items, cfg.boundary) + SerializedFinish(cfg.boundary)
    requires |e| < |cfg.DashBoundaryCrlf()|
    ensures Feed(cfg, INITIAL, [pre + e] + rest) == Feed(cfg, INITIAL, [e] + rest)
  {
    hide Drain, Serialized, SerializedFinish, Find;
    var d := cfg.DashBoundaryCrlf();
    var behind := TextIsLine(cfg, items);
    SplitTwice(e, Flatten(rest), d, behind);
    LineIsFirst(cfg, pre, "");
    assert pre + d + "" == pre + e + d[|e|..];
    NotBefore(pre + e, d[|e|..], d);
    CallWithoutDelimiter(cfg, pre + e);
    TooShort(e, d);
    CallWithoutDelimiter(cfg, e);
    assert ([pre + e] + rest)[1..] == rest && ([e] + rest)[1..] == rest;
  }

  /** The start of a text up to which the pattern has not ended does not hold it. */
  lemma NotBefore(s: string, t: string, pat: string)
    requires 0 < |pat| && |s| < Find(s + t, pat) + |pat|
    ensures Find(s, pat) == |s|
  {
    hide OccursAt;
    forall j: nat | j + |pat| <= |s| ensures !OccursAt(s, j, pat) {
      OccursBefore(s, t, j, pat);
    }
    forall j: nat | j + |pat| > |s| ensures !OccursAt(s, j, pat) {
      OccursInside(s, j, pat);
    }
    FindIs(s, pat, |s|);
  }

  lemma CallWithPreamble(cfg: Config, pre: string, items: seq<Item>, e: string, rest: seq<string>)
    requires items != [] && BoundaryCharsValid(cfg.boundary) && Find(pre, cfg.DashBoundaryCrlf()) == |pre|
    requires e + Flatten(rest) == Serialized(items, cfg.boundary) + SerializedFinish(cfg.boundary)
    requires |e| >= |cfg.DashBoundaryCrlf()|
    ensures Feed(cfg, INITIAL, [pre + e] + rest) == Feed(cfg, INITIAL, [e] + rest)
  {
    hide Drain, Serialized, SerializedFinish, Find;
    var d := cfg.DashBoundaryCrlf();
    var behind := TextIsLine(cfg, items);
    SplitTwice(d, behind, e, Flatten(rest));
    LineIsFirst(cfg, pre, e[|d|..]);
    assert pre + d + e[|d|..] == pre + e;
    PreambleIsDropped(cfg, pre, e[|d|..]);
    assert ([pre + e] + rest)[1..] == rest && ([e] + rest)[1..] == rest;
  }
}
