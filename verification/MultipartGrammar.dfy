/** What the multipart parser accepts has the form of the grammar: its state and unread bytes are a reading of the text,
    with nothing lost or added, for every receiver and every cut into calls. */
module MultipartGrammar {
  import opened Text
  import opened Multipart
  import opened MultipartStreaming
  import opened MultipartRoundTrip
  import opened MultipartExactness
  import opened MultipartLimits

  // ---------------------------------------------------------------------------------------------
  // The text that a state stands for
  // ---------------------------------------------------------------------------------------------

  /** Header lines, the empty line, the content so far. */
  function EntryRead(part: Part): string {
    LinesText(part.headers) + CRLF + part.content
  }

  /** Entries with the delimiter line behind each. */
  function EntriesRead(cfg: Config, parts: seq<Part>): string {
    if parts == [] then ""
    else
      var n := |parts| - 1;
      EntriesRead(cfg, parts[..n]) + (EntryRead(parts[n]) + (cfg.CrlfDashBoundary() + CRLF))
  }

  /** The last entry is still without its delimiter. */
  function OpenRead(cfg: Config, parts: seq<Part>): string
    requires parts != []
  {
    var n := |parts| - 1;
    EntriesRead(cfg, parts[..n]) + EntryRead(parts[n])
  }

  ghost predicate Behind(p: Parser) {
    p.phase != 0 && (p.phase >= 3 ==> p.parts != [])
  }

  /** What the parser has read, from behind the first delimiter line to the unread bytes. */
  function TextRead(cfg: Config, p: Parser): string
    requires Behind(p)
  {
    match p.phase
    case 2 => EntriesRead(cfg, p.parts) + LinesText(p.lines)
    case 3 => OpenRead(cfg, p.parts)
    case 4 => OpenRead(cfg, p.parts) + cfg.CrlfDashBoundary()
    case _ => EntriesRead(cfg, p.parts)
  }

  /** A turn of the loop reads what it consumes. */
  lemma StepReads(cfg: Config, p: Parser)
    requires Behind(p) && p.buf != [] && !Closing(p) && (Step(cfg, p).More? || Step(cfg, p).ok)
    ensures var q := Result(Step(cfg, p)); Behind(q) && TextRead(cfg, q) + q.buf == TextRead(cfg, p) + p.buf
  {
    hide Find, Deliver, LinesText, EntriesRead, OpenRead;
    match p.phase
    case 1 => NoLines(); assert EntriesRead(cfg, p.parts) + "" == EntriesRead(cfg, p.parts);
    case 2 => HeaderReads(cfg, p);
    case 3 => BodyReads(cfg, p);
    case 4 =>
      if CRLF <= p.buf {
        OpenEnds(cfg, p.parts);
        Shift(OpenRead(cfg, p.parts) + cfg.CrlfDashBoundary(), CRLF, p.buf);
      }
  }

  function Result(o: Outcome): Parser {
    match o
    case More(q) => q
    case Stop(q, _) => q
  }

  /** What was consumed moves from the unread bytes to those read. */
  lemma Shift(head: string, piece: string, buf: string)
    requires piece <= buf
    ensures head + piece + buf[|piece|..] == head + buf
  {
    assert piece + buf[|piece|..] == buf;
    assert head + piece + buf[|piece|..] == head + (piece + buf[|piece|..]);
  }

  lemma HeaderReads(cfg: Config, p: Parser)
    requires p.phase == 2 && (HeaderStep(cfg, p).More? || HeaderStep(cfg, p).ok)
    ensures var q := Result(HeaderStep(cfg, p)); Behind(q) && TextRead(cfg, q) + q.buf == TextRead(cfg, p) + p.buf
  {
    hide Find, LinesText, EntriesRead;
    var pos := Find(p.buf, CRLF);
    var head := EntriesRead(cfg, p.parts);
    if pos < |p.buf| {
      var line := p.buf[..pos];
      assert OccursAt(p.buf, pos, CRLF);
      assert p.buf[..pos + |CRLF|] == line + CRLF;
      LinesTextSnoc(p.lines, line);
      Shift(head + LinesText(p.lines), line + CRLF, p.buf);
      if pos == 0 {
        assert line + CRLF == CRLF;
        OpenStarts(cfg, p.parts, p.lines);
      } else {
        assert head + (LinesText(p.lines) + (line + CRLF)) == head + LinesText(p.lines) + (line + CRLF);
      }
    }
  }

  lemma OpenStarts(cfg: Config, parts: seq<Part>, lines: seq<string>)
    ensures OpenRead(cfg, parts + [Part(lines, "")]) == EntriesRead(cfg, parts) + LinesText(lines) + CRLF
  {
    hide LinesText;
    assert (parts + [Part(lines, "")])[..|parts|] == parts;
    assert LinesText(lines) + CRLF + "" == LinesText(lines) + CRLF;
  }

  lemma OpenEnds(cfg: Config, parts: seq<Part>)
    requires parts != []
    ensures EntriesRead(cfg, parts) == OpenRead(cfg, parts) + cfg.CrlfDashBoundary() + CRLF
  {
    hide EntryRead;
    var n := |parts| - 1;
    var head, entry, d := EntriesRead(cfg, parts[..n]), EntryRead(parts[n]), cfg.CrlfDashBoundary();
    assert head + (entry + (d + CRLF)) == head + entry + d + CRLF;
  }

  lemma OpenGrows(cfg: Config, parts: seq<Part>, data: string)
    requires parts != []
    ensures Deliver(parts, data) != [] && OpenRead(cfg, Deliver(parts, data)) == OpenRead(cfg, parts) + data
  {
    hide LinesText, EntriesRead;
    var n := |parts| - 1;
    assert Deliver(parts, data)[..n] == parts[..n];
    var head, lines, content := EntriesRead(cfg, parts[..n]), LinesText(parts[n].headers) + CRLF, parts[n].content;
    assert head + (lines + (content + data)) == head + (lines + content) + data;
  }

  lemma BodyReads(cfg: Config, p: Parser)
    requires p.phase == 3 && p.parts != [] && (BodyStep(cfg, p).More? || BodyStep(cfg, p).ok)
    ensures var q := Result(BodyStep(cfg, p)); Behind(q) && TextRead(cfg, q) + q.buf == TextRead(cfg, p) + p.buf
  {
    hide Find, Deliver, OpenRead;
    var d := cfg.CrlfDashBoundary();
    var pos := Find(p.buf, d);
    var open := OpenRead(cfg, p.parts);
    if |d| <= |p.buf| {
      if pos < |p.buf| {
        assert OccursAt(p.buf, pos, d);
        assert p.buf[..pos + |d|] == p.buf[..pos] + d;
        OpenGrows(cfg, p.parts, p.buf[..pos]);
        Shift(open, p.buf[..pos] + d, p.buf);
        assert open + (p.buf[..pos] + d) == open + p.buf[..pos] + d;
      } else {
        var len := |p.buf| - |d|;
        OpenGrows(cfg, p.parts, p.buf[..len]);
        Shift(open, p.buf[..len], p.buf);
      }
    }
  }

  /** The reading of a call that succeeds. `dropped` is the closing dashes and what came with them. */
  ghost predicate Reads(cfg: Config, text: string, q: Parser, dropped: string) {
    && Behind(q) && text == TextRead(cfg, q) + q.buf + dropped
    && (dropped == "" || (DASH <= dropped && q.phase == 4 && q.valid && q.buf == ""))
  }

  lemma {:induction false} DrainReads(cfg: Config, p: Parser, limited: bool) returns (dropped: string)
    requires Behind(p) && Drain(cfg, p, limited).1
    ensures Reads(cfg, TextRead(cfg, p) + p.buf, Drain(cfg, p, limited).0, dropped)
    ensures !p.valid && !Drain(cfg, p, limited).0.valid ==> dropped == ""
    decreases |p.buf|, if p.phase == 1 then 1 else 0
  {
    hide TextRead, Step;
    dropped := "";
    if p.buf == [] {
      assert TextRead(cfg, p) + p.buf == TextRead(cfg, p) + p.buf + "";
    } else if Closing(p) {
      ClosingStep(cfg, p);
      dropped := p.buf;
      ClosedReads(cfg, p);
    } else {
      StepReads(cfg, p);
      if Step(cfg, p).More? {
        dropped := DrainReads(cfg, Step(cfg, p).next, p.phase != 2);
        if !p.valid { StaysOpen(cfg, p); }
      } else {
        var q := Step(cfg, p).last;
        assert TextRead(cfg, q) + q.buf == TextRead(cfg, q) + q.buf + "";
      }
    }
  }

  lemma StaysOpen(cfg: Config, p: Parser)
    requires p.buf != [] && !Closing(p) && !p.valid && Step(cfg, p).More?
    ensures !Step(cfg, p).next.valid
  {
  }

  lemma ClosedReads(cfg: Config, p: Parser)
    requires Behind(p) && Closing(p)
    ensures var q := p.(valid := true, buf := []);
            TextRead(cfg, p) + p.buf == TextRead(cfg, q) + q.buf + p.buf && Drain(cfg, q, true) == (q, true)
  {
    hide OpenRead;
    var q := p.(valid := true, buf := []);
    assert TextRead(cfg, q) + "" == TextRead(cfg, q);
  }

  /** One call, from any state behind the first delimiter line. */
  lemma CallReads(cfg: Config, p: Parser, data: string) returns (dropped: string)
    requires Behind(p) && ParseCall(cfg, p, data).1
    ensures Reads(cfg, TextRead(cfg, p) + p.buf + data, ParseCall(cfg, p, data).0, dropped)
    ensures !p.valid && !ParseCall(cfg, p, data).0.valid ==> dropped == ""
  {
    hide Drain, OpenRead, EntriesRead;
    dropped := DrainReads(cfg, p.Append(data), true);
    assert TextRead(cfg, p.Append(data)) == TextRead(cfg, p);
    assert TextRead(cfg, p) + (p.buf + data) == TextRead(cfg, p) + p.buf + data;
  }

  /** Only the last call may bring the closing delimiter. */
  predicate OpenBefore(cfg: Config, p: Parser, chunks: seq<string>)
    decreases |chunks|
  {
    |chunks| >= 2 ==>
      var (q, ok) := ParseCall(cfg, p, chunks[0]);
      !q.valid && OpenBefore(cfg, q, chunks[1..])
  }

  lemma {:induction false} FeedReads(cfg: Config, p: Parser, chunks: seq<string>) returns (dropped: string)
    requires Behind(p) && !p.valid && Feed(cfg, p, chunks).1 && OpenBefore(cfg, p, chunks)
    ensures Reads(cfg, TextRead(cfg, p) + p.buf + Flatten(chunks), Feed(cfg, p, chunks).0, dropped)
    decreases |chunks|
  {
    hide ParseCall, TextRead;
    dropped := "";
    if chunks == [] {
      assert Flatten(chunks) == "";
    } else {
      var text := TextRead(cfg, p) + p.buf;
      dropped := CallReads(cfg, p, chunks[0]);
      var q := ParseCall(cfg, p, chunks[0]).0;
      if |chunks| == 1 {
        assert Flatten(chunks) == chunks[0] + "" == chunks[0];
        assert Feed(cfg, q, []) == (q, true) && chunks[1..] == [];
      } else {
        assert text + chunks[0] == TextRead(cfg, q) + q.buf;
        dropped := FeedReads(cfg, q, chunks[1..]);
        assert text + (chunks[0] + Flatten(chunks[1..])) == text + chunks[0] + Flatten(chunks[1..]);
      }
    }
  }

  // ---------------------------------------------------------------------------------------------
  // Lines and contents are the ones the grammar cuts there
  // ---------------------------------------------------------------------------------------------

  /** A header line as the grammar has it: acceptable, not empty, without a line break. */
  predicate LineProper(cfg: Config, line: string) {
    line != "" && Find(line, CRLF) == |line| && cfg.headerOk(line)
  }

  predicate LinesProper(cfg: Config, lines: seq<string>) {
    forall line <- lines :: LineProper(cfg, line)
  }

  /** A whole content ends at the first delimiter behind its start. */
  predicate PartProper(cfg: Config, part: Part) {
    LinesProper(cfg, part.headers)
    && Find(part.content + cfg.CrlfDashBoundary(), cfg.CrlfDashBoundary()) == |part.content|
  }

  predicate PartsProper(cfg: Config, parts: seq<Part>) {
    forall part <- parts :: PartProper(cfg, part)
  }

  /** The content so far is in front of every delimiter; where some of it was handed on, as many bytes are held back as
      the delimiter has. */
  ghost predicate OpenProper(cfg: Config, part: Part, buf: string) {
    && LinesProper(cfg, part.headers)
    && (forall j :: 0 <= j < |part.content| ==> !OccursAt(part.content + buf, j, cfg.CrlfDashBoundary()))
    && (part.content == "" || |buf| >= |cfg.CrlfDashBoundary()|)
  }

  ghost predicate Proper(cfg: Config, p: Parser) {
    && (p.phase == 2 ==> LinesProper(cfg, p.lines))
    && if p.phase == 3 then
         && p.parts != [] && PartsProper(cfg, p.parts[..|p.parts| - 1])
         && OpenProper(cfg, p.parts[|p.parts| - 1], p.buf)
       else PartsProper(cfg, p.parts)
  }

  lemma AppendProper(cfg: Config, p: Parser, data: string)
    requires Proper(cfg, p)
    ensures Proper(cfg, p.Append(data))
  {
    hide OccursAt;
    if p.phase == 3 {
      var part, d := p.parts[|p.parts| - 1], cfg.CrlfDashBoundary();
      assert part.content + (p.buf + data) == part.content + p.buf + data;
      forall j: nat | j < |part.content| ensures !OccursAt(part.content + (p.buf + data), j, d) {
        OccursBefore(part.content + p.buf, data, j, d);
      }
    }
  }

  lemma StepProper(cfg: Config, p: Parser)
    requires Proper(cfg, p) && p.buf != [] && (Step(cfg, p).More? || Step(cfg, p).ok)
    ensures Proper(cfg, Result(Step(cfg, p)))
  {
    hide Find, PartsProper, OpenProper, BodyStep, InitialStep;
    match p.phase
    case 0 => InitialProper(cfg, p);
    case 2 => HeaderProper(cfg, p);
    case 3 => BodyProper(cfg, p);
    case _ =>
  }

  lemma InitialProper(cfg: Config, p: Parser)
    requires Proper(cfg, p) && p.phase == 0
    ensures Proper(cfg, Result(InitialStep(cfg, p)))
  {
    hide Find, PartsProper;
  }

  lemma HeaderProper(cfg: Config, p: Parser)
    requires Proper(cfg, p) && p.phase == 2 && (HeaderStep(cfg, p).More? || HeaderStep(cfg, p).ok)
    ensures Proper(cfg, Result(HeaderStep(cfg, p)))
  {
    hide PartsProper;
    var pos := Find(p.buf, CRLF);
    var line := p.buf[..pos];
    if 0 < pos < |p.buf| {
      hide Find;
      UpToFirst(p.buf, CRLF);
    } else if pos == 0 {
      assert (p.parts + [Part(p.lines, "")])[..|p.parts|] == p.parts;
    }
  }

  /** What is in front of the first occurrence does not hold the pattern. */
  lemma UpToFirst(s: string, pat: string)
    requires 0 < |pat|
    ensures Find(s[..Find(s, pat)], pat) == Find(s, pat)
  {
    var n := Find(s, pat);
    assert s[..n] + s[n..] == s;
    NotBefore(s[..n], s[n..], pat);
  }

  lemma BodyProper(cfg: Config, p: Parser)
    requires Proper(cfg, p) && p.phase == 3 && (BodyStep(cfg, p).More? || BodyStep(cfg, p).ok)
    ensures Proper(cfg, Result(BodyStep(cfg, p)))
  {
    hide Find, PartsProper, LinesProper, PartProper, OpenProper;
    var d, n := cfg.CrlfDashBoundary(), |p.parts| - 1;
    var pos := Find(p.buf, d);
    if |d| <= |p.buf| {
      var handed := if pos < |p.buf| then pos else |p.buf| - |d|;
      var given := Deliver(p.parts, p.buf[..handed]);
      assert given[..n] == p.parts[..n] && given == given[..n] + [given[n]];
      if pos < |p.buf| {
        WholeProper(cfg, p.parts[n], p.buf);
        OneMoreProper(cfg, given[..n], given[n]);
      } else if handed > 0 {
        PausedProper(cfg, p.parts[n], p.buf);
      }
    }
  }

  lemma OneMoreProper(cfg: Config, parts: seq<Part>, part: Part)
    requires PartsProper(cfg, parts) && PartProper(cfg, part)
    ensures PartsProper(cfg, parts + [part])
  {
  }

  /** Nothing occurs in front of `pos` in content and unread bytes together. */
  lemma NotInFront(cfg: Config, part: Part, buf: string, j: nat)
    requires OpenProper(cfg, part, buf) && j < |part.content| + Find(buf, cfg.CrlfDashBoundary())
    ensures !OccursAt(part.content + buf, j, cfg.CrlfDashBoundary())
  {
    hide OccursAt;
    if j >= |part.content| { OccursBehind(part.content, buf, j, cfg.CrlfDashBoundary()); }
  }

  lemma WholeProper(cfg: Config, part: Part, buf: string)
    requires OpenProper(cfg, part, buf) && Find(buf, cfg.CrlfDashBoundary()) < |buf|
    ensures PartProper(cfg, part.(content := part.content + buf[..Find(buf, cfg.CrlfDashBoundary())]))
  {
    hide OccursAt;
    var d := cfg.CrlfDashBoundary();
    var pos := Find(buf, d);
    var content := part.content + buf[..pos];
    OccursInside(buf, pos, d);
    assert buf[pos..pos + |d|] == d by { OccursThere(buf, pos, d); }
    assert content + d + buf[pos + |d|..] == part.content + buf;
    forall j: nat | j < |content| ensures !OccursAt(content + d, j, d) {
      NotInFront(cfg, part, buf, j);
      OccursBefore(content + d, buf[pos + |d|..], j, d);
    }
    assert OccursAt(content + d, |content|, d) by { OccursAtEnd(content, d); }
    FindIs(content + d, d, |content|);
  }

  lemma OccursThere(s: string, i: nat, pat: string)
    requires OccursAt(s, i, pat)
    ensures i + |pat| <= |s| && s[i..i + |pat|] == pat
  {
  }

  lemma OccursAtEnd(s: string, pat: string)
    ensures OccursAt(s + pat, |s|, pat)
  {
  }

  lemma PausedProper(cfg: Config, part: Part, buf: string)
    requires OpenProper(cfg, part, buf) && |cfg.CrlfDashBoundary()| <= |buf| == Find(buf, cfg.CrlfDashBoundary())
    ensures var len := |buf| - |cfg.CrlfDashBoundary()|;
            OpenProper(cfg, part.(content := part.content + buf[..len]), buf[len..])
  {
    hide OccursAt, Find;
    var len := |buf| - |cfg.CrlfDashBoundary()|;
    assert part.content + buf[..len] + buf[len..] == part.content + buf;
    forall j: nat | j < |part.content| + len ensures !OccursAt(part.content + buf, j, cfg.CrlfDashBoundary()) {
      NotInFront(cfg, part, buf, j);
    }
  }

  lemma {:induction false} DrainProper(cfg: Config, p: Parser, limited: bool)
    requires Proper(cfg, p) && Drain(cfg, p, limited).1
    ensures Proper(cfg, Drain(cfg, p, limited).0)
    decreases |p.buf|, if p.phase == 1 then 1 else 0
  {
    hide Step, Proper;
    if p.buf != [] {
      StepProper(cfg, p);
      if Step(cfg, p).More? { DrainProper(cfg, Step(cfg, p).next, p.phase != 2); }
    }
  }

  /** Whatever the calls, as long as they succeed. */
  lemma {:induction false} FeedProper(cfg: Config, p: Parser, chunks: seq<string>)
    requires Proper(cfg, p) && Feed(cfg, p, chunks).1
    ensures Proper(cfg, Feed(cfg, p, chunks).0)
    decreases |chunks|
  {
    hide Drain, Proper;
    if chunks != [] {
      AppendProper(cfg, p, chunks[0]);
      DrainProper(cfg, p.Append(chunks[0]), true);
      FeedProper(cfg, ParseCall(cfg, p, chunks[0]).0, chunks[1..]);
    }
  }

  // ---------------------------------------------------------------------------------------------
  // How much is held back
  // ---------------------------------------------------------------------------------------------

  lemma StepRests(cfg: Config, p: Parser)
    requires p.buf != [] && Step(cfg, p).Stop? && Step(cfg, p).ok
    ensures Rests(cfg, Step(cfg, p).last)
  {
    hide Find, Deliver;
    if p.phase == 0 { DelimiterThere(p.buf, cfg.DashBoundaryCrlf()); }
    if p.phase == 3 && |p.buf| < |cfg.CrlfDashBoundary()| { TooShort(p.buf, cfg.CrlfDashBoundary()); }
  }

  /** Nothing is left unread that could have been used: nothing in front of the first delimiter line, no whole line in a
      header, of a content no more bytes than the delimiter has, behind a delimiter neither CRLF nor dashes. */
  predicate Rests(cfg: Config, q: Parser) {
    match q.phase
    case 0 => q.buf == ""
    case 1 => q.buf == ""
    case 2 => Find(q.buf, CRLF) == |q.buf|
    case 3 => |q.buf| <= |cfg.CrlfDashBoundary()|
    case 4 => !(CRLF <= q.buf) && !(DASH <= q.buf)
  }

  /** After every call that succeeds the parser has handed on what it can: in whatever pieces a content comes, no more
      of it is held back than the delimiter is long. */
  lemma {:induction false} DrainRests(cfg: Config, p: Parser, limited: bool)
    requires Drain(cfg, p, limited).1
    ensures Rests(cfg, Drain(cfg, p, limited).0)
    decreases |p.buf|, if p.phase == 1 then 1 else 0
  {
    hide Step;
    if p.buf == [] {
      TooShort(p.buf, CRLF);
    } else if Step(cfg, p).More? {
      hide Rests;
      DrainRests(cfg, Step(cfg, p).next, p.phase != 2);
    } else {
      StepRests(cfg, p);
    }
  }

  // ---------------------------------------------------------------------------------------------
  // What the answer means
  // ---------------------------------------------------------------------------------------------

  /** The next header line is too long, or complete and not acceptable, or the receiver refused the parts as they
      are. */
  ghost predicate Reason(cfg: Config, q: Parser) {
    || OverLimit(q)
    || (q.phase == 2 && 0 < Find(q.buf, CRLF) < |q.buf| && !cfg.headerOk(q.buf[..Find(q.buf, CRLF)]) && !q.valid)
    || ((q.phase == 2 || q.phase == 3) && !cfg.accept(q.parts) && !q.valid)
  }

  lemma StepAnswers(cfg: Config, p: Parser)
    requires p.buf != []
    ensures match Step(cfg, p)
            case More(q) => q.parts == p.parts || cfg.accept(q.parts)
            case Stop(q, ok) => if ok then q.parts == p.parts || cfg.accept(q.parts) else Reason(cfg, q)
  {
    hide Find, Deliver;
    if p.phase == 0 { DelimiterThere(p.buf, cfg.DashBoundaryCrlf()); }
  }

  /** Behind the text in front of the first occurrence comes the pattern, or nothing. */
  lemma DelimiterThere(s: string, pat: string)
    requires 0 < |pat|
    ensures var rest := s[Find(s, pat)..]; rest == "" || pat <= rest
  {
    var at := Find(s, pat);
    if at < |s| { assert s[at..][..|pat|] == s[at..at + |pat|]; }
  }

  lemma {:induction false} DrainAnswers(cfg: Config, p: Parser, limited: bool)
    ensures var (q, ok) := Drain(cfg, p, limited);
            if ok then q.parts == p.parts || cfg.accept(q.parts) else Reason(cfg, q)
    decreases |p.buf|, if p.phase == 1 then 1 else 0
  {
    hide Step, Reason;
    if p.buf != [] {
      if limited && OverLimit(p) {
        LongIsReason(cfg, p);
      } else {
        StepAnswers(cfg, p);
        if Step(cfg, p).More? { DrainAnswers(cfg, Step(cfg, p).next, p.phase != 2); }
      }
    }
  }

  lemma LongIsReason(cfg: Config, p: Parser)
    requires OverLimit(p)
    ensures Reason(cfg, p)
  {
  }

  /** Calls fail only for a reason; and calls that succeed and hand something on end with parts that the receiver
      accepted. */
  lemma {:induction false} FeedAnswers(cfg: Config, p: Parser, chunks: seq<string>)
    ensures var (q, ok) := Feed(cfg, p, chunks);
            if ok then q.parts == p.parts || cfg.accept(q.parts) else Reason(cfg, q)
    decreases |chunks|
  {
    hide Drain, Reason;
    if chunks != [] {
      DrainAnswers(cfg, p.Append(chunks[0]), true);
      var (q, ok) := ParseCall(cfg, p, chunks[0]);
      if ok { FeedAnswers(cfg, q, chunks[1..]); }
    }
  }

  // ---------------------------------------------------------------------------------------------
  // From a fresh parser
  // ---------------------------------------------------------------------------------------------

  /** Soundness: whatever a fresh parser was fed, in any calls that succeed and with any receiver, once it is past the
      initial state the text is something in front of a delimiter line, that line, the entries as they were delivered
      with their delimiters, the header lines of the entry under way and the unread bytes; after the closing delimiter,
      the dashes and what came in their call. Lines and contents are cut where the grammar cuts them. */
  lemma ParsedText(cfg: Config, chunks: seq<string>) returns (before: string, text: string, dropped: string)
    requires var (q, ok) := Feed(cfg, INITIAL, chunks); ok && q.phase != 0 && OpenBefore(cfg, INITIAL, chunks)
    ensures Flatten(chunks) == before + (cfg.DashBoundaryCrlf() + text)
    ensures Reads(cfg, text, Feed(cfg, INITIAL, chunks).0, dropped) && Proper(cfg, Feed(cfg, INITIAL, chunks).0)
  {
    before, text, dropped := FirstReads(cfg, chunks);
    FeedProper(cfg, INITIAL, chunks);
  }

  lemma {:induction false} FirstReads(cfg: Config, chunks: seq<string>)
    returns (before: string, text: string, dropped: string)
    requires var (q, ok) := Feed(cfg, INITIAL, chunks); ok && q.phase != 0 && OpenBefore(cfg, INITIAL, chunks)
    ensures Flatten(chunks) == before + (cfg.DashBoundaryCrlf() + text)
    ensures Reads(cfg, text, Feed(cfg, INITIAL, chunks).0, dropped)
    decreases |chunks|
  {
    hide ParseCall, Find, Reads, TextRead;
    var d, c, rest := cfg.DashBoundaryCrlf(), chunks[0], chunks[1..];
    if Find(c, d) == |c| {
      CallWithoutDelimiter(cfg, c);
      assert Feed(cfg, INITIAL, []) == (INITIAL, true);
      before, text, dropped := FirstReads(cfg, rest);
      assert c + (before + (d + text)) == c + before + (d + text);
      before := c + before;
    } else {
      assert chunks == [c] + rest;
      before, text, dropped := FirstCallReads(cfg, c, rest);
    }
  }

  /** The call that brings the first delimiter line, and those behind it. */
  lemma FirstCallReads(cfg: Config, c: string, rest: seq<string>)
    returns (before: string, text: string, dropped: string)
    requires Find(c, cfg.DashBoundaryCrlf()) < |c|
    requires Feed(cfg, INITIAL, [c] + rest).1 && OpenBefore(cfg, INITIAL, [c] + rest)
    ensures Flatten([c] + rest) == before + (cfg.DashBoundaryCrlf() + text)
    ensures Reads(cfg, text, Feed(cfg, INITIAL, [c] + rest).0, dropped)
  {
    hide ParseCall, Find, Reads, TextRead, Flatten;
    var d, first, p := cfg.DashBoundaryCrlf(), "", Parser(1, false, [], [], []);
    before, first := AtDelimiter(c, d);
    FirstDelimiter(cfg, before, first);
    assert ([first] + rest)[1..] == rest && ([c] + rest)[1..] == rest;
    assert Feed(cfg, INITIAL, [c] + rest) == Feed(cfg, p, [first] + rest);
    dropped := FeedReads(cfg, p, [first] + rest);
    text := first + Flatten(rest);
    FlattenFirst(first, rest);
    FlattenFirst(c, rest);
    NothingRead(cfg);
    assert TextRead(cfg, p) + p.buf + text == text;
    assert before + d + first + Flatten(rest) == before + (d + text);
  }

  lemma AtDelimiter(c: string, d: string) returns (before: string, first: string)
    requires 0 < |d| && Find(c, d) < |c|
    ensures before + d + first == c && Find(before + d + first, d) == |before|
  {
    var at := Find(c, d);
    before, first := c[..at], c[at + |d|..];
    assert c[at..at + |d|] == d;
    assert before + d + first == c;
  }

  lemma NothingRead(cfg: Config)
    ensures TextRead(cfg, Parser(1, false, [], [], [])) == ""
  {
  }
}
