/** When two `parse` calls are one: the exact condition, with the header length limit and the closing delimiter. */
module MultipartLimits {
  import opened Text
  import opened Multipart
  import opened MultipartStreaming
  import opened MultipartRoundTrip

  /** The last turn of a call's loop: the state before it, and whether a search for a header line there is still the
      first of its phase entry, the one that is held to the limit. */
  function LastTurn(cfg: Config, p: Parser, limited: bool): (Parser, bool)
    decreases |p.buf|, if p.phase == 1 then 1 else 0
  {
    if p.buf == [] || (limited && OverLimit(p)) || Closing(p) || Step(cfg, p).Stop? then (p, limited)
    else LastTurn(cfg, Step(cfg, p).next, p.phase != 2)
  }

  /** The header line at the start of the unread bytes is complete and not acceptable. (Where the parser was closed
      before, this is told from a line over the limit: it takes the validity back.) */
  predicate Refused(cfg: Config, p: Parser) {
    var pos := Find(p.buf, CRLF);
    p.phase == 2 && !p.valid && 0 < pos < |p.buf| && !cfg.headerOk(p.buf[..pos])
  }

  /** Content is handed on by a pause in the middle of a body. */
  predicate HandsOver(cfg: Config, p: Parser) {
    p.phase == 3 && |p.buf| > |cfg.CrlfDashBoundary()|
  }

  /** The receiver refuses the content at the start of the unread bytes. */
  predicate BodyRefused(cfg: Config, p: Parser) {
    p.phase == 3 && BodyStep(cfg, p).Stop? && !BodyStep(cfg, p).ok
  }

  /** `parse(a)` and then `parse(b)`; when the first call fails, `b` stays unread. */
  function TwoCalls(cfg: Config, p: Parser, a: string, b: string): (Parser, bool) {
    var (q, ok) := ParseCall(cfg, p, a);
    if ok then ParseCall(cfg, q, b) else (q.Append(b), false)
  }

  /** When two calls do what one does, by what the first call's last turn comes to.
      At the closing delimiter: nothing follows, or dashes do.
      In a body, when the receiver took what the pause handed on: it does not refuse the content behind the pause (a
      refused call leaves all its content unread, and what was handed on before is not there any more).
      In a body, when the receiver refused: it refused a whole content, or nothing follows (one call would have handed
      on more before asking).
      Elsewhere: the next header line is not one that only one of the two searches would hold to the limit; the second
      call holds it although it is not the first of its entry, or the first call held it although the rest of it makes
      it short enough. A refused line and a refused entry fail either way. */
  predicate Independent(cfg: Config, p: Parser, a: string, b: string) {
    var (q, ok) := ParseCall(cfg, p, a);
    var (r, first) := LastTurn(cfg, p.Append(a), true);
    var x := q.Append(b);
    if Closing(r) then b == "" || DASH <= b
    else if r.phase == 3 then
      if ok then !HandsOver(cfg, r) || !BodyRefused(cfg, x)
      else b == "" || Find(r.buf, cfg.CrlfDashBoundary()) < |r.buf|
    else if ok then first || !OverLimit(x) || Refused(cfg, x)
    else OverLimit(x) || Refused(cfg, x) || Find(r.buf, CRLF) == 0
  }

  /** The first boundary is past; a body belongs to an entry. */
  predicate BehindFirst(p: Parser) {
    p.phase != 0 && (p.phase == 3 ==> p.parts != [])
  }

  /** Streaming invariance, exactly: for every receiver and from every state behind the first boundary, two calls leave
      the state, unread bytes, parts and answer of one call with the whole if and only if the condition holds. */
  lemma TwoCallsExactly(cfg: Config, p: Parser, a: string, b: string)
    requires BehindFirst(p)
    ensures ParseCall(cfg, p, a + b) == TwoCalls(cfg, p, a, b) <==> Independent(cfg, p, a, b)
  {
    hide Drain, LastTurn, OverLimit, Refused, HandsOver, BodyRefused, Closing, IsLastTurn;
    assert p.buf + (a + b) == p.buf + a + b;
    var pa := p.Append(a);
    assert ParseCall(cfg, p, a + b) == Drain(cfg, pa.Append(b), true);
    LastTurnDecides(cfg, pa, true, b);
    var (r, first) := LastTurn(cfg, pa, true);
    if Closing(r) {
      ClosedExactly(cfg, r, first, b);
    } else if r.phase == 3 {
      BodyExactly(cfg, r, first, b);
    } else {
      ElsewhereExactly(cfg, r, first, b);
    }
  }

  /** Each call may be followed by the rest. */
  predicate AllIndependent(cfg: Config, p: Parser, chunks: seq<string>)
    decreases |chunks|
  {
    |chunks| >= 2 ==>
      var (q, ok) := ParseCall(cfg, p, chunks[0]);
      Independent(cfg, p, chunks[0], Flatten(chunks[1..])) && (ok ==> AllIndependent(cfg, q, chunks[1..]))
  }

  /** Any number of calls: then they are one call with the whole. */
  lemma {:induction false} IndependentCallsAreOne(cfg: Config, p: Parser, chunks: seq<string>)
    requires BehindFirst(p) && chunks != [] && AllIndependent(cfg, p, chunks)
    ensures Feed(cfg, p, chunks).1 == ParseCall(cfg, p, Flatten(chunks)).1
    ensures Feed(cfg, p, chunks).1 ==> Feed(cfg, p, chunks) == ParseCall(cfg, p, Flatten(chunks))
    decreases |chunks|
  {
    hide Drain, Independent, BehindFirst;
    var a, rest := chunks[0], Flatten(chunks[1..]);
    if |chunks| == 1 {
      assert rest == [] && a + rest == a;
    } else {
      TwoCallsExactly(cfg, p, a, rest);
      var (q, ok) := ParseCall(cfg, p, a);
      if ok {
        StaysBehindFirst(cfg, p, a);
        IndependentCallsAreOne(cfg, q, chunks[1..]);
      }
    }
  }

  lemma StaysBehindFirst(cfg: Config, p: Parser, a: string)
    requires BehindFirst(p)
    ensures BehindFirst(ParseCall(cfg, p, a).0)
  {
    DrainStaysBehindFirst(cfg, p.Append(a), true);
  }

  lemma {:induction false} DrainStaysBehindFirst(cfg: Config, p: Parser, limited: bool)
    requires BehindFirst(p)
    ensures BehindFirst(Drain(cfg, p, limited).0)
    decreases |p.buf|, if p.phase == 1 then 1 else 0
  {
    if p.buf != [] {
      BodyHasEntry(cfg, p);
      hide Step;
      if Step(cfg, p).More? { DrainStaysBehindFirst(cfg, Step(cfg, p).next, p.phase != 2); }
    }
  }

  // ---------------------------------------------------------------------------------------------
  // Everything is decided in the last turn
  // ---------------------------------------------------------------------------------------------

  ghost predicate IsLastTurn(cfg: Config, r: Parser, first: bool) {
    && BehindFirst(r)
    && (r.buf == [] || (first && OverLimit(r)) || Closing(r) || Step(cfg, r).Stop?)
  }

  lemma {:induction false} LastTurnDecides(cfg: Config, p: Parser, limited: bool, b: string)
    requires BehindFirst(p)
    ensures var (r, first) := LastTurn(cfg, p, limited);
            && IsLastTurn(cfg, r, first)
            && Drain(cfg, p, limited) == Drain(cfg, r, first)
            && Drain(cfg, p.Append(b), limited) == Drain(cfg, r.Append(b), first)
    decreases |p.buf|, if p.phase == 1 then 1 else 0
  {
    if !IsLastTurn(cfg, p, limited) {
      SameLimit(p, b);
      StepMoreExtends(cfg, p, b);
      BodyHasEntry(cfg, p);
      hide Step, OverLimit, Closing;
      LastTurnDecides(cfg, Step(cfg, p).next, p.phase != 2, b);
    }
  }

  lemma BodyHasEntry(cfg: Config, p: Parser)
    requires p.buf != [] && BehindFirst(p)
    ensures match Step(cfg, p) case More(q) => BehindFirst(q) case Stop(q, _) => BehindFirst(q)
  {
    hide Find;
  }

  /** A complete header line is as long with more text behind it. */
  lemma SameLimit(p: Parser, b: string)
    ensures p.buf != [] && Find(p.buf, CRLF) < |p.buf| ==> OverLimit(p.Append(b)) == OverLimit(p)
  {
    if Find(p.buf, CRLF) < |p.buf| { FindExtend(p.buf, b, CRLF); }
  }

  // ---------------------------------------------------------------------------------------------
  // In a body
  // ---------------------------------------------------------------------------------------------

  /** What the call's loop makes of one turn in a body. */
  function AfterBody(cfg: Config, o: Outcome): (Parser, bool) {
    match o
    case Stop(q, ok) => (q, ok)
    case More(q) => Drain(cfg, q, true)
  }

  lemma DrainBody(cfg: Config, p: Parser, limited: bool)
    requires p.phase == 3
    ensures Drain(cfg, p, limited) == AfterBody(cfg, BodyStep(cfg, p))
  {
  }

  lemma BodyExactly(cfg: Config, r: Parser, first: bool, b: string)
    requires IsLastTurn(cfg, r, first) && r.phase == 3
    ensures var (q, ok) := Drain(cfg, r, first);
            var x := q.Append(b);
            Drain(cfg, r.Append(b), first) == (if ok then Drain(cfg, x, true) else (x, false))
            <==> if ok then !HandsOver(cfg, r) || !BodyRefused(cfg, x)
                 else b == "" || Find(r.buf, cfg.CrlfDashBoundary()) < |r.buf|
  {
    BodyStops(cfg, r, first);
    DrainBody(cfg, r, first);
    DrainBody(cfg, r.Append(b), first);
    var Stop(q, ok) := BodyStep(cfg, r);
    hide BodyStep, IsLastTurn, Drain;
    if ok {
      BodyPausesAt(cfg, r);
      DrainBody(cfg, q.Append(b), true);
      if HandsOver(cfg, r) {
        PauseAccepted(cfg, r, b);
      }
    } else if Find(r.buf, cfg.CrlfDashBoundary()) < |r.buf| {
      EndRefused(cfg, r, b);
    } else if b == "" {
      assert r.Append(b) == r && q.Append(b) == q;
    } else {
      PauseRefused(cfg, r, b);
    }
  }

  lemma BodyStops(cfg: Config, r: Parser, first: bool)
    requires IsLastTurn(cfg, r, first) && r.phase == 3
    ensures BodyStep(cfg, r).Stop?
  {
  }

  lemma BodyPausesAt(cfg: Config, r: Parser)
    requires r.phase == 3 && BodyStep(cfg, r).Stop? && BodyStep(cfg, r).ok
    ensures var q := BodyStep(cfg, r).last;
            q.phase == 3 && if HandsOver(cfg, r) then PausedAt(cfg, r, q) else q == r
  {
  }

  /** All but the last bytes of the body so far are handed on. */
  predicate PausedAt(cfg: Config, r: Parser, q: Parser) {
    var len := |r.buf| - |cfg.CrlfDashBoundary()|;
    len > 0 && Find(r.buf, cfg.CrlfDashBoundary()) == |r.buf|
    && q == r.(buf := r.buf[len..], parts := Deliver(r.parts, r.buf[..len]))
  }

  /** Content handed on and accepted: the rest is accepted or refused either way, with other bytes left unread. */
  lemma PauseAccepted(cfg: Config, r: Parser, b: string)
    requires BodyStep(cfg, r).Stop? && BodyStep(cfg, r).ok && PausedAt(cfg, r, BodyStep(cfg, r).last) && r.phase == 3
    ensures var x := BodyStep(cfg, r).last.Append(b);
            AfterBody(cfg, BodyStep(cfg, r.Append(b))) == AfterBody(cfg, BodyStep(cfg, x)) <==> !BodyRefused(cfg, x)
  {
    hide BodyStep, Drain, Find, Deliver, AfterBody;
    var q := BodyStep(cfg, r).last;
    if b == [] {
      PauseTwice(cfg, r, q);
      assert r.Append(b) == r && q.Append(b) == q;
    } else {
      BodyResumesAfterHandOver(cfg, r, b);
      RefusedLeavesAll(cfg, q.Append(b));
      RefusingTells(cfg, BodyStep(cfg, q.Append(b)), r.buf + b);
    }
  }

  lemma PauseTwice(cfg: Config, r: Parser, q: Parser)
    requires r.phase == 3 && PausedAt(cfg, r, q) && BodyStep(cfg, r) == Stop(q, true)
    ensures BodyStep(cfg, q) == BodyStep(cfg, r) && !BodyRefused(cfg, q)
  {
    hide Find, Deliver;
    TailWithoutPattern(r.buf, cfg.CrlfDashBoundary());
  }

  lemma RefusedLeavesAll(cfg: Config, x: Parser)
    ensures BodyStep(cfg, x).Stop? && !BodyStep(cfg, x).ok ==> BodyStep(cfg, x).last.buf == x.buf
  {
  }

  /** A refusal with other bytes unread is told from it, nothing else is. */
  lemma RefusingTells(cfg: Config, o: Outcome, unread: string)
    ensures AfterBody(cfg, Refusing(o, unread)) == AfterBody(cfg, o) <==>
            !(o.Stop? && !o.ok && o.last.buf != unread)
  {
  }

  /** The end of a body refused: with more text behind it, it is refused in the same way. */
  lemma EndRefused(cfg: Config, r: Parser, b: string)
    requires Find(r.buf, cfg.CrlfDashBoundary()) < |r.buf| && BodyStep(cfg, r).Stop? && !BodyStep(cfg, r).ok
    ensures BodyStep(cfg, r.Append(b)) == Stop(BodyStep(cfg, r).last.Append(b), false)
  {
    hide Find, Deliver;
    var pos := Find(r.buf, cfg.CrlfDashBoundary());
    FindExtend(r.buf, b, cfg.CrlfDashBoundary());
    assert (r.buf + b)[..pos] == r.buf[..pos];
  }

  /** Content at a pause refused: with more text behind it, more is handed on before the receiver is asked. */
  lemma PauseRefused(cfg: Config, r: Parser, b: string)
    requires r.phase == 3 && r.parts != [] && b != []
    requires Find(r.buf, cfg.CrlfDashBoundary()) == |r.buf| && BodyStep(cfg, r).Stop? && !BodyStep(cfg, r).ok
    ensures AfterBody(cfg, BodyStep(cfg, r.Append(b))) != (BodyStep(cfg, r).last.Append(b), false)
  {
    var delimiter, i := cfg.CrlfDashBoundary(), |r.parts| - 1;
    var len := |r.buf| - |delimiter|;
    var n := |r.parts[i].content| + len;
    assert BodyStep(cfg, r).last.parts == Deliver(r.parts, r.buf[..len]);
    NotFoundEarlier(r.buf, b, delimiter);
    MoreHandedOn(cfg, r.Append(b), len);
    var o := BodyStep(cfg, r.Append(b));
    if o.More? { ContentGrows(cfg, o.next, true, i, n + 1); }
  }

  lemma NotFoundEarlier(s: string, b: string, pat: string)
    requires 0 < |pat| <= |s| == Find(s, pat)
    ensures Find(s + b, pat) > |s| - |pat|
  {
    hide OccursAt;
    forall j: nat | j + |pat| <= |s| ensures !OccursAt(s + b, j, pat) {
      OccursBefore(s, b, j, pat);
    }
  }

  lemma MoreHandedOn(cfg: Config, p: Parser, len: nat)
    requires p.parts != [] && |p.buf| > len + |cfg.CrlfDashBoundary()|
    requires Find(p.buf, cfg.CrlfDashBoundary()) > len
    ensures var i := |p.parts| - 1;
            var parts := if BodyStep(cfg, p).More? then BodyStep(cfg, p).next.parts else BodyStep(cfg, p).last.parts;
            |parts| == |p.parts| && |parts[i].content| > |p.parts[i].content| + len
  {
    hide Find;
  }

  /** What an entry was given stays given. */
  lemma {:induction false} ContentGrows(cfg: Config, p: Parser, limited: bool, i: nat, n: nat)
    requires i < |p.parts| && |p.parts[i].content| >= n
    ensures var q := Drain(cfg, p, limited).0; i < |q.parts| && |q.parts[i].content| >= n
    decreases |p.buf|, if p.phase == 1 then 1 else 0
  {
    if p.buf != [] {
      StepContentGrows(cfg, p, i, n);
      if Step(cfg, p).More? { ContentGrows(cfg, Step(cfg, p).next, p.phase != 2, i, n); }
    }
  }

  lemma StepContentGrows(cfg: Config, p: Parser, i: nat, n: nat)
    requires p.buf != [] && i < |p.parts| && |p.parts[i].content| >= n
    ensures var q := if Step(cfg, p).More? then Step(cfg, p).next else Step(cfg, p).last;
            i < |q.parts| && |q.parts[i].content| >= n
  {
    hide Find;
  }

  // ---------------------------------------------------------------------------------------------
  // Between bodies
  // ---------------------------------------------------------------------------------------------

  lemma ElsewhereExactly(cfg: Config, r: Parser, first: bool, b: string)
    requires IsLastTurn(cfg, r, first) && r.phase != 3 && !Closing(r)
    ensures var (q, ok) := Drain(cfg, r, first);
            var x := q.Append(b);
            Drain(cfg, r.Append(b), first) == (if ok then Drain(cfg, x, true) else (x, false))
            <==> if ok then first || !OverLimit(x) || Refused(cfg, x)
                 else OverLimit(x) || Refused(cfg, x) || Find(r.buf, CRLF) == 0
  {
    if first && OverLimit(r) {
      HeldThough(cfg, r, b);
    } else if r.phase == 2 && Find(r.buf, CRLF) < |r.buf| {
      HeaderFails(cfg, r, first, b);
    } else {
      WaitsUnchanged(cfg, r, first);
      hide IsLastTurn, OverLimit, Refused, Drain;
      if !first { HeldOrNot(cfg, r.Append(b)); }
    }
  }

  lemma WaitsUnchanged(cfg: Config, r: Parser, first: bool)
    requires IsLastTurn(cfg, r, first) && r.phase != 3 && !Closing(r) && !(first && OverLimit(r))
    requires r.phase == 2 ==> Find(r.buf, CRLF) == |r.buf|
    ensures Drain(cfg, r, first) == (r, true)
  {
    hide Find;
  }

  /** A refused line and a refused entry fail in the same way with more text behind them. */
  lemma HeaderFails(cfg: Config, r: Parser, first: bool, b: string)
    requires r.phase == 2 && HeaderStep(cfg, r).Stop? && !(first && OverLimit(r))
    requires Find(r.buf, CRLF) < |r.buf|
    ensures var (q, ok) := Drain(cfg, r, first);
            var x := q.Append(b);
            && !ok && Drain(cfg, r.Append(b), first) == (x, false)
            && (Refused(cfg, x) || Find(r.buf, CRLF) == 0)
  {
    hide Find;
    FindExtend(r.buf, b, CRLF);
    assert (r.buf + b)[..Find(r.buf, CRLF)] == r.buf[..Find(r.buf, CRLF)];
  }

  lemma {:induction false} DrainShrinks(cfg: Config, p: Parser, limited: bool)
    ensures |Drain(cfg, p, limited).0.buf| <= |p.buf|
    decreases |p.buf|, if p.phase == 1 then 1 else 0
  {
    if p.buf != [] && Step(cfg, p).More? {
      DrainShrinks(cfg, Step(cfg, p).next, p.phase != 2);
    }
  }

  /** The second call holds the line to the limit, one call would not. */
  lemma HeldOrNot(cfg: Config, x: Parser)
    ensures Drain(cfg, x, false) == Drain(cfg, x, true) <==> !OverLimit(x) || Refused(cfg, x)
  {
    if OverLimit(x) && Step(cfg, x).More? {
      DrainShrinks(cfg, Step(cfg, x).next, false);
    }
  }

  /** The first call held the line to the limit, one call may not. */
  lemma HeldThough(cfg: Config, q: Parser, b: string)
    requires OverLimit(q)
    ensures var x := q.Append(b);
            Drain(cfg, x, true) == (x, false) <==> OverLimit(x) || Refused(cfg, x)
  {
    var x := q.Append(b);
    if !OverLimit(x) {
      NowComplete(q, b);
      if Step(cfg, x).More? {
        DrainShrinks(cfg, Step(cfg, x).next, false);
      }
    }
  }

  /** A line over the limit that more text makes short enough was complete but for its line feed. */
  lemma NowComplete(q: Parser, b: string)
    requires q.phase == 2 && OverLimit(q) && !OverLimit(q.Append(b))
    ensures var pos := Find(q.buf + b, CRLF); 0 < pos < |q.buf + b|
  {
    ShortLineOfPiece(q.buf, b);
  }

  // ---------------------------------------------------------------------------------------------
  // The closing delimiter
  // ---------------------------------------------------------------------------------------------

  /** The call that brings the closing delimiter ends with it, and drops what follows. */
  lemma ClosedExactly(cfg: Config, r: Parser, first: bool, b: string)
    requires Closing(r)
    ensures var (q, ok) := Drain(cfg, r, first);
            && ok && (Drain(cfg, r.Append(b), first) == ParseCall(cfg, q, b) <==> b == "" || DASH <= b)
  {
    var q := r.(valid := true, buf := []);
    assert Closing(r.Append(b)) by { assert (r.buf + b)[..2] == r.buf[..2]; }
    assert Drain(cfg, q, true) == (q, true);
    ClosingStep(cfg, r);
    ClosingStep(cfg, r.Append(b));
    hide Step;
    assert Drain(cfg, r, first) == (q, true) && Drain(cfg, r.Append(b), first) == (q, true);
    AfterClosing(cfg, q, b);
  }

  /** From behind a boundary the parser comes back behind a boundary only with another part. */
  lemma {:induction false} NewEntryMeansMore(cfg: Config, p: Parser, limited: bool, n: nat)
    requires p.phase != 0 && |p.parts| >= n && (p.phase == 1 || p.phase == 2 || |p.parts| > n)
    ensures var q := Drain(cfg, p, limited).0; |q.parts| >= n && (q.phase == 1 || q.phase == 2 || |q.parts| > n)
    decreases |p.buf|, if p.phase == 1 then 1 else 0
  {
    hide Find;
    if p.buf != [] && Step(cfg, p).More? {
      NewEntryMeansMore(cfg, Step(cfg, p).next, p.phase != 2, n);
    }
  }

  /** A closed parser is left as it is by nothing, and by dashes. */
  lemma AfterClosing(cfg: Config, q: Parser, b: string)
    requires q.phase == 4 && q.valid && q.buf == []
    ensures ParseCall(cfg, q, b) == (q, true) <==> b == "" || DASH <= b
  {
    var x := q.Append(b);
    assert x.buf == b;
    assert DASH <= b ==> b[0] == DASH[0];
    assert CRLF <= b ==> b[0] == CRLF[0];
    if b != [] && CRLF <= b {
      var next := x.(phase := 1, buf := b[|CRLF|..]);
      assert Step(cfg, x) == More(next);
      NewEntryMeansMore(cfg, next, true, |q.parts|);
    } else if DASH <= b {
      assert Step(cfg, x) == More(q) && Drain(cfg, q, true) == (q, true);
      assert Drain(cfg, x, true) == Drain(cfg, q, true);
    } else if b != [] {
      assert Step(cfg, x) == Stop(x, true);
    }
  }

  // ---------------------------------------------------------------------------------------------
  // One header line in any pieces
  // ---------------------------------------------------------------------------------------------

  /** The start of a line below the limit, in the header phase. */
  lemma {:induction false} LineInPieces(cfg: Config, p: Parser, line: string, chunks: seq<string>)
    requires p.phase == 2 && line != "" && |line| < HEADER_MAX_LENGTH
    requires Find(line, CRLF) == |line| && cfg.headerOk(line)
    requires p.buf + Flatten(chunks) == line + CRLF && |p.buf| < |line + CRLF|
    ensures Feed(cfg, p, chunks) == (p.(lines := p.lines + [line], buf := []), true)
    decreases |chunks|
  {
    hide Find;
    var c, rest := chunks[0], chunks[1..];
    var x := p.Append(c);
    assert x.buf + Flatten(rest) == line + CRLF;
    if |x.buf| < |line + CRLF| {
      assert x.buf == (line + CRLF)[..|x.buf|];
      NotYet(line, |x.buf|);
      assert Drain(cfg, x, true) == (x, true);
      LineInPieces(cfg, x, line, rest);
      assert x.(lines := x.lines + [line], buf := []) == p.(lines := p.lines + [line], buf := []);
    } else {
      assert Flatten(rest) == [];
      assert x.buf == line + CRLF;
      var empty := p.(buf := []);
      assert empty.Append(line + CRLF) == x by { assert [] + (line + CRLF) == line + CRLF; }
      WholeLineTaken(cfg, empty, line);
      NothingMore(cfg, p.(lines := p.lines + [line], buf := []), rest);
    }
  }

  lemma {:induction false} NothingMore(cfg: Config, p: Parser, chunks: seq<string>)
    requires p.buf == [] && Flatten(chunks) == []
    ensures Feed(cfg, p, chunks) == (p, true)
    decreases |chunks|
  {
    if chunks != [] {
      assert chunks[0] == [] && p.Append([]) == p;
      NothingMore(cfg, p, chunks[1..]);
    }
  }

  lemma NotYet(line: string, n: nat)
    requires Find(line, CRLF) == |line| && n < |line| + 2
    ensures Find((line + CRLF)[..n], CRLF) == n
  {
    var s := (line + CRLF)[..n];
    forall j: nat | j < n ensures !OccursAt(s, j, CRLF) {
      assert j < |line| ==> !OccursAt(line, j, CRLF);
      if j + 2 <= n {
        if j + 2 <= |line| { assert s[j..j + 2] == line[j..j + 2]; }
        else { assert s[j..j + 2][1] == CRLF[0]; }
      }
    }
    FindIs(s, CRLF, n);
  }

  /** The line is taken as that one line, whatever the pieces. */
  ghost predicate TakenInAnyPieces(cfg: Config, p: Parser, line: string) {
    forall chunks :: Flatten(chunks) == line + CRLF ==> Feed(cfg, p, chunks) == (p.(lines := p.lines + [line]), true)
  }

  /** The limit, exactly: an acceptable header line is taken in any pieces if and only if it is below the limit, and as
      one piece also at the limit. */
  lemma LimitExactly(cfg: Config, p: Parser, line: string)
    requires p.phase == 2 && p.buf == [] && line != ""
    requires Find(line, CRLF) == |line| && cfg.headerOk(line)
    ensures TakenInAnyPieces(cfg, p, line) <==> |line| < HEADER_MAX_LENGTH
    ensures ParseCall(cfg, p, line + CRLF) == (p.(lines := p.lines + [line]), true) <==> |line| <= HEADER_MAX_LENGTH
  {
    if |line| <= HEADER_MAX_LENGTH { WholeLineTaken(cfg, p, line); } else { TooLongAtOnce(cfg, p, line); }
    hide Drain, Find;
    if |line| < HEADER_MAX_LENGTH {
      forall chunks | Flatten(chunks) == line + CRLF
        ensures Feed(cfg, p, chunks) == (p.(lines := p.lines + [line]), true)
      {
        assert [] + Flatten(chunks) == Flatten(chunks);
        LineInPieces(cfg, p, line, chunks);
        assert p.(lines := p.lines + [line], buf := []) == p.(lines := p.lines + [line]);
      }
    } else {
      BadCut(cfg, p, line);
    }
  }

  /** Only the first line of an entry in a call is held to the limit: behind it, in the same call, a line of any length
      is taken. */
  lemma OnlyFirstIsHeld(cfg: Config, p: Parser, first: string, second: string)
    requires p.phase == 2 && p.buf == [] && first != "" && |first| <= HEADER_MAX_LENGTH && second != ""
    requires Find(first, CRLF) == |first| && Find(second, CRLF) == |second|
    requires cfg.headerOk(first) && cfg.headerOk(second)
    ensures ParseCall(cfg, p, first + CRLF + (second + CRLF)) == (p.(lines := p.lines + [first, second]), true)
  {
    hide Step;
    var x, y := p.Append(first + CRLF + (second + CRLF)), p.(lines := p.lines + [first], buf := second + CRLF);
    assert x.buf == first + CRLF + (second + CRLF) && y.buf == second + CRLF + "";
    OneLine(cfg, x, first, second + CRLF);
    OneLine(cfg, y, second, "");
    var q := p.(lines := p.lines + [first, second]);
    assert p.lines + [first] + [second] == p.lines + [first, second];
    assert Drain(cfg, q, false) == (q, true) && Drain(cfg, y, false) == (q, true);
  }

  lemma OneLine(cfg: Config, x: Parser, line: string, rest: string)
    requires x.phase == 2 && x.buf == line + CRLF + rest && line != ""
    requires Find(line, CRLF) == |line| && cfg.headerOk(line)
    ensures Find(x.buf, CRLF) == |line|
    ensures Step(cfg, x) == More(x.(lines := x.lines + [line], buf := rest))
  {
    FindAtSeam(line, CRLF, rest);
    hide Find;
    assert x.buf[..|line|] == line && x.buf[|line| + |CRLF|..] == rest;
  }

  lemma TooLongAtOnce(cfg: Config, p: Parser, line: string)
    requires p.phase == 2 && p.buf == [] && |line| > HEADER_MAX_LENGTH && Find(line, CRLF) == |line|
    ensures !ParseCall(cfg, p, line + CRLF).1
  {
    FindAtSeam(line, CRLF, []);
    assert p.Append(line + CRLF).buf == line + CRLF + [];
  }

  /** A line at or over the limit is refused when a call ends between its CR and LF. */
  lemma BadCut(cfg: Config, p: Parser, line: string)
    requires p.phase == 2 && p.buf == [] && |line| >= HEADER_MAX_LENGTH && Find(line, CRLF) == |line|
    ensures var chunks := [line + "\r", "\n"];
            Flatten(chunks) == line + CRLF && !Feed(cfg, p, chunks).1
  {
    hide Find;
    var chunks := [line + "\r", "\n"];
    assert chunks[1..] == ["\n"] && ["\n"][1..] == [];
    assert Flatten(["\n"]) == "\n" + [];
    assert line + "\r" + "\n" == line + CRLF;
    NoCrlfYet(line);
    assert p.Append(line + "\r").buf == line + "\r";
  }
}
