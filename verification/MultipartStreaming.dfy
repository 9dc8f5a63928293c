/** Cutting the input into `parse` calls does not change what the multipart parser does. */
module MultipartStreaming {
  import opened Text
  import opened Multipart

  ghost predicate Accepting(cfg: Config) {
    forall parts :: cfg.accept(parts)
  }

  /** The same parser with a receiver that takes everything. */
  function AcceptAll(cfg: Config): Config {
    cfg.(accept := _ => true)
  }

  /** A receiver is asked the same questions and gives the same answers while the calls succeed: what holds of receivers
      that take everything holds of every receiver in the calls that it does not make fail. */
  lemma {:induction false} AcceptedDrain(cfg: Config, p: Parser, limited: bool)
    requires Drain(cfg, p, limited).1
    ensures Drain(AcceptAll(cfg), p, limited) == Drain(cfg, p, limited)
    decreases |p.buf|, if p.phase == 1 then 1 else 0
  {
    if p.buf != [] {
      AcceptedStep(cfg, p);
      if Step(cfg, p).More? { AcceptedDrain(cfg, Step(cfg, p).next, p.phase != 2); }
    }
  }

  lemma AcceptedStep(cfg: Config, p: Parser)
    requires p.buf != [] && (Step(cfg, p).More? || Step(cfg, p).ok)
    ensures Step(AcceptAll(cfg), p) == Step(cfg, p)
  {
    hide Find, Deliver;
    assert AcceptAll(cfg).DashBoundaryCrlf() == cfg.DashBoundaryCrlf();
    assert AcceptAll(cfg).CrlfDashBoundary() == cfg.CrlfDashBoundary();
  }

  lemma {:induction false} AcceptedFeed(cfg: Config, p: Parser, chunks: seq<string>)
    requires Feed(cfg, p, chunks).1
    ensures Feed(AcceptAll(cfg), p, chunks) == Feed(cfg, p, chunks)
    decreases |chunks|
  {
    hide Drain;
    if chunks != [] {
      AcceptedDrain(cfg, p.Append(chunks[0]), true);
      AcceptedFeed(cfg, ParseCall(cfg, p, chunks[0]).0, chunks[1..]);
    }
  }

  /** The loop without the header length limit: as many steps as the buffer allows. */
  function Run(cfg: Config, p: Parser): (Parser, bool)
    decreases |p.buf|, if p.phase == 1 then 1 else 0
  {
    if p.buf == [] then (p, true)
    else
      match Step(cfg, p)
      case Stop(q, ok) => (q, ok)
      case More(q) => Run(cfg, q)
  }

  /** Along the run every complete header line is shorter than the limit, and a line still incomplete
      (it may already end in CR) does not exceed it. */
  predicate ShortHeaders(cfg: Config, p: Parser)
    decreases |p.buf|, if p.phase == 1 then 1 else 0
  {
    p.buf == []
    || ((p.phase == 2 ==> if Find(p.buf, CRLF) < |p.buf| then Find(p.buf, CRLF) < HEADER_MAX_LENGTH
                          else |p.buf| <= HEADER_MAX_LENGTH)
        && (Step(cfg, p).More? ==> ShortHeaders(cfg, Step(cfg, p).next)))
  }

  lemma {:induction false} LimitNotReached(cfg: Config, p: Parser, limited: bool)
    requires ShortHeaders(cfg, p)
    ensures Drain(cfg, p, limited) == Run(cfg, p)
    decreases |p.buf|, if p.phase == 1 then 1 else 0
  {
    if p.buf != [] && Step(cfg, p).More? {
      LimitNotReached(cfg, Step(cfg, p).next, p.phase != 2);
    }
  }

  lemma DeliverTwice(parts: seq<Part>, a: string, b: string)
    ensures Deliver(Deliver(parts, a), b) == Deliver(parts, a + b)
  {
    if parts != [] {
      var i := |parts| - 1;
      assert parts[i].content + a + b == parts[i].content + (a + b);
    }
  }

  /** The closing delimiter comes next. */
  predicate Closing(p: Parser) {
    p.phase == 4 && DASH <= p.buf
  }

  lemma ClosingStep(cfg: Config, p: Parser)
    requires Closing(p)
    ensures Step(cfg, p) == More(p.(valid := true, buf := []))
  {
    assert p.buf[..2] == DASH;
    assert CRLF[0] != DASH[0];
  }

  /** A step that consumed input takes the same input, and leaves the rest, when more input follows; the step past the
      closing delimiter is the only other one. */
  lemma StepMoreExtends(cfg: Config, p: Parser, b: string)
    requires p.phase != 0 && p.buf != [] && Step(cfg, p).More? && (!Closing(p) || !Step(cfg, p).next.valid)
    ensures Step(cfg, p.Append(b)) == More(Step(cfg, p).next.Append(b))
  {
    hide HeaderStep, BodyStep;
    if Closing(p) { ClosingStep(cfg, p); }
    match p.phase
    case 1 =>
    case 2 => HeaderMoreExtends(cfg, p, b);
    case 3 => BodyMoreExtends(cfg, p, b);
    case 4 => assert (p.buf + b)[|CRLF|..] == p.buf[|CRLF|..] + b;
  }

  lemma HeaderMoreExtends(cfg: Config, p: Parser, b: string)
    requires HeaderStep(cfg, p).More?
    ensures HeaderStep(cfg, p.Append(b)) == More(HeaderStep(cfg, p).next.Append(b))
  {
    hide Find;
    FindExtend(p.buf, b, CRLF);
    CutExtends(p.buf, b, Find(p.buf, CRLF), |CRLF|);
  }

  lemma BodyMoreExtends(cfg: Config, p: Parser, b: string)
    requires BodyStep(cfg, p).More?
    ensures BodyStep(cfg, p.Append(b)) == More(BodyStep(cfg, p).next.Append(b))
  {
    hide Find, Deliver;
    FindExtend(p.buf, b, cfg.CrlfDashBoundary());
    CutExtends(p.buf, b, Find(p.buf, cfg.CrlfDashBoundary()), |cfg.CrlfDashBoundary()|);
  }

  lemma CutExtends(s: string, t: string, i: nat, n: nat)
    requires i + n <= |s|
    ensures (s + t)[..i] == s[..i] && (s + t)[i + n..] == s[i + n..] + t
  {
  }

  lemma StepFailureExtends(cfg: Config, p: Parser, b: string)
    requires p.phase != 0 && p.buf != [] && Accepting(cfg)
    requires Step(cfg, p).Stop? && !Step(cfg, p).ok
    ensures Step(cfg, p.Append(b)) == Stop(Step(cfg, p).last.Append(b), false)
  {
    FindExtend(p.buf, b, CRLF);
    assert (p.buf + b)[..Find(p.buf, CRLF)] == p.buf[..Find(p.buf, CRLF)];
  }

  /** When the body phase pauses it has handed on all but the last |CRLF--boundary| bytes; resuming
      from there gives what an uninterrupted run gives. */
  lemma BodyResumes(cfg: Config, p: Parser, b: string)
    requires b != [] && Accepting(cfg) && BodyStep(cfg, p).Stop?
    ensures BodyStep(cfg, p.Append(b)) == BodyStep(cfg, BodyStep(cfg, p).last.Append(b))
  {
    if |cfg.CrlfDashBoundary()| < |p.buf| {
      BodyResumesAfterHandOver(cfg, p, b);
    }
  }

  /** A failed step leaves all its input unread. */
  function Refusing(o: Outcome, unread: string): Outcome {
    if o.Stop? && !o.ok then Stop(o.last.(buf := unread), false) else o
  }

  /** The same for any receiver: it is asked about the same parts; only where it refuses more bytes are left unread. */
  lemma BodyResumesAfterHandOver(cfg: Config, p: Parser, b: string)
    requires b != []
    requires |cfg.CrlfDashBoundary()| < |p.buf| == Find(p.buf, cfg.CrlfDashBoundary())
    ensures var len := |p.buf| - |cfg.CrlfDashBoundary()|;
            BodyStep(cfg, p.Append(b))
            == Refusing(BodyStep(cfg, p.(buf := p.buf[len..] + b, parts := Deliver(p.parts, p.buf[..len]))), p.buf + b)
  {
    hide BodyStep, Deliver, Find;
    var len := |p.buf| - |cfg.CrlfDashBoundary()|;
    var head, rest := p.buf[..len], p.buf[len..] + b;
    FindFromTail(p.buf, b, cfg.CrlfDashBoundary());
    assert p.buf + b == head + rest;
    assert p.Append(b) == p.(buf := head + rest);
    if Find(rest, cfg.CrlfDashBoundary()) < |rest| {
      HandOverThenEnd(cfg, p, head, rest);
    } else {
      HandOverThenPause(cfg, p, head, rest);
    }
  }

  lemma HandOverThenEnd(cfg: Config, p: Parser, head: string, rest: string)
    requires var delimiter := cfg.CrlfDashBoundary();
             Find(rest, delimiter) < |rest| && Find(head + rest, delimiter) == |head| + Find(rest, delimiter)
    ensures BodyStep(cfg, p.(buf := head + rest))
         == Refusing(BodyStep(cfg, p.(buf := rest, parts := Deliver(p.parts, head))), head + rest)
  {
    hide Deliver, Find;
    var delimiter := cfg.CrlfDashBoundary();
    var pos := Find(rest, delimiter);
    assert (head + rest)[..|head| + pos] == head + rest[..pos];
    assert (head + rest)[|head| + pos + |delimiter|..] == rest[pos + |delimiter|..];
    DeliverTwice(p.parts, head, rest[..pos]);
  }

  lemma HandOverThenPause(cfg: Config, p: Parser, head: string, rest: string)
    requires head != []
    requires var delimiter := cfg.CrlfDashBoundary();
             |delimiter| < |rest| == Find(rest, delimiter) && Find(head + rest, delimiter) == |head| + |rest|
    ensures BodyStep(cfg, p.(buf := head + rest))
         == Refusing(BodyStep(cfg, p.(buf := rest, parts := Deliver(p.parts, head))), head + rest)
  {
    hide Deliver, Find;
    var len := |rest| - |cfg.CrlfDashBoundary()|;
    assert (head + rest)[..|head| + len] == head + rest[..len];
    assert (head + rest)[|head| + len..] == rest[len..];
    DeliverTwice(p.parts, head, rest[..len]);
  }

  /** Stopping where the input ends, then going on with more, is the same as one run over it all; a
      run that failed fails at the same place. */
  lemma {:induction false} RunResumes(cfg: Config, p: Parser, b: string)
    requires p.phase != 0 && Accepting(cfg) && !p.valid && !Run(cfg, p).0.valid
    ensures var (q, ok) := Run(cfg, p);
            Run(cfg, p.Append(b)) == if ok then Run(cfg, q.Append(b)) else (q.Append(b), false)
    decreases |p.buf|, if p.phase == 1 then 1 else 0
  {
    if b == [] {
      RunTwice(cfg, p);
      assert p.Append(b) == p && Run(cfg, p).0.Append(b) == Run(cfg, p).0;
    } else if p.buf != [] {
      if Step(cfg, p).More? {
        StepMoreExtends(cfg, p, b);
        RunResumes(cfg, Step(cfg, p).next, b);
      } else {
        PauseResumes(cfg, p, b);
      }
    }
  }

  lemma PauseResumes(cfg: Config, p: Parser, b: string)
    requires p.phase != 0 && p.buf != [] && b != [] && Accepting(cfg) && Step(cfg, p).Stop?
    ensures var Stop(q, ok) := Step(cfg, p);
            Run(cfg, p.Append(b)) == if ok then Run(cfg, q.Append(b)) else (q.Append(b), false)
  {
    if !Step(cfg, p).ok {
      StepFailureExtends(cfg, p, b);
    } else if p.phase == 3 {
      BodyResumes(cfg, p, b);
    }
  }

  lemma {:induction false} RunTwice(cfg: Config, p: Parser)
    requires p.phase != 0 && Accepting(cfg)
    ensures Run(cfg, p).1 ==> Run(cfg, Run(cfg, p).0) == Run(cfg, p)
    decreases |p.buf|, if p.phase == 1 then 1 else 0
  {
    if p.buf != [] {
      match Step(cfg, p)
      case More(q) => RunTwice(cfg, q);
      case Stop(q, ok) =>
        if p.phase == 3 && ok && |p.buf| > |cfg.CrlfDashBoundary()| {
          TailWithoutPattern(p.buf, cfg.CrlfDashBoundary());
        }
    }
  }

  lemma TailWithoutPattern(s: string, pat: string)
    requires 0 < |pat| <= |s| && Find(s, pat) == |s|
    ensures Find(s[|s| - |pat|..], pat) == |pat|
  {
    FindFromTail(s, [], pat);
    assert s + [] == s && s[|s| - |pat|..] + [] == s[|s| - |pat|..];
  }

  /** Once the closing delimiter has been seen the parser stays valid unless it fails. */
  lemma {:induction false} ValidStays(cfg: Config, p: Parser)
    requires Accepting(cfg)
    ensures Run(cfg, p).1 && p.valid ==> Run(cfg, p).0.valid
    decreases |p.buf|, if p.phase == 1 then 1 else 0
  {
    if p.buf != [] && Step(cfg, p).More? {
      ValidStays(cfg, Step(cfg, p).next);
    }
  }

  /** The closing delimiter drops all that follows it in the same buffer. */
  lemma {:induction false} ClosingDropsTheRest(cfg: Config, p: Parser, b: string)
    requires p.phase != 0 && Accepting(cfg) && !p.valid && Run(cfg, p).1 && Run(cfg, p).0.valid
    ensures Run(cfg, p.Append(b)) == Run(cfg, p)
    ensures ShortHeaders(cfg, p) ==> ShortHeaders(cfg, p.Append(b))
    decreases |p.buf|, if p.phase == 1 then 1 else 0
  {
    var q := Step(cfg, p).next;
    if !q.valid {
      StepMoreExtends(cfg, p, b);
      if p.phase == 2 { ShortLineOfPiece(p.buf, b); }
      ClosingDropsTheRest(cfg, q, b);
    }
  }

  lemma {:induction false} FailureIsInvalid(cfg: Config, p: Parser)
    requires p.phase != 0 && Accepting(cfg) && !Run(cfg, p).1
    ensures !Run(cfg, p).0.valid
    decreases |p.buf|, if p.phase == 1 then 1 else 0
  {
    if Step(cfg, p).More? { FailureIsInvalid(cfg, Step(cfg, p).next); }
  }

  /** Short headers of the whole input are short headers of each of its pieces. */
  lemma {:induction false} ShortHeadersOfPieces(cfg: Config, p: Parser, b: string)
    requires p.phase != 0 && Accepting(cfg) && !p.valid && !Run(cfg, p).0.valid
    requires b != [] && ShortHeaders(cfg, p.Append(b))
    ensures ShortHeaders(cfg, p)
    ensures Run(cfg, p).1 ==> ShortHeaders(cfg, Run(cfg, p).0.Append(b))
    decreases |p.buf|, if p.phase == 1 then 1 else 0
  {
    if p.buf != [] {
      if p.phase == 2 { ShortLineOfPiece(p.buf, b); }
      if Step(cfg, p).More? {
        StepMoreExtends(cfg, p, b);
        ShortHeadersOfPieces(cfg, Step(cfg, p).next, b);
      } else if p.phase == 3 && Step(cfg, p).ok {
        BodyResumes(cfg, p, b);
      }
    }
  }

  lemma ShortLineOfPiece(s: string, b: string)
    ensures Find(s, CRLF) < |s| ==> Find(s + b, CRLF) == Find(s, CRLF)
    ensures Find(s, CRLF) == |s| ==> |s| <= Find(s + b, CRLF) + 1
  {
    if Find(s, CRLF) < |s| {
      FindExtend(s, b, CRLF);
    } else {
      forall j: nat | j + 2 <= |s| ensures !OccursAt(s + b, j, CRLF) {
        assert !OccursAt(s, j, CRLF);
        assert (s + b)[j..j + 2] == s[j..j + 2];
      }
    }
  }

  /** Streaming invariance of two calls: past the initial boundary and before the closing delimiter,
      `parse(a)` then `parse(b)` leaves the state, the unread bytes and the parts of `parse(a + b)`. */
  lemma TwoCallsAreOne(cfg: Config, p: Parser, a: string, b: string)
    requires p.phase != 0 && Accepting(cfg) && !p.valid
    requires ShortHeaders(cfg, p.Append(a + b))
    requires !ParseCall(cfg, p, a).0.valid
    ensures var (q, ok) := ParseCall(cfg, p, a);
            ParseCall(cfg, p, a + b) == if ok then ParseCall(cfg, q, b) else (q.Append(b), false)
  {
    assert p.buf + (a + b) == p.buf + a + b;
    var pa := p.Append(a);
    if b == [] {
      assert pa.Append(b) == pa;
      LimitNotReached(cfg, pa, true);
      RunTwice(cfg, pa);
      var q := Run(cfg, pa).0;
      assert q.Append(b) == q;
      if Run(cfg, pa).1 {
        ShortHeadersAtRest(cfg, pa);
        LimitNotReached(cfg, q, true);
      }
    } else {
      NotClosedWithinLimit(cfg, pa, b);
      ShortHeadersOfPieces(cfg, pa, b);
      LimitNotReached(cfg, pa, true);
      LimitNotReached(cfg, pa.Append(b), true);
      RunResumes(cfg, pa, b);
      if Run(cfg, pa).1 { LimitNotReached(cfg, Run(cfg, pa).0.Append(b), true); }
    }
  }

  lemma {:induction false} ShortHeadersAtRest(cfg: Config, p: Parser)
    requires p.phase != 0 && Accepting(cfg) && ShortHeaders(cfg, p) && Run(cfg, p).1
    ensures ShortHeaders(cfg, Run(cfg, p).0)
    decreases |p.buf|, if p.phase == 1 then 1 else 0
  {
    hide Find;
    if p.buf != [] {
      if Step(cfg, p).More? {
        ShortHeadersAtRest(cfg, Step(cfg, p).next);
      } else if p.phase == 3 {
        RunTwice(cfg, p);
      }
    }
  }

  /** The limit cannot be what keeps a prefix of short-header input from closing. */
  lemma NotClosedWithinLimit(cfg: Config, p: Parser, b: string)
    requires p.phase != 0 && Accepting(cfg) && !p.valid && b != []
    requires ShortHeaders(cfg, p.Append(b)) && !Drain(cfg, p, true).0.valid
    ensures !Run(cfg, p).0.valid
  {
    ClosedRunIsShort(cfg, p, b);
    if Run(cfg, p).0.valid { LimitNotReached(cfg, p, true); }
  }

  lemma {:induction false} ClosedRunIsShort(cfg: Config, p: Parser, b: string)
    requires p.phase != 0 && Accepting(cfg) && !p.valid && b != []
    requires ShortHeaders(cfg, p.Append(b))
    ensures Run(cfg, p).0.valid ==> ShortHeaders(cfg, p)
    decreases |p.buf|, if p.phase == 1 then 1 else 0
  {
    if p.buf != [] && Step(cfg, p).More? && !Step(cfg, p).next.valid {
      StepMoreExtends(cfg, p, b);
      if p.phase == 2 { ShortLineOfPiece(p.buf, b); }
      ClosedRunIsShort(cfg, Step(cfg, p).next, b);
    }
  }

  /** Any number of calls: feeding the pieces is one call with the whole. */
  lemma {:induction false} FeedIsOneCall(cfg: Config, p: Parser, chunks: seq<string>)
    requires p.phase != 0 && Accepting(cfg) && !p.valid && chunks != []
    requires ShortHeaders(cfg, p.Append(Flatten(chunks)))
    requires !ParseCall(cfg, p, Flatten(chunks)).0.valid
    ensures Feed(cfg, p, chunks).1 == ParseCall(cfg, p, Flatten(chunks)).1
    ensures Feed(cfg, p, chunks).1 ==> Feed(cfg, p, chunks) == ParseCall(cfg, p, Flatten(chunks))
    decreases |chunks|
  {
    var a, rest := chunks[0], Flatten(chunks[1..]);
    if |chunks| == 1 {
      assert rest == [] && a + rest == a;
    } else {
      NotClosedByPiece(cfg, p, a, rest);
      TwoCallsAreOne(cfg, p, a, rest);
      var (q, ok) := ParseCall(cfg, p, a);
      if ok {
        PieceLeavesShortHeaders(cfg, p, a, rest);
        FeedIsOneCall(cfg, q, chunks[1..]);
      }
    }
  }

  lemma NotClosedByPiece(cfg: Config, p: Parser, a: string, b: string)
    requires p.phase != 0 && Accepting(cfg) && !p.valid
    requires ShortHeaders(cfg, p.Append(a + b)) && !ParseCall(cfg, p, a + b).0.valid
    ensures !ParseCall(cfg, p, a).0.valid
  {
    var pa := p.Append(a);
    assert p.Append(a + b) == pa.Append(b) by { assert p.buf + (a + b) == p.buf + a + b; }
    LimitNotReached(cfg, pa.Append(b), true);
    if b == [] {
      assert pa.Append(b) == pa;
    } else {
      ClosedRunIsShort(cfg, pa, b);
      if Run(cfg, pa).0.valid {
        if !Run(cfg, pa).1 { FailureIsInvalid(cfg, pa); }
        ClosingDropsTheRest(cfg, pa, b);
      }
      LimitedRunNotValid(cfg, pa, true);
    }
  }

  lemma {:induction false} LimitedRunNotValid(cfg: Config, p: Parser, limited: bool)
    requires !p.valid && !Run(cfg, p).0.valid
    ensures !Drain(cfg, p, limited).0.valid
    decreases |p.buf|, if p.phase == 1 then 1 else 0
  {
    if p.buf != [] && Step(cfg, p).More? {
      var q := Step(cfg, p).next;
      if !q.valid { LimitedRunNotValid(cfg, q, p.phase != 2); }
    }
  }

  lemma PieceLeavesShortHeaders(cfg: Config, p: Parser, a: string, b: string)
    requires p.phase != 0 && Accepting(cfg) && !p.valid
    requires ShortHeaders(cfg, p.Append(a + b)) && !ParseCall(cfg, p, a).0.valid && ParseCall(cfg, p, a).1
    ensures ShortHeaders(cfg, ParseCall(cfg, p, a).0.Append(b))
    ensures ParseCall(cfg, p, a).0.phase != 0
  {
    hide Drain, Run, ShortHeaders;
    var pa := p.Append(a);
    assert p.Append(a + b) == pa.Append(b) by { assert p.buf + (a + b) == p.buf + a + b; }
    PhaseStaysPositive(cfg, pa, true);
    if b == [] {
      assert pa.Append(b) == pa && pa.phase != 0;
      LimitNotReached(cfg, pa, true);
      ShortHeadersAtRest(cfg, pa);
      assert Run(cfg, pa).0.Append(b) == Run(cfg, pa).0;
    } else {
      NotClosedWithinLimit(cfg, pa, b);
      ShortHeadersOfPieces(cfg, pa, b);
      LimitNotReached(cfg, pa, true);
    }
  }

  lemma {:induction false} PhaseStaysPositive(cfg: Config, p: Parser, limited: bool)
    requires p.phase != 0
    ensures Drain(cfg, p, limited).0.phase != 0
    decreases |p.buf|, if p.phase == 1 then 1 else 0
  {
    if p.buf != [] && Step(cfg, p).More? { PhaseStaysPositive(cfg, Step(cfg, p).next, p.phase != 2); }
  }

  /** Parts closed before are never touched again. */
  ghost predicate KeepsPart(q: Parser, i: nat, part: Part) {
    i < |q.parts| && q.parts[i] == part && (q.phase == 3 ==> i < |q.parts| - 1)
  }

  lemma {:induction false} DrainKeepsPart(cfg: Config, p: Parser, limited: bool, i: nat, part: Part)
    requires KeepsPart(p, i, part)
    ensures KeepsPart(Drain(cfg, p, limited).0, i, part)
    decreases |p.buf|, if p.phase == 1 then 1 else 0
  {
    if p.buf != [] && Step(cfg, p).More? {
      DrainKeepsPart(cfg, Step(cfg, p).next, p.phase != 2, i, part);
    }
  }

  lemma {:induction false} FeedKeepsPart(cfg: Config, p: Parser, chunks: seq<string>, i: nat, part: Part)
    requires KeepsPart(p, i, part)
    ensures KeepsPart(Feed(cfg, p, chunks).0, i, part)
    decreases |chunks|
  {
    hide Drain;
    if chunks != [] {
      DrainKeepsPart(cfg, p.Append(chunks[0]), true, i, part);
      FeedKeepsPart(cfg, ParseCall(cfg, p, chunks[0]).0, chunks[1..], i, part);
    }
  }

  /** What has become of the body under way, the last of `parts`, when `whole` was the stream from there
      on: all up to the first CRLF--boundary was handed on; while there is none, bytes handed on and
      bytes held back are the whole stream. */
  ghost predicate BodyOf(cfg: Config, parts: seq<Part>, whole: string, q: Parser)
    requires parts != []
  {
    var i, pos := |parts| - 1, Find(whole, cfg.CrlfDashBoundary());
    && i < |q.parts|
    && q.parts[i].headers == parts[i].headers
    && if pos < |whole| then q.parts[i].content == parts[i].content + whole[..pos]
       else q.phase == 3 && |q.parts| == i + 1 && q.parts[i].content + q.buf == parts[i].content + whole
  }

  /** The body phase hands on exactly the bytes before the first CRLF--boundary of the whole stream,
      whatever the split and whatever comes after. */
  lemma {:induction false} BodyIsUpToTheDelimiter(cfg: Config, p: Parser, chunks: seq<string>)
    requires p.phase == 3 && p.parts != [] && Accepting(cfg) && chunks != []
    ensures BodyOf(cfg, p.parts, p.buf + Flatten(chunks), Feed(cfg, p, chunks).0)
    decreases |chunks|
  {
    hide Drain, Find, Deliver, BodyOf;
    var a, rest := chunks[0], Flatten(chunks[1..]);
    var pa := p.Append(a);
    assert p.buf + Flatten(chunks) == pa.buf + rest;
    if Find(pa.buf, cfg.CrlfDashBoundary()) < |pa.buf| {
      BodyEnds(cfg, pa, rest);
      var q, i := ParseCall(cfg, p, a).0, |p.parts| - 1;
      FindExtend(pa.buf, rest, cfg.CrlfDashBoundary());
      FeedKeepsPart(cfg, q, chunks[1..], i, q.parts[i]);
      BodyOfKept(cfg, p.parts, pa.buf + rest, q, Feed(cfg, p, chunks).0);
    } else {
      BodyPauses(cfg, pa);
      var q := ParseCall(cfg, p, a).0;
      if |chunks| == 1 {
        assert Feed(cfg, q, []) == (q, true) && chunks[1..] == [];
        BodyAtRest(cfg, pa.buf, q.parts, q);
      } else {
        BodyIsUpToTheDelimiter(cfg, q, chunks[1..]);
      }
      BodyAcrossPause(cfg, pa, rest, q, Feed(cfg, q, chunks[1..]).0);
    }
  }

  lemma BodyOfKept(cfg: Config, parts: seq<Part>, whole: string, q: Parser, r: Parser)
    requires parts != [] && BodyOf(cfg, parts, whole, q) && Find(whole, cfg.CrlfDashBoundary()) < |whole|
    requires KeepsPart(r, |parts| - 1, q.parts[|parts| - 1])
    ensures BodyOf(cfg, parts, whole, r)
  {
  }

  lemma BodyEnds(cfg: Config, p: Parser, rest: string)
    requires p.phase == 3 && p.parts != [] && Accepting(cfg) && Find(p.buf, cfg.CrlfDashBoundary()) < |p.buf|
    ensures var q, i := Drain(cfg, p, true).0, |p.parts| - 1;
            BodyOf(cfg, p.parts, p.buf + rest, q) && KeepsPart(q, i, q.parts[i])
  {
    hide Find;
    FindExtend(p.buf, rest, cfg.CrlfDashBoundary());
    var pos := Find(p.buf, cfg.CrlfDashBoundary());
    assert (p.buf + rest)[..pos] == p.buf[..pos];
    var q, i := BodyStep(cfg, p).next, |p.parts| - 1;
    DrainKeepsPart(cfg, q, true, i, q.parts[i]);
  }

  function HandedOver(cfg: Config, s: string): (len: nat) {
    if |s| <= |cfg.CrlfDashBoundary()| then 0 else |s| - |cfg.CrlfDashBoundary()|
  }

  lemma BodyPauses(cfg: Config, p: Parser)
    requires p.phase == 3 && p.parts != [] && Accepting(cfg) && Find(p.buf, cfg.CrlfDashBoundary()) == |p.buf|
    ensures var len := HandedOver(cfg, p.buf);
            Drain(cfg, p, true) == (p.(buf := p.buf[len..], parts := Deliver(p.parts, p.buf[..len])), true)
    ensures |Drain(cfg, p, true).0.parts| == |p.parts|
  {
    hide Find;
    var i := |p.parts| - 1;
    assert p.buf[0..] == p.buf;
    assert p.parts[i].content + p.buf[..0] == p.parts[i].content;
    assert p.parts[i := p.parts[i]] == p.parts;
  }

  lemma BodyAtRest(cfg: Config, s: string, parts: seq<Part>, q: Parser)
    requires Find(s, cfg.CrlfDashBoundary()) == |s| && parts != []
    requires q.phase == 3 && q.parts == parts && q.buf == s[HandedOver(cfg, s)..]
    ensures BodyOf(cfg, parts, q.buf + "", q)
  {
    assert q.buf + "" == q.buf;
    if HandedOver(cfg, s) > 0 { TailWithoutPattern(s, cfg.CrlfDashBoundary()); }
  }

  lemma BodyAcrossPause(cfg: Config, p: Parser, rest: string, q: Parser, r: Parser)
    requires p.parts != [] && Find(p.buf, cfg.CrlfDashBoundary()) == |p.buf|
    requires var len := HandedOver(cfg, p.buf);
             q == p.(buf := p.buf[len..], parts := Deliver(p.parts, p.buf[..len]))
    requires BodyOf(cfg, q.parts, q.buf + rest, r)
    ensures BodyOf(cfg, p.parts, p.buf + rest, r)
  {
    hide BodyOf, Find;
    FindAcrossPause(cfg, p.buf, rest);
    var head := p.buf[..HandedOver(cfg, p.buf)];
    assert p.buf + rest == head + (q.buf + rest);
    BodyShifted(cfg, p.parts, head, q.parts, q.buf + rest, r);
  }

  lemma BodyShifted(cfg: Config, parts: seq<Part>, head: string, given: seq<Part>, tail: string, r: Parser)
    requires parts != [] && given == Deliver(parts, head) && BodyOf(cfg, given, tail, r)
    requires Find(head + tail, cfg.CrlfDashBoundary()) == |head| + Find(tail, cfg.CrlfDashBoundary())
    ensures BodyOf(cfg, parts, head + tail, r)
  {
    hide Find;
    CutAcross(parts[|parts| - 1].content, head, tail, Find(tail, cfg.CrlfDashBoundary()));
  }

  lemma FindAcrossPause(cfg: Config, s: string, rest: string)
    requires Find(s, cfg.CrlfDashBoundary()) == |s|
    ensures var len := HandedOver(cfg, s);
            Find(s + rest, cfg.CrlfDashBoundary()) == len + Find(s[len..] + rest, cfg.CrlfDashBoundary())
  {
    if HandedOver(cfg, s) > 0 {
      FindFromTail(s, rest, cfg.CrlfDashBoundary());
    } else {
      assert s[0..] == s;
    }
  }

  lemma CutAcross(a: string, b: string, c: string, pos: nat)
    requires pos <= |c|
    ensures a + (b + c)[..|b| + pos] == a + b + c[..pos]
    ensures a + (b + c) == a + b + c
  {
    assert (b + c)[..|b| + pos] == b + c[..pos];
  }
}
