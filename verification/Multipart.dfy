/** The incremental multipart/form-data parser (section 4.1 of RFC 7578, section 5.1.1 of RFC 2046):
    its transitions as functions on values, and the buffered class that performs them in place. */
module Multipart {
  import opened Text

  const HEADER_MAX_LENGTH: nat := 8192
  const CRLF: string := "\r\n"
  const DASH: string := "--"

  /** One entry as the receiver sees it: raw header lines, and the content received so far. */
  datatype Part = Part(headers: seq<string>, content: string)

  /** What the parser is given: the boundary, the header-line check, and the receiver's answers,
      as a function of what it has been given so far. */
  datatype Config = Config(boundary: string, headerOk: string -> bool, accept: seq<Part> -> bool) {
    function DashBoundaryCrlf(): string { DASH + boundary + CRLF }
    function CrlfDashBoundary(): string { CRLF + DASH + boundary }
  }

  type Phase = n: nat | n <= 4

  /** The parser's state: `lines` are the header lines of the entry under way, `buf` the unread bytes,
      `parts` what the receiver has been given. */
  datatype Parser = Parser(phase: Phase, valid: bool, lines: seq<string>, buf: string, parts: seq<Part>) {
    function Append(data: string): Parser { this.(buf := buf + data) }
  }

  const INITIAL: Parser := Parser(0, false, [], [], [])

  datatype Outcome = More(next: Parser) | Stop(last: Parser, ok: bool)

  /** Content goes to the entry opened last. */
  function Deliver(parts: seq<Part>, data: string): seq<Part> {
    if parts == [] then []
    else
      var i := |parts| - 1;
      parts[i := parts[i].(content := parts[i].content + data)]
  }

  /** One pass through the parser's loop, header lines taken one at a time, without the length limit. */
  function Step(cfg: Config, p: Parser): (o: Outcome)
    requires p.buf != []
    ensures o.More? ==> |o.next.buf| < |p.buf| || (p.phase == 1 && o.next.phase == 2 && o.next.buf == p.buf)
  {
    match p.phase
    case 0 => InitialStep(cfg, p)
    case 1 => More(p.(phase := 2, lines := []))
    case 2 => HeaderStep(cfg, p)
    case 3 => BodyStep(cfg, p)
    case 4 => BoundaryStep(p)
  }

  function InitialStep(cfg: Config, p: Parser): Outcome {
    var delimiter := cfg.DashBoundaryCrlf();
    var rest := p.buf[Find(p.buf, delimiter)..];
    if |delimiter| > |rest| then Stop(p.(buf := rest), true)
    else if !(delimiter <= rest) then Stop(p.(buf := rest), false)
    else More(p.(phase := 1, buf := rest[|delimiter|..]))
  }

  function HeaderStep(cfg: Config, p: Parser): Outcome {
    var pos := Find(p.buf, CRLF);
    if pos == |p.buf| then Stop(p, true)
    else if pos == 0 then
      var entered := p.(parts := p.parts + [Part(p.lines, [])]);
      if cfg.accept(entered.parts) then More(entered.(phase := 3, buf := p.buf[|CRLF|..]))
      else Stop(entered.(valid := false), false)
    else if !cfg.headerOk(p.buf[..pos]) then Stop(p.(valid := false), false)
    else More(p.(lines := p.lines + [p.buf[..pos]], buf := p.buf[pos + |CRLF|..]))
  }

  function BodyStep(cfg: Config, p: Parser): Outcome {
    var delimiter := cfg.CrlfDashBoundary();
    var pos := Find(p.buf, delimiter);
    if |delimiter| > |p.buf| then Stop(p, true)
    else if pos < |p.buf| then
      var given := p.(parts := Deliver(p.parts, p.buf[..pos]));
      if cfg.accept(given.parts) then More(given.(phase := 4, buf := p.buf[pos + |delimiter|..]))
      else Stop(given.(valid := false), false)
    else
      var len := |p.buf| - |delimiter|;
      var given := p.(parts := Deliver(p.parts, p.buf[..len]));
      if len == 0 then Stop(p, true)
      else if cfg.accept(given.parts) then Stop(given.(buf := p.buf[len..]), true)
      else Stop(given.(valid := false), false)
  }

  function BoundaryStep(p: Parser): Outcome {
    if |CRLF| > |p.buf| then Stop(p, true)
    else if CRLF <= p.buf then More(p.(phase := 1, buf := p.buf[|CRLF|..]))
    else if DASH <= p.buf then More(p.(valid := true, buf := []))
    else Stop(p, true)
  }

  /** The search for a header line, on entry to the header phase or to `parse`, fails past the limit. */
  predicate OverLimit(p: Parser) {
    p.phase == 2 && p.buf != [] && Find(p.buf, CRLF) > HEADER_MAX_LENGTH
  }

  /** The whole loop of one `parse` call. `limited`: the next header search is the first of its phase
      entry, the only one that is held to the length limit. */
  function Drain(cfg: Config, p: Parser, limited: bool): (Parser, bool)
    decreases |p.buf|, if p.phase == 1 then 1 else 0
  {
    if p.buf == [] then (p, true)
    else if limited && OverLimit(p) then (p, false)
    else
      match Step(cfg, p)
      case Stop(q, ok) => (q, ok)
      case More(q) => Drain(cfg, q, p.phase != 2)
  }

  /** One `parse` call. */
  function ParseCall(cfg: Config, p: Parser, data: string): (Parser, bool) {
    Drain(cfg, p.Append(data), true)
  }

  /** Successive `parse` calls, up to the first that fails. */
  function Feed(cfg: Config, p: Parser, chunks: seq<string>): (Parser, bool)
    decreases |chunks|
  {
    if chunks == [] then (p, true)
    else
      var (q, ok) := ParseCall(cfg, p, chunks[0]);
      if ok then Feed(cfg, q, chunks[1..]) else (q, false)
  }

  /** The parser object: `buf[spos..epos]` is unread, the rest of `buf` is dead space. */
  class MultipartFormDataParser {
    const cfg: Config
    var phase: Phase
    var isValid: bool
    var file: seq<string>
    var parts: seq<Part>
    var buf: string
    var spos: nat
    var epos: nat

    ghost predicate Valid()
      reads this
    {
      spos <= epos <= |buf|
    }

    ghost function Unread(): string
      reads this
      requires Valid()
    {
      buf[spos..epos]
    }

    ghost function View(): Parser
      reads this
      requires Valid()
    {
      Parser(phase, isValid, file, Unread(), parts)
    }

    constructor (cfg: Config)
      ensures this.cfg == cfg
      ensures Valid() && View() == INITIAL
    {
      this.cfg := cfg;
      phase, isValid, file, parts := 0, false, [], [];
      buf, spos, epos := [], 0, 0;
    }

    method StartWith(at: nat, s: string) returns (b: bool)
      requires Valid() && spos <= at <= epos
      ensures b <==> OccursAt(Unread(), at - spos, s)
    {
      if epos - at < |s| { return false; }
      SliceOfSlice(buf, spos, epos, at - spos, at - spos + |s|);
      for i := 0 to |s|
        invariant forall k :: 0 <= k < i ==> buf[at + k] == s[k]
      {
        if buf[i + at] != s[i] {
          assert buf[at..at + |s|][i] != s[i];
          return false;
        }
      }
      assert buf[at..at + |s|] == s;
      return true;
    }

    method BufFind(s: string) returns (r: nat)
      requires Valid() && 0 < |s|
      ensures r == Find(Unread(), s)
    {
      var off := spos;
      while off < epos
        invariant spos <= off <= epos
        invariant forall j :: 0 <= j < off - spos ==> !OccursAt(Unread(), j, s)
      {
        var pos := BufFindChar(off, s);
        if |s| > epos - pos {
          FindIs(Unread(), s, |Unread()|);
          return epos - spos;
        }
        var here := StartWith(pos, s);
        if here {
          FindIs(Unread(), s, pos - spos);
          return pos - spos;
        }
        off := pos + 1;
      }
      FindIs(Unread(), s, |Unread()|);
      return epos - spos;
    }

    /** The search's inner loop: the next place where `s` could start. */
    method BufFindChar(off: nat, s: string) returns (pos: nat)
      requires Valid() && 0 < |s| && spos <= off <= epos
      ensures off <= pos <= epos
      ensures forall j :: off - spos <= j < pos - spos ==> !OccursAt(Unread(), j, s)
    {
      pos := off;
      while true
        invariant off <= pos <= epos
        invariant forall j :: off - spos <= j < pos - spos ==> !OccursAt(Unread(), j, s)
        decreases epos - pos
      {
        if pos == epos || buf[pos] == s[0] { return; }
        assert Unread()[pos - spos] != s[0];
        pos := pos + 1;
      }
    }

    /** Moves the unread bytes to the front of the buffer, then copies the new ones behind them. */
    method BufAppend(data: string)
      requires Valid()
      modifies this`buf, this`spos, this`epos
      ensures Valid() && spos == 0
      ensures Unread() == old(Unread()) + data
    {
      ghost var unread := Unread();
      Compact();
      if epos + |data| > |buf| {
        buf := buf + seq(epos + |data| - |buf|, _ => '\0');
      }
      for i := 0 to |data|
        invariant spos == 0 && epos == |unread| && epos + |data| <= |buf|
        invariant buf[..epos + i] == unread + data[..i]
      {
        buf := buf[epos + i := data[i]];
        assert buf[..epos + i + 1] == buf[..epos + i] + [data[i]];
      }
      epos := epos + |data|;
    }

    method Compact()
      requires Valid()
      modifies this`buf, this`spos, this`epos
      ensures Valid() && spos == 0 && Unread() == old(Unread())
    {
      var remaining := epos - spos;
      if remaining > 0 && spos > 0 {
        for i := 0 to remaining
          invariant |buf| == |old(buf)| && spos == old(spos) && epos == old(epos)
          invariant forall k :: 0 <= k < i ==> buf[k] == old(buf)[spos + k]
          invariant forall k :: i <= k < |buf| ==> buf[k] == old(buf)[k]
        {
          buf := buf[i := buf[spos + i]];
        }
      }
      spos, epos := 0, remaining;
    }

    method BufErase(n: nat)
      requires Valid() && n <= |Unread()|
      modifies this`spos
      ensures Valid() && Unread() == old(Unread())[n..]
    {
      spos := spos + n;
    }

    /** One call of `parse`: performs exactly the transitions of `ParseCall`. */
    method Parse(data: string) returns (ok: bool)
      requires Valid()
      modifies this
      ensures Valid()
      ensures (View(), ok) == ParseCall(cfg, old(View()), data)
    {
      ghost var result := ParseCall(cfg, View(), data);
      BufAppend(data);
      while epos - spos > 0
        invariant Valid() && Drain(cfg, View(), true) == result
        decreases epos - spos, if phase == 1 then 1 else 0
      {
        var more;
        match phase {
          case 0 => more, ok := InitialBoundary();
          case 1 =>
            file := [];
            phase := 2;
            more, ok := true, true;
          case 2 => more, ok := HeaderLines(result);
          case 3 => more, ok := Body();
          case 4 => more, ok := Boundary();
        }
        if !more { return; }
      }
      return true;
    }

    method InitialBoundary() returns (more: bool, ok: bool)
      requires Valid() && phase == 0 && Unread() != []
      modifies this
      ensures Valid()
      ensures InitialStep(cfg, old(View())) == if more then More(View()) else Stop(View(), ok)
    {
      var delimiter := cfg.DashBoundaryCrlf();
      var pos := BufFind(delimiter);
      BufErase(pos);
      if |delimiter| > epos - spos { return false, true; }
      var here := StartWith(spos, delimiter);
      if !here { return false, false; }
      BufErase(|delimiter|);
      phase := 1;
      return true, true;
    }

    /** The header phase: takes whole lines until the empty one. When it found that line and was not
        refused the loop goes on in the body phase; otherwise `ok` is what `parse` returns. */
    method HeaderLines(ghost result: (Parser, bool)) returns (more: bool, ok: bool)
      requires Valid() && phase == 2 && Unread() != []
      requires Drain(cfg, View(), true) == result
      modifies this
      ensures Valid()
      ensures more ==> |Unread()| < |old(Unread())| && phase == 3 && Drain(cfg, View(), true) == result
      ensures !more ==> (View(), ok) == result
    {
      var pos := BufFind(CRLF);
      if pos > HEADER_MAX_LENGTH { return false, false; }
      while pos < epos - spos
        invariant Valid() && phase == 2 && |Unread()| <= |old(Unread())|
        invariant pos == Find(Unread(), CRLF)
        invariant Drain(cfg, View(), false) == result
        decreases epos - spos
      {
        more, ok := HeaderLine(pos);
        if !more || phase == 3 { return; }
        pos := BufFind(CRLF);
      }
      return false, true;
    }

    /** One turn of the header loop: the line that ends at `pos`. */
    method HeaderLine(pos: nat) returns (more: bool, ok: bool)
      requires Valid() && phase == 2 && pos == Find(Unread(), CRLF) && pos < |Unread()|
      modifies this
      ensures Valid()
      ensures HeaderStep(cfg, old(View())) == if more then More(View()) else Stop(View(), ok)
      ensures more ==> phase == if pos == 0 then 3 else 2
    {
      hide Find;
      if pos == 0 {
        parts := parts + [Part(file, [])];
        if !cfg.accept(parts) { isValid := false; return false, false; }
        BufErase(|CRLF|);
        phase := 3;
        return true, true;
      }
      var header := buf[spos..spos + pos];
      SliceOfSlice(buf, spos, epos, 0, pos);
      if !cfg.headerOk(header) { isValid := false; return false, false; }
      file := file + [header];
      BufErase(pos + |CRLF|);
      return true, true;
    }

    method Body() returns (more: bool, ok: bool)
      requires Valid() && phase == 3 && Unread() != []
      modifies this
      ensures Valid()
      ensures BodyStep(cfg, old(View())) == if more then More(View()) else Stop(View(), ok)
    {
      var delimiter := cfg.CrlfDashBoundary();
      if |delimiter| > epos - spos { return false, true; }
      var pos := BufFind(delimiter);
      if pos < epos - spos {
        ok := GiveHead(pos);
        if !ok { return false, false; }
        BufErase(pos + |delimiter|);
        phase := 4;
        return true, true;
      }
      var len := epos - spos - |delimiter|;
      if len > 0 {
        ok := GiveHead(len);
        if !ok { return false, false; }
        BufErase(len);
      }
      return false, true;
    }

    /** Hands the first `n` unread bytes to the receiver. */
    method GiveHead(n: nat) returns (ok: bool)
      requires Valid() && n <= |Unread()|
      modifies this`parts, this`isValid
      ensures parts == Deliver(old(parts), Unread()[..n]) && ok == cfg.accept(parts)
      ensures isValid == (old(isValid) && ok)
    {
      SliceOfSlice(buf, spos, epos, 0, n);
      parts := Deliver(parts, buf[spos..spos + n]);
      ok := cfg.accept(parts);
      if !ok { isValid := false; }
    }

    method Boundary() returns (more: bool, ok: bool)
      requires Valid() && phase == 4 && Unread() != []
      modifies this
      ensures Valid()
      ensures BoundaryStep(old(View())) == if more then More(View()) else Stop(View(), ok)
    {
      if |CRLF| > epos - spos { return false, true; }
      var next := StartWith(spos, CRLF);
      if next {
        BufErase(|CRLF|);
        phase := 1;
        return true, true;
      }
      if |DASH| > epos - spos { return false, true; }
      var last := StartWith(spos, DASH);
      if !last { return false, true; }
      BufErase(|DASH|);
      isValid := true;
      BufErase(epos - spos);
      return true, true;
    }
  }
}
