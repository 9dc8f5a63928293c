/** `make_range_header` and `parse_range_header` (section 14.2 of RFC 9110). */
module RangeHeader {
  import opened Splitting

  /** A `Range`: two `ssize_t`, with -1 for an absent position. */
  datatype Range = Range(first: int, last: int)

  predicate IsSSize(n: int) { -TWO_63 <= n < TWO_63 }

  predicate InWidth(r: Range) { IsSSize(r.first) && IsSSize(r.last) }

  /** The forms a-b with a <= b, a- and -n. */
  predicate Expressible(r: Range) {
    || 0 <= r.first <= r.last
    || (0 <= r.first && r.last == -1)
    || (r.first == -1 && 0 <= r.last)
  }

  predicate AllExpressible(rs: seq<Range>) {
    forall i :: 0 <= i < |rs| ==> Expressible(rs[i])
  }

  predicate AllInWidth(rs: seq<Range>) {
    forall i :: 0 <= i < |rs| ==> InWidth(rs[i])
  }

  // ---------------------------------------------------------------------------------------------
  // Printing
  // ---------------------------------------------------------------------------------------------

  /** `std::to_string` of a signed number. */
  function ToString(n: int): string {
    if n < 0 then "-" + Decimal(-n) else Decimal(n)
  }

  function Position(n: int): string {
    if n == -1 then "" else ToString(n)
  }

  function Printed(r: Range): string {
    Position(r.first) + "-" + Position(r.last)
  }

  function Tail(rs: seq<Range>): string {
    if rs == [] then "" else ", " + (Printed(rs[0]) + Tail(rs[1..]))
  }

  function List(rs: seq<Range>): string {
    if rs == [] then "" else Printed(rs[0]) + Tail(rs[1..])
  }

  const UNIT := "bytes="

  method MakeRangeHeader(ranges: seq<Range>) returns (field: string)
    ensures field == UNIT + List(ranges)
  {
    hide Printed, Position, List, Tail;
    field := UNIT;
    var i := 0;
    assert ranges[0..] == ranges;
    while i < |ranges|
      invariant i <= |ranges|
      invariant field + Rest(i, ranges[i..]) == UNIT + List(ranges)
    {
      RestUnfolds(field, i, ranges);
      if i != 0 {
        field := field + ", ";
      }
      field := AppendRange(field, ranges[i]);
      i := i + 1;
    }
    NothingLeft(i);
    assert ranges[i..] == [];
  }

  /** What is still to be printed when `i` ranges are done. */
  function Rest(i: nat, rs: seq<Range>): string {
    if i == 0 then List(rs) else Tail(rs)
  }

  lemma NothingLeft(i: nat)
    ensures Rest(i, []) == ""
  {
  }

  lemma RestUnfolds(field: string, i: nat, ranges: seq<Range>)
    requires i < |ranges|
    ensures field + Rest(i, ranges[i..])
        == (if i != 0 then field + ", " else field) + Printed(ranges[i]) + Rest(i + 1, ranges[i + 1..])
  {
    hide Printed;
    assert ranges[i..][1..] == ranges[i + 1..];
    var rest := Tail(ranges[i + 1..]);
    assert field + (", " + (Printed(ranges[i]) + rest)) == field + ", " + Printed(ranges[i]) + rest;
    assert field + (Printed(ranges[i]) + rest) == field + Printed(ranges[i]) + rest;
  }

  method AppendRange(field0: string, r: Range) returns (field: string)
    ensures field == field0 + Printed(r)
  {
    field := field0;
    if r.first != -1 {
      field := field + ToString(r.first);
    }
    field := field + "-";
    if r.last != -1 {
      field := field + ToString(r.last);
    }
    assert field0 + Position(r.first) + "-" + Position(r.last) == field0 + Printed(r);
  }

  // ---------------------------------------------------------------------------------------------
  // Parsing
  // ---------------------------------------------------------------------------------------------

  datatype Option<T> = None | Some(value: T)

  /** `std::stoll` of digits: none when it would throw. */
  function StoLL(digits: string): Option<int>
    requires AllDigits(digits)
  {
    if digits == "" then Some(-1)
    else if DecimalValue(digits) >= TWO_63 then None
    else Some(DecimalValue(digits))
  }

  /** What one piece between commas stands for. */
  function ParsePiece(piece: string): Option<Range> {
    var dash := IndexOf(piece, '-');
    if dash == |piece| then None
    else
      var lhs, rhs := piece[..dash], piece[dash + 1..];
      if !AllDigits(lhs) || !AllDigits(rhs) then None
      else if StoLL(lhs).None? || StoLL(rhs).None? then None
      else
        var r := Range(StoLL(lhs).value, StoLL(rhs).value);
        if Expressible(r) then Some(r) else None
  }

  /** The ranges up to the first piece that is not one. */
  function ParsePieces(pieces: seq<string>): seq<Range> {
    if pieces == [] || ParsePiece(pieces[0]).None? then []
    else [ParsePiece(pieces[0]).value] + ParsePieces(pieces[1..])
  }

  predicate HasUnit(s: string) {
    |s| > 7 && s[..6] == UNIT
  }

  function ParsedRanges(s: string): seq<Range> {
    if HasUnit(s) then ParsePieces(Pieces(s[6..], ',')) else []
  }

  /** Every piece was a range, and there was one. */
  predicate Accepted(s: string) {
    && HasUnit(s)
    && |ParsedRanges(s)| == |Pieces(s[6..], ',')|
    && ParsedRanges(s) != []
  }

  /** `parse_range_header` into a fresh vector: the flag it returns and the vector it leaves. */
  method ParseRangeHeader(s: string) returns (ok: bool, ranges: seq<Range>)
    ensures ranges == ParsedRanges(s)
    ensures ok <==> Accepted(s)
  {
    hide ParsePiece, Pieces;
    ranges := [];
    if !(|s| > 7 && s[..6] == UNIT) {
      return false, [];
    }
    var pieces := Split(s[6..], ',');
    var allValid := true;
    var i := 0;
    while i < |pieces|
      invariant i <= |pieces|
      invariant allValid ==> |ranges| == i && ranges + ParsePieces(pieces[i..]) == ParsePieces(pieces)
      invariant !allValid ==> |ranges| < |pieces| && ranges == ParsePieces(pieces)
    {
      if allValid {
        var r := ParseOne(pieces[i]);
        assert pieces[i..][1..] == pieces[i + 1..];
        if r.None? {
          allValid := false;
        } else {
          assert ranges + ([r.value] + ParsePieces(pieces[i + 1..]))
              == ranges + [r.value] + ParsePieces(pieces[i + 1..]);
          ranges := ranges + [r.value];
        }
      }
      i := i + 1;
    }
    ok := allValid && ranges != [];
  }

  /** The body of the callback, step by step. */
  method ParseOne(piece: string) returns (r: Option<Range>)
    ensures r == ParsePiece(piece)
  {
    var it := 0;
    while it < |piece| && piece[it] != '-'
      invariant it <= |piece| && '-' !in piece[..it]
    {
      assert piece[..it + 1] == piece[..it] + [piece[it]];
      it := it + 1;
    }
    IndexOfIs(piece, it, '-');
    if it == |piece| {
      return None;
    }
    var lhs, rhs := piece[..it], piece[it + 1..];
    if !AllDigits(lhs) || !AllDigits(rhs) {
      return None;
    }
    if StoLL(lhs).None? || StoLL(rhs).None? {
      return None;
    }
    var first, last := StoLL(lhs).value, StoLL(rhs).value;
    if (first == -1 && last == -1) || (first != -1 && last != -1 && first > last) {
      return None;
    }
    return Some(Range(first, last));
  }

  lemma IndexOfIs(s: string, i: nat, d: char)
    requires i <= |s| && d !in s[..i]
    requires i < |s| ==> s[i] == d
    ensures IndexOf(s, d) == i
  {
    var k := IndexOf(s, d);
    assert forall j :: 0 <= j < i ==> s[j] in s[..i];
    assert forall j :: 0 <= j < k ==> s[j] in s[..k];
    assert s[..|s|] == s;
  }

  // ---------------------------------------------------------------------------------------------
  // Properties
  // ---------------------------------------------------------------------------------------------

  lemma PositionDigits(n: int)
    requires IsSSize(n)
    ensures n >= 0 ==> Position(n) != "" && AllDigits(Position(n)) && StoLL(Position(n)) == Some(n)
    ensures n == -1 ==> Position(n) == "" && StoLL("") == Some(-1)
    ensures n < -1 ==> Position(n) != "" && Position(n)[0] == '-' && AllDigits(Position(n)[1..])
  {
    if n >= 0 {
      DecimalRoundTrip(n);
    } else if n < -1 {
      DecimalRoundTrip(-n);
      assert Position(n)[1..] == Decimal(-n);
    }
  }

  /** A printed range reads back as itself when it has one of the three forms, and as nothing otherwise. */
  lemma PrintedReadsBack(r: Range)
    requires InWidth(r)
    ensures ParsePiece(Printed(r)) == if Expressible(r) then Some(r) else None
  {
    hide Position, StoLL;
    var p := Printed(r);
    PositionDigits(r.first);
    PositionDigits(r.last);
    if r.first < -1 {
      assert p[0] == Position(r.first)[0] == '-';
      IndexOfIs(p, 0, '-');
      assert p[|Position(r.first)|] == '-';
      assert p[1..][|Position(r.first)| - 1] == '-';
      assert !AllDigits(p[1..]);
    } else {
      var k := |Position(r.first)|;
      assert p[..k] == Position(r.first) && p[k + 1..] == Position(r.last);
      IndexOfIs(p, k, '-');
      if r.last < -1 {
        assert !IsDigit(Position(r.last)[0]);
      }
    }
  }

  lemma PrintedIsTight(r: Range)
    requires InWidth(r)
    ensures Tight(Printed(r)) && ',' !in Printed(r)
  {
    hide Position, StoLL;
    PositionDigits(r.first);
    PositionDigits(r.last);
    PositionPlain(r.first);
    PositionPlain(r.last);
    var p := Printed(r);
    assert forall c :: c in p ==> c in Position(r.first) || c == '-' || c in Position(r.last);
    assert p[0] in p && p[|p| - 1] in p;
  }

  lemma PositionPlain(n: int)
    requires IsSSize(n)
    ensures forall c :: c in Position(n) ==> c == '-' || IsDigit(c)
  {
    PositionDigits(n);
    var p := Position(n);
    forall c | c in p
      ensures c == '-' || IsDigit(c)
    {
      var i :| 0 <= i < |p| && p[i] == c;
      if n < -1 && i > 0 { assert p[1..][i - 1] == c; }
    }
  }

  function AllPrinted(rs: seq<Range>): seq<string> {
    if rs == [] then [] else [Printed(rs[0])] + AllPrinted(rs[1..])
  }

  /** Splitting and trimming undo the joining. */
  lemma {:induction false} TailPieces(first: string, r: Range, rest: seq<Range>)
    requires InWidth(r) && AllInWidth(rest)
    requires first == Printed(r) || first == " " + Printed(r)
    ensures Pieces(first + Tail(rest), ',') == [Printed(r)] + AllPrinted(rest)
    decreases |rest|
  {
    hide Printed, Trimmed;
    PrintedIsTight(r);
    TrimmedTight(Printed(r));
    assert ',' !in first;
    assert Kept([first]) == [Printed(r)] by { assert [first][1..] == []; }
    if rest == [] {
      assert first + Tail(rest) == first;
    } else {
      var tail := " " + Printed(rest[0]) + Tail(rest[1..]);
      assert Tail(rest) == "," + tail;
      assert first + Tail(rest) == first + [','] + tail;
      CutFirst(first, ',', tail);
      KeptFirst(first, Cut(tail, ','));
      TailPieces(" " + Printed(rest[0]), rest[0], rest[1..]);
    }
  }

  lemma {:induction false} PrintedPiecesReadBack(rs: seq<Range>)
    requires AllInWidth(rs)
    ensures |ParsePieces(AllPrinted(rs))| <= |AllPrinted(rs)| == |rs|
    ensures |ParsePieces(AllPrinted(rs))| == |rs| <==> AllExpressible(rs)
    ensures AllExpressible(rs) ==> ParsePieces(AllPrinted(rs)) == rs
  {
    hide Printed, ParsePiece, Expressible;
    if rs != [] {
      PrintedReadsBack(rs[0]);
      PrintedPiecesReadBack(rs[1..]);
      assert AllPrinted(rs)[1..] == AllPrinted(rs[1..]);
      assert rs == [rs[0]] + rs[1..];
    }
  }

  /** Printing and parsing agree exactly on the non-empty lists of ranges of the three forms; every other list is
      refused, never read as something else. */
  lemma RoundTrip(rs: seq<Range>)
    requires AllInWidth(rs)
    ensures Accepted(UNIT + List(rs)) <==> rs != [] && AllExpressible(rs)
    ensures Accepted(UNIT + List(rs)) ==> ParsedRanges(UNIT + List(rs)) == rs
  {
    hide Printed, ParsePiece;
    var s := UNIT + List(rs);
    if rs != [] {
      assert s[..6] == UNIT && s[6..] == List(rs);
      TailPieces(Printed(rs[0]), rs[0], rs[1..]);
      assert Pieces(s[6..], ',') == AllPrinted(rs);
      PrintedPiecesReadBack(rs);
      PrintedIsTight(rs[0]);
      if AllExpressible(rs) {
        ExpressibleIsLong(rs[0]);
      }
    }
  }

  lemma ExpressibleIsLong(r: Range)
    requires InWidth(r) && Expressible(r)
    ensures |Printed(r)| >= 2
  {
    PositionDigits(r.first);
    PositionDigits(r.last);
  }

  lemma {:induction false} ParsedIsExpressible(pieces: seq<string>)
    ensures AllExpressible(ParsePieces(pieces)) && AllInWidth(ParsePieces(pieces))
  {
    if pieces != [] && ParsePiece(pieces[0]).Some? {
      ParsedIsExpressible(pieces[1..]);
    }
  }

  /** Whatever header was accepted, printing what it meant gives a header that means the same. */
  lemma PrintingKeepsTheMeaning(s: string)
    requires Accepted(s)
    ensures Accepted(UNIT + List(ParsedRanges(s)))
    ensures ParsedRanges(UNIT + List(ParsedRanges(s))) == ParsedRanges(s)
    ensures AllExpressible(ParsedRanges(s)) && AllInWidth(ParsedRanges(s))
  {
    ParsedIsExpressible(Pieces(s[6..], ','));
    RoundTrip(ParsedRanges(s));
  }

  /** A position as the grammar has it: digits, or nothing where it is absent. */
  predicate IsPosition(text: string, n: int) {
    if text == "" then n == -1 else AllDigits(text) && DecimalValue(text) == n < TWO_63
  }

  /** A byte range as the grammar has it: first position, hyphen, last position; or a hyphen and the length of a
      suffix. */
  ghost predicate IsByteRange(text: string, r: Range) {
    exists first: string, last: string ::
      text == first + "-" + last && IsPosition(first, r.first) && IsPosition(last, r.last)
  }

  /** The grammar, exactly: a header is accepted if and only if it is `bytes=` and a list of byte ranges between commas,
      with blanks around them and empty elements anywhere, at least one, and none from a position back to an earlier
      one; and then these are the ranges. */
  lemma AcceptedExactly(s: string)
    ensures Accepted(s) <==> exists rs: seq<Range> :: IsRangeList(s, rs)
    ensures Accepted(s) ==> IsRangeList(s, ParsedRanges(s))
  {
    hide Accepted, IsRangeList, ParsedRanges;
    if Accepted(s) { AcceptedIsList(s); }
    if rs: seq<Range> :| IsRangeList(s, rs) { ListIsAccepted(s, rs); }
  }

  ghost predicate IsRangeList(s: string, rs: seq<Range>) {
    && "bytes=" <= s && rs != [] && AllExpressible(rs)
    && var pieces := Pieces(s[6..], ',');
       |pieces| == |rs| && |s| > 7 && forall i :: 0 <= i < |rs| ==> IsByteRange(pieces[i], rs[i])
  }

  lemma AcceptedIsList(s: string)
    requires Accepted(s)
    ensures IsRangeList(s, ParsedRanges(s))
  {
    hide Pieces, ParsePiece, IsByteRange;
    var pieces, rs := Pieces(s[6..], ','), ParsedRanges(s);
    ParsedIsExpressible(pieces);
    assert s == "bytes=" + s[6..];
    forall i | 0 <= i < |rs| ensures IsByteRange(pieces[i], rs[i]) {
      ParsedAt(pieces, i);
      ParsedIsByteRange(pieces[i]);
    }
  }

  lemma ListIsAccepted(s: string, rs: seq<Range>)
    requires IsRangeList(s, rs)
    ensures Accepted(s)
  {
    hide Pieces, ParsePiece, IsByteRange, Expressible;
    var pieces := Pieces(s[6..], ',');
    assert s[..6] == "bytes=";
    forall i | 0 <= i < |pieces| ensures ParsePiece(pieces[i]) == Some(rs[i]) {
      ByteRangeIsParsed(pieces[i], rs[i]);
    }
    AllParsed(pieces, rs);
  }

  lemma {:induction false} ParsedAt(pieces: seq<string>, i: nat)
    requires i < |ParsePieces(pieces)|
    ensures i < |pieces| && ParsePiece(pieces[i]) == Some(ParsePieces(pieces)[i])
    decreases i
  {
    hide ParsePiece;
    if i > 0 { ParsedAt(pieces[1..], i - 1); }
  }

  lemma {:induction false} AllParsed(pieces: seq<string>, rs: seq<Range>)
    requires |pieces| == |rs| && forall i :: 0 <= i < |pieces| ==> ParsePiece(pieces[i]) == Some(rs[i])
    ensures ParsePieces(pieces) == rs
    decreases |pieces|
  {
    hide ParsePiece;
    if pieces != [] {
      AllParsed(pieces[1..], rs[1..]);
      assert rs == [rs[0]] + rs[1..];
    }
  }

  lemma ParsedIsByteRange(piece: string)
    requires ParsePiece(piece).Some?
    ensures IsByteRange(piece, ParsePiece(piece).value)
  {
    hide AllDigits, DecimalValue, Expressible;
    var dash := IndexOf(piece, '-');
    var lhs, rhs := piece[..dash], piece[dash + 1..];
    assert piece == lhs + "-" + rhs;
    PositionOf(lhs);
    PositionOf(rhs);
  }

  lemma PositionOf(text: string)
    requires AllDigits(text) && StoLL(text).Some?
    ensures IsPosition(text, StoLL(text).value)
  {
    hide AllDigits, DecimalValue;
  }

  lemma ByteRangeIsParsed(piece: string, r: Range)
    requires IsByteRange(piece, r) && Expressible(r)
    ensures ParsePiece(piece) == Some(r)
  {
    var first: string, last: string :|
      piece == first + "-" + last && IsPosition(first, r.first) && IsPosition(last, r.last);
    assert piece[..|first|] == first && piece[|first| + 1..] == last;
    assert AllDigits(first) && AllDigits(last);
    assert '-' !in first;
    IndexOfIs(piece, |first|, '-');
    hide AllDigits, DecimalValue, Expressible, IndexOf;
    assert StoLL(first) == Some(r.first) && StoLL(last) == Some(r.last);
  }

  /** Section 14.2 of RFC 9110 through the two operations themselves. */
  method PrintThenParse(rs: seq<Range>) returns (ok: bool, back: seq<Range>)
    requires AllInWidth(rs)
    ensures ok <==> rs != [] && AllExpressible(rs)
    ensures ok ==> back == rs
  {
    var field := MakeRangeHeader(rs);
    ok, back := ParseRangeHeader(field);
    RoundTrip(rs);
  }
}
