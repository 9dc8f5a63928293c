/** From the ranges of a request to the body of a 206 answer (sections 14.1.2, 14.2 and 14.6 of RFC 9110):
    `range_error`, `get_range_offset_and_length` and the users of `process_multipart_ranges_data`. */
module RangePipeline {
  import opened Splitting
  import opened RangeHeader

  const RANGE_MAX_COUNT := 1024
  const MAX_OVERLAPS := 2

  // ---------------------------------------------------------------------------------------------
  // What a range stands for
  // ---------------------------------------------------------------------------------------------

  /** The range after `range_error` has rewritten it for a content of `len` bytes. */
  function Resolve(r: Range, len: int): Range {
    var all := if r.first == -1 && r.last == -1 then Range(0, len) else r;
    var suffix := if all.first == -1 then Range(len - all.last, len - 1) else all;
    if suffix.last == -1 || suffix.last >= len then Range(suffix.first, len - 1) else suffix
  }

  function ResolveAll(rs: seq<Range>, len: int): (qs: seq<Range>)
    ensures |qs| == |rs| && forall i :: 0 <= i < |rs| ==> qs[i] == Resolve(rs[i], len)
  {
    seq(|rs|, i requires 0 <= i < |rs| => Resolve(rs[i], len))
  }

  /** What `get_range_offset_and_length` asserts. */
  predicate InContent(q: Range, len: int) {
    0 <= q.first <= q.last < len
  }

  /** Section 14.1.2: the byte positions a range asks for. */
  predicate Selects(r: Range, len: int, i: int) {
    && 0 <= i < len
    && (r.first >= 0 ==> r.first <= i && (r.last == -1 || i <= r.last))
    && (r.first == -1 && r.last >= 0 ==> len - r.last <= i)
  }

  predicate SuffixLongerThanContent(r: Range, len: int) {
    r.first == -1 && r.last > len
  }

  /** A rewritten range is usable exactly when it selects a byte and is not a suffix longer than the content,
      which section 14.1.2 would answer with the whole content. */
  lemma UsableExactly(r: Range, len: int)
    requires Expressible(r) || r == Range(-1, -1)
    ensures InContent(Resolve(r, len), len) <==>
            (exists i :: Selects(r, len, i)) && !SuffixLongerThanContent(r, len)
  {
    var q := Resolve(r, len);
    if InContent(q, len) {
      assert Selects(r, len, q.first);
    }
    if i :| Selects(r, len, i) && !SuffixLongerThanContent(r, len) {
      assert InContent(q, len);
    }
  }

  /** A usable rewritten range covers exactly the bytes that were asked for. */
  lemma ResolveKeepsTheBytes(r: Range, len: int)
    requires Expressible(r) || r == Range(-1, -1)
    requires InContent(Resolve(r, len), len)
    ensures forall i :: Resolve(r, len).first <= i <= Resolve(r, len).last <==> Selects(r, len, i)
  {
  }

  lemma LongSuffixIsRefused(len: nat)
    requires len > 0
    ensures Selects(Range(-1, len + 1), len, 0) && !InContent(Resolve(Range(-1, len + 1), len), len)
  {
  }

  // ---------------------------------------------------------------------------------------------
  // range_error
  // ---------------------------------------------------------------------------------------------

  /** Some earlier range reaches into this one. */
  predicate OverlapsEarlier(qs: seq<Range>, i: nat)
    requires i < |qs|
  {
    exists j :: 0 <= j < i && qs[i].first <= qs[j].last
  }

  function Overlaps(qs: seq<Range>, n: nat): nat
    requires n <= |qs|
  {
    if n == 0 then 0 else Overlaps(qs, n - 1) + if OverlapsEarlier(qs, n - 1) then 1 else 0
  }

  predicate Ascending(qs: seq<Range>) {
    forall i, j :: 0 <= i < j < |qs| ==> qs[i].first < qs[j].first
  }

  /** Section 14.2: what a server may demand of a set of ranges. */
  predicate Acceptable(qs: seq<Range>, len: int) {
    && (forall i :: 0 <= i < |qs| ==> InContent(qs[i], len))
    && Ascending(qs)
    && Overlaps(qs, |qs|) <= MAX_OVERLAPS
  }

  /** Said without counting: the ranges lie in the content, their first positions ascend, and no three of them reach
      into what comes before them. */
  lemma AcceptableExactly(qs: seq<Range>, len: int)
    ensures Acceptable(qs, len) <==>
            && (forall i :: 0 <= i < |qs| ==> 0 <= qs[i].first <= qs[i].last < len)
            && (forall i, j :: 0 <= i < j < |qs| ==> qs[i].first < qs[j].first)
            && !(exists i, j, k :: 0 <= i < j < k < |qs| && OverlapsEarlier(qs, i) && OverlapsEarlier(qs, j)
                                   && OverlapsEarlier(qs, k))
  {
    hide OverlapsEarlier, Overlaps;
    if Overlaps(qs, |qs|) > 2 {
      var k := LastOverlap(qs, |qs|);
      var j := LastOverlap(qs, k);
      var i := LastOverlap(qs, j);
      assert OverlapsEarlier(qs, i) && OverlapsEarlier(qs, j) && OverlapsEarlier(qs, k);
    }
    if i: nat, j: nat, k: nat :| i < j < k < |qs| && OverlapsEarlier(qs, i) && OverlapsEarlier(qs, j)
                                 && OverlapsEarlier(qs, k) {
      ThreeOverlap(qs, i, j, k);
    }
  }

  lemma ThreeOverlap(qs: seq<Range>, i: nat, j: nat, k: nat)
    requires i < j < k < |qs| && OverlapsEarlier(qs, i) && OverlapsEarlier(qs, j) && OverlapsEarlier(qs, k)
    ensures Overlaps(qs, |qs|) > 2
  {
    hide OverlapsEarlier;
    OverlapsGrow(qs, i + 1, j);
    OverlapsGrow(qs, j + 1, k);
    OverlapsGrow(qs, k + 1, |qs|);
  }

  /** The last range up to `n` that overlaps, and how many do before it. */
  lemma {:induction false} LastOverlap(qs: seq<Range>, n: nat) returns (i: nat)
    requires n <= |qs| && Overlaps(qs, n) > 0
    ensures i < n && OverlapsEarlier(qs, i) && Overlaps(qs, i) == Overlaps(qs, n) - 1
    decreases n
  {
    hide OverlapsEarlier;
    i := n - 1;
    if !OverlapsEarlier(qs, i) { i := LastOverlap(qs, n - 1); }
  }

  /** The ranges were rewritten one by one up to the first that could not be accepted. */
  predicate StoppedAt(rs: seq<Range>, after: seq<Range>, len: int, k: nat) {
    && 0 < k <= |rs|
    && Acceptable(ResolveAll(rs, len)[..k - 1], len)
    && !Acceptable(ResolveAll(rs, len)[..k], len)
    && after == ResolveAll(rs, len)[..k] + rs[k..]
  }

  method RangeError(ranges: array<Range>, status: int, contentLen: int) returns (error: bool)
    modifies ranges
    ensures !(200 <= status < 300) ==> !error && ranges[..] == old(ranges[..])
    ensures 200 <= status < 300 ==>
              (error <==> ranges.Length > RANGE_MAX_COUNT
                          || !Acceptable(ResolveAll(old(ranges[..]), contentLen), contentLen))
    ensures 200 <= status < 300 && !error ==> ranges[..] == ResolveAll(old(ranges[..]), contentLen)
    ensures error && ranges.Length > RANGE_MAX_COUNT ==> ranges[..] == old(ranges[..])
    ensures error && ranges.Length <= RANGE_MAX_COUNT ==>
              exists k :: StoppedAt(old(ranges[..]), ranges[..], contentLen, k)
  {
    hide Acceptable, Resolve, StoppedAt;
    if ranges.Length == 0 || !(200 <= status < 300) {
      NothingScanned(ResolveAll(ranges[..], contentLen), contentLen);
      ScannedIsAcceptable(ResolveAll(ranges[..], contentLen), contentLen, 0, -1, -1, 0);
      return false;
    }
    if ranges.Length > RANGE_MAX_COUNT {
      return true;
    }
    error := ScanRanges(ranges, contentLen);
  }

  /** The loop: rewrites the ranges one by one and tests each. */
  method ScanRanges(ranges: array<Range>, contentLen: int) returns (error: bool)
    modifies ranges
    ensures error <==> !Acceptable(ResolveAll(old(ranges[..]), contentLen), contentLen)
    ensures !error ==> ranges[..] == ResolveAll(old(ranges[..]), contentLen)
    ensures error ==> exists k :: StoppedAt(old(ranges[..]), ranges[..], contentLen, k)
  {
    hide Acceptable, Resolve, Scanned, StoppedAt, Rewritten;
    ghost var rs := ranges[..];
    ghost var qs := ResolveAll(rs, contentLen);
    NothingScanned(qs, contentLen);
    NoneRewritten(rs, qs);
    var prevFirst, prevLast, overlaps, i: nat := -1, -1, 0, 0;
    error := false;
    while i < ranges.Length
      invariant i <= ranges.Length
      invariant Rewritten(ranges[..], rs, qs, i)
      invariant Scanned(qs, contentLen, i, prevFirst, prevLast, overlaps)
    {
      error, prevFirst, prevLast, overlaps := ScanTurn(ranges, contentLen, i, prevFirst, prevLast, overlaps, rs, qs);
      if error { return; }
      i := i + 1;
    }
    ScannedIsAcceptable(qs, contentLen, i, prevFirst, prevLast, overlaps);
    AllRewritten(ranges[..], rs, qs);
  }

  /** One turn of it. */
  method ScanTurn(ranges: array<Range>, contentLen: int, i: nat, prevFirst0: int, prevLast0: int, overlaps0: nat,
                  ghost rs: seq<Range>, ghost qs: seq<Range>)
    returns (error: bool, prevFirst: int, prevLast: int, overlaps: nat)
    requires i < ranges.Length && qs == ResolveAll(rs, contentLen) && Rewritten(ranges[..], rs, qs, i)
    requires Scanned(qs, contentLen, i, prevFirst0, prevLast0, overlaps0)
    modifies ranges
    ensures error ==> StoppedAt(rs, ranges[..], contentLen, i + 1) && !Acceptable(qs, contentLen)
    ensures !error ==> Rewritten(ranges[..], rs, qs, i + 1)
    ensures !error ==> Scanned(qs, contentLen, i + 1, prevFirst, prevLast, overlaps)
  {
    hide Acceptable, Resolve, Scanned, StoppedAt;
    prevFirst, prevLast, overlaps := prevFirst0, prevLast0, overlaps0;
    PrefixRewritten(rs, qs, ranges[..], i);
    var q := RewriteInPlace(ranges, i, contentLen);
    assert q == qs[i];
    TurnDecides(rs, qs, ranges[..], contentLen, i, prevFirst, prevLast, overlaps);
    if !(0 <= q.first && q.first <= q.last && q.last <= contentLen - 1) {
      return true, prevFirst, prevLast, overlaps;
    }
    if q.first <= prevFirst {
      return true, prevFirst, prevLast, overlaps;
    }
    if q.first <= prevLast {
      overlaps := overlaps + 1;
      if overlaps > 2 {
        return true, prevFirst, prevLast, overlaps;
      }
    }
    prevFirst := if prevFirst < q.first then q.first else prevFirst;
    prevLast := if prevLast < q.last then q.last else prevLast;
    return false, prevFirst, prevLast, overlaps;
  }

  /** The first `i` ranges are rewritten, the others as they came. */
  predicate Rewritten(now: seq<Range>, rs: seq<Range>, qs: seq<Range>, i: nat) {
    |rs| == |qs| && i <= |rs| && now == qs[..i] + rs[i..]
  }

  lemma NoneRewritten(rs: seq<Range>, qs: seq<Range>)
    requires |rs| == |qs|
    ensures Rewritten(rs, rs, qs, 0)
  {
  }

  lemma AllRewritten(now: seq<Range>, rs: seq<Range>, qs: seq<Range>)
    requires Rewritten(now, rs, qs, |now|)
    ensures now == qs
  {
  }

  lemma PrefixRewritten(rs: seq<Range>, qs: seq<Range>, now: seq<Range>, i: nat)
    requires |rs| == |qs| && i < |rs| && now == qs[..i] + rs[i..]
    ensures now[i] == rs[i] && now[i := qs[i]] == qs[..i + 1] + rs[i + 1..]
  {
  }

  /** One turn of the loop: it stops at the first range that cannot be accepted, or goes on knowing one more. */
  lemma TurnDecides(rs: seq<Range>, qs: seq<Range>, now: seq<Range>, len: int, i: nat,
                    prevFirst: int, prevLast: int, overlaps: nat)
    requires |rs| == |qs| && i < |rs| && qs == ResolveAll(rs, len)
    requires Scanned(qs, len, i, prevFirst, prevLast, overlaps) && now == qs[..i + 1] + rs[i + 1..]
    ensures var q := qs[i];
            var more := if q.first <= prevLast then overlaps + 1 else overlaps;
            if 0 <= q.first <= q.last <= len - 1 && q.first > prevFirst && more <= 2 then
              Scanned(qs, len, i + 1, if prevFirst < q.first then q.first else prevFirst,
                      if prevLast < q.last then q.last else prevLast, more)
            else StoppedAt(rs, now, len, i + 1) && !Acceptable(qs, len)
    ensures overlaps <= 2
  {
    FewOverlaps(qs, len, i, prevFirst, prevLast, overlaps);
    hide Acceptable, Scanned, StoppedAt;
    ScanOne(qs, len, i, prevFirst, prevLast, overlaps);
    Stops(rs, qs, now, len, i, prevFirst, prevLast, overlaps);
  }

  lemma FewOverlaps(qs: seq<Range>, len: int, i: nat, prevFirst: int, prevLast: int, overlaps: nat)
    requires Scanned(qs, len, i, prevFirst, prevLast, overlaps)
    ensures overlaps <= 2
  {
    hide Overlaps;
  }

  lemma Stops(rs: seq<Range>, qs: seq<Range>, now: seq<Range>, len: int, i: nat,
              prevFirst: int, prevLast: int, overlaps: nat)
    requires |rs| == |qs| && i < |rs| && qs == ResolveAll(rs, len)
    requires Scanned(qs, len, i, prevFirst, prevLast, overlaps) && now == qs[..i + 1] + rs[i + 1..]
    ensures !Acceptable(qs[..i + 1], len) ==> StoppedAt(rs, now, len, i + 1) && !Acceptable(qs, len)
  {
    hide Acceptable;
    PrefixIsAcceptable(qs, len, i + 1);
  }

  lemma PrefixIsAcceptable(qs: seq<Range>, len: int, n: nat)
    requires n <= |qs|
    ensures Acceptable(qs, len) ==> Acceptable(qs[..n], len)
  {
    OverlapsPrefix(qs, n, n);
    OverlapsGrow(qs, n, |qs|);
  }

  lemma {:induction false} OverlapsGrow(qs: seq<Range>, n: nat, m: nat)
    requires n <= m <= |qs|
    ensures Overlaps(qs, n) <= Overlaps(qs, m)
    decreases m
  {
    if n < m {
      OverlapsGrow(qs, n, m - 1);
    }
  }

  lemma ScannedIsAcceptable(qs: seq<Range>, len: int, i: nat, prevFirst: int, prevLast: int, overlaps: nat)
    requires Scanned(qs, len, i, prevFirst, prevLast, overlaps)
    ensures Acceptable(qs[..i], len)
    ensures i == |qs| ==> Acceptable(qs, len) && qs[..i] == qs
  {
    hide Acceptable;
    assert i == |qs| ==> qs[..i] == qs;
  }

  /** The rewriting of one range, through references into the vector. */
  method RewriteInPlace(ranges: array<Range>, i: nat, contentLen: int) returns (q: Range)
    requires i < ranges.Length
    modifies ranges
    ensures ranges[..] == old(ranges[..])[i := Resolve(old(ranges[i]), contentLen)]
    ensures q == ranges[i]
  {
    if ranges[i].first == -1 && ranges[i].last == -1 {
      ranges[i] := Range(0, contentLen);
    }
    if ranges[i].first == -1 {
      ranges[i] := Range(contentLen - ranges[i].last, ranges[i].last);
      ranges[i] := Range(ranges[i].first, contentLen - 1);
    }
    if ranges[i].last == -1 || ranges[i].last >= contentLen {
      ranges[i] := Range(ranges[i].first, contentLen - 1);
    }
    q := ranges[i];
  }

  /** What the loop knows after `i` ranges. */
  ghost predicate Scanned(qs: seq<Range>, len: int, i: nat, prevFirst: int, prevLast: int, overlaps: nat) {
    && i <= |qs|
    && Acceptable(qs[..i], len)
    && overlaps == Overlaps(qs[..i], i)
    && -1 <= prevLast && -1 <= prevFirst
    && (forall j :: 0 <= j < i ==> qs[j].first <= prevFirst && qs[j].last <= prevLast)
    && (i > 0 ==> exists j :: 0 <= j < i && qs[j].first == prevFirst)
    && (i > 0 ==> exists j :: 0 <= j < i && qs[j].last == prevLast)
    && (i == 0 ==> prevFirst == -1 && prevLast == -1)
  }

  lemma NothingScanned(qs: seq<Range>, len: int)
    ensures Scanned(qs, len, 0, -1, -1, 0)
  {
  }

  lemma {:induction false} OverlapsPrefix(qs: seq<Range>, n: nat, m: nat)
    requires m <= n <= |qs|
    ensures Overlaps(qs[..n], m) == Overlaps(qs, m)
    decreases m
  {
    if m > 0 {
      OverlapsPrefix(qs, n, m - 1);
      assert OverlapsEarlier(qs[..n], m - 1) == OverlapsEarlier(qs, m - 1);
    }
  }

  lemma OverlapsNext(qs: seq<Range>, i: nat)
    requires i < |qs|
    ensures Overlaps(qs[..i + 1], i + 1) == Overlaps(qs[..i], i) + if OverlapsEarlier(qs, i) then 1 else 0
  {
    OverlapsPrefix(qs, i, i);
    OverlapsPrefix(qs, i + 1, i + 1);
  }

  /** One range more: the three tests of the loop decide whether the longer prefix is acceptable. */
  lemma ScanOne(qs: seq<Range>, len: int, i: nat, prevFirst: int, prevLast: int, overlaps: nat)
    requires i < |qs| && Scanned(qs, len, i, prevFirst, prevLast, overlaps)
    ensures var q := qs[i];
            var more := if q.first <= prevLast then overlaps + 1 else overlaps;
            && (Acceptable(qs[..i + 1], len) <==> InContent(q, len) && q.first > prevFirst && more <= MAX_OVERLAPS)
            && (Acceptable(qs[..i + 1], len) ==>
                  Scanned(qs, len, i + 1, if prevFirst < q.first then q.first else prevFirst,
                          if prevLast < q.last then q.last else prevLast, more))
  {
    hide Overlaps;
    var q, one := qs[i], qs[..i + 1];
    OverlapsNext(qs, i);
    assert one[i] == q && forall j :: 0 <= j < i ==> one[j] == qs[..i][j] == qs[j];
    ReachesIn(qs, len, i, prevFirst, prevLast, overlaps);
    if Ascending(one) && InContent(q, len) {
      if i > 0 {
        var j :| 0 <= j < i && qs[j].first == prevFirst;
        assert one[j].first < one[i].first;
      }
      assert q.first > prevFirst;
    }
    if InContent(q, len) && q.first > prevFirst {
      assert Ascending(one);
    }
  }

  lemma ReachesIn(qs: seq<Range>, len: int, i: nat, prevFirst: int, prevLast: int, overlaps: nat)
    requires i < |qs| && Scanned(qs, len, i, prevFirst, prevLast, overlaps)
    ensures 0 <= qs[i].first ==> (OverlapsEarlier(qs, i) <==> qs[i].first <= prevLast)
  {
  }

  // ---------------------------------------------------------------------------------------------
  // How much an accepted request can ask for
  // ---------------------------------------------------------------------------------------------

  function TotalLength(qs: seq<Range>, n: nat): int
    requires n <= |qs|
  {
    if n == 0 then 0 else TotalLength(qs, n - 1) + (qs[n - 1].last - qs[n - 1].first + 1)
  }

  lemma {:induction false} TotalLengthUpTo(qs: seq<Range>, len: int, n: nat, reach: int)
    requires n <= |qs| && forall i :: 0 <= i < |qs| ==> InContent(qs[i], len)
    requires len >= 0 && reach >= -1
    requires forall j :: 0 <= j < n ==> qs[j].last <= reach
    ensures TotalLength(qs, n) <= reach + 1 + Overlaps(qs, n) * len
    decreases n
  {
    if n > 0 {
      var q := qs[n - 1];
      if OverlapsEarlier(qs, n - 1) {
        TotalLengthUpTo(qs, len, n - 1, reach);
        assert (Overlaps(qs, n - 1) + 1) * len == Overlaps(qs, n - 1) * len + len;
      } else {
        forall j | 0 <= j < n - 1
          ensures qs[j].last <= q.first - 1
        {
        }
        TotalLengthUpTo(qs, len, n - 1, q.first - 1);
      }
    }
  }

  /** The reason the ranges are restricted: an accepted request is answered with at most three times the content. */
  lemma AcceptedAsksForLittle(qs: seq<Range>, len: int)
    requires len >= 0 && Acceptable(qs, len)
    ensures TotalLength(qs, |qs|) <= 3 * len
  {
    if qs != [] {
      TotalLengthUpTo(qs, len, |qs|, len - 1);
      AtMostTwice(Overlaps(qs, |qs|), len);
      hide Overlaps, TotalLength, Ascending;
    }
  }

  lemma AtMostTwice(k: nat, len: int)
    requires k <= 2 && len >= 0
    ensures k * len <= 2 * len
  {
    assert k == 0 || k == 1 || k == 2;
  }

  // ---------------------------------------------------------------------------------------------
  // The multipart/byteranges body (section 14.6)
  // ---------------------------------------------------------------------------------------------

  const CRLF := "\r\n"

  function ContentRange(first: nat, last: nat, len: nat): string {
    "bytes " + Decimal(first) + "-" + Decimal(last) + "/" + Decimal(len)
  }

  function TypeLine(contentType: string): string {
    if contentType == "" then "" else "Content-Type: " + contentType + CRLF
  }

  function Slice(content: string, q: Range): string
    requires InContent(q, |content|)
  {
    content[q.first..q.last + 1]
  }

  function DelimiterLine(boundary: string): string {
    "--" + boundary + CRLF
  }

  function RangeLine(field: string): string {
    "Content-Range: " + field + CRLF + CRLF
  }

  /** Everything of a part before its bytes. */
  function PartHead(q: Range, boundary: string, contentType: string, len: nat): string
    requires InContent(q, len)
  {
    DelimiterLine(boundary) + TypeLine(contentType) + RangeLine(ContentRange(q.first, q.last, len))
  }

  predicate AllInContent(qs: seq<Range>, len: nat) {
    forall i :: 0 <= i < |qs| ==> InContent(qs[i], len)
  }

  function Parts(qs: seq<Range>, boundary: string, contentType: string, content: string): string
    requires AllInContent(qs, |content|)
  {
    if qs == [] then ""
    else
      Parts(qs[..|qs| - 1], boundary, contentType, content)
      + (PartHead(qs[|qs| - 1], boundary, contentType, |content|) + Slice(content, qs[|qs| - 1]) + CRLF)
  }

  function Multipart(qs: seq<Range>, boundary: string, contentType: string, content: string): string
    requires AllInContent(qs, |content|)
  {
    Parts(qs, boundary, contentType, content) + ("--" + boundary + "--")
  }

  /** `get_range_offset_and_length`: the offset and the length give back the range. */
  method GetRangeOffsetAndLength(q: Range, len: nat) returns (offset: nat, length: nat)
    requires InContent(q, len)
    ensures offset == q.first && offset + length == q.last + 1 && offset + length <= len && length > 0
  {
    offset, length := q.first, q.last - q.first + 1;
  }

  /** `make_content_range_header_field`. */
  method MakeContentRangeHeaderField(offset: nat, length: nat, len: nat) returns (field: string)
    requires length > 0
    ensures field == ContentRange(offset, offset + length - 1, len)
  {
    var st, ed := offset, offset + length - 1;
    field := "bytes ";
    field := field + Decimal(st);
    field := field + "-";
    field := field + Decimal(ed);
    field := field + "/";
    field := field + Decimal(len);
  }

  /** The tokens of a part before its bytes, appended to the body. */
  method AppendPartHead(data0: string, q: Range, boundary: string, contentType: string, len: nat) returns (data: string)
    requires InContent(q, len)
    ensures data == data0 + PartHead(q, boundary, contentType, len)
  {
    hide ContentRange, DelimiterLine, RangeLine, TypeLine;
    data := AppendThree(data0, "--", boundary, CRLF);
    assert data == data0 + DelimiterLine(boundary) by { Unfolded(boundary, contentType, ""); }
    if contentType != "" {
      data := AppendThree(data, "Content-Type: ", contentType, CRLF);
    }
    assert data == data0 + DelimiterLine(boundary) + TypeLine(contentType) by { Unfolded(boundary, contentType, ""); }
    var offset, length := GetRangeOffsetAndLength(q, len);
    var field := MakeContentRangeHeaderField(offset, length, len);
    data := AppendThree(data, "Content-Range: ", field, CRLF + CRLF);
    assert data == data0 + DelimiterLine(boundary) + TypeLine(contentType) + RangeLine(field) by {
      Unfolded(boundary, contentType, field);
    }
  }

  method AppendThree(data0: string, a: string, b: string, c: string) returns (data: string)
    ensures data == data0 + (a + b + c)
  {
    data := data0 + a;
    data := data + b;
    data := data + c;
  }

  lemma Unfolded(boundary: string, contentType: string, field: string)
    ensures DelimiterLine(boundary) == "--" + boundary + CRLF
    ensures TypeLine(contentType) == if contentType == "" then "" else "Content-Type: " + contentType + CRLF
    ensures RangeLine(field) == "Content-Range: " + field + (CRLF + CRLF)
  {
  }

  /** `make_multipart_ranges_data`. */
  method MakeMultipartRangesData(qs: seq<Range>, boundary: string, contentType: string, content: string)
    returns (data: string)
    requires AllInContent(qs, |content|)
    ensures data == Multipart(qs, boundary, contentType, content)
  {
    hide PartHead;
    data := "";
    var i := 0;
    while i < |qs|
      invariant i <= |qs|
      invariant data == Parts(qs[..i], boundary, contentType, content)
    {
      ghost var before := data;
      data := AppendPartHead(data, qs[i], boundary, contentType, |content|);
      var offset, length := GetRangeOffsetAndLength(qs[i], |content|);
      data := data + content[offset..offset + length];
      data := data + CRLF;
      assert data == before + (PartHead(qs[i], boundary, contentType, |content|) + Slice(content, qs[i]) + CRLF);
      assert qs[..i + 1][..i] == qs[..i];
      i := i + 1;
    }
    assert qs[..i] == qs;
    data := data + "--";
    data := data + boundary;
    data := data + "--";
    assert data == Parts(qs, boundary, contentType, content) + ("--" + boundary + "--");
  }

  /** The sizes of the same tokens. */
  method CountPartHead(q: Range, boundary: string, contentType: string, len: nat) returns (n: nat)
    requires InContent(q, len)
    ensures n == |PartHead(q, boundary, contentType, len)|
  {
    hide ContentRange;
    n := |"--"| + |boundary| + |CRLF|;
    if contentType != "" {
      n := n + |"Content-Type: "| + |contentType| + |CRLF|;
    }
    var offset, length := GetRangeOffsetAndLength(q, len);
    var field := MakeContentRangeHeaderField(offset, length, len);
    n := n + |"Content-Range: "| + |field| + |CRLF| + |CRLF|;
  }

  /** `get_multipart_ranges_data_length`: without seeing the content, the length of the body for any content of
      that size. */
  method GetMultipartRangesDataLength(qs: seq<Range>, boundary: string, contentType: string, len: nat)
    returns (n: nat)
    requires AllInContent(qs, len)
    ensures forall content: string :: |content| == len ==> n == |Multipart(qs, boundary, contentType, content)|
  {
    hide PartHead, Parts;
    NoPartsYet(boundary, contentType);
    n := 0;
    var i := 0;
    while i < |qs|
      invariant i <= |qs|
      invariant forall content: string :: |content| == len ==> n == |Parts(qs[..i], boundary, contentType, content)|
    {
      var head := CountPartHead(qs[i], boundary, contentType, len);
      var offset, length := GetRangeOffsetAndLength(qs[i], len);
      ghost var before := n;
      n := n + head;
      n := n + length;
      n := n + |CRLF|;
      forall content: string | |content| == len
        ensures n == |Parts(qs[..i + 1], boundary, contentType, content)|
      {
        assert before == |Parts(qs[..i], boundary, contentType, content)|;
        OnePartLonger(qs, i, boundary, contentType, content);
      }
      i := i + 1;
    }
    assert qs[..i] == qs;
    n := n + |"--"| + |boundary| + |"--"|;
  }

  lemma NoPartsYet(boundary: string, contentType: string)
    ensures forall content: string :: |Parts([], boundary, contentType, content)| == 0
  {
  }

  lemma OnePartLonger(qs: seq<Range>, i: nat, boundary: string, contentType: string, content: string)
    requires i < |qs| && AllInContent(qs, |content|)
    ensures |Parts(qs[..i + 1], boundary, contentType, content)|
         == |Parts(qs[..i], boundary, contentType, content)| + |PartHead(qs[i], boundary, contentType, |content|)|
            + (qs[i].last - qs[i].first + 1) + |CRLF|
  {
    hide PartHead;
    assert qs[..i + 1][..i] == qs[..i];
  }

  // ---------------------------------------------------------------------------------------------
  // The whole way
  // ---------------------------------------------------------------------------------------------

  /** What `apply_ranges` sends for accepted ranges: the announced length is the length of the body, whether it was
      computed from the content's size alone or not. */
  method Answer(ranges: array<Range>, status: int, content: string, boundary: string, contentType: string)
    returns (error: bool, contentLength: nat, body: string)
    requires 200 <= status < 300 && ranges.Length > 0
    modifies ranges
    ensures !error <==>
              ranges.Length <= RANGE_MAX_COUNT && Acceptable(ResolveAll(old(ranges[..]), |content|), |content|)
    ensures !error ==> contentLength == |body|
    ensures !error && ranges.Length == 1 ==> body == Slice(content, Resolve(old(ranges[0]), |content|))
    ensures !error && ranges.Length > 1 ==>
              body == Multipart(ResolveAll(old(ranges[..]), |content|), boundary, contentType, content)
  {
    hide Resolve, Multipart;
    contentLength, body := 0, "";
    error := RangeError(ranges, status, |content|);
    if error { return; }
    if ranges.Length == 1 {
      var offset, length := GetRangeOffsetAndLength(ranges[0], |content|);
      contentLength := length;
      body := content[offset..offset + length];
    } else {
      contentLength := GetMultipartRangesDataLength(ranges[..], boundary, contentType, |content|);
      body := MakeMultipartRangesData(ranges[..], boundary, contentType, content);
    }
  }
}
