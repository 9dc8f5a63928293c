/** `split` with its trimming, `divide`, and decimal printing and parsing. */
module Splitting {

  predicate IsSpaceOrTab(c: char) {
    c == ' ' || c == '\t'
  }

  /** The text without the spaces and tabs at either end. */
  function TrimLeft(s: string): string {
    if s != "" && IsSpaceOrTab(s[0]) then TrimLeft(s[1..]) else s
  }

  function TrimRight(s: string): string {
    if s != "" && IsSpaceOrTab(s[|s| - 1]) then TrimRight(s[..|s| - 1]) else s
  }

  function Trimmed(s: string): string {
    TrimRight(TrimLeft(s))
  }

  /** The segments between delimiters, untrimmed. */
  function Cut(s: string, d: char): seq<string> {
    if d !in s then [s]
    else
      var i := IndexOf(s, d);
      [s[..i]] + Cut(s[i + 1..], d)
  }

  function IndexOf(s: string, d: char): (i: nat)
    ensures i <= |s| && d !in s[..i]
    ensures i < |s| <==> d in s
    ensures i < |s| ==> s[i] == d
  {
    if s == "" || s[0] == d then 0
    else
      var i := 1 + IndexOf(s[1..], d);
      assert s[..i] == [s[0]] + s[1..][..i - 1];
      i
  }

  /** What `split` reports: the trimmed segments that are not empty. */
  function Kept(segments: seq<string>): seq<string> {
    if segments == [] then []
    else (if Trimmed(segments[0]) != "" then [Trimmed(segments[0])] else []) + Kept(segments[1..])
  }

  function Pieces(s: string, d: char): seq<string> {
    Kept(Cut(s, d))
  }

  lemma CutAt(s: string, i: nat, d: char)
    requires i < |s| && s[i] == d && d !in s[..i]
    ensures Cut(s, d) == [s[..i]] + Cut(s[i + 1..], d)
  {
    hide IndexOf;
    FirstDelimiter(s, i, d);
  }

  /** A segment in front. */
  lemma CutFirst(a: string, d: char, rest: string)
    requires d !in a
    ensures Cut(a + [d] + rest, d) == [a] + Cut(rest, d)
  {
    var s := a + [d] + rest;
    assert s[..|a|] == a && s[|a| + 1..] == rest;
    CutAt(s, |a|, d);
  }

  /** Two texts joined by a delimiter. */
  lemma {:induction false} CutJoined(s: string, d: char, t: string)
    ensures Cut(s + [d] + t, d) == Cut(s, d) + Cut(t, d)
    decreases |s|
  {
    hide Cut;
    if d !in s {
      CutFirst(s, d, t);
      CutNothing(s, d);
    } else {
      var i := IndexOf(s, d);
      var first, rest := s[..i], s[i + 1..];
      assert s == first + [d] + rest;
      CutFirst(first, d, rest);
      assert s + [d] + t == first + [d] + (rest + [d] + t);
      CutFirst(first, d, rest + [d] + t);
      CutJoined(rest, d, t);
      Associate([first], Cut(rest, d), Cut(t, d));
    }
  }

  lemma CutNothing(s: string, d: char)
    requires d !in s
    ensures Cut(s, d) == [s]
  {
  }

  /** A segment at the end. */
  lemma CutLast(s: string, d: char, last: string)
    requires d !in last
    ensures Cut(s + [d] + last, d) == Cut(s, d) + [last]
  {
    CutJoined(s, d, last);
    CutNothing(last, d);
  }

  lemma {:induction false} KeptJoined(a: seq<string>, b: seq<string>)
    ensures Kept(a + b) == Kept(a) + Kept(b)
  {
    hide Trimmed;
    if a == [] {
      assert a + b == b;
    } else {
      KeptJoined(a[1..], b);
      assert (a + b)[1..] == a[1..] + b;
      var first := if Trimmed(a[0]) != "" then [Trimmed(a[0])] else [];
      Associate(first, Kept(a[1..]), Kept(b));
    }
  }

  /** `trim`: the bounds of the trimmed segment. The left bound may run past the segment's end when the
      segment is blank; the result is then empty. */
  method Trim(s: string, left0: nat, right0: nat) returns (left: nat, right: nat)
    requires left0 <= right0 <= |s|
    ensures left <= |s| && right <= right0
    ensures if left < right then left0 <= left && s[left..right] == Trimmed(s[left0..right0])
            else Trimmed(s[left0..right0]) == ""
  {
    hide TrimLeft, TrimRight;
    left, right := left0, right0;
    TrimmedNothing();
    while left < |s| && IsSpaceOrTab(s[left])
      invariant left0 <= left <= |s|
      invariant left <= right0 ==> TrimLeft(s[left0..right0]) == TrimLeft(s[left..right0])
      invariant left > right0 ==> TrimLeft(s[left0..right0]) == ""
    {
      TrimLeftStep(s, left, right0);
      left := left + 1;
    }
    ghost var tail := if left <= right0 then s[left..right0] else "";
    assert TrimLeft(s[left0..right0]) == tail by { TrimLeftEnd(s, left, right0); }
    while right > 0 && IsSpaceOrTab(s[right - 1])
      invariant right <= right0
      invariant if left <= right then TrimRight(tail) == TrimRight(s[left..right]) else TrimRight(tail) == ""
    {
      TrimRightStep(s, left, right);
      right := right - 1;
    }
    TrimRightEnd(s, left, right);
  }

  lemma TrimmedNothing()
    ensures TrimLeft("") == "" && TrimRight("") == ""
  {
  }

  lemma TrimLeftStep(s: string, left: nat, right: nat)
    requires left < |s| && right <= |s| && IsSpaceOrTab(s[left])
    ensures left < right ==> TrimLeft(s[left..right]) == TrimLeft(s[left + 1..right])
    ensures left == right ==> TrimLeft(s[left..right]) == ""
  {
    if left < right { assert s[left..right][1..] == s[left + 1..right]; }
  }

  lemma TrimLeftEnd(s: string, left: nat, right: nat)
    requires left <= |s| && right <= |s| && (left < |s| ==> !IsSpaceOrTab(s[left]))
    ensures left <= right ==> TrimLeft(s[left..right]) == s[left..right]
  {
  }

  lemma TrimRightStep(s: string, left: nat, right: nat)
    requires left <= |s| && 0 < right <= |s| && IsSpaceOrTab(s[right - 1])
    ensures left < right ==> TrimRight(s[left..right]) == TrimRight(s[left..right - 1])
    ensures left == right ==> TrimRight(s[left..right]) == ""
  {
    if left < right { assert s[left..right][..right - left - 1] == s[left..right - 1]; }
  }

  lemma TrimRightEnd(s: string, left: nat, right: nat)
    requires left <= |s| && right <= |s| && (right > 0 ==> !IsSpaceOrTab(s[right - 1]))
    ensures left <= right ==> TrimRight(s[left..right]) == s[left..right]
  {
  }

  /** The segments when there may be no more than `most`: the last one keeps the delimiters that are left. */
  function CutAtMost(s: string, d: char, most: nat): seq<string> {
    if d !in s || most <= 1 then [s]
    else
      var i := IndexOf(s, d);
      [s[..i]] + CutAtMost(s[i + 1..], d, most - 1)
  }

  lemma {:induction false} NoLimit(s: string, d: char, most: nat)
    requires most > |s|
    ensures CutAtMost(s, d, most) == Cut(s, d)
    decreases |s|
  {
    hide Cut, CutAtMost;
    CutUnfolds(s, d, most);
    if d in s {
      NoLimit(s[IndexOf(s, d) + 1..], d, most - 1);
    }
  }

  lemma CutUnfolds(s: string, d: char, most: nat)
    requires most > |s|
    ensures d !in s ==> Cut(s, d) == [s] == CutAtMost(s, d, most)
    ensures d in s ==>
              var i := IndexOf(s, d);
              && most > 1
              && Cut(s, d) == [s[..i]] + Cut(s[i + 1..], d)
              && CutAtMost(s, d, most) == [s[..i]] + CutAtMost(s[i + 1..], d, most - 1)
  {
  }

  /** `split` with at most `m` pieces. */
  method SplitAtMost(s: string, d: char, m: nat) returns (pieces: seq<string>)
    ensures pieces == Kept(CutAtMost(s, d, m))
  {
    hide CutAtMost, Kept, Trimmed;
    pieces := [];
    var i, beg, count := 0, 0, 1;
    assert s[0..] == s && [] + Kept(CutAtMost(s, d, m)) == Kept(CutAtMost(s, d, m));
    while i < |s|
      invariant beg <= i <= |s| && (count < m ==> d !in s[beg..i])
      invariant 1 <= count && (count <= m || count == 1)
      invariant pieces + Kept(CutAtMost(s[beg..], d, if m == 0 then 0 else m - count + 1)) == Kept(CutAtMost(s, d, m))
    {
      if s[i] == d && count < m {
        var kept := KeepSegment(s, beg, i);
        SegmentEnds(s, beg, i, d, m - count + 1);
        Associate(pieces, kept, Kept(CutAtMost(s[i + 1..], d, m - count)));
        pieces := pieces + kept;
        beg := i + 1;
        count := count + 1;
      } else {
        assert s[beg..i + 1] == s[beg..i] + [s[i]];
      }
      i := i + 1;
    }
    assert s[beg..i] == s[beg..];
    LastSegment(s, beg, d, if m == 0 then 0 else m - count + 1);
    if i > 0 {
      var kept := KeepSegment(s, beg, i);
      pieces := pieces + kept;
    }
  }

  /** `split` without a limit: with one that is larger than any text is long. */
  method Split(s: string, d: char) returns (pieces: seq<string>)
    ensures pieces == Pieces(s, d)
  {
    NoLimit(s, d, |s| + 1);
    pieces := SplitAtMost(s, d, |s| + 1);
  }

  /** Reports the trimmed segment unless it is empty. */
  method KeepSegment(s: string, beg: nat, end: nat) returns (kept: seq<string>)
    requires beg <= end <= |s|
    ensures kept == Kept([s[beg..end]])
  {
    hide Trimmed;
    var l, r := Trim(s, beg, end);
    assert Kept([s[beg..end]][1..]) == [];
    kept := if l < r then [s[l..r]] else [];
  }

  lemma Associate(a: seq<string>, b: seq<string>, c: seq<string>)
    ensures a + (b + c) == a + b + c
  {
  }

  lemma SegmentEnds(s: string, beg: nat, i: nat, d: char, most: nat)
    requires beg <= i < |s| && s[i] == d && d !in s[beg..i] && most > 1
    ensures Kept(CutAtMost(s[beg..], d, most)) == Kept([s[beg..i]]) + Kept(CutAtMost(s[i + 1..], d, most - 1))
  {
    hide Kept;
    var t := s[beg..];
    assert t[..i - beg] == s[beg..i] && t[i - beg + 1..] == s[i + 1..];
    FirstDelimiter(t, i - beg, d);
    KeptFirst(s[beg..i], CutAtMost(s[i + 1..], d, most - 1));
  }

  lemma FirstDelimiter(s: string, i: nat, d: char)
    requires i < |s| && s[i] == d && d !in s[..i]
    ensures IndexOf(s, d) == i && d in s
  {
    var k := IndexOf(s, d);
    assert forall j :: 0 <= j < i ==> s[j] in s[..i];
    assert forall j :: 0 <= j < k ==> s[j] in s[..k];
  }

  lemma KeptFirst(first: string, rest: seq<string>)
    ensures Kept([first] + rest) == Kept([first]) + Kept(rest)
  {
    hide Trimmed;
    assert ([first] + rest)[1..] == rest && [first][1..] == [];
    assert Kept([]) == [];
  }

  lemma LastSegment(s: string, beg: nat, d: char, most: nat)
    requires beg <= |s| && (most > 1 ==> d !in s[beg..])
    ensures Kept(CutAtMost(s[beg..], d, most)) == Kept([s[beg..|s|]])
    ensures s == "" ==> Kept([s[beg..|s|]]) == []
  {
    assert s[beg..] == s[beg..|s|];
    assert s == "" ==> [s[beg..|s|]][1..] == [];
  }

  /** A text that starts and ends with other characters is not trimmed, blanks around it are. */
  predicate Tight(s: string) {
    s != "" && !IsSpaceOrTab(s[0]) && !IsSpaceOrTab(s[|s| - 1])
  }

  lemma TrimmedTight(s: string)
    requires Tight(s)
    ensures Trimmed(s) == s && Trimmed(" " + s) == s
  {
    assert (" " + s)[1..] == s;
  }

  // ---------------------------------------------------------------------------------------------
  // What splitting and trimming mean
  // ---------------------------------------------------------------------------------------------

  /** The segments with the delimiter between them. */
  function Joined(segments: seq<string>, d: char): string {
    if segments == [] then "" else segments[0] + (if |segments| == 1 then "" else [d] + Joined(segments[1..], d))
  }

  lemma JoinedMore(first: string, rest: seq<string>, d: char)
    ensures rest != [] ==> Joined([first] + rest, d) == first + ([d] + Joined(rest, d))
  {
    assert ([first] + rest)[1..] == rest;
  }

  /** Cutting is the inverse of joining: the segments make up the text, none of them holds the delimiter, and there are
      no more than asked for, when the rest of the text may stay in the last one. */
  lemma {:induction false} CutAtMostExactly(s: string, d: char, most: nat)
    ensures Joined(CutAtMost(s, d, most), d) == s && AtMost(CutAtMost(s, d, most), d, most)
    decreases |s|
  {
    hide Joined, AtMost, CutAtMost;
    JoinedOne(s, d, most);
    if d in s && most > 1 {
      var first, rest := CutAtMostFirst(s, d, most);
      CutAtMostExactly(rest, d, most - 1);
      OneSegmentMore(first, CutAtMost(rest, d, most - 1), d, most);
      JoinedMore(first, CutAtMost(rest, d, most - 1), d);
    } else {
      NotCut(s, d, most);
    }
  }

  lemma CutAtMostFirst(s: string, d: char, most: nat) returns (first: string, rest: string)
    requires d in s && most > 1
    ensures s == first + ([d] + rest) && d !in first
    ensures CutAtMost(s, d, most) == [first] + CutAtMost(rest, d, most - 1)
  {
    var i := IndexOf(s, d);
    first, rest := s[..i], s[i + 1..];
  }

  lemma NotCut(s: string, d: char, most: nat)
    requires d !in s || most <= 1
    ensures CutAtMost(s, d, most) == [s]
  {
  }

  /** No more segments than asked for; only the last of as many as that may hold the delimiter. */
  predicate AtMost(segments: seq<string>, d: char, most: nat) {
    && segments != [] && |segments| <= (if most <= 1 then 1 else most)
    && (forall i :: 0 <= i < |segments| - 1 ==> d !in segments[i])
    && (|segments| < most ==> d !in segments[|segments| - 1])
  }

  lemma JoinedOne(s: string, d: char, most: nat)
    ensures Joined([s], d) == s
    ensures d !in s || most <= 1 ==> AtMost([s], d, most)
  {
  }

  lemma OneSegmentMore(first: string, rest: seq<string>, d: char, most: nat)
    requires d !in first && most > 1 && AtMost(rest, d, most - 1)
    ensures rest != [] && AtMost([first] + rest, d, most)
  {
  }

  /** Without a limit: all the segments, none of which holds the delimiter. */
  lemma CutExactly(s: string, d: char)
    ensures Cut(s, d) != [] && Joined(Cut(s, d), d) == s && forall segment <- Cut(s, d) :: d !in segment
  {
    hide Joined, CutAtMost, Cut;
    NoLimit(s, d, |s| + 2);
    CutAtMostExactly(s, d, |s| + 2);
    CutCount(s, d);
    assert forall segment <- Cut(s, d) :: exists i :: 0 <= i < |Cut(s, d)| && Cut(s, d)[i] == segment;
  }

  lemma {:induction false} CutCount(s: string, d: char)
    ensures |Cut(s, d)| <= |s| + 1
    decreases |s|
  {
    if d in s { CutCount(s[IndexOf(s, d) + 1..], d); }
  }

  /** Of one segment what is left by trimming is reported, unless nothing is; with `KeptJoined`, of any segments in
      their order. */
  lemma KeptOne(segment: string)
    ensures Kept([segment]) == if Trimmed(segment) == "" then [] else [Trimmed(segment)]
    ensures Kept([]) == []
  {
    hide Trimmed;
    assert [segment][1..] == [];
  }

  predicate Blank(s: string) {
    forall i :: 0 <= i < |s| ==> s[i] == ' ' || s[i] == '\t'
  }

  /** Trimming takes the blanks at both ends and nothing else. */
  lemma TrimmedExactly(s: string) returns (left: string, right: string)
    ensures s == left + Trimmed(s) + right && Blank(left) && Blank(right)
    ensures var t := Trimmed(s); t != "" ==> t[0] !in {' ', '\t'} && t[|t| - 1] !in {' ', '\t'}
  {
    left := LeftTrimmed(s);
    right := RightTrimmed(TrimLeft(s));
    assert left + (Trimmed(s) + right) == left + Trimmed(s) + right;
    if Trimmed(s) != "" { assert Trimmed(s)[0] == TrimLeft(s)[0]; }
  }

  lemma {:induction false} LeftTrimmed(s: string) returns (left: string)
    ensures s == left + TrimLeft(s) && Blank(left)
    ensures TrimLeft(s) == "" || !IsSpaceOrTab(TrimLeft(s)[0])
    decreases |s|
  {
    left := "";
    if s != "" && IsSpaceOrTab(s[0]) {
      var more := LeftTrimmed(s[1..]);
      left := [s[0]] + more;
      assert s == [s[0]] + s[1..];
      assert [s[0]] + (more + TrimLeft(s[1..])) == [s[0]] + more + TrimLeft(s[1..]);
    } else {
      assert s == "" + s;
    }
  }

  lemma {:induction false} RightTrimmed(s: string) returns (right: string)
    ensures s == TrimRight(s) + right && Blank(right)
    ensures TrimRight(s) == "" || !IsSpaceOrTab(TrimRight(s)[|TrimRight(s)| - 1])
    decreases |s|
  {
    right := "";
    if s != "" && IsSpaceOrTab(s[|s| - 1]) {
      var n := |s| - 1;
      var more := RightTrimmed(s[..n]);
      right := more + [s[n]];
      assert s == s[..n] + [s[n]];
      assert TrimRight(s[..n]) + more + [s[n]] == TrimRight(s[..n]) + (more + [s[n]]);
    } else {
      assert s == s + "";
    }
  }

  // ---------------------------------------------------------------------------------------------
  // Decimal numbers
  // ---------------------------------------------------------------------------------------------

  const TWO_63: int := 0x8000_0000_0000_0000

  predicate IsDigit(c: char) { '0' <= c <= '9' }

  predicate AllDigits(s: string) {
    forall i :: 0 <= i < |s| ==> IsDigit(s[i])
  }

  function DigitChar(n: nat): char
    requires n < 10
  {
    ('0' as int + n) as char
  }

  /** `std::to_string` of a non-negative number. */
  function Decimal(n: nat): string {
    if n < 10 then [DigitChar(n)] else Decimal(n / 10) + [DigitChar(n % 10)]
  }

  function DecimalValue(s: string): nat
    requires AllDigits(s)
  {
    if s == "" then 0 else DecimalValue(s[..|s| - 1]) * 10 + (s[|s| - 1] - '0') as nat
  }

  lemma {:induction false} DecimalRoundTrip(n: nat)
    ensures Decimal(n) != "" && AllDigits(Decimal(n)) && DecimalValue(Decimal(n)) == n
    decreases n
  {
    if n >= 10 {
      DecimalRoundTrip(n / 10);
      assert Decimal(n)[..|Decimal(n)| - 1] == Decimal(n / 10);
    } else {
      assert Decimal(n)[..0] == "";
    }
  }
}
