/** Query strings: `params_to_query_str`, `parse_query_text` and the multimap between them. */
module Query {
  import opened Splitting
  import opened UrlCoding

  datatype Param = Param(key: string, value: string)

  /** The multimap in iteration order. */
  type Params = seq<Param>

  // ---------------------------------------------------------------------------------------------
  // The multimap
  // ---------------------------------------------------------------------------------------------

  /** The order of the keys. */
  predicate Less(a: string, b: string) {
    if b == "" then false
    else if a == "" then true
    else a[0] < b[0] || (a[0] == b[0] && Less(a[1..], b[1..]))
  }

  predicate Sorted(params: Params) {
    forall i, j :: 0 <= i < j < |params| ==> !Less(params[j].key, params[i].key)
  }

  /** The order is the lexicographic one: the first difference decides, or that one text is the start of the other. */
  lemma {:induction false} LessExactly(a: string, b: string)
    ensures Less(a, b) <==> exists n: nat ::
              n <= |a| && n < |b| && a[..n] == b[..n] && (n == |a| || a[n] < b[n])
    decreases |a|
  {
    if b != "" && a != "" && a[0] == b[0] {
      LessExactly(a[1..], b[1..]);
      if n: nat :| n <= |a| && n < |b| && a[..n] == b[..n] && (n == |a| || a[n] < b[n]) {
        LessBehind(a, b, n);
      }
      if Less(a[1..], b[1..]) {
        var n: nat :| n <= |a| - 1 && n < |b| - 1 && a[1..][..n] == b[1..][..n]
                      && (n == |a| - 1 || a[1..][n] < b[1..][n]);
        assert a[..n + 1] == [a[0]] + a[1..][..n] == b[..n + 1];
      }
    } else if b != "" {
      assert a[..0] == b[..0];
      SameFirst(a, b);
    }
  }

  lemma LessBehind(a: string, b: string, n: nat)
    requires a != "" && b != "" && a[0] == b[0]
    requires n <= |a| && n < |b| && a[..n] == b[..n] && (n == |a| || a[n] < b[n])
    ensures n > 0 && a[1..][..n - 1] == b[1..][..n - 1] && (n - 1 == |a[1..]| || a[1..][n - 1] < b[1..][n - 1])
  {
    assert a[1..][..n - 1] == a[..n][1..] && b[..n][1..] == b[1..][..n - 1];
  }

  lemma SameFirst(a: string, b: string)
    ensures forall n: nat :: 0 < n <= |a| && n <= |b| && a[..n] == b[..n] ==> a[0] == b[0]
  {
    forall n: nat | 0 < n <= |a| && n <= |b| && a[..n] == b[..n]
      ensures a[0] == b[0]
    {
      assert a[..n][0] == b[..n][0];
    }
  }

  /** The first parameter with a greater key. */
  function UpperBound(params: Params, key: string): (i: nat)
    ensures i <= |params|
    ensures i < |params| ==> Less(key, params[i].key)
    ensures forall j :: 0 <= j < i ==> !Less(key, params[j].key)
  {
    if params == [] || Less(key, params[0].key) then 0 else 1 + UpperBound(params[1..], key)
  }

  function Emplace(params: Params, p: Param): Params {
    var i := UpperBound(params, p.key);
    params[..i] + [p] + params[i..]
  }

  lemma {:induction false} BetweenIsLess(k: string, x: string, y: string)
    requires Less(k, x) && !Less(y, x)
    ensures !Less(y, k)
    decreases |k|
  {
    if k != "" && y != "" && y[0] == k[0] == x[0] {
      BetweenIsLess(k[1..], x[1..], y[1..]);
    }
  }

  /** The multimap stays ordered. */
  lemma EmplaceKeepsOrder(params: Params, p: Param)
    requires Sorted(params)
    ensures Sorted(Emplace(params, p))
  {
    hide Less;
    var i := UpperBound(params, p.key);
    forall j | i <= j < |params|
      ensures !Less(params[j].key, p.key)
    {
      if i < j { assert !Less(params[j].key, params[i].key); }
      if j == i { LessIsIrreflexive(params[i].key); }
      BetweenIsLess(p.key, params[i].key, params[j].key);
    }
  }

  lemma {:induction false} LessIsIrreflexive(a: string)
    ensures !Less(a, a)
  {
    if a != "" { LessIsIrreflexive(a[1..]); }
  }

  lemma EmplaceLast(params: Params, p: Param)
    requires forall i :: 0 <= i < |params| ==> !Less(p.key, params[i].key)
    ensures Emplace(params, p) == params + [p]
  {
    assert UpperBound(params, p.key) == |params|;
  }

  // ---------------------------------------------------------------------------------------------
  // Printing
  // ---------------------------------------------------------------------------------------------

  predicate AllBytes(params: Params) {
    forall i :: 0 <= i < |params| ==> IsBytes(params[i].value)
  }

  function Printed(p: Param): string
    requires IsBytes(p.value)
  {
    p.key + "=" + Encode(p.value)
  }

  function QueryText(params: Params): string
    requires AllBytes(params)
  {
    if params == [] then ""
    else if |params| == 1 then Printed(params[0])
    else QueryText(params[..|params| - 1]) + ("&" + Printed(params[|params| - 1]))
  }

  method ParamsToQueryStr(params: Params) returns (query: string)
    requires AllBytes(params)
    ensures query == QueryText(params)
  {
    hide Encode;
    query := "";
    var i := 0;
    while i < |params|
      invariant i <= |params|
      invariant query == QueryText(params[..i])
    {
      QueryTextNext(params, i);
      if i != 0 {
        query := query + "&";
      }
      query := query + params[i].key;
      query := query + "=";
      var escaped := EncodeQueryParam(params[i].value);
      query := query + escaped;
      i := i + 1;
    }
    assert params[..i] == params;
  }

  lemma QueryTextNext(params: Params, i: nat)
    requires AllBytes(params) && i < |params|
    ensures QueryText(params[..i + 1])
        == (if i != 0 then QueryText(params[..i]) + "&" else QueryText(params[..i]))
           + params[i].key + "=" + Encode(params[i].value)
  {
    hide Encode;
    assert params[..i + 1][..i] == params[..i];
    var q, p := QueryText(params[..i]), params[i];
    assert q + ("&" + Printed(p)) == q + "&" + p.key + "=" + Encode(p.value);
  }

  // ---------------------------------------------------------------------------------------------
  // Parsing
  // ---------------------------------------------------------------------------------------------

  function RawKey(piece: string): string {
    piece[..IndexOf(piece, '=')]
  }

  function RawValue(piece: string): string {
    var i := IndexOf(piece, '=');
    if i == |piece| then "" else piece[i + 1..]
  }

  function ParsedParam(piece: string): Param {
    Param(Decode(RawKey(piece), true), Decode(RawValue(piece), true))
  }

  /** The parameters after the pieces: a piece that came before is skipped, and so is one without a key. */
  function ParsedPieces(params: Params, pieces: seq<string>): Params {
    if pieces == [] then params
    else
      var n := |pieces| - 1;
      var before := ParsedPieces(params, pieces[..n]);
      if pieces[n] in pieces[..n] || RawKey(pieces[n]) == "" then before
      else Emplace(before, ParsedParam(pieces[n]))
  }

  function ParsedQuery(params: Params, s: string): Params {
    ParsedPieces(params, Pieces(s, '&'))
  }

  /** `divide`: what is before the first delimiter, and what is after it. */
  method Divide(data: string, d: char) returns (lhs: string, rhs: string)
    ensures d !in lhs
    ensures d in data ==> data == lhs + [d] + rhs
    ensures d !in data ==> lhs == data && rhs == ""
  {
    var it := 0;
    while it < |data| && data[it] != d
      invariant it <= |data| && d !in data[..it]
    {
      assert data[..it + 1] == data[..it] + [data[it]];
      it := it + 1;
    }
    var found := if it != |data| then 1 else 0;
    lhs, rhs := data[..it], data[it + found..];
    assert it == |data| ==> data[..it] == data;
  }

  lemma DividedIs(piece: string, lhs: string, rhs: string)
    requires '=' !in lhs
    requires '=' in piece ==> piece == lhs + ['='] + rhs
    requires '=' !in piece ==> lhs == piece && rhs == ""
    ensures lhs == RawKey(piece) && rhs == RawValue(piece)
  {
    var i := IndexOf(piece, '=');
    assert forall j :: 0 <= j < i ==> piece[j] in piece[..i];
    if '=' in piece {
      assert piece[|lhs|] == '=';
      assert i == |lhs|;
      assert piece[i + 1..] == rhs;
    }
  }

  method ParseQueryText(s: string, params0: Params) returns (params: Params)
    ensures params == ParsedQuery(params0, s)
    ensures Sorted(params0) ==> Sorted(params)
  {
    hide RawKey, RawValue, Emplace, Sorted, ParsedPieces, ParsedParam, Pieces, Decode;
    params := params0;
    var cache: set<string> := {};
    var pieces := Split(s, '&');
    var i := 0;
    NothingParsed(params0);
    while i < |pieces|
      invariant i <= |pieces|
      invariant forall kv :: kv in cache <==> kv in pieces[..i]
      invariant params == ParsedPieces(params0, pieces[..i])
      invariant Sorted(params0) ==> Sorted(params)
    {
      var kv := pieces[i];
      ParsedNext(params0, pieces, i);
      if kv !in cache {
        cache := cache + {kv};
        var key, val := Divide(kv, '=');
        DividedIs(kv, key, val);
        if key != "" {
          var k := DecodeUrl(key, true);
          var v := DecodeUrl(val, true);
          if Sorted(params) { EmplaceKeepsOrder(params, Param(k, v)); }
          params := Emplace(params, Param(k, v));
        }
      }
      i := i + 1;
    }
    assert pieces[..i] == pieces;
  }

  lemma NothingParsed(params0: Params)
    ensures ParsedPieces(params0, []) == params0
  {
  }

  lemma ParsedNext(params0: Params, pieces: seq<string>, i: nat)
    requires i < |pieces|
    ensures pieces[..i + 1] == pieces[..i] + [pieces[i]]
    ensures var before, kv := ParsedPieces(params0, pieces[..i]), pieces[i];
            ParsedPieces(params0, pieces[..i + 1]) ==
              if kv in pieces[..i] || RawKey(kv) == "" then before
              else Emplace(before, Param(Decode(RawKey(kv), true), Decode(RawValue(kv), true)))
  {
    hide RawKey, RawValue, Emplace, Decode;
    assert pieces[..i + 1][..i] == pieces[..i] && pieces[..i + 1][i] == pieces[i];
  }

  // ---------------------------------------------------------------------------------------------
  // What is read from a text
  // ---------------------------------------------------------------------------------------------

  /** A piece of a query: one parameter, without blanks at its ends. */
  predicate IsPiece(s: string) {
    Tight(s) && '&' !in s
  }

  /** A key and a value without escapes are read as they are, but that a plus sign is a space in both. What has no key
      is not read; the key ends at the first equals sign, the value may hold more of them. */
  lemma PairIsRead(key: string, value: string)
    requires IsPiece(key + "=" + value) && '=' !in key && NoEscape(key) && NoEscape(value)
    ensures ParsedQuery([], key + "=" + value)
         == if key == "" then [] else [Param(Spaced(key, true), Spaced(value, true))]
  {
    var s := key + "=" + value;
    DividedIs(s, key, value);
    PieceIsRead(s);
    DecodeOnlySpaces(key, true);
    DecodeOnlySpaces(value, true);
  }

  /** Without an equals sign all is the key, and the value is empty. */
  lemma KeyIsRead(key: string)
    requires IsPiece(key) && '=' !in key && NoEscape(key)
    ensures ParsedQuery([], key) == [Param(Spaced(key, true), "")]
  {
    DividedIs(key, key, "");
    PieceIsRead(key);
    DecodeOnlySpaces(key, true);
    assert Decode("", true) == "";
  }

  lemma PieceIsRead(s: string)
    requires IsPiece(s)
    ensures ParsedQuery([], s) == if RawKey(s) == "" then [] else [ParsedParam(s)]
  {
    hide RawKey, ParsedParam, Emplace, Cut, Kept;
    CutNothing(s, '&');
    OneKept(s);
    assert Pieces(s, '&') == [s];
    var none: Params := [];
    assert [s][..0] == [] && ParsedPieces(none, []) == none;
    assert ParsedPieces(none, [s]) == if RawKey(s) == "" then none else Emplace(none, ParsedParam(s));
    EmplaceLast(none, ParsedParam(s));
    assert none + [ParsedParam(s)] == [ParsedParam(s)];
  }

  lemma OneKept(s: string)
    requires IsPiece(s)
    ensures Kept([s]) == [s]
  {
    assert Trimmed(s) == s;
    assert [s][1..] == [];
  }

  // ---------------------------------------------------------------------------------------------
  // The round trip
  // ---------------------------------------------------------------------------------------------

  /** Keys that survive being printed as they are. Non-empty keys of characters the encoder passes through are among
      them. */
  ghost predicate KeyOk(key: string) {
    && key != ""
    && !IsSpaceOrTab(key[0])
    && '&' !in key
    && '=' !in key
    && Literal(key)
  }

  ghost predicate KeysOk(params: Params) {
    forall i :: 0 <= i < |params| ==> KeyOk(params[i].key)
  }

  lemma PlainKeysAreOk(key: string)
    requires key != "" && forall i :: 0 <= i < |key| ==> PassesThrough(key[i])
    ensures KeyOk(key)
  {
  }

  /** The parameters without the later copies of a pair. */
  function Uniques(params: Params): Params {
    if params == [] then []
    else
      var n := |params| - 1;
      Uniques(params[..n]) + if params[n] in params[..n] then [] else [params[n]]
  }

  predicate Distinct(params: Params) {
    forall i, j :: 0 <= i < j < |params| ==> params[i] != params[j]
  }

  lemma {:induction false} UniquesAreIn(params: Params)
    ensures |Uniques(params)| <= |params|
    ensures forall p :: p in Uniques(params) ==> p in params
  {
    if params != [] {
      UniquesAreIn(params[..|params| - 1]);
    }
  }

  lemma DistinctLast(params: Params)
    requires params != []
    ensures var n := |params| - 1;
            Distinct(params) <==> Distinct(params[..n]) && params[n] !in params[..n]
  {
    var n := |params| - 1;
    assert forall i :: 0 <= i < n ==> params[..n][i] == params[i];
    assert forall i :: 0 <= i < n ==> params[i] in params[..n];
  }

  lemma {:induction false} UniquesAll(params: Params)
    ensures Uniques(params) == params <==> Distinct(params)
  {
    hide Distinct;
    if params == [] {
      assert Distinct(params) by { NoneDistinct(); }
    } else {
      var n := |params| - 1;
      assert params == params[..n] + [params[n]];
      UniquesAll(params[..n]);
      UniquesAreIn(params[..n]);
      DistinctLast(params);
    }
  }

  lemma NoneDistinct()
    ensures Distinct([])
  {
  }

  /** A printed pair reads back. */
  lemma PrintedReadsBack(p: Param)
    requires IsBytes(p.value) && KeyOk(p.key)
    ensures ParsedParam(Printed(p)) == p && RawKey(Printed(p)) == p.key
  {
    DividedIs(Printed(p), p.key, Encode(p.value));
    DecodeInvertsEncode(p.value, true);
    DecodeChangesNothing(p.key);
  }

  lemma EncodedSplitsNowhere(value: string)
    requires IsBytes(value)
    ensures '&' !in Encode(value) && '=' !in Encode(value)
    ensures Encode(value) != "" ==> !IsSpaceOrTab(Encode(value)[|Encode(value)| - 1])
  {
    EncodedIsPlain(value);
    var e := Encode(value);
    assert e != "" ==> e[|e| - 1] in e;
  }

  lemma PrintedIsTight(p: Param)
    requires IsBytes(p.value) && KeyOk(p.key)
    ensures Tight(Printed(p)) && '&' !in Printed(p)
  {
    EncodedSplitsNowhere(p.value);
    var s, e := Printed(p), Encode(p.value);
    assert e == "" ==> s[|s| - 1] == '=';
    assert e != "" ==> s[|s| - 1] == e[|e| - 1];
  }

  function AllPrinted(params: Params): seq<string>
    requires AllBytes(params)
  {
    seq(|params|, i requires 0 <= i < |params| => Printed(params[i]))
  }

  lemma KeptTight(s: string)
    requires Tight(s)
    ensures Kept([s]) == [s]
  {
    TrimmedTight(s);
    assert [s][1..] == [];
  }

  lemma JoinOne(text: string, pieces: seq<string>, last: string)
    requires Tight(last) && '&' !in last && Pieces(text, '&') == pieces
    ensures Pieces(text + ("&" + last), '&') == pieces + [last]
    ensures Pieces(last, '&') == [last]
  {
    hide Tight, Kept, Trimmed;
    KeptTight(last);
    assert text + ("&" + last) == text + ['&'] + last;
    CutLast(text, '&', last);
    KeptJoined(Cut(text, '&'), [last]);
  }

  lemma NoPieces()
    ensures Pieces("", '&') == []
  {
    assert [""][1..] == [];
  }

  /** Splitting undoes the joining. */
  lemma {:induction false} QueryTextPieces(params: Params)
    requires AllBytes(params) && KeysOk(params)
    ensures Pieces(QueryText(params), '&') == AllPrinted(params)
  {
    hide Printed, KeyOk, Tight, Pieces;
    if params == [] {
      NoPieces();
    } else {
      var n := |params| - 1;
      var last := Printed(params[n]);
      PrintedIsTight(params[n]);
      QueryTextPieces(params[..n]);
      JoinOne(QueryText(params[..n]), AllPrinted(params[..n]), last);
      assert AllPrinted(params) == AllPrinted(params[..n]) + [last];
    }
  }

  lemma {:induction false} PrintedPiecesReadBack(params: Params)
    requires AllBytes(params) && KeysOk(params) && Sorted(params)
    ensures ParsedPieces([], AllPrinted(params)) == Uniques(params)
  {
    hide Printed, KeyOk, RawKey, RawValue, Emplace, Less, ParsedParam;
    if params != [] {
      var n := |params| - 1;
      var before, last := params[..n], params[n];
      PrintedPiecesReadBack(before);
      assert AllPrinted(params)[..n] == AllPrinted(before);
      PrintedReadsBack(last);
      SameAsPrinted(before, last);
      assert last.key != "" by { KeyIsNotEmpty(last.key); }
      GreatestGoesLast(params);
    }
  }

  lemma GreatestGoesLast(params: Params)
    requires params != [] && Sorted(params)
    ensures var n := |params| - 1; Emplace(Uniques(params[..n]), params[n]) == Uniques(params[..n]) + [params[n]]
  {
    hide Less, Uniques;
    var n := |params| - 1;
    var us, last := Uniques(params[..n]), params[n];
    UniquesAreIn(params[..n]);
    forall i | 0 <= i < |us|
      ensures !Less(last.key, us[i].key)
    {
      assert us[i] in params[..n];
      var j :| 0 <= j < n && params[j] == us[i];
    }
    EmplaceLast(us, last);
  }

  lemma KeyIsNotEmpty(key: string)
    requires KeyOk(key)
    ensures key != ""
  {
  }

  /** Different pairs are printed differently. */
  lemma SameAsPrinted(before: Params, p: Param)
    requires AllBytes(before) && KeysOk(before) && IsBytes(p.value) && KeyOk(p.key)
    ensures Printed(p) in AllPrinted(before) <==> p in before
  {
    hide Printed, KeyOk, ParsedParam;
    PrintedReadsBack(p);
    forall i | 0 <= i < |before|
      ensures ParsedParam(Printed(before[i])) == before[i]
    {
      PrintedReadsBack(before[i]);
    }
    if p in before {
      var i :| 0 <= i < |before| && before[i] == p;
      assert AllPrinted(before)[i] == Printed(p);
    }
  }

  /** A multimap with good keys comes back without the later copies of its pairs; so all of it comes back exactly when
      its pairs are distinct. */
  lemma RoundTrip(params: Params)
    requires AllBytes(params) && KeysOk(params) && Sorted(params)
    ensures ParsedQuery([], QueryText(params)) == Uniques(params)
    ensures ParsedQuery([], QueryText(params)) == params <==> Distinct(params)
  {
    QueryTextPieces(params);
    PrintedPiecesReadBack(params);
    UniquesAll(params);
  }

  // ---------------------------------------------------------------------------------------------
  // How a printed pair with any key is read
  // ---------------------------------------------------------------------------------------------

  lemma {:induction false} TrimmedIsShorter(s: string)
    ensures |TrimLeft(s)| <= |s|
    ensures s != "" && IsSpaceOrTab(s[0]) ==> |TrimLeft(s)| < |s|
    ensures s == "" || !IsSpaceOrTab(s[0]) ==> TrimLeft(s) == s
    decreases |s|
  {
    if s != "" && IsSpaceOrTab(s[0]) {
      TrimmedIsShorter(s[1..]);
    }
  }

  lemma {:induction false} TrimRightIsShorter(s: string)
    ensures |TrimRight(s)| <= |s|
    decreases |s|
  {
    if s != "" && IsSpaceOrTab(s[|s| - 1]) {
      TrimRightIsShorter(s[..|s| - 1]);
    }
  }

  lemma {:induction false} TrimLeftPrefix(key: string, value: string)
    ensures TrimLeft(key + "=" + value) == TrimLeft(key) + "=" + value
    decreases |key|
  {
    var s := key + "=" + value;
    if key != "" && IsSpaceOrTab(key[0]) {
      assert s[1..] == key[1..] + "=" + value;
      TrimLeftPrefix(key[1..], value);
    } else {
      assert s[0] == if key == "" then '=' else key[0];
    }
  }

  /** The trimmed text of a single pair. */
  lemma TrimmedPair(key: string, value: string)
    requires value != "" ==> !IsSpaceOrTab(value[|value| - 1])
    ensures Trimmed(key + "=" + value) == TrimLeft(key) + "=" + value
  {
    TrimLeftPrefix(key, value);
    var t := TrimLeft(key) + "=" + value;
    assert t[|t| - 1] == if value == "" then '=' else value[|value| - 1];
  }

  lemma RawKeyIsShorter(key: string, value: string)
    ensures |RawKey(key + "=" + value)| <= |key|
    ensures |RawKey(key + "=" + value)| == |key| <==> '=' !in key
    ensures '=' !in key ==> RawKey(key + "=" + value) == key
  {
    var s := key + "=" + value;
    var i := IndexOf(s, '=');
    assert s[|key|] == '=';
    assert forall j :: 0 <= j < i ==> s[j] in s[..i];
    if i < |key| { assert key[i] == '='; }
    if '=' in key {
      var j :| 0 <= j < |key| && key[j] == '=';
      assert s[j] == '=';
    }
    assert i == |key| ==> s[..i] == key;
  }

  lemma OnePiece(key: string, value: string)
    requires '&' !in key && '&' !in value && (value != "" ==> !IsSpaceOrTab(value[|value| - 1]))
    ensures Pieces(key + "=" + value, '&') == [TrimLeft(key) + "=" + value]
  {
    hide Trimmed, TrimLeft;
    var s := key + "=" + value;
    TrimmedPair(key, value);
    assert Cut(s, '&') == [s];
    assert [s][1..] == [] && Kept([]) == [];
  }

  lemma FirstPieceIsShort(s: string)
    ensures forall piece :: piece in Kept([s]) ==> |RawKey(piece)| <= |s|
  {
    hide TrimLeft, TrimRight;
    TrimmedIsShorter(s);
    TrimRightIsShorter(TrimLeft(s));
    assert [s][1..] == [];
  }

  method PrintThenParse(params: Params) returns (back: Params)
    requires AllBytes(params) && KeysOk(params) && Sorted(params)
    ensures back == Uniques(params) && Sorted(back)
    ensures back == params <==> Distinct(params)
  {
    var query := ParamsToQueryStr(params);
    back := ParseQueryText(query, []);
    RoundTrip(params);
  }
}
