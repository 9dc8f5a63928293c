/** Which query parameters come back at all: the exact condition on lists of any length. */
module QueryExactness {
  import opened Splitting
  import opened UrlCoding
  import opened Query

  /** The length of all keys together. */
  function KeysLength(params: Params): nat {
    if params == [] then 0 else KeysLength(params[..|params| - 1]) + |params[|params| - 1].key|
  }

  /** The length of all the keys that are read from the pieces. */
  function ReadLength(pieces: seq<string>): nat {
    if pieces == [] then 0
    else ReadLength(pieces[..|pieces| - 1]) + |Decode(RawKey(pieces[|pieces| - 1]), true)|
  }

  lemma {:induction false} KeysLengthOf(a: Params, b: Params)
    ensures KeysLength(a + b) == KeysLength(a) + KeysLength(b)
    decreases |b|
  {
    if b == [] {
      assert a + b == a;
    } else {
      var n := |b| - 1;
      assert (a + b)[..|a + b| - 1] == a + b[..n];
      KeysLengthOf(a, b[..n]);
    }
  }

  lemma {:induction false} ReadLengthOf(a: seq<string>, b: seq<string>)
    ensures ReadLength(a + b) == ReadLength(a) + ReadLength(b)
    decreases |b|
  {
    hide RawKey, Decode;
    if b == [] {
      assert a + b == a;
    } else {
      var n := |b| - 1;
      assert (a + b)[..|a + b| - 1] == a + b[..n];
      ReadLengthOf(a, b[..n]);
    }
  }

  lemma EmplacedLength(params: Params, p: Param)
    ensures KeysLength(Emplace(params, p)) == KeysLength(params) + |p.key| && |Emplace(params, p)| == |params| + 1
  {
    hide UpperBound;
    var i := UpperBound(params, p.key);
    assert params == params[..i] + params[i..];
    KeysLengthOf(params[..i], params[i..]);
    KeysLengthOf(params[..i], [p]);
    KeysLengthOf(params[..i] + [p], params[i..]);
    assert [p][..0] == [] && KeysLength([p]) == KeysLength([p][..0]) + |p.key|;
  }

  /** Every piece is parsed to a parameter of its own only when it is no repetition and has a key. */
  ghost predicate AllTaken(pieces: seq<string>) {
    && (forall i, j :: 0 <= i < j < |pieces| ==> pieces[i] != pieces[j])
    && (forall i :: 0 <= i < |pieces| ==> RawKey(pieces[i]) != "")
  }

  /** Parsing gives no more parameters than there are pieces, and no more key characters than are read. */
  lemma {:induction false} ParsedIsBounded(pieces: seq<string>)
    ensures var params := ParsedPieces([], pieces);
            && |params| <= |pieces| && (|params| == |pieces| ==> AllTaken(pieces))
            && KeysLength(params) <= ReadLength(pieces)
  {
    hide RawKey, RawValue, Decode, Emplace;
    if pieces != [] {
      var n := |pieces| - 1;
      ParsedIsBounded(pieces[..n]);
      EmplacedLength(ParsedPieces([], pieces[..n]), ParsedParam(pieces[n]));
      if |ParsedPieces([], pieces)| == |pieces| {
        assert pieces[n] !in pieces[..n] && RawKey(pieces[n]) != "";
        forall i | 0 <= i < n ensures pieces[i] == pieces[..n][i] && pieces[i] != pieces[n] {
          assert pieces[..n][i] in pieces[..n];
        }
      }
    }
  }

  // ---------------------------------------------------------------------------------------------
  // What is read of a printed pair
  // ---------------------------------------------------------------------------------------------

  /** All of the key is read. */
  predicate Clean(key: string) {
    && '&' !in key && '=' !in key && (key == "" || !IsSpaceOrTab(key[0]))
    && |Decode(key, true)| == |key|
  }

  predicate Plain(value: string) {
    '&' !in value && (value != "" ==> !IsSpaceOrTab(value[|value| - 1]))
  }

  lemma KeptReads(s: string)
    ensures ReadLength(Kept([s])) <= |s|
  {
    hide Trimmed, RawKey;
    assert [s][1..] == [] && Kept([]) == [];
    FirstPieceIsShort(s);
    var t := Trimmed(s);
    if t != "" {
      assert Kept([s]) == [t] && t in Kept([s]);
      OneReads(t);
      DecodeChangesNothing(RawKey(t));
    }
  }

  lemma OneReads(t: string)
    ensures ReadLength([t]) == |Decode(RawKey(t), true)|
  {
    hide RawKey, Decode;
    assert [t][..0] == [] && ReadLength([]) == 0;
  }

  /** No more is read than the key has characters, and less when the key is not clean. */
  lemma {:induction false} PairReads(key: string, value: string)
    requires Plain(value)
    ensures var read := ReadLength(Pieces(key + "=" + value, '&')); read <= |key| && (read == |key| ==> Clean(key))
    decreases |key|
  {
    hide Trimmed, TrimLeft, RawKey, Decode, Cut, Kept;
    if '&' !in key {
      OnePieceReads(key, value);
    } else {
      var i := IndexOf(key, '&');
      var first, rest := key[..i], key[i + 1..];
      SplitAtAmpersand(first, rest, value);
      assert key == first + ['&'] + rest;
      ReadLengthOf(Kept([first]), Pieces(rest + "=" + value, '&'));
      KeptReads(first);
      PairReads(rest, value);
    }
  }

  lemma SplitAtAmpersand(first: string, rest: string, value: string)
    requires '&' !in first
    ensures Pieces(first + ['&'] + rest + "=" + value, '&') == Kept([first]) + Pieces(rest + "=" + value, '&')
  {
    hide Kept, Cut;
    assert first + ['&'] + rest + "=" + value == first + ['&'] + (rest + "=" + value);
    CutFirst(first, '&', rest + "=" + value);
    KeptFirst(first, Cut(rest + "=" + value, '&'));
  }

  lemma OnePieceReads(key: string, value: string)
    requires Plain(value) && '&' !in key
    ensures var read := ReadLength(Pieces(key + "=" + value, '&')); read <= |key| && (read == |key| ==> Clean(key))
  {
    hide Pieces, TrimLeft, RawKey, Decode;
    OnePiece(key, value);
    var t := TrimLeft(key) + "=" + value;
    OneReads(t);
    DecodeChangesNothing(RawKey(t));
    RawKeyIsShorter(TrimLeft(key), value);
    TrimmedIsShorter(key);
  }

  // ---------------------------------------------------------------------------------------------
  // What is read of a printed list
  // ---------------------------------------------------------------------------------------------

  lemma PiecesJoined(s: string, t: string)
    ensures Pieces(s + ("&" + t), '&') == Pieces(s, '&') + Pieces(t, '&')
  {
    hide Cut, Kept;
    assert s + ("&" + t) == s + ['&'] + t;
    CutJoined(s, '&', t);
    KeptJoined(Cut(s, '&'), Cut(t, '&'));
  }

  lemma PrintedReads(p: Param)
    requires IsBytes(p.value)
    ensures var read := ReadLength(Pieces(Printed(p), '&')); read <= |p.key| && (read == |p.key| ==> Clean(p.key))
  {
    hide Pieces, Clean, ReadLength, Encode;
    EncodedSplitsNowhere(p.value);
    PairReads(p.key, Encode(p.value));
  }

  ghost predicate AllClean(params: Params) {
    forall i :: 0 <= i < |params| ==> Clean(params[i].key)
  }

  lemma {:induction false} ListReads(params: Params)
    requires AllBytes(params)
    ensures var read := ReadLength(Pieces(QueryText(params), '&'));
            read <= KeysLength(params) && (read == KeysLength(params) ==> AllClean(params))
  {
    hide Pieces, Clean, Printed, ReadLength;
    if params == [] {
      NoPieces();
      assert ReadLength([]) == 0 by { NothingReads(); }
    } else {
      var n := |params| - 1;
      PrintedReads(params[n]);
      if n == 0 {
        assert params[..0] == [];
      } else {
        ListReads(params[..n]);
        PiecesJoined(QueryText(params[..n]), Printed(params[n]));
        ReadLengthOf(Pieces(QueryText(params[..n]), '&'), Pieces(Printed(params[n]), '&'));
        assert AllClean(params[..n]) && Clean(params[n].key) ==> AllClean(params) by { CleanLast(params); }
      }
    }
  }

  lemma NothingReads()
    ensures ReadLength([]) == 0
  {
  }

  lemma CleanLast(params: Params)
    requires params != []
    ensures AllClean(params[..|params| - 1]) && Clean(params[|params| - 1].key) ==> AllClean(params)
  {
    hide Clean;
    assert forall i :: 0 <= i < |params| - 1 ==> params[..|params| - 1][i] == params[i];
  }

  /** With clean keys every pair is one piece. */
  lemma {:induction false} CleanPieces(params: Params)
    requires AllBytes(params) && AllClean(params)
    ensures Pieces(QueryText(params), '&') == AllPrinted(params)
  {
    hide Pieces, Printed, Decode;
    if params == [] {
      NoPieces();
    } else {
      var n := |params| - 1;
      CleanPiece(params[n]);
      assert AllPrinted(params) == AllPrinted(params[..n]) + [Printed(params[n])];
      if n == 0 {
        assert params[..0] == [];
      } else {
        CleanPieces(params[..n]);
        PiecesJoined(QueryText(params[..n]), Printed(params[n]));
      }
    }
  }

  lemma CleanPiece(p: Param)
    requires IsBytes(p.value) && Clean(p.key)
    ensures Pieces(Printed(p), '&') == [Printed(p)] && RawKey(Printed(p)) == p.key
  {
    hide Pieces, TrimLeft, RawKey, Decode, Encode;
    EncodedSplitsNowhere(p.value);
    OnePiece(p.key, Encode(p.value));
    TrimmedIsShorter(p.key);
    RawKeyIsShorter(p.key, Encode(p.value));
  }

  // ---------------------------------------------------------------------------------------------
  // Plus signs
  // ---------------------------------------------------------------------------------------------

  /** Without an escape every plus sign becomes a space, and nothing else changes. */
  lemma {:induction false} SameLength(s: string)
    requires |Decode(s, true)| == |s|
    ensures '+' !in Decode(s, true)
    ensures '+' !in s ==> Decode(s, true) == s
    decreases |s|
  {
    hide StartsEscape, Unescaped, EscapeLength;
    if s != "" {
      if StartsEscape(s) {
        EscapeShrinks(s);
        DecodeChangesNothing(s[EscapeLength(s)..]);
      } else {
        SameLength(s[1..]);
        assert s == [s[0]] + s[1..];
      }
    }
  }

  lemma {:induction false} NoPlusIsParsed(pieces: seq<string>)
    requires forall piece :: piece in pieces ==> '+' !in Decode(RawKey(piece), true)
    ensures forall p :: p in ParsedPieces([], pieces) ==> '+' !in p.key
  {
    hide RawKey, RawValue, Decode;
    if pieces != [] {
      NoPlusIsParsed(pieces[..|pieces| - 1]);
      assert pieces[|pieces| - 1] in pieces;
    }
  }

  // ---------------------------------------------------------------------------------------------
  // The exact condition
  // ---------------------------------------------------------------------------------------------

  /** A multimap comes back if and only if its keys are good and its pairs distinct. */
  lemma RoundTripExactly(params: Params)
    requires AllBytes(params) && Sorted(params)
    ensures ParsedQuery([], QueryText(params)) == params <==> KeysOk(params) && Distinct(params)
  {
    hide KeyOk, Sorted, ParsedPieces, Pieces, Distinct;
    if KeysOk(params) && Distinct(params) {
      RoundTrip(params);
    }
    if ParsedQuery([], QueryText(params)) == params {
      CameBack(params);
    }
  }

  /** In particular a single pair comes back if and only if its key is good. */
  lemma SinglePairExactly(p: Param)
    requires IsBytes(p.value)
    ensures ParsedQuery([], QueryText([p])) == [p] <==> KeyOk(p.key)
  {
    hide KeyOk, ParsedQuery, QueryText;
    RoundTripExactly([p]);
    assert [p][0].key == p.key;
  }

  lemma CameBack(params: Params)
    requires AllBytes(params) && ParsedQuery([], QueryText(params)) == params
    ensures KeysOk(params) && Distinct(params)
  {
    hide KeyOk, ParsedPieces, Pieces, Clean, Printed, RawKey, Decode, QueryText;
    var pieces := Pieces(QueryText(params), '&');
    ParsedIsBounded(pieces);
    ListReads(params);
    CleanPieces(params);
    forall i | 0 <= i < |params|
      ensures RawKey(pieces[i]) == params[i].key && params[i].key != "" && '+' !in Decode(params[i].key, true)
    {
      assert Clean(params[i].key);
      CleanPiece(params[i]);
      CleanHasNoPlus(params[i].key);
    }
    forall piece | piece in pieces ensures '+' !in Decode(RawKey(piece), true) {
      var i :| 0 <= i < |pieces| && pieces[i] == piece;
      assert RawKey(pieces[i]) == params[i].key;
    }
    NoPlusIsParsed(pieces);
    forall i | 0 <= i < |params| ensures KeyOk(params[i].key) {
      assert params[i] in params;
      CleanIsOk(params[i].key);
    }
    forall i, j | 0 <= i < j < |params| ensures params[i] != params[j] {
      assert pieces[i] != pieces[j];
    }
  }

  lemma CleanHasNoPlus(key: string)
    requires Clean(key)
    ensures '+' !in Decode(key, true)
  {
    SameLength(key);
  }

  lemma CleanIsOk(key: string)
    requires Clean(key) && key != "" && '+' !in key
    ensures KeyOk(key)
  {
    hide StartsEscape;
    SameLength(key);
    DecodeChangesNothing(key);
  }
}
