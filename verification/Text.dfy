/** Substring search and list flattening shared by the parsers. */
module Text {

  /** The pattern occurs in the text at position `i`. */
  predicate OccursAt(s: string, i: nat, pat: string) {
    i + |pat| <= |s| && s[i..i + |pat|] == pat
  }

  /** The first occurrence at or after `i`, or the length of the text when there is none. */
  function FindFrom(s: string, pat: string, i: nat): (r: nat)
    requires i <= |s| && 0 < |pat|
    ensures i <= r <= |s|
    ensures r < |s| ==> OccursAt(s, r, pat)
    ensures forall j :: i <= j < r ==> !OccursAt(s, j, pat)
    decreases |s| - i
  {
    if i == |s| || OccursAt(s, i, pat) then i else FindFrom(s, pat, i + 1)
  }

  function Find(s: string, pat: string): (r: nat)
    requires 0 < |pat|
    ensures r <= |s|
    ensures r < |s| ==> OccursAt(s, r, pat)
    ensures forall j :: 0 <= j < r ==> !OccursAt(s, j, pat)
  {
    FindFrom(s, pat, 0)
  }

  /** The first occurrence is determined by occurring there and nowhere before. */
  lemma FindIs(s: string, pat: string, i: nat)
    requires 0 < |pat| && i <= |s|
    requires i < |s| ==> OccursAt(s, i, pat)
    requires forall j :: 0 <= j < i ==> !OccursAt(s, j, pat)
    ensures Find(s, pat) == i
  {
    var r := Find(s, pat);
    assert !(r < i) by { assert r < |s| ==> OccursAt(s, r, pat); }
  }

  lemma OccursInside(s: string, j: nat, pat: string)
    ensures OccursAt(s, j, pat) ==> j + |pat| <= |s|
  {
  }

  /** Whether the pattern occurs is not changed by text in front of the place. */
  lemma OccursBehind(head: string, tail: string, j: nat, pat: string)
    requires |head| <= j
    ensures OccursAt(head + tail, j, pat) <==> OccursAt(tail, j - |head|, pat)
  {
    if j + |pat| <= |head| + |tail| {
      assert (head + tail)[j..j + |pat|] == tail[j - |head|..j - |head| + |pat|];
    }
  }

  /** Nor by text that is appended behind it. */
  lemma OccursBefore(s: string, t: string, j: nat, pat: string)
    requires j + |pat| <= |s|
    ensures OccursAt(s + t, j, pat) <==> OccursAt(s, j, pat)
  {
    assert (s + t)[j..j + |pat|] == s[j..j + |pat|];
  }

  /** An occurrence found stays the first one when text is appended. */
  lemma FindExtend(s: string, t: string, pat: string)
    requires 0 < |pat| && Find(s, pat) < |s|
    ensures Find(s + t, pat) == Find(s, pat)
  {
    var r := Find(s, pat);
    forall j: nat | j <= r ensures OccursAt(s + t, j, pat) <==> OccursAt(s, j, pat) {
      OccursBefore(s, t, j, pat);
    }
    FindIs(s + t, pat, r);
  }

  /** Where nothing was found, only the last |pat| characters matter to a later search. */
  lemma FindFromTail(s: string, t: string, pat: string)
    requires 0 < |pat| <= |s| && Find(s, pat) == |s|
    ensures var keep := |s| - |pat|;
            Find(s + t, pat) == keep + Find(s[keep..] + t, pat)
  {
    hide OccursAt;
    var keep := |s| - |pat|;
    var tail := s[keep..] + t;
    assert s + t == s[..keep] + tail;
    var r := Find(tail, pat);
    forall j: nat | keep <= j ensures OccursAt(s + t, j, pat) <==> OccursAt(tail, j - keep, pat) {
      OccursBehind(s[..keep], tail, j, pat);
    }
    forall j | 0 <= j < keep + r ensures !OccursAt(s + t, j, pat) {
      if j < keep {
        OccursBefore(s, t, j, pat);
      }
    }
    FindIs(s + t, pat, keep + r);
  }

  /** A text that does not hold the pattern, followed by the pattern: found at the seam, when the
      pattern's first character does not come back inside the pattern (so it cannot overlap itself). */
  lemma FindAtSeam(s: string, pat: string, rest: string)
    requires 0 < |pat| && Find(s, pat) == |s|
    requires forall k :: 0 < k < |pat| ==> pat[k] != pat[0]
    ensures Find(s + pat + rest, pat) == |s|
  {
    var w := s + pat + rest;
    assert w[|s|..|s| + |pat|] == pat;
    forall j | 0 <= j < |s| ensures !OccursAt(w, j, pat) {
      if j + |pat| <= |s| {
        assert !OccursAt(s, j, pat);
        assert w[j..j + |pat|] == s[j..j + |pat|];
      } else {
        assert w[j..j + |pat|][|s| - j] == pat[0];
      }
    }
    FindIs(w, pat, |s|);
  }

  /** The same when the pattern's last character does not come before in the pattern. */
  lemma FindAtSeamByLast(s: string, pat: string, rest: string)
    requires 0 < |pat| && Find(s, pat) == |s|
    requires forall k :: 0 <= k < |pat| - 1 ==> pat[k] != pat[|pat| - 1]
    ensures Find(s + pat + rest, pat) == |s|
  {
    var w, n := s + pat + rest, |pat|;
    assert w[|s|..|s| + n] == pat;
    forall j | 0 <= j < |s| ensures !OccursAt(w, j, pat) {
      if j + n <= |s| {
        assert !OccursAt(s, j, pat);
        assert w[j..j + n] == s[j..j + n];
      } else {
        assert w[j..j + n][n - 1] == pat[j + n - 1 - |s|];
      }
    }
    FindIs(w, pat, |s|);
  }

  lemma SliceOfSlice(s: string, a: nat, b: nat, i: nat, j: nat)
    requires a + j <= b <= |s| && i <= j
    ensures s[a..b][i..j] == s[a + i..a + j]
  {
    assert forall k :: 0 <= k < j - i ==> s[a..b][i..j][k] == s[a + i..a + j][k];
  }

  /** Two splittings of one text. */
  lemma SplitTwice(a: string, b: string, c: string, d: string)
    requires a + b == c + d && |a| <= |c|
    ensures c == a + c[|a|..] && b == c[|a|..] + d
  {
    var w := a + b;
    assert a == w[..|a|] && c == w[..|c|] && b == w[|a|..] && d == w[|c|..];
  }

  function Flatten(chunks: seq<string>): string {
    if chunks == [] then [] else chunks[0] + Flatten(chunks[1..])
  }

  lemma FlattenFirst(c: string, rest: seq<string>)
    ensures Flatten([c] + rest) == c + Flatten(rest)
  {
    assert ([c] + rest)[1..] == rest;
  }
}
