/** `PathParamsMatcher`: route patterns with `/:name` parameters. */
module PathMatcher {
  import opened Text
  import Splitting

  const MARKER := "/:"
  const SEPARATOR := '/'
  const NUL: char := 0 as char

  /** `std::string::find` of a separator: the length when there is none. */
  function Slash(s: string): (i: nat)
    ensures i <= |s|
  {
    Splitting.IndexOf(s, SEPARATOR)
  }

  /** Empty, or starting with a separator: what can follow a parameter. */
  predicate Follows(s: string) {
    s == "" || s[0] == SEPARATOR
  }

  /** What is up to the first separator, and what follows. */
  function Segment(s: string): string {
    s[..Slash(s)]
  }

  function Onward(s: string): (t: string)
    ensures |t| <= |s|
  {
    s[Slash(s)..]
  }

  lemma Segments(s: string)
    ensures s == Segment(s) + Onward(s) && SEPARATOR !in Segment(s) && Follows(Onward(s))
  {
  }

  // ---------------------------------------------------------------------------------------------
  // Patterns
  // ---------------------------------------------------------------------------------------------

  /** The first marker, or the length when there is none. */
  function Marker(r: string): (m: nat)
    ensures m < |r| ==> m + 2 <= |r|
    ensures m <= |r|
  {
    Find(r, MARKER)
  }

  predicate HasParameter(r: string) {
    Marker(r) < |r|
  }

  /** The pattern through the separator in front of its first parameter, the parameter's name, and what follows. */
  function Lead(r: string): (l: string)
    requires HasParameter(r)
    ensures 0 < |l| <= |r|
  {
    r[..Marker(r) + 1]
  }

  function Name(r: string): string
    requires HasParameter(r)
  {
    Segment(r[Marker(r) + 2..])
  }

  function After(r: string): (t: string)
    requires HasParameter(r)
    ensures |t| < |r|
  {
    Onward(r[Marker(r) + 2..])
  }

  function Names(r: string): seq<string>
    decreases |r|
  {
    if !HasParameter(r) then [] else [Name(r)] + Names(After(r))
  }

  /** What follows the last parameter. */
  function Tail(r: string): string
    decreases |r|
  {
    if !HasParameter(r) then r else Tail(After(r))
  }

  /** The pattern with its parameters replaced by values and what follows the last one by `end`. */
  function Filled(r: string, values: seq<string>, end: string): string
    requires |values| == |Names(r)|
    decreases |r|
  {
    if !HasParameter(r) then end else Lead(r) + (values[0] + Filled(After(r), values[1..], end))
  }

  function Instantiate(pattern: string, values: seq<string>): string
    requires |values| == |Names(pattern)|
  {
    Filled(pattern, values, Tail(pattern))
  }

  predicate EmptyOrSlash(s: string) {
    s == "" || s == "/"
  }

  /** The path is the pattern with these values, up to one slash after a final parameter. */
  predicate Instance(pattern: string, values: seq<string>, path: string) {
    && |values| == |Names(pattern)|
    && (|| path == Instantiate(pattern, values)
        || (&& Names(pattern) != [] && EmptyOrSlash(Tail(pattern))
            && (path == Filled(pattern, values, "") || path == Filled(pattern, values, "/"))))
  }

  predicate SlashFree(values: seq<string>) {
    forall i :: 0 <= i < |values| ==> SEPARATOR !in values[i]
  }

  // ---------------------------------------------------------------------------------------------
  // The constructor
  // ---------------------------------------------------------------------------------------------

  /** The static fragments of the rest of a pattern. Past the first parameter the rest starts at the separator, which is
      skipped. */
  function Fragments(r: string, skip: nat): seq<string>
    requires skip <= 1
    decreases |r|
  {
    if !HasParameter(r) then (if |r| > skip then [r[skip..]] else [])
    else [Lead(r)[skip..]] + Fragments(After(r), 1)
  }

  predicate Distinct(names: seq<string>) {
    forall i, j :: 0 <= i < j < |names| ==> names[i] != names[j]
  }

  /** A matcher, or the name that the exception reports. */
  datatype Matcher =
    | Matcher(fragments: seq<string>, names: seq<string>)
    | Duplicate(name: string)

  /** The first name that came before. */
  predicate FirstRepeated(names: seq<string>, name: string) {
    exists k :: 0 <= k < |names| && names[k] == name && name in names[..k] && Distinct(names[..k])
  }

  method Build(pattern: string) returns (matcher: Matcher)
    ensures matcher.Matcher? <==> Distinct(Names(pattern))
    ensures matcher.Matcher? ==> matcher.names == Names(pattern) && matcher.fragments == Fragments(pattern, 0)
    ensures matcher.Duplicate? ==> FirstRepeated(Names(pattern), matcher.name)
  {
    hide Marker, Names, Fragments, Distinct, FirstRepeated, Slash, Joined, Name, Lead, After;
    var fragments: seq<string>, names: seq<string> := [], [];
    var nameSet: set<string> := {};
    var lastParamEnd := 0;
    var going := true;
    NoneDistinct();
    JoinedStart(Names(pattern));
    JoinedStart(Fragments(pattern, 0));
    while going
      invariant lastParamEnd <= |pattern| + 1
      invariant Joined(names, Names(Rest(pattern, lastParamEnd)), Names(pattern))
      invariant Joined(fragments, Fragments(Rest(pattern, lastParamEnd), Skip(lastParamEnd)), Fragments(pattern, 0))
      invariant forall name :: name in nameSet <==> name in names
      invariant Distinct(names)
      invariant !going ==> Marker(Rest(pattern, lastParamEnd)) == |Rest(pattern, lastParamEnd)|
      decreases going, |pattern| + 1 - lastParamEnd
    {
      var from := if lastParamEnd == 0 then lastParamEnd else lastParamEnd - 1;
      assert Rest(pattern, lastParamEnd) == pattern[from..];
      var markerPos := from + Marker(pattern[from..]);
      if markerPos == |pattern| {
        going := false;
      } else {
        var nameStart := markerPos + 2;
        var sepPos := nameStart + Slash(pattern[nameStart..]);
        ParameterFound(pattern, from, Skip(lastParamEnd), markerPos, sepPos);
        var fragment := pattern[lastParamEnd..markerPos + 1];
        JoinedNext(fragments, fragment, Fragments(pattern[sepPos..], 1), Fragments(pattern, 0));
        fragments := fragments + [fragment];
        var name := pattern[nameStart..sepPos];
        JoinedNext(names, name, Names(pattern[sepPos..]), Names(pattern));
        JoinedEnd(names + [name], Names(pattern[sepPos..]), Names(pattern));
        AddName(names, name, Names(pattern[sepPos..]));
        if name in nameSet {
          return Duplicate(name);
        }
        nameSet := nameSet + {name};
        names := names + [name];
        lastParamEnd := sepPos + 1;
      }
    }
    LastFragment(pattern, lastParamEnd);
    JoinedEnd(names, [], Names(pattern));
    JoinedEnd(fragments, Fragments(Rest(pattern, lastParamEnd), Skip(lastParamEnd)), Fragments(pattern, 0));
    if lastParamEnd < |pattern| {
      fragments := fragments + [pattern[lastParamEnd..]];
    }
    return Matcher(fragments, names);
  }

  lemma NoneDistinct()
    ensures Distinct([])
  {
  }

  /** The next name: it may be added, or it is the one to report. */
  lemma AddName(names: seq<string>, name: string, more: seq<string>)
    requires Distinct(names)
    ensures name !in names ==> Distinct(names + [name])
    ensures name in names ==> FirstRepeated(names + [name] + more, name) && !Distinct(names + [name] + more)
  {
    assert forall i :: 0 <= i < |names| ==> names[i] in names;
    var all := names + [name] + more;
    assert all[..|names|] == names && all[|names|] == name;
    if name in names {
      var i :| 0 <= i < |names| && names[i] == name;
      assert all[i] == all[|names|];
    }
  }

  /** What the constructor has still to read, and how much of it is the separator after a parameter. */
  function Rest(pattern: string, lastParamEnd: nat): string
    requires lastParamEnd <= |pattern| + 1
  {
    pattern[if lastParamEnd == 0 then 0 else lastParamEnd - 1..]
  }

  function Skip(lastParamEnd: nat): nat {
    if lastParamEnd == 0 then 0 else 1
  }

  /** The first parameter of the rest, by its places in the whole pattern. */
  lemma ParameterFound(pattern: string, from: nat, skip: nat, markerPos: nat, sepPos: nat)
    requires from <= markerPos <= |pattern| - 2 && skip <= 1
    requires markerPos == from + Marker(pattern[from..])
    requires sepPos == markerPos + 2 + Slash(pattern[markerPos + 2..])
    ensures Names(pattern[from..]) == [pattern[markerPos + 2..sepPos]] + Names(pattern[sepPos..])
    ensures Fragments(pattern[from..], skip) == [pattern[from + skip..markerPos + 1]] + Fragments(pattern[sepPos..], 1)
  {
    hide Marker, Slash, Names, Fragments, Name, Lead, After;
    var r := pattern[from..];
    assert HasParameter(r);
    PartsLocated(pattern, from, skip, markerPos, sepPos);
    assert Names(r) == [Name(r)] + Names(After(r)) by { FirstParameter(r, skip); }
    assert Fragments(r, skip) == [Lead(r)[skip..]] + Fragments(After(r), 1) by { FirstParameter(r, skip); }
  }

  lemma FirstParameter(r: string, skip: nat)
    requires HasParameter(r) && skip <= 1
    ensures Names(r) == [Name(r)] + Names(After(r))
    ensures Fragments(r, skip) == [Lead(r)[skip..]] + Fragments(After(r), 1)
  {
    hide HasParameter, Name, After, Lead;
  }

  lemma PartsLocated(pattern: string, from: nat, skip: nat, markerPos: nat, sepPos: nat)
    requires from <= markerPos <= |pattern| - 2 && skip <= 1
    requires markerPos == from + Marker(pattern[from..])
    requires sepPos == markerPos + 2 + Slash(pattern[markerPos + 2..])
    ensures var r := pattern[from..];
            && HasParameter(r)
            && Name(r) == pattern[markerPos + 2..sepPos]
            && After(r) == pattern[sepPos..]
            && Lead(r)[skip..] == pattern[from + skip..markerPos + 1]
  {
    hide Marker, Slash;
    var r := pattern[from..];
    var m := markerPos - from;
    var u := r[m + 2..];
    assert u == pattern[markerPos + 2..];
    assert u[..Slash(u)] == pattern[markerPos + 2..sepPos];
    assert u[Slash(u)..] == pattern[sepPos..];
    SlicePlaced(pattern, from, skip, m + 1);
  }

  lemma SlicePlaced(s: string, from: nat, i: nat, j: nat)
    requires from + j <= |s| && i <= j
    ensures s[from..][..j][i..] == s[from + i..from + j]
  {
    assert |s[from..][..j][i..]| == |s[from + i..from + j]|;
    assert forall k :: 0 <= k < j - i ==> s[from..][..j][i..][k] == s[from + i + k];
  }

  /** What has been read and what is left make up the whole. */
  predicate Joined(done: seq<string>, left: seq<string>, all: seq<string>) {
    done + left == all
  }

  lemma JoinedNext(done: seq<string>, next: string, left: seq<string>, all: seq<string>)
    requires Joined(done, [next] + left, all)
    ensures Joined(done + [next], left, all)
  {
  }

  lemma JoinedStart(all: seq<string>)
    ensures Joined([], all, all)
  {
  }

  lemma JoinedEnd(done: seq<string>, left: seq<string>, all: seq<string>)
    requires Joined(done, left, all)
    ensures all == done + left
    ensures left == [] ==> done == all
  {
  }

  lemma LastFragment(pattern: string, lastParamEnd: nat)
    requires lastParamEnd <= |pattern| + 1
    requires !HasParameter(Rest(pattern, lastParamEnd))
    ensures Names(Rest(pattern, lastParamEnd)) == []
    ensures Fragments(Rest(pattern, lastParamEnd), Skip(lastParamEnd))
            == if lastParamEnd < |pattern| then [pattern[lastParamEnd..]] else []
  {
    var r := Rest(pattern, lastParamEnd);
    if lastParamEnd < |pattern| { assert r[Skip(lastParamEnd)..] == pattern[lastParamEnd..]; }
  }

  // ---------------------------------------------------------------------------------------------
  // match
  // ---------------------------------------------------------------------------------------------

  /** `strncmp` on texts of the compared length: nothing is looked at after a common NUL. */
  predicate SameN(a: string, b: string)
    requires |a| == |b|
  {
    a == "" || (a[0] == b[0] && (a[0] == NUL || SameN(a[1..], b[1..])))
  }

  datatype Outcome = Outcome(ok: bool, values: seq<string>)

  /** The loop of `match`, from the text `t` on, whose first `skip` characters are past: the separator after a
      parameter, which need not be there. `open` parameters are left. */
  function Run(fragments: seq<string>, open: nat, t: string, skip: nat): Outcome
    decreases |fragments|
  {
    if fragments == [] then Outcome(skip >= |t|, [])
    else
      var p := skip + |fragments[0]|;
      if p > |t| || !SameN(t[skip..p], fragments[0]) then Outcome(false, [])
      else if open == 0 then Run(fragments[1..], 0, t[p..], 0)
      else
        var rest := Run(fragments[1..], open - 1, Onward(t[p..]), 1);
        Outcome(rest.ok, [Segment(t[p..])] + rest.values)
  }

  lemma {:induction false} RunCaptures(fragments: seq<string>, open: nat, t: string, skip: nat)
    ensures |Run(fragments, open, t, skip).values| <= open
    ensures SlashFree(Run(fragments, open, t, skip).values)
    decreases |fragments|
  {
    hide Segment, Onward, SameN, SlashFree;
    NoneSlashFree();
    if fragments != [] {
      var p := skip + |fragments[0]|;
      if p <= |t| && SameN(t[skip..p], fragments[0]) {
        if open == 0 {
          RunCaptures(fragments[1..], 0, t[p..], 0);
        } else {
          var u := t[p..];
          Segments(u);
          RunCaptures(fragments[1..], open - 1, Onward(u), 1);
          OneMoreFree(Segment(u), Run(fragments[1..], open - 1, Onward(u), 1).values);
        }
      }
    }
  }

  lemma NoneSlashFree()
    ensures SlashFree([])
  {
  }

  lemma OneMoreFree(value: string, values: seq<string>)
    requires SEPARATOR !in value && SlashFree(values)
    ensures SlashFree([value] + values)
  {
  }

  /** The parameters by name; a name that is there already keeps its value. */
  function Bound(names: seq<string>, values: seq<string>): map<string, string>
    requires |values| <= |names|
  {
    if values == [] then map[]
    else
      var n := |values| - 1;
      Emplaced(Bound(names, values[..n]), names[n], values[n])
  }

  function Emplaced(params: map<string, string>, name: string, value: string): map<string, string> {
    if name in params then params else params[name := value]
  }

  class Request {
    var path: string
    var pathParams: map<string, string>
  }

  method Match(matcher: Matcher, request: Request) returns (ok: bool)
    requires matcher.Matcher?
    modifies request`pathParams
    ensures var run := Run(matcher.fragments, |matcher.names|, request.path, 0);
            && ok == run.ok
            && |run.values| <= |matcher.names|
            && request.pathParams == Bound(matcher.names, run.values)
  {
    hide Slash, SameN, Bound, Run, Emplaced, Segment, Onward;
    var fragments, names, path := matcher.fragments, matcher.names, request.path;
    ghost var run := Run(fragments, |names|, path, 0);
    ghost var values: seq<string>, base: nat, skip: nat := [], 0, 0;
    RunCaptures(fragments, |names|, path, 0);
    NothingBound(names);
    request.pathParams := map[];
    var startingPos := 0;
    var i := 0;
    assert fragments[0..] == fragments && path[0..] == path;
    while i < |fragments|
      invariant i <= |fragments| && base <= |path| && startingPos == base + skip && skip <= 1
      invariant |values| == (if i < |names| then i else |names|)
      invariant request.pathParams == Bound(names, values)
      invariant Tied(run, values, Run(fragments[i..], |names| - |values|, path[base..], skip))
    {
      var fragment := fragments[i];
      RunNext(fragments, i, |names| - |values|, path, base, skip);
      assert values + [] == values;
      if startingPos + |fragment| > |path| {
        return false;
      }
      if !SameN(path[startingPos..startingPos + |fragment|], fragment) {
        return false;
      }
      startingPos := startingPos + |fragment|;
      if i >= |names| {
        base, skip := startingPos, 0;
        i := i + 1;
        continue;
      }
      var sepPos := startingPos + Slash(path[startingPos..]);
      var value := path[startingPos..sepPos];
      ValueLocated(path, startingPos, sepPos);
      BoundNext(names, values, value);
      request.pathParams := Emplaced(request.pathParams, names[i], value);
      TiedNext(run, values, value, Run(fragments[i + 1..], |names| - |values| - 1, path[sepPos..], 1));
      values, base, skip := values + [value], sepPos, 1;
      startingPos := sepPos + 1;
      i := i + 1;
    }
    RunNone(fragments[i..], |names| - |values|, path[base..], skip);
    assert values + [] == values;
    return startingPos >= |path|;
  }

  lemma RunNone(fragments: seq<string>, open: nat, t: string, skip: nat)
    requires fragments == []
    ensures Run(fragments, open, t, skip) == Outcome(skip >= |t|, [])
  {
  }

  /** The values captured so far and those of the rest of the run. */
  ghost predicate Tied(run: Outcome, values: seq<string>, rest: Outcome) {
    run.ok == rest.ok && run.values == values + rest.values
  }

  lemma TiedNext(run: Outcome, values: seq<string>, value: string, rest: Outcome)
    requires Tied(run, values, Outcome(rest.ok, [value] + rest.values))
    ensures Tied(run, values + [value], rest)
  {
  }

  lemma RunNext(fragments: seq<string>, i: nat, open: nat, path: string, base: nat, skip: nat)
    requires i < |fragments| && base <= |path|
    ensures var run := Run(fragments[i..], open, path[base..], skip);
            var p := base + skip + |fragments[i]|;
            if p > |path| || !SameN(path[base + skip..p], fragments[i]) then run == Outcome(false, [])
            else if open == 0 then run == Run(fragments[i + 1..], 0, path[p..], 0)
            else
              var rest := Run(fragments[i + 1..], open - 1, Onward(path[p..]), 1);
              run == Outcome(rest.ok, [Segment(path[p..])] + rest.values)
  {
    hide Segment, Onward, SameN;
    var t := path[base..];
    var q := skip + |fragments[i]|;
    assert fragments[i..][1..] == fragments[i + 1..];
    if q <= |t| {
      assert t[skip..q] == path[base + skip..base + q];
      assert t[q..] == path[base + q..];
    }
  }

  lemma ValueLocated(path: string, start: nat, sepPos: nat)
    requires start <= |path| && sepPos == start + Slash(path[start..])
    ensures Segment(path[start..]) == path[start..sepPos] && Onward(path[start..]) == path[sepPos..]
  {
    hide Slash;
  }

  lemma NothingBound(names: seq<string>)
    ensures Bound(names, []) == map[]
  {
  }

  lemma BoundNext(names: seq<string>, values: seq<string>, value: string)
    requires |values| < |names|
    ensures Bound(names, values + [value]) == Emplaced(Bound(names, values), names[|values|], value)
  {
    assert (values + [value])[..|values|] == values;
  }

  // ---------------------------------------------------------------------------------------------
  // Properties
  // ---------------------------------------------------------------------------------------------

  /** With distinct names every captured value is found under its name. */
  lemma {:induction false} BoundGives(names: seq<string>, values: seq<string>)
    requires |values| <= |names| && Distinct(names)
    ensures forall i :: 0 <= i < |values| ==>
              names[i] in Bound(names, values) && Bound(names, values)[names[i]] == values[i]
    ensures forall name :: name in Bound(names, values) ==> name in names[..|values|]
    decreases |values|
  {
    if values != [] {
      var n := |values| - 1;
      BoundGives(names, values[..n]);
      assert names[..n + 1] == names[..n] + [names[n]];
      assert names[n] !in names[..n];
    }
  }

  /** Where a name comes more than once it has the value of its first parameter. */
  lemma {:induction false} BoundFirst(names: seq<string>, values: seq<string>, i: nat)
    requires i < |values| <= |names| && names[i] !in names[..i]
    ensures names[i] in Bound(names, values) && Bound(names, values)[names[i]] == values[i]
    decreases |values|
  {
    var n := |values| - 1;
    if i < n {
      BoundFirst(names, values[..n], i);
    } else {
      BoundNames(names, values[..n]);
    }
  }

  lemma {:induction false} BoundNames(names: seq<string>, values: seq<string>)
    requires |values| <= |names|
    ensures forall name :: name in Bound(names, values) ==> name in names[..|values|]
    decreases |values|
  {
    if values != [] {
      var n := |values| - 1;
      BoundNames(names, values[..n]);
      assert names[..n + 1] == names[..n] + [names[n]];
    }
  }

  /** No NUL but at the end. */
  predicate NulLast(s: string) {
    forall i :: 0 <= i < |s| - 1 ==> s[i] != NUL
  }

  predicate NulsLast(fragments: seq<string>) {
    forall i :: 0 <= i < |fragments| ==> NulLast(fragments[i])
  }

  lemma {:induction false} SameNIsEqual(a: string, b: string)
    requires |a| == |b|
    ensures a == b ==> SameN(a, b)
    ensures NulLast(b) && SameN(a, b) ==> a == b
    decreases |a|
  {
    if a != "" {
      SameNIsEqual(a[1..], b[1..]);
      assert a == [a[0]] + a[1..] && b == [b[0]] + b[1..];
    }
  }

  /** A value and what follows it are determined by the text. */
  lemma SplitAtSlash(u: string, value: string, rest: string)
    requires SEPARATOR !in value && Follows(rest)
    ensures u == value + rest <==> value == Segment(u) && rest == Onward(u)
  {
    Segments(u);
    var k := Slash(u);
    if u == value + rest {
      assert forall j :: 0 <= j < k ==> u[j] == Segment(u)[j] && Segment(u)[j] in Segment(u);
      assert forall j :: 0 <= j < |value| ==> u[j] == value[j] && value[j] in value;
      assert rest != "" ==> u[|value|] == rest[0];
      assert Onward(u) != "" ==> u[k] == Onward(u)[0];
      assert k == |value|;
    }
  }

  /** The texts a rest of the pattern stands for. */
  predicate InstanceFrom(r: string, skip: nat, values: seq<string>, t: string) {
    && |values| == |Names(r)|
    && (|| t == Filled(r, values, Tail(r))
        || (&& (skip == 1 || Names(r) != []) && EmptyOrSlash(Tail(r))
            && (t == Filled(r, values, "") || t == Filled(r, values, "/"))))
  }

  lemma FilledFollows(r: string, values: seq<string>, end: string)
    requires |values| == |Names(r)| && Follows(r)
    requires end == Tail(r) || EmptyOrSlash(end)
    ensures Follows(Filled(r, values, end))
  {
    hide Marker, HasParameter;
    if HasParameter(r) {
      assert Filled(r, values, end)[0] == Lead(r)[0] == r[0];
    }
  }

  lemma AfterFollows(r: string)
    requires HasParameter(r)
    ensures Follows(After(r))
  {
    Segments(r[Marker(r) + 2..]);
  }

  lemma NoParameter(r: string)
    requires !HasParameter(r)
    ensures Names(r) == [] && Tail(r) == r
  {
  }

  /** The text starts like the pattern up to its first parameter. */
  predicate StartsLike(r: string, t: string)
    requires HasParameter(r)
  {
    Lead(r) <= t
  }

  /** What follows that start. */
  function Later(r: string, t: string): string
    requires HasParameter(r) && StartsLike(r, t)
  {
    t[|Lead(r)|..]
  }

  /** A text that is the pattern filled in, seen from the first parameter. */
  lemma FilledStep(r: string, values: seq<string>, end: string, t: string)
    requires |values| == |Names(r)| && HasParameter(r)
    requires end == Tail(r) || EmptyOrSlash(end)
    requires SEPARATOR !in values[0]
    ensures t == Filled(r, values, end) <==>
            && StartsLike(r, t)
            && values[0] == Segment(Later(r, t))
            && Onward(Later(r, t)) == Filled(After(r), values[1..], end)
  {
    hide Segment, Onward, Lead, After, HasParameter, EmptyOrSlash, Follows;
    AfterFollows(r);
    FilledFollows(After(r), values[1..], end);
    var rest := Filled(After(r), values[1..], end);
    assert Filled(r, values, end) == Lead(r) + (values[0] + rest);
    if StartsLike(r, t) {
      SplitAtSlash(Later(r, t), values[0], rest);
      assert t == Lead(r) + Later(r, t);
    }
  }

  lemma InstanceStep(r: string, skip: nat, values: seq<string>, t: string)
    requires |values| == |Names(r)| && HasParameter(r) && SEPARATOR !in values[0]
    ensures InstanceFrom(r, skip, values, t) <==>
            && StartsLike(r, t)
            && values[0] == Segment(Later(r, t))
            && InstanceFrom(After(r), 1, values[1..], Onward(Later(r, t)))
  {
    FilledStep(r, values, Tail(r), t);
    FilledStep(r, values, "", t);
    FilledStep(r, values, "/", t);
    hide Filled, Segment, Onward, EmptyOrSlash, HasParameter, Lead, After;
  }

  /** One round of the loop on a fragment in front of a parameter. */
  lemma RunStep(r: string, skip: nat, t: string)
    requires skip <= 1 && HasParameter(r)
    requires skip == 1 ==> Follows(r) && Follows(t)
    ensures var run := Run(Fragments(r, skip), |Names(r)|, t, skip);
            && (run.ok && NulLast(Lead(r)[skip..]) ==> StartsLike(r, t))
            && (StartsLike(r, t) ==>
                  run == Captured(Later(r, t), Run(Fragments(After(r), 1), |Names(After(r))|, Onward(Later(r, t)), 1)))
  {
    hide SameN, Run, Fragments, Names, HasParameter, After, Segment, Onward, Captured;
    FirstParameter(r, skip);
    var lead := Lead(r);
    RunCons(lead[skip..], Fragments(After(r), 1), |Names(After(r))|, t, skip);
    if |lead| <= |t| {
      SameNIsEqual(t[skip..|lead|], lead[skip..]);
      LeadIsPrefix(r, t, skip);
    }
  }

  /** A value in front of the others. */
  function Captured(u: string, next: Outcome): Outcome {
    Outcome(next.ok, [Segment(u)] + next.values)
  }

  lemma RunCons(fragment: string, more: seq<string>, open: nat, t: string, skip: nat)
    ensures var run := Run([fragment] + more, 1 + open, t, skip);
            var p := skip + |fragment|;
            if p > |t| || !SameN(t[skip..p], fragment) then run == Outcome(false, [])
            else run == Captured(t[p..], Run(more, open, Onward(t[p..]), 1))
  {
    hide Segment, Onward, SameN;
    assert ([fragment] + more)[1..] == more;
  }

  lemma LeadIsPrefix(r: string, t: string, skip: nat)
    requires HasParameter(r) && skip <= 1 && |Lead(r)| <= |t|
    requires skip == 1 ==> Follows(r) && Follows(t)
    ensures t[skip..|Lead(r)|] == Lead(r)[skip..] <==> StartsLike(r, t)
  {
    hide Marker, HasParameter;
    SamePrefix(Lead(r), t, skip);
  }

  lemma SamePrefix(l: string, t: string, skip: nat)
    requires skip <= 1 && skip <= |l| <= |t|
    requires skip == 1 ==> t[0] == l[0]
    ensures t[skip..|l|] == l[skip..] <==> l <= t
  {
    var n := |l|;
    assert t[..n] == t[..skip] + t[skip..n] && l == l[..skip] + l[skip..];
    assert t[..n][skip..] == t[skip..n];
  }

  /** After the last parameter. */
  lemma RunEnd(r: string, skip: nat, t: string, values: seq<string>)
    requires skip <= 1 && !HasParameter(r)
    requires skip == 1 ==> Follows(r) && Follows(t)
    ensures Agrees(r, skip, t, values)
    ensures Run(Fragments(r, skip), |Names(r)|, t, skip).values == []
  {
    hide HasParameter;
    NoParameter(r);
    var fs := Fragments(r, skip);
    RunNone([], 0, t, skip);
    if |r| > skip {
      assert fs == [r[skip..]] && fs[1..] == [];
      if |r| <= |t| {
        SameNIsEqual(t[skip..|r|], r[skip..]);
        SamePrefix(r, t, skip);
        RunNone([], 0, t[|r|..], 0);
        assert r <= t && |t| == |r| ==> t == r;
      }
    }
  }

  /** The run succeeds with the values on the instances, and on nothing else when no fragment has a NUL before its
      end. */
  predicate Agrees(r: string, skip: nat, t: string, values: seq<string>)
    requires skip <= 1
  {
    var run := Run(Fragments(r, skip), |Names(r)|, t, skip);
    && (SlashFree(values) && InstanceFrom(r, skip, values, t) ==> run == Outcome(true, values))
    && (NulsLast(Fragments(r, skip)) && run == Outcome(true, values) ==>
          SlashFree(values) && InstanceFrom(r, skip, values, t))
  }

  /** The whole run, by recursion over the pattern. */
  lemma {:induction false} RunExactly(r: string, skip: nat, t: string, values: seq<string>)
    requires skip <= 1
    requires skip == 1 ==> Follows(r) && Follows(t)
    ensures Agrees(r, skip, t, values)
    decreases |r|
  {
    hide Agrees, HasParameter, StartsLike, Onward, Later, After;
    if !HasParameter(r) {
      RunEnd(r, skip, t, values);
    } else if values == [] {
      NoValues(r, skip, t);
    } else {
      AfterFollows(r);
      if StartsLike(r, t) {
        Segments(Later(r, t));
        RunExactly(After(r), 1, Onward(Later(r, t)), values[1..]);
      }
      RunFirst(r, skip, t, values);
    }
  }

  lemma NoValues(r: string, skip: nat, t: string)
    requires skip <= 1 && HasParameter(r)
    requires skip == 1 ==> Follows(r) && Follows(t)
    ensures Agrees(r, skip, t, [])
  {
    hide HasParameter, Run, Fragments, SlashFree, NulLast, InstanceFrom, StartsLike;
    FirstParameter(r, skip);
    FirstFragment(r, skip);
    WrongCount(r, skip, [], t);
    RunStep(r, skip, t);
  }

  /** The step of the recursion: the first parameter. */
  lemma RunFirst(r: string, skip: nat, t: string, values: seq<string>)
    requires skip <= 1 && HasParameter(r) && values != []
    requires skip == 1 ==> Follows(r) && Follows(t)
    requires StartsLike(r, t) ==> Agrees(After(r), 1, Onward(Later(r, t)), values[1..])
    ensures Agrees(r, skip, t, values)
  {
    hide Run, Fragments, InstanceFrom, Segment, Onward, Marker, HasParameter, StartsLike, Later, Follows, NulLast,
      NulsLast;
    FirstParameter(r, skip);
    FirstFragment(r, skip);
    RunStep(r, skip, t);
    assert values == [values[0]] + values[1..];
    assert SlashFree(values) <==> SEPARATOR !in values[0] && SlashFree(values[1..]);
    if |values| != |Names(r)| {
      WrongCount(r, skip, values, t);
      WrongCount(After(r), 1, values[1..], if StartsLike(r, t) then Onward(Later(r, t)) else "");
    } else if SEPARATOR !in values[0] {
      InstanceStep(r, skip, values, t);
    }
    if StartsLike(r, t) { Segments(Later(r, t)); }
  }

  lemma FirstFragment(r: string, skip: nat)
    requires HasParameter(r) && skip <= 1
    ensures NulsLast(Fragments(r, skip)) <==> NulLast(Lead(r)[skip..]) && NulsLast(Fragments(After(r), 1))
  {
    hide NulLast, HasParameter, Lead, After;
    FirstParameter(r, skip);
    var first, rest := Lead(r)[skip..], Fragments(After(r), 1);
    var all := [first] + rest;
    assert all[0] == first && forall i :: 0 <= i < |rest| ==> all[i + 1] == rest[i];
  }

  lemma WrongCount(r: string, skip: nat, values: seq<string>, t: string)
    requires |values| != |Names(r)|
    ensures !InstanceFrom(r, skip, values, t)
  {
  }

  /** What `match` makes of a path. */
  function Matched(pattern: string, path: string): Outcome {
    Run(Fragments(pattern, 0), |Names(pattern)|, path, 0)
  }

  /** Matching an instance of the pattern succeeds and captures exactly the values it was made with. */
  lemma RoundTrip(pattern: string, values: seq<string>)
    requires |values| == |Names(pattern)| && SlashFree(values)
    ensures Matched(pattern, Instantiate(pattern, values)) == Outcome(true, values)
  {
    RunExactly(pattern, 0, Instantiate(pattern, values), values);
  }

  /** A path is matched with some values exactly when they are free of separators and the path is the pattern with these
      values, up to one slash after a final parameter. */
  lemma MatchedExactly(pattern: string, path: string, values: seq<string>)
    requires NulsLast(Fragments(pattern, 0))
    ensures Matched(pattern, path) == Outcome(true, values) <==> SlashFree(values) && Instance(pattern, values, path)
  {
    RunExactly(pattern, 0, path, values);
  }

  // ---------------------------------------------------------------------------------------------
  // Patterns with NUL
  // ---------------------------------------------------------------------------------------------

  function Altered(s: string, k: nat): string
    requires k < |s|
  {
    s[k := if s[k] == 'a' then 'b' else 'a']
  }

  /** What follows a NUL is not compared. */
  lemma {:induction false} SameNIgnores(a: string, j: nat, k: nat)
    requires j < k < |a| && a[j] == NUL
    ensures SameN(Altered(a, k), a)
    decreases |a|
  {
    if j > 0 {
      assert Altered(a, k)[1..] == Altered(a[1..], k - 1);
      SameNIgnores(a[1..], j - 1, k - 1);
    }
  }

  /** The fragment with a character behind an early NUL changed. */
  lemma HiddenChange(l: string, skip: nat) returns (l': string)
    requires skip <= |l| && !NulLast(l[skip..])
    ensures |l'| == |l| && l' != l && SameN(l'[skip..], l[skip..])
    ensures skip < |l| && l'[..skip + 1] == l[..skip + 1]
  {
    var f := l[skip..];
    var j :| 0 <= j < |f| - 1 && f[j] == NUL;
    l' := Altered(l, skip + j + 1);
    assert l'[skip..] == Altered(f, j + 1);
    assert l'[skip + j + 1] != l[skip + j + 1];
    SameNIgnores(f, j, j + 1);
  }

  /** A path that is matched although it is no instance. */
  lemma {:induction false} BadPath(r: string, skip: nat) returns (t: string, values: seq<string>)
    requires skip <= 1 && (skip == 1 ==> Follows(r)) && !NulsLast(Fragments(r, skip))
    ensures skip == 1 ==> Follows(t)
    ensures SlashFree(values)
    ensures Run(Fragments(r, skip), |Names(r)|, t, skip) == Outcome(true, values)
    ensures !InstanceFrom(r, skip, values, t)
    decreases |r|
  {
    hide Run, InstanceFrom, NulLast, SlashFree, HasParameter, NulsLast;
    if !HasParameter(r) {
      t, values := BadTail(r, skip);
    } else if !NulLast(Lead(r)[skip..]) {
      t, values := BadLead(r, skip);
    } else {
      FirstFragment(r, skip);
      AfterFollows(r);
      var t1, v1 := BadPath(After(r), 1);
      t, values := Lead(r) + t1, [""] + v1;
      BadLater(r, skip, t1, v1);
    }
  }

  lemma BadTail(r: string, skip: nat) returns (t: string, values: seq<string>)
    requires skip <= 1 && (skip == 1 ==> Follows(r)) && !NulsLast(Fragments(r, skip)) && !HasParameter(r)
    ensures skip == 1 ==> Follows(t)
    ensures SlashFree(values)
    ensures Run(Fragments(r, skip), |Names(r)|, t, skip) == Outcome(true, values)
    ensures !InstanceFrom(r, skip, values, t)
  {
    hide HasParameter, NulLast, SameN;
    NoParameter(r);
    NoneSlashFree();
    assert Fragments(r, skip) == [r[skip..]] && !NulLast(r[skip..]);
    LongerThanOne(r[skip..]);
    t := HiddenChange(r, skip);
    values := [];
    var fs := [r[skip..]];
    assert fs[1..] == [] && t[skip..|t|] == t[skip..] && t[|t|..] == "";
    RunNone([], 0, "", 0);
    assert t[0] == t[..skip + 1][0] == r[..skip + 1][0] == r[0];
  }

  lemma LongerThanOne(f: string)
    requires !NulLast(f)
    ensures |f| > 1
  {
  }

  lemma BadLead(r: string, skip: nat) returns (t: string, values: seq<string>)
    requires skip <= 1 && (skip == 1 ==> Follows(r)) && HasParameter(r) && !NulLast(Lead(r)[skip..])
    ensures skip == 1 ==> Follows(t)
    ensures SlashFree(values)
    ensures Run(Fragments(r, skip), |Names(r)|, t, skip) == Outcome(true, values)
    ensures !InstanceFrom(r, skip, values, t)
  {
    hide Run, Fragments, Names, InstanceFrom, NulLast, NulsLast, HasParameter, After, Segment, Onward, Filled, Tail;
    hide SameN;
    var lead := Lead(r);
    var lead' := HiddenChange(lead, skip);
    var rest := After(r);
    AfterFollows(r);
    var empties := seq(|Names(rest)|, i => "");
    var w := Filled(rest, empties, Tail(rest));
    FilledFollows(rest, empties, Tail(rest));
    t, values := lead' + w, [""] + empties;
    NoValue(w);
    FirstParameter(r, skip);
    RunCons(lead[skip..], Fragments(rest, 1), |Names(rest)|, t, skip);
    InFront(lead', w, skip);
    IsInstance(rest, empties);
    RunExactly(rest, 1, w, empties);
    InstanceStep(r, skip, values, t);
    assert lead'[..skip + 1][0] == lead[..skip + 1][0];
    LeadStart(r);
  }

  lemma NoValue(w: string)
    requires Follows(w)
    ensures Segment(w) == "" && Onward(w) == w
  {
    hide Segment, Onward;
    SplitAtSlash(w, "", w);
    assert "" + w == w;
  }

  lemma InFront(lead: string, w: string, skip: nat)
    requires skip < |lead|
    ensures (lead + w)[skip..|lead|] == lead[skip..] && (lead + w)[|lead|..] == w && (lead + w)[..|lead|] == lead
    ensures (lead + w)[0] == lead[0]
  {
  }

  lemma LeadStart(r: string)
    requires HasParameter(r)
    ensures Lead(r)[0] == r[0]
  {
  }

  lemma IsInstance(r: string, values: seq<string>)
    requires |values| == |Names(r)|
    ensures InstanceFrom(r, 1, values, Filled(r, values, Tail(r)))
  {
  }

  lemma BadLater(r: string, skip: nat, t1: string, v1: seq<string>)
    requires skip <= 1 && (skip == 1 ==> Follows(r)) && HasParameter(r)
    requires Follows(t1) && SlashFree(v1)
    requires Run(Fragments(After(r), 1), |Names(After(r))|, t1, 1) == Outcome(true, v1)
    requires !InstanceFrom(After(r), 1, v1, t1)
    ensures var t, values := Lead(r) + t1, [""] + v1;
            && (skip == 1 ==> Follows(t)) && SlashFree(values)
            && Run(Fragments(r, skip), |Names(r)|, t, skip) == Outcome(true, values)
            && !InstanceFrom(r, skip, values, t)
  {
    hide Run, Fragments, Names, InstanceFrom, HasParameter, After, Segment, Onward, SameN, Lead;
    var t, values := Lead(r) + t1, [""] + v1;
    LeadStart(r);
    SplitAtSlash(t1, "", t1);
    assert "" + t1 == t1 && Segment(t1) == "" && Onward(t1) == t1;
    assert StartsLike(r, t) && Later(r, t) == t1;
    RunStep(r, skip, t);
    FirstParameter(r, skip);
    if |values| == |Names(r)| {
      InstanceStep(r, skip, values, t);
      assert values[1..] == v1;
    } else {
      WrongCount(r, skip, values, t);
    }
  }

  /** Matching captures the values of instances, and nothing else is matched. */
  ghost predicate MatchesInstances(pattern: string) {
    forall path, values ::
      Matched(pattern, path) == Outcome(true, values) <==> SlashFree(values) && Instance(pattern, values, path)
  }

  /** The condition on patterns, exactly: no fragment has a NUL before its last character. A NUL in a parameter's name
      does no harm. */
  lemma NulExactly(pattern: string)
    ensures MatchesInstances(pattern) <==> NulsLast(Fragments(pattern, 0))
  {
    hide NulsLast, Fragments, Names, Run;
    if NulsLast(Fragments(pattern, 0)) {
      forall path, values
        ensures Matched(pattern, path) == Outcome(true, values)
                <==> SlashFree(values) && Instance(pattern, values, path)
      {
        MatchedExactly(pattern, path, values);
      }
    } else {
      var path, values := BadPath(pattern, 0);
      assert Matched(pattern, path) == Outcome(true, values) && !Instance(pattern, values, path);
    }
  }

  /** The whole way: building the matcher and matching the filled-in pattern gives back the values by name. */
  method FillThenMatch(pattern: string, values: seq<string>, request: Request) returns (ok: bool)
    requires |values| == |Names(pattern)| && SlashFree(values) && request.path == Instantiate(pattern, values)
    modifies request`pathParams
    ensures ok <==> Distinct(Names(pattern))
    ensures ok ==> forall i :: 0 <= i < |values| ==>
              Names(pattern)[i] in request.pathParams && request.pathParams[Names(pattern)[i]] == values[i]
    ensures ok ==> |request.pathParams| == |values|
  {
    hide Instantiate;
    var matcher := Build(pattern);
    if matcher.Duplicate? {
      return false;
    }
    ok := Match(matcher, request);
    RoundTrip(pattern, values);
    BoundGives(Names(pattern), values);
    BoundSize(Names(pattern), values);
  }

  lemma {:induction false} BoundSize(names: seq<string>, values: seq<string>)
    requires |values| <= |names| && Distinct(names)
    ensures |Bound(names, values)| == |values|
    decreases |values|
  {
    if values != [] {
      var n := |values| - 1;
      BoundSize(names, values[..n]);
      BoundGives(names, values[..n]);
      assert names[n] !in names[..n];
      assert Bound(names, values).Keys == Bound(names, values[..n]).Keys + {names[n]};
    }
  }

  // ---------------------------------------------------------------------------------------------
  // Patterns as they are written
  // ---------------------------------------------------------------------------------------------

  /** A parameter with the text in front of it. */
  datatype Piece = Piece(lead: string, name: string)

  /** The pattern that is written with these pieces: `/:` and the name after each text, then the rest. */
  function PatternText(pieces: seq<Piece>, tail: string): string {
    if pieces == [] then tail else pieces[0].lead + "/:" + pieces[0].name + PatternText(pieces[1..], tail)
  }

  /** The same with a slash and a value for each parameter. */
  function PathText(pieces: seq<Piece>, values: seq<string>, tail: string): string
    requires |values| == |pieces|
  {
    if pieces == [] then tail else pieces[0].lead + "/" + values[0] + PathText(pieces[1..], values[1..], tail)
  }

  /** No text holds the mark of a parameter, and names end at a slash or with the pattern. */
  predicate WellWritten(pieces: seq<Piece>, tail: string) {
    && Find(tail, "/:") == |tail|
    && (forall i :: 0 <= i < |pieces| ==> Find(pieces[i].lead + "/:", "/:") == |pieces[i].lead|)
    && (forall i :: 0 <= i < |pieces| ==> '/' !in pieces[i].name)
    && (forall i :: 0 < i < |pieces| ==> pieces[i].lead == "" || pieces[i].lead[0] == '/')
    && (pieces != [] ==> tail == "" || tail[0] == '/')
  }

  function NamesOf(pieces: seq<Piece>): (names: seq<string>)
    ensures |names| == |pieces|
  {
    if pieces == [] then [] else [pieces[0].name] + NamesOf(pieces[1..])
  }

  /** A well-written pattern has the parameters that were written, in order. */
  lemma {:induction false} WrittenNames(pieces: seq<Piece>, tail: string)
    requires WellWritten(pieces, tail)
    ensures Names(PatternText(pieces, tail)) == NamesOf(pieces) && Tail(PatternText(pieces, tail)) == tail
    decreases |pieces|
  {
    hide Lead, Name, After, WellWritten;
    if pieces == [] {
      NothingWritten(tail);
    } else {
      MoreFollows(pieces, tail);
      FirstWritten(pieces[0], PatternText(pieces[1..], tail));
      hide HasParameter;
      WrittenNames(pieces[1..], tail);
    }
  }

  lemma NothingWritten(tail: string)
    requires WellWritten([], tail)
    ensures !HasParameter(tail)
  {
  }

  /** And it is filled in by putting the values in their places. */
  lemma {:induction false} WrittenFilled(pieces: seq<Piece>, values: seq<string>, tail: string)
    requires WellWritten(pieces, tail) && |values| == |pieces| == |Names(PatternText(pieces, tail))|
    ensures Filled(PatternText(pieces, tail), values, tail) == PathText(pieces, values, tail)
    decreases |pieces|
  {
    hide Lead, Name, After, WellWritten, Names;
    if pieces == [] {
      NothingWritten(tail);
    } else {
      MoreFollows(pieces, tail);
      FirstWritten(pieces[0], PatternText(pieces[1..], tail));
      WrittenNames(pieces[1..], tail);
      hide HasParameter;
      WrittenFilled(pieces[1..], values[1..], tail);
      FillFirst(pieces[0].lead + "/", values[0], PathText(pieces[1..], values[1..], tail));
    }
  }

  lemma FillFirst(lead: string, value: string, more: string)
    ensures lead + (value + more) == lead + value + more
  {
  }

  lemma WrittenPattern(pieces: seq<Piece>, values: seq<string>, tail: string)
    requires |values| == |pieces| && WellWritten(pieces, tail)
    ensures |Names(PatternText(pieces, tail))| == |values|
    ensures Instantiate(PatternText(pieces, tail), values) == PathText(pieces, values, tail)
  {
    hide Names, Filled, Tail, PathText, PatternText;
    WrittenNames(pieces, tail);
    WrittenFilled(pieces, values, tail);
  }

  lemma MoreFollows(pieces: seq<Piece>, tail: string)
    requires pieces != [] && WellWritten(pieces, tail)
    ensures Follows(PatternText(pieces[1..], tail)) && WellWritten(pieces[1..], tail)
    ensures Find(pieces[0].lead + "/:", "/:") == |pieces[0].lead| && '/' !in pieces[0].name
  {
    hide Find;
    if |pieces| > 1 {
      var next := pieces[1..][0];
      assert next == pieces[1];
      assert PatternText(pieces[1..], tail)[0] == (next.lead + "/:")[0];
    }
  }

  lemma FirstWritten(first: Piece, more: string)
    requires Find(first.lead + "/:", "/:") == |first.lead| && '/' !in first.name && Follows(more)
    ensures var r := first.lead + "/:" + first.name + more;
            && HasParameter(r) && Lead(r) == first.lead + "/" && Name(r) == first.name && After(r) == more
            && Tail(r) == Tail(more)
  {
    var r, behind := first.lead + "/:" + first.name + more, first.name + more;
    assert r == first.lead + "/:" + behind;
    FindExtend(first.lead + "/:", behind, "/:");
    assert Marker(r) == |first.lead|;
    assert r[..|first.lead| + 1] == first.lead + "/" && r[|first.lead| + 2..] == behind;
    SplitAtSlash(behind, first.name, more);
    hide Find, Slash;
  }
}
