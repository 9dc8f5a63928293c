/** Bit flags: `value_ors`, `contains_bitflag`, `to_string_bitflag` and `cast_bitflag` over a reflected table. */
module BitFlag {
  import opened Splitting

  /** The underlying type, 64 bits wide. */
  type Bits = bv64

  datatype Entry = Entry(value: Bits, name: string)

  /** The reflected enumerators in order. */
  type Table = seq<Entry>

  datatype Option<T> = None | Some(value: T)

  // ---------------------------------------------------------------------------------------------
  // Values
  // ---------------------------------------------------------------------------------------------

  /** Every bit of the first is in the second. */
  predicate Within(a: Bits, b: Bits) {
    a == b & a
  }

  function Or(a: Bits, b: Bits): Bits {
    a | b
  }

  predicate SingleBit(b: Bits) {
    b != 0 && b & (b - 1) == 0
  }

  function Ors(table: Table): Bits {
    if table == [] then 0 else Or(Ors(table[..|table| - 1]), table[|table| - 1].value)
  }

  predicate HasZeroFlag(table: Table) {
    exists i :: 0 <= i < |table| && table[i].value == 0
  }

  method ValueOrs(table: Table) returns (ret: Bits)
    ensures ret == Ors(table)
    ensures forall i :: 0 <= i < |table| ==> Within(table[i].value, ret)
  {
    hide Within, Or;
    ret := 0;
    for i := 0 to |table|
      invariant ret == Ors(table[..i])
      invariant forall j :: 0 <= j < i ==> Within(table[j].value, ret)
    {
      assert table[..i + 1][..i] == table[..i];
      forall j | 0 <= j < i
        ensures Within(table[j].value, Or(ret, table[i].value))
      {
        WithinOr(table[j].value, ret, table[i].value);
      }
      WithinOr(table[i].value, table[i].value, ret);
      OrCommutes(ret, table[i].value);
      ret := Or(ret, table[i].value);
    }
    assert table[..|table|] == table;
  }

  predicate Contains(table: Table, value: Bits) {
    (value != 0 || HasZeroFlag(table)) && Within(value, Ors(table))
  }

  method ContainsBitflag(table: Table, value: Bits) returns (r: bool)
    ensures r == Contains(table, value)
  {
    hide Within, Or;
    if !HasZeroFlag(table) {
      if value == 0 { return false; }
    }
    var ors := ValueOrs(table);
    return Within(value, ors);
  }

  // ---------------------------------------------------------------------------------------------
  // Printing
  // ---------------------------------------------------------------------------------------------

  /** The entries that are looked at: a zero flag comes first and is not. */
  function Flags(table: Table): Table {
    if HasZeroFlag(table) then table[1..] else table
  }

  function Text(flags: Table, value: Bits, sep: char): string {
    if flags == [] then ""
    else
      var n := |flags| - 1;
      var before := Text(flags[..n], value, sep);
      if !Within(flags[n].value, value) then before
      else (if before != "" then before + [sep] else before) + flags[n].name
  }

  /** The bits of the flags that are printed. */
  function Union(flags: Table, value: Bits): Bits {
    if flags == [] then 0
    else
      var n := |flags| - 1;
      Or(Union(flags[..n], value), if Within(flags[n].value, value) then flags[n].value else 0)
  }

  function Printed(table: Table, value: Bits, sep: char): string {
    if HasZeroFlag(table) && value == 0 then table[0].name
    else if Union(Flags(table), value) == value then Text(Flags(table), value, sep)
    else ""
  }

  method ToStringBitflag(table: Table, value: Bits, sep: char) returns (name: string)
    ensures name == Printed(table, value, sep)
  {
    hide Within, Or;
    var zero := HasZeroFlag(table);
    if zero && value == 0 {
      return table[0].name;
    }
    ghost var flags := Flags(table);
    name := "";
    var checkValue: Bits := 0;
    var first := if zero then 1 else 0;
    var i := first;
    while i < |table|
      invariant first <= i <= |table| == first + |flags|
      invariant name == Text(flags[..i - first], value, sep)
      invariant checkValue == Union(flags[..i - first], value)
    {
      var v := table[i].value;
      assert v == flags[i - first].value && table[i].name == flags[i - first].name;
      assert flags[..i + 1 - first][..i - first] == flags[..i - first];
      OrZero(checkValue);
      if Within(v, value) {
        var s := table[i].name;
        if name != "" {
          name := name + [sep];
        }
        name := name + s;
        checkValue := Or(checkValue, v);
      }
      i := i + 1;
    }
    assert flags[..i - first] == flags;
    if checkValue == value {
      return name;
    }
    return "";
  }

  // ---------------------------------------------------------------------------------------------
  // Parsing
  // ---------------------------------------------------------------------------------------------

  /** The value of the first entry with the name. */
  function Lookup(table: Table, name: string): Option<Bits> {
    if table == [] then None
    else if table[0].name == name then Some(table[0].value)
    else Lookup(table[1..], name)
  }

  method Cast(table: Table, name: string) returns (v: Option<Bits>)
    ensures v == Lookup(table, name)
  {
    var i := 0;
    assert table[0..] == table;
    while i < |table|
      invariant i <= |table|
      invariant Lookup(table, name) == Lookup(table[i..], name)
    {
      if table[i].name == name {
        return Some(table[i].value);
      }
      assert table[i..][1..] == table[i + 1..];
      i := i + 1;
    }
    return None;
  }

  /** All pieces are names, and these are their bits together with `acc`. */
  function Together(table: Table, pieces: seq<string>, acc: Bits): Option<Bits> {
    if pieces == [] then Some(acc)
    else
      var v := Lookup(table, pieces[0]);
      if v.None? then None else Together(table, pieces[1..], Or(acc, v.value))
  }

  function Parsed(table: Table, s: string, sep: char): Option<Bits> {
    Together(table, Cut(s, sep), 0)
  }

  method CastBitflag(table: Table, s: string, sep: char) returns (r: Option<Bits>)
    ensures r == Parsed(table, s, sep)
  {
    hide Lookup, Cut, IndexOf, Or;
    var checkValue: Bits := 0;
    var pos := 0;
    assert s[0..] == s;
    var i := IndexOf(s[pos..], sep);
    while i < |s|
      invariant pos <= |s| && i == pos + IndexOf(s[pos..], sep)
      invariant Parsed(table, s, sep) == Together(table, Cut(s[pos..], sep), checkValue)
      decreases |s| - pos
    {
      CutHere(s, pos, i, sep);
      var v := Cast(table, s[pos..i]);
      if v.None? {
        return None;
      }
      checkValue := Or(checkValue, v.value);
      pos := i + 1;
      i := pos + IndexOf(s[pos..], sep);
    }
    assert Cut(s[pos..], sep) == [s[pos..]] by { CutWhole(s[pos..], sep); }
    var v := Cast(table, s[pos..]);
    if v.Some? {
      return Some(Or(checkValue, v.value));
    }
    return None;
  }

  lemma CutHere(s: string, pos: nat, i: nat, sep: char)
    requires pos <= i < |s| && i == pos + IndexOf(s[pos..], sep)
    ensures Cut(s[pos..], sep) == [s[pos..i]] + Cut(s[i + 1..], sep)
  {
    hide Cut, IndexOf;
    var t := s[pos..];
    CutFound(t, i - pos, sep);
    assert t[..i - pos] == s[pos..i] && t[i - pos + 1..] == s[i + 1..];
  }

  lemma CutFound(t: string, k: nat, sep: char)
    requires k == IndexOf(t, sep) < |t|
    ensures Cut(t, sep) == [t[..k]] + Cut(t[k + 1..], sep)
  {
  }

  lemma CutWhole(s: string, sep: char)
    requires IndexOf(s, sep) == |s|
    ensures Cut(s, sep) == [s]
  {
  }

  // ---------------------------------------------------------------------------------------------
  // Facts about bits
  // ---------------------------------------------------------------------------------------------

  lemma OrZero(a: Bits)
    ensures Or(a, 0) == a && Or(0, a) == a
  {
  }

  lemma OrCommutes(a: Bits, b: Bits)
    ensures Or(a, b) == Or(b, a)
  {
  }

  lemma WithinOr(a: Bits, b: Bits, c: Bits)
    requires Within(a, b)
    ensures Within(a, Or(b, c))
  {
  }

  lemma OrWithin(a: Bits, b: Bits, c: Bits)
    ensures Within(Or(a, b), c) <==> Within(a, c) && Within(b, c)
  {
    hide *;
    if Within(Or(a, b), c) {
      PartsWithin(a, b, c);
    }
    if Within(a, c) && Within(b, c) {
      BothWithin(a, b, c);
    }
  }

  lemma PartsWithin(a: Bits, b: Bits, c: Bits)
    requires Within(Or(a, b), c)
    ensures Within(a, c) && Within(b, c)
  {
    hide *;
    WithinItself(a);
    WithinItself(b);
    WithinOr(a, a, b);
    WithinOr(b, b, a);
    OrCommutes(a, b);
    WithinTrans(a, Or(a, b), c);
    WithinTrans(b, Or(a, b), c);
  }

  lemma BothWithin(a: Bits, b: Bits, c: Bits)
    requires Within(a, c) && Within(b, c)
    ensures Within(Or(a, b), c)
  {
  }

  lemma WithinBoth(a: Bits, b: Bits)
    requires Within(a, b) && Within(b, a)
    ensures a == b
  {
  }

  lemma WithinTrans(a: Bits, b: Bits, c: Bits)
    requires Within(a, b) && Within(b, c)
    ensures Within(a, c)
  {
  }

  /** Part of a single bit is nothing or all of it. */
  lemma WithinSingle(a: Bits, b: Bits)
    requires SingleBit(b) && Within(a, b)
    ensures a == 0 || a == b
  {
  }

  /** A missing bit can be named. */
  lemma MissingBit(a: Bits, b: Bits) returns (bit: Bits)
    requires !Within(a, b)
    ensures SingleBit(bit) && Within(bit, a) && !Within(bit, b)
  {
    hide SingleBit;
    var missing := a & !b;
    bit := Lowest(missing);
    assert missing != 0;
    hide *;
    LowestBit(missing);
    SingleIsNotZero(bit);
    PartOfDifference(bit, a, b);
  }

  function Lowest(w: Bits): Bits {
    w & (0 - w)
  }

  lemma PartOfDifference(bit: Bits, a: Bits, b: Bits)
    requires bit != 0 && Within(bit, a & !b)
    ensures Within(bit, a) && !Within(bit, b)
  {
  }

  lemma LowestBit(w: Bits)
    requires w != 0
    ensures SingleBit(Lowest(w)) && Within(Lowest(w), w)
  {
    hide SingleBit;
    LowestIsSingle(w);
    assert Within(Lowest(w), w);
  }

  lemma LowestIsSingle(w: Bits)
    requires w != 0
    ensures SingleBit(Lowest(w))
  {
  }

  // ---------------------------------------------------------------------------------------------
  // Properties
  // ---------------------------------------------------------------------------------------------

  predicate DistinctNames(table: Table) {
    forall i, j :: 0 <= i < j < |table| ==> table[i].name != table[j].name
  }

  predicate PlainNames(table: Table, sep: char) {
    forall i :: 0 <= i < |table| ==> table[i].name != "" && sep !in table[i].name
  }

  /** The order of the reflection: the zero flag, when there is one, is first. */
  predicate ZeroFirst(table: Table) {
    HasZeroFlag(table) ==> table[0].value == 0
  }

  /** Every single bit that some enumerator has is an enumerator. */
  ghost predicate BitsCovered(table: Table) {
    forall b: Bits :: SingleBit(b) && Within(b, Ors(table)) ==> ValueOf(table, b)
  }

  predicate ValueOf(table: Table, v: Bits) {
    exists i :: 0 <= i < |table| && table[i].value == v
  }

  lemma {:induction false} OrsBound(table: Table, v: Bits)
    ensures (forall i :: 0 <= i < |table| ==> Within(table[i].value, v)) <==> Within(Ors(table), v)
  {
    hide Within, Or;
    if table == [] {
      assert Within(0, v) by { NothingWithin(v); }
    } else {
      var n := |table| - 1;
      OrsBound(table[..n], v);
      OrWithin(Ors(table[..n]), table[n].value, v);
      assert forall i :: 0 <= i < n ==> table[..n][i] == table[i];
    }
  }

  lemma NothingWithin(v: Bits)
    ensures Within(0, v)
  {
  }

  lemma WithinItself(v: Bits)
    ensures Within(v, v)
  {
  }

  lemma UnionWithin(flags: Table, value: Bits)
    ensures Within(Union(flags, value), value) && Within(Union(flags, value), Ors(flags))
    ensures forall i :: 0 <= i < |flags| && Within(flags[i].value, value) ==>
              Within(flags[i].value, Union(flags, value))
  {
    hide *;
    UnionBelow(flags, value, value);
    UnionBelow(flags, value, Ors(flags));
    UnionBelow(flags, value, Union(flags, value));
    OrsBound(flags, Ors(flags));
    WithinItself(Ors(flags));
    WithinItself(Union(flags, value));
  }

  lemma {:induction false} UnionBelow(flags: Table, value: Bits, c: Bits)
    ensures Within(Union(flags, value), c) <==>
            forall i :: 0 <= i < |flags| && Within(flags[i].value, value) ==> Within(flags[i].value, c)
  {
    hide Within, Or;
    NothingWithin(c);
    if flags != [] {
      var n := |flags| - 1;
      UnionBelow(flags[..n], value, c);
      OrWithin(Union(flags[..n], value), if Within(flags[n].value, value) then flags[n].value else 0, c);
      assert forall i :: 0 <= i < n ==> flags[..n][i] == flags[i];
    }
  }

  lemma ZeroAddsNothing(table: Table)
    requires ZeroFirst(table)
    ensures Ors(Flags(table)) == Ors(table)
    ensures forall b :: b != 0 ==> (ValueOf(Flags(table), b) <==> ValueOf(table, b))
  {
    hide Within, Or;
    var flags := Flags(table);
    if HasZeroFlag(table) {
      assert table == [table[0]] + flags;
      forall b | b != 0
        ensures ValueOf(flags, b) <==> ValueOf(table, b)
      {
        if i :| 0 <= i < |table| && table[i].value == b { assert flags[i - 1].value == b; }
        if i :| 0 <= i < |flags| && flags[i].value == b { assert table[i + 1].value == b; }
      }
      OrsBound(table, Ors(flags));
      OrsBound(flags, Ors(table));
      OrsBound(flags, Ors(flags));
      OrsBound(table, Ors(table));
      WithinItself(Ors(flags));
      WithinItself(Ors(table));
      NothingWithin(Ors(flags));
      forall i | 0 <= i < |flags|
        ensures flags[i] == table[i + 1]
      {
      }
      forall i | 0 <= i < |table|
        ensures Within(table[i].value, Ors(flags))
      {
        if i > 0 { assert table[i] == flags[i - 1]; }
      }
      WithinBoth(Ors(flags), Ors(table));
    }
  }

  /** With every bit covered, the printed flags make up every contained value. */
  lemma CoveredUnion(table: Table, value: Bits)
    requires BitsCovered(table) && ZeroFirst(table) && Within(value, Ors(table))
    ensures Union(Flags(table), value) == value
  {
    hide Within, Or, SingleBit, ValueOf, Union, Ors;
    var flags := Flags(table);
    var u := Union(flags, value);
    UnionWithin(flags, value);
    if !Within(value, u) {
      var bit := MissingBit(value, u);
      WithinTrans(bit, value, Ors(table));
      ZeroAddsNothing(table);
      assert bit != 0 by { SingleIsNotZero(bit); }
      assert ValueOf(flags, bit);
      HasIndex(flags, bit);
      assert false;
    }
    WithinBoth(value, u);
  }

  lemma SingleIsNotZero(b: Bits)
    requires SingleBit(b)
    ensures b != 0
  {
  }

  lemma HasIndex(flags: Table, v: Bits)
    requires ValueOf(flags, v)
    ensures exists i :: 0 <= i < |flags| && flags[i].value == v
  {
  }

  lemma {:induction false} TextIsEmpty(flags: Table, value: Bits, sep: char)
    requires PlainNames(flags, sep)
    ensures Text(flags, value, sep) == "" <==> forall i :: 0 <= i < |flags| ==> !Within(flags[i].value, value)
  {
    hide Within, Or;
    if flags != [] {
      var n := |flags| - 1;
      TextIsEmpty(flags[..n], value, sep);
      assert forall i :: 0 <= i < n ==> flags[..n][i] == flags[i];
    }
  }

  /** When a value is printed at all. */
  lemma PrintedExactly(table: Table, value: Bits, sep: char)
    requires PlainNames(table, sep) && ZeroFirst(table)
    ensures Printed(table, value, sep) != "" <==>
            if value == 0 then HasZeroFlag(table) else Union(Flags(table), value) == value
  {
    hide Within, Or;
    var flags := Flags(table);
    TextIsEmpty(flags, value, sep);
    if value == 0 {
      if !HasZeroFlag(table) {
        forall i | 0 <= i < |flags|
          ensures !Within(flags[i].value, 0)
        {
          if Within(flags[i].value, 0) { WithinNothing(flags[i].value); }
        }
      }
    } else if forall i :: 0 <= i < |flags| ==> !Within(flags[i].value, value) {
      NothingPrinted(flags, value);
    }
  }

  lemma WithinNothing(a: Bits)
    requires Within(a, 0)
    ensures a == 0
  {
  }

  lemma {:induction false} NothingPrinted(flags: Table, value: Bits)
    requires forall i :: 0 <= i < |flags| ==> !Within(flags[i].value, value)
    ensures Union(flags, value) == 0
  {
    hide Within, Or;
    if flags != [] {
      var n := |flags| - 1;
      NothingPrinted(flags[..n], value);
      OrZero(0);
      assert !Within(flags[n].value, value);
    }
  }

  ghost predicate PrintsWhatItContains(table: Table, sep: char) {
    forall v: Bits :: Printed(table, v, sep) != "" <==> Contains(table, v)
  }

  /** Exactly the contained values are printed if and only if every bit of an enumerator is an enumerator. */
  lemma PrintsContainedExactly(table: Table, sep: char)
    requires PlainNames(table, sep) && ZeroFirst(table)
    ensures PrintsWhatItContains(table, sep) <==> BitsCovered(table)
  {
    hide Within, Or, SingleBit, Ors, Union, ValueOf, Printed;
    if BitsCovered(table) {
      forall v: Bits
        ensures Printed(table, v, sep) != "" <==> Contains(table, v)
      {
        PrintedExactly(table, v, sep);
        NothingWithin(Ors(table));
        ZeroAddsNothing(table);
        UnionWithin(Flags(table), v);
        if Within(v, Ors(table)) { CoveredUnion(table, v); }
      }
    }
    if PrintsWhatItContains(table, sep) {
      forall b: Bits | SingleBit(b) && Within(b, Ors(table))
        ensures ValueOf(table, b)
      {
        SingleIsNotZero(b);
        assert Contains(table, b);
        PrintedExactly(table, b, sep);
        UnionOfSingle(Flags(table), b);
        ZeroAddsNothing(table);
      }
    }
  }

  /** A contained value without a text: half of a flag of two bits. */
  lemma ContainedWithoutText(sep: char)
    ensures var table := [Entry(3, "RW")]; Contains(table, 1) && Printed(table, 1, sep) == ""
  {
    var table := [Entry(3, "RW")];
    assert table[..0] == [];
    assert Ors(table) == 3 && Within(1, 3) && !Within(3, 1);
    assert Union(table, 1) == 0;
  }

  lemma {:induction false} UnionOfSingle(flags: Table, b: Bits)
    requires SingleBit(b)
    ensures Union(flags, b) == b ==> ValueOf(flags, b)
    ensures Union(flags, b) == b || Union(flags, b) == 0
  {
    hide Within, Or, SingleBit;
    SingleIsNotZero(b);
    if flags != [] {
      var n := |flags| - 1;
      UnionOfSingle(flags[..n], b);
      var v := flags[n].value;
      if Within(v, b) { WithinSingle(v, b); }
      OrZero(b);
      OrZero(0);
      OrSelf(b);
      if ValueOf(flags[..n], b) { ValueOfPrefix(flags, n, b); }
    }
  }

  lemma ValueOfPrefix(table: Table, n: nat, b: Bits)
    requires n <= |table| && ValueOf(table[..n], b)
    ensures ValueOf(table, b)
  {
    var i :| 0 <= i < n && table[..n][i].value == b;
    assert table[i].value == b;
  }

  lemma OrSelf(b: Bits)
    ensures Or(b, b) == b
  {
  }

  /** Tables of single bits and zeros, the usual ones, cover their bits. */
  lemma SingleBitsCover(table: Table)
    requires forall i :: 0 <= i < |table| ==> table[i].value == 0 || SingleBit(table[i].value)
    ensures BitsCovered(table)
  {
    hide Within, Or, SingleBit, Ors;
    forall b: Bits | SingleBit(b) && Within(b, Ors(table))
      ensures ValueOf(table, b)
    {
      hide ValueOf;
      BitComesFromSomewhere(table, b);
    }
  }

  lemma {:induction false} BitComesFromSomewhere(table: Table, b: Bits)
    requires forall i :: 0 <= i < |table| ==> table[i].value == 0 || SingleBit(table[i].value)
    requires SingleBit(b) && Within(b, Ors(table))
    ensures ValueOf(table, b)
  {
    hide Within, Or, SingleBit;
    SingleIsNotZero(b);
    if table == [] {
      WithinNothing(b);
    } else {
      var n := |table| - 1;
      var v := table[n].value;
      assert forall i :: 0 <= i < n ==> table[..n][i] == table[i];
      BitOfOr(b, Ors(table[..n]), v);
      if Within(b, v) {
        if v == 0 { WithinNothing(b); } else { WithinSingle(b, v); }
      } else {
        BitComesFromSomewhere(table[..n], b);
        ValueOfPrefix(table, n, b);
      }
    }
  }

  lemma BitOfOr(bit: Bits, a: Bits, b: Bits)
    requires SingleBit(bit) && Within(bit, Or(a, b))
    ensures Within(bit, a) || Within(bit, b)
  {
    hide SingleBit;
    SingleIsNotZero(bit);
    PartIsWithin(bit, a);
    PartIsWithin(bit, b);
    WithinSingle(bit & a, bit);
    WithinSingle(bit & b, bit);
    SplitsOver(bit, a, b);
  }

  lemma PartIsWithin(bit: Bits, a: Bits)
    ensures Within(bit & a, bit)
  {
  }

  lemma SplitsOver(bit: Bits, a: Bits, b: Bits)
    requires Within(bit, Or(a, b)) && bit != 0
    ensures bit & a != 0 || bit & b != 0
    ensures bit & a == bit ==> Within(bit, a)
    ensures bit & b == bit ==> Within(bit, b)
  {
  }

  // ---------------------------------------------------------------------------------------------
  // The round trip
  // ---------------------------------------------------------------------------------------------

  lemma {:induction false} LookupGives(table: Table, i: nat)
    requires i < |table| && DistinctNames(table)
    ensures Lookup(table, table[i].name) == Some(table[i].value)
  {
    if i > 0 {
      LookupGives(table[1..], i - 1);
    }
  }

  function NamesWithin(flags: Table, value: Bits): seq<string> {
    if flags == [] then []
    else
      var n := |flags| - 1;
      NamesWithin(flags[..n], value) + if Within(flags[n].value, value) then [flags[n].name] else []
  }

  lemma {:induction false} TextPieces(flags: Table, value: Bits, sep: char)
    requires PlainNames(flags, sep)
    ensures Text(flags, value, sep) == "" <==> NamesWithin(flags, value) == []
    ensures Text(flags, value, sep) != "" ==> Cut(Text(flags, value, sep), sep) == NamesWithin(flags, value)
  {
    hide Within, Or, Cut;
    if flags != [] {
      var n := |flags| - 1;
      var before, name := Text(flags[..n], value, sep), flags[n].name;
      TextPieces(flags[..n], value, sep);
      if Within(flags[n].value, value) {
        CutLast(before, sep, name);
        CutName(name, sep);
        assert before == "" ==> before + name == name;
      }
    }
  }

  lemma CutName(name: string, sep: char)
    requires sep !in name
    ensures Cut(name, sep) == [name]
  {
  }

  lemma {:induction false} TogetherLast(table: Table, pieces: seq<string>, last: string, acc: Bits)
    ensures Together(table, pieces + [last], acc)
         == match Together(table, pieces, acc)
            case None => None
            case Some(v) => (match Lookup(table, last) case None => None case Some(w) => Some(Or(v, w)))
  {
    hide Lookup, Or;
    if pieces == [] {
      assert pieces + [last] == [last] && [last][1..] == [];
    } else {
      assert (pieces + [last])[1..] == pieces[1..] + [last];
      var v := Lookup(table, pieces[0]);
      if v.Some? {
        TogetherLast(table, pieces[1..], last, Or(acc, v.value));
      }
    }
  }

  lemma {:induction false} PrintedTogether(table: Table, flags: Table, value: Bits)
    requires DistinctNames(table) && forall f :: f in flags ==> f in table
    ensures Together(table, NamesWithin(flags, value), 0) == Some(Union(flags, value))
  {
    hide Within, Or, Lookup;
    if flags != [] {
      var n := |flags| - 1;
      var names, f := NamesWithin(flags[..n], value), flags[n];
      PrintedTogether(table, flags[..n], value);
      OrZero(Union(flags[..n], value));
      assert names + [] == names;
      if Within(f.value, value) {
        TogetherLast(table, names, f.name, 0);
        assert f in table;
        var i :| 0 <= i < |table| && table[i] == f;
        LookupGives(table, i);
      }
    }
  }

  lemma OneTogether(table: Table, name: string)
    ensures Together(table, [name], 0) == Lookup(table, name)
  {
    hide Lookup, Or;
    var v := Lookup(table, name);
    assert [name][1..] == [];
    if v.Some? { OrZero(v.value); }
  }

  /** What was printed is read back as the value, whatever the bits of the enumerators. */
  lemma RoundTrip(table: Table, value: Bits, sep: char)
    requires DistinctNames(table) && PlainNames(table, sep) && ZeroFirst(table)
    requires Printed(table, value, sep) != ""
    ensures Parsed(table, Printed(table, value, sep), sep) == Some(value)
  {
    hide Within, Or, Union, Text, Cut, Lookup;
    if HasZeroFlag(table) && value == 0 {
      var name := table[0].name;
      CutName(name, sep);
      LookupGives(table, 0);
      OneTogether(table, name);
    } else {
      var flags := Flags(table);
      TextPieces(flags, value, sep);
      PrintedTogether(table, flags, value);
    }
  }

  lemma {:induction false} LookupIsIn(table: Table, name: string)
    ensures Lookup(table, name).Some? ==> ValueOf(table, Lookup(table, name).value)
  {
    if table != [] && table[0].name != name {
      LookupIsIn(table[1..], name);
      if Lookup(table, name).Some? {
        var i :| 0 <= i < |table| - 1 && table[1..][i].value == Lookup(table, name).value;
        assert table[i + 1].value == Lookup(table, name).value;
      }
    }
  }

  lemma {:induction false} TogetherWithin(table: Table, pieces: seq<string>, acc: Bits)
    requires Within(acc, Ors(table))
    ensures var r := Together(table, pieces, acc);
            r.Some? ==> Within(r.value, Ors(table)) && (r.value == 0 && pieces != [] ==> HasZeroFlag(table))
    ensures var r := Together(table, pieces, acc);
            r.Some? ==> (r.value == 0 ==> acc == 0)
  {
    hide Within, Or, Lookup, Ors;
    if pieces != [] {
      var v := Lookup(table, pieces[0]);
      LookupIsIn(table, pieces[0]);
      if v.Some? {
        OrsBound(table, Ors(table));
        WithinItself(Ors(table));
        OrWithin(acc, v.value, Ors(table));
        OrIsZero(acc, v.value);
        TogetherWithin(table, pieces[1..], Or(acc, v.value));
      }
    }
  }

  lemma OrIsZero(a: Bits, b: Bits)
    ensures Or(a, b) == 0 <==> a == 0 && b == 0
  {
  }

  /** Only contained values are read. */
  lemma ParsedIsContained(table: Table, s: string, sep: char)
    ensures Parsed(table, s, sep).Some? ==> Contains(table, Parsed(table, s, sep).value)
  {
    hide Within, Or, Lookup, Ors, Together;
    NothingWithin(Ors(table));
    TogetherWithin(table, Cut(s, sep), 0);
  }

  predicate IsName(table: Table, name: string) {
    exists i :: 0 <= i < |table| && table[i].name == name
  }

  lemma {:induction false} LookupFinds(table: Table, name: string)
    ensures Lookup(table, name).Some? <==> IsName(table, name)
  {
    if table != [] && table[0].name != name {
      LookupFinds(table[1..], name);
      if i :| 0 <= i < |table| && table[i].name == name { assert table[1..][i - 1].name == name; }
      if i :| 0 <= i < |table| - 1 && table[1..][i].name == name { assert table[i + 1].name == name; }
    }
  }

  lemma {:induction false} TogetherExactly(table: Table, pieces: seq<string>, acc: Bits, c: Bits)
    requires DistinctNames(table)
    ensures Together(table, pieces, acc).Some? <==> forall piece <- pieces :: IsName(table, piece)
    ensures Together(table, pieces, acc).Some? ==>
              (Within(Together(table, pieces, acc).value, c) <==>
               Within(acc, c) && forall i :: 0 <= i < |table| && table[i].name in pieces ==> Within(table[i].value, c))
    decreases |pieces|
  {
    hide Within, Or, Lookup, IsName;
    if pieces != [] {
      var piece, rest := pieces[0], pieces[1..];
      LookupFinds(table, piece);
      if IsName(table, piece) {
        var k := NameAt(table, piece);
        LookupGives(table, k);
        TogetherExactly(table, rest, Or(acc, table[k].value), c);
        OrWithin(acc, table[k].value, c);
        assert forall i :: 0 <= i < |table| && table[i].name == piece ==> i == k;
        assert forall other :: other in pieces <==> other == piece || other in rest;
      }
    }
  }

  /** A name stands for its first entry. */
  lemma {:induction false} FirstIsMeant(table: Table, i: nat)
    requires i < |table| && forall j :: 0 <= j < i ==> table[j].name != table[i].name
    ensures Lookup(table, table[i].name) == Some(table[i].value)
    decreases i
  {
    if i > 0 { FirstIsMeant(table[1..], i - 1); }
  }

  lemma NameAt(table: Table, name: string) returns (k: nat)
    requires IsName(table, name)
    ensures k < |table| && table[k].name == name
  {
    k :| k < |table| && table[k].name == name;
  }

  /** What is read, exactly: a text, in any order and with any repetitions, if and only if all between its separators
      are names; and then the value has just the bits of the enumerators named. */
  lemma ParsedExactly(table: Table, s: string, sep: char)
    requires DistinctNames(table)
    ensures Parsed(table, s, sep).Some? <==> forall piece <- Cut(s, sep) :: IsName(table, piece)
    ensures Parsed(table, s, sep).Some? ==>
              forall c: Bits ::
                Within(Parsed(table, s, sep).value, c) <==>
                forall i :: 0 <= i < |table| && table[i].name in Cut(s, sep) ==> Within(table[i].value, c)
  {
    hide Within, Together, IsName, Cut;
    forall c: Bits
      ensures Parsed(table, s, sep).Some? ==>
                (Within(Parsed(table, s, sep).value, c) <==>
                 forall i :: 0 <= i < |table| && table[i].name in Cut(s, sep) ==> Within(table[i].value, c))
    {
      TogetherExactly(table, Cut(s, sep), 0, c);
      NothingWithin(c);
    }
    TogetherExactly(table, Cut(s, sep), 0, 0);
  }

  /** For the usual tables: printing succeeds exactly on the contained values, and is inverted by parsing. */
  method PrintThenParse(table: Table, value: Bits, sep: char) returns (name: string, back: Option<Bits>)
    requires DistinctNames(table) && PlainNames(table, sep) && ZeroFirst(table)
    requires forall i :: 0 <= i < |table| ==> table[i].value == 0 || SingleBit(table[i].value)
    ensures name != "" <==> Contains(table, value)
    ensures Contains(table, value) ==> back == Some(value)
  {
    hide Within, Or, SingleBit, Printed, Parsed, Ors;
    name := ToStringBitflag(table, value, sep);
    back := CastBitflag(table, name, sep);
    SingleBitsCover(table);
    PrintsContainedExactly(table, sep);
    if name != "" { RoundTrip(table, value, sep); }
  }
}
