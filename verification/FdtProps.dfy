// Reading and rewriting property values: string lists, cell counts and the status of a hart.
module FdtProps {
  import opened Arith
  import opened FdtTree

  // ----- strings -----

  // the string at the front of b, without its terminator
  function Str(b: seq<bv8>): (s: seq<bv8>)
    ensures |s| <= |b| && s == b[..|s|] && (|s| < |b| ==> b[|s|] == 0)
    ensures forall i :: 0 <= i < |s| ==> s[i] != 0
  {
    if |b| == 0 || b[0] == 0 then [] else [b[0]] + Str(b[1..])
  }

  // The string at the front of b is str when b shows str and a terminator.
  lemma StrIs(b: seq<bv8>, str: seq<bv8>)
    requires |str| < |b| && forall i :: 0 <= i < |str| ==> str[i] != 0
    ensures Str(b) == str <==> b[..|str|] == str && b[|str|] == 0
  {
    hide Str;
    var s := Str(b);
    if |s| < |str| {
      assert b[..|str|][|s|] == b[|s|];
    } else if |s| > |str| {
      assert s[|str|] == b[|str|];
    }
  }

  // a string literal as bytes
  function Ascii(s: string): (b: seq<bv8>)
    requires forall i :: 0 <= i < |s| ==> s[i] as int < 128
    ensures |b| == |s|
  {
    seq(|s|, i requires 0 <= i < |s| => (s[i] as int) as bv8)
  }

  // the strings of a string list
  function Strings(b: seq<bv8>): seq<seq<bv8>>
    decreases |b|
  {
    if |b| == 0 then []
    else
      var s := Str(b);
      [s] + Strings(if |s| < |b| then b[|s| + 1..] else [])
  }

  // The strings, each with its terminator, make up a list that ends with a terminator.
  ghost function Joined(ss: seq<seq<bv8>>): seq<bv8> {
    if |ss| == 0 then [] else ss[0] + [0] + Joined(ss[1..])
  }

  ghost predicate Terminated(b: seq<bv8>) { |b| > 0 ==> b[|b| - 1] == 0 }

  lemma {:induction false} StringsJoined(b: seq<bv8>)
    requires Terminated(b)
    ensures Joined(Strings(b)) == b
    decreases |b|
  {
    hide Str, Strings, Terminated;
    if |b| == 0 {
      NoStrings();
      assert b == [];
    } else {
      var s, t := FirstString(b);
      StringsJoined(t);
      assert ([s] + Strings(t))[1..] == Strings(t);
    }
  }

  // a list is its first string, a terminator and the rest
  lemma FirstString(b: seq<bv8>) returns (s: seq<bv8>, t: seq<bv8>)
    requires Terminated(b) && |b| > 0
    ensures b == s + [0] + t && Terminated(t) && Strings(b) == [s] + Strings(t) && s == Str(b)
  {
    s := Str(b);
    hide Str;
    t := b[|s| + 1..];
    assert |t| > 0 ==> t[|t| - 1] == b[|b| - 1];
  }

  // the place of the first string equal to str, -1 if there is none
  function FirstIndex(ss: seq<seq<bv8>>, str: seq<bv8>): (r: int)
    ensures -1 <= r < |ss|
    ensures r >= 0 ==> ss[r] == str
    ensures forall j :: 0 <= j < |ss| && (r < 0 || j < r) ==> ss[j] != str
  {
    if |ss| == 0 then -1
    else if ss[0] == str then 0
    else
      var r := FirstIndex(ss[1..], str);
      if r < 0 then -1 else r + 1
  }

  lemma NextString(b: seq<bv8>, at: nat, s: seq<bv8>)
    requires at < |b| && s == Str(b[at..]) && Terminated(b)
    ensures at + |s| + 1 <= |b| && Strings(b[at..]) == [s] + Strings(b[at + |s| + 1..])
  {
    var t := b[at..];
    assert t[|t| - 1] == b[|b| - 1];
    assert t[|s| + 1..] == b[at + |s| + 1..];
  }

  // str and a terminator stand at place at of b
  ghost predicate StringAt(b: seq<bv8>, at: nat, str: seq<bv8>) {
    at + |str| < |b| && b[at..at + |str|] == str && b[at + |str|] == 0
  }

  // str is one of the strings of the list b: it stands at its start or behind a terminator
  ghost predicate InList(b: seq<bv8>, str: seq<bv8>) {
    exists o: nat :: o < |b| && (o == 0 || b[o - 1] == 0) && StringAt(b, o, str)
  }

  lemma StrAt(b: seq<bv8>, at: nat, str: seq<bv8>)
    requires at < |b| && Terminated(b) && forall i :: 0 <= i < |str| ==> str[i] != 0
    ensures Str(b[at..]) == str <==> StringAt(b, at, str)
  {
    var t := b[at..];
    assert t[|t| - 1] == b[|b| - 1] == 0;
    var s := Str(t);
    hide Str;
    if |str| < |t| {
      StrIs(t, str);
      assert t[..|str|] == b[at..at + |str|];
    }
  }

  // The search on a string list finds an index exactly for the strings of the list, byte by byte.
  lemma {:induction false} ListHas(b: seq<bv8>, str: seq<bv8>)
    requires Terminated(b) && forall i :: 0 <= i < |str| ==> str[i] != 0
    ensures FirstIndex(Strings(b), str) >= 0 <==> InList(b, str)
    decreases |b|
  {
    hide Str, Strings;
    if |b| == 0 {
      NoStrings();
      assert b == [];
    } else {
      var s, t := FirstString(b);
      ListHas(t, str);
      StrAt(b, 0, str);
      assert b[0..] == b;
      assert ([s] + Strings(t))[1..] == Strings(t);
      ListSplit(b, s, t, str);
    }
  }

  // a string of the list is the first one or one of the rest
  lemma ListSplit(b: seq<bv8>, s: seq<bv8>, t: seq<bv8>, str: seq<bv8>)
    requires b == s + [0] + t && forall i :: 0 <= i < |s| ==> s[i] != 0
    ensures InList(b, str) <==> StringAt(b, 0, str) || InList(t, str)
  {
    var n := |s| + 1;
    if InList(b, str) {
      var o: nat :| o < |b| && (o == 0 || b[o - 1] == 0) && StringAt(b, o, str);
      if o > 0 {
        assert forall i :: 0 <= i < |s| ==> b[i] == s[i];
        BehindFirst(b, s, t, str, o);
      }
    }
    if InList(t, str) {
      var o: nat :| o < |t| && (o == 0 || t[o - 1] == 0) && StringAt(t, o, str);
      BehindFirst(b, s, t, str, o + n);
    }
  }

  lemma BehindFirst(b: seq<bv8>, s: seq<bv8>, t: seq<bv8>, str: seq<bv8>, o: nat)
    requires b == s + [0] + t && |s| + 1 <= o
    ensures StringAt(b, o, str) <==> StringAt(t, o - |s| - 1, str)
    ensures o <= |b| ==> (b[o - 1] == 0 <==> o == |s| + 1 || t[o - |s| - 2] == 0)
  {
    var n := |s| + 1;
    if o + |str| < |b| {
      assert b[o..o + |str|] == t[o - n..o - n + |str|];
    }
  }

  // fdt_string_list_index on the len bytes b of a property value
  method StringListIndex(b: seq<bv8>, str: seq<bv8>) returns (index: int)
    requires Terminated(b)
    ensures index == FirstIndex(Strings(b), str)
  {
    hide Str, Strings;
    var list := 0;
    index := 0;
    assert b[0..] == b;
    ghost var rest := Strings(b);
    while |b| - list > 0
      invariant 0 <= list <= |b| && index >= 0 && rest == Strings(b[list..])
      invariant FirstIndex(Strings(b), str) == (var r := FirstIndex(rest, str); if r < 0 then -1 else r + index)
      decreases |b| - list
    {
      var s := Str(b[list..]);
      NextString(b, list, s);
      assert rest[1..] == Strings(b[list + |s| + 1..]);
      if s == str {
        return;
      }
      index := index + 1;
      list := list + |s| + 1;
      rest := rest[1..];
    }
    NoStrings();
    assert b[list..] == [];
    index := -1;
  }

  lemma NoStrings()
    ensures Strings([]) == []
  {
  }

  // ----- cells -----

  ghost function Word(x: bv32): nat { Bswap(x) as nat }

  // the number that cells spell, most significant first
  ghost function CellsValue(v: seq<bv32>): nat {
    if |v| == 0 then 0 else CellsValue(v[..|v| - 1]) * 0x1_0000_0000 + Word(v[|v| - 1])
  }

  // One more cell counts 2^32 times less than the cells before it, and is read with its bytes reversed.
  lemma CellsAppend(v: seq<bv32>, w: bv32)
    ensures CellsValue([]) == 0 && CellsValue(v + [w]) == CellsValue(v) * 0x1_0000_0000 + Bswap(w) as nat
  {
    hide Bswap;
    assert (v + [w])[..|v|] == v;
  }

  const M64: nat := 0x1_0000_0000_0000_0000

  // fdt_get_address and fdt_get_size, for a node with that many cells: the last 64 bits of the number
  method GetCells(cells: int, mem: array<bv32>, value: nat) returns (result: nat, next: nat)
    requires value + (if cells > 0 then cells else 0) <= mem.Length
    ensures next == value + if cells > 0 then cells else 0
    ensures result == CellsValue(mem[value..next]) % M64
  {
    hide Bswap;
    result, next := 0, value;
    var n := cells;
    assert mem[value..value] == [];
    while n > 0
      invariant next == value + (if cells > 0 then cells - n else 0) && (cells > 0 ==> n >= 0) && next <= mem.Length
      invariant cells <= 0 ==> n == cells
      invariant result == CellsValue(mem[value..next]) % M64
    {
      ghost var v := mem[value..next];
      var w := Bswap(mem[next]) as nat;
      result := ((result * 0x1_0000_0000) % M64 + w) % M64;
      next := next + 1;
      assert mem[value..next][..|mem[value..next]| - 1] == v;
      Shifted(CellsValue(v), w);
      n := n - 1;
    }
  }

  lemma Shifted(v: nat, w: nat)
    ensures ((v % M64 * 0x1_0000_0000) % M64 + w) % M64 == (v * 0x1_0000_0000 + w) % M64
  {
    var q, r := v / M64, v % M64;
    var s := r * 0x1_0000_0000;
    var k, t := s / M64, s % M64;
    var j, u := (t + w) / M64, (t + w) % M64;
    DivMod(v * 0x1_0000_0000 + w, M64, q * 0x1_0000_0000 + k + j, u);
  }

  // Up to two cells nothing is lost.
  lemma TwoCells(v: seq<bv32>)
    requires |v| <= 2
    ensures CellsValue(v) % M64 == CellsValue(v)
  {
    hide Bswap;
    if |v| > 0 {
      var h := v[..|v| - 1];
      assert |h| > 0 ==> CellsValue(h[..0]) == 0;
    }
  }
}
