// Masking harts: hart_filter_done rewrites the status string of a hart inside the structure block.
module FdtHart {
  import opened FdtTree
  import opened FdtScan
  import opened FdtProps

  // ----- the bytes of the block -----

  // the bytes of words in memory
  ghost function BytesOf(s: seq<bv32>): (b: seq<bv8>)
    ensures |b| == 4 * |s|
  {
    seq(4 * |s|, i requires 0 <= i < 4 * |s| => Byte(s[i / 4], i % 4))
  }

  // the word of four bytes
  function Four(a: bv8, b: bv8, c: bv8, d: bv8): bv32 {
    (a as bv32) | ((b as bv32) << 8) | ((c as bv32) << 16) | ((d as bv32) << 24)
  }

  lemma FourBytes(a: bv8, b: bv8, c: bv8, d: bv8)
    ensures Byte(Four(a, b, c, d), 0) == a && Byte(Four(a, b, c, d), 1) == b
    ensures Byte(Four(a, b, c, d), 2) == c && Byte(Four(a, b, c, d), 3) == d
  {
  }

  // w with its byte k replaced
  function SetByte(w: bv32, k: nat, b: bv8): bv32
    requires k < 4
  {
    Four(if k == 0 then b else Byte(w, 0), if k == 1 then b else Byte(w, 1),
         if k == 2 then b else Byte(w, 2), if k == 3 then b else Byte(w, 3))
  }

  lemma SetByteBytes(w: bv32, k: nat, b: bv8, j: nat)
    requires k < 4 && j < 4
    ensures Byte(SetByte(w, k, b), j) == if j == k then b else Byte(w, j)
  {
    hide Byte, Four;
    FourBytes(if k == 0 then b else Byte(w, 0), if k == 1 then b else Byte(w, 1),
              if k == 2 then b else Byte(w, 2), if k == 3 then b else Byte(w, 3));
  }

  // four bytes make a word
  lemma SameWord(x: bv32, y: bv32)
    requires forall k :: 0 <= k < 4 ==> Byte(x, k) == Byte(y, k)
    ensures x == y
  {
    assert Byte(x, 0) == Byte(y, 0) && Byte(x, 1) == Byte(y, 1) && Byte(x, 2) == Byte(y, 2) && Byte(x, 3) == Byte(y, 3);
  }

  lemma SameWords(s: seq<bv32>, t: seq<bv32>)
    requires |s| == |t| && BytesOf(s) == BytesOf(t)
    ensures s == t
  {
    hide Byte;
    forall i | 0 <= i < |s| ensures s[i] == t[i] {
      forall k | 0 <= k < 4 ensures Byte(s[i], k) == Byte(t[i], k) {
        assert BytesOf(s)[4 * i + k] == BytesOf(t)[4 * i + k];
      }
      SameWord(s[i], t[i]);
    }
  }

  // ----- strcmp and strcpy -----

  // strcmp(mem + at, str) == 0, byte by byte
  method Strcmp(mem: array<bv32>, at: nat, str: seq<bv8>) returns (equal: bool)
    requires at + |str| < 4 * mem.Length && forall i :: 0 <= i < |str| ==> str[i] != 0
    ensures equal <==> Str(BytesOf(mem[..])[at..]) == str
  {
    hide Byte, Str;
    ghost var b := BytesOf(mem[..]);
    var i := 0;
    while i < |str| && Byte(mem[(at + i) / 4], (at + i) % 4) == str[i]
      invariant 0 <= i <= |str| && forall j :: 0 <= j < i ==> b[at + j] == str[j]
    {
      assert b[at + i] == str[i];
      i := i + 1;
    }
    equal := i == |str| && Byte(mem[(at + i) / 4], (at + i) % 4) == 0;
    assert b[at + i] == Byte(mem[(at + i) / 4], (at + i) % 4);
    Compared(b, at, str, i);
  }

  // the bytes agree up to place i and differ there, unless the string is over
  lemma Compared(b: seq<bv8>, at: nat, str: seq<bv8>, i: nat)
    requires at + |str| < |b| && i <= |str| && forall k :: 0 <= k < |str| ==> str[k] != 0
    requires forall j :: 0 <= j < i ==> b[at + j] == str[j]
    requires i < |str| ==> b[at + i] != str[i]
    ensures Str(b[at..]) == str <==> i == |str| && b[at + i] == 0
  {
    hide Str;
    StrIs(b[at..], str);
    if i < |str| {
      assert b[at..][..|str|][i] == b[at + i];
    } else {
      assert b[at..][..|str|] == str;
    }
  }

  // t over the bytes of b from at on
  ghost function Overwritten(b: seq<bv8>, at: nat, t: seq<bv8>): seq<bv8>
    requires at + |t| <= |b|
  {
    b[..at] + t + b[at + |t|..]
  }

  // one byte of memory
  method PutByte(mem: array<bv32>, at: nat, x: bv8)
    requires at < 4 * mem.Length
    modifies mem
    ensures BytesOf(mem[..]) == old(BytesOf(mem[..]))[at := x]
  {
    hide Byte, SetByte;
    ghost var s := mem[..];
    mem[at / 4] := SetByte(mem[at / 4], at % 4, x);
    OneByte(s, at, x);
  }

  lemma OneByte(s: seq<bv32>, at: nat, x: bv8)
    requires at < 4 * |s|
    ensures BytesOf(s[at / 4 := SetByte(s[at / 4], at % 4, x)]) == BytesOf(s)[at := x]
  {
    hide Byte, SetByte;
    var t := s[at / 4 := SetByte(s[at / 4], at % 4, x)];
    forall i | 0 <= i < 4 * |s| ensures BytesOf(t)[i] == BytesOf(s)[at := x][i] {
      SetByteBytes(s[at / 4], at % 4, x, i % 4);
      if i / 4 == at / 4 && i % 4 == at % 4 {
        assert i == at;
      }
    }
  }

  // strcpy(mem + at, str), with its terminator
  method Strcpy(mem: array<bv32>, at: nat, str: seq<bv8>)
    requires at + |str| < 4 * mem.Length
    modifies mem
    ensures BytesOf(mem[..]) == Overwritten(old(BytesOf(mem[..])), at, str + [0])
  {
    ghost var b := BytesOf(mem[..]);
    var i := 0;
    assert Overwritten(b, at, str[..0]) == b;
    while i < |str|
      invariant 0 <= i <= |str| && BytesOf(mem[..]) == Overwritten(b, at, str[..i])
    {
      PutByte(mem, at + i, str[i]);
      OneMore(b, at, str[..i], str[i]);
      assert str[..i] + [str[i]] == str[..i + 1];
      i := i + 1;
    }
    assert str[..|str|] == str;
    PutByte(mem, at + i, 0);
    OneMore(b, at, str, 0);
  }

  lemma OneMore(b: seq<bv8>, at: nat, t: seq<bv8>, x: bv8)
    requires at + |t| < |b|
    ensures Overwritten(b, at, t)[at + |t| := x] == Overwritten(b, at, t + [x])
  {
  }

  // ----- hart_filter_done -----

  // struct hart_filter; status is the word where the value of the property starts
  datatype HartFilter = HartFilter(compat: bool, hart: int, status: Option<nat>, mask: bv64)

  // what hart_filter_done does: nothing, stop on an assertion, leave the status, or mask it
  datatype Outcome = Skipped | Stopped | Kept | Masked

  const OKAY: seq<bv8> := [0x6f, 0x6b, 0x61, 0x79]
  const MASKED: seq<bv8> := [0x6d, 0x61, 0x73, 0x6b, 0x65, 0x64]

  lemma OkayString()
    ensures OKAY == Ascii("okay")
  {
  }

  lemma MaskedString()
    ensures MASKED == Ascii("masked")
  {
  }

  // the same in words; "ed" and the terminator leave the fourth byte of x
  const OKAY_WORD: bv32 := 0x7961_6b6f
  const MASK_WORD: bv32 := 0x6b73_616d
  function EdOver(x: bv32): bv32 { (x & 0xFF00_0000) | 0x0000_6465 }

  // the block with "masked" and the length 7 at the property whose value starts at word v
  ghost function Renamed(s: seq<bv32>, v: nat): seq<bv32>
    requires 2 <= v && v + 1 < |s|
  {
    s[v := MASK_WORD][v + 1 := EdOver(s[v + 1])][v - 2 := Bswap(7)]
  }

  lemma StatusBytes(x: bv32)
    ensures Byte(MASK_WORD, 0) == 0x6d && Byte(MASK_WORD, 1) == 0x61
    ensures Byte(MASK_WORD, 2) == 0x73 && Byte(MASK_WORD, 3) == 0x6b
    ensures Byte(EdOver(x), 0) == 0x65 && Byte(EdOver(x), 1) == 0x64
    ensures Byte(EdOver(x), 2) == 0 && Byte(EdOver(x), 3) == Byte(x, 3)
  {
  }

  // the seven bytes of the string are the two words
  lemma MaskedBytes(s: seq<bv32>, v: nat)
    requires v + 1 < |s|
    ensures BytesOf(s[v := MASK_WORD][v + 1 := EdOver(s[v + 1])]) == Overwritten(BytesOf(s), 4 * v, MASKED + [0])
  {
    hide Byte, EdOver;
    StatusBytes(s[v + 1]);
    var t := s[v := MASK_WORD][v + 1 := EdOver(s[v + 1])];
    var b := Overwritten(BytesOf(s), 4 * v, MASKED + [0]);
    forall i | 0 <= i < 4 * |s| ensures BytesOf(t)[i] == b[i] {
      if i / 4 == v || i / 4 == v + 1 {
        MaskedByte(s, v, i);
      } else {
        assert t[i / 4] == s[i / 4];
      }
    }
  }

  lemma MaskedByte(s: seq<bv32>, v: nat, i: nat)
    requires v + 1 < |s| && 4 * v <= i < 4 * v + 8
    ensures BytesOf(s[v := MASK_WORD][v + 1 := EdOver(s[v + 1])])[i]
            == Overwritten(BytesOf(s), 4 * v, MASKED + [0])[i]
  {
    hide Byte, EdOver;
    StatusBytes(s[v + 1]);
    var k := i - 4 * v;
    var t := s[v := MASK_WORD][v + 1 := EdOver(s[v + 1])];
    assert BytesOf(t)[i] == if k < 4 then Byte(MASK_WORD, k) else Byte(EdOver(s[v + 1]), k - 4);
    if k == 7 {
      assert BytesOf(s)[i] == Byte(s[v + 1], 3);
    }
  }

  // what the rewriting means in bytes: the string is "masked", the length is 7, every other byte stays
  lemma RenamedBytes(s: seq<bv32>, v: nat)
    requires 2 <= v && v + 1 < |s|
    ensures Str(BytesOf(Renamed(s, v))[4 * v..]) == MASKED && Bswap(Renamed(s, v)[v - 2]) == 7
    ensures forall i :: 0 <= i < 4 * |s| && i / 4 != v - 2 && !(4 * v <= i < 4 * v + 7)
                ==> BytesOf(Renamed(s, v))[i] == BytesOf(s)[i]
  {
    hide Byte, EdOver, Str, Bswap, Overwritten;
    BswapTwice(7);
    var t := s[v := MASK_WORD][v + 1 := EdOver(s[v + 1])];
    var b := BytesOf(Renamed(s, v));
    assert forall i :: 0 <= i < 4 * |s| && i / 4 != v - 2 ==> b[i] == BytesOf(t)[i];
    MaskedBytes(s, v);
    hide BytesOf;
    StringAt(BytesOf(s), b, 4 * v);
  }

  // b shows the string where c is overwritten with it
  lemma StringAt(c: seq<bv8>, b: seq<bv8>, at: nat)
    requires |c| == |b| && at + 7 <= |b| && at >= 8
    requires forall i :: 0 <= i < |b| && i / 4 != at / 4 - 2 ==> b[i] == Overwritten(c, at, MASKED + [0])[i]
    ensures Str(b[at..]) == MASKED
    ensures forall i :: 0 <= i < |b| && i / 4 != at / 4 - 2 && !(at <= i < at + 7) ==> b[i] == c[i]
  {
    hide Str;
    StrIs(b[at..], MASKED);
    assert forall k :: 0 <= k < 7 ==> b[at..][k] == Overwritten(c, at, MASKED + [0])[at + k] == (MASKED + [0])[k];
    assert b[at..][..6] == MASKED;
  }

  // hart_filter_done: the status "okay" of a hart in the mask becomes "masked"
  method HartFilterDone(filter: HartFilter, mem: array<bv32>) returns (r: Outcome)
    requires filter.hart < 64
    requires filter.status.Some? ==> 2 <= filter.status.value && filter.status.value + 1 < mem.Length
    modifies mem
    ensures r == Skipped <==> !filter.compat
    ensures r == Stopped <==> filter.compat && (filter.status.None? || filter.hart < 0)
    ensures r == Masked
      <==> (filter.compat && filter.status.Some? && filter.hart >= 0 && (filter.mask >> filter.hart) & 1 == 1
            && Str(old(BytesOf(mem[..]))[4 * filter.status.value..]) == OKAY)
    ensures r != Masked ==> mem[..] == old(mem[..])
    ensures r == Masked ==> var v := filter.status.value;
      && mem[..] == Renamed(old(mem[..]), v)
      && Str(BytesOf(mem[..])[4 * v..]) == MASKED && Bswap(mem[v - 2]) == 7
      && forall i :: 0 <= i < 4 * mem.Length && i / 4 != v - 2 && !(4 * v <= i < 4 * v + 7)
             ==> BytesOf(mem[..])[i] == old(BytesOf(mem[..]))[i]
  {
    hide BytesOf, Str, EdOver, Overwritten, Bswap;
    if !filter.compat {
      return Skipped;
    }
    if filter.status.None? || filter.hart < 0 {
      return Stopped;
    }
    r := Kept;
    var v := filter.status.value;
    if (filter.mask >> filter.hart) & 1 == 1 {
      var okay := Strcmp(mem, 4 * v, OKAY);
      if okay {
        r := Masked;
        ghost var s := mem[..];
        MaskedBytes(s, v);
        Strcpy(mem, 4 * v, MASKED);
        SameWords(mem[..], s[v := MASK_WORD][v + 1 := EdOver(s[v + 1])]);
        mem[v - 2] := Bswap(7);
        RenamedBytes(s, v);
      }
    }
  }

  // ----- what a scan reports of a node's properties -----

  // the properties reported, and the place of the first word that is neither a property nor a NOP
  datatype Report = Report(events: seq<Event>, end: nat)

  // events first, then another report
  ghost function Then(events: seq<Event>, r: Report): Report { Report(events + r.events, r.end) }

  lemma ThenSame(events: seq<Event>, a: Report, b: Report)
    ensures Then(events, a) == Then(events, b) <==> a == b
  {
    var n := |events|;
    assert (events + a.events)[n..] == a.events && (events + b.events)[n..] == b.events;
  }

  lemma ThenThen(x: seq<Event>, y: seq<Event>, r: Report)
    ensures Then(x, Then(y, r)) == Then(x + y, r) && Then([], r) == r
  {
    assert x + (y + r.events) == x + y + r.events;
    assert [] + r.events == r.events;
  }

  // the words that a property at place at has behind its name
  ghost function ValueSize(s: seq<bv32>, at: nat): nat
    requires at + 1 < |s|
  {
    ValueWords(Bswap(s[at + 1]))
  }

  // a whole property stands at this place
  ghost predicate PropHere(s: seq<bv32>, at: nat) {
    && at + 2 < |s| && Bswap(s[at]) == FDT_PROP
    && Bswap(s[at + 1]) <= MAX_LEN && at + 3 + ValueSize(s, at) <= |s|
  }

  ghost function PropOf(s: seq<bv32>, at: nat): Prop
    requires PropHere(s, at)
  {
    Prop(Bswap(s[at + 2]), Bswap(s[at + 1]), s[at + 3..at + 3 + ValueSize(s, at)])
  }

  // the loop of fdt_scan_helper on any words, up to the first child or the end
  ghost function Read(s: seq<bv32>, at: nat): (r: Report)
    decreases |s| - at
  {
    if at < |s| && Bswap(s[at]) == FDT_NOP then Read(s, at + 1)
    else if PropHere(s, at) then
      Then([Property(at, PropOf(s, at))], Read(s, at + 3 + ValueSize(s, at)))
    else Report([], at)
  }

  // nothing is reported of what lies behind the cursor
  lemma {:induction false} ReadsAhead(s: seq<bv32>, at: nat)
    ensures Read(s, at).end >= at && forall i :: 0 <= i < |Read(s, at).events| ==> Read(s, at).events[i].at >= at
    decreases |s| - at
  {
    hide Bswap, PropOf;
    if at < |s| && Bswap(s[at]) == FDT_NOP {
      ReadsAhead(s, at + 1);
    } else if PropHere(s, at) {
      ReadsAhead(s, at + 3 + ValueSize(s, at));
    }
  }

  ghost predicate AllNops(s: seq<bv32>, lo: nat, hi: nat) {
    hi <= |s| && forall j :: lo <= j < hi ==> s[j] == Bswap(FDT_NOP)
  }

  // Two places of a block give the same report exactly when only NOPs lie between them.
  lemma {:induction false} SameReport(s: seq<bv32>, lo: nat, hi: nat)
    requires lo <= hi <= |s|
    ensures Read(s, lo) == Read(s, hi) <==> AllNops(s, lo, hi)
    decreases hi - lo
  {
    hide Bswap, PropOf;
    if lo < hi {
      NopWord(s[lo]);
      ReadsAhead(s, hi);
      if Bswap(s[lo]) == FDT_NOP {
        SameReport(s, lo + 1, hi);
      } else if PropHere(s, lo) {
        assert Read(s, lo).events[0].at == lo;
      } else {
        assert Read(s, lo).end == lo;
      }
    }
  }

  lemma NopWord(x: bv32)
    ensures Bswap(x) == FDT_NOP <==> x == Bswap(FDT_NOP)
  {
    BswapTwice(x);
    BswapTwice(FDT_NOP);
  }

  // the report depends on the words ahead only
  lemma {:induction false} ReadSame(s: seq<bv32>, t: seq<bv32>, at: nat)
    requires |s| == |t| && forall j :: at <= j < |s| ==> s[j] == t[j]
    ensures Read(s, at) == Read(t, at)
    decreases |s| - at
  {
    hide Bswap;
    if at < |s| && Bswap(s[at]) == FDT_NOP {
      ReadSame(s, t, at + 1);
    } else if PropHere(s, at) {
      assert PropOf(s, at) == PropOf(t, at);
      ReadSame(s, t, at + 3 + ValueSize(s, at));
    }
  }

  // ----- the masked property in the token stream -----

  // The next token is found behind two value words now: the words between there and where it was are NOPs.
  ghost predicate Slack(s: seq<bv32>, v: nat, n: nat) {
    if n < 2 then AllNops(s, v + n, v + 2) else AllNops(s, v + 2, v + n)
  }

  // the property q that the rewritten words spell, where x was the second word
  ghost function MaskedProp(q: Prop, x: bv32): Prop {
    Prop(q.name, 7, [MASK_WORD, EdOver(x)])
  }

  // Everything behind the rewritten property is reported as before if and only if the slack is NOPs.
  lemma MaskedReads(s: seq<bv32>, at: nat)
    requires PropHere(s, at) && at + 4 < |s|
    ensures var next := Read(s, at + 3 + ValueSize(s, at));
            Read(s, at) == Then([Property(at, PropOf(s, at))], next)
            && (Read(Renamed(s, at + 3), at) == Then([Property(at, MaskedProp(PropOf(s, at), s[at + 4]))], next)
                <==> Slack(s, at + 3, ValueSize(s, at)))
  {
    hide Bswap, EdOver, Read, ValueWords, Then, Slack;
    RenamedProp(s, at);
    var n, t := ValueSize(s, at), Renamed(s, at + 3);
    AheadSame(s, t, at + 3, n);
    hide PropHere, PropOf, MaskedProp, Renamed, ValueSize;
    ThenSame([Property(at, MaskedProp(PropOf(s, at), s[at + 4]))], Read(t, at + 5), Read(s, at + 3 + n));
  }

  lemma AheadSame(s: seq<bv32>, t: seq<bv32>, v: nat, n: nat)
    requires v + 2 <= |s| == |t| && v + n <= |s| && forall j :: v + 2 <= j < |s| ==> t[j] == s[j]
    ensures Read(t, v + 2) == Read(s, v + n) <==> Slack(s, v, n)
  {
    hide Bswap, Read, AllNops;
    ReadSame(s, t, v + 2);
    if n < 2 {
      SameReport(s, v + n, v + 2);
    } else {
      SameReport(s, v + 2, v + n);
    }
  }

  lemma RenamedProp(s: seq<bv32>, at: nat)
    requires PropHere(s, at) && at + 4 < |s|
    ensures at + 3 + ValueSize(s, at) <= |s| && |Renamed(s, at + 3)| == |s|
    ensures Read(s, at) == Then([Property(at, PropOf(s, at))], Read(s, at + 3 + ValueSize(s, at)))
    ensures forall j :: at + 5 <= j < |s| ==> Renamed(s, at + 3)[j] == s[j]
    ensures Read(Renamed(s, at + 3), at)
         == Then([Property(at, MaskedProp(PropOf(s, at), s[at + 4]))], Read(Renamed(s, at + 3), at + 5))
  {
    hide Bswap, EdOver, Then;
    BswapTwice(7);
    var t := Renamed(s, at + 3);
    assert FDT_PROP != FDT_NOP;
    assert t[at] == s[at] && t[at + 2] == s[at + 2] && ValueSize(t, at) == 2;
    assert t[at + 3..at + 5] == [MASK_WORD, EdOver(s[at + 4])];
  }

  // ----- serialised bodies -----

  lemma PropertyHere(s: seq<bv32>, pre: seq<bv32>, q: Prop, rest: seq<bv32>)
    requires Layout(s, pre, PropWords(PropAt(q)), rest) && IsProp(q)
    ensures PropHere(s, |pre|) && PropOf(s, |pre|) == q && ValueSize(s, |pre|) == |q.value|
  {
    BswapTwice(FDT_PROP);
    BswapTwice(q.len);
    BswapTwice(q.name);
    hide Bswap, Layout, PropWords, ValueWords;
    PropFields(s, q, pre, rest);
  }

  // Properties and NOPs in front are reported, and the scan goes on behind them.
  lemma {:induction false} ReadFront(s: seq<bv32>, pre: seq<bv32>, ps: seq<PropItem>, rest: seq<bv32>)
    requires Layout(s, pre, PropsWords(ps), rest) && AreProps(ps)
    ensures Read(s, |pre|) == Then(PropsTrace(|pre|, ps), Read(s, |pre| + |PropsWords(ps)|))
    decreases ps
  {
    hide Bswap, PropOf, IsProp, Read, Then, Layout, PropWords;
    if |ps| == 0 {
      ThenThen([], [], Read(s, |pre|));
    } else {
      var w, next := PropWords(ps[0]), Read(s, |pre| + |PropsWords(ps)|);
      LayoutSplit(s, pre, w, PropsWords(ps[1..]), rest);
      ReadFront(s, pre + w, ps[1..], rest);
      ReadItem(s, pre, ps[0], PropsWords(ps[1..]) + rest);
      var head := if ps[0].PropAt? then [Property(|pre|, ps[0].prop)] else [];
      ThenThen(head, PropsTrace(|pre| + |w|, ps[1..]), next);
    }
  }

  lemma ReadItem(s: seq<bv32>, pre: seq<bv32>, p: PropItem, rest: seq<bv32>)
    requires Layout(s, pre, PropWords(p), rest) && (p.PropAt? ==> IsProp(p.prop))
    ensures var head := if p.PropAt? then [Property(|pre|, p.prop)] else [];
            Read(s, |pre|) == Then(head, Read(s, |pre| + |PropWords(p)|))
  {
    hide Bswap, Then;
    BswapTwice(FDT_NOP);
    match p
    case PropGap =>
      assert s[|pre|] == PropWords(p)[0];
      ThenThen([], [], Read(s, |pre| + 1));
    case PropAt(q) =>
      PropertyHere(s, pre, q, rest);
      hide PropOf, IsProp, PropWords, Layout;
      assert |PropWords(p)| == 3 + |q.value| by { PropLength(q); }
  }

  lemma PropLength(q: Prop)
    ensures |PropWords(PropAt(q))| == 3 + |q.value|
  {
  }

  // the number of NOPs before the first child or the end
  ghost function Lead(k: Kids): nat { if k.Gap? then 1 + Lead(k.rest) else 0 }

  lemma {:induction false} ReadLead(s: seq<bv32>, pre: seq<bv32>, k: Kids, post: seq<bv32>)
    requires Layout(s, pre, KidsWords(k), post) && |post| > 0 && Ends(post[0])
    ensures Read(s, |pre|) == Report([], |pre| + Lead(k))
    decreases k
  {
    hide Bswap, PropOf, TreeWords;
    BswapTwice(FDT_NOP);
    BswapTwice(FDT_BEGIN_NODE);
    match k
    case End =>
      assert s[|pre|] == post[0];
    case Gap(r) =>
      assert s[|pre|] == KidsWords(k)[0];
      LayoutSplit(s, pre, [Bswap(FDT_NOP)], KidsWords(r), post);
      ReadLead(s, pre + [Bswap(FDT_NOP)], r, post);
    case Kid(t, r) =>
      FirstOfTree(t);
      assert s[|pre|] == KidsWords(k)[0];
  }

  lemma FirstOfTree(t: Tree)
    ensures TreeWords(t)[0] == Bswap(FDT_BEGIN_NODE)
  {
    hide Bswap;
  }

  // On a serialised body the report is the trace of its properties.
  lemma ReadBody(s: seq<bv32>, pre: seq<bv32>, ps: seq<PropItem>, k: Kids, post: seq<bv32>)
    requires Layout(s, pre, BodyWords(ps, k), post) && AreProps(ps) && |post| > 0 && Ends(post[0])
    ensures Read(s, |pre|) == Report(PropsTrace(|pre|, ps), |pre| + |PropsWords(ps)| + Lead(k))
  {
    hide Bswap, Read, PropsWords, KidsWords, PropsTrace, Layout;
    LayoutSplit(s, pre, PropsWords(ps), KidsWords(k), post);
    ReadFront(s, pre, ps, KidsWords(k) + post);
    ReadLead(s, pre + PropsWords(ps), k, post);
    assert PropsTrace(|pre|, ps) + [] == PropsTrace(|pre|, ps);
  }

  lemma {:induction false} PropsWordsAppend(a: seq<PropItem>, b: seq<PropItem>)
    ensures PropsWords(a + b) == PropsWords(a) + PropsWords(b)
  {
    hide PropWords;
    if |a| == 0 {
      assert a + b == b;
    } else {
      assert (a + b)[1..] == a[1..] + b;
      PropsWordsAppend(a[1..], b);
    }
  }

  // the parts of a body around one property
  lemma BodyAround(s: seq<bv32>, pre: seq<bv32>, front: seq<PropItem>, q: Prop, back: seq<PropItem>, k: Kids,
                   post: seq<bv32>)
    requires Layout(s, pre, BodyWords(front + [PropAt(q)] + back, k), post)
    ensures Layout(s, pre, PropsWords(front), PropWords(PropAt(q)) + (BodyWords(back, k) + post))
    ensures Layout(s, pre + PropsWords(front), PropWords(PropAt(q)), BodyWords(back, k) + post)
    ensures Layout(s, pre + PropsWords(front) + PropWords(PropAt(q)), BodyWords(back, k), post)
  {
    PropsWordsAppend(front + [PropAt(q)], back);
    PropsWordsAppend(front, [PropAt(q)]);
    OneItem(PropAt(q));
    hide PropWords, KidsWords, PropsWords;
    Around(pre, PropsWords(front), PropWords(PropAt(q)), PropsWords(back), KidsWords(k), post);
  }

  lemma Around(pre: seq<bv32>, f: seq<bv32>, w: seq<bv32>, b: seq<bv32>, c: seq<bv32>, post: seq<bv32>)
    ensures pre + (f + w + b + c) + post == pre + f + (w + ((b + c) + post))
    ensures pre + (f + w + b + c) + post == (pre + f) + w + ((b + c) + post)
    ensures pre + (f + w + b + c) + post == (pre + f + w) + (b + c) + post
  {
  }

  lemma OneItem(p: PropItem)
    ensures PropsWords([p]) == PropWords(p)
  {
    hide PropWords;
    assert PropsWords([p]) == PropWords(p) + PropsWords([]);
  }

  // The status q of a node is rewritten in place: the scan of the node reports the masked status and all
  // other properties as before, and ends where it did, if and only if the slack of the value is NOPs.
  lemma MaskedBody(s: seq<bv32>, pre: seq<bv32>, front: seq<PropItem>, q: Prop, back: seq<PropItem>, k: Kids,
                   post: seq<bv32>, at: nat)
    requires Layout(s, pre, BodyWords(front + [PropAt(q)] + back, k), post) && |post| > 0 && Ends(post[0])
    requires AreProps(front) && IsProp(q) && AreProps(back) && at == |pre| + |PropsWords(front)| && at + 4 < |s|
    ensures var next := at + 3 + |q.value|;
            var rest := Report(PropsTrace(next, back), next + |PropsWords(back)| + Lead(k));
            && Read(s, |pre|) == Then(PropsTrace(|pre|, front) + [Property(at, q)], rest)
            && (Read(Renamed(s, at + 3), |pre|)
                == Then(PropsTrace(|pre|, front) + [Property(at, MaskedProp(q, s[at + 4]))], rest)
                <==> Slack(s, at + 3, |q.value|))
  {
    hide Bswap, Read, Then, Slack, Layout, BodyWords, PropWords, PropsWords, PropsTrace, ValueWords, IsProp, Renamed,
         MaskedProp, Ends;
    hide Lead, AreProps;
    PropParts(s, pre, front, q, back, k, post, at);
    assert Layout(s, pre, PropsWords(front), PropWords(PropAt(q)) + (BodyWords(back, k) + post)) by {
      BodyAround(s, pre, front, q, back, k, post);
    }
    MaskedFront(s, pre, front, PropWords(PropAt(q)) + (BodyWords(back, k) + post), at);
    FrontThen(PropsTrace(|pre|, front), Property(at, q), Property(at, MaskedProp(q, s[at + 4])),
              Read(s, at + 3 + |q.value|), Read(s, at), Read(Renamed(s, at + 3), at));
  }

  // the property and what is read behind it
  lemma PropParts(s: seq<bv32>, pre: seq<bv32>, front: seq<PropItem>, q: Prop, back: seq<PropItem>, k: Kids,
                  post: seq<bv32>, at: nat)
    requires Layout(s, pre, BodyWords(front + [PropAt(q)] + back, k), post) && |post| > 0 && Ends(post[0])
    requires IsProp(q) && AreProps(back) && at == |pre| + |PropsWords(front)|
    ensures at + 4 < |s| ==> RewrittenReads(s, at, q)
    ensures var next := at + 3 + |q.value|;
            Read(s, next) == Report(PropsTrace(next, back), next + |PropsWords(back)| + Lead(k))
  {
    hide Bswap, Read, Layout, BodyWords, PropWords, PropsWords, PropsTrace, ValueWords, IsProp, Ends;
    BodyAround(s, pre, front, q, back, k, post);
    PropLength(q);
    PropertyHere(s, pre + PropsWords(front), q, BodyWords(back, k) + post);
    hide PropHere, PropOf, ValueSize;
    ReadBody(s, pre + PropsWords(front) + PropWords(PropAt(q)), back, k, post);
    if at + 4 < |s| {
      MaskedReads(s, at);
    }
  }

  // reading q and its rewriting at this place
  ghost predicate RewrittenReads(s: seq<bv32>, at: nat, q: Prop)
    requires at + 4 < |s|
  {
    var next := Read(s, at + 3 + |q.value|);
    && Read(s, at) == Then([Property(at, q)], next)
    && (Read(Renamed(s, at + 3), at) == Then([Property(at, MaskedProp(q, s[at + 4]))], next)
        <==> Slack(s, at + 3, |q.value|))
  }

  // the properties in front of the rewritten one
  lemma MaskedFront(s: seq<bv32>, pre: seq<bv32>, front: seq<PropItem>, rest: seq<bv32>, at: nat)
    requires Layout(s, pre, PropsWords(front), rest) && AreProps(front)
    requires at == |pre| + |PropsWords(front)| && at + 4 < |s|
    ensures Read(s, |pre|) == Then(PropsTrace(|pre|, front), Read(s, at))
    ensures Read(Renamed(s, at + 3), |pre|) == Then(PropsTrace(|pre|, front), Read(Renamed(s, at + 3), at))
  {
    hide Bswap, Read, Then, PropsWords, PropsTrace, Layout, AreProps;
    var t := Renamed(s, at + 3);
    ReadFront(s, pre, front, rest);
    SameFront(s, t, pre, PropsWords(front), rest);
    ReadFront(t, pre, front, t[at..]);
  }

  lemma SameFront(s: seq<bv32>, t: seq<bv32>, pre: seq<bv32>, mid: seq<bv32>, post: seq<bv32>)
    requires Layout(s, pre, mid, post) && |t| == |s| && forall j :: 0 <= j < |pre| + |mid| ==> t[j] == s[j]
    ensures Layout(t, pre, mid, t[|pre| + |mid|..])
  {
    assert t[..|pre| + |mid|] == pre + mid;
  }

  lemma FrontThen(f: seq<Event>, e: Event, e': Event, rest: Report, a: Report, b: Report)
    requires a == Then([e], rest)
    ensures Then(f, a) == Then(f + [e], rest)
    ensures Then(f, b) == Then(f + [e'], rest) <==> b == Then([e'], rest)
  {
    hide Then;
    ThenThen(f, [e], rest);
    ThenThen(f, [e'], rest);
    ThenSame(f, b, Then([e'], rest));
  }

  // The slack, on the value: its words behind the second are NOPs, and what a shorter value is short of two
  // words is made up of NOP tokens behind it.
  lemma SlackOfValue(s: seq<bv32>, pre: seq<bv32>, q: Prop, rest: seq<bv32>)
    requires Layout(s, pre, PropWords(PropAt(q)), rest) && |q.value| > 0
    ensures Slack(s, |pre| + 3, |q.value|)
            <==> if |q.value| == 1 then |rest| > 0 && rest[0] == Bswap(FDT_NOP)
                 else forall j :: 2 <= j < |q.value| ==> q.value[j] == Bswap(FDT_NOP)
  {
    hide Bswap;
    var v, n := |pre| + 3, |q.value|;
    PropFields(s, q, pre, rest);
    PropLength(q);
    assert forall j :: 0 <= j < |rest| ==> s[|pre| + 3 + n + j] == rest[j];
    hide Layout, PropWords;
    if n == 1 {
      assert |rest| > 0 ==> s[v + 1] == rest[0];
    } else {
      assert forall j :: 0 <= j < n ==> q.value[j] == s[v..v + n][j];
      assert forall j :: 2 <= j < n ==> q.value[j] == s[v + j];
    }
  }

  // n NOPs as items
  ghost function PropGaps(n: nat): seq<PropItem> { seq(n, _ => PropGap) }

  lemma {:induction false} PropGapsWords(w: seq<bv32>)
    requires forall j :: 0 <= j < |w| ==> w[j] == Bswap(FDT_NOP)
    ensures PropsWords(PropGaps(|w|)) == w
  {
    hide Bswap;
    if |w| > 0 {
      PropGapsWords(w[1..]);
      assert PropGaps(|w|)[1..] == PropGaps(|w[1..]|);
    }
  }

  // A value of two words or more whose other words are NOPs is rewritten to a property and NOPs: the block
  // is a serialised body again, and the scanner's theorem applies to it.
  lemma MaskedItem(s: seq<bv32>, pre: seq<bv32>, q: Prop, rest: seq<bv32>)
    requires Layout(s, pre, PropWords(PropAt(q)), rest) && IsProp(q) && |q.value| >= 2
    requires forall j :: 2 <= j < |q.value| ==> q.value[j] == Bswap(FDT_NOP)
    ensures var items := [PropAt(MaskedProp(q, q.value[1]))] + PropGaps(|q.value| - 2);
            AreProps(items) && |s| >= |pre| + 5 && Layout(Renamed(s, |pre| + 3), pre, PropsWords(items), rest)
  {
    hide Bswap, EdOver, PropsWords, PropWords, Renamed;
    var m, n := MaskedProp(q, q.value[1]), |q.value|;
    RenamedWords(s, pre, q, rest);
    PropGapsWords(q.value[2..]);
    PropsWordsAppend([PropAt(m)], PropGaps(n - 2));
    OneItem(PropAt(m));
  }

  lemma RenamedWords(s: seq<bv32>, pre: seq<bv32>, q: Prop, rest: seq<bv32>)
    requires Layout(s, pre, PropWords(PropAt(q)), rest) && |q.value| >= 2
    ensures |s| >= |pre| + 5
    ensures Renamed(s, |pre| + 3) == pre + (PropWords(PropAt(MaskedProp(q, q.value[1]))) + q.value[2..]) + rest
  {
    hide Bswap, EdOver;
    var w, n, v := PropWords(PropAt(q)), |q.value|, |pre| + 3;
    assert s == pre + w + rest;
    assert s[v + 1] == w[4] == q.value[1];
    var t := Renamed(s, v);
    var u := PropWords(PropAt(MaskedProp(q, q.value[1]))) + q.value[2..];
    forall i | 0 <= i < |s| ensures t[i] == (pre + u + rest)[i] {
      if |pre| <= i < |pre| + 3 + n {
        assert s[i] == w[i - |pre|];
      }
    }
  }

  // A value of four bytes without a terminator: the next token's first byte ends the string, so that the
  // status is masked, and the token is overwritten; the scan does not end where it did.
  lemma FourByteStatus()
    ensures var s := [Bswap(FDT_PROP), Bswap(4), 0, OKAY_WORD, Bswap(FDT_END_NODE)];
            && Str(BytesOf(s)[12..]) == OKAY
            && Read(s, 0) == Report([Property(0, Prop(0, 4, [OKAY_WORD]))], 4)
            && Read(Renamed(s, 3), 0).end == 5
  {
    var s := [Bswap(FDT_PROP), Bswap(4), 0, OKAY_WORD, Bswap(FDT_END_NODE)];
    StrIs(BytesOf(s)[12..], OKAY);
    assert BytesOf(s)[12..][..4] == OKAY;
    assert s[3..4] == [OKAY_WORD];
  }

  // A value of twelve bytes: the third word is read as a token.
  lemma TwelveByteStatus()
    ensures var s := [Bswap(FDT_PROP), Bswap(12), 0, OKAY_WORD, 0, 0, Bswap(FDT_END_NODE)];
            && Str(BytesOf(s)[12..]) == OKAY && Read(s, 0).end == 6 && Read(Renamed(s, 3), 0).end == 5
  {
    var s := [Bswap(FDT_PROP), Bswap(12), 0, OKAY_WORD, 0, 0, Bswap(FDT_END_NODE)];
    StrIs(BytesOf(s)[12..], OKAY);
    assert BytesOf(s)[12..][..4] == OKAY;
  }
}
