// The scanner of fdt.c: a recursive walk over the words of the structure block that calls back and
// overwrites deleted nodes with NOPs in place.
module FdtScan {
  import opened FdtTree

  // ----- the words of the block in parts -----

  ghost predicate Layout(s: seq<bv32>, pre: seq<bv32>, mid: seq<bv32>, post: seq<bv32>) { s == pre + mid + post }

  // ----- strlen -----

  // strlen of the string that starts at word at, byte by byte
  method Strlen(mem: array<bv32>, at: nat, ghost name: seq<bv32>) returns (n: nat)
    requires IsName(name) && at + |name| <= mem.Length && mem[at..at + |name|] == name
    ensures n / 4 == |name| - 1
  {
    hide Byte;
    n := 0;
    while Byte(mem[at + n / 4], n % 4) != 0
      invariant n / 4 < |name|
      invariant NoNul(name[n / 4], n % 4)
      decreases 4 * |name| - n
    {
      assert mem[at + n / 4] == name[n / 4];
      if n % 4 == 3 {
        WholeWord(name, n / 4);
      }
      n := n + 1;
    }
    assert mem[at + n / 4] == name[n / 4];
    NulIsLast(name, n / 4, n % 4);
  }

  // the first n bytes of a word are not terminators
  ghost predicate NoNul(w: bv32, n: nat)
    requires n <= 4
  {
    forall k :: 0 <= k < n ==> Byte(w, k) != 0
  }

  // a word without a terminator is not the last
  lemma WholeWord(name: seq<bv32>, i: nat)
    requires IsName(name) && i < |name| && NoNul(name[i], 3) && Byte(name[i], 3) != 0
    ensures i < |name| - 1
  {
    hide Byte;
  }

  // a word with a terminator is the last
  lemma NulIsLast(name: seq<bv32>, i: nat, k: nat)
    requires IsName(name) && i < |name| && k < 4 && Byte(name[i], k) == 0
    ensures i == |name| - 1
  {
    hide Byte;
    assert HasNul(name[i]);
  }

  // ----- deleting -----

  ghost function Nops(n: nat): (w: seq<bv32>)
    ensures |w| == n
  {
    seq(n, _ => Bswap(FDT_NOP))
  }

  // every word from one cursor up to the other becomes a NOP
  method Erase(mem: array<bv32>, lex0: nat, lex_next: nat, ghost pre: seq<bv32>, ghost mid: seq<bv32>,
      ghost post: seq<bv32>)
    requires lex0 == |pre| && lex_next == lex0 + |mid| && Layout(mem[..], pre, mid, post)
    modifies mem
    ensures Layout(mem[..], pre, Nops(|mid|), post)
  {
    hide Bswap;
    var lex := lex0;
    assert mid == Nops(0) + mid[0..];
    while lex != lex_next
      invariant lex0 <= lex <= lex_next <= mem.Length
      invariant mem[..] == pre + (Nops(lex - lex0) + mid[lex - lex0..]) + post
    {
      ghost var s := mem[..];
      mem[lex] := Bswap(FDT_NOP);
      OneNop(s, pre, mid, post, lex - lex0);
      lex := lex + 1;
    }
    assert Nops(|mid|) + mid[|mid|..] == Nops(|mid|);
  }

  lemma OneNop(s: seq<bv32>, pre: seq<bv32>, mid: seq<bv32>, post: seq<bv32>, n: nat)
    requires n < |mid| && s == pre + (Nops(n) + mid[n..]) + post
    ensures s[|pre| + n := Bswap(FDT_NOP)] == pre + (Nops(n + 1) + mid[n + 1..]) + post
  {
    hide Bswap;
    var t, u := s[|pre| + n := Bswap(FDT_NOP)], pre + (Nops(n + 1) + mid[n + 1..]) + post;
    forall i | 0 <= i < |s| ensures t[i] == u[i] {
      if |pre| <= i < |pre| + |mid| {
        assert s[i] == (Nops(n) + mid[n..])[i - |pre|];
      }
    }
  }

  // ----- properties -----

  // the fields of the property at lex
  method ReadProp(mem: array<bv32>, lex: nat, ghost q: Prop, ghost pre: seq<bv32>, ghost rest: seq<bv32>)
      returns (prop: Prop, next: nat)
    requires IsProp(q) && lex == |pre| && Layout(mem[..], pre, PropWords(PropAt(q)), rest)
    ensures prop == q && next == lex + |PropWords(PropAt(q))| <= mem.Length
  {
    hide Bswap;
    BswapTwice(q.name);
    BswapTwice(q.len);
    PropFields(mem[..], q, pre, rest);
    var name, len := Bswap(mem[lex + 2]), Bswap(mem[lex + 1]);
    next := lex + 3 + ValueWords(len);
    prop := Prop(name, len, mem[lex + 3..next]);
  }

  lemma PropFields(s: seq<bv32>, q: Prop, pre: seq<bv32>, rest: seq<bv32>)
    requires Layout(s, pre, PropWords(PropAt(q)), rest)
    ensures |s| == |pre| + 3 + |q.value| + |rest|
    ensures s[|pre|] == Bswap(FDT_PROP) && s[|pre| + 1] == Bswap(q.len) && s[|pre| + 2] == Bswap(q.name)
        && s[|pre| + 3..|pre| + 3 + |q.value|] == q.value
  {
    hide Bswap;
    var w := PropWords(PropAt(q));
    assert s[|pre|] == w[0] && s[|pre| + 1] == w[1] && s[|pre| + 2] == w[2];
    assert s[|pre| + 3..|pre| + 3 + |q.value|] == w[3..];
  }

  // ----- the walk -----

  // the scan of a body ends at this word: it is neither a NOP, nor a property, nor the start of a node
  predicate Ends(x: bv32) { Bswap(x) != FDT_NOP && Bswap(x) != FDT_PROP && Bswap(x) != FDT_BEGIN_NODE }

  ghost function BodyWords(ps: seq<PropItem>, k: Kids): seq<bv32> { PropsWords(ps) + KidsWords(k) }

  // The rest of a scan, at the place at with the properties p and the children k ahead and the words
  // done behind, comes to the result w with the words out.
  ghost predicate Coming<S>(cb: Callbacks<S>, due: Option<nat>, at: nat, p: seq<PropItem>, k: Kids, s: S,
                            done: seq<bv32>, w: Walked<S>, out: seq<bv32>) {
    var v := WalkBody(cb, due, at, p, k, s);
    v.s == w.s && done + BodyWords(p, v.kids) == out
  }

  lemma ComingProp<S>(cb: Callbacks<S>, due: Option<nat>, at: nat, p: seq<PropItem>, k: Kids, s: S,
                      done: seq<bv32>, w: Walked<S>, out: seq<bv32>)
    requires |p| > 0 && Coming(cb, due, at, p, k, s, done, w, out)
    ensures var s' := if p[0].PropAt? then cb.prop(s, at, p[0].prop) else s;
            Coming(cb, due, at + |PropWords(p[0])|, p[1..], k, s', done + PropWords(p[0]), w, out)
  {
    hide PropWords, KidsWords, WalkKids;
    var v := WalkBody(cb, due, at, p, k, s);
    var x, y := PropsWords(p[1..]), KidsWords(v.kids);
    assert PropsWords(p) == PropWords(p[0]) + x;
    hide PropsWords;
    Joint(done, PropWords(p[0]), x, y);
  }

  lemma Joint(done: seq<bv32>, w: seq<bv32>, x: seq<bv32>, y: seq<bv32>)
    ensures done + (w + x + y) == (done + w) + (x + y)
  {
  }

  lemma ComingGap<S>(cb: Callbacks<S>, due: Option<nat>, at: nat, k: Kids, s: S, done: seq<bv32>, w: Walked<S>,
      out: seq<bv32>)
    requires k.Gap? && Coming(cb, due, at, [], k, s, done, w, out)
    ensures Coming(cb, due, at + 1, [], k.rest, s, done + [Bswap(FDT_NOP)], w, out)
  {
    hide Bswap;
    var s1 := if due.Some? then cb.done(s, due.value) else s;
    NoProps(cb, due, at, k, s);
    NoProps(cb, due, at + 1, k.rest, s);
    var v := WalkKids(cb, at + 1, k.rest, s1);
    var y := KidsWords(v.kids);
    assert KidsWords(Gap(v.kids)) == [Bswap(FDT_NOP)] + y;
    assert done + ([] + ([Bswap(FDT_NOP)] + y)) == (done + [Bswap(FDT_NOP)]) + ([] + y);
  }

  lemma NoProps<S>(cb: Callbacks<S>, due: Option<nat>, at: nat, k: Kids, s: S)
    ensures WalkBody(cb, due, at, [], k, s) == WalkKids(cb, at, k, if due.Some? then cb.done(s, due.value) else s)
  {
    hide WalkKids;
  }

  // the call of done, once, before the first child or the end
  lemma ComingDone<S>(cb: Callbacks<S>, due: Option<nat>, at: nat, k: Kids, s: S, done: seq<bv32>, w: Walked<S>,
      out: seq<bv32>)
    requires Coming(cb, due, at, [], k, s, done, w, out)
    ensures Coming(cb, None, at, [], k, if due.Some? then cb.done(s, due.value) else s, done, w, out)
  {
    hide KidsWords, WalkKids;
  }

  // what stands where the child was
  ghost function Kept(t: Tree, body: Kids, kill: bool): seq<bv32> {
    if kill then Nops(|TreeWords(t)|) else TreeWords(t.(kids := body))
  }

  lemma ComingKid<S>(cb: Callbacks<S>, at: nat, t: Tree, r: Kids, s: S, done: seq<bv32>, w: Walked<S>, out: seq<bv32>)
    requires Coming(cb, None, at, [], Kid(t, r), s, done, w, out)
    ensures var body := WalkBody(cb, Some(at + 1), at + 1 + |t.name|, t.props, t.kids, cb.open(s, at + 1));
            var closed := cb.close(body.s, at + 1);
            Coming(cb, None, at + |TreeWords(t)|, [], r, closed.0, done + Kept(t, body.kids, closed.1), w, out)
  {
    hide TreeWords, Gaps, Bswap, WalkBody, Nops;
    var body := WalkBody(cb, Some(at + 1), at + 1 + |t.name|, t.props, t.kids, cb.open(s, at + 1));
    var closed := cb.close(body.s, at + 1);
    var n := |TreeWords(t)|;
    NoProps(cb, None, at, Kid(t, r), s);
    NoProps(cb, None, at + n, r, closed.0);
    var v := WalkKids(cb, at + n, r, closed.0);
    KeptWords(t, body.kids, closed.1, v.kids);
    hide Kept, WalkKids, KidsWords;
    var x, y := Kept(t, body.kids, closed.1), KidsWords(v.kids);
    assert done + ([] + (x + y)) == (done + x) + ([] + y);
  }

  lemma KeptWords(t: Tree, body: Kids, kill: bool, r: Kids)
    ensures KidsWords(if kill then Gaps(|TreeWords(t)|, r) else Kid(t.(kids := body), r)) == Kept(t, body, kill)
        + KidsWords(r)
  {
    hide TreeWords, Bswap, Gaps;
    GapsWords(|TreeWords(t)|, r);
  }

  lemma ComingEnd<S>(cb: Callbacks<S>, at: nat, s: S, done: seq<bv32>, w: Walked<S>, out: seq<bv32>)
    requires Coming(cb, None, at, [], End, s, done, w, out)
    ensures s == w.s && done == out
  {
    assert done + ([] + []) == done;
  }

  lemma Regroup(pre: seq<bv32>, b: seq<bv32>, n: seq<bv32>, p: seq<bv32>, k: seq<bv32>, e: seq<bv32>, rest: seq<bv32>)
    ensures pre + (b + n + p + k + e) + rest == (pre + b + n) + (p + k) + (e + rest)
  {
    assert (b + n + p + k + e) == b + n + (p + k) + e;
  }

  // the parts of a serialised node
  lemma LayoutTree(s: seq<bv32>, pre: seq<bv32>, t: Tree, k: Kids, rest: seq<bv32>)
    requires Layout(s, pre, TreeWords(t.(kids := k)), rest)
    ensures Layout(s, pre + [Bswap(FDT_BEGIN_NODE)] + t.name, BodyWords(t.props, k), [Bswap(FDT_END_NODE)] + rest)
  {
    hide Bswap, PropsWords, KidsWords;
    Regroup(pre, [Bswap(FDT_BEGIN_NODE)], t.name, PropsWords(t.props), KidsWords(k), [Bswap(FDT_END_NODE)], rest);
  }

  lemma TreeLayout(s: seq<bv32>, pre: seq<bv32>, t: Tree, k: Kids, rest: seq<bv32>)
    requires Layout(s, pre + [Bswap(FDT_BEGIN_NODE)] + t.name, BodyWords(t.props, k), [Bswap(FDT_END_NODE)] + rest)
    ensures Layout(s, pre, TreeWords(t.(kids := k)), rest)
  {
    hide Bswap, PropsWords, KidsWords;
    Regroup(pre, [Bswap(FDT_BEGIN_NODE)], t.name, PropsWords(t.props), KidsWords(k), [Bswap(FDT_END_NODE)], rest);
  }

  lemma NamePlace(s: seq<bv32>, pre: seq<bv32>, name: seq<bv32>, mid: seq<bv32>, rest: seq<bv32>)
    requires Layout(s, pre + [Bswap(FDT_BEGIN_NODE)] + name, mid, rest)
    ensures |s| >= |pre| + 1 + |name| && s[|pre| + 1..|pre| + 1 + |name|] == name
  {
    hide Bswap;
  }

  lemma TreeLength(t: Tree)
    ensures |TreeWords(t)| == 2 + |t.name| + |BodyWords(t.props, t.kids)|
  {
    hide Bswap;
  }

  lemma LayoutLength(s: seq<bv32>, pre: seq<bv32>, mid: seq<bv32>, post: seq<bv32>)
    requires Layout(s, pre, mid, post)
    ensures |s| == |pre| + |mid| + |post|
  {
  }

  // x first, then y
  lemma LayoutSplit(s: seq<bv32>, pre: seq<bv32>, x: seq<bv32>, y: seq<bv32>, post: seq<bv32>)
    ensures Layout(s, pre, x + y, post) <==> Layout(s, pre, x, y + post)
    ensures Layout(s, pre, x + y, post) <==> Layout(s, pre + x, y, post)
  {
    assert pre + (x + y) + post == pre + x + (y + post) == (pre + x) + y + post;
  }

  lemma FirstWord(s: seq<bv32>, pre: seq<bv32>, mid: seq<bv32>, post: seq<bv32>)
    requires Layout(s, pre, mid, post) && |post| > 0
    ensures |s| > |pre| && s[|pre|] == if |mid| > 0 then mid[0] else post[0]
  {
  }

  lemma BodyOfProps(p: seq<PropItem>, k: Kids)
    requires |p| > 0
    ensures BodyWords(p, k) == PropWords(p[0]) + BodyWords(p[1..], k)
  {
    hide PropWords, KidsWords;
  }

  lemma BodyOfGap(r: Kids)
    ensures BodyWords([], Gap(r)) == [Bswap(FDT_NOP)] + BodyWords([], r)
  {
    hide Bswap;
  }

  lemma BodyOfKid(t: Tree, r: Kids)
    ensures BodyWords([], Kid(t, r)) == TreeWords(t) + BodyWords([], r)
  {
    hide TreeWords;
  }

  // the word that the scanner looks at
  ghost function Token(p: seq<PropItem>, k: Kids, post: seq<bv32>): bv32
    requires |post| > 0
  {
    if |p| > 0 then (if p[0].PropGap? then FDT_NOP else FDT_PROP)
    else match k
      case End => Bswap(post[0])
      case Gap(_) => FDT_NOP
      case Kid(_, _) => FDT_BEGIN_NODE
  }

  lemma TokenAt(s: seq<bv32>, pre: seq<bv32>, p: seq<PropItem>, k: Kids, post: seq<bv32>)
    requires Layout(s, pre, BodyWords(p, k), post) && |post| > 0
    ensures |s| > |pre| && Bswap(s[|pre|]) == Token(p, k, post)
  {
    BswapTwice(FDT_NOP);
    BswapTwice(FDT_PROP);
    BswapTwice(FDT_BEGIN_NODE);
    hide Bswap, Layout;
    FirstWord(s, pre, BodyWords(p, k), post);
    if |p| > 0 {
      BodyOfProps(p, k);
    } else {
      match k
      case End =>
      case Gap(r) => BodyOfGap(r);
      case Kid(t, r) => BodyOfKid(t, r);
    }
  }

  // The scan has done words behind it and p and k ahead, and comes to w and out.
  ghost predicate Scanning<S>(s: seq<bv32>, pre: seq<bv32>, done: seq<bv32>, p: seq<PropItem>, k: Kids, post: seq<bv32>,
                              cb: Callbacks<S>, due: Option<nat>, x: S, w: Walked<S>, out: seq<bv32>) {
    && AreProps(p) && AreKids(k)
    && Layout(s, pre + done, BodyWords(p, k), post)
    && Coming(cb, due, |pre| + |done|, p, k, x, done, w, out)
  }

  // past a NOP among the properties, or a property
  lemma PassProp<S>(s: seq<bv32>, pre: seq<bv32>, done: seq<bv32>, p: seq<PropItem>, k: Kids, post: seq<bv32>,
                    cb: Callbacks<S>, due: Option<nat>, x: S, w: Walked<S>, out: seq<bv32>)
    requires |p| > 0 && Scanning(s, pre, done, p, k, post, cb, due, x, w, out)
    ensures var at := |pre| + |done|;
            var x' := if p[0].PropAt? then cb.prop(x, at, p[0].prop) else x;
            Scanning(s, pre, done + PropWords(p[0]), p[1..], k, post, cb, due, x', w, out)
    ensures |BodyWords(p, k)| == |PropWords(p[0])| + |BodyWords(p[1..], k)|
    ensures Layout(s, pre + done, PropWords(p[0]), BodyWords(p[1..], k) + post)
    ensures p[0].PropAt? ==> IsProp(p[0].prop)
  {
    hide PropWords, Coming, BodyWords, Layout, IsProp;
    BodyOfProps(p, k);
    ComingProp(cb, due, |pre| + |done|, p, k, x, done, w, out);
    LayoutSplit(s, pre + done, PropWords(p[0]), BodyWords(p[1..], k), post);
    assert pre + (done + PropWords(p[0])) == (pre + done) + PropWords(p[0]);
  }

  // past a NOP among the children
  lemma PassGap<S>(s: seq<bv32>, pre: seq<bv32>, done: seq<bv32>, r: Kids, post: seq<bv32>,
                   cb: Callbacks<S>, due: Option<nat>, x: S, w: Walked<S>, out: seq<bv32>)
    requires Scanning(s, pre, done, [], Gap(r), post, cb, due, x, w, out)
    ensures Scanning(s, pre, done + [Bswap(FDT_NOP)], [], r, post, cb, due, x, w, out)
    ensures |BodyWords([], Gap(r))| == 1 + |BodyWords([], r)|
  {
    hide Coming, BodyWords, Layout, Bswap;
    BodyOfGap(r);
    ComingGap(cb, due, |pre| + |done|, Gap(r), x, done, w, out);
    LayoutSplit(s, pre + done, [Bswap(FDT_NOP)], BodyWords([], r), post);
    assert pre + (done + [Bswap(FDT_NOP)]) == (pre + done) + [Bswap(FDT_NOP)];
  }

  // the call of done
  lemma PassDone<S>(s: seq<bv32>, pre: seq<bv32>, done: seq<bv32>, k: Kids, post: seq<bv32>,
                    cb: Callbacks<S>, due: Option<nat>, x: S, w: Walked<S>, out: seq<bv32>)
    requires Scanning(s, pre, done, [], k, post, cb, due, x, w, out)
    ensures Scanning(s, pre, done, [], k, post, cb, None, if due.Some? then cb.done(x, due.value) else x, w, out)
  {
    hide Coming, BodyWords, Layout;
    ComingDone(cb, due, |pre| + |done|, k, x, done, w, out);
  }

  // before a child
  lemma BeforeKid<S>(s: seq<bv32>, pre: seq<bv32>, done: seq<bv32>, t: Tree, r: Kids, post: seq<bv32>,
                     cb: Callbacks<S>, x: S, w: Walked<S>, out: seq<bv32>)
    requires Scanning(s, pre, done, [], Kid(t, r), post, cb, None, x, w, out)
    ensures IsTree(t) && AreKids(r) && Layout(s, pre + done, TreeWords(t), BodyWords([], r) + post)
    ensures |BodyWords([], Kid(t, r))| == |TreeWords(t)| + |BodyWords([], r)|
    ensures Coming(cb, None, |pre| + |done|, [], Kid(t, r), x, done, w, out)
    ensures |s| == |pre| + |done| + |TreeWords(t)| + |BodyWords([], r)| + |post|
  {
    LayoutLength(s, pre + done, BodyWords([], Kid(t, r)), post);
    hide Coming, BodyWords, Layout, TreeWords;
    BodyOfKid(t, r);
    LayoutSplit(s, pre + done, TreeWords(t), BodyWords([], r), post);
  }

  // past a child
  lemma PassKid<S>(s: seq<bv32>, pre: seq<bv32>, done: seq<bv32>, t: Tree, r: Kids, post: seq<bv32>,
                   cb: Callbacks<S>, x: S, w: Walked<S>, out: seq<bv32>, x': S, mid: seq<bv32>)
    requires Coming(cb, None, |pre| + |done|, [], Kid(t, r), x, done, w, out) && AreKids(r)
    requires var at := |pre| + |done|;
             var body := WalkBody(cb, Some(at + 1), at + 1 + |t.name|, t.props, t.kids, cb.open(x, at + 1));
             var closed := cb.close(body.s, at + 1);
             x' == closed.0 && mid == Kept(t, body.kids, closed.1) && |mid| == |TreeWords(t)|
    requires Layout(s, pre + done, mid, BodyWords([], r) + post)
    ensures Scanning(s, pre, done + mid, [], r, post, cb, None, x', w, out)
  {
    hide Coming, BodyWords, Layout, TreeWords, Kept, WalkBody;
    ComingKid(cb, |pre| + |done|, t, r, x, done, w, out);
    LayoutSplit(s, pre + done, mid, BodyWords([], r), post);
    assert pre + (done + mid) == (pre + done) + mid;
  }

  // case FDT_BEGIN_NODE, from the call of open on: the child t at lex, with rest behind it
  method VisitChild<S>(mem: array<bv32>, lex: nat, cb: Callbacks<S>, s0: S,
                       ghost t: Tree, ghost pre: seq<bv32>, ghost rest: seq<bv32>) returns (lex_next: nat, s: S)
    requires IsTree(t) && lex == |pre| && Layout(mem[..], pre, TreeWords(t), rest)
    modifies mem
    ensures lex_next == lex + |TreeWords(t)|
    ensures var body := WalkBody(cb, Some(lex + 1), lex + 1 + |t.name|, t.props, t.kids, cb.open(s0, lex + 1));
            var closed := cb.close(body.s, lex + 1);
            s == closed.0 && Layout(mem[..], pre, Kept(t, body.kids, closed.1), rest)
    decreases |KidsWords(t.kids)|, 2
  {
    hide TreeWords, BodyWords, WalkBody, Layout, Bswap;
    ghost var pre' := pre + [Bswap(FDT_BEGIN_NODE)] + t.name;
    ghost var post' := [Bswap(FDT_END_NODE)] + rest;
    LayoutTree(mem[..], pre, t, t.kids, rest);
    LayoutLength(mem[..], pre', BodyWords(t.props, t.kids), post');
    NamePlace(mem[..], pre, t.name, BodyWords(t.props, t.kids), post');
    s := cb.open(s0, lex + 1);
    var n := Strlen(mem, lex + 1, t.name);
    BswapTwice(FDT_END_NODE);
    ghost var body := WalkBody(cb, Some(lex + 1), lex + 1 + |t.name|, t.props, t.kids, s);
    lex_next, s := ScanHelper(mem, lex + 2 + n / 4, Some(lex + 1), cb, s, t.props, t.kids, pre', post');
    LayoutLength(mem[..], pre', BodyWords(t.props, body.kids), post');
    TreeLayout(mem[..], pre, t, body.kids, rest);
    TreeLength(t);
    TreeLength(t.(kids := body.kids));
    var closed := cb.close(s, lex + 1);
    s := closed.0;
    if closed.1 {
      Erase(mem, lex, lex_next, pre, TreeWords(t.(kids := body.kids)), rest);
    }
  }

  // fdt_scan_helper
  method ScanHelper<S>(mem: array<bv32>, lex0: nat, node: Option<nat>, cb: Callbacks<S>, s0: S,
                       ghost props: seq<PropItem>, ghost kids: Kids, ghost pre: seq<bv32>, ghost post: seq<bv32>)
    returns (lex: nat, s: S)
    requires AreProps(props) && AreKids(kids) && |post| > 0 && Ends(post[0])
    requires lex0 == |pre| && Layout(mem[..], pre, BodyWords(props, kids), post)
    modifies mem
    ensures lex == lex0 + |BodyWords(props, kids)| + (if Bswap(post[0]) == FDT_END_NODE then 1 else 0)
    ensures var w := WalkBody(cb, node, lex0, props, kids, s0);
            s == w.s && Layout(mem[..], pre, BodyWords(props, w.kids), post)
    decreases |KidsWords(kids)|, 1
  {
    hide Layout, BodyWords, Bswap, WalkBody, Kept, Scanning;
    ghost var w := WalkBody(cb, node, lex0, props, kids, s0);
    ghost var out, size := BodyWords(props, w.kids), |BodyWords(props, kids)|;
    ghost var p, k, done: seq<bv32> := props, kids, [];
    lex, s := lex0, s0;
    var last := false;
    StartScan(mem[..], pre, props, kids, post, cb, node, s0);
    while true
      invariant |p| > 0 ==> !last
      invariant Scanning(mem[..], pre, done, p, k, post, cb, if last then None else node, s, w, out)
      invariant lex == |pre| + |done| && |done| + |BodyWords(p, k)| == size && |KidsWords(k)| <= |KidsWords(kids)|
      decreases |BodyWords(p, k)|
    {
      ScanningToken(mem[..], pre, done, p, k, post, cb, if last then None else node, s, w, out);
      var token := Bswap(mem[lex]);
      if token == FDT_NOP {
        if |p| > 0 {
          PassProp(mem[..], pre, done, p, k, post, cb, if last then None else node, s, w, out);
          p, done := p[1..], done + PropWords(p[0]);
        } else {
          PassGap(mem[..], pre, done, k.rest, post, cb, if last then None else node, s, w, out);
          k, done := k.rest, done + [Bswap(FDT_NOP)];
        }
        lex := lex + 1;
      } else if token == FDT_PROP {
        assert !last;
        PassProp(mem[..], pre, done, p, k, post, cb, node, s, w, out);
        var prop, next := ReadProp(mem, lex, p[0].prop, pre + done, BodyWords(p[1..], k) + post);
        s := cb.prop(s, lex, prop);
        p, done := p[1..], done + PropWords(p[0]);
        lex := next;
      } else if token == FDT_BEGIN_NODE {
        PassDone(mem[..], pre, done, k, post, cb, if last then None else node, s, w, out);
        if !last && node.Some? {
          s := cb.done(s, node.value);
        }
        last := true;
        ghost var t, r, x := k.node, k.rest, s;
        BeforeKid(mem[..], pre, done, t, r, post, cb, s, w, out);
        lex, s := VisitChild(mem, lex, cb, s, t, pre + done, BodyWords([], r) + post);
        ghost var mid := VisitedKid(mem[..], pre, done, t, r, post, cb, x, w, out, s);
        k, done := r, done + mid;
      } else if token == FDT_END_NODE {
        PassDone(mem[..], pre, done, k, post, cb, if last then None else node, s, w, out);
        if !last && node.Some? {
          s := cb.done(s, node.value);
        }
        EndScan(mem[..], pre, done, post, cb, s, w, out);
        lex := lex + 1;
        return;
      } else {
        PassDone(mem[..], pre, done, k, post, cb, if last then None else node, s, w, out);
        if !last && node.Some? {
          s := cb.done(s, node.value);
        }
        EndScan(mem[..], pre, done, post, cb, s, w, out);
        return;
      }
    }
  }

  lemma StartScan<S>(s: seq<bv32>, pre: seq<bv32>, p: seq<PropItem>, k: Kids, post: seq<bv32>, cb: Callbacks<S>,
      due: Option<nat>, x: S)
    requires AreProps(p) && AreKids(k) && Layout(s, pre, BodyWords(p, k), post)
    ensures var w := WalkBody(cb, due, |pre|, p, k, x);
            Scanning(s, pre, [], p, k, post, cb, due, x, w, BodyWords(p, w.kids))
  {
    hide BodyWords, WalkBody;
    assert pre + [] == pre;
    var w := WalkBody(cb, due, |pre|, p, k, x);
    assert [] + BodyWords(p, w.kids) == BodyWords(p, w.kids);
  }

  lemma ScanningToken<S>(s: seq<bv32>, pre: seq<bv32>, done: seq<bv32>, p: seq<PropItem>, k: Kids, post: seq<bv32>,
                         cb: Callbacks<S>, due: Option<nat>, x: S, w: Walked<S>, out: seq<bv32>)
    requires Scanning(s, pre, done, p, k, post, cb, due, x, w, out) && |post| > 0 && Ends(post[0])
    ensures |s| > |pre| + |done|
    ensures var token := Bswap(s[|pre| + |done|]);
            && (token == FDT_NOP <==> if |p| > 0 then p[0].PropGap? else k.Gap?)
            && (token == FDT_PROP <==> |p| > 0 && p[0].PropAt?)
            && (token == FDT_BEGIN_NODE <==> |p| == 0 && k.Kid?)
            && (|p| == 0 && k.End? ==> token == Bswap(post[0]))
            && (|p| == 0 ==> p == [])
  {
    hide Bswap, BodyWords, Layout, Coming;
    TokenAt(s, pre + done, p, k, post);
  }

  lemma EndScan<S>(s: seq<bv32>, pre: seq<bv32>, done: seq<bv32>, post: seq<bv32>,
                   cb: Callbacks<S>, x: S, w: Walked<S>, out: seq<bv32>)
    requires Scanning(s, pre, done, [], End, post, cb, None, x, w, out)
    ensures x == w.s && Layout(s, pre, out, post) && |BodyWords([], End)| == 0
  {
    ComingEnd(cb, |pre| + |done|, x, done, w, out);
    assert BodyWords([], End) == [];
    assert pre + done + [] + post == pre + done + post;
  }

  // the words that the visit left
  lemma VisitedKid<S>(s: seq<bv32>, pre: seq<bv32>, done: seq<bv32>, t: Tree, r: Kids, post: seq<bv32>,
                      cb: Callbacks<S>, x: S, w: Walked<S>, out: seq<bv32>, x': S) returns (mid: seq<bv32>)
    requires AreKids(r) && Coming(cb, None, |pre| + |done|, [], Kid(t, r), x, done, w, out)
    requires |s| == |pre| + |done| + |TreeWords(t)| + |BodyWords([], r)| + |post|
    requires var at := |pre + done|;
             var body := WalkBody(cb, Some(at + 1), at + 1 + |t.name|, t.props, t.kids, cb.open(x, at + 1));
             var closed := cb.close(body.s, at + 1);
             x' == closed.0 && Layout(s, pre + done, Kept(t, body.kids, closed.1), BodyWords([], r) + post)
    ensures |mid| == |TreeWords(t)| && Scanning(s, pre, done + mid, [], r, post, cb, None, x', w, out)
  {
    hide Coming, BodyWords, Layout, TreeWords, Kept, WalkBody, Scanning;
    var at := |pre + done|;
    var body := WalkBody(cb, Some(at + 1), at + 1 + |t.name|, t.props, t.kids, cb.open(x, at + 1));
    var closed := cb.close(body.s, at + 1);
    mid := Kept(t, body.kids, closed.1);
    LayoutLength(s, pre + done, mid, BodyWords([], r) + post);
    PassKid(s, pre, done, t, r, post, cb, x, w, out, x', mid);
  }

  // ----- the header -----

  const FDT_MAGIC: bv32 := 0xd00d_feed
  const FDT_VERSION: bv32 := 17

  // a blob that the scanner understands
  predicate Understood(s: seq<bv32>)
    requires |s| >= 10
  {
    Bswap(s[0]) == FDT_MAGIC && Bswap(s[6]) <= FDT_VERSION
  }

  // The blob starts with the bytes d0 0d fe ed, and its big-endian word 6 is at most 17.
  lemma UnderstoodBytes(s: seq<bv32>)
    requires |s| >= 10
    ensures Understood(s)
      <==> (Byte(s[0], 0) == 0xd0 && Byte(s[0], 1) == 0x0d && Byte(s[0], 2) == 0xfe && Byte(s[0], 3) == 0xed
            && Byte(s[6], 0) == 0 && Byte(s[6], 1) == 0 && Byte(s[6], 2) == 0 && Byte(s[6], 3) <= 17)
  {
    MagicBytes(s[0]);
    VersionBytes(s[6]);
  }

  lemma MagicBytes(x: bv32)
    ensures Bswap(x) == FDT_MAGIC
      <==> (Byte(x, 0) == 0xd0 && Byte(x, 1) == 0x0d && Byte(x, 2) == 0xfe && Byte(x, 3) == 0xed)
  {
  }

  lemma VersionBytes(x: bv32)
    ensures Bswap(x) <= FDT_VERSION <==> (Byte(x, 0) == 0 && Byte(x, 1) == 0 && Byte(x, 2) == 0 && Byte(x, 3) <= 17)
  {
  }

  // The structure block of an understood blob is aligned and holds these nodes and NOPs between pre and post.
  ghost predicate Holds(s: seq<bv32>, kids: Kids, pre: seq<bv32>, post: seq<bv32>) {
    && |s| >= 10 && |pre| >= 10 && |post| > 0 && Ends(post[0]) && AreKids(kids)
    && Layout(s, pre, KidsWords(kids), post) && Bswap(s[2]) as nat == 4 * |pre|
  }

  lemma HoldsBody(s: seq<bv32>, kids: Kids, pre: seq<bv32>, post: seq<bv32>)
    ensures BodyWords([], kids) == KidsWords(kids)
  {
  }

  // the header is in front of the structure block
  lemma HeaderStays(s: seq<bv32>, t: seq<bv32>, pre: seq<bv32>, mid: seq<bv32>, mid': seq<bv32>, post: seq<bv32>)
    requires Layout(s, pre, mid, post) && Layout(t, pre, mid', post) && |pre| >= 10
    ensures s[2] == t[2] && s[0] == t[0] && s[6] == t[6]
  {
  }

  // fdt_scan: the callbacks see the trace of the tree, and only deleted nodes change.
  method Scan<S>(mem: array<bv32>, cb: Callbacks<S>, s0: S, ghost kids: Kids, ghost pre: seq<bv32>,
      ghost post: seq<bv32>)
    returns (s: S)
    requires mem.Length >= 10 && (Understood(mem[..]) ==> Holds(mem[..], kids, pre, post))
    modifies mem
    ensures !old(Understood(mem[..])) ==> s == s0 && mem[..] == old(mem[..])
    ensures old(Understood(mem[..])) ==> s == Fold(cb, s0, KidsTrace(|pre|, kids))
    ensures old(Understood(mem[..])) ==> Layout(mem[..], pre, KidsWords(WalkKids(cb, |pre|, kids, s0).kids), post)
  {
    hide Bswap, Layout, WalkKids, KidsTrace, Fold, WalkBody;
    if Bswap(mem[0]) != FDT_MAGIC || Bswap(mem[6]) > FDT_VERSION {
      s := s0;
      return;
    }
    var lex := (Bswap(mem[2]) as nat) / 4;
    HoldsBody(mem[..], kids, pre, post);
    var end;
    end, s := ScanHelper(mem, lex, None, cb, s0, [], kids, pre, post);
    NoProps(cb, None, |pre|, kids, s0);
    WalkKidsIsFold(cb, |pre|, kids, s0);
    HoldsBody(mem[..], WalkKids(cb, |pre|, kids, s0).kids, pre, post);
  }
}
