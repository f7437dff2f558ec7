// Device trees as the structure block of a flattened device tree (section 5.4 of the Devicetree
// Specification), and what scanning one reports.
module FdtTree {
  // bswap
  function Bswap(x: bv32): bv32 {
    var y := ((x & 0x00FF00FF) << 8) | ((x & 0xFF00FF00) >> 8);
    ((y & 0x0000FFFF) << 16) | ((y & 0xFFFF0000) >> 16)
  }

  lemma BswapTwice(x: bv32)
    ensures Bswap(Bswap(x)) == x
  {
  }

  const FDT_BEGIN_NODE: bv32 := 1
  const FDT_END_NODE: bv32 := 2
  const FDT_PROP: bv32 := 3
  const FDT_NOP: bv32 := 4

  // byte k of a word in memory
  function Byte(w: bv32, k: nat): bv8
    requires k < 4
  {
    if k == 0 then (w & 0xFF) as bv8
    else if k == 1 then ((w >> 8) & 0xFF) as bv8
    else if k == 2 then ((w >> 16) & 0xFF) as bv8
    else (w >> 24) as bv8
  }

  // the four bytes of a word in the memory of a little-endian machine
  lemma ByteWeights(w: bv32)
    ensures Byte(w, 0) as bv32 == w & 0xFF && Byte(w, 1) as bv32 == (w >> 8) & 0xFF
    ensures Byte(w, 2) as bv32 == (w >> 16) & 0xFF && Byte(w, 3) as bv32 == w >> 24
  {
  }

  // bswap reverses the bytes.
  lemma BswapBytes(x: bv32, y: bv32)
    requires y == Bswap(x)
    ensures Byte(y, 0) == Byte(x, 3) && Byte(y, 1) == Byte(x, 2)
    ensures Byte(y, 2) == Byte(x, 1) && Byte(y, 3) == Byte(x, 0)
  {
  }

  predicate HasNul(w: bv32) { Byte(w, 0) == 0 || Byte(w, 1) == 0 || Byte(w, 2) == 0 || Byte(w, 3) == 0 }

  // ----- trees -----

  // a property: its offset in the strings block, its length in bytes and its value, padded to words
  datatype Prop = Prop(name: bv32, len: bv32, value: seq<bv32>)

  // what stands before the child nodes: properties and NOPs
  datatype PropItem = PropGap | PropAt(prop: Prop)

  datatype Tree = Tree(name: seq<bv32>, props: seq<PropItem>, kids: Kids)

  // child nodes and NOPs, in order
  datatype Kids = End | Gap(rest: Kids) | Kid(node: Tree, rest: Kids)

  // ----- well-formedness -----

  // a string with its terminator, padded to words: the terminator is in the last word only
  ghost predicate IsName(name: seq<bv32>) {
    && |name| > 0 && HasNul(name[|name| - 1])
    && forall i :: 0 <= i < |name| - 1 ==> !HasNul(name[i])
  }

  // the words that a value of len bytes takes: the fewest that hold it
  function ValueWords(len: bv32): (n: nat)
    ensures 4 * n >= len as nat && (n == 0 || 4 * (n - 1) < len as nat)
  {
    (len as nat + 3) / 4
  }

  // the length is an int in fdt.c, and three more must fit
  const MAX_LEN: bv32 := 0x7FFF_FFFC

  ghost predicate IsProp(p: Prop) { |p.value| == ValueWords(p.len) && p.len <= MAX_LEN }

  ghost predicate AreProps(ps: seq<PropItem>) {
    forall i :: 0 <= i < |ps| && ps[i].PropAt? ==> IsProp(ps[i].prop)
  }

  ghost predicate IsTree(t: Tree)
    decreases t
  {
    IsName(t.name) && AreProps(t.props) && AreKids(t.kids)
  }

  ghost predicate AreKids(k: Kids)
    decreases k
  {
    match k
    case End => true
    case Gap(r) => AreKids(r)
    case Kid(t, r) => IsTree(t) && AreKids(r)
  }

  // ----- serialisation -----

  ghost function PropWords(p: PropItem): (w: seq<bv32>)
    ensures |w| > 0
  {
    match p
    case PropGap => [Bswap(FDT_NOP)]
    case PropAt(q) => [Bswap(FDT_PROP), Bswap(q.len), Bswap(q.name)] + q.value
  }

  ghost function PropsWords(ps: seq<PropItem>): seq<bv32> {
    if |ps| == 0 then [] else PropWords(ps[0]) + PropsWords(ps[1..])
  }

  ghost function TreeWords(t: Tree): (w: seq<bv32>)
    ensures |w| >= 2
    decreases t
  {
    [Bswap(FDT_BEGIN_NODE)] + t.name + PropsWords(t.props) + KidsWords(t.kids) + [Bswap(FDT_END_NODE)]
  }

  ghost function KidsWords(k: Kids): seq<bv32>
    decreases k
  {
    match k
    case End => []
    case Gap(r) => [Bswap(FDT_NOP)] + KidsWords(r)
    case Kid(t, r) => TreeWords(t) + KidsWords(r)
  }

  // The words of a property are big-endian in memory: the token 3, the length and the offset of the name, and then the
  // value.
  lemma PropBytes(q: Prop, w: seq<bv32>)
    requires w == PropWords(PropAt(q))
    ensures |w| == 3 + |q.value| && w[3..] == q.value
    ensures Byte(w[0], 0) == 0 && Byte(w[0], 1) == 0 && Byte(w[0], 2) == 0 && Byte(w[0], 3) == 3
    ensures forall k: nat :: k < 4 ==> Byte(w[1], k) == Byte(q.len, 3 - k) && Byte(w[2], k) == Byte(q.name, 3 - k)
  {
    BswapBytes(FDT_PROP, Bswap(FDT_PROP));
    BswapBytes(q.len, Bswap(q.len));
    BswapBytes(q.name, Bswap(q.name));
    PropToken();
    hide Bswap, Byte;
  }

  lemma PropToken()
    ensures Byte(FDT_PROP, 3) == 0 && Byte(FDT_PROP, 2) == 0 && Byte(FDT_PROP, 1) == 0 && Byte(FDT_PROP, 0) == 3
  {
  }

  // A node without a name, with a NOP, a property and a child called "a", as a blob holds it.
  lemma SampleBlock(child: Tree, root: Tree)
    requires child == Tree([0x61], [], End)
    requires root == Tree([0], [PropGap, PropAt(Prop(5, 4, [0x1122_3344]))], Kid(child, End))
    ensures KidsWords(Kid(root, End))
         == [0x0100_0000, 0, 0x0400_0000, 0x0300_0000, 0x0400_0000, 0x0500_0000, 0x1122_3344,
             0x0100_0000, 0x61, 0x0200_0000, 0x0200_0000]
  {
  }

  // n NOPs in front
  ghost function Gaps(n: nat, r: Kids): Kids {
    if n == 0 then r else Gap(Gaps(n - 1, r))
  }

  lemma {:induction false} GapsWords(n: nat, r: Kids)
    ensures KidsWords(Gaps(n, r)) == seq(n, _ => Bswap(FDT_NOP)) + KidsWords(r)
  {
    hide Bswap;
    if n > 0 {
      GapsWords(n - 1, r);
      assert seq(n, _ => Bswap(FDT_NOP)) == [Bswap(FDT_NOP)] + seq(n - 1, _ => Bswap(FDT_NOP));
    }
  }

  // ----- scanning with callbacks -----

  // The callbacks of struct fdt_cb on a state of type S; a node is known by the position of its name.
  // close also says whether to delete the node.
  datatype Callbacks<!S> = Callbacks(
    open: (S, nat) -> S, prop: (S, nat, Prop) -> S, done: (S, nat) -> S, close: (S, nat) -> (S, bool))

  ghost function WalkProps<S>(cb: Callbacks<S>, at: nat, ps: seq<PropItem>, s: S): S
    decreases ps
  {
    if |ps| == 0 then s
    else
      var s' := if ps[0].PropAt? then cb.prop(s, at, ps[0].prop) else s;
      WalkProps(cb, at + |PropWords(ps[0])|, ps[1..], s')
  }

  // the state after the walk, and the nodes and gaps that it leaves
  datatype Walked<S> = Walked(s: S, kids: Kids)

  // the walk over a node's properties and children; name is the node, if any, whose done is still due
  ghost function WalkBody<S>(cb: Callbacks<S>, due: Option<nat>, at: nat, ps: seq<PropItem>, k: Kids, s: S): Walked<S>
    decreases k, 1
  {
    var s1 := WalkProps(cb, at, ps, s);
    var s2 := if due.Some? then cb.done(s1, due.value) else s1;
    WalkKids(cb, at + |PropsWords(ps)|, k, s2)
  }

  ghost function WalkKids<S>(cb: Callbacks<S>, at: nat, k: Kids, s: S): Walked<S>
    decreases k, 0
  {
    match k
    case End => Walked(s, End)
    case Gap(r) =>
      var w := WalkKids(cb, at + 1, r, s);
      Walked(w.s, Gap(w.kids))
    case Kid(t, r) =>
      var body := WalkBody(cb, Some(at + 1), at + 1 + |t.name|, t.props, t.kids, cb.open(s, at + 1));
      var closed := cb.close(body.s, at + 1);
      var w := WalkKids(cb, at + |TreeWords(t)|, r, closed.0);
      Walked(w.s, if closed.1 then Gaps(|TreeWords(t)|, w.kids) else Kid(t.(kids := body.kids), w.kids))
  }

  datatype Option<T> = None | Some(value: T)

  // ----- the trace -----

  datatype Event = Open(at: nat) | Property(at: nat, prop: Prop) | Done(at: nat) | Close(at: nat)

  ghost function PropsTrace(at: nat, ps: seq<PropItem>): seq<Event>
    decreases ps
  {
    if |ps| == 0 then []
    else
      (if ps[0].PropAt? then [Property(at, ps[0].prop)] else []) + PropsTrace(at + |PropWords(ps[0])|, ps[1..])
  }

  // a node: opened, its properties, done once, its children, closed
  ghost function TreeTrace(at: nat, t: Tree): seq<Event>
    decreases t
  {
    var body := at + 1 + |t.name|;
    [Open(at + 1)] + PropsTrace(body, t.props) + [Done(at + 1)]
    + KidsTrace(body + |PropsWords(t.props)|, t.kids) + [Close(at + 1)]
  }

  ghost function KidsTrace(at: nat, k: Kids): seq<Event>
    decreases k
  {
    match k
    case End => []
    case Gap(r) => KidsTrace(at + 1, r)
    case Kid(t, r) => TreeTrace(at, t) + KidsTrace(at + |TreeWords(t)|, r)
  }

  // the callbacks applied to a trace, in order
  ghost function Fold<S>(cb: Callbacks<S>, s: S, events: seq<Event>): S {
    if |events| == 0 then s
    else
      var s' := match events[0]
                case Open(at) => cb.open(s, at)
                case Property(at, p) => cb.prop(s, at, p)
                case Done(at) => cb.done(s, at)
                case Close(at) => cb.close(s, at).0;
      Fold(cb, s', events[1..])
  }

  lemma {:induction false} FoldAppend<S>(cb: Callbacks<S>, s: S, a: seq<Event>, b: seq<Event>)
    ensures Fold(cb, s, a + b) == Fold(cb, Fold(cb, s, a), b)
    decreases a
  {
    if |a| == 0 {
      assert a + b == b;
    } else {
      var s' := match a[0]
                case Open(at) => cb.open(s, at)
                case Property(at, p) => cb.prop(s, at, p)
                case Done(at) => cb.done(s, at)
                case Close(at) => cb.close(s, at).0;
      assert (a + b)[0] == a[0] && (a + b)[1..] == a[1..] + b;
      FoldAppend(cb, s', a[1..], b);
    }
  }

  lemma {:induction false} WalkPropsIsFold<S>(cb: Callbacks<S>, at: nat, ps: seq<PropItem>, s: S)
    ensures WalkProps(cb, at, ps, s) == Fold(cb, s, PropsTrace(at, ps))
    decreases ps
  {
    hide PropWords;
    if |ps| > 0 {
      var next := at + |PropWords(ps[0])|;
      var s' := if ps[0].PropAt? then cb.prop(s, at, ps[0].prop) else s;
      WalkPropsIsFold(cb, next, ps[1..], s');
      if ps[0].PropAt? {
        var e := Property(at, ps[0].prop);
        assert ([e] + PropsTrace(next, ps[1..]))[1..] == PropsTrace(next, ps[1..]);
      } else {
        assert [] + PropsTrace(next, ps[1..]) == PropsTrace(next, ps[1..]);
      }
    }
  }

  lemma FoldOne<S>(cb: Callbacks<S>, s: S, e: Event)
    ensures Fold(cb, s, [e]) == match e
                                case Open(at) => cb.open(s, at)
                                case Property(at, p) => cb.prop(s, at, p)
                                case Done(at) => cb.done(s, at)
                                case Close(at) => cb.close(s, at).0
  {
    assert [e][1..] == [];
  }

  // Whatever the callbacks answer, they see the same trace: that of the tree before the scan.
  lemma {:induction false} WalkKidsIsFold<S>(cb: Callbacks<S>, at: nat, k: Kids, s: S)
    ensures WalkKids(cb, at, k, s).s == Fold(cb, s, KidsTrace(at, k))
    decreases k
  {
    hide PropWords, PropsWords, TreeWords, Fold, PropsTrace, WalkProps, Gaps;
    match k
    case End =>
      FoldNothing(cb, s);
    case Gap(r) =>
      WalkKidsIsFold(cb, at + 1, r, s);
    case Kid(t, r) =>
      var n, body := at + 1, at + 1 + |t.name|;
      var s1 := cb.open(s, n);
      var s2 := WalkProps(cb, body, t.props, s1);
      var s3 := cb.done(s2, n);
      var inner := body + |PropsWords(t.props)|;
      WalkPropsIsFold(cb, body, t.props, s1);
      WalkKidsIsFold(cb, inner, t.kids, s3);
      var s4 := WalkKids(cb, inner, t.kids, s3).s;
      var s5 := cb.close(s4, n).0;
      FoldTree(cb, s, n, PropsTrace(body, t.props), KidsTrace(inner, t.kids));
      FoldAppend(cb, s, TreeTrace(at, t), KidsTrace(at + |TreeWords(t)|, r));
      WalkKidsIsFold(cb, at + |TreeWords(t)|, r, s5);
  }

  lemma FoldNothing<S>(cb: Callbacks<S>, s: S)
    ensures Fold(cb, s, []) == s
  {
  }

  lemma FoldTree<S>(cb: Callbacks<S>, s: S, n: nat, ps: seq<Event>, ks: seq<Event>)
    ensures Fold(cb, s, [Open(n)] + ps + [Done(n)] + ks + [Close(n)])
         == cb.close(Fold(cb, cb.done(Fold(cb, cb.open(s, n), ps), n), ks), n).0
  {
    hide Fold;
    FoldAppend(cb, s, [Open(n)] + ps + [Done(n)] + ks, [Close(n)]);
    FoldAppend(cb, s, [Open(n)] + ps + [Done(n)], ks);
    FoldAppend(cb, s, [Open(n)] + ps, [Done(n)]);
    FoldAppend(cb, s, [Open(n)], ps);
    FoldOne(cb, s, Open(n));
    var s2 := Fold(cb, cb.open(s, n), ps);
    FoldOne(cb, s2, Done(n));
    FoldOne(cb, Fold(cb, cb.done(s2, n), ks), Close(n));
  }

  // ----- what a trace looks like -----

  datatype Kind = Opening | Finishing | Closing

  ghost function Is(kind: Kind, e: Event): nat {
    match e
    case Open(_) => if kind.Opening? then 1 else 0
    case Property(_, _) => 0
    case Done(_) => if kind.Finishing? then 1 else 0
    case Close(_) => if kind.Closing? then 1 else 0
  }

  // the number of events of a kind
  ghost function Count(kind: Kind, events: seq<Event>): nat {
    if |events| == 0 then 0 else Is(kind, events[0]) + Count(kind, events[1..])
  }

  lemma {:induction false} CountAppend(kind: Kind, a: seq<Event>, b: seq<Event>)
    ensures Count(kind, a + b) == Count(kind, a) + Count(kind, b)
    decreases a
  {
    if |a| == 0 {
      assert a + b == b;
    } else {
      assert (a + b)[1..] == a[1..] + b;
      CountAppend(kind, a[1..], b);
    }
  }

  lemma CountOne(kind: Kind, e: Event)
    ensures Count(kind, [e]) == Is(kind, e)
  {
    assert [e][1..] == [];
  }

  lemma {:induction false} CountProperties(kind: Kind, events: seq<Event>)
    requires forall i :: 0 <= i < |events| ==> events[i].Property?
    ensures Count(kind, events) == 0
    decreases events
  {
    if |events| > 0 {
      forall i | 0 <= i < |events[1..]| ensures events[1..][i].Property? {
        assert events[1..][i] == events[i + 1];
      }
      CountProperties(kind, events[1..]);
    }
  }

  lemma {:induction false} AllProperties(at: nat, ps: seq<PropItem>)
    ensures forall i :: 0 <= i < |PropsTrace(at, ps)| ==> PropsTrace(at, ps)[i].Property?
    decreases ps
  {
    hide PropWords;
    if |ps| > 0 {
      AllProperties(at + |PropWords(ps[0])|, ps[1..]);
    }
  }

  // the number of nodes
  ghost function Nodes(k: Kids): nat
    decreases k
  {
    match k
    case End => 0
    case Gap(r) => Nodes(r)
    case Kid(t, r) => 1 + Nodes(t.kids) + Nodes(r)
  }

  lemma CountTree(kind: Kind, n: nat, ps: seq<Event>, ks: seq<Event>)
    requires Count(kind, ps) == 0
    ensures Count(kind, [Open(n)] + ps + [Done(n)] + ks + [Close(n)]) == 1 + Count(kind, ks)
  {
    hide Count;
    CountAppend(kind, [Open(n)] + ps + [Done(n)] + ks, [Close(n)]);
    CountAppend(kind, [Open(n)] + ps + [Done(n)], ks);
    CountAppend(kind, [Open(n)] + ps, [Done(n)]);
    CountAppend(kind, [Open(n)], ps);
    CountOne(kind, Open(n));
    CountOne(kind, Done(n));
    CountOne(kind, Close(n));
  }

  // There are as many openings, as many dones and as many closings as nodes.
  lemma {:induction false} OncePerNode(kind: Kind, at: nat, k: Kids)
    ensures Count(kind, KidsTrace(at, k)) == Nodes(k)
    decreases k
  {
    hide Count, PropWords, PropsWords, TreeWords, PropsTrace;
    match k
    case End =>
      CountProperties(kind, []);
    case Gap(r) =>
      OncePerNode(kind, at + 1, r);
    case Kid(t, r) =>
      var body := at + 1 + |t.name|;
      var inner := body + |PropsWords(t.props)|;
      AllProperties(body, t.props);
      CountProperties(kind, PropsTrace(body, t.props));
      OncePerNode(kind, inner, t.kids);
      CountTree(kind, at + 1, PropsTrace(body, t.props), KidsTrace(inner, t.kids));
      OncePerNode(kind, at + |TreeWords(t)|, r);
      CountAppend(kind, TreeTrace(at, t), KidsTrace(at + |TreeWords(t)|, r));
  }

  // behind the opening of a node, nothing but its properties comes before its done
  ghost predicate DoneFollows(events: seq<Event>, i: nat)
    requires i < |events|
  {
    events[i].Open? ==>
      exists j :: i < j < |events| && events[j] == Done(events[i].at) && forall m :: i < m < j ==> events[m].Property?
  }

  // Every node is done after its last property and before its first child or its end.
  lemma {:induction false} DoneAfterProps(at: nat, k: Kids, i: nat)
    requires i < |KidsTrace(at, k)|
    ensures DoneFollows(KidsTrace(at, k), i)
    decreases k
  {
    hide PropWords, PropsWords, TreeWords, PropsTrace, DoneFollows;
    match k
    case End =>
    case Gap(r) =>
      DoneAfterProps(at + 1, r, i);
    case Kid(t, r) =>
      var n, body := at + 1, at + 1 + |t.name|;
      var inner := body + |PropsWords(t.props)|;
      var ps, ks, rest := PropsTrace(body, t.props), KidsTrace(inner, t.kids), KidsTrace(at + |TreeWords(t)|, r);
      AllProperties(body, t.props);
      var head := [Open(n)] + ps + [Done(n)];
      var tree := head + ks + [Close(n)];
      assert KidsTrace(at, k) == tree + rest;
      if i < |head| {
        FollowsHere(n, ps, ks + [Close(n)] + rest, i);
        assert tree + rest == head + (ks + [Close(n)] + rest);
      } else if i < |head| + |ks| {
        DoneAfterProps(inner, t.kids, i - |head|);
        FollowsInside(head, ks, [Close(n)] + rest, i - |head|);
        assert tree + rest == head + ks + ([Close(n)] + rest);
      } else if i >= |tree| {
        DoneAfterProps(at + |TreeWords(t)|, r, i - |tree|);
        FollowsInside(tree, rest, [], i - |tree|);
        assert tree + rest == tree + rest + [];
      } else {
        FollowsNot(tree + rest, i);
      }
  }

  lemma FollowsNot(events: seq<Event>, i: nat)
    requires i < |events| && !events[i].Open?
    ensures DoneFollows(events, i)
  {
  }

  lemma FollowsHere(n: nat, ps: seq<Event>, tail: seq<Event>, i: nat)
    requires i < |ps| + 2 && forall m :: 0 <= m < |ps| ==> ps[m].Property?
    ensures DoneFollows([Open(n)] + ps + [Done(n)] + tail, i)
  {
    var events := [Open(n)] + ps + [Done(n)] + tail;
    assert events[|ps| + 1] == Done(n);
    assert forall m :: 0 < m < |ps| + 1 ==> events[m] == ps[m - 1];
  }

  lemma FollowsInside(a: seq<Event>, b: seq<Event>, c: seq<Event>, i: nat)
    requires i < |b| && DoneFollows(b, i)
    ensures DoneFollows(a + b + c, |a| + i)
  {
    var events, n := a + b + c, |a|;
    assert forall m :: 0 <= m < |b| ==> events[n + m] == b[m];
    if b[i].Open? {
      var j :| i < j < |b| && b[j] == Done(b[i].at) && forall m :: i < m < j ==> b[m].Property?;
      assert events[n + j] == Done(events[n + i].at);
      assert forall m :: n + i < m < n + j ==> events[m] == b[m - n];
    }
  }
}
