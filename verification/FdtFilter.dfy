// filter_compat: deleting the nodes that are compatible with a string, while walking over them.
module FdtFilter {
  import opened FdtTree
  import opened FdtScan
  import opened FdtProps

  // struct compat_scan
  datatype Compat = Compat(depth: int, kill: int)

  const NEVER := 999

  // compat_open, compat_prop and compat_close; hit says whether a property names the string
  function CompatCallbacks(hit: Prop -> bool): Callbacks<Compat> {
    Callbacks(
      (s: Compat, at: nat) => s.(depth := s.depth + 1),
      (s: Compat, at: nat, p: Prop) => if hit(p) && s.depth < s.kill then s.(kill := s.depth) else s,
      (s: Compat, at: nat) => s,
      (s: Compat, at: nat) =>
        if s.kill == s.depth then (Compat(s.depth - 1, NEVER), true) else (s.(depth := s.depth - 1), false))
  }

  // ----- what is to be deleted -----

  ghost predicate Hits(hit: Prop -> bool, ps: seq<PropItem>) {
    exists i :: 0 <= i < |ps| && ps[i].PropAt? && hit(ps[i].prop)
  }

  // the children without the subtrees whose root has a matching property, each replaced by NOPs
  ghost function Filter(hit: Prop -> bool, k: Kids): Kids
    decreases k
  {
    match k
    case End => End
    case Gap(r) => Gap(Filter(hit, r))
    case Kid(t, r) =>
      if Hits(hit, t.props) then Gaps(|TreeWords(t)|, Filter(hit, r))
      else Kid(t.(kids := Filter(hit, t.kids)), Filter(hit, r))
  }

  // what the sentinel makes of it at depth d: nodes at depth 999 go as well
  ghost function Deleted(hit: Prop -> bool, d: nat, k: Kids): Kids
    decreases k
  {
    match k
    case End => End
    case Gap(r) => Gap(Deleted(hit, d, r))
    case Kid(t, r) =>
      if Hits(hit, t.props) || d + 1 == NEVER then Gaps(|TreeWords(t)|, Deleted(hit, d, r))
      else Kid(t.(kids := Deleted(hit, d + 1, t.kids)), Deleted(hit, d, r))
  }

  // the number of levels of nodes
  ghost function Height(k: Kids): nat
    decreases k
  {
    match k
    case End => 0
    case Gap(r) => Height(r)
    case Kid(t, r) => if 1 + Height(t.kids) > Height(r) then 1 + Height(t.kids) else Height(r)
  }

  lemma {:induction false} HeightOfGaps(n: nat, r: Kids)
    ensures Height(Gaps(n, r)) == Height(r)
  {
    if n > 0 {
      HeightOfGaps(n - 1, r);
    }
  }

  // ----- the state of the walk -----

  lemma {:induction false} WalkCompatProps(hit: Prop -> bool, at: nat, ps: seq<PropItem>, s: Compat)
    ensures WalkProps(CompatCallbacks(hit), at, ps, s)
         == if Hits(hit, ps) && s.depth < s.kill then s.(kill := s.depth) else s
    decreases ps
  {
    hide PropWords;
    if |ps| > 0 {
      var s' := if ps[0].PropAt? then CompatCallbacks(hit).prop(s, at, ps[0].prop) else s;
      WalkCompatProps(hit, at + |PropWords(ps[0])|, ps[1..], s');
      HitsFirst(hit, ps);
    }
  }

  lemma HitsFirst(hit: Prop -> bool, ps: seq<PropItem>)
    requires |ps| > 0
    ensures Hits(hit, ps) <==> (ps[0].PropAt? && hit(ps[0].prop)) || Hits(hit, ps[1..])
  {
    if Hits(hit, ps) {
      var i :| 0 <= i < |ps| && ps[i].PropAt? && hit(ps[i].prop);
      assert i > 0 ==> ps[1..][i - 1] == ps[i];
    }
    if Hits(hit, ps[1..]) {
      var i :| 0 <= i < |ps[1..]| && ps[1..][i].PropAt? && hit(ps[1..][i].prop);
      assert ps[i + 1] == ps[1..][i];
    }
  }

  // Below a node that is to go, or below the sentinel, nothing is deleted and the state comes back.
  lemma {:induction false} WalkPending(hit: Prop -> bool, at: nat, k: Kids, s: Compat)
    requires s.kill <= s.depth
    ensures WalkKids(CompatCallbacks(hit), at, k, s) == Walked(s, k)
    decreases k
  {
    hide PropWords, PropsWords, TreeWords, Hits, Gaps;
    match k
    case End =>
    case Gap(r) =>
      WalkPending(hit, at + 1, r, s);
    case Kid(t, r) =>
      var s1 := s.(depth := s.depth + 1);
      WalkCompatProps(hit, at + 1 + |t.name|, t.props, s1);
      WalkPending(hit, at + 1 + |t.name| + |PropsWords(t.props)|, t.kids, s1);
      WalkPending(hit, at + |TreeWords(t)|, r, s);
  }

  // The walk over children at depth d, with nothing pending.
  lemma {:induction false} WalkFree(hit: Prop -> bool, at: nat, k: Kids, d: nat)
    requires d < NEVER
    ensures WalkKids(CompatCallbacks(hit), at, k, Compat(d, NEVER)) == Walked(Compat(d, NEVER), Deleted(hit, d, k))
    decreases k
  {
    hide PropWords, PropsWords, TreeWords, Hits, Gaps;
    match k
    case End =>
    case Gap(r) =>
      WalkFree(hit, at + 1, r, d);
    case Kid(t, r) =>
      var inner := at + 1 + |t.name| + |PropsWords(t.props)|;
      WalkCompatProps(hit, at + 1 + |t.name|, t.props, Compat(d + 1, NEVER));
      if d + 1 == NEVER {
        WalkPending(hit, inner, t.kids, Compat(d + 1, NEVER));
      } else if Hits(hit, t.props) {
        WalkPending(hit, inner, t.kids, Compat(d + 1, d + 1));
      } else {
        WalkFree(hit, inner, t.kids, d + 1);
      }
      WalkFree(hit, at + |TreeWords(t)|, r, d);
  }

  // ----- the exact condition -----

  lemma {:induction false} DeletedHeight(hit: Prop -> bool, d: nat, k: Kids)
    requires d < NEVER
    ensures d + Height(Deleted(hit, d, k)) < NEVER
    decreases k
  {
    hide Hits, TreeWords, Gaps;
    match k
    case End =>
    case Gap(r) =>
      DeletedHeight(hit, d, r);
    case Kid(t, r) =>
      DeletedHeight(hit, d, r);
      if Hits(hit, t.props) || d + 1 == NEVER {
        HeightOfGaps(|TreeWords(t)|, Deleted(hit, d, r));
      } else {
        DeletedHeight(hit, d + 1, t.kids);
      }
  }

  lemma {:induction false} DeletedIsFilter(hit: Prop -> bool, d: nat, k: Kids)
    requires d + Height(Filter(hit, k)) < NEVER
    ensures Deleted(hit, d, k) == Filter(hit, k)
    decreases k
  {
    hide Hits, TreeWords, Gaps;
    match k
    case End =>
    case Gap(r) =>
      DeletedIsFilter(hit, d, r);
    case Kid(t, r) =>
      if Hits(hit, t.props) {
        HeightOfGaps(|TreeWords(t)|, Filter(hit, r));
      } else {
        DeletedIsFilter(hit, d + 1, t.kids);
      }
      DeletedIsFilter(hit, d, r);
  }

  // the longest chain of nested nodes of which none matches
  ghost function Levels(hit: Prop -> bool, k: Kids): nat
    decreases k
  {
    match k
    case End => 0
    case Gap(r) => Levels(hit, r)
    case Kid(t, r) =>
      var here := if Hits(hit, t.props) then 0 else 1 + Levels(hit, t.kids);
      if here > Levels(hit, r) then here else Levels(hit, r)
  }

  lemma {:induction false} LevelsIsHeight(hit: Prop -> bool, k: Kids)
    ensures Levels(hit, k) == Height(Filter(hit, k))
    decreases k
  {
    hide Hits, TreeWords, Gaps;
    match k
    case End =>
    case Gap(r) =>
      LevelsIsHeight(hit, r);
    case Kid(t, r) =>
      LevelsIsHeight(hit, r);
      LevelsIsHeight(hit, t.kids);
      HeightOfGaps(|TreeWords(t)|, Filter(hit, r));
  }

  // The scan deletes exactly the matching subtrees if and only if fewer than 999 nodes that do not match are
  // nested in each other.
  lemma FilterIsExact(hit: Prop -> bool, at: nat, k: Kids)
    ensures WalkKids(CompatCallbacks(hit), at, k, Compat(0, NEVER)) == Walked(Compat(0, NEVER), Deleted(hit, 0, k))
    ensures Deleted(hit, 0, k) == Filter(hit, k) <==> Levels(hit, k) < NEVER
  {
    WalkFree(hit, at, k, 0);
    DeletedHeight(hit, 0, k);
    LevelsIsHeight(hit, k);
    if Levels(hit, k) < NEVER {
      DeletedIsFilter(hit, 0, k);
    }
  }

  // 999 nested nodes without any property
  ghost function Nest(n: nat): Kids {
    if n == 0 then End else Kid(Tree([0], [], Nest(n - 1)), End)
  }

  lemma {:induction false} NestLevels(hit: Prop -> bool, n: nat)
    ensures Levels(hit, Nest(n)) == n && AreKids(Nest(n))
  {
    if n > 0 {
      NestLevels(hit, n - 1);
      assert !Hits(hit, []);
      assert IsName([0]);
    }
  }

  lemma {:induction false} NestFilter(hit: Prop -> bool, n: nat)
    ensures Filter(hit, Nest(n)) == Nest(n)
  {
    hide TreeWords, Gaps;
    if n > 0 {
      NestFilter(hit, n - 1);
      assert !Hits(hit, []);
    }
  }

  // At depth 999 the sentinel deletes a node that does not match.
  lemma SentinelDeletes(hit: Prop -> bool)
    ensures AreKids(Nest(NEVER))
    ensures Deleted(hit, 0, Nest(NEVER)) != Filter(hit, Nest(NEVER)) == Nest(NEVER)
  {
    hide Nest, Filter, Deleted, Levels, AreKids;
    NestLevels(hit, NEVER);
    NestFilter(hit, NEVER);
    FilterIsExact(hit, 0, Nest(NEVER));
  }

  // ----- the rescan -----

  // the word at pos belongs to a deleted subtree
  ghost predicate Gone(hit: Prop -> bool, at: nat, k: Kids, pos: nat)
    decreases k
  {
    match k
    case End => false
    case Gap(r) => Gone(hit, at + 1, r, pos)
    case Kid(t, r) =>
      || Gone(hit, at + |TreeWords(t)|, r, pos)
      || if Hits(hit, t.props) then at <= pos < at + |TreeWords(t)|
         else Gone(hit, at + 1 + |t.name| + |PropsWords(t.props)|, t.kids, pos)
  }

  // the events whose position is not dropped
  ghost function Keep(drop: nat -> bool, events: seq<Event>): seq<Event> {
    if |events| == 0 then [] else (if drop(events[0].at) then [] else [events[0]]) + Keep(drop, events[1..])
  }

  lemma {:induction false} KeepAppend(drop: nat -> bool, a: seq<Event>, b: seq<Event>)
    ensures Keep(drop, a + b) == Keep(drop, a) + Keep(drop, b)
    decreases a
  {
    if |a| == 0 {
      assert a + b == b;
    } else {
      assert (a + b)[0] == a[0] && (a + b)[1..] == a[1..] + b;
      KeepAppend(drop, a[1..], b);
    }
  }

  lemma {:induction false} KeepSame(drop: nat -> bool, drop': nat -> bool, events: seq<Event>)
    requires forall i :: 0 <= i < |events| ==> drop(events[i].at) == drop'(events[i].at)
    ensures Keep(drop, events) == Keep(drop', events)
    decreases events
  {
    if |events| > 0 {
      forall i | 0 <= i < |events[1..]| ensures drop(events[1..][i].at) == drop'(events[1..][i].at) {
        assert events[1..][i] == events[i + 1];
      }
      KeepSame(drop, drop', events[1..]);
    }
  }

  lemma {:induction false} KeepAll(drop: nat -> bool, events: seq<Event>)
    requires forall i :: 0 <= i < |events| ==> !drop(events[i].at)
    ensures Keep(drop, events) == events
    decreases events
  {
    if |events| > 0 {
      forall i | 0 <= i < |events[1..]| ensures !drop(events[1..][i].at) {
        assert events[1..][i] == events[i + 1];
      }
      KeepAll(drop, events[1..]);
    }
  }

  lemma {:induction false} KeepNone(drop: nat -> bool, events: seq<Event>)
    requires forall i :: 0 <= i < |events| ==> drop(events[i].at)
    ensures Keep(drop, events) == []
    decreases events
  {
    if |events| > 0 {
      forall i | 0 <= i < |events[1..]| ensures drop(events[1..][i].at) {
        assert events[1..][i] == events[i + 1];
      }
      KeepNone(drop, events[1..]);
    }
  }

  ghost predicate Within(events: seq<Event>, lo: nat, hi: nat) {
    forall i :: 0 <= i < |events| ==> lo <= events[i].at < hi
  }

  lemma WithinAppend(a: seq<Event>, b: seq<Event>, lo: nat, hi: nat)
    requires Within(a, lo, hi) && Within(b, lo, hi)
    ensures Within(a + b, lo, hi)
  {
  }

  lemma {:induction false} PropsWithin(at: nat, ps: seq<PropItem>)
    ensures Within(PropsTrace(at, ps), at, at + |PropsWords(ps)|)
    decreases ps
  {
    hide PropWords;
    if |ps| > 0 {
      PropsWithin(at + |PropWords(ps[0])|, ps[1..]);
    }
  }

  lemma TreeSize(t: Tree)
    ensures |TreeWords(t)| == 2 + |t.name| + |PropsWords(t.props)| + |KidsWords(t.kids)|
  {
    hide Bswap;
  }

  lemma TreeWithin(at: nat, t: Tree)
    requires IsTree(t) && Within(KidsTrace(at + 1 + |t.name| + |PropsWords(t.props)|, t.kids),
                                 at + 1 + |t.name| + |PropsWords(t.props)|, at + |TreeWords(t)|)
    ensures Within(TreeTrace(at, t), at, at + |TreeWords(t)|)
  {
    hide KidsTrace, PropsTrace, PropsWords, TreeWords;
    TreeSize(t);
    var body := at + 1 + |t.name|;
    PropsWithin(body, t.props);
  }

  lemma {:induction false} KidsWithin(at: nat, k: Kids)
    requires AreKids(k)
    ensures Within(KidsTrace(at, k), at, at + |KidsWords(k)|)
    decreases k
  {
    hide PropsWords, TreeWords, PropsTrace, TreeTrace;
    match k
    case End =>
    case Gap(r) =>
      KidsWithin(at + 1, r);
    case Kid(t, r) =>
      TreeSize(t);
      KidsWithin(at + 1 + |t.name| + |PropsWords(t.props)|, t.kids);
      TreeWithin(at, t);
      KidsWithin(at + |TreeWords(t)|, r);
      WithinAppend(TreeTrace(at, t), KidsTrace(at + |TreeWords(t)|, r), at, at + |KidsWords(k)|);
  }

  // only words of the block are deleted
  lemma {:induction false} GoneWithin(hit: Prop -> bool, at: nat, k: Kids, pos: nat)
    requires Gone(hit, at, k, pos)
    ensures at <= pos < at + |KidsWords(k)|
    decreases k
  {
    hide PropsWords, TreeWords, Hits;
    match k
    case End =>
    case Gap(r) =>
      GoneWithin(hit, at + 1, r, pos);
    case Kid(t, r) =>
      TreeSize(t);
      if Gone(hit, at + |TreeWords(t)|, r, pos) {
        GoneWithin(hit, at + |TreeWords(t)|, r, pos);
      } else if !Hits(hit, t.props) {
        GoneWithin(hit, at + 1 + |t.name| + |PropsWords(t.props)|, t.kids, pos);
      }
  }

  lemma {:induction false} GapsTrace(at: nat, n: nat, r: Kids)
    ensures KidsTrace(at, Gaps(n, r)) == KidsTrace(at + n, r)
    decreases n
  {
    if n > 0 {
      GapsTrace(at + 1, n - 1, r);
    }
  }

  lemma {:induction false} FilterLength(hit: Prop -> bool, k: Kids)
    ensures |KidsWords(Filter(hit, k))| == |KidsWords(k)|
    decreases k
  {
    hide TreeWords, Hits, Bswap, Gaps;
    match k
    case End =>
    case Gap(r) =>
      FilterLength(hit, r);
    case Kid(t, r) =>
      FilterLength(hit, r);
      FilterLength(hit, t.kids);
      TreeSize(t);
      TreeSize(t.(kids := Filter(hit, t.kids)));
      GapsWords(|TreeWords(t)|, Filter(hit, r));
  }

  // a node's words with other children of the same size
  lemma TreeWordAt(t: Tree, k: Kids, i: nat)
    requires |KidsWords(k)| == |KidsWords(t.kids)| && i < |TreeWords(t)|
    ensures |TreeWords(t.(kids := k))| == |TreeWords(t)|
    ensures var inner := 1 + |t.name| + |PropsWords(t.props)|;
            TreeWords(t.(kids := k))[i]
            == if inner <= i < inner + |KidsWords(k)| then KidsWords(k)[i - inner] else TreeWords(t)[i]
    ensures var inner := 1 + |t.name| + |PropsWords(t.props)|;
            inner <= i < inner + |KidsWords(k)| ==> TreeWords(t)[i] == KidsWords(t.kids)[i - inner]
  {
    hide Bswap, KidsWords, PropsWords;
    WordsAt([Bswap(FDT_BEGIN_NODE)] + t.name + PropsWords(t.props), KidsWords(t.kids), [Bswap(FDT_END_NODE)], i);
    WordsAt([Bswap(FDT_BEGIN_NODE)] + t.name + PropsWords(t.props), KidsWords(k), [Bswap(FDT_END_NODE)], i);
  }

  lemma WordsAt(a: seq<bv32>, b: seq<bv32>, c: seq<bv32>, i: nat)
    requires i < |a| + |b| + |c|
    ensures (a + b + c)[i] == if i < |a| then a[i] else if i < |a| + |b| then b[i - |a|] else c[i - |a| - |b|]
  {
  }

  // Every token keeps its position: the words of deleted subtrees become NOPs, the others stay.
  lemma {:induction false} FilterWords(hit: Prop -> bool, at: nat, k: Kids, i: nat)
    requires i < |KidsWords(k)|
    ensures |KidsWords(Filter(hit, k))| == |KidsWords(k)|
    ensures KidsWords(Filter(hit, k))[i] == if Gone(hit, at, k, at + i) then Bswap(FDT_NOP) else KidsWords(k)[i]
    decreases k
  {
    hide PropsWords, TreeWords, Hits, Bswap, Gaps;
    FilterLength(hit, k);
    match k
    case End =>
    case Gap(r) =>
      if i > 0 {
        FilterWords(hit, at + 1, r, i - 1);
      } else if Gone(hit, at + 1, r, at) {
        GoneWithin(hit, at + 1, r, at);
      }
    case Kid(t, r) =>
      var n := |TreeWords(t)|;
      GapsWords(n, Filter(hit, r));
      TreeSize(t);
      TreeSize(t.(kids := Filter(hit, t.kids)));
      FilterLength(hit, t.kids);
      if i >= n {
        FilterWords(hit, at + n, r, i - n);
        NotInTree(hit, at, t, at + i);
      } else {
        if Gone(hit, at + n, r, at + i) {
          GoneWithin(hit, at + n, r, at + i);
        }
        FilterTreeWord(hit, at, t, i);
      }
  }

  // past a node nothing of it is deleted
  lemma NotInTree(hit: Prop -> bool, at: nat, t: Tree, pos: nat)
    requires pos >= at + |TreeWords(t)|
    ensures !Gone(hit, at + 1 + |t.name| + |PropsWords(t.props)|, t.kids, pos)
  {
    hide PropsWords, TreeWords, KidsWords, Gone;
    TreeSize(t);
    if Gone(hit, at + 1 + |t.name| + |PropsWords(t.props)|, t.kids, pos) {
      GoneWithin(hit, at + 1 + |t.name| + |PropsWords(t.props)|, t.kids, pos);
    }
  }

  lemma {:induction false} FilterTreeWord(hit: Prop -> bool, at: nat, t: Tree, i: nat)
    requires i < |TreeWords(t)|
    ensures |TreeWords(t.(kids := Filter(hit, t.kids)))| == |TreeWords(t)|
    ensures TreeWords(t.(kids := Filter(hit, t.kids)))[i]
         == if Gone(hit, at + 1 + |t.name| + |PropsWords(t.props)|, t.kids, at + i) then Bswap(FDT_NOP)
             else TreeWords(t)[i]
    decreases t
  {
    hide PropsWords, TreeWords, Hits, Bswap, Filter, KidsWords, Gone;
    var inner := 1 + |t.name| + |PropsWords(t.props)|;
    FilterLength(hit, t.kids);
    TreeWordAt(t, Filter(hit, t.kids), i);
    if inner <= i < inner + |KidsWords(t.kids)| {
      FilterWords(hit, at + inner, t.kids, i - inner);
    } else if Gone(hit, at + inner, t.kids, at + i) {
      GoneWithin(hit, at + inner, t.kids, at + i);
    }
  }

  // ----- what a rescan reports -----

  lemma Dropped(hit: Prop -> bool, at: nat, k: Kids, events: seq<Event>, lo: nat, hi: nat)
    requires Within(events, lo, hi) && (hi <= at || at + |KidsWords(k)| <= lo)
    ensures forall i :: 0 <= i < |events| ==> !Gone(hit, at, k, events[i].at)
  {
    hide KidsWords, Gone;
    forall i | 0 <= i < |events| ensures !Gone(hit, at, k, events[i].at) {
      if Gone(hit, at, k, events[i].at) {
        GoneWithin(hit, at, k, events[i].at);
      }
    }
  }

  // dropping the positions of deleted words
  ghost function Drop(hit: Prop -> bool, at: nat, k: Kids): nat -> bool {
    (pos: nat) => Gone(hit, at, k, pos)
  }

  // The rescan reports the original trace without the events of the deleted subtrees, at the same positions.
  lemma {:induction false} FilterTrace(hit: Prop -> bool, at: nat, k: Kids)
    requires AreKids(k)
    ensures KidsTrace(at, Filter(hit, k)) == Keep(Drop(hit, at, k), KidsTrace(at, k))
    decreases k, 0
  {
    hide PropsWords, TreeWords, Hits, Bswap, Gaps, Gone, Keep, TreeTrace, Drop;
    match k
    case End =>
      KeepNothing(Drop(hit, at, k));
    case Gap(r) =>
      FilterTrace(hit, at + 1, r);
      GapDrop(hit, at, r);
    case Kid(t, r) =>
      var next := at + |TreeWords(t)|;
      FilterTrace(hit, next, r);
      KeepAppend(Drop(hit, at, k), TreeTrace(at, t), KidsTrace(next, r));
      KeepRest(hit, at, t, r);
      if Hits(hit, t.props) {
        GapsTrace(at, |TreeWords(t)|, Filter(hit, r));
        DropTree(hit, at, t, r);
      } else {
        FilterLength(hit, t.kids);
        TreeSize(t);
        TreeSize(t.(kids := Filter(hit, t.kids)));
        KeepTree(hit, at, t, r);
      }
  }

  lemma KeepNothing(drop: nat -> bool)
    ensures Keep(drop, []) == []
  {
  }

  lemma GapDrop(hit: Prop -> bool, at: nat, r: Kids)
    ensures Keep(Drop(hit, at, Gap(r)), KidsTrace(at + 1, r)) == Keep(Drop(hit, at + 1, r), KidsTrace(at + 1, r))
  {
    hide KidsTrace, Keep;
    KeepSame(Drop(hit, at, Gap(r)), Drop(hit, at + 1, r), KidsTrace(at + 1, r));
  }

  // for the events after a node only what comes after it counts
  lemma KeepRest(hit: Prop -> bool, at: nat, t: Tree, r: Kids)
    requires IsTree(t) && AreKids(r)
    ensures var rest := KidsTrace(at + |TreeWords(t)|, r);
            Keep(Drop(hit, at, Kid(t, r)), rest) == Keep(Drop(hit, at + |TreeWords(t)|, r), rest)
  {
    hide KidsTrace, Keep, TreeWords, PropsWords, Hits;
    var n := |TreeWords(t)|;
    var rest := KidsTrace(at + n, r);
    KidsWithin(at + n, r);
    forall i | 0 <= i < |rest| ensures Drop(hit, at, Kid(t, r))(rest[i].at) == Drop(hit, at + n, r)(rest[i].at) {
      NotInTree(hit, at, t, rest[i].at);
    }
    KeepSame(Drop(hit, at, Kid(t, r)), Drop(hit, at + n, r), rest);
  }

  lemma AllInTree(at: nat, t: Tree)
    requires IsTree(t)
    ensures Within(TreeTrace(at, t), at, at + |TreeWords(t)|)
  {
    hide KidsTrace, TreeWords, PropsWords, TreeTrace, KidsWords;
    var inner := at + 1 + |t.name| + |PropsWords(t.props)|;
    TreeSize(t);
    KidsWithin(inner, t.kids);
    TreeWithin(at, t);
  }

  lemma DropTree(hit: Prop -> bool, at: nat, t: Tree, r: Kids)
    requires IsTree(t) && Hits(hit, t.props)
    ensures Keep(Drop(hit, at, Kid(t, r)), TreeTrace(at, t)) == []
  {
    hide KidsTrace, Keep, TreeWords, TreeTrace, PropsWords, Hits;
    AllInTree(at, t);
    KeepNone(Drop(hit, at, Kid(t, r)), TreeTrace(at, t));
  }

  // for the events of a node that stays only the deletions among its children count
  lemma KeepEvents(hit: Prop -> bool, at: nat, t: Tree, r: Kids, events: seq<Event>)
    requires IsTree(t) && !Hits(hit, t.props) && Within(events, at, at + |TreeWords(t)|)
    ensures var inner := at + 1 + |t.name| + |PropsWords(t.props)|;
            Keep(Drop(hit, at, Kid(t, r)), events) == Keep(Drop(hit, inner, t.kids), events)
  {
    hide KidsTrace, Keep, TreeWords, TreeTrace, PropsWords, Hits;
    var inner := at + 1 + |t.name| + |PropsWords(t.props)|;
    Dropped(hit, at + |TreeWords(t)|, r, events, at, at + |TreeWords(t)|);
    KeepSame(Drop(hit, at, Kid(t, r)), Drop(hit, inner, t.kids), events);
  }

  lemma {:induction false} KeepTree(hit: Prop -> bool, at: nat, t: Tree, r: Kids)
    requires IsTree(t) && !Hits(hit, t.props)
    ensures Keep(Drop(hit, at, Kid(t, r)), TreeTrace(at, t)) == TreeTrace(at, t.(kids := Filter(hit, t.kids)))
    decreases t.kids, 1
  {
    hide Keep, TreeWords, PropsWords, Hits, Drop, KidsTrace, Filter, PropsTrace, KidsWords;
    var n, body, inner := at + 1, at + 1 + |t.name|, at + 1 + |t.name| + |PropsWords(t.props)|;
    AllInTree(at, t);
    KeepEvents(hit, at, t, r, TreeTrace(at, t));
    FilterTrace(hit, inner, t.kids);
    PropsWithin(body, t.props);
    var ps, ks, drop := PropsTrace(body, t.props), KidsTrace(inner, t.kids), Drop(hit, inner, t.kids);
    KeepBefore(hit, inner, t.kids, ps, body);
    KeepBefore(hit, inner, t.kids, [Open(n)], n);
    KeepBefore(hit, inner, t.kids, [Done(n)], n);
    KeepBefore(hit, inner, t.kids, [Close(n)], n);
    KeepAppend(drop, [Open(n)] + ps + [Done(n)] + ks, [Close(n)]);
    KeepAppend(drop, [Open(n)] + ps + [Done(n)], ks);
    KeepAppend(drop, [Open(n)] + ps, [Done(n)]);
    KeepAppend(drop, [Open(n)], ps);
  }

  lemma KeepBefore(hit: Prop -> bool, at: nat, k: Kids, events: seq<Event>, lo: nat)
    requires Within(events, lo, at)
    ensures Keep(Drop(hit, at, k), events) == events
  {
    hide Keep, KidsWords, Gone;
    Dropped(hit, at, k, events, lo, at);
    KeepAll(Drop(hit, at, k), events);
  }

  // ----- nothing is left to delete -----

  // no node has a matching property
  ghost predicate Clean(hit: Prop -> bool, k: Kids)
    decreases k
  {
    match k
    case End => true
    case Gap(r) => Clean(hit, r)
    case Kid(t, r) => !Hits(hit, t.props) && Clean(hit, t.kids) && Clean(hit, r)
  }

  lemma {:induction false} GapsClean(hit: Prop -> bool, n: nat, r: Kids)
    ensures Clean(hit, Gaps(n, r)) <==> Clean(hit, r)
    ensures AreKids(Gaps(n, r)) <==> AreKids(r)
  {
    if n > 0 {
      GapsClean(hit, n - 1, r);
    }
  }

  // What is left is a well-formed tree without a matching node.
  lemma {:induction false} FilterClean(hit: Prop -> bool, k: Kids)
    requires AreKids(k)
    ensures Clean(hit, Filter(hit, k)) && AreKids(Filter(hit, k))
    decreases k
  {
    hide TreeWords, Hits, Gaps, IsName, AreProps;
    match k
    case End =>
    case Gap(r) =>
      FilterClean(hit, r);
    case Kid(t, r) =>
      FilterClean(hit, r);
      FilterClean(hit, t.kids);
      GapsClean(hit, |TreeWords(t)|, Filter(hit, r));
  }

  // Whatever the sentinel does, what is left is well-formed.
  lemma {:induction false} DeletedKids(hit: Prop -> bool, d: nat, k: Kids)
    requires AreKids(k)
    ensures AreKids(Deleted(hit, d, k))
    decreases k
  {
    hide TreeWords, Hits, Gaps, IsName, AreProps;
    match k
    case End =>
    case Gap(r) =>
      DeletedKids(hit, d, r);
    case Kid(t, r) =>
      DeletedKids(hit, d, r);
      DeletedKids(hit, d + 1, t.kids);
      GapsClean(hit, |TreeWords(t)|, Deleted(hit, d, r));
  }

  // A second pass deletes nothing.
  lemma {:induction false} FilterOfClean(hit: Prop -> bool, k: Kids)
    requires Clean(hit, k)
    ensures Filter(hit, k) == k
    decreases k
  {
    hide TreeWords, Hits, Gaps;
    match k
    case End =>
    case Gap(r) =>
      FilterOfClean(hit, r);
    case Kid(t, r) =>
      FilterOfClean(hit, r);
      FilterOfClean(hit, t.kids);
  }

  // ----- filter_compat -----

  // the bytes of a property value
  function ValueBytes(p: Prop): seq<bv8> {
    if |p.value| == ValueWords(p.len) then
      seq(p.len as nat, i requires 0 <= i < p.len as nat => Byte(p.value[i / 4], i % 4))
    else []
  }

  // "compatible"
  const COMPATIBLE: seq<bv8> := [0x63, 0x6f, 0x6d, 0x70, 0x61, 0x74, 0x69, 0x62, 0x6c, 0x65]

  lemma CompatibleString()
    ensures COMPATIBLE == Ascii("compatible")
  {
  }

  // the test of compat_prop: the property is "compatible" and its string list contains compat
  predicate NamesCompat(strings: seq<bv8>, compat: seq<bv8>, p: Prop) {
    && p.name as nat <= |strings| && Str(strings[p.name as nat..]) == COMPATIBLE
    && FirstIndex(Strings(ValueBytes(p)), compat) >= 0
  }

  // A list that strcmp can walk: the names are in the terminated strings block, and a "compatible" value ends
  // with a terminator.
  ghost predicate Readable(strings: seq<bv8>, k: Kids)
    decreases k
  {
    match k
    case End => true
    case Gap(r) => Readable(strings, r)
    case Kid(t, r) =>
      && (forall i :: 0 <= i < |t.props| && t.props[i].PropAt? ==> ReadableProp(strings, t.props[i].prop))
      && Readable(strings, t.kids) && Readable(strings, r)
  }

  ghost predicate ReadableProp(strings: seq<bv8>, p: Prop) {
    && p.name as nat < |strings| && strings[|strings| - 1] == 0
    && (Str(strings[p.name as nat..]) == COMPATIBLE ==> Terminated(ValueBytes(p)))
  }

  // the test for one string, as a function of the property
  ghost function Matching(strings: seq<bv8>, compat: seq<bv8>): Prop -> bool {
    p => NamesCompat(strings, compat, p)
  }

  // The property is called "compatible" and compat is one of the strings of its value, byte by byte.
  ghost predicate CompatibleWith(strings: seq<bv8>, compat: seq<bv8>, p: Prop) {
    StringAt(strings, p.name as nat, Ascii("compatible")) && InList(ValueBytes(p), compat)
  }

  lemma NamesCompatIs(strings: seq<bv8>, compat: seq<bv8>, p: Prop)
    requires ReadableProp(strings, p) && forall i :: 0 <= i < |compat| ==> compat[i] != 0
    ensures NamesCompat(strings, compat, p) <==> CompatibleWith(strings, compat, p)
  {
    hide Str, Strings, ValueBytes, StringAt, InList, Ascii;
    CompatibleString();
    StrAt(strings, p.name as nat, COMPATIBLE);
    if Str(strings[p.name as nat..]) == COMPATIBLE {
      ListHas(ValueBytes(p), compat);
    }
  }

  // the two tests agree on the properties of a tree that can be read
  ghost predicate Agree(strings: seq<bv8>, hit: Prop -> bool, hit': Prop -> bool) {
    forall p: Prop :: ReadableProp(strings, p) ==> (hit(p) <==> hit'(p))
  }

  lemma HitsAgree(strings: seq<bv8>, hit: Prop -> bool, hit': Prop -> bool, ps: seq<PropItem>)
    requires Agree(strings, hit, hit')
    requires forall i :: 0 <= i < |ps| && ps[i].PropAt? ==> ReadableProp(strings, ps[i].prop)
    ensures Hits(hit, ps) <==> Hits(hit', ps)
  {
    hide ReadableProp;
  }

  lemma {:induction false} DeletedAgree(strings: seq<bv8>, hit: Prop -> bool, hit': Prop -> bool, d: nat, k: Kids)
    requires Agree(strings, hit, hit') && Readable(strings, k)
    ensures Deleted(hit, d, k) == Deleted(hit', d, k) && Filter(hit, k) == Filter(hit', k)
    ensures Levels(hit, k) == Levels(hit', k)
    decreases k
  {
    hide Agree, ReadableProp, Hits, TreeWords, Gaps;
    match k
    case End =>
    case Gap(r) =>
      DeletedAgree(strings, hit, hit', d, r);
    case Kid(t, r) =>
      HitsAgree(strings, hit, hit', t.props);
      DeletedAgree(strings, hit, hit', d, r);
      DeletedAgree(strings, hit, hit', d + 1, t.kids);
      DeletedAgree(strings, hit, hit', d, t.kids);
  }

  // a blob that the scanner understands and whose lists it can walk
  ghost predicate Filterable(s: seq<bv32>, strings: seq<bv8>, kids: Kids, pre: seq<bv32>, post: seq<bv32>) {
    |s| >= 10 && Understood(s) && Holds(s, kids, pre, post) && Readable(strings, kids)
  }

  // Deleting the nodes that are compatible with compat.  For any test hit that holds of the properties of the tree
  // with the name "compatible" and the string compat in their value: the blob holds a well-formed tree again, and
  // exactly the nodes with such a property and the nodes below them are gone if and only if fewer than 999 other nodes
  // are nested.
  method FilterCompat(mem: array<bv32>, strings: seq<bv8>, compat: seq<bv8>, ghost hit: Prop -> bool,
                      ghost kids: Kids, ghost pre: seq<bv32>, ghost post: seq<bv32>) returns (ghost left: Kids)
    requires mem.Length >= 10 && (Understood(mem[..]) ==> Filterable(mem[..], strings, kids, pre, post))
    requires forall i :: 0 <= i < |compat| ==> compat[i] != 0
    requires forall p: Prop :: ReadableProp(strings, p) ==> (hit(p) <==> CompatibleWith(strings, compat, p))
    modifies mem
    ensures !old(Understood(mem[..])) ==> mem[..] == old(mem[..])
    ensures old(Understood(mem[..])) ==>
      && Understood(mem[..]) && Holds(mem[..], left, pre, post)
      && left == Deleted(hit, 0, kids) && (left == Filter(hit, kids) <==> Levels(hit, kids) < NEVER)
  {
    hide Bswap, Layout, CompatibleWith, ReadableProp, Deleted, Filter, Levels, AreKids, Readable;
    if Understood(mem[..]) {
      ghost var test := Matching(strings, compat);
      HitIsTest(strings, compat, hit);
      DeletedAgree(strings, hit, test, 0, kids);
    }
    left := FilterMatching(mem, strings, compat, kids, pre, post);
  }

  lemma HitIsTest(strings: seq<bv8>, compat: seq<bv8>, hit: Prop -> bool)
    requires forall i :: 0 <= i < |compat| ==> compat[i] != 0
    requires forall p: Prop :: ReadableProp(strings, p) ==> (hit(p) <==> CompatibleWith(strings, compat, p))
    ensures Agree(strings, hit, Matching(strings, compat))
  {
    hide CompatibleWith, ReadableProp, NamesCompat;
    forall p: Prop | ReadableProp(strings, p) ensures hit(p) <==> NamesCompat(strings, compat, p) {
      NamesCompatIs(strings, compat, p);
    }
  }

  // filter_compat with its own test
  method FilterMatching(mem: array<bv32>, strings: seq<bv8>, compat: seq<bv8>,
                        ghost kids: Kids, ghost pre: seq<bv32>, ghost post: seq<bv32>) returns (ghost left: Kids)
    requires mem.Length >= 10 && (Understood(mem[..]) ==> Filterable(mem[..], strings, kids, pre, post))
    modifies mem
    ensures !old(Understood(mem[..])) ==> mem[..] == old(mem[..])
    ensures old(Understood(mem[..])) ==> Understood(mem[..]) && Holds(mem[..], left, pre, post)
    ensures var hit := Matching(strings, compat);
            left == Deleted(hit, 0, kids)
            && (left == Filter(hit, kids) <==> Levels(hit, kids) < NEVER)
  {
    hide Bswap, Layout, NamesCompat, Deleted, Filter, Levels, WalkKids, KidsTrace, Fold, AreKids, Readable;
    var hit := p => NamesCompat(strings, compat, p);
    assert hit == Matching(strings, compat);
    FilterIsExact(hit, |pre|, kids);
    left := Deleted(hit, 0, kids);
    ghost var before := mem[..];
    var s := Scan(mem, CompatCallbacks(hit), Compat(0, NEVER), kids, pre, post);
    if Understood(before) {
      HeaderStays(before, mem[..], pre, KidsWords(kids), KidsWords(left), post);
      DeletedKids(hit, 0, kids);
    }
  }

  // the original trace without the events of deleted subtrees
  ghost function TraceLeft(hit: Prop -> bool, at: nat, k: Kids): seq<Event> {
    Keep(Drop(hit, at, k), KidsTrace(at, k))
  }

  // Erase, then rescan: any scan after the filter sees the original trace without the events of the nodes
  // that are compatible with compat and of the nodes below them.
  method FilterThenScan<S>(mem: array<bv32>, strings: seq<bv8>, compat: seq<bv8>, cb: Callbacks<S>, s0: S,
                           ghost hit: Prop -> bool, ghost kids: Kids, ghost pre: seq<bv32>, ghost post: seq<bv32>)
    returns (s: S)
    requires Filterable(mem[..], strings, kids, pre, post) && forall i :: 0 <= i < |compat| ==> compat[i] != 0
    requires forall p: Prop :: ReadableProp(strings, p) ==> (hit(p) <==> CompatibleWith(strings, compat, p))
    modifies mem
    ensures Levels(hit, kids) < NEVER ==> s == Fold(cb, s0, TraceLeft(hit, |pre|, kids))
  {
    hide Bswap, Layout, CompatibleWith, ReadableProp, Deleted, Filter, Levels, KidsTrace, Fold, Readable, KidsWords,
         Understood, Drop, Keep;
    ghost var left := FilterCompat(mem, strings, compat, hit, kids, pre, post);
    s := Scan(mem, cb, s0, left, pre, post);
    if Levels(hit, kids) < NEVER {
      FilterTrace(hit, |pre|, kids);
    }
  }
}
