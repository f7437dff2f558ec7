// ge_double_scalarmult_vartime: a A + b B with signed sliding windows over a table of odd multiples.
module DoubleScalarMult {
  import opened Ints
  import opened Bits
  import opened Ge
  import opened Edwards
  import opened GeGroup
  import opened Scalars
  import opened Digits

  // d g is added to t for a non-zero digit d, where q holds |d| g
  method AddDigit<G(!new)>(t: P1P1, u: P3, q: Cached, d: int8, ghost c: Curve<G>, ghost g: G, ghost h: G)
    requires Laws(c) && d != 0 && d != -128 && IsCached(q, c, SMul(c, if d > 0 then d as int else -(d as int), g))
        && IsP1P1(t, c, h)
    requires t.Ok() && u.Ok() && u.Repr() !! t.Repr() && q.Repr() !! t.Repr() && q.Repr() !! u.Repr()
    modifies t.Repr(), u.Repr()
    ensures IsP1P1(t, c, c.add(h, SMul(c, d as int, g)))
  {
    hide IsCached, IsP3, IsP1P1, SMul, GroupLaws, CoordinateLaws, PrimeField;
    ToP3(u, t, c, h);
    if d > 0 {
      AddPoint(t, u, q, c, h, SMul(c, d as int, g));
    } else {
      SubPoint(t, u, q, c, h, SMul(c, -d as int, g));
      SMulNeg(c, -d as int, g);
    }
  }

  method AddPrecomputed<G(!new)>(t: P1P1, u: P3, q: Precomp, d: int8, ghost c: Curve<G>, ghost g: G, ghost h: G)
    requires Laws(c) && d != 0 && d != -128 && IsPrecomp(q, c, SMul(c, if d > 0 then d as int else -(d as int), g))
        && IsP1P1(t, c, h) && On(c, g)
    requires t.Ok() && u.Ok() && u.Repr() !! t.Repr() && q.Repr() !! t.Repr() && q.Repr() !! u.Repr()
    modifies t.Repr(), u.Repr()
    ensures IsP1P1(t, c, c.add(h, SMul(c, d as int, g)))
  {
    hide On, IsPrecomp, IsP3, IsP1P1, SMul, GroupLaws, CoordinateLaws, PrimeField;
    SMulOn(c, if d > 0 then d as int else -(d as int), g);
    ToP3(u, t, c, h);
    if d > 0 {
      MAddPoint(t, u, q, c, h, SMul(c, d as int, g));
    } else {
      MSubPoint(t, u, q, c, h, SMul(c, -d as int, g));
      SMulNeg(c, -d as int, g);
    }
  }

  // Entry k of the table holds (2k + 1) g; fp is the memory of the table.
  ghost predicate OddCached<G(!new)>(s: seq<Cached>, fp: set<object>, c: Curve<G>, g: G)
    reads fp
  {
    |s| == 8 && forall k :: 0 <= k < 8 ==> s[k].Repr() <= fp && IsCached(s[k], c, SMul(c, 2 * k + 1, g))
  }

  lemma OddCachedEntry<G(!new)>(s: seq<Cached>, fp: set<object>, c: Curve<G>, g: G, d: int)
    requires OddCached(s, fp, c, g) && 0 < d <= 15 && d % 2 == 1
    ensures s[d / 2].Repr() <= fp && IsCached(s[d / 2], c, SMul(c, d, g))
  {
    hide IsCached, SMul;
    assert d == 2 * (d / 2) + 1;
  }

  ghost predicate OddPrecomp<G(!new)>(s: seq<Precomp>, fp: set<object>, c: Curve<G>, g: G)
    reads fp
  {
    && |s| == 8 && On(c, g)
    && forall k :: 0 <= k < 8 ==> s[k].Repr() <= fp && IsPrecomp(s[k], c, SMul(c, 2 * k + 1, g))
  }

  lemma OddPrecompEntry<G(!new)>(s: seq<Precomp>, fp: set<object>, c: Curve<G>, g: G, d: int)
    requires OddPrecomp(s, fp, c, g) && 0 < d <= 15 && d % 2 == 1
    ensures s[d / 2].Repr() <= fp && IsPrecomp(s[d / 2], c, SMul(c, d, g)) && On(c, g)
  {
    hide IsPrecomp, SMul, On;
    assert d == 2 * (d / 2) + 1;
  }

  // the table multiple for the digit d is added to t, or taken off for a negative digit
  method AccumulateCached<G(!new)>(t: P1P1, u: P3, s: seq<Cached>, d: int8,
                                ghost fp: set<object>, ghost c: Curve<G>, ghost g: G, ghost h: G)
    requires Laws(c) && Digit(d) && OddCached(s, fp, c, g) && IsP1P1(t, c, h)
    requires t.Ok() && u.Ok() && u.Repr() !! t.Repr() && fp !! t.Repr() && fp !! u.Repr()
    modifies t.Repr(), u.Repr()
    ensures IsP1P1(t, c, c.add(h, SMul(c, d as int, g)))
    ensures OddCached(s, fp, c, g)
  {
    hide IsP1P1, IsP3, SMul, GroupLaws, CoordinateLaws, PrimeField;
    if d > 0 {
      OddCachedEntry(s, fp, c, g, d as int);
      hide OddCached;
      AddDigit(t, u, s[d / 2], d, c, g, h);
    } else if d < 0 {
      OddCachedEntry(s, fp, c, g, -d as int);
      hide OddCached;
      AddDigit(t, u, s[(-d) / 2], d, c, g, h);
    } else {
      SMulOne(c, g);
      Zero(c, h);
    }
  }

  // the table multiple for the digit d is added to t, or taken off for a negative digit
  method AccumulatePrecomp<G(!new)>(t: P1P1, u: P3, s: seq<Precomp>, d: int8,
                                ghost fp: set<object>, ghost c: Curve<G>, ghost g: G, ghost h: G)
    requires Laws(c) && Digit(d) && OddPrecomp(s, fp, c, g) && IsP1P1(t, c, h)
    requires t.Ok() && u.Ok() && u.Repr() !! t.Repr() && fp !! t.Repr() && fp !! u.Repr()
    modifies t.Repr(), u.Repr()
    ensures IsP1P1(t, c, c.add(h, SMul(c, d as int, g)))
    ensures OddPrecomp(s, fp, c, g)
  {
    hide IsP1P1, IsP3, SMul, GroupLaws, CoordinateLaws, PrimeField;
    if d > 0 {
      OddPrecompEntry(s, fp, c, g, d as int);
      hide OddPrecomp;
      AddPrecomputed(t, u, s[d / 2], d, c, g, h);
    } else if d < 0 {
      OddPrecompEntry(s, fp, c, g, -d as int);
      hide OddPrecomp;
      AddPrecomputed(t, u, s[(-d) / 2], d, c, g, h);
    } else {
      SMulOne(c, g);
      Zero(c, h);
    }
  }

  // 2 (m g + n h) + d g + e h
  lemma Horner<G(!new)>(c: Curve<G>, g: G, h: G, m: int, n: int, d: int, e: int)
    requires GroupLaws(c)
    ensures var p := c.add(SMul(c, m, g), SMul(c, n, h));
            c.add(c.add(c.add(p, p), SMul(c, d, g)), SMul(c, e, h))
            == c.add(SMul(c, d + 2 * m, g), SMul(c, e + 2 * n, h))
  {
    hide GroupLaws, SMul;
    var a, b := SMul(c, m, g), SMul(c, n, h);
    var x, y := SMul(c, d, g), SMul(c, e, h);
    Exchange(c, a, b, a, b);
    SMulAdd(c, m, m, g);
    SMulAdd(c, n, n, h);
    SMulAdd(c, m + m, d, g);
    SMulAdd(c, n + n, e, h);
    var aa, bb := c.add(a, a), c.add(b, b);
    Assoc(c, c.add(aa, bb), x, y);
    Exchange(c, aa, bb, x, y);
  }

  // The step of the descending loop: r = 2 r + d A + e B.
  method Step<G(!new)>(r: P2, t: P1P1, u: P3, Ai: seq<Cached>, Bi: seq<Precomp>, d: int8, e: int8,
                       ghost fa: set<object>, ghost fb: set<object>, ghost c: Curve<G>, ghost g: G, ghost h: G,
                       ghost m: int, ghost n: int)
    requires Laws(c) && Digit(d) && Digit(e) && OddCached(Ai, fa, c, g) && OddPrecomp(Bi, fb, c, h)
    requires r.Ok() && t.Ok() && u.Ok()
    requires r.Repr() !! t.Repr() && r.Repr() !! u.Repr() && t.Repr() !! u.Repr()
    requires fa !! r.Repr() && fa !! t.Repr() && fa !! u.Repr() && fb !! r.Repr() && fb !! t.Repr() && fb !! u.Repr()
    requires IsP2(r, c, c.add(SMul(c, m, g), SMul(c, n, h)))
    modifies r.Repr(), t.Repr(), u.Repr()
    ensures IsP2(r, c, c.add(SMul(c, d as int + 2 * m, g), SMul(c, e as int + 2 * n, h)))
    ensures OddCached(Ai, fa, c, g) && OddPrecomp(Bi, fb, c, h)
  {
    hide OddCached, OddPrecomp, IsP1P1, IsP2, SMul, GroupLaws, CoordinateLaws, PrimeField;
    ghost var p := c.add(SMul(c, m, g), SMul(c, n, h));
    DoubleP2(t, r, c, p);
    AccumulateCached(t, u, Ai, d, fa, c, g, c.add(p, p));
    AccumulatePrecomp(t, u, Bi, e, fb, c, h, c.add(c.add(p, p), SMul(c, d as int, g)));
    Horner(c, g, h, m, n, d as int, e as int);
    ToP2(r, t, c, c.add(SMul(c, d as int + 2 * m, g), SMul(c, e as int + 2 * n, h)));
  }

  // The part of the table that is already there.
  ghost predicate OddPrefix<G(!new)>(s: seq<Cached>, fp: set<object>, c: Curve<G>, g: G)
    reads fp
  {
    forall k :: 0 <= k < |s| ==> s[k].Repr() <= fp && IsCached(s[k], c, SMul(c, 2 * k + 1, g))
  }

  lemma ExtendPrefix<G(!new)>(s: seq<Cached>, fp: set<object>, q: Cached, c: Curve<G>, g: G)
    requires OddPrefix(s, fp, c, g) && IsCached(q, c, SMul(c, 2 * |s| + 1, g))
    ensures OddPrefix(s + [q], fp + q.Repr(), c, g)
  {
    hide IsCached, SMul;
  }

  lemma LastOfPrefix<G(!new)>(s: seq<Cached>, fp: set<object>, c: Curve<G>, g: G)
    requires OddPrefix(s, fp, c, g) && |s| > 0
    ensures s[|s| - 1].Repr() <= fp && IsCached(s[|s| - 1], c, SMul(c, 2 * |s| - 1, g))
  {
    hide IsCached, SMul;
    assert 2 * (|s| - 1) + 1 == 2 * |s| - 1;
  }

  // the next odd multiple is the last one plus 2A
  method NextOdd<G(!new)>(s: seq<Cached>, A2: P3, t: P1P1, u: P3, ghost fp: set<object>, ghost c: Curve<G>, ghost g: G)
    returns (s': seq<Cached>, ghost fp': set<object>)
    requires Laws(c) && IsP3(A2, c, SMul(c, 2, g)) && OddPrefix(s, fp, c, g) && |s| > 0
    requires t.Ok() && u.Ok() && t.Repr() !! u.Repr() && t.Repr() !! A2.Repr() && u.Repr() !! A2.Repr()
    requires fp !! t.Repr() && fp !! u.Repr()
    modifies t.Repr(), u.Repr()
    ensures |s'| == |s| + 1 && OddPrefix(s', fp', c, g) && fresh(fp' - fp) && fp <= fp'
    ensures IsP3(A2, c, SMul(c, 2, g))
  {
    hide IsCached, IsP3, IsP1P1, SMul, GroupLaws, CoordinateLaws, PrimeField;
    LastOfPrefix(s, fp, c, g);
    hide OddPrefix;
    var prev := s[|s| - 1];
    var next := new Cached();
    ghost var k := 2 * |s| - 1;
    ghost var h := SMul(c, k + 2, g);
    SMulAdd(c, 2, k, g);
    AddPoint(t, A2, prev, c, SMul(c, 2, g), SMul(c, k, g));
    ToP3(u, t, c, h);
    ToCached(next, u, c, h);
    s' := s + [next];
    fp' := fp + next.Repr();
    ExtendPrefix(s, fp, next, c, g);
  }

  // A2 = 2A
  method Twice<G(!new)>(A2: P3, t: P1P1, A: P3, ghost c: Curve<G>, ghost g: G)
    requires Laws(c) && IsP3(A, c, g) && A2.Ok() && t.Ok() && t.Repr() !! A.Repr() && A2.Repr() !! t.Repr()
    modifies A2.Repr(), t.Repr()
    ensures IsP3(A2, c, SMul(c, 2, g))
  {
    hide IsP3, IsP1P1, SMul, GroupLaws, CoordinateLaws, PrimeField;
    SMulOne(c, g);
    SMulAdd(c, 1, 1, g);
    DoubleP3(t, A, c, g);
    ToP3(A2, t, c, SMul(c, 2, g));
  }

  // The table A, 3A, 5A, .., 15A.
  method BuildTable<G(!new)>(A: P3, ghost c: Curve<G>, ghost g: G) returns (Ai: seq<Cached>, ghost fa: set<object>)
    requires Laws(c) && IsP3(A, c, g)
    ensures fresh(fa) && OddCached(Ai, fa, c, g)
  {
    hide IsP3, Laws, OddPrefix, OddCached;
    var first := FirstOdd(A, c, g);
    Ai, fa := RestOdd([first], A, first.Repr(), c, g);
  }

  // the double of A, and the other seven entries
  method RestOdd<G(!new)>(s: seq<Cached>, A: P3, ghost fp: set<object>, ghost c: Curve<G>, ghost g: G)
    returns (Ai: seq<Cached>, ghost fa: set<object>)
    requires Laws(c) && IsP3(A, c, g) && OddPrefix(s, fp, c, g) && |s| == 1
    ensures fresh(fa - fp) && OddCached(Ai, fa, c, g)
  {
    hide IsP3, SMul, Laws, OddPrefix, OddCached;
    assert A.Repr() == {A.X, A.Y, A.Z, A.T};
    var t := new P1P1();
    var A2 := new P3();
    Twice(A2, t, A, c, g);
    var u := new P3();
    Ai, fa := FillTable(s, A2, t, u, fp, c, g);
  }

  // the first entry is A itself
  method FirstOdd<G(!new)>(A: P3, ghost c: Curve<G>, ghost g: G) returns (q: Cached)
    requires Laws(c) && IsP3(A, c, g)
    ensures fresh(q.Repr()) && OddPrefix([q], q.Repr(), c, g) && IsP3(A, c, g)
  {
    LawsParts(c);
    hide IsCached, IsP3, SMul, Laws, OddPrefix;
    q := new Cached();
    ToCached(q, A, c, g);
    OnePrefix(q, c, g);
  }

  lemma OnePrefix<G(!new)>(q: Cached, c: Curve<G>, g: G)
    requires GroupLaws(c) && IsCached(q, c, g)
    ensures OddPrefix([q], q.Repr(), c, g)
  {
    hide IsCached, SMul, GroupLaws;
    SMulOne(c, g);
  }

  method FillTable<G(!new)>(s: seq<Cached>, A2: P3, t: P1P1, u: P3, ghost fp: set<object>, ghost c: Curve<G>,
      ghost g: G)
    returns (Ai: seq<Cached>, ghost fa: set<object>)
    requires Laws(c) && IsP3(A2, c, SMul(c, 2, g)) && OddPrefix(s, fp, c, g) && |s| == 1
    requires t.Ok() && u.Ok() && t.Repr() !! u.Repr() && t.Repr() !! A2.Repr() && u.Repr() !! A2.Repr()
    requires fp !! t.Repr() && fp !! u.Repr()
    modifies t.Repr(), u.Repr()
    ensures fresh(fa - fp) && OddCached(Ai, fa, c, g)
  {
    hide IsP3, SMul, Laws, OddPrefix, OddCached;
    Ai, fa := NextOdd(s, A2, t, u, fp, c, g);
    Ai, fa := NextOdd(Ai, A2, t, u, fa, c, g);
    Ai, fa := NextOdd(Ai, A2, t, u, fa, c, g);
    Ai, fa := NextOdd(Ai, A2, t, u, fa, c, g);
    Ai, fa := NextOdd(Ai, A2, t, u, fa, c, g);
    Ai, fa := NextOdd(Ai, A2, t, u, fa, c, g);
    Ai, fa := NextOdd(Ai, A2, t, u, fa, c, g);
    FullTable(Ai, fa, c, g);
  }

  lemma FullTable<G(!new)>(s: seq<Cached>, fp: set<object>, c: Curve<G>, g: G)
    requires OddPrefix(s, fp, c, g) && |s| == 8
    ensures OddCached(s, fp, c, g)
  {
    hide IsCached, SMul;
  }

  // the highest place with a non-zero digit, -1 if there is none
  method TopDigit(aslide: array<int8>, bslide: array<int8>) returns (i: int)
    requires aslide.Length == bslide.Length == 256
    ensures -1 <= i <= 255
    ensures forall j :: i < j < 256 ==> aslide[j] == 0 && bslide[j] == 0
  {
    i := 255;
    while i >= 0
      invariant -1 <= i <= 255
      invariant forall j :: i < j < 256 ==> aslide[j] == 0 && bslide[j] == 0
    {
      if aslide[i] != 0 || bslide[i] != 0 {
        break;
      }
      i := i - 1;
    }
  }

  lemma Val2Step(s: seq<int8>, i: nat)
    requires i < |s|
    ensures Val2(s[i..]) == s[i] as int + 2 * Val2(s[i + 1..])
  {
    assert s[i..][1..] == s[i + 1..];
  }

  // sum over j >= i of (a_j g + b_j h) 2^(j-i)
  ghost function Tail<G(!new)>(c: Curve<G>, g: G, h: G, sa: seq<int8>, sb: seq<int8>, i: nat): G
    requires i <= |sa| && i <= |sb|
  {
    c.add(SMul(c, Val2(sa[i..]), g), SMul(c, Val2(sb[i..]), h))
  }

  // one turn of the descending loop
  method Turn<G(!new)>(r: P2, t: P1P1, u: P3, Ai: seq<Cached>, Bi: seq<Precomp>,
                       ghost sa: seq<int8>, ghost sb: seq<int8>, ghost i: nat, d: int8, e: int8,
                       ghost fa: set<object>, ghost fb: set<object>, ghost c: Curve<G>, ghost g: G, ghost h: G)
    requires Laws(c) && OddCached(Ai, fa, c, g) && OddPrecomp(Bi, fb, c, h)
    requires r.Ok() && t.Ok() && u.Ok()
    requires r.Repr() !! t.Repr() && r.Repr() !! u.Repr() && t.Repr() !! u.Repr()
    requires fa !! r.Repr() && fa !! t.Repr() && fa !! u.Repr() && fb !! r.Repr() && fb !! t.Repr() && fb !! u.Repr()
    requires i < |sa| && i < |sb| && d == sa[i] && e == sb[i] && Digit(d) && Digit(e)
    requires IsP2(r, c, Tail(c, g, h, sa, sb, i + 1))
    modifies r.Repr(), t.Repr(), u.Repr()
    ensures IsP2(r, c, Tail(c, g, h, sa, sb, i))
    ensures OddCached(Ai, fa, c, g) && OddPrecomp(Bi, fb, c, h)
  {
    hide OddCached, OddPrecomp, IsP2, SMul, Laws, Val2, Digit;
    Val2Step(sa, i);
    Val2Step(sb, i);
    Step(r, t, u, Ai, Bi, d, e, fa, fb, c, g, h, Val2(sa[i + 1..]), Val2(sb[i + 1..]));
  }

  // The descending loop keeps r = sum over j >= i of (a_j A + b_j B) 2^(j-i).
  method Descend<G(!new)>(r: P2, aslide: array<int8>, bslide: array<int8>, top: int, Ai: seq<Cached>, Bi: seq<Precomp>,
                          ghost fa: set<object>, ghost fb: set<object>, ghost c: Curve<G>, ghost g: G, ghost h: G)
    requires Laws(c) && OddCached(Ai, fa, c, g) && OddPrecomp(Bi, fb, c, h)
    requires aslide.Length == bslide.Length == 256 && -1 <= top <= 255
    requires forall j :: 0 <= j < 256 ==> Digit(aslide[j]) && Digit(bslide[j])
    requires r.Ok() && fa !! r.Repr() && fb !! r.Repr()
    requires IsP2(r, c, Tail(c, g, h, aslide[..], bslide[..], top + 1))
    modifies r.Repr()
    ensures IsP2(r, c, Tail(c, g, h, old(aslide[..]), old(bslide[..]), 0))
  {
    hide OddCached, OddPrecomp, IsP2, Tail, Laws, Digit;
    ghost var sa, sb := aslide[..], bslide[..];
    var t := new P1P1();
    var u := new P3();
    var i := top;
    while i >= 0
      invariant -1 <= i <= 255 && aslide[..] == sa && bslide[..] == sb
      invariant OddCached(Ai, fa, c, g) && OddPrecomp(Bi, fb, c, h)
      invariant IsP2(r, c, Tail(c, g, h, sa, sb, i + 1))
    {
      Turn(r, t, u, Ai, Bi, sa, sb, i, aslide[i], bslide[i], fa, fb, c, g, h);
      i := i - 1;
    }
  }

  lemma LawsParts<G(!new)>(c: Curve<G>)
    requires Laws(c)
    ensures GroupLaws(c) && CoordinateLaws(c)
  {
    hide GroupLaws, CoordinateLaws, PrimeField;
  }

  lemma ZeroTail<G(!new)>(c: Curve<G>, g: G, h: G, s: seq<int8>, t: seq<int8>, i: nat)
    requires GroupLaws(c) && i <= |s| && i <= |t|
    requires (forall j :: i <= j < |s| ==> s[j] == 0) && (forall j :: i <= j < |t| ==> t[j] == 0)
    ensures Tail(c, g, h, s, t, i) == c.zero
  {
    hide GroupLaws, SMul;
    Val2Zero(s[i..]);
    Val2Zero(t[i..]);
    SMulOne(c, g);
    SMulOne(c, h);
    Zero(c, c.zero);
  }

  // ge_double_scalarmult_vartime: r = a A + b B.
  method DoubleScalarmultVartime<G(!new)>(r: P2, a: array<byte>, A: P3, b: array<byte>, Bi: seq<Precomp>,
                                          ghost fb: set<object>, ghost c: Curve<G>, ghost g: G, ghost B: G)
    requires Laws(c) && a.Length >= 32 && b.Length >= 32
    requires r.Ok() && IsP3(A, c, g) && r.Repr() !! A.Repr()
    requires OddPrecomp(Bi, fb, c, B) && fb !! r.Repr()
    modifies r.Repr()
    ensures LE(old(a[..32])) < Pow2(255) && LE(old(b[..32])) < Pow2(255)
        ==> IsP2(r, c, c.add(SMul(c, LE(old(a[..32])), g), SMul(c, LE(old(b[..32])), B)))
  {
    hide OddCached, OddPrecomp, IsP3, IsP2, SMul, GroupLaws, CoordinateLaws, PrimeField, LE, Pow2, Val2, Digit, Tail;
    var aslide, bslide := new int8[256], new int8[256];
    Slide(aslide, a);
    Slide(bslide, b);
    ghost var fa;
    var Ai;
    Ai, fa := BuildTable(A, c, g);
    assert CoordinateLaws(c) by { LawsParts(c); }
    ZeroP2(r, c);
    var i := TopDigit(aslide, bslide);
    ghost var sa, sb := aslide[..], bslide[..];
    ZeroTail(c, g, B, sa, sb, i + 1);
    Descend(r, aslide, bslide, i, Ai, Bi, fa, fb, c, g, B);
    WholeTail(c, g, B, sa, sb);
  }

  lemma WholeTail<G(!new)>(c: Curve<G>, g: G, h: G, s: seq<int8>, t: seq<int8>)
    ensures Tail(c, g, h, s, t, 0) == c.add(SMul(c, Val2(s), g), SMul(c, Val2(t), h))
  {
    hide SMul, Val2;
    assert s[0..] == s && t[0..] == t;
  }
}
