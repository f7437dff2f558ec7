// Integer multiples in an abelian group.
module Scalars {
  import opened Edwards
  import opened CurveClosure

  ghost function SMul<G(!new)>(c: Curve<G>, n: int, g: G): G
    decreases n < 0, if n < 0 then -n else n
  {
    if n == 0 then c.zero
    else if n > 0 then c.add(SMul(c, n - 1, g), g)
    else c.neg(SMul(c, -n, g))
  }

  lemma Assoc<G(!new)>(c: Curve<G>, g: G, h: G, k: G)
    requires GroupLaws(c)
    ensures c.add(c.add(g, h), k) == c.add(g, c.add(h, k))
  {
    hide Commutative, Inverses;
  }

  lemma Comm<G(!new)>(c: Curve<G>, g: G, h: G)
    requires GroupLaws(c)
    ensures c.add(g, h) == c.add(h, g)
  {
    hide Associative, Inverses;
  }

  lemma Zero<G(!new)>(c: Curve<G>, g: G)
    requires GroupLaws(c)
    ensures c.add(g, c.zero) == g && c.add(c.zero, g) == g
    ensures c.add(g, c.neg(g)) == c.zero
  {
    hide Associative, Commutative;
    Comm(c, g, c.zero);
  }

  // cancelling on the right
  lemma Cancel<G(!new)>(c: Curve<G>, g: G, h: G, k: G)
    requires GroupLaws(c) && c.add(g, k) == c.add(h, k)
    ensures g == h
  {
    hide GroupLaws;
    Assoc(c, g, k, c.neg(k));
    Assoc(c, h, k, c.neg(k));
    Zero(c, k);
    Zero(c, g);
    Zero(c, h);
  }

  // (g + h) + (k + l) = (g + k) + (h + l)
  lemma Exchange<G(!new)>(c: Curve<G>, g: G, h: G, k: G, l: G)
    requires GroupLaws(c)
    ensures c.add(c.add(g, h), c.add(k, l)) == c.add(c.add(g, k), c.add(h, l))
  {
    hide GroupLaws;
    Assoc(c, g, h, c.add(k, l));
    Assoc(c, h, k, l);
    Comm(c, h, k);
    Assoc(c, k, h, l);
    Assoc(c, g, k, c.add(h, l));
  }

  lemma NegZero<G(!new)>(c: Curve<G>)
    requires GroupLaws(c)
    ensures c.neg(c.zero) == c.zero
  {
    hide GroupLaws;
    Zero(c, c.zero);
    Zero(c, c.neg(c.zero));
  }

  lemma SMulOne<G(!new)>(c: Curve<G>, g: G)
    requires GroupLaws(c)
    ensures SMul(c, 1, g) == g && SMul(c, 0, g) == c.zero
  {
    hide GroupLaws;
    assert SMul(c, 1, g) == c.add(SMul(c, 0, g), g);
    Zero(c, g);
  }

  lemma SMulStep<G(!new)>(c: Curve<G>, n: int, g: G)
    requires GroupLaws(c)
    ensures SMul(c, n + 1, g) == c.add(SMul(c, n, g), g)
  {
    hide GroupLaws;
    if n < 0 {
      var p := SMul(c, -n - 1, g);
      assert SMul(c, n, g) == c.neg(c.add(p, g));
      var q := if n == -1 then c.zero else c.neg(p);
      if n == -1 { NegZero(c); }
      assert c.add(p, c.neg(p)) == c.zero by { Zero(c, p); }
      // both sides added to p + g give g
      Zero(c, c.add(p, g));
      Zero(c, g);
      var r := c.add(c.neg(c.add(p, g)), g);
      Rotate(c, c.neg(c.add(p, g)), g, p);
      Comm(c, c.neg(c.add(p, g)), c.add(p, g));
      Comm(c, c.neg(p), p);
      Cancel(c, r, c.neg(p), p);
    }
  }

  // (x + g) + p = x + (p + g)
  lemma Rotate<G(!new)>(c: Curve<G>, x: G, g: G, p: G)
    requires GroupLaws(c)
    ensures c.add(c.add(x, g), p) == c.add(x, c.add(p, g))
  {
    hide GroupLaws;
    Assoc(c, x, g, p);
    Comm(c, g, p);
  }

  lemma {:induction false} SMulAdd<G(!new)>(c: Curve<G>, m: int, n: int, g: G)
    requires GroupLaws(c)
    ensures SMul(c, m + n, g) == c.add(SMul(c, m, g), SMul(c, n, g))
    decreases if n < 0 then -n else n
  {
    hide GroupLaws, SMul;
    if n == 0 {
      SMulOne(c, g);
      Zero(c, SMul(c, m, g));
    } else if n > 0 {
      SMulAdd(c, m, n - 1, g);
      SMulStep(c, m + n - 1, g);
      SMulStep(c, n - 1, g);
      Assoc(c, SMul(c, m, g), SMul(c, n - 1, g), g);
    } else {
      SMulAdd(c, m, n + 1, g);
      SMulStep(c, m + n, g);
      SMulStep(c, n, g);
      Assoc(c, SMul(c, m, g), SMul(c, n, g), g);
      Cancel(c, SMul(c, m + n, g), c.add(SMul(c, m, g), SMul(c, n, g)), g);
    }
  }

  lemma SMulNeg<G(!new)>(c: Curve<G>, n: int, g: G)
    requires GroupLaws(c)
    ensures SMul(c, -n, g) == c.neg(SMul(c, n, g))
  {
    hide GroupLaws, SMul;
    var p, q := SMul(c, n, g), SMul(c, -n, g);
    SMulAdd(c, -n, n, g);
    SMulOne(c, g);
    Zero(c, p);
    Comm(c, c.neg(p), p);
    Cancel(c, q, c.neg(p), p);
  }

  lemma {:induction false} SMulMul<G(!new)>(c: Curve<G>, m: int, n: int, g: G)
    requires GroupLaws(c)
    ensures SMul(c, m * n, g) == SMul(c, m, SMul(c, n, g))
    decreases if m < 0 then -m else m
  {
    hide GroupLaws, SMul;
    var h := SMul(c, n, g);
    if m == 0 {
      SMulOne(c, g);
      SMulOne(c, h);
    } else if m > 0 {
      SMulMul(c, m - 1, n, g);
      assert m * n == (m - 1) * n + n;
      SMulAdd(c, (m - 1) * n, n, g);
      SMulStep(c, m - 1, h);
    } else {
      SMulMul(c, m + 1, n, g);
      assert (m + 1) * n == m * n + n;
      SMulAdd(c, m * n, n, g);
      SMulStep(c, m, h);
      Cancel(c, SMul(c, m * n, g), SMul(c, m, h), h);
    }
  }

  // Multiples of a point of the curve are on the curve.
  lemma {:induction false} SMulOn<G(!new)>(c: Curve<G>, n: int, g: G)
    requires Laws(c) && On(c, g)
    ensures On(c, SMul(c, n, g))
    decreases n < 0, if n < 0 then -n else n
  {
    hide On, CoordinateLaws, GroupLaws, PrimeField;
    if n == 0 {
      ZeroOn(c);
    } else if n > 0 {
      SMulOn(c, n - 1, g);
      SumOn(c, SMul(c, n - 1, g), g);
    } else {
      SMulOn(c, -n, g);
      NegOn(c, SMul(c, -n, g));
    }
  }
}
