// The schoolbook product of limb vectors: the columns have the value of the product.
module ScDot {
  import opened Ints
  import opened Arith
  import opened ScLimbs

  ghost function Term2(a: seq<int64>, b: seq<int64>, k: int, i: nat): int
    requires i < |a|
  {
    if 0 <= k - i < |b| then Prod(a[i] as int, b[k - i] as int) else 0
  }

  // column k of the schoolbook product, rows 0..n
  ghost function Dot(a: seq<int64>, b: seq<int64>, k: int, n: nat): int
    requires n <= |a|
    decreases n
  {
    if n == 0 then 0 else Dot(a, b, k, n - 1) + Term2(a, b, k, n - 1)
  }

  // columns 0..m with rows 0..n, as one number
  ghost function Rows(a: seq<int64>, b: seq<int64>, n: nat, m: nat): int
    requires n <= |a|
  {
    if m == 0 then 0 else Rows(a, b, n, m - 1) + P(m - 1) * Dot(a, b, m - 1, n)
  }

  // row i of the product, columns 0..m
  ghost function Row(a: seq<int64>, b: seq<int64>, i: nat, m: nat): int
    requires i < |a|
  {
    if m == 0 then 0 else Row(a, b, i, m - 1) + P(m - 1) * Term2(a, b, m - 1, i)
  }

  lemma {:induction false} AddRow(a: seq<int64>, b: seq<int64>, n: nat, m: nat)
    requires n < |a|
    ensures Rows(a, b, n + 1, m) == Rows(a, b, n, m) + Row(a, b, n, m)
  {
    hide P, Term2;
    if m > 0 {
      AddRow(a, b, n, m - 1);
      var p, d, t := P(m - 1), Dot(a, b, m - 1, n), Term2(a, b, m - 1, n);
      assert p * (d + t) == p * d + p * t;
    }
  }

  lemma {:induction false} NoRows(a: seq<int64>, b: seq<int64>, m: nat)
    ensures Rows(a, b, 0, m) == 0
  {
    if m > 0 {
      NoRows(a, b, m - 1);
    }
  }

  lemma {:induction false} PAdd(i: nat, j: nat)
    ensures P(i + j) == P(i) * P(j)
  {
    if j > 0 {
      PAdd(i, j - 1);
    }
  }

  lemma {:induction false} RowValue(a: seq<int64>, b: seq<int64>, i: nat, m: nat)
    requires i < |a|
    ensures m <= i ==> Row(a, b, i, m) == 0
    ensures i <= m <= i + |b| ==> Row(a, b, i, m) == P(i) * (a[i] as int * Val(b[..m - i]))
    ensures i + |b| <= m ==> Row(a, b, i, m) == P(i) * (a[i] as int * Val(b))
    decreases m
  {
    hide P;
    if m > 0 {
      RowValue(a, b, i, m - 1);
    }
    if i < m <= i + |b| {
      var j := m - 1 - i;
      ValNext(b, j);
      PAdd(i, j);
      Distribute(P(i), P(j), a[i] as int, Val(b[..j]), b[j] as int);
    }
    assert b[..|b|] == b;
    if m == i { assert Val(b[..0]) == 0; }
  }

  lemma Distribute(p: int, q: int, x: int, v: int, y: int)
    ensures p * (x * (v + q * y)) == p * (x * v) + (p * q) * (x * y)
  {
    assert x * (v + q * y) == x * v + q * (x * y);
    assert p * (q * (x * y)) == (p * q) * (x * y);
  }

  lemma ValNext(s: seq<int64>, n: nat)
    requires n < |s|
    ensures Val(s[..n + 1]) == Val(s[..n]) + P(n) * s[n] as int
  {
    ValSplit(s[..n + 1], n);
    assert s[..n + 1][..n] == s[..n];
    assert s[..n + 1][n..] == [s[n]];
    assert Val([s[n]]) == s[n] as int;
  }

  // The columns of the schoolbook product add up to the product.
  lemma {:induction false} RowsValue(a: seq<int64>, b: seq<int64>, n: nat, m: nat)
    requires n <= |a| && n + |b| <= m + 1
    ensures Rows(a, b, n, m) == Val(a[..n]) * Val(b)
  {
    hide P;
    if n == 0 {
      NoRows(a, b, m);
      assert Val(a[..0]) == 0;
    } else {
      RowsValue(a, b, n - 1, m);
      AddRow(a, b, n - 1, m);
      RowValue(a, b, n - 1, m);
      ValNext(a, n - 1);
      Collect(Val(a[..n - 1]), P(n - 1), a[n - 1] as int, Val(b));
    }
  }

  lemma Collect(v: int, p: int, x: int, w: int)
    ensures (v + p * x) * w == v * w + p * (x * w)
  {
  }
}
