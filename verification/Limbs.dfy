/** Numbers as sixteen-bit limbs, least significant first, and congruence modulo 2^255 - 19. */
module Limbs {

  /** 65536^n. */
  function R(n: nat): (r: nat)
    ensures r > 0
  {
    if n == 0 then 1 else 65536 * R(n - 1)
  }

  function Val(s: seq<int>): int {
    if s == [] then 0 else Val(s[..|s| - 1]) + s[|s| - 1] * R(|s| - 1)
  }

  const P: int := 0x7fff_ffff_ffff_ffff_ffff_ffff_ffff_ffff_ffff_ffff_ffff_ffff_ffff_ffff_ffff_ffed

  ghost predicate Same(x: int, y: int) { exists k :: Differ(x, y, k) }

  predicate Differ(x: int, y: int, k: int) { x == y + k * P }

  lemma SameBy(x: int, y: int, k: int)
    requires Differ(x, y, k)
    ensures Same(x, y)
  {
  }

  lemma SameEqual(x: int, y: int)
    requires x == y
    ensures Same(x, y)
  {
    SameBy(x, y, 0);
  }

  lemma SameTrans(x: int, y: int, z: int)
    requires Same(x, y) && Same(y, z)
    ensures Same(x, z)
  {
    var k :| Differ(x, y, k);
    var l :| Differ(y, z, l);
    Regroup(k, l, P);
    SameBy(x, z, k + l);
  }

  lemma Regroup(k: int, l: int, p: int)
    ensures (k + l) * p == k * p + l * p
  {
  }

  lemma SameMul(x: int, y: int, u: int, v: int)
    requires Same(x, y) && Same(u, v)
    ensures Same(x * u, y * v)
  {
    var k :| Differ(x, y, k);
    var l :| Differ(u, v, l);
    Expand(x, y, u, v, k, l, P);
    SameBy(x * u, y * v, y * l + k * v + k * l * P);
  }

  lemma Expand(x: int, y: int, u: int, v: int, k: int, l: int, p: int)
    requires x == y + k * p && u == v + l * p
    ensures x * u == y * v + (y * l + k * v + k * l * p) * p
  {
    assert x * u == y * u + (k * p) * u;
    assert y * u == y * v + y * (l * p);
    assert (k * p) * u == (k * p) * v + (k * p) * (l * p);
    assert y * (l * p) == (y * l) * p && (k * p) * v == (k * v) * p && (k * p) * (l * p) == (k * l * p) * p;
    assert (y * l + k * v + k * l * p) * p == (y * l) * p + (k * v) * p + (k * l * p) * p;
  }

  lemma {:induction false} RAdd(m: nat, n: nat)
    ensures R(m + n) == R(m) * R(n)
  {
    if m > 0 {
      RAdd(m - 1, n);
      assert R(m + n) == 65536 * R(m - 1 + n);
    }
  }

  /** 2^256 is 38 modulo 2^255 - 19, twice over. */
  lemma R16()
    ensures R(16) == 2 * P + 38
  {
    assert R(2) == 0x1_0000_0000;
    RAdd(2, 2);
    RAdd(4, 4);
    RAdd(8, 8);
  }

  lemma {:induction false} ValSplit(s: seq<int>, n: nat)
    requires n <= |s|
    ensures Val(s) == Val(s[..n]) + R(n) * Val(s[n..])
  {
    var m := |s| - 1;
    if n == |s| {
      assert s[..n] == s;
    } else {
      var lo, hi := s[..m], s[n..];
      ValSplit(lo, n);
      assert lo[..n] == s[..n] && lo[n..] == hi[..m - n] && hi[m - n] == s[m];
      RAdd(n, m - n);
      Spread(R(n), Val(lo[n..]), s[m], R(m - n));
    }
  }

  lemma Spread(r: int, v: int, x: int, q: int)
    ensures r * (v + x * q) == r * v + x * (r * q)
  {
  }

  /** A product under a name, so that proofs can leave it alone. */
  function Scaled(x: int, r: int): int { x * r }

  /** Changing one limb changes the value by the difference at its place. */
  lemma {:induction false} ValUpdate(s: seq<int>, i: nat, x: int)
    requires i < |s|
    ensures Val(s[i := x]) == Val(s) + Scaled(x - s[i], R(i))
  {
    var m := |s| - 1;
    var t := s[i := x];
    if i == m {
      assert t[..m] == s[..m];
      assert (x - s[i]) * R(i) == x * R(i) - s[i] * R(i);
    } else {
      assert t[..m] == s[..m][i := x];
      ValUpdate(s[..m], i, x);
    }
  }

  lemma {:induction false} ValZeros(s: seq<int>)
    requires forall i :: 0 <= i < |s| ==> s[i] == 0
    ensures Val(s) == 0
  {
    if s != [] { ValZeros(s[..|s| - 1]); }
  }

  lemma {:induction false} ValSum(a: seq<int>, b: seq<int>, c: seq<int>, k: int)
    requires |a| == |b| == |c| && forall i :: 0 <= i < |a| ==> c[i] == a[i] + k * b[i]
    ensures Val(c) == Val(a) + k * Val(b)
  {
    if a != [] {
      var m := |a| - 1;
      ValSum(a[..m], b[..m], c[..m], k);
      Gather(Val(a[..m]), Val(b[..m]), a[m], b[m], k, R(m));
    }
  }

  lemma Gather(va: int, vb: int, a: int, b: int, k: int, r: int)
    ensures va + k * vb + (a + k * b) * r == (va + a * r) + k * (vb + b * r)
  {
    assert (a + k * b) * r == a * r + k * (b * r);
  }
}
