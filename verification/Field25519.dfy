/**
 * The field layer of TweetNaCl: sixteen signed 64-bit limbs, numbers modulo 2^255 - 19 (section 4.1 of RFC 7748).
 * `I64` marks every value the code computes; its precondition says that the value fits.
 */
module Field25519 {
  import Arith
  import opened Limbs

  function I64(x: int): int
    requires -0x8000_0000_0000_0000 <= x < 0x8000_0000_0000_0000
  {
    x
  }

  /** Limbs bounded by `b` in magnitude. */
  ghost predicate Within(s: seq<int>, b: int) {
    |s| == 16 && forall i :: 0 <= i < 16 ==> -b <= s[i] <= b
  }

  const SMALL: int := 0x400_0000
  const LARGE: int := 0x4000_0000_0000_0000

  // ---------------------------------------------------------------------------
  // Carrying
  // ---------------------------------------------------------------------------

  /** One turn of the carry loop: limb `i` keeps sixteen bits, the rest moves up, and from the top round to 0. */
  function CarStep(s: seq<int>, i: nat): (r: seq<int>)
    requires |s| == 16 && i < 16
    ensures |r| == 16
  {
    if i < 15 then s[i := s[i] % 65536][i + 1 := s[i + 1] + s[i] / 65536]
    else s[i := s[i] % 65536][0 := s[0] + 38 * (s[i] / 65536)]
  }

  function CarFrom(s: seq<int>, i: nat): (r: seq<int>)
    requires |s| == 16 && i <= 16
    ensures |r| == 16
    decreases 16 - i
  {
    if i == 16 then s else CarFrom(CarStep(s, i), i + 1)
  }

  lemma CarStepValue(s: seq<int>, i: nat)
    requires |s| == 16 && i < 16
    ensures Same(Val(CarStep(s, i)), Val(s))
  {
    hide Val, Same;
    var x, q := s[i] % 65536, s[i] / 65536;
    CarStepIs(s, i, x, q);
    if i < 15 { Up(s, i, x, q, s[i := x]); } else { Round(s, i, x, q, s[i := x]); }
  }

  lemma CarStepIs(s: seq<int>, i: nat, x: int, q: int)
    requires |s| == 16 && i < 16 && x == s[i] % 65536 && q == s[i] / 65536
    ensures i < 15 ==> CarStep(s, i) == s[i := x][i + 1 := s[i + 1] + q]
    ensures i == 15 ==> CarStep(s, i) == s[i := x][0 := s[0] + 38 * q]
  {
  }

  lemma Up(s: seq<int>, i: nat, x: int, q: int, low: seq<int>)
    requires |s| == 16 && i < 15 && s[i] == 65536 * q + x && low == s[i := x]
    ensures Same(Val(low[i + 1 := s[i + 1] + q]), Val(s))
  {
    hide Val, Same, Scaled;
    ValUpdate(s, i, x);
    ValUpdate(low, i + 1, s[i + 1] + q);
    MoveUp(x - s[i], s[i + 1] + q - low[i + 1], R(i), R(i + 1));
    SameEqual(Val(low[i + 1 := s[i + 1] + q]), Val(s));
  }

  lemma Round(s: seq<int>, i: nat, x: int, q: int, low: seq<int>)
    requires |s| == 16 && i == 15 && s[i] == 65536 * q + x && low == s[i := x]
    ensures Same(Val(low[0 := s[0] + 38 * q]), Val(s))
  {
    hide Val, Same, Differ, R, Scaled;
    ValUpdate(s, i, x);
    ValUpdate(low, 0, s[0] + 38 * q);
    TopPlace(i);
    MoveRound(Val(s), x - s[i], s[0] + 38 * q - low[0], q, R(i), R(0));
    SameBy(Val(low[0 := s[0] + 38 * q]), Val(s), -2 * q);
  }

  lemma TopPlace(i: nat)
    requires i == 15
    ensures 65536 * R(i) == 2 * P + 38 && R(0) == 1
  {
    R16();
  }

  /** What leaves one place arrives at the next. */
  lemma MoveUp(d: int, e: int, r: nat, q: nat)
    requires d == -(65536 * e) && q == 65536 * r
    ensures Scaled(d, r) + Scaled(e, q) == 0
  {
    assert (65536 * e) * r == e * (65536 * r);
  }

  /** What leaves the top place comes back 38-fold at the bottom. */
  lemma MoveRound(v: int, d: int, e: int, c: int, r: nat, q: nat)
    requires d == -(65536 * c) && e == 38 * c && 65536 * r == 2 * P + 38 && q == 1
    ensures Differ(v + Scaled(d, r) + Scaled(e, q), v, -2 * c)
  {
    MoveUp(d, c, r, 65536 * r);
  }

  /** Carrying keeps the number modulo 2^255 - 19. */
  lemma {:induction false} CarValue(s: seq<int>, i: nat)
    requires |s| == 16 && i <= 16
    ensures Same(Val(CarFrom(s, i)), Val(s))
    decreases 16 - i
  {
    hide Val, Same;
    if i == 16 {
      SameEqual(Val(s), Val(s));
    } else {
      CarStepValue(s, i);
      CarValue(CarStep(s, i), i + 1);
      SameTrans(Val(CarFrom(s, i)), Val(CarStep(s, i)), Val(s));
    }
  }

  /** Limbs already carried are sixteen bits wide; the one that just took a carry may be over by `c`. */
  ghost predicate Carried(s: seq<int>, i: nat, c: int, rest: int) {
    && |s| == 16
    && (forall j :: 0 <= j < i && j < 16 ==> 0 <= s[j] < 65536)
    && (i < 16 ==> -rest - c <= s[i] <= rest + c)
    && (forall j :: i < j < 16 ==> -rest <= s[j] <= rest)
  }

  const CARRY: int := 0x8000_0000_0000

  /** After one round from large limbs, all but limb 0 are sixteen bits wide. */
  ghost predicate Rough(s: seq<int>) {
    && |s| == 16 && -0x20_0000_0000_0000 <= s[0] <= 0x20_0000_0000_0000
    && forall j :: 1 <= j < 16 ==> 0 <= s[j] < 65536
  }

  /** After two rounds, limb 0 is over by at most 38. */
  ghost predicate Tight(s: seq<int>) {
    && |s| == 16 && -38 <= s[0] <= 65535 + 38
    && forall j :: 1 <= j < 16 ==> 0 <= s[j] < 65536
  }

  lemma {:induction false} CarRough(s: seq<int>, i: nat)
    requires i <= 15 && Carried(s, i, CARRY, LARGE)
    ensures Rough(CarFrom(s, i))
    decreases 16 - i
  {
    var r := CarStep(s, i);
    if i < 15 {
      assert Carried(r, i + 1, CARRY, LARGE);
      CarRough(r, i + 1);
    } else {
      assert CarFrom(r, 16) == r;
    }
  }

  /** The most that can be carried into limb `i` in the second round. */
  function Over(i: nat): (c: nat)
    ensures i >= 4 ==> c == 1
    ensures c <= 0x20_0000_0000_0000
  {
    if i == 0 then 0x20_0000_0000_0000
    else if i == 1 then 0x20_0000_0001
    else if i == 2 then 0x20_0001
    else if i == 3 then 33
    else 1
  }

  ghost predicate Settling(s: seq<int>, i: nat) {
    && |s| == 16
    && (forall j :: 0 <= j < 16 && j != i ==> 0 <= s[j] < 65536)
    && (i < 16 ==> 0 <= s[i] + Over(i) && s[i] <= 65535 + Over(i))
  }

  lemma {:induction false} CarTight(s: seq<int>, i: nat)
    requires i <= 15 && Settling(s, i)
    ensures Tight(CarFrom(s, i))
    decreases 16 - i
  {
    var r := CarStep(s, i);
    if i < 15 {
      assert Settling(r, i + 1);
      CarTight(r, i + 1);
    } else {
      assert CarFrom(r, 16) == r;
    }
  }

  lemma Floor(x: int)
    ensures (x + 65536) / 65536 == x / 65536 + 1 && x + 65536 - (x / 65536 + 1) * 65536 == x % 65536
  {
  }

  /** car25519. */
  method Car(o: array<int>)
    requires o.Length == 16 && Within(o[..], LARGE)
    modifies o
    ensures o[..] == CarFrom(old(o[..]), 0)
  {
    hide CarFrom;
    for i := 0 to 16
      invariant CarFrom(o[..], i) == CarFrom(old(o[..]), 0)
      invariant i < 16 ==> Carried(o[..], i, CARRY, LARGE)
    {
      ghost var s := o[..];
      o[i] := I64(o[i] + 65536);
      var c := o[i] / 65536;
      Floor(s[i]);
      var k := if i < 15 then i + 1 else 0;
      o[k] := I64(o[k] + I64(c - 1 + (if i == 15 then I64(37 * (c - 1)) else 0)));
      o[i] := I64(o[i] - I64(c * 65536));
      assert o[..] == CarStep(s, i);
      CarNext(s, i);
    }
    CarEnd(o[..]);
  }

  lemma CarNext(s: seq<int>, i: nat)
    requires |s| == 16 && i < 16
    ensures CarFrom(s, i) == CarFrom(CarStep(s, i), i + 1)
  {
  }

  lemma CarEnd(s: seq<int>)
    requires |s| == 16
    ensures CarFrom(s, 16) == s
  {
  }

  // ---------------------------------------------------------------------------
  // Multiplication
  // ---------------------------------------------------------------------------

  /** One more column of a row of the schoolbook product. */
  lemma RowStep(a: int, b: int, ab: int, vb: int, vb': int, ri: nat, rj: nat, rij: nat)
    requires rij == ri * rj && ab == a * b && vb' == vb + b * rj
    ensures Scaled(a, Scaled(vb, ri)) + Scaled(ab, rij) == Scaled(a, Scaled(vb', ri))
  {
    assert a * (vb * ri) + (a * b) * (ri * rj) == a * ((vb + b * rj) * ri);
  }

  /** t[i + j] += a[i] * b[j] for all j. */
  method AddRow(t: array<int>, a: int, b: seq<int>, i: nat)
    requires t.Length == 31 && i < 16 && -SMALL <= a <= SMALL && Within(b, SMALL)
    requires forall k :: 0 <= k < 31 ==> -(i * 0x10_0000_0000_0000) <= t[k] <= i * 0x10_0000_0000_0000
    modifies t
    ensures Val(t[..]) == old(Val(t[..])) + Scaled(a, Scaled(Val(b), R(i)))
    ensures forall k :: 0 <= k < 31 ==> -((i + 1) * 0x10_0000_0000_0000) <= t[k] <= (i + 1) * 0x10_0000_0000_0000
  {
    ghost var v := Val(t[..]);
    for j := 0 to 16
      invariant Val(t[..]) == v + Scaled(a, Scaled(Val(b[..j]), R(i)))
      invariant forall k :: 0 <= k < 31 ==> Column(t[k], i + if i <= k < i + j then 1 else 0)
    {
      ghost var s := t[..];
      Product(a, b[j]);
      assert Column(t[i + j], i);
      t[i + j] := I64(t[i + j] + I64(a * b[j]));
      assert t[..] == s[i + j := s[i + j] + a * b[j]];
      RowValue(s, a, b, i, j, v);
    }
    assert b[..16] == b;
    forall k | 0 <= k < 31 ensures Column(t[k], i + 1) { assert Column(t[k], i + if i <= k < i + 16 then 1 else 0); }
  }

  /** The magnitude after `n` products. */
  ghost predicate Column(x: int, n: nat) { -(n * 0x10_0000_0000_0000) <= x <= n * 0x10_0000_0000_0000 }

  lemma Product(a: int, b: int)
    requires -SMALL <= a <= SMALL && -SMALL <= b <= SMALL
    ensures -0x10_0000_0000_0000 <= a * b <= 0x10_0000_0000_0000
  {
    Magnitude(a, b, SMALL);
  }

  lemma Magnitude(a: int, b: int, m: int)
    requires -m <= a <= m && -m <= b <= m
    ensures -(m * m) <= a * b <= m * m
  {
    assert (m - a) * (m + b) + (m + a) * (m - b) == 2 * (m * m) - 2 * (a * b);
    assert (m - a) * (m - b) + (m + a) * (m + b) == 2 * (m * m) + 2 * (a * b);
    NotNegative(m - a, m + b);
    NotNegative(m + a, m - b);
    NotNegative(m - a, m - b);
    NotNegative(m + a, m + b);
  }

  lemma NotNegative(x: nat, y: nat)
    ensures x * y >= 0
  {
  }

  lemma RowValue(s: seq<int>, a: int, b: seq<int>, i: nat, j: nat, v: int)
    requires |s| == 31 && |b| == 16 && i < 16 && j < 16
    requires Val(s) == v + Scaled(a, Scaled(Val(b[..j]), R(i)))
    ensures Val(s[i + j := s[i + j] + a * b[j]]) == v + Scaled(a, Scaled(Val(b[..j + 1]), R(i)))
  {
    hide Val, R, Scaled;
    var ab := a * b[j];
    ValUpdate(s, i + j, s[i + j] + ab);
    assert s[i + j] + ab - s[i + j] == ab;
    RAdd(i, j);
    ValNext(b, j);
    RowStep(a, b[j], ab, Val(b[..j]), Val(b[..j + 1]), R(i), R(j), R(i + j));
  }

  lemma ValNext(b: seq<int>, j: nat)
    requires j < |b|
    ensures Val(b[..j + 1]) == Val(b[..j]) + b[j] * R(j)
  {
    assert b[..j + 1][..j] == b[..j];
  }

  /** The 31 columns of the product. */
  method Columns(a: seq<int>, b: seq<int>) returns (t: array<int>)
    requires Within(a, SMALL) && Within(b, SMALL)
    ensures fresh(t) && t.Length == 31 && Val(t[..]) == Val(a) * Val(b)
    ensures forall k :: 0 <= k < 31 ==> Column(t[k], 16)
  {
    hide Val, R, Scaled;
    t := new int[31](_ => 0);
    ValZeros(t[..]);
    Nothing(a, b);
    for i := 0 to 16
      invariant Val(t[..]) == Scaled(Val(a[..i]), Val(b))
      invariant forall k :: 0 <= k < 31 ==> Column(t[k], i)
    {
      AddRow(t, a[i], b, i);
      ValNext(a, i);
      RowDone(Val(a[..i]), Val(a[..i + 1]), a[i], Val(b), R(i));
    }
    assert a[..16] == a;
    Unscaled(Val(a), Val(b));
  }

  lemma Nothing(a: seq<int>, b: seq<int>)
    ensures Scaled(Val(a[..0]), Val(b)) == 0
  {
  }

  lemma RowDone(va: int, va': int, a: int, vb: int, r: int)
    requires va' == va + a * r
    ensures Scaled(va, vb) + Scaled(a, Scaled(vb, r)) == Scaled(va', vb)
  {
    assert (va + a * r) * vb == va * vb + a * (vb * r);
  }

  lemma Unscaled(x: int, y: int)
    ensures Scaled(x, y) == x * y
  {
  }

  /** The upper columns come back 38-fold. */
  method Fold(t: array<int>, o: array<int>)
    requires t.Length == 31 && o.Length == 16 && t != o && forall k :: 0 <= k < 31 ==> Column(t[k], 16)
    modifies t, o
    ensures Within(o[..], LARGE) && Same(Val(o[..]), old(Val(t[..])))
  {
    hide Val, R, Scaled, Same;
    ghost var s := t[..];
    for i := 0 to 15
      invariant forall k :: 0 <= k < i ==> t[k] == s[k] + 38 * s[k + 16]
      invariant t[i..] == s[i..]
    {
      assert t[i] == t[i..][0] && t[i + 16] == t[i..][16];
      assert Column(s[i], 16) && Column(s[i + 16], 16);
      t[i] := I64(t[i] + I64(38 * t[i + 16]));
      assert t[i + 1..] == s[i + 1..];
    }
    assert t[15] == t[15..][0] == s[15];
    assert Column(s[15], 16);
    for i := 0 to 16
      invariant forall k :: 0 <= k < i && k < 15 ==> o[k] == s[k] + 38 * s[k + 16]
      invariant i == 16 ==> o[15] == s[15]
      invariant forall k :: 0 <= k < 15 ==> t[k] == s[k] + 38 * s[k + 16]
      invariant t[15] == s[15]
    {
      o[i] := t[i];
    }
    forall k | 0 <= k < 16 ensures -LARGE <= o[k] <= LARGE {
      assert Column(s[k], 16);
      if k < 15 { assert Column(s[k + 16], 16); }
    }
    FoldValue(s, o[..]);
  }

  lemma FoldValue(s: seq<int>, o: seq<int>)
    requires |s| == 31 && |o| == 16
    requires (forall k :: 0 <= k < 15 ==> o[k] == s[k] + 38 * s[k + 16]) && o[15] == s[15]
    ensures Same(Val(o), Val(s))
  {
    hide Val, Same, R, Differ;
    var lo, hi := s[..16], s[16..];
    var high := hi + [0];
    ValSplit(s, 16);
    Padded(hi);
    forall k | 0 <= k < 16 ensures o[k] == lo[k] + 38 * high[k] {
      assert lo[k] == s[k];
      if k < 15 { assert high[k] == s[k + 16]; } else { assert k == 15 && high[k] == 0; }
    }
    ValSum(lo, high, o, 38);
    R16();
    FoldBy(Val(o), Val(s), Val(lo), Val(hi), R(16));
    SameBy(Val(o), Val(s), -2 * Val(hi));
  }

  lemma Padded(hi: seq<int>)
    ensures Val(hi + [0]) == Val(hi)
  {
    assert (hi + [0])[..|hi|] == hi;
  }

  lemma FoldBy(o: int, s: int, lo: int, hi: int, r: int)
    requires o == lo + 38 * hi && s == lo + r * hi && r == 2 * P + 38
    ensures Differ(o, s, -2 * hi)
  {
    assert (2 * P + 38) * hi == 2 * (hi * P) + 38 * hi;
  }

  /** M: the product modulo 2^255 - 19; the result may be one of the factors. */
  method Mul(o: array<int>, a: array<int>, b: array<int>)
    requires o.Length == 16 && a.Length == 16 && b.Length == 16 && Within(a[..], SMALL) && Within(b[..], SMALL)
    modifies o
    ensures Same(Val(o[..]), old(Val(a[..])) * old(Val(b[..]))) && Tight(o[..])
  {
    hide Val, Same, CarFrom;
    ghost var v := Val(a[..]) * Val(b[..]);
    var t := Columns(a[..], b[..]);
    Fold(t, o);
    ghost var s := o[..];
    Car(o);
    ghost var r := o[..];
    CarValue(s, 0);
    CarRough(s, 0);
    SameTrans(Val(r), Val(s), v);
    RoughIsLarge(r);
    Car(o);
    CarValue(r, 0);
    CarTight(r, 0);
    SameTrans(Val(o[..]), Val(r), v);
  }

  lemma RoughIsLarge(r: seq<int>)
    requires Rough(r)
    ensures Within(r, LARGE) && Settling(r, 0)
  {
  }

  // ---------------------------------------------------------------------------
  // Addition, subtraction, powers
  // ---------------------------------------------------------------------------

  /** A: limbs add without carrying. */
  method Add(o: array<int>, a: array<int>, b: array<int>)
    requires o.Length == 16 && a.Length == 16 && b.Length == 16 && Within(a[..], LARGE / 2) && Within(b[..], LARGE / 2)
    modifies o
    ensures Val(o[..]) == old(Val(a[..])) + old(Val(b[..]))
    ensures forall i :: 0 <= i < 16 ==> o[i] == old(a[i]) + old(b[i])
  {
    ghost var s, t := a[..], b[..];
    for i := 0 to 16
      invariant forall k :: 0 <= k < i ==> o[k] == s[k] + t[k]
      invariant forall k :: i <= k < 16 ==> a[k] == s[k] && b[k] == t[k]
    {
      o[i] := I64(a[i] + b[i]);
    }
    ValSum(s, t, o[..], 1);
  }

  /** Z: limbs subtract. */
  method Sub(o: array<int>, a: array<int>, b: array<int>)
    requires o.Length == 16 && a.Length == 16 && b.Length == 16 && Within(a[..], LARGE / 2) && Within(b[..], LARGE / 2)
    modifies o
    ensures Val(o[..]) == old(Val(a[..])) - old(Val(b[..]))
    ensures forall i :: 0 <= i < 16 ==> o[i] == old(a[i]) - old(b[i])
  {
    ghost var s, t := a[..], b[..];
    for i := 0 to 16
      invariant forall k :: 0 <= k < i ==> o[k] == s[k] - t[k]
      invariant forall k :: i <= k < 16 ==> a[k] == s[k] && b[k] == t[k]
    {
      o[i] := I64(a[i] - b[i]);
    }
    ValSum(s, t, o[..], -1);
  }

  function Power(x: int, n: nat): int { if n == 0 then 1 else x * Power(x, n - 1) }

  lemma {:induction false} PowerAdd(x: int, m: nat, n: nat)
    ensures Power(x, m + n) == Power(x, m) * Power(x, n)
  {
    if m > 0 {
      PowerAdd(x, m - 1, n);
      Assoc(x, Power(x, m - 1), Power(x, n));
    }
  }

  lemma Assoc(x: int, y: int, z: int)
    ensures x * (y * z) == x * y * z
  {
  }

  lemma TightIsSmall(s: seq<int>)
    requires Tight(s)
    ensures Within(s, SMALL)
  {
  }

  /** Square, then multiply by `i` unless the bit is clear. */
  method SquareMultiply(c: array<int>, i: array<int>, bit: bool, ghost e: nat)
    requires c.Length == 16 && i.Length == 16 && c != i && Within(c[..], SMALL) && Within(i[..], SMALL)
    requires Same(Val(c[..]), Power(Val(i[..]), e))
    modifies c
    ensures Within(c[..], SMALL) && Same(Val(c[..]), Power(Val(i[..]), 2 * e + if bit then 1 else 0))
  {
    hide Val, Same, Power;
    ghost var x, before := Val(i[..]), Val(c[..]);
    Mul(c, c, c);
    TightIsSmall(c[..]);
    Squared(Val(c[..]), before, x, e);
    if bit {
      before := Val(c[..]);
      Mul(c, c, i);
      TightIsSmall(c[..]);
      Times(Val(c[..]), before, x, 2 * e);
    }
  }

  lemma Squared(y: int, c: int, x: int, e: nat)
    requires Same(y, c * c) && Same(c, Power(x, e))
    ensures Same(y, Power(x, 2 * e))
  {
    hide Same, Power;
    SameMul(c, Power(x, e), c, Power(x, e));
    SameTrans(y, c * c, Power(x, e) * Power(x, e));
    PowerAdd(x, e, e);
    assert 2 * e == e + e;
  }

  lemma Times(y: int, c: int, x: int, e: nat)
    requires Same(y, c * x) && Same(c, Power(x, e))
    ensures Same(y, Power(x, e + 1))
  {
    hide Same;
    SameEqual(x, x);
    SameMul(c, Power(x, e), x, x);
    SameTrans(y, c * x, Power(x, e) * x);
  }

  /** The exponent once the bits from the top down to `a` are done: ones, but for bits 4 and 2. */
  function InvExponent(a: nat): int
    requires a <= 254
  {
    Arith.Pow2(255 - a) - 1 - (if a <= 4 then Arith.Pow2(4 - a) else 0) - (if a <= 2 then Arith.Pow2(2 - a) else 0)
  }

  /** The same for pow2523: ones, but for bit 1. */
  function PowExponent(a: nat): int
    requires a <= 251
  {
    Arith.Pow2(252 - a) - 1 - (if a <= 1 then Arith.Pow2(1 - a) else 0)
  }

  lemma InvNext(a: nat)
    requires a < 254
    ensures InvExponent(a) == 2 * InvExponent(a + 1) + (if a != 2 && a != 4 then 1 else 0)
  {
    assert Arith.Pow2(255 - a) == 2 * Arith.Pow2(255 - (a + 1));
    if a < 4 { assert Arith.Pow2(4 - a) == 2 * Arith.Pow2(4 - (a + 1)); }
    if a < 2 { assert Arith.Pow2(2 - a) == 2 * Arith.Pow2(2 - (a + 1)); }
  }

  lemma PowNext(a: nat)
    requires a < 251
    ensures PowExponent(a) == 2 * PowExponent(a + 1) + (if a != 1 then 1 else 0)
  {
    assert Arith.Pow2(252 - a) == 2 * Arith.Pow2(252 - (a + 1));
    if a < 1 { assert Arith.Pow2(1 - a) == 2 * Arith.Pow2(1 - (a + 1)); }
  }

  /** inv25519: the power 2^255 - 21, the size of the field less two. */
  method Invert(o: array<int>, i: array<int>)
    requires o.Length == 16 && i.Length == 16 && Within(i[..], SMALL)
    modifies o
    ensures Same(Val(o[..]), Power(old(Val(i[..])), P - 2)) && Within(o[..], SMALL)
  {
    hide Val, Same, Power, Arith.Pow2, InvExponent;
    var c := new int[16](k requires 0 <= k < 16 reads i => i[k]);
    ghost var x := Val(i[..]);
    Started(c[..], i[..]);
    InvStart();
    var a: nat := 254;
    while a > 0
      invariant a <= 254 && Within(c[..], SMALL) && InvExponent(a) >= 0 && i[..] == old(i[..])
      invariant Same(Val(c[..]), Power(x, InvExponent(a)))
    {
      a := a - 1;
      InvNext(a);
      SquareMultiply(c, i, a != 2 && a != 4, InvExponent(a + 1));
    }
    InvEnd();
    Copy(o, c);
  }

  method Copy(o: array<int>, c: array<int>)
    requires o.Length == 16 && c.Length == 16 && o != c
    modifies o
    ensures o[..] == c[..]
  {
    for k := 0 to 16
      invariant o[..k] == c[..k]
    {
      o[k] := c[k];
    }
    assert o[..] == o[..16] && c[..] == c[..16];
  }

  lemma Started(c: seq<int>, i: seq<int>)
    requires |c| == |i| == 16 && forall k :: 0 <= k < 16 ==> c[k] == i[k]
    ensures c == i && Same(Val(c), Power(Val(i), 1))
  {
    assert c == i;
    assert Power(Val(i), 1) == Val(i) * Power(Val(i), 0);
    SameEqual(Val(c), Power(Val(i), 1));
  }

  lemma InvStart()
    ensures InvExponent(254) == 1
  {
  }

  lemma InvEnd()
    ensures InvExponent(0) == P - 2
  {
    Exponents();
    assert Arith.Pow2(4) == 16 && Arith.Pow2(2) == 4;
  }

  lemma PowStart()
    ensures PowExponent(251) == 1
  {
  }

  lemma PowEnd()
    ensures PowExponent(0) == (P - 5) / 8
  {
    Exponents();
    assert Arith.Pow2(1) == 2;
  }

  /** pow2523: the power 2^252 - 3, the size of the field less five over eight. */
  method Pow2523(o: array<int>, i: array<int>)
    requires o.Length == 16 && i.Length == 16 && Within(i[..], SMALL)
    modifies o
    ensures Same(Val(o[..]), Power(old(Val(i[..])), (P - 5) / 8)) && Within(o[..], SMALL)
  {
    hide Val, Same, Power, Arith.Pow2, PowExponent;
    var c := new int[16](k requires 0 <= k < 16 reads i => i[k]);
    ghost var x := Val(i[..]);
    Started(c[..], i[..]);
    PowStart();
    var a: nat := 251;
    while a > 0
      invariant a <= 251 && Within(c[..], SMALL) && PowExponent(a) >= 0 && i[..] == old(i[..])
      invariant Same(Val(c[..]), Power(x, PowExponent(a)))
    {
      a := a - 1;
      PowNext(a);
      SquareMultiply(c, i, a != 1, PowExponent(a + 1));
    }
    PowEnd();
    Copy(o, c);
  }

  /** The two exponents are the field's own: P - 2, which inverts, and (P - 5) / 8, which square roots use. */
  lemma Exponents()
    ensures Arith.Pow2(255) - 21 == P - 2 && 8 * (Arith.Pow2(252) - 3) == P - 5
  {
    R16();
    TwoSteps(16);
    Arith.Pow2Add(1, 255);
    Arith.Pow2Add(3, 252);
    assert Arith.Pow2(1) == 2 && Arith.Pow2(3) == 8;
  }

  lemma {:induction false} TwoSteps(n: nat)
    ensures R(n) == Arith.Pow2(16 * n)
  {
    if n > 0 {
      TwoSteps(n - 1);
      Arith.Pow2Add(16, 16 * n - 16);
      Sixteen();
    }
  }

  lemma Sixteen()
    ensures Arith.Pow2(16) == 65536
  {
    assert Arith.Pow2(4) == 16;
    Arith.Pow2Add(4, 4);
    Arith.Pow2Add(8, 8);
  }
}
