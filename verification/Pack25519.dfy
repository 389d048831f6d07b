/** Field elements as 32 octets: pack25519 writes the one representative below 2^255 - 19. */
module Pack25519 {
  import Arith
  import opened Bytes
  import opened Limbs
  import opened Field25519

  /** Sixteen limbs of sixteen bits. */
  ghost predicate Exact(s: seq<int>) { |s| == 16 && forall i :: 0 <= i < 16 ==> 0 <= s[i] < 65536 }

  // ---------------------------------------------------------------------------
  // The third carry round
  // ---------------------------------------------------------------------------

  /** Where limb 0 lies after its own carry `g`, so that the carry out of the top cannot push it over. */
  predicate LowOk(x: int, g: int) {
    (g == 0 && 0 <= x < 65536) || (g == 1 && 0 <= x <= 37) || (g == -1 && 65498 <= x < 65536)
  }

  /** Limb `i` has just taken the carry `q`, which is nothing or the carry that started at limb 0. */
  ghost predicate Third(s: seq<int>, i: nat, g: int, q: int) {
    && |s| == 16 && 0 < i && LowOk(s[0], g) && (q == 0 || q == g)
    && (forall j :: 1 <= j < 16 && j != i ==> 0 <= s[j] < 65536)
    && (i < 16 ==> 0 <= s[i] - q < 65536)
  }

  lemma {:induction false} CarExactFrom(s: seq<int>, i: nat, g: int, q: int)
    requires 1 <= i <= 15 && Third(s, i, g, q)
    ensures Exact(CarFrom(s, i))
    decreases 16 - i
  {
    var r, q' := CarStep(s, i), s[i] / 65536;
    assert q' == 0 || q' == q;
    if i < 15 {
      assert Third(r, i + 1, g, q');
      CarExactFrom(r, i + 1, g, q');
    } else {
      CarEnd(r);
    }
    CarNext(s, i);
  }

  /** After two rounds, a third leaves every limb within sixteen bits. */
  lemma CarExact(s: seq<int>)
    requires Tight(s)
    ensures Exact(CarFrom(s, 0))
  {
    hide CarFrom;
    var r, g := CarStep(s, 0), s[0] / 65536;
    CarNext(s, 0);
    assert Third(r, 1, g, g);
    CarExactFrom(r, 1, g, g);
  }

  // ---------------------------------------------------------------------------
  // Subtracting the prime
  // ---------------------------------------------------------------------------

  /** The limbs of 2^255 - 19. */
  function PrimeLimb(i: nat): int { if i == 0 then 0xffed else if i < 15 then 0xffff else 0x7fff }

  function PrimeLimbs(n: nat): (r: seq<int>)
    ensures |r| == n
  {
    seq(n, i requires 0 <= i < n => PrimeLimb(i))
  }

  lemma {:induction false} LowPrime(n: nat)
    requires 1 <= n <= 15
    ensures Val(PrimeLimbs(n)) == R(n) - 19
  {
    assert PrimeLimbs(n)[..n - 1] == PrimeLimbs(n - 1);
    if n == 1 {
      assert R(0) == 1 && R(1) == 65536;
      assert PrimeLimbs(0) == [];
    } else {
      LowPrime(n - 1);
    }
  }

  lemma TopWeight()
    ensures Scaled(-0x8000, R(15)) == -(P + 19) && Scaled(0, R(15)) == 0
  {
    R16();
  }

  lemma PrimeValue()
    ensures Val(PrimeLimbs(16)) == P
  {
    hide Val, R;
    LowPrime(15);
    Append(PrimeLimbs(15), 0x7fff);
    assert PrimeLimbs(16) == PrimeLimbs(15) + [0x7fff];
    TopWeight();
  }

  /** (x >> 16) & 1 for a value that needs at most one borrow. */
  function Borrow(x: int): int { x / 65536 % 2 }

  lemma BorrowIs(x: int)
    requires -65536 <= x < 65536
    ensures Borrow(x) == (if x < 0 then 1 else 0) && x % 65536 == x + 65536 * Borrow(x)
  {
  }

  lemma {:induction false} ValBounds(s: seq<int>)
    requires forall i :: 0 <= i < |s| ==> 0 <= s[i] < 65536
    ensures 0 <= Val(s) < R(|s|)
  {
    if s != [] {
      var n := |s| - 1;
      ValBounds(s[..n]);
      LimbBounds(s[n], R(n));
    }
  }

  lemma LimbBounds(x: int, r: nat)
    requires 0 <= x < 65536
    ensures 0 <= x * r && x * r + r <= 65536 * r
  {
    assert (x + 1) * r <= 65536 * r;
  }

  /** Borrowing from the next limb: what is added here is taken there. */
  lemma BorrowStep(v: int, t: int, p: int, b: int, b': int, m: int, r: nat)
    requires m == t - p - b + 65536 * b'
    ensures v - Scaled(b, r) + Scaled(t - p, r) == v + Scaled(m, r) - Scaled(b', 65536 * r)
  {
    assert m * r == (t - p - b) * r + (65536 * b') * r;
    assert (65536 * b') * r == b' * (65536 * r);
    assert (t - p - b) * r == (t - p) * r - b * r;
  }

  /** The subtraction loop: the difference as sixteen limbs, the top one negative exactly below the prime. */
  method SubtractPrime(t: seq<int>) returns (m: seq<int>)
    requires Exact(t)
    ensures |m| == 16 && Val(m) == Val(t) - P
    ensures (forall i :: 0 <= i < 15 ==> 0 <= m[i] < 65536) && -65536 <= m[15] < 65536
  {
    hide Val, Scaled, R, PrimeLimbs;
    m := [];
    var b := 0;
    Start(t);
    for i := 0 to 15
      invariant |m| == i && (b == 0 || b == 1)
      invariant forall k :: 0 <= k < i ==> 0 <= m[k] < 65536
      invariant Val(m) - Scaled(b, R(i)) == Val(t[..i]) - Val(PrimeLimbs(i))
    {
      var x := I64(I64(t[i] - PrimeLimb(i)) - b);
      BorrowIs(x);
      var low := x % 65536;
      Digit(t, m, i, b, Borrow(x), low);
      m, b := m + [low], Borrow(x);
    }
    var top := I64(I64(t[15] - PrimeLimb(15)) - b);
    Digit(t, m, 15, b, 0, top);
    m := m + [top];
    Finish(t, m);
  }

  lemma Start(t: seq<int>)
    requires |t| == 16
    ensures Val([]) - Scaled(0, R(0)) == Val(t[..0]) - Val(PrimeLimbs(0))
  {
    assert t[..0] == [] && PrimeLimbs(0) == [];
  }

  lemma Digit(t: seq<int>, m: seq<int>, i: nat, b: int, b': int, x: int)
    requires |t| == 16 && i < 16 && |m| == i && x == t[i] - PrimeLimb(i) - b + 65536 * b'
    requires Val(m) - Scaled(b, R(i)) == Val(t[..i]) - Val(PrimeLimbs(i))
    ensures Val(m + [x]) - Scaled(b', R(i + 1)) == Val(t[..i + 1]) - Val(PrimeLimbs(i + 1))
  {
    hide Val, Scaled;
    Append(m, x);
    Append(t[..i], t[i]);
    assert t[..i + 1] == t[..i] + [t[i]];
    Append(PrimeLimbs(i), PrimeLimb(i));
    assert PrimeLimbs(i + 1) == PrimeLimbs(i) + [PrimeLimb(i)];
    BorrowStep(Val(m), t[i], PrimeLimb(i), b, b', x, R(i));
    Apart(t[i], PrimeLimb(i), R(i));
  }

  lemma Append(s: seq<int>, x: int)
    ensures Val(s + [x]) == Val(s) + Scaled(x, R(|s|))
  {
    assert (s + [x])[..|s|] == s;
  }

  lemma Apart(a: int, b: int, r: int)
    ensures Scaled(a - b, r) == Scaled(a, r) - Scaled(b, r)
  {
  }

  lemma Finish(t: seq<int>, m: seq<int>)
    requires |t| == 16 && Val(m) - Scaled(0, R(16)) == Val(t[..16]) - Val(PrimeLimbs(16))
    ensures Val(m) == Val(t) - P
  {
    hide Val, R, PrimeLimbs;
    assert t[..16] == t;
    PrimeValue();
  }

  // ---------------------------------------------------------------------------
  // Packing
  // ---------------------------------------------------------------------------

  /** The sixteen little-endian words of 32 octets. */
  function Words(o: seq<Byte>): (r: seq<int>)
    requires |o| == 32
    ensures |r| == 16
  {
    seq(16, i requires 0 <= i < 16 => o[2 * i] + 256 * (o[2 * i + 1] as int))
  }

  lemma SignIs(m: seq<int>)
    requires |m| == 16 && (forall i :: 0 <= i < 15 ==> 0 <= m[i] < 65536) && -65536 <= m[15] < 65536
    ensures m[15] >= 0 <==> Val(m) >= 0
  {
    ValBounds(m[..15]);
    Sign(m[15], Val(m[..15]), R(15));
  }

  lemma Sign(x: int, v: int, r: nat)
    requires 0 <= v < r
    ensures x >= 0 <==> v + x * r >= 0
  {
    if x >= 0 { assert x * r >= 0; } else { assert x * r <= -1 * r; }
  }

  /** One turn: the prime is taken off when that leaves no less than nothing. */
  method Reduce(t: seq<int>) returns (r: seq<int>)
    requires Exact(t)
    ensures Exact(r) && Val(r) == if Val(t) >= P then Val(t) - P else Val(t)
  {
    hide Val;
    var m := SubtractPrime(t);
    SignIs(m);
    BorrowIs(m[15]);
    r := if Borrow(m[15]) == 0 then m else t;
  }

  lemma Reduced(v: int, v1: int, v2: int)
    requires 0 <= v < R(16)
    requires v1 == (if v >= P then v - P else v) && v2 == (if v1 >= P then v1 - P else v1)
    ensures 0 <= v2 < P && Same(v2, v)
  {
    R16();
    if v >= P && v1 >= P {
      SameBy(v2, v, -2);
    } else if v >= P {
      SameBy(v2, v, -1);
    } else {
      SameEqual(v2, v);
    }
  }

  /** pack25519: for all limbs up to 2^62 in magnitude, the representative below 2^255 - 19. */
  method Pack(n: array<int>) returns (o: seq<Byte>)
    requires n.Length == 16 && Within(n[..], LARGE)
    ensures Packs(o, Val(n[..]))
  {
    hide Val, Same, Words;
    var t := Carried3(n);
    ValBounds(t);
    var t1 := Reduce(t);
    var t2 := Reduce(t1);
    Reduced(Val(t), Val(t1), Val(t2));
    SameTrans(Val(t2), Val(t), Val(n[..]));
    o := Octets(t2);
  }

  /** Three carry rounds on a copy. */
  method Carried3(n: array<int>) returns (r: seq<int>)
    requires n.Length == 16 && Within(n[..], LARGE)
    ensures Exact(r) && Same(Val(r), Val(n[..]))
  {
    hide Val, Same, CarFrom;
    var t := new int[16](k requires 0 <= k < 16 reads n => n[k]);
    assert t[..] == n[..];
    ghost var s0 := t[..];
    Car(t);
    ghost var s1 := t[..];
    CarValue(s0, 0);
    CarRough(s0, 0);
    RoughIsLarge(s1);
    Car(t);
    ghost var s2 := t[..];
    CarValue(s1, 0);
    CarTight(s1, 0);
    TightIsSmall(s2);
    Car(t);
    CarValue(s2, 0);
    CarExact(s2);
    r := t[..];
    SameTrans(Val(s2), Val(s1), Val(s0));
    SameTrans(Val(r), Val(s2), Val(s0));
  }

  method Octets(t: seq<int>) returns (o: seq<Byte>)
    requires Exact(t)
    ensures |o| == 32 && Words(o) == t
  {
    o := [];
    for i := 0 to 16
      invariant |o| == 2 * i && forall k :: 0 <= k < i ==> o[2 * k] + 256 * (o[2 * k + 1] as int) == t[k]
    {
      o := o + [t[i] % 256, t[i] / 256];
    }
  }

  // ---------------------------------------------------------------------------
  // What packing decides
  // ---------------------------------------------------------------------------

  lemma WordsExact(o: seq<Byte>)
    requires |o| == 32
    ensures Exact(Words(o))
  {
  }

  lemma {:induction false} ValInjective(s: seq<int>, t: seq<int>)
    requires |s| == |t| && Val(s) == Val(t)
    requires forall i :: 0 <= i < |s| ==> 0 <= s[i] < 65536 && 0 <= t[i] < 65536
    ensures s == t
  {
    if s != [] {
      var n := |s| - 1;
      ValBounds(s[..n]);
      ValBounds(t[..n]);
      Digits(Val(s[..n]), s[n], Val(t[..n]), t[n], R(n));
      ValInjective(s[..n], t[..n]);
      assert s == s[..n] + [s[n]] && t == t[..n] + [t[n]];
    }
  }

  lemma Digits(v: int, x: int, w: int, y: int, r: nat)
    requires 0 <= v < r && 0 <= w < r && v + x * r == w + y * r
    ensures x == y && v == w
  {
    Arith.DivModUnique(v + x * r, x, v, r);
    Arith.DivModUnique(w + y * r, y, w, r);
  }

  lemma SameSmall(x: int, y: int)
    requires Same(x, y) && 0 <= x < P && 0 <= y < P
    ensures x == y
  {
    var k :| Differ(x, y, k);
  }

  lemma {:induction false} WordsInjective(o: seq<Byte>, u: seq<Byte>)
    requires |o| == 32 && |u| == 32 && Words(o) == Words(u)
    ensures o == u
  {
    forall k | 0 <= k < 32 ensures o[k] == u[k] {
      var i := k / 2;
      assert Words(o)[i] == Words(u)[i];
      assert k == 2 * i || k == 2 * i + 1;
    }
  }

  /** The octets hold the number itself reduced: below 2^255 - 19 and the same modulo it. */
  ghost predicate Packs(o: seq<Byte>, v: int) {
    |o| == 32 && 0 <= Val(Words(o)) < P && Same(Val(Words(o)), v)
  }

  /** Two octet strings that pack two numbers are equal exactly when the numbers are, modulo 2^255 - 19. */
  lemma PackDecides(a: int, b: int, o: seq<Byte>, u: seq<Byte>)
    requires Packs(o, a) && Packs(u, b)
    ensures o == u <==> Same(a, b)
  {
    hide Val, Words, Same;
    SameBack(Val(Words(o)), a);
    SameBack(Val(Words(u)), b);
    if o == u {
      SameTrans(a, Val(Words(o)), b);
    }
    if Same(a, b) {
      SameTrans(Val(Words(o)), a, b);
      SameTrans(Val(Words(o)), b, Val(Words(u)));
      SameSmall(Val(Words(o)), Val(Words(u)));
      WordsExact(o);
      WordsExact(u);
      ValInjective(Words(o), Words(u));
      WordsInjective(o, u);
    }
  }

  lemma SameBack(x: int, y: int)
    requires Same(x, y)
    ensures Same(y, x)
  {
    var k :| Differ(x, y, k);
    assert Differ(y, x, -k);
  }

  /** neq25519: whether two elements differ modulo 2^255 - 19. */
  method Differs(a: array<int>, b: array<int>) returns (neq: bool)
    requires a.Length == 16 && b.Length == 16 && Within(a[..], LARGE) && Within(b[..], LARGE)
    ensures neq <==> !Same(Val(a[..]), Val(b[..]))
  {
    hide Val, Words, Same;
    var c := Pack(a);
    var d := Pack(b);
    PackDecides(Val(a[..]), Val(b[..]), c, d);
    neq := c != d;
  }

  // ---------------------------------------------------------------------------
  // Unpacking
  // ---------------------------------------------------------------------------

  /** The number in 32 octets without their top bit. */
  ghost function Unpacked(n: seq<Byte>): int
    requires |n| == 32
  {
    Val(Words(n)) - if n[31] >= 0x80 then P + 19 else 0
  }

  /** unpack25519. */
  method Unpack(n: seq<Byte>) returns (o: array<int>)
    requires |n| == 32
    ensures fresh(o) && o.Length == 16 && Exact(o[..]) && Val(o[..]) == Unpacked(n)
  {
    hide Val;
    o := new int[16](_ => 0);
    for i := 0 to 16
      invariant forall k :: 0 <= k < i ==> o[k] == n[2 * k] + 256 * (n[2 * k + 1] as int)
    {
      o[i] := n[2 * i] + 256 * (n[2 * i + 1] as int);
    }
    ghost var w := o[..];
    assert w == Words(n);
    o[15] := o[15] % 0x8000;
    assert o[..] == w[15 := w[15] % 0x8000];
    TopBit(w, n[30], n[31]);
  }

  lemma TopBit(w: seq<int>, lo: Byte, hi: Byte)
    requires |w| == 16 && w[15] == lo + 256 * (hi as int)
    ensures Val(w[15 := w[15] % 0x8000]) == Val(w) - if hi >= 0x80 then P + 19 else 0
  {
    hide Val, R, Scaled;
    ValUpdate(w, 15, w[15] % 0x8000);
    assert w[15] % 0x8000 - w[15] == if hi >= 0x80 then -0x8000 else 0;
    TopWeight();
  }

  lemma UnpackedBounds(n: seq<Byte>)
    requires |n| == 32
    ensures 0 <= Unpacked(n) < P + 19
  {
    hide Val, R, Scaled;
    var w := Words(n);
    var u := w[15 := w[15] % 0x8000];
    assert w[15] == n[30] + 256 * (n[31] as int);
    TopBit(w, n[30], n[31]);
    LowHalf(u);
  }

  lemma LowHalf(u: seq<int>)
    requires Exact(u) && u[15] < 0x8000
    ensures 0 <= Val(u) < P + 19
  {
    hide R;
    ValBounds(u[..15]);
    TopWeight();
    Half(u[15], R(15));
  }

  lemma Half(x: int, r: nat)
    requires 0 <= x < 0x8000
    ensures 0 <= x * r && x * r + r <= -Scaled(-0x8000, r)
  {
    assert (x + 1) * r <= 0x8000 * r;
  }

  /** Unpacking what was packed gives the number back, modulo 2^255 - 19. */
  lemma UnpackPacked(o: seq<Byte>, v: int)
    requires Packs(o, v)
    ensures o[31] < 0x80 && Same(Unpacked(o), v)
  {
    hide Val, Words, Same;
    UnpackedBounds(o);
  }

  /** Packing what was unpacked gives the octets back exactly when they held a number below 2^255 - 19. */
  lemma PackUnpacked(n: seq<Byte>, o: seq<Byte>)
    requires |n| == 32 && Packs(o, Unpacked(n))
    ensures o == n <==> Val(Words(n)) < P
  {
    hide Val, Words, Same;
    UnpackedBounds(n);
    if Val(Words(n)) < P {
      SameSmall(Val(Words(o)), Val(Words(n)));
      SameEqual(Val(Words(n)), Val(Words(n)));
      PackDecides(Unpacked(n), Unpacked(n), o, n);
    }
  }
}
