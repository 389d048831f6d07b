/** Big-endian octet strings and the exclusive or of bytes. */
module Octets {
  import opened Bytes
  import Arith

  function Pow256(n: nat): (r: nat)
    ensures r > 0
  {
    if n == 0 then 1 else 256 * Pow256(n - 1)
  }

  /** The low `n` octets of `v`, most significant first. */
  function BigEndian(v: nat, n: nat): (r: seq<Byte>)
    ensures |r| == n
  {
    if n == 0 then [] else BigEndian(v / 256, n - 1) + [v % 256]
  }

  function Value(bs: seq<Byte>): nat {
    if bs == [] then 0 else 256 * Value(bs[..|bs| - 1]) + bs[|bs| - 1]
  }

  lemma {:induction false} BigEndianOfValue(bs: seq<Byte>)
    ensures BigEndian(Value(bs), |bs|) == bs && Value(bs) < Pow256(|bs|)
  {
    if bs != [] {
      BigEndianOfValue(bs[..|bs| - 1]);
    }
  }

  lemma {:induction false} ValueOfBigEndian(v: nat, n: nat)
    requires v < Pow256(n)
    ensures Value(BigEndian(v, n)) == v
  {
    if n > 0 {
      var r := BigEndian(v, n);
      assert r[..n - 1] == BigEndian(v / 256, n - 1);
      ValueOfBigEndian(v / 256, n - 1);
    }
  }

  lemma DivTwice(v: nat, n: nat)
    ensures v / Pow256(n + 1) == v / Pow256(n) / 256
  {
    var p, a := Pow256(n), v / Pow256(n);
    var q, s, t := a / 256, a % 256, v % p;
    assert v == a * p + t && a == q * 256 + s;
    Regroup(p, q, s);
    Arith.MulMono(s, 255, p);
    Arith.DivModUnique(v, q, s * p + t, 256 * p);
  }

  lemma Regroup(p: nat, q: nat, s: nat)
    ensures (q * 256 + s) * p == q * (256 * p) + s * p
  {
  }

  /** Octet `i` of the `n` is what a shift by whole octets and a mask select. */
  lemma {:induction false} BigEndianAt(v: nat, n: nat, i: nat)
    requires i < n
    ensures BigEndian(v, n)[i] == v / Pow256(n - 1 - i) % 256
  {
    if i == n - 1 {
      assert Pow256(0) == 1;
    } else {
      BigEndianAt(v / 256, n - 1, i);
      DivOuter(v, n - 2 - i);
    }
  }

  lemma {:induction false} DivOuter(v: nat, n: nat)
    ensures v / 256 / Pow256(n) == v / Pow256(n + 1)
  {
    if n == 0 {
      assert Pow256(0) == 1 && Pow256(1) == 256;
    } else {
      DivOuter(v, n - 1);
      DivTwice(v / 256, n - 1);
      DivTwice(v, n);
    }
  }

  /** Exclusive or of the low `n` bits. */
  function XorBits(a: nat, b: nat, n: nat): nat {
    if n == 0 then 0 else 2 * XorBits(a / 2, b / 2, n - 1) + (a + b) % 2
  }

  lemma {:induction false} XorBitsBound(a: nat, b: nat, n: nat)
    ensures XorBits(a, b, n) < Arith.Pow2(n)
  {
    if n > 0 { XorBitsBound(a / 2, b / 2, n - 1); }
  }

  lemma {:induction false} XorBitsUndo(a: nat, b: nat, n: nat)
    requires a < Arith.Pow2(n)
    ensures XorBits(XorBits(a, b, n), b, n) == a
  {
    if n > 0 {
      XorBitsUndo(a / 2, b / 2, n - 1);
      LowBit(a, b, XorBits(a / 2, b / 2, n - 1));
    }
  }

  lemma LowBit(a: nat, b: nat, y: nat)
    ensures (2 * y + (a + b) % 2) / 2 == y && (2 * y + (a + b) % 2 + b) % 2 == a % 2
  {
  }

  lemma Pow2Of8()
    ensures Arith.Pow2(8) == 256
  {
    assert Arith.Pow2(4) == 16;
    assert Arith.Pow2(8) == 16 * Arith.Pow2(4);
  }

  function Xor(a: Byte, b: Byte): Byte {
    XorBitsBound(a, b, 8);
    Pow2Of8();
    XorBits(a, b, 8)
  }

  /** What is masked twice with the same byte comes back. */
  lemma XorUndo(a: Byte, b: Byte)
    ensures Xor(Xor(a, b), b) == a
  {
    Pow2Of8();
    XorBitsUndo(a, b, 8);
  }
}
