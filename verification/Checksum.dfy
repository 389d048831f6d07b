/** The Internet checksum (section 1 of RFC 1071) and the IPv4 headers that carry it. */
module Checksum {
  import opened Bytes
  import Arith

  /** The sum of 16-bit words as the machine loads them, with an odd last byte added as it is. */
  function Sum(s: seq<Byte>): nat {
    if |s| == 0 then 0 else if |s| == 1 then s[0] else s[0] + 256 * (s[1] as int) + Sum(s[2..])
  }

  /** The sum with end-around carry: in 1 to 65535 unless everything is zero. */
  function Fold(s: nat): nat { if s == 0 then 0 else (s - 1) % 65535 + 1 }

  function Complement(s: nat): nat { 65535 - Fold(s) }

  /** One folding step keeps the folded value and makes the number smaller. */
  lemma FoldStep(s: nat)
    requires s >= 65536
    ensures Fold(s % 65536 + s / 65536) == Fold(s) && s % 65536 + s / 65536 < s
  {
    var q, r := s / 65536, s % 65536;
    assert s - 1 == 65535 * q + (r + q - 1);
    Shifted(q, r + q - 1);
  }

  lemma {:induction false} Shifted(k: nat, x: nat)
    ensures (65535 * k + x) % 65535 == x % 65535
  {
    if k > 0 { Shifted(k - 1, x); }
  }

  lemma FoldSmall(s: nat)
    requires s <= 65535
    ensures Fold(s) == s
  {
  }

  lemma {:induction false} SumBound(s: seq<Byte>)
    ensures Sum(s) <= 65535 * (|s| / 2) + 255 * (|s| % 2)
    decreases |s|
  {
    if |s| >= 2 { SumBound(s[2..]); }
  }

  /** Words before an even place add up on their own. */
  lemma {:induction false} SumSplit(a: seq<Byte>, b: seq<Byte>)
    requires |a| % 2 == 0
    ensures Sum(a + b) == Sum(a) + Sum(b)
    decreases |a|
  {
    if |a| == 0 {
      assert a + b == b;
    } else {
      assert (a + b)[2..] == a[2..] + b;
      SumSplit(a[2..], b);
    }
  }

  lemma SumPair(x: Byte, y: Byte)
    ensures Sum([x, y]) == x + 256 * (y as int)
  {
    assert [x, y][2..] == [];
  }

  lemma U32Adds(x: nat, w: nat)
    ensures Arith.U32(Arith.U32(x) + w) == Arith.U32(x + w)
  {
    var m := 0x1_0000_0000;
    var y := Arith.U32(x) + w;
    Arith.DivModUnique(x + w, x / m + y / m, y % m, m);
  }

  /** The 32-bit accumulator does not wrap for up to 65537 words. */
  lemma NoWrap(data: seq<Byte>)
    requires |data| <= 2 * 65537
    ensures Arith.U32(Sum(data)) == Sum(data)
  {
    SumBound(data);
  }

  /** ip_calculate_checksum. */
  method Calculate(data: seq<Byte>) returns (c: nat)
    ensures c == Complement(Arith.U32(Sum(data))) && c < 65536
    ensures |data| <= 2 * 65537 ==> c == Complement(Sum(data))
  {
    hide Sum;
    var sum := Total(data);
    if |data| <= 2 * 65537 { NoWrap(data); }
    ghost var all := sum;
    while sum >= 65536
      invariant Fold(sum) == Fold(all)
      decreases sum
    {
      FoldStep(sum);
      sum := sum % 65536 + sum / 65536;
    }
    FoldSmall(sum);
    c := 65535 - sum;
  }

  /** The summing loop. */
  method Total(data: seq<Byte>) returns (sum: nat)
    ensures sum == Arith.U32(Sum(data))
  {
    hide Arith.U32;
    sum := 0;
    var i: nat := 0;
    Nothing();
    assert data[..0] == [];
    while i + 1 < |data|
      invariant i % 2 == 0 && i <= |data| && sum == Arith.U32(Sum(data[..i]))
    {
      Grow(data, i);
      U32Adds(Sum(data[..i]), data[i] + 256 * (data[i + 1] as int));
      sum := Arith.U32(sum + (data[i] + 256 * (data[i + 1] as int)));
      i := i + 2;
    }
    if i < |data| {
      GrowOdd(data, i);
      U32Adds(Sum(data[..i]), data[i]);
      sum := Arith.U32(sum + data[i]);
    } else {
      assert data[..i] == data;
    }
  }

  lemma Nothing()
    ensures Arith.U32(Sum([])) == 0
  {
  }

  lemma Grow(data: seq<Byte>, i: nat)
    requires i % 2 == 0 && i + 2 <= |data|
    ensures Sum(data[..i + 2]) == Sum(data[..i]) + data[i] + 256 * (data[i + 1] as int)
  {
    assert data[..i + 2] == data[..i] + [data[i], data[i + 1]];
    SumSplit(data[..i], [data[i], data[i + 1]]);
    SumPair(data[i], data[i + 1]);
  }

  lemma GrowOdd(data: seq<Byte>, i: nat)
    requires i % 2 == 0 && i + 1 == |data|
    ensures Sum(data) == Sum(data[..i]) + data[i]
  {
    assert data == data[..i] + [data[i]];
    SumSplit(data[..i], [data[i]]);
  }

  // ---------------------------------------------------------------------------
  // Storing and checking
  // ---------------------------------------------------------------------------

  function Stored(h: seq<Byte>, at: nat, c: nat): (r: seq<Byte>)
    requires at + 2 <= |h|
    ensures |r| == |h|
  {
    h[..at] + [c % 256, c / 256 % 256] + h[at + 2..]
  }

  lemma StoredSum(h: seq<Byte>, at: nat, c: nat)
    requires at + 2 <= |h| && at % 2 == 0 && h[at] == 0 && h[at + 1] == 0 && c < 65536
    ensures Sum(Stored(h, at, c)) == Sum(h) + c
  {
    hide Sum;
    var a, b := h[..at], h[at + 2..];
    assert h == a + [0, 0] + b;
    SumAround(a, 0, 0, b);
    SumAround(a, c % 256, c / 256 % 256, b);
    TwoBytes(c);
  }

  lemma TwoBytes(c: nat)
    requires c < 65536
    ensures c % 256 + 256 * (c / 256 % 256) == c
  {
  }

  lemma SumAround(a: seq<Byte>, x: Byte, y: Byte, b: seq<Byte>)
    requires |a| % 2 == 0
    ensures Sum(a + [x, y] + b) == Sum(a) + x + 256 * (y as int) + Sum(b)
  {
    hide Sum;
    SumSplit(a + [x, y], b);
    SumSplit(a, [x, y]);
    SumPair(x, y);
  }

  /** A number passes the check exactly when it is a positive multiple of 65535. */
  lemma ZeroIff(s: nat)
    ensures Complement(s) == 0 <==> s > 0 && s % 65535 == 0
  {
  }

  /** The stored field makes the check come out 0 exactly when it agrees with the checksum modulo 65535. */
  lemma PassesIff(h: seq<Byte>, at: nat, v: nat)
    requires at + 2 <= |h| && at % 2 == 0 && h[at] == 0 && h[at + 1] == 0 && v < 65536
    ensures Complement(Sum(Stored(h, at, v))) == 0 <==> Sum(h) + v > 0 && (v - Complement(Sum(h))) % 65535 == 0
  {
    StoredSum(h, at, v);
    ZeroIff(Sum(h) + v);
    Congruent(Sum(h), v);
  }

  lemma Congruent(s: nat, v: nat)
    ensures (s + v) % 65535 == 0 <==> (v - Complement(s)) % 65535 == 0
  {
  }

  /** Storing the checksum in its zeroed field makes the recomputed checksum 0. */
  lemma StoredPasses(h: seq<Byte>, at: nat)
    requires at + 2 <= |h| && at % 2 == 0 && h[at] == 0 && h[at + 1] == 0
    ensures Complement(Sum(Stored(h, at, Complement(Sum(h))))) == 0
  {
    PassesIff(h, at, Complement(Sum(h)));
  }
}
