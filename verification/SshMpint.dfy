/** The mpint encoding (section 5 of RFC 4251) of a 32-octet shared secret. */
module SshMpint {
  import opened Bytes
  import opened Octets
  import Arith
  import Sha256

  function Trimmed(k: seq<Byte>): (r: seq<Byte>)
    ensures r == [] || r[0] != 0
    ensures |r| <= |k|
  {
    if k != [] && k[0] == 0 then Trimmed(k[1..]) else k
  }

  /** The shortest string of octets with the same value whose top bit is clear. */
  function Body(k: seq<Byte>): (r: seq<Byte>)
    ensures |r| <= |k| + 1
  {
    var t := Trimmed(k);
    if t != [] && t[0] >= 0x80 then [0] + t else t
  }

  function Mpint(k: seq<Byte>): (r: seq<Byte>)
    ensures |r| <= |k| + 5
  {
    BigEndian(|Body(k)|, 4) + Body(k)
  }

  lemma {:induction false} ValueFront(a: Byte, bs: seq<Byte>)
    ensures Value([a] + bs) == a * Pow256(|bs|) + Value(bs)
  {
    var all := [a] + bs;
    if bs == [] {
      assert all[..0] == [];
    } else {
      var n := |bs| - 1;
      assert all[..n + 1] == [a] + bs[..n];
      ValueFront(a, bs[..n]);
      Distribute(a, Pow256(n), Value(bs[..n]), bs[n]);
    }
  }

  lemma Distribute(a: nat, p: nat, v: nat, l: nat)
    ensures 256 * (a * p + v) + l == a * (256 * p) + (256 * v + l)
  {
  }

  lemma {:induction false} TrimmedValue(k: seq<Byte>)
    ensures Value(Trimmed(k)) == Value(k)
  {
    if k != [] && k[0] == 0 {
      TrimmedValue(k[1..]);
      assert k == [0] + k[1..];
      ValueFront(0, k[1..]);
    }
  }

  lemma {:induction false} Pow256Mono(a: nat, b: nat)
    requires a <= b
    ensures Pow256(a) <= Pow256(b)
  {
    if a < b { Pow256Mono(a, b - 1); }
  }

  /** A string whose first octet is not zero needs all its octets. */
  lemma NeedsAll(t: seq<Byte>, bs: seq<Byte>)
    requires t != [] && t[0] != 0 && Value(bs) == Value(t)
    ensures |bs| >= |t|
  {
    assert t == [t[0]] + t[1..];
    ValueFront(t[0], t[1..]);
    BigEndianOfValue(bs);
    var p := Pow256(|t| - 1);
    assert t[0] as int * p >= p by { Arith.MulMono(1, t[0], p); }
    if |bs| < |t| { Pow256Mono(|bs|, |t| - 1); }
  }

  /** When the top bit of the first octet is set too, a string with a clear top bit is one octet longer. */
  lemma NeedsMore(t: seq<Byte>, bs: seq<Byte>)
    requires t != [] && t[0] >= 0x80 && bs != [] && bs[0] < 0x80 && Value(bs) == Value(t)
    ensures |bs| > |t|
  {
    NeedsAll(t, bs);
    if |bs| == |t| {
      BigEndianOfValue(bs);
      BigEndianOfValue(t);
    }
  }

  /** The body carries the value, is not negative as two's complement, and nothing shorter will do. */
  lemma BodyCanonical(k: seq<Byte>, bs: seq<Byte>)
    requires Value(bs) == Value(k) && (bs == [] || bs[0] < 0x80)
    ensures Value(Body(k)) == Value(k) && (Body(k) == [] || Body(k)[0] < 0x80) && |Body(k)| <= |bs|
  {
    var t := Trimmed(k);
    TrimmedValue(k);
    if t != [] {
      NeedsAll(t, bs);
      if t[0] >= 0x80 {
        ValueFront(0, t);
        NeedsMore(t, bs);
      }
    }
  }

  /** ssh_append_curve25519_mpint: appends at `index` when there is room. */
  method Append(buffer: array<Byte>, index: nat, k: seq<Byte>) returns (ok: bool, next: nat)
    requires |k| == 32
    modifies buffer
    ensures ok <==> index <= buffer.Length && |Mpint(k)| <= buffer.Length - index
    ensures ok ==> next == index + |Mpint(k)| && buffer[..next] == old(buffer[..index]) + Mpint(k)
    ensures !ok ==> next == index
  {
    hide Body, BigEndian;
    next := index;
    if index > buffer.Length || buffer.Length - index < 4 { return false, next; }
    var value, start := Shorten(k);
    var length := 33 - start;
    if buffer.Length - index < 4 + length { return false, next; }
    ghost var before := buffer[..index];
    Sha256.SequenceOctets(length);
    buffer[index], buffer[index + 1] := length / 0x100_0000 % 256, length / 0x1_0000 % 256;
    buffer[index + 2], buffer[index + 3] := length / 0x100 % 256, length % 256;
    assert buffer[..index + 4] == before + BigEndian(length, 4);
    next := Copy(buffer, index + 4, value[start..]);
    assert before + BigEndian(length, 4) + Body(k) == before + Mpint(k);
    ok := true;
  }

  method Copy(buffer: array<Byte>, index: nat, data: seq<Byte>) returns (next: nat)
    requires index + |data| <= buffer.Length
    modifies buffer
    ensures next == index + |data| && buffer[..next] == old(buffer[..index]) + data
  {
    next := index;
    for i := 0 to |data|
      invariant next == index + i && buffer[..next] == old(buffer[..index]) + data[..i]
    {
      buffer[next] := data[i];
      next := next + 1;
    }
  }

  /** Where the encoding of `k` starts in the 33 octets that begin with a spare zero. */
  method Shorten(k: seq<Byte>) returns (value: seq<Byte>, start: nat)
    requires |k| == 32
    ensures |value| == 33 && start <= 33 && value[start..] == Body(k)
  {
    value, start := [0] + k, 1;
    assert value[1..] == k;
    while start < 33 && value[start] == 0
      invariant 1 <= start <= 33 && |value| == 33 && Trimmed(k) == Trimmed(value[start..])
    {
      assert value[start..][1..] == value[start + 1..];
      start := start + 1;
    }
    ghost var t := value[start..];
    assert Trimmed(k) == t;
    if start < 33 && value[start] >= 0x80 {
      start := start - 1;
      value := value[start := 0];
      assert value[start..] == [0] + t;
    }
  }
}
