/**
 * Streaming SHA-256 against the definition of sections 5.1.1 and 6.2 of FIPS 180-4, and the packet MAC against
 * HMAC of section 2 of RFC 2104.  The compression function is any function from a chaining value and a block.
 */
module Sha256 {
  import opened Bytes
  import opened Octets
  import Arith

  const ZERO8: seq<int> := [0, 0, 0, 0, 0, 0, 0, 0]

  type Word32 = x: int | 0 <= x < 0x1_0000_0000

  type Chain = h: seq<Word32> | |h| == 8 witness ZERO8

  type Block = b: seq<Byte> | |b| == 64 witness seq(64, _ => 0)

  type Compression = (Chain, Block) -> Chain

  const INIT: Chain := [0x6a09e667, 0xbb67ae85, 0x3c6ef372, 0xa54ff53a, 0x510e527f, 0x9b05688c, 0x1f83d9ab, 0x5be0cd19]

  // ---------------------------------------------------------------------------
  // The definition
  // ---------------------------------------------------------------------------

  /** Blocks of a padded message of `n` octets. */
  function BlockCount(n: nat): nat { (n + 8) / 64 + 1 }

  /** The number of zero octets between the 0x80 octet and the length. */
  function Zeros(n: nat): (z: nat)
    ensures n + 1 + z + 8 == 64 * BlockCount(n) && z < 64
  {
    64 * BlockCount(n) - n - 9
  }

  /** Octets of the length field. */
  const LENGTH: nat := 8

  /** Section 5.1.1; the length field holds the bit count modulo 2^64. */
  function Padded(m: seq<Byte>): (r: seq<Byte>)
    ensures |r| == 64 * BlockCount(|m|)
  {
    m + [0x80] + seq(Zeros(|m|), _ => 0) + BigEndian(8 * |m|, LENGTH)
  }

  /** Section 6.2: the chaining value after the first `k` blocks of `m`. */
  function Chained(f: Compression, m: seq<Byte>, k: nat): Chain
    requires 64 * k <= |m|
  {
    if k == 0 then INIT else f(Chained(f, m, k - 1), m[64 * k - 64..64 * k])
  }

  lemma {:induction false} ChainedFront(f: Compression, a: seq<Byte>, b: seq<Byte>, k: nat)
    requires 64 * k <= |a|
    ensures Chained(f, a + b, k) == Chained(f, a, k)
  {
    if k > 0 {
      ChainedFront(f, a, b, k - 1);
      assert (a + b)[64 * k - 64..64 * k] == a[64 * k - 64..64 * k];
    }
  }

  function Flat(h: seq<Word32>): (r: seq<Byte>)
    ensures |r| == 4 * |h|
  {
    if h == [] then [] else BigEndian(h[0], 4) + Flat(h[1..])
  }

  function Sha(f: Compression, m: seq<Byte>): (r: seq<Byte>)
    ensures |r| == 32
  {
    Flat(Chained(f, Padded(m), BlockCount(|m|)))
  }

  /** There are fewer zeros than any other number that fills the block. */
  lemma ZerosLeast(n: nat, z: nat)
    requires (n + 1 + z + 8) % 64 == 0
    ensures Zeros(n) <= z
  {
  }

  lemma {:induction false} FlatAt(h: seq<Word32>, i: nat)
    requires i < 4 * |h|
    ensures Flat(h)[i] == h[i / 4] / Pow256(3 - i % 4) % 256
  {
    if i < 4 {
      BigEndianAt(h[0], 4, i);
    } else {
      FlatAt(h[1..], i - 4);
    }
  }

  lemma {:induction false} BigEndianWraps(v: nat, n: nat)
    ensures BigEndian(v % Pow256(n), n) == BigEndian(v, n)
  {
    if n > 0 {
      ModOf(v, Pow256(n - 1));
      BigEndianWraps(v / 256, n - 1);
    }
  }

  lemma ModOf(v: nat, p: nat)
    requires p > 0
    ensures v % (256 * p) / 256 == v / 256 % p && v % (256 * p) % 256 == v % 256
  {
    var q, r, s := v / 256 / p, v / 256 % p, v % 256;
    assert v == 256 * (v / 256) + s && v / 256 == p * q + r;
    assert v == q * (256 * p) + (256 * r + s);
    Arith.DivModUnique(v, q, 256 * r + s, 256 * p);
  }

  /** The unsigned 64-bit counter. */
  function Wrapped(n: nat): nat {
    if n < 0x1_0000_0000_0000_0000 then n else Wrapped(n - 0x1_0000_0000_0000_0000)
  }

  /** How many message octets wait in the buffer, read off the bit counter. */
  lemma {:induction false} BitCount(n: nat, k: nat)
    requires 64 * k <= n < 64 * k + 64
    ensures Wrapped(8 * n) / 8 % 64 == n - 64 * k
  {
    if 8 * n >= 0x1_0000_0000_0000_0000 {
      BitCount(n - 0x2000_0000_0000_0000, k - 0x80_0000_0000_0000);
    }
  }

  lemma {:induction false} CountMore(n: nat, k: nat)
    ensures Wrapped(Wrapped(8 * n) + 8 * k) == Wrapped(8 * (n + k))
  {
    if 8 * n >= 0x1_0000_0000_0000_0000 { CountMore(n - 0x2000_0000_0000_0000, k); }
  }

  lemma {:induction false} WrappedIsMod(n: nat)
    ensures Wrapped(n) == n % 0x1_0000_0000_0000_0000
  {
    if n >= 0x1_0000_0000_0000_0000 { WrappedIsMod(n - 0x1_0000_0000_0000_0000); }
  }

  // ---------------------------------------------------------------------------
  // The streaming context
  // ---------------------------------------------------------------------------

  class Context {
    const compress: Compression
    const buffer: array<Byte>
    var state: Chain
    var count: nat
    ghost var message: seq<Byte>
    ghost var blocks: nat

    ghost predicate Valid()
      reads this, buffer
    {
      && buffer.Length == 64
      && count == Wrapped(8 * |message|)
      && Holds(message, blocks)
    }

    /** The first `k` blocks of `m` are compressed, and the buffer starts with the rest. */
    ghost predicate Holds(m: seq<Byte>, k: nat)
      reads this, buffer
    {
      && buffer.Length == 64 && 64 * k <= |m| < 64 * k + 64
      && state == Chained(compress, m, k) && buffer[..|m| - 64 * k] == m[64 * k..]
    }

    constructor (f: Compression)
      ensures Valid() && message == [] && compress == f && fresh(buffer)
    {
      compress := f;
      buffer := new Byte[64](_ => 0);
      state := INIT;
      count := 0;
      message, blocks := [], 0;
    }

    /** Puts `chunk` into the buffer at `j`. */
    method Fill(j: nat, chunk: seq<Byte>)
      requires buffer.Length == 64 && j + |chunk| <= 64
      modifies buffer
      ensures buffer[..j + |chunk|] == old(buffer[..j]) + chunk
    {
      var i := 0;
      while i < |chunk|
        invariant i <= |chunk|
        invariant buffer[..j + i] == old(buffer[..j]) + chunk[..i]
      {
        buffer[j + i] := chunk[i];
        i := i + 1;
      }
    }

    method Update(data: seq<Byte>)
      requires Valid()
      modifies this, buffer
      ensures Valid() && message == old(message) + data
    {
      BitCount(|message|, blocks);
      CountMore(|message|, |data|);
      var j := count / 8 % 64;
      count := Wrapped(count + 8 * |data|);
      Absorb(j, data);
    }

    method Absorb(waiting: nat, data: seq<Byte>)
      requires Holds(message, blocks) && waiting == |message| - 64 * blocks
      modifies this`state, this`message, this`blocks, buffer
      ensures Holds(message, blocks) && message == old(message) + data
    {
      hide Chained;
      var j, i := waiting, 0;
      ghost var m := message + data;
      ChainedFront(compress, message, data, blocks);
      if j + |data| > 63 {
        i := 64 - j;
        Complete(j, data[..i]);
        assert m == message + data[..i] + data[i..];
        ChainedFront(compress, message + data[..i], data[i..], blocks);
        i := Blocks(data, i, m);
        j := 0;
      }
      assert m[64 * blocks..] == buffer[..j] + data[i..];
      Fill(j, data[i..]);
      message := m;
    }

    /** Fills the buffer up and compresses it. */
    method Complete(j: nat, chunk: seq<Byte>)
      requires Holds(message, blocks) && j == |message| - 64 * blocks && j + |chunk| == 64
      modifies this`state, this`blocks, buffer
      ensures 64 * blocks == |message + chunk| && state == Chained(compress, message + chunk, blocks)
    {
      ghost var m := message + chunk;
      ChainedFront(compress, message, chunk, blocks);
      Fill(j, chunk);
      assert m[64 * blocks..64 * blocks + 64] == message[64 * blocks..] + chunk == buffer[..];
      state := compress(state, buffer[..]);
      blocks := blocks + 1;
    }

    /** Whole blocks straight from the data. */
    method Blocks(data: seq<Byte>, start: nat, ghost m: seq<Byte>) returns (i: nat)
      requires start <= |data| && 64 * blocks <= |m| && m[64 * blocks..] == data[start..]
      requires state == Chained(compress, m, blocks)
      modifies this`state, this`blocks
      ensures i <= |data| < i + 64 && 64 * blocks <= |m| && m[64 * blocks..] == data[i..]
      ensures state == Chained(compress, m, blocks)
    {
      i := start;
      while i + 63 < |data|
        invariant start <= i <= |data| && 64 * blocks <= |m| && m[64 * blocks..] == data[i..]
        invariant state == Chained(compress, m, blocks)
      {
        ghost var at: nat := 64 * blocks;
        Slice64(m, at, data, i);
        state := compress(state, data[i..i + 64]);
        i, blocks := i + 64, blocks + 1;
      }
    }

    /** The counter as eight octets, the way final writes it before padding. */
    method CountOctets() returns (r: seq<Byte>)
      requires Valid()
      ensures r == BigEndian(8 * |message|, LENGTH)
    {
      r := [];
      for i := 0 to 8
        invariant |r| == i && forall k :: 0 <= k < i ==> r[k] == BigEndian(count, 8)[k]
      {
        BigEndianAt(count, 8, i);
        r := r + [count / Pow256(7 - i) % 256];
      }
      assert Pow256(8) == 0x1_0000_0000_0000_0000;
      WrappedIsMod(8 * |message|);
      BigEndianWraps(8 * |message|, 8);
    }

    method Final() returns (digest: seq<Byte>)
      requires Valid()
      modifies this, buffer
      ensures digest == Sha(compress, old(message))
    {
      hide BlockCount, Flat, Chained, BigEndian, Wrapped;
      ghost var m := message;
      var finalCount := CountOctets();
      Update([0x80]);
      PadZeros(|m| + 1);
      Update(finalCount);
      assert message == Padded(m);
      Whole(BlockCount(|m|), blocks);
      digest := Digest();
    }

    /** Zero octets until 56 of the block are used. */
    method PadZeros(ghost n: nat)
      requires Valid() && |message| == n > 0
      modifies this, buffer
      ensures Valid() && message == old(message) + seq(Zeros(n - 1), _ => 0)
    {
      ghost var m, z := message, 0;
      BitCount(|message|, blocks);
      while count / 8 % 64 != 56
        invariant Valid() && z <= Zeros(n - 1) && message == m + seq(z, _ => 0)
        invariant count / 8 % 64 == |message| - 64 * blocks
        decreases Zeros(n - 1) - z
      {
        StillShort(n, z, blocks);
        Update([0]);
        z := z + 1;
        BitCount(|message|, blocks);
      }
      Filled(n, z, blocks);
    }

    method Digest() returns (digest: seq<Byte>)
      ensures digest == Flat(state)
    {
      digest := [];
      for i := 0 to 32
        invariant |digest| == i && forall k :: 0 <= k < i ==> digest[k] == Flat(state)[k]
      {
        FlatAt(state, i);
        digest := digest + [state[i / 4] / Pow256(3 - i % 4) % 256];
      }
    }
  }

  lemma Slice64(a: seq<Byte>, i: nat, b: seq<Byte>, j: nat)
    requires i <= |a| && j + 64 <= |b| && a[i..] == b[j..]
    ensures i + 64 <= |a| && a[i..i + 64] == b[j..j + 64] && a[i + 64..] == b[j + 64..]
  {
    assert |a[i..]| == |b[j..]|;
    assert a[i..][..64] == b[j..][..64] && a[i..][64..] == b[j..][64..];
  }

  lemma StillShort(n: nat, z: nat, k: nat)
    requires n > 0 && z <= Zeros(n - 1) && 64 * k <= n + z < 64 * k + 64 && n + z - 64 * k != 56
    ensures z < Zeros(n - 1)
  {
  }

  lemma Filled(n: nat, z: nat, k: nat)
    requires n > 0 && z <= Zeros(n - 1) && n + z - 64 * k == 56
    ensures z == Zeros(n - 1)
  {
    ZerosLeast(n - 1, z);
  }

  lemma Whole(c: nat, k: nat)
    requires 64 * k <= 64 * c < 64 * k + 64
    ensures c == k
  {
  }

  // ---------------------------------------------------------------------------
  // Whole messages
  // ---------------------------------------------------------------------------

  /** However a message is cut into updates, final yields its SHA-256. */
  method Stream(f: Compression, chunks: seq<seq<Byte>>) returns (digest: seq<Byte>)
    ensures digest == Sha(f, Concat(chunks))
  {
    hide Sha, Wrapped;
    var ctx := new Context(f);
    for i := 0 to |chunks|
      invariant ctx.Valid() && ctx.compress == f && ctx.message == Concat(chunks[..i]) && fresh(ctx) && fresh(ctx.buffer)
    {
      ctx.Update(chunks[i]);
      assert chunks[..i + 1][..i] == chunks[..i];
    }
    assert chunks[..|chunks|] == chunks;
    digest := ctx.Final();
  }

  /** ssh_crypto_hash_sha256. */
  method Hash(f: Compression, m: seq<Byte>) returns (digest: seq<Byte>)
    ensures digest == Sha(f, m)
  {
    hide Sha, Wrapped;
    var ctx := new Context(f);
    ctx.Update(m);
    assert [] + m == m;
    digest := ctx.Final();
  }

  // ---------------------------------------------------------------------------
  // The packet MAC
  // ---------------------------------------------------------------------------

  function Masked(key: seq<Byte>, pad: Byte): (r: seq<Byte>)
    requires |key| <= 64
    ensures |r| == 64
  {
    seq<Byte>(64, i requires 0 <= i < 64 => Xor(if i < |key| then key[i] else 0, pad))
  }

  /** HMAC with a key no longer than the block, over any hash. */
  function Hmac(hash: seq<Byte> -> seq<Byte>, key: seq<Byte>, text: seq<Byte>): seq<Byte>
    requires |key| <= 64
  {
    hash(Masked(key, 0x5c) + hash(Masked(key, 0x36) + text))
  }

  method Pads(key: seq<Byte>, inner: Byte, outer: Byte) returns (ipad: seq<Byte>, opad: seq<Byte>)
    requires |key| == 32
    ensures ipad == Masked(key, inner) && opad == Masked(key, outer)
  {
    ipad, opad := [], [];
    for i := 0 to 64
      invariant ipad == Masked(key, inner)[..i] && opad == Masked(key, outer)[..i]
    {
      var k := if i < 32 then key[i] else 0;
      ipad, opad := ipad + [Xor(k, inner)], opad + [Xor(k, outer)];
    }
  }

  /** ssh_hmac_sha256_packet: the MAC of the sequence number followed by the packet. */
  method PacketMac(f: Compression, key: seq<Byte>, sequence: nat, packet: seq<Byte>) returns (mac: seq<Byte>)
    requires |key| == 32
    ensures mac == Hmac(m => Sha(f, m), key, BigEndian(sequence, 4) + packet)
  {
    hide Sha, Concat, BigEndian;
    var ipad, opad := Pads(key, 0x36, 0x5c);
    var text := [sequence / 0x100_0000 % 256, sequence / 0x1_0000 % 256, sequence / 0x100 % 256, sequence % 256];
    SequenceOctets(sequence);
    var inner := Stream(f, [ipad, text, packet]);
    mac := Stream(f, [opad, inner]);
    JoinThree(ipad, text, packet);
    JoinTwo(opad, inner);
  }

  lemma JoinTwo(a: seq<Byte>, b: seq<Byte>)
    ensures Concat([a, b]) == a + b
  {
    assert [a, b][..1] == [a] && [a][..0] == [];
    assert Concat([a]) == [] + a == a;
  }

  lemma JoinThree(a: seq<Byte>, b: seq<Byte>, c: seq<Byte>)
    ensures Concat([a, b, c]) == a + (b + c)
  {
    assert [a, b, c][..2] == [a, b];
    JoinTwo(a, b);
  }

  lemma SequenceOctets(v: nat)
    ensures BigEndian(v, 4) == [v / 0x100_0000 % 256, v / 0x1_0000 % 256, v / 0x100 % 256, v % 256]
  {
    assert Pow256(1) == 0x100 && Pow256(2) == 0x1_0000 && Pow256(3) == 0x100_0000;
    BigEndianAt(v, 4, 0);
    BigEndianAt(v, 4, 1);
    BigEndianAt(v, 4, 2);
    BigEndianAt(v, 4, 3);
  }
}
