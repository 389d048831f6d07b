/** AES-128 in counter mode as section 4 of RFC 4344 uses it, over any block cipher. */
module AesCtr {
  import opened Bytes
  import opened Octets

  type Block = b: seq<Byte> | |b| == 16 witness seq(16, _ => 0)

  type Cipher = (seq<Byte>, Block) -> Block

  /** Octet `i` of the keystream that starts at counter `c`; the 16-octet counter wraps. */
  function KeyOctet(e: Cipher, key: seq<Byte>, c: nat, i: nat): Byte {
    e(key, BigEndian(c + i / 16, 16))[i % 16]
  }

  /** Encryption and decryption alike. */
  function Crypt(e: Cipher, key: seq<Byte>, c: nat, m: seq<Byte>): (r: seq<Byte>)
    ensures |r| == |m|
  {
    seq<Byte>(|m|, i requires 0 <= i < |m| => Xor(m[i], KeyOctet(e, key, c, i)))
  }

  lemma CryptUndo(e: Cipher, key: seq<Byte>, c: nat, m: seq<Byte>)
    ensures Crypt(e, key, c, Crypt(e, key, c, m)) == m
  {
    forall i | 0 <= i < |m| ensures Crypt(e, key, c, Crypt(e, key, c, m))[i] == m[i] {
      XorUndo(m[i], KeyOctet(e, key, c, i));
    }
  }

  /** A prefix of the message encrypts to a prefix. */
  lemma CryptPrefix(e: Cipher, key: seq<Byte>, c: nat, m: seq<Byte>, n: nat)
    requires n <= |m|
    ensures Crypt(e, key, c, m[..n]) == Crypt(e, key, c, m)[..n]
  {
  }

  lemma CryptBlocks(e: Cipher, key: seq<Byte>, c: nat, a: seq<Byte>, b: seq<Byte>, k: nat)
    requires |a| == 16 * k
    ensures Crypt(e, key, c, a + b) == Crypt(e, key, c, a) + Crypt(e, key, c + k, b)
  {
    hide Xor, KeyOctet;
    forall i: nat | |a| <= i < |a| + |b| ensures KeyOctet(e, key, c, i) == KeyOctet(e, key, c + k, i - |a|) {
      KeyShift(e, key, c, k, i - |a|);
    }
  }

  lemma KeyShift(e: Cipher, key: seq<Byte>, c: nat, k: nat, j: nat)
    ensures KeyOctet(e, key, c, 16 * k + j) == KeyOctet(e, key, c + k, j)
  {
    assert (16 * k + j) / 16 == k + j / 16 && (16 * k + j) % 16 == j % 16;
  }

  /** Adding one octet by octet, with the carry stopping the loop. */
  method Increment(iv: array<Byte>, ghost c: nat)
    requires iv[..] == BigEndian(c, iv.Length)
    modifies iv
    ensures iv[..] == BigEndian(c + 1, iv.Length)
  {
    var i: nat := iv.Length;
    ghost var v := c;
    while i > 0
      invariant i <= iv.Length && iv[..i] == BigEndian(v, i)
      invariant BigEndian(c + 1, iv.Length) == BigEndian(v + 1, i) + iv[i..]
    {
      i := i - 1;
      CarryStep(v, i);
      ghost var front, last, behind := BigEndian(v / 256, i), v % 256, iv[i + 1..];
      assert iv[..i + 1] == front + [last];
      assert iv[..i] == iv[..i + 1][..i] == front && iv[i] == iv[..i + 1][i] == last;
      iv[i] := if iv[i] == 255 then 0 else iv[i] + 1;
      assert iv[..i] == front && iv[i..] == [iv[i]] + behind;
      if iv[i] != 0 { break; }
      v := v / 256;
    }
    assert iv[..] == iv[..i] + iv[i..];
  }

  lemma CarryStep(v: nat, i: nat)
    ensures BigEndian(v, i + 1) == BigEndian(v / 256, i) + [v % 256]
    ensures v % 256 == 255 ==> BigEndian(v + 1, i + 1) == BigEndian(v / 256 + 1, i) + [0]
    ensures v % 256 != 255 ==> BigEndian(v + 1, i + 1) == BigEndian(v / 256, i) + [v % 256 + 1]
  {
    Carry(v);
    assert BigEndian(v + 1, i + 1) == BigEndian((v + 1) / 256, i) + [(v + 1) % 256];
  }

  lemma Carry(v: nat)
    ensures v % 256 == 255 ==> (v + 1) % 256 == 0 && (v + 1) / 256 == v / 256 + 1
    ensures v % 256 != 255 ==> (v + 1) % 256 == v % 256 + 1 && (v + 1) / 256 == v / 256
  {
  }

  /** aes128_ctr_crypt in place on the first `len` octets; the counter ends one past the last block used. */
  method CryptInPlace(e: Cipher, key: seq<Byte>, iv: array<Byte>, ghost c: nat, buf: array<Byte>, len: nat)
    requires iv.Length == 16 && iv[..] == BigEndian(c, 16) && len <= buf.Length && iv != buf
    modifies iv, buf
    ensures buf[..len] == Crypt(e, key, c, old(buf[..len])) && buf[len..] == old(buf[len..])
    ensures iv[..] == BigEndian(c + (len + 15) / 16, 16)
  {
    ghost var m, rest, k: nat := buf[..len], buf[len..], 0;
    var pos := 0;
    while pos < len
      invariant pos <= len && (pos == 16 * k || (pos == len && 16 * k - 16 < len < 16 * k))
      invariant iv[..] == BigEndian(c + k, 16)
      invariant buf[..len] == Crypt(e, key, c, m)[..pos] + m[pos..] && buf[len..] == rest
    {
      var stream := e(key, iv[..]);
      Increment(iv, c + k);
      pos := Mask(e, key, c, k, stream, buf, pos, len, m, rest);
      k := k + 1;
    }
  }

  /** One block of keystream onto the buffer. */
  method Mask(e: Cipher, key: seq<Byte>, ghost c: nat, ghost k: nat, stream: Block, buf: array<Byte>, start: nat,
              len: nat, ghost m: seq<Byte>, ghost rest: seq<Byte>) returns (pos: nat)
    requires start == 16 * k && start <= len == |m| <= buf.Length && stream == e(key, BigEndian(c + k, 16))
    requires buf[..len] == Crypt(e, key, c, m)[..start] + m[start..] && buf[len..] == rest
    modifies buf
    ensures pos == if start + 16 < len then start + 16 else len
    ensures buf[..len] == Crypt(e, key, c, m)[..pos] + m[pos..] && buf[len..] == rest
  {
    var i := 0;
    pos := start;
    while i < 16 && pos < len
      invariant i <= 16 && pos == start + i <= len
      invariant buf[..len] == Crypt(e, key, c, m)[..pos] + m[pos..] && buf[len..] == rest
    {
      assert buf[pos] == buf[..len][pos] == m[pos];
      Place(k, i);
      buf[pos] := Xor(buf[pos], stream[i]);
      i, pos := i + 1, pos + 1;
    }
  }

  lemma Place(k: nat, i: nat)
    requires i < 16
    ensures (16 * k + i) / 16 == k && (16 * k + i) % 16 == i
  {
  }
}
