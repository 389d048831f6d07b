/** Bytes and the few operations on byte sequences that several components share. */
module Bytes {

  type Byte = x: int | 0 <= x < 256

  /** The sequence `s` with the bytes from `off` on replaced by `d`, growing when `d` runs past the end. */
  function Splice(s: seq<Byte>, off: nat, d: seq<Byte>): (r: seq<Byte>)
    requires off <= |s|
    ensures |r| == if off + |d| <= |s| then |s| else off + |d|
    ensures forall i :: 0 <= i < |r| ==>
      r[i] == if off <= i < off + |d| then d[i - off] else s[i]
  {
    s[..off] + d + (if off + |d| <= |s| then s[off + |d|..] else [])
  }

  lemma SliceOfSlice(s: seq<Byte>, a: nat, b: nat, i: nat, j: nat)
    requires a <= b <= |s| && i <= j <= b - a
    ensures s[a..b][i..j] == s[a + i..a + j]
  {
    var x, y := s[a..b][i..j], s[a + i..a + j];
    assert |x| == |y| && forall k :: 0 <= k < |x| ==> x[k] == y[k];
  }

  function Min(a: int, b: int): int { if a < b then a else b }

  function Max(a: int, b: int): int { if a < b then b else a }

  /** The little-endian 32-bit word at word index `i`. */
  function Word(s: seq<Byte>, i: nat): nat
    requires 4 * i + 4 <= |s|
  {
    (s[4 * i] as int) + 0x100 * (s[4 * i + 1] as int) + 0x1_0000 * (s[4 * i + 2] as int)
    + 0x100_0000 * (s[4 * i + 3] as int)
  }

  function WordBytes(v: nat): (r: seq<Byte>)
    ensures |r| == 4
  {
    [v % 256, v / 0x100 % 256, v / 0x1_0000 % 256, v / 0x100_0000 % 256]
  }

  function PutWord(s: seq<Byte>, i: nat, v: nat): (r: seq<Byte>)
    requires 4 * i + 4 <= |s|
    ensures |r| == |s|
  {
    s[..4 * i] + WordBytes(v) + s[4 * i + 4..]
  }

  lemma WordOfBytes(v: nat)
    requires v < 0x1_0000_0000
    ensures Word(WordBytes(v), 0) == v
  {
    assert v / 0x1_0000 == v / 0x100 / 0x100 && v / 0x100_0000 == v / 0x100 / 0x100 / 0x100;
  }

  lemma WordFrame(s: seq<Byte>, i: nat, t: seq<Byte>, j: nat)
    requires 4 * i + 4 <= |s| && 4 * j + 4 <= |t|
    requires s[4 * i..4 * i + 4] == t[4 * j..4 * j + 4]
    ensures Word(s, i) == Word(t, j)
  {
    var a, b := s[4 * i..4 * i + 4], t[4 * j..4 * j + 4];
    assert a[0] == s[4 * i] && a[1] == s[4 * i + 1] && a[2] == s[4 * i + 2] && a[3] == s[4 * i + 3];
    assert b[0] == t[4 * j] && b[1] == t[4 * j + 1] && b[2] == t[4 * j + 2] && b[3] == t[4 * j + 3];
  }

  lemma PutWordWord(s: seq<Byte>, i: nat, v: nat, j: nat)
    requires 4 * i + 4 <= |s| && 4 * j + 4 <= |s|
    requires v < 0x1_0000_0000
    ensures Word(PutWord(s, i, v), j) == if i == j then v else Word(s, j)
  {
    var r := PutWord(s, i, v);
    if i == j {
      assert r[4 * i..4 * i + 4] == WordBytes(v) == WordBytes(v)[0..4];
      WordFrame(r, i, WordBytes(v), 0);
      WordOfBytes(v);
    } else {
      assert r[4 * j..4 * j + 4] == s[4 * j..4 * j + 4];
      WordFrame(r, j, s, j);
    }
  }

  function Concat(parts: seq<seq<Byte>>): seq<Byte> {
    if parts == [] then [] else Concat(parts[..|parts| - 1]) + parts[|parts| - 1]
  }

  lemma {:induction false} ConcatFront(parts: seq<seq<Byte>>)
    requires parts != []
    ensures Concat(parts) == parts[0] + Concat(parts[1..])
  {
    var n := |parts| - 1;
    if n > 0 {
      ConcatFront(parts[..n]);
      assert parts[1..][..n - 1] == parts[..n][1..];
    }
  }
}
