/** A circular byte buffer with a read and a write index, and the byte sequence it stands for. */
module Circular {
  import opened Bytes
  import Arith

  lemma ModOnce(x: nat, n: nat)
    requires 0 < n && x < 2 * n
    ensures x % n == if x < n then x else x - n
  {
    if x >= n {
      assert x == 1 * n + (x - n);
      Arith.DivModUnique(x, 1, x - n, n);
    } else {
      Arith.DivModUnique(x, 0, x, n);
    }
  }

  /** A circular buffer that keeps one byte unused. */
  class Ring {
    const size: nat
    const buffer: array<Byte>
    var head: nat
    var tail: nat
    ghost var contents: seq<Byte>

    ghost predicate Valid()
      reads this, buffer
    {
      && 0 < size <= 0x8000_0000 && buffer.Length == size && head < size && tail < size
      && |contents| == (if tail <= head then head - tail else head + size - tail)
      && forall i :: 0 <= i < |contents| ==> contents[i] == buffer[Place(i)]
    }

    /** Where byte `i` of the contents lies. */
    function Place(i: nat): nat
      requires i < size
      reads this
    {
      if tail + i < size then tail + i else tail + i - size
    }

    constructor (n: nat)
      requires 0 < n <= 0x8000_0000
      ensures Valid() && contents == [] && size == n && fresh(buffer)
    {
      size, buffer := n, new Byte[n](_ => 0);
      head, tail, contents := 0, 0, [];
    }

    method Push(b: Byte)
      requires Valid() && |contents| < size - 1
      modifies this`head, this`contents, buffer
      ensures Valid() && contents == old(contents) + [b]
    {
      ghost var n := |contents|;
      assert head == Place(n);
      buffer[head] := b;
      ModOnce(head + 1, size);
      head := (head + 1) % size;
      contents := contents + [b];
    }

    method Pop() returns (b: Byte)
      requires Valid() && contents != []
      modifies this`tail, this`contents
      ensures Valid() && b == old(contents)[0] && contents == old(contents)[1..]
    {
      b := buffer[tail];
      ghost var was := contents;
      assert was[0] == buffer[Place(0)];
      ModOnce(tail + 1, size);
      tail := (tail + 1) % size;
      contents := contents[1..];
    }

    /** Whether the next write index would meet the read index. */
    method Full() returns (b: bool)
      requires Valid()
      ensures b <==> |contents| == size - 1
    {
      ModOnce(head + 1, size);
      b := (head + 1) % size == tail;
    }

    method PushAll(data: seq<Byte>)
      requires Valid() && |contents| + |data| <= size - 1
      modifies this`head, this`contents, buffer
      ensures Valid() && contents == old(contents) + data
    {
      for i := 0 to |data|
        invariant Valid() && contents == old(contents) + data[..i]
      {
        Push(data[i]);
      }
    }

    method PopAll(n: nat) returns (data: seq<Byte>)
      requires Valid() && n <= |contents|
      modifies this`tail, this`contents
      ensures Valid() && data == old(contents)[..n] && contents == old(contents)[n..]
    {
      data := [];
      ghost var was := contents;
      while |data| < n
        invariant Valid() && |data| <= n && data == was[..|data|] && contents == was[|data|..]
      {
        var b := Pop();
        data := data + [b];
      }
    }

    /** Moves the tail over `n` bytes at once. */
    method Skip(n: nat)
      requires Valid() && n <= |contents|
      modifies this`tail, this`contents
      ensures Valid() && contents == old(contents)[n..]
    {
      ModOnce(tail + n, size);
      tail := (tail + n) % size;
      contents := contents[n..];
    }

    /** The unsigned 32-bit formula gives the room that is left. */
    method Room() returns (n: nat)
      requires Valid()
      ensures n == size - 1 - |contents|
    {
      Formula(head, tail, size);
      n := Arith.U32(Arith.U32(Arith.U32(tail - head) - 1) + size) % size;
    }
  }

  lemma Formula(head: nat, tail: nat, size: nat)
    requires head < size && tail < size <= 0x8000_0000
    ensures Arith.U32(Arith.U32(Arith.U32(tail - head) - 1) + size) % size
         == size - 1 - (if tail <= head then head - tail else head + size - tail)
  {
    Unwrapped(tail - head, size);
    ModOnce(tail - head - 1 + size, size);
  }

  /** The sum comes back into range, so the wraps on the way cancel. */
  lemma Unwrapped(d: int, size: nat)
    requires 0 < d + size && d < size <= 0x8000_0000
    ensures Arith.U32(Arith.U32(Arith.U32(d) - 1) + size) == d - 1 + size
  {
    if d >= 1 {
      assert Arith.U32(d) == d && Arith.U32(d - 1) == d - 1;
    } else if d == 0 {
      assert Arith.U32(0) == 0 && Arith.U32(-1) == 0xFFFF_FFFF;
    } else {
      assert Arith.U32(d) == d + 0x1_0000_0000 && Arith.U32(d + 0xFFFF_FFFF) == d + 0xFFFF_FFFF;
    }
  }
}
