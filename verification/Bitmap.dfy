/** Packed bitmaps: words of a fixed width, one bit a page, and the scans over them. */
module Bitmap {
  import Arith

  /** Bit `b` of `v`. */
  predicate Bit(v: nat, b: nat)
    decreases b
  {
    if b == 0 then v % 2 == 1 else Bit(v / 2, b - 1)
  }

  /** v | 1 << b. */
  function WithBit(v: nat, b: nat): nat
    decreases b
  {
    if b == 0 then v - v % 2 + 1 else 2 * WithBit(v / 2, b - 1) + v % 2
  }

  /** v & ~(1 << b). */
  function WithoutBit(v: nat, b: nat): nat
    decreases b
  {
    if b == 0 then v - v % 2 else 2 * WithoutBit(v / 2, b - 1) + v % 2
  }

  lemma {:induction false} WithBitIs(v: nat, b: nat, c: nat)
    ensures Bit(WithBit(v, b), c) <==> c == b || Bit(v, c)
    decreases b
  {
    var w := WithBit(v, b);
    if b == 0 {
      assert w % 2 == 1 && w / 2 == v / 2;
    } else {
      assert w % 2 == v % 2 && w / 2 == WithBit(v / 2, b - 1);
      if c > 0 { WithBitIs(v / 2, b - 1, c - 1); }
    }
  }

  lemma {:induction false} WithoutBitIs(v: nat, b: nat, c: nat)
    ensures Bit(WithoutBit(v, b), c) <==> c != b && Bit(v, c)
    decreases b
  {
    var w := WithoutBit(v, b);
    if b == 0 {
      assert w % 2 == 0 && w / 2 == v / 2;
    } else {
      assert w % 2 == v % 2 && w / 2 == WithoutBit(v / 2, b - 1);
      if c > 0 { WithoutBitIs(v / 2, b - 1, c - 1); }
    }
  }

  lemma {:induction false} BitBounds(v: nat, b: nat, n: nat)
    requires v < Arith.Pow2(n) && b < n
    ensures WithBit(v, b) < Arith.Pow2(n) && WithoutBit(v, b) < Arith.Pow2(n)
    decreases b
  {
    if b > 0 { BitBounds(v / 2, b - 1, n - 1); }
  }

  predicate AllBits(v: nat, n: nat) { forall b: nat :: b < n ==> Bit(v, b) }

  lemma AllBitsStep(v: nat, n: nat)
    requires n > 0
    ensures AllBits(v, n) <==> v % 2 == 1 && AllBits(v / 2, n - 1)
  {
    if AllBits(v, n) {
      assert Bit(v, 0);
      forall b: nat | b < n - 1 ensures Bit(v / 2, b) { assert Bit(v, b + 1); }
    } else {
      var b: nat :| b < n && !Bit(v, b);
      if b > 0 { assert !Bit(v / 2, b - 1); }
    }
  }

  /** A word is full exactly when all its bits are set. */
  lemma {:induction false} FullWord(v: nat, n: nat)
    requires v < Arith.Pow2(n)
    ensures v == Arith.Pow2(n) - 1 <==> AllBits(v, n)
  {
    if n > 0 {
      FullWord(v / 2, n - 1);
      AllBitsStep(v, n);
    }
  }

  /** Pages `t` to `t + n` are all free. */
  predicate FreeRun(used: seq<bool>, t: nat, n: nat) {
    t + n <= |used| && forall i :: t <= i < t + n ==> !used[i]
  }

  /** `t` starts the lowest run of `n` free pages. */
  ghost predicate Lowest(used: seq<bool>, t: nat, n: nat) {
    FreeRun(used, t, n) && forall u: nat :: u < t ==> !FreeRun(used, u, n)
  }

  ghost predicate NoRun(used: seq<bool>, n: nat) { forall u: nat :: !FreeRun(used, u, n) }

  /** The pages with `n` of them from `t` on marked. */
  function Marked(used: seq<bool>, t: nat, n: nat, mark: bool): (r: seq<bool>)
    requires t + n <= |used|
    ensures |r| == |used|
  {
    seq(|used|, i requires 0 <= i < |used| => if t <= i < t + n then mark else used[i])
  }

  /** The word of page `i`, and the bit within it. */
  function Slot(i: nat, width: nat): nat
    requires width > 0
  {
    i / width
  }

  function Place(i: nat, width: nat): nat
    requires width > 0
  {
    i % width
  }

  class Words {
    const width: nat
    const words: array<nat>
    ghost var used: seq<bool>

    ghost predicate Valid()
      reads this, words
    {
      && width > 0 && |used| == Arith.Times(words.Length, width)
      && (forall k :: 0 <= k < words.Length ==> words[k] < Arith.Pow2(width))
      && forall i :: 0 <= i < |used| ==> Shows(i)
    }

    /** Bit `i` says whether page `i` is used. */
    ghost predicate Shows(i: nat)
      requires width > 0 && i < |used|
      reads this, words
    {
      Slot(i, width) < words.Length && used[i] == Bit(words[Slot(i, width)], Place(i, width))
    }

    constructor (w: nat, n: nat, v: nat)
      requires w > 0 && (v == 0 || v == Arith.Pow2(w) - 1)
      ensures Valid() && fresh(words) && width == w && words.Length == n
      ensures used == seq(Arith.Times(n, w), _ => v != 0)
    {
      width, words := w, new nat[n](_ => v);
      used := seq(Arith.Times(n, w), _ => v != 0);
      new;
      forall i | 0 <= i < |used| ensures Shows(i) {
        Located(i, n, w);
        FullWord(v, w);
        ZeroWord(Place(i, w));
      }
    }

    method Test(i: nat) returns (b: bool)
      requires Valid() && i < |used|
      ensures b == used[i]
    {
      assert Shows(i);
      b := Bit(words[Slot(i, width)], Place(i, width));
    }

    method Set(i: nat, mark: bool)
      requires Valid() && i < |used|
      modifies this`used, words
      ensures Valid() && used == old(used)[i := mark]
    {
      hide Slot, Place, Bit, WithBit, WithoutBit, Arith.Pow2;
      assert Shows(i);
      var k, b := Slot(i, width), Place(i, width);
      Located(i, words.Length, width);
      BitBounds(words[k], b, width);
      ghost var v, before := words[k], words[..];
      forall j | 0 <= j < |used| ensures ShownBy(before, j) { assert Shows(j); }
      words[k] := if mark then WithBit(words[k], b) else WithoutBit(words[k], b);
      used := used[i := mark];
      forall j | 0 <= j < |used| ensures Shows(j) {
        assert old(ShownBy(before, j));
        WithBitIs(v, b, Place(j, width));
        WithoutBitIs(v, b, Place(j, width));
        if i != j { Elsewhere(i, j, width); }
      }
    }

    /** Marks `n` pages from `t` on, one after the other. */
    method SetAll(t: nat, n: nat, mark: bool)
      requires Valid() && t + n <= |used|
      modifies this`used, words
      ensures Valid() && used == Marked(old(used), t, n, mark)
    {
      for p := 0 to n
        invariant Valid() && used == Marked(old(used), t, p, mark)
      {
        Set(t + p, mark);
      }
    }

    /** The counting scan: the lowest run of `n` free pages below `total`, or -1 when there is none. */
    method FindRun(total: nat, n: nat) returns (r: int)
      requires Valid() && total <= |used| && n > 0
      ensures r == -1 ==> NoRun(used[..total], n)
      ensures r != -1 ==> r >= 0 && Lowest(used[..total], r, n)
    {
      var found, start := 0, 0;
      ghost var u := used[..total];
      for i := 0 to total
        invariant found < n && found <= i && (found > 0 ==> start == i - found)
        invariant forall j :: i - found <= j < i ==> !u[j]
        invariant i == found || u[i - found - 1]
        invariant forall t: nat :: t + n <= i ==> !FreeRun(u, t, n)
      {
        var b := Test(i);
        if !b {
          if found == 0 { start := i; }
          found := found + 1;
          if found == n {
            return start;
          }
        } else {
          found := 0;
        }
        forall t: nat | t + n <= i + 1 ensures !FreeRun(u, t, n) {
          if t + n == i + 1 && b { assert u[i]; }
          if t + n == i + 1 && !b { assert i + 1 - found > t && u[i - found]; }
        }
      }
      r := -1;
    }

    /** The scan that skips full words: the lowest free page below `total`, or -1 when there is none. */
    method FindFree(total: nat) returns (r: int)
      requires Valid() && total <= |used|
      ensures r == -1 ==> forall i :: 0 <= i < total ==> used[i]
      ensures r != -1 ==> 0 <= r < total && !used[r] && forall i :: 0 <= i < r ==> used[i]
    {
      hide Bit, Arith.Pow2, Slot, Place;
      var first: nat := 0;
      for k := 0 to words.Length
        invariant first == Arith.Times(k, width) <= |used|
        invariant forall i :: 0 <= i < first ==> used[i]
      {
        Arith.TimesMono(k + 1, words.Length, width);
        FullWord(words[k], width);
        if words[k] == Arith.Pow2(width) - 1 {
          forall i | first <= i < first + width ensures used[i] {
            InWord(k, i - first, width);
            assert Shows(i);
          }
        } else {
          r := ScanWord(k, first, total);
          return;
        }
        first := first + width;
      }
      r := -1;
    }

    /** The bits of one word, from the lowest; the first clear one decides. */
    method ScanWord(k: nat, first: nat, total: nat) returns (r: int)
      requires Valid() && k < words.Length && first == Arith.Times(k, width) && first + width <= |used| && total <= |used|
      requires !AllBits(words[k], width) && forall i :: 0 <= i < first ==> used[i]
      ensures r == -1 ==> forall i :: 0 <= i < total ==> used[i]
      ensures r != -1 ==> 0 <= r < total && !used[r] && forall i :: 0 <= i < r ==> used[i]
    {
      hide Bit, Slot, Place;
      var b: nat := 0;
      while Bit(words[k], b)
        invariant b < width && (forall c: nat :: c < b ==> Bit(words[k], c))
        invariant forall i :: 0 <= i < first + b ==> used[i]
        decreases width - b
      {
        InWord(k, b, width);
        assert Shows(first + b);
        assert b + 1 < width;
        b := b + 1;
      }
      InWord(k, b, width);
      assert Shows(first + b);
      if first + b >= total { return -1; }
      r := first + b;
    }

    ghost predicate ShownBy(ws: seq<nat>, i: nat)
      requires width > 0 && i < |used|
      reads this
    {
      Slot(i, width) < |ws| && used[i] == Bit(ws[Slot(i, width)], Place(i, width))
    }
  }

  lemma InWord(k: nat, b: nat, w: nat)
    requires b < w
    ensures Slot(Arith.Times(k, w) + b, w) == k && Place(Arith.Times(k, w) + b, w) == b
  {
    Arith.TimesIs(k, w);
    Arith.DivModUnique(Arith.Times(k, w) + b, k, b, w);
  }

  /** Different pages have different bits. */
  lemma Elsewhere(i: nat, j: nat, w: nat)
    requires w > 0 && i != j
    ensures Slot(i, w) != Slot(j, w) || Place(i, w) != Place(j, w)
  {
    if i / w == j / w && i % w == j % w { Arith.DivModSame(i, j, w); }
  }

  lemma Located(i: nat, n: nat, w: nat)
    requires w > 0 && i < Arith.Times(n, w)
    ensures Slot(i, w) < n && Place(i, w) < w
  {
    Arith.TimesIs(n, w);
    Arith.DivBelow(i, n, w);
  }

  lemma {:induction false} ZeroWord(b: nat)
    ensures !Bit(0, b)
  {
    if b > 0 { ZeroWord(b - 1); }
  }
}
