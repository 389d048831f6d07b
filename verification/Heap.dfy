/** kmalloc and kfree over the block list. */
module Heap {
  import opened HeapBlocks

  // ---------------------------------------------------------------------------
  // Sizes in unsigned 64-bit arithmetic
  // ---------------------------------------------------------------------------

  function Wrap(x: nat): nat { if x < SPACE then x else x - SPACE }

  /** The request rounded up to a multiple of 16. */
  function Rounded(size: nat): nat { Wrap(size + 15) - Wrap(size + 15) % 16 }

  /** The unsigned difference. */
  function Less(x: nat, y: nat): nat
    requires y <= SPACE
  {
    if x >= y then x - y else x + SPACE - y
  }

  /** By how much the heap grows for a rounded request. */
  function Growth(size: nat): nat {
    var need := Wrap(size + HEADER);
    if need > 0x10_0000 then Wrap(need + PAGE - 1) - Wrap(need + PAGE - 1) % PAGE else 0x10_0000
  }

  lemma RoundedCovers(size: nat)
    requires 0 < size < SPACE
    ensures Rounded(size) % 16 == 0
    ensures Rounded(size) >= size <==> size <= SPACE - 16
    ensures size <= SPACE - 16 ==> Rounded(size) < size + 16
  {
  }

  const LARGEST: nat := SPACE - 4128

  /** Growing the heap makes room for the request exactly when the sums do not wrap. */
  lemma GrowthCovers(size: nat)
    requires size < SPACE && size % 16 == 0
    ensures Growth(size) >= size + HEADER <==> size <= LARGEST
    ensures size <= LARGEST ==> Growth(size) % PAGE == 0 && Growth(size) >= 0x10_0000
    ensures LARGEST < size <= SPACE - 48 ==> Growth(size) == 0
    ensures size == 0 || SPACE - 48 < size ==> Growth(size) == 0x10_0000
  {
  }

  // ---------------------------------------------------------------------------
  // Taking a block and growing the list
  // ---------------------------------------------------------------------------

  predicate Fits(b: Block, size: nat) { b.free && b.size >= size }

  /** Block `i` in use, split when a header and 16 bytes are left over. */
  function Taken(bs: seq<Block>, i: nat, size: nat): seq<Block>
    requires i < |bs| && Fits(bs[i], size)
  {
    bs[..i] + TakenBlock(bs[i], size) + bs[i + 1..]
  }

  function TakenBlock(b: Block, size: nat): seq<Block>
    requires Fits(b, size)
  {
    if b.size >= size + HEADER + 16
    then [Block(b.addr, size, false), Block(b.addr + HEADER + size, b.size - size - HEADER, true)]
    else [b.(free := false)]
  }

  lemma Middle(bs: seq<Block>, i: nat)
    requires i < |bs|
    ensures bs[..i] + [bs[i]] + bs[i + 1..] == bs
  {
  }

  lemma TakenTiles(bs: seq<Block>, i: nat, size: nat, from: nat, to: nat)
    requires i < |bs| && Fits(bs[i], size) && Tiles(bs, from, to)
    ensures Tiles(Taken(bs, i, size), from, to)
  {
    Middle(bs, i);
    var t := TakenBlock(bs[i], size);
    forall x, y | Tiles([bs[i]], x, y) ensures Tiles(t, x, y) {
      assert [bs[i]][1..] == [];
      if |t| == 2 {
        assert t[1..] == [t[1]] && [t[1]][1..] == [];
      } else {
        assert t[1..] == [];
      }
    }
    TilesSwap(bs[..i], [bs[i]], t, bs[i + 1..], from, to);
  }

  lemma TakenInOrder(bs: seq<Block>, i: nat, size: nat, end: nat)
    requires InOrder(bs, end) && i < |bs| && Fits(bs[i], size) && size % 16 == 0 && size >= 16
    ensures InOrder(Taken(bs, i, size), end)
  {
    TakenTiles(bs, i, size, BASE, end);
    var r := Taken(bs, i, size);
    assert Shaped(bs[i]);
    forall k | 0 <= k < |r| ensures Shaped(r[k]) {
      if k > i { assert k - |TakenBlock(bs[i], size)| + 1 == i || Shaped(bs[k - |TakenBlock(bs[i], size)| + 1]); }
    }
    forall k: nat ensures ApartAt(r, k) { TakenApart(bs, i, size, k); }
  }

  lemma TakenApart(bs: seq<Block>, i: nat, size: nat, k: nat)
    requires Apart(bs) && i < |bs| && Fits(bs[i], size)
    ensures ApartAt(Taken(bs, i, size), k)
  {
    var n := |TakenBlock(bs[i], size)|;
    assert ApartAt(bs, k) && ApartAt(bs, i);
    if k >= n { assert ApartAt(bs, k - n + 1); }
  }

  /** The blocks in use are the old ones and the one handed out, in its place. */
  lemma TakenLive(bs: seq<Block>, i: nat, size: nat)
    requires i < |bs| && Fits(bs[i], size)
    ensures var b := TakenBlock(bs[i], size)[0];
      && Live(bs) == Live(bs[..i]) + Live(bs[i + 1..])
      && Live(Taken(bs, i, size)) == Live(bs[..i]) + [b] + Live(bs[i + 1..])
      && b.addr == bs[i].addr && b.size >= size && !b.free
  {
    hide Live;
    var t := TakenBlock(bs[i], size);
    LiveAround(bs, i, [bs[i]]);
    Middle(bs, i);
    LiveOne(bs[i]);
    LiveAround(bs, i, t);
    LiveTaken(bs[i], size);
  }

  lemma LiveAround(bs: seq<Block>, i: nat, t: seq<Block>)
    requires i < |bs|
    ensures Live(bs[..i] + t + bs[i + 1..]) == Live(bs[..i]) + Live(t) + Live(bs[i + 1..])
  {
    hide Live;
    LiveSplit(bs[..i] + t, bs[i + 1..]);
    LiveSplit(bs[..i], t);
  }

  lemma LiveTaken(b: Block, size: nat)
    requires Fits(b, size)
    ensures Live(TakenBlock(b, size)) == [TakenBlock(b, size)[0]]
  {
    var t := TakenBlock(b, size);
    LiveOne(t[0]);
    if |t| == 2 {
      assert t == [t[0]] + [t[1]];
      LiveSplit([t[0]], [t[1]]);
      LiveOne(t[1]);
    } else {
      assert t == [t[0]];
    }
  }

  lemma LiveOne(b: Block)
    ensures Live([b]) == if b.free then [] else [b]
  {
    assert [b][1..] == [];
  }

  /** The list with `n` more bytes at its end, merged into a free last block at once. */
  function Grown(bs: seq<Block>, end: nat, n: nat): seq<Block>
    requires bs != [] && n >= HEADER
  {
    var last, added := bs[|bs| - 1], Block(end, n - HEADER, true);
    if last.free then bs[..|bs| - 1] + [Merged(last, added)] else bs + [added]
  }

  /** The new space as it is linked in, in 64-bit arithmetic. */
  function Appended(bs: seq<Block>, end: nat, n: nat): (r: seq<Block>)
    requires bs != []
    ensures r != []
  {
    var last, size := bs[|bs| - 1], Less(n, HEADER);
    if last.free then bs[..|bs| - 1] + [Block(last.addr, Wrap(last.size + Wrap(HEADER + size)), true)]
    else bs + [Block(end, size, true)]
  }

  lemma AppendedGrows(bs: seq<Block>, end: nat, n: nat)
    requires InOrder(bs, end) && n >= HEADER && end + n < SPACE
    ensures Appended(bs, end, n) == Grown(bs, end, n)
  {
    hide Tiles;
    TilesBound(bs, BASE, end, |bs| - 1);
  }

  /** Block `b` in use, split as the code does, in 64-bit arithmetic. */
  function TakenRaw(b: Block, size: nat): seq<Block>
    requires size < SPACE
  {
    if b.size >= Wrap(size + HEADER + 16)
    then [Block(b.addr, size, false), Block(Wrap(Wrap(b.addr + HEADER) + size), Less(Less(b.size, size), HEADER), true)]
    else [b.(free := false)]
  }

  lemma TakenRawIs(b: Block, size: nat)
    requires Fits(b, size) && size + HEADER + 16 < SPACE && b.End() < SPACE
    ensures TakenRaw(b, size) == TakenBlock(b, size)
  {
  }

  lemma GrownInOrder(bs: seq<Block>, end: nat, n: nat)
    requires InOrder(bs, end) && n % PAGE == 0 && n >= 0x10_0000 && end + n < SPACE
    ensures InOrder(Grown(bs, end, n), end + n) && Live(Grown(bs, end, n)) == Live(bs)
  {
    hide Live, Coalesced, Tiles;
    var added := Block(end, n - HEADER, true);
    var more := bs + [added];
    AddedShaped(bs, end, n);
    AddedTiles(bs, end, n);
    LiveSplit(bs, [added]);
    LiveOne(added);
    if bs[|bs| - 1].free {
      GrownMerges(bs, end, n);
      CoalescedTiles(more, BASE, end + n);
      CoalescedShaped(more);
      CoalescedApart(more);
      CoalescedLive(more);
    } else {
      forall i: nat ensures ApartAt(more, i) { assert ApartAt(bs, i); }
    }
  }

  lemma AddedTiles(bs: seq<Block>, end: nat, n: nat)
    requires Tiles(bs, BASE, end) && n >= HEADER
    ensures Tiles(bs + [Block(end, n - HEADER, true)], BASE, end + n)
  {
    var added := Block(end, n - HEADER, true);
    assert [added][1..] == [];
    TilesJoin(bs, [added], BASE, end, end + n);
  }

  lemma AddedShaped(bs: seq<Block>, end: nat, n: nat)
    requires InOrder(bs, end) && n % PAGE == 0 && n >= 0x10_0000
    ensures AllShaped(bs + [Block(end, n - HEADER, true)])
  {
    TilesEnd(bs, BASE, end);
    assert Shaped(bs[|bs| - 1]);
  }

  lemma GrownMerges(bs: seq<Block>, end: nat, n: nat)
    requires bs != [] && Apart(bs) && bs[|bs| - 1].free && n >= HEADER
    ensures Coalesced(bs + [Block(end, n - HEADER, true)]) == Grown(bs, end, n)
  {
    hide Coalesced;
    var k: nat := |bs| - 1;
    var front, last, added := bs[..k], bs[k], Block(end, n - HEADER, true);
    if k > 0 { assert ApartAt(bs, k - 1); }
    ApartFront(bs, k);
    MergeLast(front, last, added);
    LastTwo(bs, added);
  }

  lemma LastTwo(bs: seq<Block>, x: Block)
    requires bs != []
    ensures bs + [x] == bs[..|bs| - 1] + [bs[|bs| - 1], x]
  {
  }

  lemma MergeLast(front: seq<Block>, a: Block, b: Block)
    requires Apart(front) && a.free && b.free && (front != [] ==> !front[|front| - 1].free)
    ensures Coalesced(front + [a, b]) == front + [Merged(a, b)]
  {
    hide Coalesced;
    CoalescedBehind(front, [a, b]);
    Pair(a, b);
  }

  lemma Pair(a: Block, b: Block)
    requires a.free && b.free
    ensures Coalesced([a, b]) == [Merged(a, b)]
  {
    assert [Merged(a, b)] + [a, b][2..] == [Merged(a, b)];
  }

  lemma ApartFront(bs: seq<Block>, n: nat)
    requires Apart(bs) && n <= |bs|
    ensures Apart(bs[..n])
  {
    forall i: nat ensures ApartAt(bs[..n], i) { assert ApartAt(bs, i); }
  }

  lemma {:induction false} TilesEnd(bs: seq<Block>, from: nat, to: nat)
    requires Tiles(bs, from, to) && bs != []
    ensures bs[|bs| - 1].End() == to
    decreases |bs|
  {
    if |bs| > 1 { TilesEnd(bs[1..], bs[0].End(), to); }
  }
}
