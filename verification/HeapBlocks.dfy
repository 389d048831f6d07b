/** The block list of the kernel heap: what it means for it to be in order, and what splitting and merging do. */
module HeapBlocks {

  const HEADER: nat := 32
  const BASE: nat := 0xFFFF_8000_4000_0000
  const INITIAL: nat := 0x40_0000
  const PAGE: nat := 4096
  const SPACE: nat := 0x1_0000_0000_0000_0000

  datatype Block = Block(addr: nat, size: nat, free: bool) {
    function End(): nat { addr + HEADER + size }
  }

  /** The blocks cover `from` to `to` exactly, in order and without gaps. */
  predicate Tiles(bs: seq<Block>, from: nat, to: nat)
    decreases |bs|
  {
    if bs == [] then from == to else bs[0].addr == from && Tiles(bs[1..], bs[0].End(), to)
  }

  predicate Shaped(b: Block) { b.size % 16 == 0 && b.size >= 16 && b.addr % 16 == 0 }

  ghost predicate AllShaped(bs: seq<Block>) { forall i :: 0 <= i < |bs| ==> Shaped(bs[i]) }

  /** Blocks `i` and `i + 1` are not both free. */
  predicate ApartAt(bs: seq<Block>, i: nat) { i + 1 < |bs| ==> !(bs[i].free && bs[i + 1].free) }

  ghost predicate Apart(bs: seq<Block>) { forall i: nat :: ApartAt(bs, i) }

  ghost predicate InOrder(bs: seq<Block>, end: nat) {
    bs != [] && Tiles(bs, BASE, end) && AllShaped(bs) && Apart(bs) && end < SPACE
  }

  /** The blocks in use, in address order. */
  function Live(bs: seq<Block>): seq<Block> {
    if bs == [] then [] else (if bs[0].free then [] else [bs[0]]) + Live(bs[1..])
  }

  lemma {:induction false} LiveSplit(a: seq<Block>, b: seq<Block>)
    ensures Live(a + b) == Live(a) + Live(b)
  {
    if a == [] {
      assert a + b == b;
    } else {
      assert (a + b)[1..] == a[1..] + b;
      LiveSplit(a[1..], b);
    }
  }

  lemma {:induction false} TilesSplit(a: seq<Block>, b: seq<Block>, from: nat, to: nat)
    requires Tiles(a + b, from, to)
    ensures exists mid :: Tiles(a, from, mid) && Tiles(b, mid, to)
    decreases |a|
  {
    if a == [] {
      assert a + b == b;
      assert Tiles(a, from, from);
    } else {
      assert (a + b)[1..] == a[1..] + b;
      TilesSplit(a[1..], b, a[0].End(), to);
    }
  }

  lemma {:induction false} TilesJoin(a: seq<Block>, b: seq<Block>, from: nat, mid: nat, to: nat)
    requires Tiles(a, from, mid) && Tiles(b, mid, to)
    ensures Tiles(a + b, from, to)
    decreases |a|
  {
    if a == [] {
      assert a + b == b;
    } else {
      assert (a + b)[1..] == a[1..] + b;
      TilesJoin(a[1..], b, a[0].End(), mid, to);
    }
  }

  /** Replacing blocks in the middle by others that cover the same stretch. */
  lemma TilesSwap(a: seq<Block>, b: seq<Block>, b': seq<Block>, c: seq<Block>, from: nat, to: nat)
    requires Tiles(a + b + c, from, to)
    requires forall x, y :: Tiles(b, x, y) ==> Tiles(b', x, y)
    ensures Tiles(a + b' + c, from, to)
  {
    assert a + b + c == a + (b + c);
    TilesSplit(a, b + c, from, to);
    var x :| Tiles(a, from, x) && Tiles(b + c, x, to);
    TilesSplit(b, c, x, to);
    var y :| Tiles(b, x, y) && Tiles(c, y, to);
    TilesJoin(b', c, x, y, to);
    TilesJoin(a, b' + c, from, x, to);
    assert a + b' + c == a + (b' + c);
  }

  lemma {:induction false} TilesBound(bs: seq<Block>, from: nat, to: nat, i: nat)
    requires Tiles(bs, from, to) && i < |bs|
    ensures from <= bs[i].addr && bs[i].End() <= to
    decreases |bs|
  {
    TilesGrow(bs[1..], bs[0].End(), to);
    if i > 0 { TilesBound(bs[1..], bs[0].End(), to, i - 1); }
  }

  lemma {:induction false} TilesGrow(bs: seq<Block>, from: nat, to: nat)
    requires Tiles(bs, from, to)
    ensures from <= to
    decreases |bs|
  {
    if bs != [] { TilesGrow(bs[1..], bs[0].End(), to); }
  }

  /** Blocks of the list never overlap, headers included. */
  lemma {:induction false} TilesDisjoint(bs: seq<Block>, from: nat, to: nat, i: nat, j: nat)
    requires Tiles(bs, from, to) && i < j < |bs|
    ensures bs[i].End() <= bs[j].addr
    decreases |bs|
  {
    if i == 0 {
      TilesBound(bs[1..], bs[0].End(), to, j - 1);
    } else {
      TilesDisjoint(bs[1..], bs[0].End(), to, i - 1, j - 1);
    }
  }

  // ---------------------------------------------------------------------------
  // Merging
  // ---------------------------------------------------------------------------

  function Merged(a: Block, b: Block): Block { Block(a.addr, a.size + HEADER + b.size, true) }

  /** The list with every run of free neighbours merged into one block. */
  function Coalesced(bs: seq<Block>): (r: seq<Block>)
    ensures |r| <= |bs|
    ensures bs != [] ==> r != [] && r[0].free == bs[0].free && r[0].addr == bs[0].addr
    decreases |bs|
  {
    if |bs| < 2 then bs
    else if bs[0].free && bs[1].free then Coalesced([Merged(bs[0], bs[1])] + bs[2..])
    else [bs[0]] + Coalesced(bs[1..])
  }

  lemma {:induction false} CoalescedApart(bs: seq<Block>)
    ensures Apart(Coalesced(bs))
    decreases |bs|
  {
    if |bs| >= 2 {
      if bs[0].free && bs[1].free {
        CoalescedApart([Merged(bs[0], bs[1])] + bs[2..]);
      } else {
        CoalescedApart(bs[1..]);
        var r := Coalesced(bs);
        forall i: nat ensures ApartAt(r, i) {
          if i > 0 { assert ApartAt(Coalesced(bs[1..]), i - 1); }
        }
      }
    }
  }

  lemma {:induction false} CoalescedTiles(bs: seq<Block>, from: nat, to: nat)
    requires Tiles(bs, from, to)
    ensures Tiles(Coalesced(bs), from, to)
    decreases |bs|
  {
    if |bs| >= 2 {
      if bs[0].free && bs[1].free {
        var m := [Merged(bs[0], bs[1])] + bs[2..];
        assert m[1..] == bs[1..][1..];
        CoalescedTiles(m, from, to);
      } else {
        CoalescedTiles(bs[1..], bs[0].End(), to);
        assert Coalesced(bs)[1..] == Coalesced(bs[1..]);
      }
    }
  }

  lemma {:induction false} CoalescedShaped(bs: seq<Block>)
    requires AllShaped(bs)
    ensures AllShaped(Coalesced(bs))
    decreases |bs|
  {
    if |bs| >= 2 {
      if bs[0].free && bs[1].free {
        CoalescedShaped([Merged(bs[0], bs[1])] + bs[2..]);
      } else {
        CoalescedShaped(bs[1..]);
      }
    }
  }

  /** Merging touches no block in use. */
  lemma {:induction false} CoalescedLive(bs: seq<Block>)
    ensures Live(Coalesced(bs)) == Live(bs)
    decreases |bs|
  {
    if |bs| >= 2 {
      if bs[0].free && bs[1].free {
        var m := [Merged(bs[0], bs[1])] + bs[2..];
        assert m[1..] == bs[1..][1..];
        CoalescedLive(m);
      } else {
        CoalescedLive(bs[1..]);
        assert Coalesced(bs)[1..] == Coalesced(bs[1..]);
      }
    }
  }

  lemma ApartTail(bs: seq<Block>)
    requires Apart(bs) && bs != []
    ensures Apart(bs[1..])
  {
    forall i: nat ensures ApartAt(bs[1..], i) { assert ApartAt(bs, i + 1); }
  }

  lemma {:induction false} CoalescedSame(bs: seq<Block>)
    requires Apart(bs)
    ensures Coalesced(bs) == bs
    decreases |bs|
  {
    if |bs| >= 2 {
      assert ApartAt(bs, 0);
      ApartTail(bs);
      CoalescedSame(bs[1..]);
    }
  }

  /** Merging starts only after a stretch that needs none. */
  lemma {:induction false} CoalescedBehind(a: seq<Block>, b: seq<Block>)
    requires Apart(a) && b != [] && (a != [] ==> !(a[|a| - 1].free && b[0].free))
    ensures Coalesced(a + b) == a + Coalesced(b)
    decreases |a|
  {
    if a == [] {
      assert a + b == b;
    } else {
      assert (a + b)[1..] == a[1..] + b;
      if |a| > 1 { assert ApartAt(a, 0); }
      ApartTail(a);
      CoalescedBehind(a[1..], b);
    }
  }
}
