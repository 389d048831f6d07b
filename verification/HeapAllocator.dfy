/** The allocator object, what each call does to the list, and what every run of calls keeps. */
module HeapAllocator {
  import opened HeapBlocks
  import opened Heap

  predicate NoFit(bs: seq<Block>, size: nat) { forall j :: 0 <= j < |bs| ==> !Fits(bs[j], size) }

  /** The smallest free block that is large enough, and the first of those. */
  ghost predicate Best(bs: seq<Block>, i: nat, size: nat) {
    && i < |bs| && Fits(bs[i], size)
    && forall j :: 0 <= j < |bs| && Fits(bs[j], size) ==>
         bs[i].size < bs[j].size || (bs[i].size == bs[j].size && i <= j)
  }

  /** The list the search that succeeded ran on: grown at most once. */
  ghost function Searched(bs: seq<Block>, end: nat, size: nat, grew: bool): seq<Block>
    requires bs != [] && Growth(size) >= HEADER
  {
    if grew then Grown(bs, end, Growth(size)) else bs
  }

  /** The list and where the heap ends. */
  datatype Space = Space(bs: seq<Block>, end: nat)

  /** After `k` expansions for a rounded request, whatever they do to the list. */
  ghost function After(bs: seq<Block>, end: nat, size: nat, k: nat): (s: Space)
    requires bs != []
    ensures s.bs != []
  {
    if k == 0 then Space(bs, end)
    else
      var s := After(bs, end, size, k - 1);
      Space(Appended(s.bs, s.end, Growth(size)), s.end + Growth(size))
  }

  /**
   * What becomes of a call: NULL, a pointer, or the header of a new block written at the end of the heap, behind the last
   * address that is mapped; what a page fault in the kernel leads to is not modelled.
   */
  datatype Outcome = Null | Given(ptr: nat) | Overrun(addr: nat)

  /** What a call of kmalloc for any 64-bit size does, with `k` expansions on the way and `left` frames at the end. */
  ghost predicate Answers(bs: seq<Block>, end: nat, size: nat, pages: nat, o: Outcome, k: nat, left: nat, i: nat,
                          now: Space)
    requires bs != [] && size < SPACE
  {
    var n := Rounded(size);
    var s := After(bs, end, n, k);
    && now.end == s.end && s.end + PAGE * left <= end + PAGE * pages
    && (k > 0 ==> Growth(n) > 0) && (forall j: nat :: j < k ==> NoFit(After(bs, end, n, j).bs, n))
    && match o
       case Null =>
         && now.bs == s.bs
         && (size == 0 ==> k == 0 && left == pages)
         && (size > 0 ==> NoFit(s.bs, n) && left == 0 && end + PAGE * pages < s.end + Growth(n))
       case Overrun(addr) => size > 0 && now.bs == s.bs && NoFit(s.bs, n) && Growth(n) == 0 && addr == s.end
       case Given(ptr) =>
         && size > 0 && s.end + PAGE * left == end + PAGE * pages && Best(s.bs, i, n)
         && now.bs == s.bs[..i] + TakenRaw(s.bs[i], n) + s.bs[i + 1..] && ptr == s.bs[i].addr + HEADER
  }

  /** A block in use backs the pointer with `size` bytes. */
  predicate Backs(b: Block, ptr: nat, size: nat) { !b.free && b.addr + HEADER == ptr && b.size >= size }

  /**
   * What a caller relies on: the call writes nowhere else, the heap grows at most once, NULL leaves it as it was, and a pointer has
   * all its bytes in a block of a list that is in order.
   */
  ghost predicate Right(bs: seq<Block>, end: nat, size: nat, o: Outcome, k: nat, now: Space) {
    match o
    case Null => now == Space(bs, end)
    case Given(ptr) => k <= 1 && InOrder(now.bs, now.end) && exists b :: b in now.bs && Backs(b, ptr, size)
    case Overrun(_) => false
  }

  /** Either the sums do not wrap, or the call fails at once for want of a free block and of frames. */
  predicate Safe(bs: seq<Block>, size: nat, pages: nat) {
    size <= LARGEST || (size > SPACE - 48 && NoFit(bs, Rounded(size)) && PAGE * pages < 0x10_0000)
  }

  class Allocator {
    var blocks: seq<Block>
    var end: nat

    ghost predicate Valid()
      reads this
    {
      InOrder(blocks, end) && end % PAGE == 0
    }

    /** kheap_init. */
    constructor ()
      ensures Valid() && blocks == [Block(BASE, INITIAL - HEADER, true)] && end == BASE + INITIAL
    {
      blocks, end := [Block(BASE, INITIAL - HEADER, true)], BASE + INITIAL;
      new;
      InitialInOrder();
    }

    /** The best-fit scan; the length of the list stands for no block. */
    method FindBest(size: nat) returns (best: nat)
      requires forall j :: 0 <= j < |blocks| ==> blocks[j].size < SPACE - 1
      ensures best == |blocks| ==> NoFit(blocks, size)
      ensures best != |blocks| ==> Best(blocks, best, size)
    {
      best := |blocks|;
      var smallest := SPACE - 1;
      for i := 0 to |blocks|
        invariant best == |blocks| || best < i
        invariant best == |blocks| ==> smallest == SPACE - 1 && forall j :: 0 <= j < i ==> !Fits(blocks[j], size)
        invariant best < i ==> Fits(blocks[best], size) && smallest == blocks[best].size - size
        invariant best < i ==> forall j :: 0 <= j < i && Fits(blocks[j], size) ==>
          blocks[best].size < blocks[j].size || (blocks[best].size == blocks[j].size && best <= j)
      {
        if blocks[i].free && blocks[i].size >= size {
          var diff := blocks[i].size - size;
          if diff < smallest { smallest, best := diff, i; }
        }
      }
    }

    /** New space at the end, when enough frames are left to map; a failed attempt uses up every one of them. */
    method Expand(size: nat, pages: nat) returns (ok: bool, left: nat)
      requires blocks != [] && size < SPACE && size % 16 == 0 && Growth(size) > 0
      modifies this
      ensures ok <==> Growth(size) <= PAGE * pages
      ensures ok ==> blocks == Appended(old(blocks), old(end), Growth(size)) && end == old(end) + Growth(size)
      ensures ok ==> PAGE * left + Growth(size) == PAGE * pages
      ensures !ok ==> blocks == old(blocks) && end == old(end) && left == 0
    {
      hide Appended;
      GrowthPages(size);
      var n := Growth(size);
      var offset := 0;
      left := pages;
      while offset < n
        invariant offset % PAGE == 0 && offset <= n && PAGE * left + offset == PAGE * pages
      {
        if left == 0 { return false, 0; }
        offset, left := offset + PAGE, left - 1;
      }
      blocks, end := Appended(blocks, end, n), end + n;
      ok := true;
    }

    /** kmalloc of any size with `pages` frames left. */
    method Kmalloc(size: nat, pages: nat) returns (o: Outcome, expansions: nat, left: nat, i: nat)
      requires Valid() && size < SPACE && end + PAGE * pages < SPACE
      modifies this
      ensures Answers(old(blocks), old(end), size, pages, o, expansions, left, i, Space(blocks, end))
      ensures Right(old(blocks), old(end), size, o, expansions, Space(blocks, end)) <==> Safe(old(blocks), size, pages)
      ensures Safe(old(blocks), size, pages) ==> Valid()
    {
      hide InOrder, Appended, Growth, Rounded, TakenRaw, Best, NoFit, Right, Safe, After;
      ghost var bs, from := blocks, end;
      expansions, left, i, o := 0, pages, 0, Null;
      Start(bs, from, size);
      if size == 0 {
        RightIff(bs, from, size, pages, o, expansions, left, i, Space(blocks, end));
        return;
      }
      var n := Rounded(size);
      RoundedEven(size);
      Sized(blocks, end);
      var best := FindBest(n);
      while best == |blocks|
        invariant Space(blocks, end) == After(bs, from, n, expansions) && blocks != []
        invariant end + PAGE * left == from + PAGE * pages && end % PAGE == 0
        invariant forall j: nat :: j < expansions ==> NoFit(After(bs, from, n, j).bs, n)
        invariant best == |blocks| ==> NoFit(blocks, n)
        invariant best != |blocks| ==> Best(blocks, best, n)
        invariant InOrder(blocks, end) && (expansions > 0 ==> Growth(n) > 0)
        decreases left
      {
        if Growth(n) == 0 {
          o := Overrun(end);
          RightIff(bs, from, size, pages, o, expansions, left, i, Space(blocks, end));
          return;
        }
        ghost var before, at := blocks, end;
        var ok, rest := Expand(n, left);
        if !ok {
          left := 0;
          RightIff(bs, from, size, pages, o, expansions, left, i, Space(blocks, end));
          return;
        }
        Expanded(before, at, n);
        AfterNext(bs, from, n, expansions);
        expansions, left := expansions + 1, rest;
        best := FindBest(n);
      }
      i := best;
      BestFits(blocks, best, n);
      o := Given(blocks[best].addr + HEADER);
      blocks := blocks[..best] + TakenRaw(blocks[best], n) + blocks[best + 1..];
      RightIff(bs, from, size, pages, o, expansions, left, i, Space(blocks, end));
    }

    /** Where the header at `addr` stands in the list. */
    method Locate(addr: nat) returns (i: nat)
      requires exists b :: b in blocks && b.addr == addr
      ensures i < |blocks| && blocks[i].addr == addr
    {
      i := 0;
      while blocks[i].addr != addr
        invariant i < |blocks| && forall j :: 0 <= j < i ==> blocks[j].addr != addr
        decreases |blocks| - i
      {
        assert i + 1 < |blocks|;
        i := i + 1;
      }
    }

    /** The merging pass, which looks again at a block it has just enlarged. */
    method Coalesce()
      requires Tiles(blocks, BASE, end) && AllShaped(blocks) && blocks != [] && end < SPACE && end % PAGE == 0
      modifies this`blocks
      ensures Valid() && blocks == Coalesced(old(blocks))
    {
      hide Coalesced;
      ghost var bs := blocks;
      var i: nat := 0;
      assert blocks[0..] == blocks;
      while i < |blocks|
        invariant i <= |blocks| && Coalesced(bs) == blocks[..i] + Coalesced(blocks[i..])
        decreases 2 * |blocks| - i
      {
        if blocks[i].free && i + 1 < |blocks| && blocks[i + 1].free {
          MergeAt(blocks, i);
          blocks := blocks[..i] + [Merged(blocks[i], blocks[i + 1])] + blocks[i + 2..];
        } else {
          SkipAt(blocks, i);
          i := i + 1;
        }
      }
      NothingBehind(blocks);
      CoalescedTiles(bs, BASE, end);
      CoalescedShaped(bs);
      CoalescedApart(bs);
    }

    /** kfree of a pointer in use, or of NULL. */
    method Kfree(ptr: nat) returns (i: nat)
      requires Valid() && (ptr == 0 || exists b :: b in blocks && !b.free && b.addr + HEADER == ptr)
      modifies this`blocks
      ensures Valid()
      ensures ptr == 0 ==> blocks == old(blocks)
      ensures ptr != 0 ==> i < |old(blocks)| && old(blocks)[i].addr + HEADER == ptr && !old(blocks)[i].free
      ensures ptr != 0 ==> blocks == Coalesced(Freed(old(blocks), i))
    {
      i := 0;
      if ptr == 0 { return; }
      var k := Locate(ptr - HEADER);
      ghost var b :| b in blocks && !b.free && b.addr + HEADER == ptr;
      SameAddress(blocks, end, k, b);
      FreedTiles(blocks, k, BASE, end);
      i := k;
      blocks := Freed(blocks, k);
      Coalesce();
    }
  }

  lemma MergeAt(bs: seq<Block>, i: nat)
    requires i + 1 < |bs| && bs[i].free && bs[i + 1].free
    ensures var r := bs[..i] + [Merged(bs[i], bs[i + 1])] + bs[i + 2..];
      |r| == |bs| - 1 && r[..i] == bs[..i] && Coalesced(r[i..]) == Coalesced(bs[i..])
  {
    var r, rest := bs[..i] + [Merged(bs[i], bs[i + 1])] + bs[i + 2..], bs[i..];
    assert rest[2..] == bs[i + 2..];
    assert r[i..] == [Merged(rest[0], rest[1])] + rest[2..];
  }

  lemma SkipAt(bs: seq<Block>, i: nat)
    requires i < |bs| && !(bs[i].free && i + 1 < |bs| && bs[i + 1].free)
    ensures bs[..i] + Coalesced(bs[i..]) == bs[..i + 1] + Coalesced(bs[i + 1..])
  {
    var rest := bs[i..];
    assert rest[1..] == bs[i + 1..];
    assert Coalesced(rest) == [rest[0]] + Coalesced(rest[1..]);
  }

  lemma NothingBehind(bs: seq<Block>)
    ensures bs[..|bs|] + Coalesced(bs[|bs|..]) == bs
  {
  }

  lemma FreedMiddle(bs: seq<Block>, i: nat)
    requires i < |bs|
    ensures bs[..i] + [bs[i].(free := true)] + bs[i + 1..] == Freed(bs, i)
  {
  }

  function Freed(bs: seq<Block>, i: nat): seq<Block>
    requires i < |bs|
  {
    bs[i := bs[i].(free := true)]
  }

  lemma InitialInOrder()
    ensures InOrder([Block(BASE, INITIAL - HEADER, true)], BASE + INITIAL)
  {
    var bs := [Block(BASE, INITIAL - HEADER, true)];
    assert bs[1..] == [];
    assert Tiles(bs, BASE, BASE + INITIAL);
  }

  lemma SameAddress(bs: seq<Block>, end: nat, k: nat, b: Block)
    requires Tiles(bs, BASE, end) && k < |bs| && b in bs && b.addr == bs[k].addr
    ensures bs[k] == b
  {
    var j :| 0 <= j < |bs| && bs[j] == b;
    if j < k { TilesDisjoint(bs, BASE, end, j, k); }
    if k < j { TilesDisjoint(bs, BASE, end, k, j); }
  }

  lemma FreedTiles(bs: seq<Block>, i: nat, from: nat, to: nat)
    requires Tiles(bs, from, to) && i < |bs|
    ensures Tiles(Freed(bs, i), from, to)
  {
    var b := bs[i].(free := true);
    Middle(bs, i);
    FreedMiddle(bs, i);
    assert [b][1..] == [] && [bs[i]][1..] == [];
    TilesSwap(bs[..i], [bs[i]], [b], bs[i + 1..], from, to);
  }

  /** kfree takes exactly its block out of use. */
  lemma FreedLive(bs: seq<Block>, i: nat)
    requires i < |bs| && !bs[i].free
    ensures Live(bs) == Live(bs[..i]) + [bs[i]] + Live(bs[i + 1..])
    ensures Live(Coalesced(Freed(bs, i))) == Live(bs[..i]) + Live(bs[i + 1..])
  {
    hide Live, Coalesced;
    LiveAt(bs, i);
    FreedMiddle(bs, i);
    FreedLiveAt(bs[..i], bs[i].(free := true), bs[i + 1..]);
    CoalescedLive(Freed(bs, i));
  }

  lemma LiveAt(bs: seq<Block>, i: nat)
    requires i < |bs| && !bs[i].free
    ensures Live(bs) == Live(bs[..i]) + [bs[i]] + Live(bs[i + 1..])
  {
    hide Live;
    Middle(bs, i);
    LiveAround(bs, i, [bs[i]]);
    LiveOne(bs[i]);
  }

  lemma FreedLiveAt(front: seq<Block>, b: Block, back: seq<Block>)
    requires b.free
    ensures Live(front + [b] + back) == Live(front) + Live(back)
  {
    hide Live;
    LiveSplit(front + [b], back);
    LiveSplit(front, [b]);
    LiveOne(b);
    assert Live(front) + [] == Live(front);
  }

  /** kfree right after a kmalloc that did not grow the heap gives the old list back. */
  lemma FreeUndoes(bs: seq<Block>, i: nat, size: nat)
    requires Apart(bs) && i < |bs| && Fits(bs[i], size)
    ensures Coalesced(Freed(Taken(bs, i, size), i)) == bs
  {
    hide Coalesced;
    var t, front, back := TakenBlock(bs[i], size), bs[..i], bs[i + 1..];
    var mid := [t[0].(free := true)] + t[1..];
    assert Freed(Taken(bs, i, size), i) == front + (mid + back);
    if i > 0 { assert ApartAt(bs, i - 1); }
    ApartFront(bs, i);
    CoalescedBehind(front, mid + back);
    ApartBack(bs, i);
    MergeBack(bs[i], size, back);
    CoalescedSame([bs[i]] + back);
    Middle(bs, i);
    assert front + ([bs[i]] + back) == bs;
  }

  lemma ApartBack(bs: seq<Block>, i: nat)
    requires Apart(bs) && i < |bs|
    ensures Apart([bs[i]] + bs[i + 1..])
  {
    assert [bs[i]] + bs[i + 1..] == bs[i..];
    forall k: nat ensures ApartAt(bs[i..], k) { assert ApartAt(bs, i + k); }
  }

  lemma MergeBack(b: Block, size: nat, back: seq<Block>)
    requires Fits(b, size)
    ensures var t := TakenBlock(b, size);
      Coalesced([t[0].(free := true)] + t[1..] + back) == Coalesced([b] + back)
  {
    var t := TakenBlock(b, size);
    var all := [t[0].(free := true)] + t[1..] + back;
    if |t| == 2 {
      assert all[2..] == back && all[1] == t[1];
      assert Merged(all[0], all[1]) == b;
    } else {
      assert all == [b] + back;
    }
  }

  /** A heap with nothing in use is one free block. */
  lemma NothingLive(bs: seq<Block>, end: nat)
    requires InOrder(bs, end) && Live(bs) == []
    ensures |bs| == 1 && bs[0].free && bs[0].addr == BASE && bs[0].End() == end
  {
    TilesEnd(bs, BASE, end);
    assert ApartAt(bs, 0);
    LiveSecond(bs);
  }

  /** Of the first two blocks one is in use, when they are apart. */
  lemma LiveSecond(bs: seq<Block>)
    ensures Live(bs) == [] && bs != [] ==> bs[0].free
    ensures |bs| > 1 && ApartAt(bs, 0) ==> Live(bs) != []
  {
    if |bs| > 1 { assert Live(bs[1..]) == (if bs[1].free then [] else [bs[1]]) + Live(bs[1..][1..]); }
  }

  lemma RoundedLargest(size: nat)
    requires 0 < size <= LARGEST
    ensures 16 <= Rounded(size) <= LARGEST
  {
  }

  /** One expansion always makes room. */
  lemma GrownFits(bs: seq<Block>, end: nat, size: nat)
    requires bs != [] && Growth(size) >= size + HEADER
    ensures var g := Grown(bs, end, Growth(size)); !NoFit(g, size)
  {
    var g := Grown(bs, end, Growth(size));
    assert Fits(g[|g| - 1], size);
  }

  // ---------------------------------------------------------------------------
  // Requests of any 64-bit size
  // ---------------------------------------------------------------------------

  lemma GrowthPages(size: nat)
    requires size < SPACE && size % 16 == 0
    ensures Growth(size) % PAGE == 0
  {
    GrowthCovers(size);
  }

  lemma RoundedEven(size: nat)
    requires size < SPACE
    ensures Rounded(size) % 16 == 0 && Rounded(size) < SPACE
    ensures size <= SPACE - 16 ==> size <= Rounded(size) < size + 16
    ensures size > SPACE - 16 ==> Rounded(size) == 0
  {
  }

  lemma Sized(bs: seq<Block>, end: nat)
    requires InOrder(bs, end)
    ensures bs != [] && forall j :: 0 <= j < |bs| ==> bs[j].size < SPACE - BASE
  {
    hide Tiles;
    forall j | 0 <= j < |bs| ensures bs[j].size < SPACE - BASE { TilesBound(bs, BASE, end, j); }
  }

  lemma Start(bs: seq<Block>, end: nat, size: nat)
    requires InOrder(bs, end) && size < SPACE
    ensures bs != [] && After(bs, end, Rounded(size), 0) == Space(bs, end)
  {
    hide Rounded, Appended;
  }

  lemma AfterNext(bs: seq<Block>, end: nat, size: nat, k: nat)
    requires bs != []
    ensures var s := After(bs, end, size, k);
      After(bs, end, size, k + 1) == Space(Appended(s.bs, s.end, Growth(size)), s.end + Growth(size))
  {
    hide Appended, Growth;
  }

  /** One expansion of a list in order. */
  lemma Expanded(bs: seq<Block>, end: nat, size: nat)
    requires InOrder(bs, end) && size < SPACE && size % 16 == 0 && 0 < Growth(size) && end + Growth(size) < SPACE
    ensures var g := Appended(bs, end, Growth(size));
      InOrder(g, end + Growth(size)) && forall j :: 0 <= j < |g| ==> g[j].size < SPACE - 1
  {
    hide InOrder, Growth, Appended, Grown;
    GrowthCovers(size);
    Sized(bs, end);
    AppendedGrows(bs, end, Growth(size));
    GrownInOrder(bs, end, Growth(size));
    Sized(Grown(bs, end, Growth(size)), end + Growth(size));
  }

  lemma {:induction false} AfterEnds(bs: seq<Block>, end: nat, size: nat, k: nat)
    requires bs != []
    ensures After(bs, end, size, k).end >= end + if k > 0 then Growth(size) else 0
  {
    hide Growth, Appended;
    if k > 0 { AfterEnds(bs, end, size, k - 1); }
  }

  /** Nothing fits twice: a covering expansion is the last one. */
  lemma OneExpansion(bs: seq<Block>, end: nat, size: nat, k: nat)
    requires InOrder(bs, end) && size <= LARGEST && size % 16 == 0 && k > 0 && After(bs, end, size, k).end < SPACE
    ensures !NoFit(After(bs, end, size, 1).bs, size) && Growth(size) >= HEADER
    ensures After(bs, end, size, 1) == Space(Grown(bs, end, Growth(size)), end + Growth(size))
  {
    hide InOrder, Growth, Appended, Grown, NoFit;
    Sized(bs, end);
    GrowthCovers(size);
    AfterEnds(bs, end, size, k);
    AfterNext(bs, end, size, 0);
    AppendedGrows(bs, end, Growth(size));
    GrownFits(bs, end, size);
  }

  /** Requests that do not wrap: the list searched last is the old one or grew once, and it is in order. */
  lemma SmallAnswers(bs: seq<Block>, end: nat, size: nat, pages: nat, o: Outcome, k: nat, left: nat, i: nat, now: Space)
    requires InOrder(bs, end) && 0 < size <= LARGEST && end + PAGE * pages < SPACE
    requires Answers(bs, end, size, pages, o, k, left, i, now)
    ensures k <= 1 && !o.Overrun? && (o.Null? ==> now == Space(bs, end)) && Growth(Rounded(size)) >= HEADER
    ensures o.Null? ==> NoFit(bs, Rounded(size)) && PAGE * pages < Growth(Rounded(size))
    ensures o.Given? ==> var n := Rounded(size);
      var l := Searched(bs, end, n, k == 1);
      && Best(l, i, n) && l[i].free && now.bs == Taken(l, i, n) && o.ptr == l[i].addr + HEADER
      && now.end == (if k == 1 then end + Growth(n) else end) && InOrder(l, now.end) && InOrder(now.bs, now.end)
      && (k == 1 ==> NoFit(bs, n) && Growth(n) <= PAGE * pages)
  {
    hide InOrder, Growth, Rounded, Appended, Grown, NoFit, TakenRaw, TakenBlock, After;
    var n := Rounded(size);
    Sized(bs, end);
    RoundedLargest(size);
    RoundedEven(size);
    GrowthCovers(n);
    AfterZero(bs, end, n);
    if k > 0 {
      OneExpansion(bs, end, n, k);
      GrownInOrder(bs, end, Growth(n));
      assert NoFit(After(bs, end, n, 0).bs, n);
    }
    if o.Given? {
      var l := Searched(bs, end, n, k == 1);
      GivenBlock(l, now.end, n, i);
    }
  }

  lemma AfterZero(bs: seq<Block>, end: nat, size: nat)
    requires bs != []
    ensures After(bs, end, size, 0) == Space(bs, end)
  {
    hide Appended, Growth;
  }

  lemma GivenBlock(l: seq<Block>, end: nat, n: nat, i: nat)
    requires InOrder(l, end) && i < |l| && Fits(l[i], n) && 16 <= n <= LARGEST && n % 16 == 0
    ensures l[..i] + TakenRaw(l[i], n) + l[i + 1..] == Taken(l, i, n)
    ensures InOrder(Taken(l, i, n), end)
  {
    hide InOrder, TakenRaw;
    Bounded(l, end, i);
    TakenRawIs(l[i], n);
    TakenInOrder(l, i, n, end);
  }

  lemma Bounded(l: seq<Block>, end: nat, i: nat)
    requires InOrder(l, end) && i < |l|
    ensures BASE <= l[i].addr && l[i].End() <= end < SPACE
  {
    hide Tiles;
    TilesBound(l, BASE, end, i);
  }

  lemma HandedOut(l: seq<Block>, i: nat, n: nat, size: nat)
    requires i < |l| && Fits(l[i], n) && size <= n
    ensures exists b :: b in Taken(l, i, n) && Backs(b, l[i].addr + HEADER, size)
  {
    var t := TakenBlock(l[i], n)[0];
    assert Taken(l, i, n)[i] == t;
    assert t in Taken(l, i, n) && Backs(t, l[i].addr + HEADER, size);
  }

  /** A request larger than everything above the base is never met by a block of a list in order. */
  lemma TooLarge(now: Space, ptr: nat, size: nat)
    requires InOrder(now.bs, now.end) && size > SPACE - BASE
    ensures !exists b :: b in now.bs && Backs(b, ptr, size)
  {
    hide InOrder;
    forall b | b in now.bs ensures !Backs(b, ptr, size) {
      var j :| 0 <= j < |now.bs| && now.bs[j] == b;
      Bounded(now.bs, now.end, j);
    }
  }

  /**
   * For every size, a call does what its caller relies on exactly when the size stays clear of the last 4128, or when
   * the call fails at once for want of a free block and of frames.
   */
  lemma RightIff(bs: seq<Block>, end: nat, size: nat, pages: nat, o: Outcome, k: nat, left: nat, i: nat, now: Space)
    requires InOrder(bs, end) && size < SPACE && end + PAGE * pages < SPACE && end % PAGE == 0
    requires Answers(bs, end, size, pages, o, k, left, i, now)
    ensures Right(bs, end, size, o, k, now) <==> Safe(bs, size, pages)
    ensures Safe(bs, size, pages) ==> InOrder(now.bs, now.end) && now.end % PAGE == 0
  {
    hide InOrder, Growth, Rounded, Appended, Grown, NoFit, TakenRaw, TakenBlock, After, Best;
    var n := Rounded(size);
    Sized(bs, end);
    AfterZero(bs, end, n);
    RoundedEven(size);
    if 0 < size <= LARGEST {
      SmallAnswers(bs, end, size, pages, o, k, left, i, now);
      GrowthPages(n);
      if o.Given? {
        assert Best(Searched(bs, end, n, k == 1), i, n);
        BestFits(Searched(bs, end, n, k == 1), i, n);
        HandedOut(Searched(bs, end, n, k == 1), i, n, size);
      }
    } else if size > LARGEST {
      AfterEnds(bs, end, n, k);
      GrowthCovers(n);
      if InOrder(now.bs, now.end) && o.Given? { TooLarge(now, o.ptr, size); }
      if k > 0 { assert NoFit(After(bs, end, n, 0).bs, n); }
      if o.Given? && k == 0 { BestFits(bs, i, n); }
    }
  }

  lemma BestFits(bs: seq<Block>, i: nat, size: nat)
    requires Best(bs, i, size)
    ensures i < |bs| && Fits(bs[i], size) && !NoFit(bs, size)
  {
  }

  /** Where the expansion wraps to nothing the call writes a header past the end of the heap. */
  lemma WrappedAnswers(bs: seq<Block>, end: nat, size: nat, pages: nat, o: Outcome, k: nat, left: nat, i: nat, now: Space)
    requires InOrder(bs, end) && LARGEST < size <= SPACE - 48 && end + PAGE * pages < SPACE
    requires Answers(bs, end, size, pages, o, k, left, i, now)
    ensures o == Overrun(end) && k == 0 && now == Space(bs, end)
  {
    hide InOrder, Growth, Rounded, Appended, NoFit, TakenRaw, After, Best;
    var n := Rounded(size);
    RoundedEven(size);
    Sized(bs, end);
    GrowthCovers(n);
    AfterZero(bs, end, n);
    NothingFits(bs, n);
  }

  lemma NothingFits(bs: seq<Block>, size: nat)
    requires size > SPACE - BASE && forall j :: 0 <= j < |bs| ==> bs[j].size < SPACE - BASE
    ensures NoFit(bs, size) && forall i :: !Best(bs, i, size)
  {
  }

  /** 2^64 - 4112 bytes, on the heap as kheap_init leaves it and with all of it in use. */
  lemma FailsAt(free: bool, pages: nat, o: Outcome, k: nat, left: nat, i: nat, now: Space)
    requires BASE + INITIAL + PAGE * pages < SPACE
    requires Answers([Block(BASE, INITIAL - HEADER, free)], BASE + INITIAL, SPACE - 4112, pages, o, k, left, i, now)
    ensures o == Overrun(BASE + INITIAL)
  {
    hide Answers;
    var bs := [Block(BASE, INITIAL - HEADER, free)];
    assert bs[1..] == [] && Tiles(bs, BASE, BASE + INITIAL);
    WrappedAnswers(bs, BASE + INITIAL, SPACE - 4112, pages, o, k, left, i, now);
  }
}
