/** What a cached file stands for, how much of it the volume can hold, and the driver's write with and without room. */
module VfsStore {
  import opened Arith
  import opened Bytes
  import opened Vnode
  import opened FatDisk
  import opened Fat32Volume
  import opened PageCache
  import FatFile
  import FatRuns
  import FatTable

  /** Everything on the volume but the file at `head` is as it was. */
  ghost predicate Kept(d0: Disk, d: Disk, head: nat) {
    && Sound(d0) && Sound(d)
    && forall h :: h != head ==> SameFile(d0, d, h)
  }

  lemma KeptOn(d0: Disk, d1: Disk, d2: Disk, h1: nat, h2: nat)
    requires Kept(d0, d1, h1) && Kept(d1, d2, h2) && (h1 == 0 || h1 == h2)
    ensures Kept(d0, d2, h2)
  {
    ZeroHasNone(d0);
    forall h | h != h2 ensures SameFile(d0, d2, h) {
      if Has(d0, h) { assert SameFile(d0, d1, h) && SameFile(d1, d2, h); }
    }
  }

  /** The disk is as it was but for this node's file, which keeps its first cluster once it has one. */
  ghost predicate OnlyThis(d0: Disk, head0: nat, d: Disk, head: nat) {
    Kept(d0, d, head) && if head0 == 0 then !Has(d0, head) else head0 == head
  }

  lemma OnlyThisOn(d0: Disk, h0: nat, d1: Disk, h1: nat, d2: Disk, h2: nat)
    requires OnlyThis(d0, h0, d1, h1) && OnlyThis(d1, h1, d2, h2)
    ensures OnlyThis(d0, h0, d2, h2)
  {
    ZeroHasNone(d1);
    KeptOn(d0, d1, d2, h1, h2);
    assert Has(d0, h2) && h2 != h1 ==> SameFile(d0, d1, h2);
  }

  lemma OnlyThisRefl(d: Disk, h: nat)
    requires Sound(d)
    ensures OnlyThis(d, h, d, h)
  {
    ZeroHasNone(d);
  }

  /** The bytes the volume holds for a node. */
  ghost function StoreOf(node: Node, vol: Volume): seq<Byte>
    requires vol.Valid()
    reads node, vol
  {
    Contents(vol.disk, node.inode)
  }

  /** The clusters of the file and the free ones hold `size` bytes. */
  ghost predicate RoomFor(d: Disk, head: nat, size: nat)
    requires Sound(d)
  {
    size <= Times(Reach(d, head), d.size)
  }

  /** The node, through its cache and its volume, stands for the file `flat`. */
  ghost predicate Stands(node: Node, vol: Volume, flat: seq<Byte>)
    reads node, vol
  {
    && vol.Valid() && !node.isDirectory && node.blockSize == vol.geo.bpc
    && (node.inode == 0 || Has(vol.disk, node.inode)) && node.size == |flat|
    && Coherent(node.cachePages, vol.geo.bpc, StoreOf(node, vol), flat)
  }

  /** All bytes the clusters of the file and the free ones hold. */
  ghost function Capacity(node: Node, vol: Volume): nat
    requires vol.Valid()
    reads node, vol
  {
    Times(Reach(vol.disk, node.inode), vol.disk.size)
  }

  // ---------------------------------------------------------------------------
  // Without room
  // ---------------------------------------------------------------------------

  /**
   * How an operation ends: as on the flat file; with the driver unable to find a first cluster; with the driver moving
   * fewer bytes than asked; or with the chain of the file off the device.
   */
  datatype Outcome = Done | Failed | Short | Astray

  /** What becomes of bytes for which there is no room: the FAT decides it beforehand. */
  ghost function NoRoom(d: Disk, head: nat): (o: Outcome)
    ensures o != Done
  {
    if FatTable.SomeBeyond(d.files.fat, d.files.count) then Astray
    else if head == 0 && FatTable.NoneFree(d.files.fat) then Failed
    else Short
  }

  /** Every page is that of its block of a file of `size` bytes, as far as its place and length go. */
  ghost predicate Paged(pages: seq<Page>, b: nat, size: nat) {
    forall i :: 0 <= i < |pages| ==> Shaped(pages[i], b, size)
  }

  predicate Shaped(p: Page, b: nat, size: nat) {
    |p.buffer| == b && Times(p.block, b) < size && p.size == Min(b, size - Times(p.block, b))
  }

  /** A file of `size` bytes whose pages and store need not agree any more. */
  ghost predicate Loose(node: Node, vol: Volume, nr: Outcome, reach: nat, size: nat)
    reads node, vol
  {
    && vol.Valid() && !node.isDirectory && node.blockSize == vol.geo.bpc
    && (node.inode == 0 || Has(vol.disk, node.inode)) && node.size == size
    && Reach(vol.disk, node.inode) == reach && NoRoom(vol.disk, node.inode) == nr
    && Unique(node.cachePages) && Paged(node.cachePages, vol.geo.bpc, size)
  }

  lemma StandsLoose(node: Node, vol: Volume, flat: seq<Byte>)
    requires Stands(node, vol, flat)
    ensures vol.geo.bpc > 0
    ensures Loose(node, vol, NoRoom(vol.disk, node.inode), Reach(vol.disk, node.inode), |flat|)
  {
    hide NoRoom;
    var pages, b, store := node.cachePages, vol.geo.bpc, StoreOf(node, vol);
    forall i | 0 <= i < |pages| ensures Shaped(pages[i], b, |flat|) { assert GoodPage(pages, i, b, store, flat); }
  }

  lemma LooseStands(node: Node, vol: Volume, flat: seq<Byte>, nr: Outcome, reach: nat)
    requires Loose(node, vol, nr, reach, |flat|) && Coherent(node.cachePages, vol.geo.bpc, StoreOf(node, vol), flat)
    ensures Stands(node, vol, flat)
  {
  }

  lemma WantedIff(off: nat, n: nat, count: nat, b: nat)
    requires b > 0 && n > 0
    ensures Wanted(off, n, b) > count <==> off + n > Times(count, b)
  {
    if off + n <= Times(count, b) {
      WantedAtMost(off, n, count, b);
    } else if Wanted(off, n, b) <= count {
      WantedCovers(off, n, b);
      TimesMono(Wanted(off, n, b), count, b);
    }
  }

  lemma NoneBeyond(d: Disk)
    requires FatTable.NoneFree(d.files.fat)
    ensures !FatTable.SomeBeyond(d.files.fat, d.files.count)
  {
  }

  /** Where no first cluster can be found there is no room at all. */
  lemma FailedReach(d: Disk, head: nat)
    requires Sound(d) && NoRoom(d, head) == Failed
    ensures Reach(d, head) == 0 && head == 0
  {
    ZeroHasNone(d);
    assert FatTable.FreeSet(d.files.fat, d.files.count) == {};
  }

  lemma BeyondSame(d0: Disk, d1: Disk)
    requires SameBeyond(d0, d1)
    ensures FatTable.SomeBeyond(d1.files.fat, d1.files.count) <==> FatTable.SomeBeyond(d0.files.fat, d0.files.count)
  {
    if FatTable.SomeBeyond(d0.files.fat, d0.files.count) {
      var c :| 2 <= c < |d0.files.fat| && d0.files.count <= c && FatTable.Link(d0.files.fat, c) == 0;
      assert FatTable.Link(d1.files.fat, c) == 0;
    }
    if FatTable.SomeBeyond(d1.files.fat, d1.files.count) {
      var c :| 2 <= c < |d1.files.fat| && d1.files.count <= c && FatTable.Link(d1.files.fat, c) == 0;
      assert FatTable.Link(d0.files.fat, c) == 0;
    }
  }

  lemma TooShort(d: Disk, head: nat, size: nat)
    requires Sound(d) && !RoomFor(d, head, size)
    ensures |Contents(d, head)| < size
  {
    TimesMono(|Chain(d, head)|, Reach(d, head), d.size);
  }

  /**
   * ops->write of some bytes of the file.  Within the room all of them reach the store.  Otherwise the FAT decides: the
   * chain goes astray, the call fails and changes nothing, or fewer bytes are stored.  Nothing else on the volume changes.
   */
  method WriteOut(node: Node, vol: Volume, off: nat, data: seq<Byte>, ghost nr: Outcome, ghost reach: nat, ghost size: nat)
    returns (k: int, astray: bool)
    requires Loose(node, vol, nr, reach, size) && 0 < |data| && off + |data| <= size
    modifies vol`sectors, vol`disk, node`inode, node`size
    ensures astray <==> nr == Astray && off + |data| > Times(reach, vol.geo.bpc)
    ensures !astray ==> Loose(node, vol, nr, reach, size)
    ensures !astray ==> OnlyThis(old(vol.disk), old(node.inode), vol.disk, node.inode)
    ensures !astray ==> (k < 0 <==> nr == Failed) && (k < 0 ==> vol.disk == old(vol.disk) && node.inode == old(node.inode))
    ensures !astray && k >= 0 ==> Has(vol.disk, node.inode)
    ensures !astray && off + |data| > Times(reach, vol.geo.bpc) ==> k < |data|
    ensures off + |data| <= Times(reach, vol.geo.bpc) ==>
      k == |data| && Wrote(old(StoreOf(node, vol)), StoreOf(node, vol), off, data)
  {
    hide Written, Volume.Astray, FatTable.SomeBeyond, FatTable.NoneFree, OnlyThis, Wrote, Times, Wanted;
    hide Progress, FatRuns.WellFormed, FatFile.FileBytes, SameBeyond;
    ghost var d0, h0 := vol.disk, node.inode;
    WantedIff(off, |data|, reach, vol.geo.bpc);
    if FatTable.NoneFree(d0.files.fat) { NoneBeyond(d0); }
    if nr == Failed { FailedReach(d0, h0); } else { NotFailed(d0, h0); }
    OnlyThisRefl(d0, h0);
    var strays;
    k, strays := vol.Write(node, off, data);
    astray := strays != [];
    if !astray && k >= 0 { WrittenIs(d0, h0, size, vol.disk, node.inode, node.size, off, data, k); }
  }

  lemma NotFailed(d: Disk, head: nat)
    requires NoRoom(d, head) != Failed
    ensures head == 0 ==> !FatTable.NoneFree(d.files.fat)
  {
    if FatTable.NoneFree(d.files.fat) { NoneBeyond(d); }
  }

  lemma WrittenIs(d0: Disk, h0: nat, size0: nat, d1: Disk, h1: nat, size1: nat, off: nat, data: seq<Byte>, k: nat)
    requires Written(d0, h0, size0, d1, h1, size1, off, data, k) && 0 < |data|
    ensures k <= |data| && Sound(d1) && Has(d1, h1) && h1 != 0 && Reach(d1, h1) == Reach(d0, h0)
    ensures size1 == if k > 0 then Max(size0, off + k) else size0
    ensures OnlyThis(d0, h0, d1, h1) && (k < |data| <==> Wanted(off, |data|, d0.size) > Reach(d0, h0))
    ensures d1.size == d0.size && (h0 != 0 ==> h1 == h0)
    ensures Wrote(Contents(d0, h0), Contents(d1, h1), off, data[..k]) && (k == |data| ==> data[..k] == data)
    ensures NoRoom(d0, h0) != Failed ==> NoRoom(d1, h1) == NoRoom(d0, h0)
    ensures k < |data| ==> ToTheEnd(d1, h1, off, k) && Free(d1) == 0
    ensures FatTable.SomeBeyond(d1.files.fat, d1.files.count) <==> FatTable.SomeBeyond(d0.files.fat, d0.files.count)
  {
    hide Wrote, FatFile.FileBytes;
    BeyondSame(d0, d1);
    ZeroHasNone(d1);
  }

  // ---------------------------------------------------------------------------
  // Block boundaries
  // ---------------------------------------------------------------------------

  lemma WholeBlocks(q: nat, left: nat, b: nat)
    requires 0 < b <= left
    ensures 0 < left / b
    ensures Times(q, b) + b <= Times(q + left / b, b) <= Times(q, b) + left
  {
    TimesIs(q, b);
    TimesIs(q + left / b, b);
    BlockOf(left, b);
    TimesIs(left / b, b);
    assert (q + left / b) * b == q * b + (left / b) * b;
    BlocksApart(q, q + left / b, b) by { assert left / b > 0; }
  }

  /** The last block boundary at or before `x`. */
  function Floor(x: nat, b: nat): nat
    requires b > 0
  {
    x - x % b
  }

  lemma FloorIs(q: nat, left: nat, b: nat)
    requires b > 0
    ensures Floor(Times(q, b) + left, b) == Times(q + left / b, b)
  {
    TimesIs(q, b);
    TimesIs(q + left / b, b);
    BlockOf(left, b);
    TimesIs(left / b, b);
    assert (q + left / b) * b == q * b + (left / b) * b;
    DivModUnique(Times(q, b) + left, q + left / b, left % b, b);
  }

  /** A block boundary. */
  ghost predicate Aligned(x: nat, b: nat) { exists r: nat :: x == Times(r, b) }

  lemma AlignedMod(x: nat, b: nat)
    requires b > 0 && Aligned(x, b)
    ensures x % b == 0
  {
    var r: nat :| x == Times(r, b);
    TimesIs(r, b);
    DivModUnique(x, r, 0, b);
  }

  /** The first block boundary at or behind `x`. */
  function Ceil(x: nat, b: nat): nat
    requires b > 0
  {
    Floor(x + b - 1, b)
  }

  /** There is a whole block between `cur` and `end`, and the last one lies past the room. */
  predicate Blocked(cur: nat, end: nat, b: nat, room: nat)
    requires b > 0
  {
    Ceil(cur, b) < Floor(end, b) && Floor(end, b) > room
  }

  lemma TimesOrder(x: nat, y: nat, b: nat)
    requires b > 0
    ensures Times(x, b) < Times(y, b) <==> x < y
  {
    if x < y { BlocksApart(x, y, b); } else { TimesMono(y, x, b); }
  }

  lemma CeilIs(q: nat, at: nat, b: nat)
    requires 0 < b && at <= b
    ensures Ceil(Times(q, b) + at, b) == if at == 0 then Times(q, b) else Times(q + 1, b)
  {
    hide Floor, Times;
    FloorIs(q, at + b - 1, b);
    Quotient(at, b);
  }

  lemma Quotient(at: nat, b: nat)
    requires 0 < b && at <= b
    ensures (at + b - 1) / b == if at == 0 then 0 else 1
  {
    if at == 0 { DivModUnique(b - 1, 0, b - 1, b); } else { DivModUnique(at + b - 1, 1, at - 1, b); }
  }

  /** At a block boundary, whole blocks are blocked exactly when the last of them is past the room. */
  lemma BypassBlocked(q: nat, left: nat, b: nat, room: nat)
    requires 0 < b <= left
    ensures Blocked(Times(q, b), Times(q, b) + left, b, room) <==> Times(q + left / b, b) > room
    ensures Times(q + left / b, b) <= room ==> !Blocked(Times(q + left / b, b), Times(q, b) + left, b, room)
  {
    hide Floor, Times, Ceil;
    FloorIs(q, left, b);
    CeilIs(q, 0, b);
    WholeBlocks(q, left, b);
    TimesOrder(q, q + left / b, b);
  }

  /** A piece of one block changes nothing about the whole blocks to come. */
  lemma PieceBlocked(q: nat, at: nat, left: nat, m: nat, b: nat, room: nat)
    requires at < b && 0 < left && (at > 0 || left < b) && m == Min(b - at, left)
    ensures Blocked(Times(q, b) + at + m, Times(q, b) + at + left, b, room)
       <==> Blocked(Times(q, b) + at, Times(q, b) + at + left, b, room)
  {
    hide Floor, Times, Ceil;
    FloorIs(q, at + left, b);
    CeilIs(q, at, b);
    CeilIs(q, at + m, b);
    TimesOrder(q + 1, q + (at + left) / b, b);
    TimesOrder(q, q + (at + left) / b, b);
    if at + left < b { DivModUnique(at + left, 0, at + left, b); }
  }

  lemma NotBlocked(end: nat, b: nat, room: nat)
    requires b > 0
    ensures !Blocked(end, end, b, room)
  {
    hide Floor, Times, Ceil;
    BlockOf(end, b);
    FloorIs(end / b, end % b, b);
    CeilIs(end / b, end % b, b);
    DivModUnique(end % b, 0, end % b, b);
    TimesOrder(end / b + 1, end / b, b);
  }
}
