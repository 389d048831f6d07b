/** The VFS read, write, flush and close of a regular file through its page cache, over a FAT32 volume. */
module Vfs {
  import opened Arith
  import opened Bytes
  import opened Vnode
  import opened FatDisk
  import opened Fat32Volume
  import opened PageCache
  import opened VfsStore
  import opened EntrySize
  import FatFile
  import FatRuns
  import FatTable
  import Lfn
  import LfnCode

  /** ops->read of bytes that the file has and the store holds. */
  method FetchBytes(node: Node, vol: Volume, off: nat, n: nat) returns (got: seq<Byte>)
    requires vol.Valid() && !node.isDirectory && off + n <= node.size && 0 < n
    requires off + n <= |StoreOf(node, vol)|
    ensures got == StoreOf(node, vol)[off..off + n]
  {
    got := vol.Read(node, off, n);
  }

  /** The search loop that vfs_get_or_create_page and the others run over the list of pages. */
  method FindPage(node: Node, q: nat) returns (i: nat)
    ensures i <= |node.cachePages|
    ensures i < |node.cachePages| ==> node.cachePages[i].block == q
    ensures i == |node.cachePages| ==> !Cached(node.cachePages, q)
  {
    i := 0;
    while i < |node.cachePages|
      invariant i <= |node.cachePages|
      invariant forall j :: 0 <= j < i ==> node.cachePages[j].block != q
    {
      if node.cachePages[i].block == q { return; }
      i := i + 1;
    }
  }

  /** A buffer fresh from the pool: its bytes are whatever was there. */
  method PoolAlloc(size: nat) returns (buffer: seq<Byte>)
    ensures |buffer| == size
  {
    buffer :| |buffer| == size by { assert |seq(size, i requires 0 <= i < size => 0 as Byte)| == size; }
  }

  /** The input of vfs_get_or_create_page: a new page with the block as the store has it. */
  method ReadPage(node: Node, vol: Volume, q: nat, ghost flat: seq<Byte>) returns (page: Page)
    requires vol.Valid() && !node.isDirectory && node.blockSize == vol.geo.bpc
    requires node.size == |flat| && Times(q, vol.geo.bpc) < |flat|
    requires InStore(StoreOf(node, vol), flat, vol.geo.bpc, q)
    ensures page.block == q && PageOk(page, vol.geo.bpc, StoreOf(node, vol), flat)
  {
    var buffer := PoolAlloc(node.blockSize);
    var t := Times(q, node.blockSize);
    var n := if t + node.blockSize > node.size then node.size - t else node.blockSize;
    var got := FetchBytes(node, vol, t, n);
    buffer := got + buffer[|got|..];
    page := Page(q, buffer, n, false);
  }

  /** vfs_get_or_create_page with the flag that reads the block from the store on a miss. */
  method GetPage(node: Node, vol: Volume, q: nat, ghost flat: seq<Byte>) returns (i: nat)
    requires Stands(node, vol, flat) && Times(q, vol.geo.bpc) < |flat|
    modifies node`cachePages
    ensures Stands(node, vol, flat)
    ensures i < |node.cachePages| && node.cachePages[i].block == q
  {
    i := FindPage(node, q);
    if i < |node.cachePages| { return; }
    assert StoreOk(node.cachePages, vol.geo.bpc, StoreOf(node, vol), flat, q);
    var page := ReadPage(node, vol, q, flat);
    LoadPage(node.cachePages, vol.geo.bpc, StoreOf(node, vol), flat, page);
    node.cachePages := [page] + node.cachePages;
    i := 0;
  }

  // ---------------------------------------------------------------------------
  // Flush and close
  // ---------------------------------------------------------------------------

  ghost predicate PageFits(p: Page, b: nat, reach: nat) { Times(p.block, b) + p.size <= Times(reach, b) }

  /** One dirty page: within the room its block is in the store afterwards. */
  method FlushPage(node: Node, vol: Volume, i: nat, ghost flat: seq<Byte>, ghost nr: Outcome, ghost reach: nat,
                   ghost whole: bool)
    returns (k: int, astray: bool)
    requires Loose(node, vol, nr, reach, |flat|) && i < |node.cachePages| && (whole ==> Stands(node, vol, flat))
    modifies vol`sectors, vol`disk, node`inode, node`size, node`cachePages
    ensures astray <==> nr == Astray && !PageFits(old(node.cachePages)[i], vol.geo.bpc, reach)
    ensures !astray ==> Loose(node, vol, nr, reach, |flat|) && (k < 0 <==> nr == Failed)
    ensures !astray ==> OnlyThis(old(vol.disk), old(node.inode), vol.disk, node.inode)
    ensures !astray && k < 0 ==>
      vol.disk == old(vol.disk) && node.inode == old(node.inode) && node.cachePages == old(node.cachePages)
    ensures !astray && k >= 0 ==> Has(vol.disk, node.inode)
    ensures !astray && k >= 0 ==>
      node.cachePages == old(node.cachePages)[i := old(node.cachePages)[i].(dirty := false)]
    ensures !astray && whole && PageFits(old(node.cachePages)[i], vol.geo.bpc, reach) ==>
      Stands(node, vol, flat) && InStore(StoreOf(node, vol), flat, vol.geo.bpc, old(node.cachePages)[i].block)
  {
    hide NoRoom, OnlyThis, Wrote, Coherent, FatRuns.WellFormed, FatFile.FileBytes, InStore;
    var page := node.cachePages[i];
    assert Shaped(page, vol.geo.bpc, |flat|);
    ghost var store, pages := StoreOf(node, vol), node.cachePages;
    k, astray := WriteOut(node, vol, Times(page.block, node.blockSize), page.buffer[..page.size], nr, reach, |flat|);
    if !astray && k >= 0 {
      node.cachePages := node.cachePages[i := page.(dirty := false)];
      CleanedShape(pages, i, vol.geo.bpc, |flat|);
      if whole && PageFits(page, vol.geo.bpc, reach) {
        WriteBack(pages, vol.geo.bpc, store, StoreOf(node, vol), flat, i);
        LooseStands(node, vol, flat, nr, reach);
      }
    }
    if !astray && PageFits(page, vol.geo.bpc, reach) { FitsIsNotFailed(vol.disk, node.inode, nr, reach, vol.geo.bpc, page); }
  }

  lemma CleanedShape(pages: seq<Page>, i: nat, b: nat, size: nat)
    requires i < |pages| && Unique(pages) && Paged(pages, b, size)
    ensures var pages' := pages[i := pages[i].(dirty := false)]; Unique(pages') && Paged(pages', b, size)
  {
    var pages' := pages[i := pages[i].(dirty := false)];
    forall j | 0 <= j < |pages'| ensures Shaped(pages'[j], b, size) { assert Shaped(pages[j], b, size); }
  }

  lemma FitsIsNotFailed(d: Disk, head: nat, nr: Outcome, reach: nat, b: nat, page: Page)
    requires Sound(d) && NoRoom(d, head) == nr && Reach(d, head) == reach && PageFits(page, b, reach) && page.size > 0
    ensures nr != Failed
  {
    if nr == Failed { FailedReach(d, head); }
  }

  /** With no dirty page left the volume holds the file, so it has room for it. */
  lemma CleanFits(node: Node, vol: Volume, flat: seq<Byte>)
    requires Stands(node, vol, flat)
    ensures AllClean(node.cachePages) ==> flat <= StoreOf(node, vol) && RoomFor(vol.disk, node.inode, |flat|)
  {
    hide Coherent;
    if AllClean(node.cachePages) {
      CleanStoreHoldsFile(node.cachePages, vol.geo.bpc, StoreOf(node, vol), flat);
      TimesMono(|Chain(vol.disk, node.inode)|, Reach(vol.disk, node.inode), vol.disk.size);
    }
  }

  lemma AllFit(pages: seq<Page>, b: nat, size: nat, reach: nat, i: nat)
    requires Paged(pages, b, size) && i < |pages| && size <= Times(reach, b)
    ensures PageFits(pages[i], b, reach)
  {
    assert Shaped(pages[i], b, size);
  }

  /** How far vfs_flush has come: what holds of the file depends on whether there is room for it. */
  ghost predicate Flushing(node: Node, vol: Volume, flat: seq<Byte>, nr: Outcome, reach: nat, room: bool, i: nat, code: int)
    reads node, vol
  {
    && i <= |node.cachePages| && Loose(node, vol, nr, reach, |flat|)
    && (room || nr != Short ==> Stands(node, vol, flat))
    && (code == 0 ==> forall j :: 0 <= j < i ==> !node.cachePages[j].dirty)
    && (code != 0 ==> code == -1 && nr == Failed && !room)
  }

  /**
   * vfs_flush: where the volume has room for the file, no page is dirty afterwards and the volume alone holds it.  Where
   * it has not, the FAT decides: the flush takes the chain astray; or it reports an error and changes nothing; or it
   * reports success and leaves no page dirty, and the volume does not hold the file.
   */
  method Flush(node: Node, vol: Volume, ghost flat: seq<Byte>) returns (code: int, astray: bool, ghost o: Outcome)
    requires Stands(node, vol, flat)
    modifies vol`sectors, vol`disk, node`inode, node`size, node`cachePages
    ensures o == if old(RoomFor(vol.disk, node.inode, |flat|)) then Done else old(NoRoom(vol.disk, node.inode))
    ensures astray <==> o == Astray
    ensures o != Astray ==> (code == 0 <==> o != Failed) && Loose(node, vol, old(NoRoom(vol.disk, node.inode)),
                                                                   old(Reach(vol.disk, node.inode)), |flat|)
    ensures o != Astray ==> OnlyThis(old(vol.disk), old(node.inode), vol.disk, node.inode)
    ensures o != Astray ==> (flat <= StoreOf(node, vol) <==> o == Done)
    ensures o in {Done, Short} ==> AllClean(node.cachePages)
    ensures o in {Done, Failed} ==> Stands(node, vol, flat)
    ensures o == Failed ==> vol.disk == old(vol.disk) && node.cachePages == old(node.cachePages)
  {
    hide NoRoom, OnlyThis, Coherent, Loose, FatRuns.WellFormed, FatFile.FileBytes;
    ghost var d0, h0, nr, reach := vol.disk, node.inode, NoRoom(vol.disk, node.inode), Reach(vol.disk, node.inode);
    ghost var room := RoomFor(d0, h0, |flat|);
    o := if room then Done else nr;
    code, astray := 0, false;
    var i := 0;
    StandsLoose(node, vol, flat);
    OnlyThisRefl(d0, h0);
    while i < |node.cachePages|
      invariant Flushing(node, vol, flat, nr, reach, room, i, code) && !astray
      invariant OnlyThis(d0, h0, vol.disk, node.inode) && |node.cachePages| == |old(node.cachePages)|
      invariant nr == Failed ==> vol.disk == d0 && node.cachePages == old(node.cachePages) && node.inode == h0
    {
      if node.cachePages[i].dirty {
        var k;
        k, astray := FlushTurn(node, vol, i, flat, nr, reach, room, code, d0, h0);
        if astray { return; }
        if k < 0 { code := -1; }
      }
      i := i + 1;
    }
    Flushed(node, vol, flat, nr, reach, room, code, d0, h0);
  }

  method FlushTurn(node: Node, vol: Volume, i: nat, ghost flat: seq<Byte>, ghost nr: Outcome, ghost reach: nat,
                   ghost room: bool, ghost code: int, ghost d0: Disk, ghost h0: nat)
    returns (k: int, astray: bool)
    requires Flushing(node, vol, flat, nr, reach, room, i, code) && i < |node.cachePages| && node.cachePages[i].dirty
    requires OnlyThis(d0, h0, vol.disk, node.inode) && (room ==> |flat| <= Times(reach, vol.geo.bpc))
    modifies vol`sectors, vol`disk, node`inode, node`size, node`cachePages
    ensures astray ==> nr == Astray && !room
    ensures !astray ==> Flushing(node, vol, flat, nr, reach, room, i + 1, if k < 0 then -1 else code)
    ensures !astray ==> OnlyThis(d0, h0, vol.disk, node.inode) && |node.cachePages| == |old(node.cachePages)|
    ensures !astray && nr == Failed ==>
      vol.disk == old(vol.disk) && node.cachePages == old(node.cachePages) && node.inode == old(node.inode)
  {
    hide NoRoom, OnlyThis, Coherent, FatRuns.WellFormed, FatFile.FileBytes, Times;
    ghost var d, h := vol.disk, node.inode;
    if room { AllFit(node.cachePages, vol.geo.bpc, |flat|, reach, i); }
    NeverFits(vol.disk, node.inode, node.cachePages, vol.geo.bpc, |flat|, i);
    k, astray := FlushPage(node, vol, i, flat, nr, reach, room || nr != Short);
    if !astray {
      OnlyThisOn(d0, h0, d, h, vol.disk, node.inode);
      assert room || nr != Short ==> Stands(node, vol, flat);
      assert k < 0 ==> nr == Failed && !room;
      assert k >= 0 && code == 0 ==> forall j :: 0 <= j < i + 1 ==> !node.cachePages[j].dirty;
    }
  }

  /** Where no first cluster can be found, no page fits. */
  lemma NeverFits(d: Disk, head: nat, pages: seq<Page>, b: nat, size: nat, i: nat)
    requires Sound(d) && Paged(pages, b, size) && i < |pages| && b > 0
    ensures NoRoom(d, head) == Failed ==> Reach(d, head) == 0 && !PageFits(pages[i], b, 0)
  {
    assert Shaped(pages[i], b, size);
    if NoRoom(d, head) == Failed { FailedReach(d, head); }
  }

  /** The end of a flush. */
  lemma Flushed(node: Node, vol: Volume, flat: seq<Byte>, nr: Outcome, reach: nat, room: bool, code: int, d0: Disk, h0: nat)
    requires Flushing(node, vol, flat, nr, reach, room, |node.cachePages|, code) && nr != Done
    requires room <==> |flat| <= Times(reach, vol.geo.bpc)
    ensures room || nr != Astray
    ensures room || nr != Failed ==> AllClean(node.cachePages) && code == 0
    ensures !room && nr == Failed ==> code == -1
    ensures flat <= StoreOf(node, vol) <==> room
  {
    hide NoRoom, Coherent;
    if room || nr != Short { CleanFits(node, vol, flat); }
    if !room { TooShort(vol.disk, node.inode, |flat|); }
  }

  /** The directory that fat32_close looks the file up in. */
  ghost function Parent(node: Node, vol: Volume): nat
    reads node
  {
    if node.parentInode != 0 then node.parentInode else vol.root
  }

  /** The parent directory is on the volume, and is not the file itself. */
  ghost predicate Placed(node: Node, vol: Volume)
    reads node, vol
  {
    vol.geo.bpc % 32 == 0 && Has(vol.disk, Parent(node, vol)) && Parent(node, vol) != node.inode
  }

  /**
   * After a close, or a run that ends with one: the size is in the entry of the name in the parent directory, and every
   * file but these two is as it was.
   */
  ghost predicate Closed(d0: Disk, head0: nat, d: Disk, head: nat, parent: nat, short: seq<Byte>, size: nat) {
    && Sound(d0) && Sound(d) && (head0 == 0 || head0 == head)
    && (forall h :: h != head && h != parent ==> SameFile(d0, d, h))
    && Sized(Slots(Contents(d0, parent)), Slots(Contents(d, parent)), short, size)
  }

  lemma ClosedBy(d0: Disk, h0: nat, d1: Disk, head: nat, d2: Disk, parent: nat, short: seq<Byte>, size: nat)
    requires OnlyThis(d0, h0, d1, head) && Updated(d1, d2, parent, short, size) && Has(d0, parent) && parent != h0
    ensures head != parent && Closed(d0, h0, d2, head, parent, short, size) && SameFile(d1, d2, head)
  {
    hide Sized, Slots;
    assert SameFile(d0, d1, parent);
    forall h | h != head && h != parent ensures SameFile(d0, d2, h) { assert SameFile(d0, d1, h) && SameFile(d1, d2, h); }
  }

  /** fat32_close: the size goes into the file's entry in its directory. */
  method CloseFile(node: Node, vol: Volume) returns (code: int)
    requires vol.Valid() && Placed(node, vol)
    modifies vol`sectors, vol`disk
    ensures vol.Valid() && Updated(old(vol.disk), vol.disk, Parent(node, vol), Lfn.ShortOf(node.name), node.size)
  {
    var parent := if node.parentInode != 0 then node.parentInode else vol.root;
    var short := LfnCode.ToShort(node.name);
    code := UpdateEntrySize(vol, parent, short, node.size);
  }

  /**
   * vfs_close: flush, the driver's close, then give every page back.  The parent directory gets the size in any case; the
   * volume alone holds the file exactly when there was room for it.
   */
  method Close(node: Node, vol: Volume, ghost flat: seq<Byte>) returns (astray: bool, ghost o: Outcome)
    requires Stands(node, vol, flat) && Placed(node, vol)
    modifies vol`sectors, vol`disk, node`inode, node`size, node`cachePages
    ensures o == if old(RoomFor(vol.disk, node.inode, |flat|)) then Done else old(NoRoom(vol.disk, node.inode))
    ensures astray <==> o == Astray
    ensures o != Astray ==> vol.Valid() && node.size == |flat| && node.cachePages == []
    ensures o != Astray ==> (flat <= StoreOf(node, vol) <==> o == Done)
    ensures o != Astray ==>
      Closed(old(vol.disk), old(node.inode), vol.disk, node.inode, Parent(node, vol), Lfn.ShortOf(node.name), |flat|)
  {
    hide Closed, Updated, Lfn.ShortOf, OnlyThis, Coherent, FatTable.NoneFree, NoRoom, Paged;
    ghost var d0, h0 := vol.disk, node.inode;
    var code;
    code, astray, o := Flush(node, vol, flat);
    if astray { return; }
    ghost var d1 := vol.disk;
    StillPlaced(d0, h0, d1, node.inode, Parent(node, vol));
    var _ := CloseFile(node, vol);
    ClosedBy(d0, h0, d1, node.inode, vol.disk, Parent(node, vol), Lfn.ShortOf(node.name), |flat|);
    UpdatedStore(d1, vol.disk, node.inode, Parent(node, vol), Lfn.ShortOf(node.name), |flat|);
    node.cachePages := [];
  }

  lemma StillPlaced(d0: Disk, h0: nat, d: Disk, head: nat, parent: nat)
    requires OnlyThis(d0, h0, d, head) && Has(d0, parent) && parent != h0
    ensures Has(d, parent) && parent != head
  {
    assert parent != head ==> SameFile(d0, d, parent);
  }

  lemma SameStore(d0: Disk, d: Disk, head: nat)
    requires Sound(d0) && Sound(d) && SameFile(d0, d, head) && d.files == d0.files && d.size == d0.size
    ensures Contents(d, head) == Contents(d0, head)
  {
    hide FatFile.FileBytes;
    if !Has(d0, head) { assert Chain(d, head) == [] && Chain(d0, head) == []; }
  }

  lemma UpdatedStore(d0: Disk, d: Disk, head: nat, parent: nat, short: seq<Byte>, size: nat)
    requires Updated(d0, d, parent, short, size) && head != parent
    ensures Contents(d, head) == Contents(d0, head)
  {
    hide Sized;
    SameStore(d0, d, head);
  }

  // ---------------------------------------------------------------------------
  // Reading
  // ---------------------------------------------------------------------------

  /** A block past the room is dirty in the cache: it cannot be in the store. */
  lemma PastIsDirty(pages: seq<Page>, b: nat, store: seq<Byte>, flat: seq<Byte>, q: nat, room: nat)
    requires Coherent(pages, b, store, flat) && |store| <= room < Times(q + 1, b) <= |flat|
    ensures Cached(pages, q) && forall i :: 0 <= i < |pages| && pages[i].block == q ==> pages[i].dirty
  {
    assert StoreOk(pages, b, store, flat, q);
    forall i | 0 <= i < |pages| && pages[i].block == q ensures pages[i].dirty { assert GoodPage(pages, i, b, store, flat); }
  }

  lemma StoreWithin(d: Disk, head: nat)
    requires Sound(d)
    ensures |Contents(d, head)| <= Times(Reach(d, head), d.size)
  {
    TimesMono(|Chain(d, head)|, Reach(d, head), d.size);
  }

  /** Before a direct read of whole blocks: a dirty page is written to the store, and the page is dropped. */
  method DropBlock(node: Node, vol: Volume, q: nat, ghost flat: seq<Byte>, ghost nr: Outcome, ghost reach: nat,
                   ghost whole: bool)
    returns (astray: bool)
    requires Loose(node, vol, nr, reach, |flat|) && (whole ==> Stands(node, vol, flat))
    requires Times(q + 1, vol.geo.bpc) <= |flat|
    modifies vol`sectors, vol`disk, node`inode, node`size, node`cachePages
    ensures astray ==> nr == Astray && Times(q + 1, vol.geo.bpc) > Times(reach, vol.geo.bpc)
    ensures whole && nr == Astray && Times(q + 1, vol.geo.bpc) > Times(reach, vol.geo.bpc) ==> astray
    ensures !astray ==> Loose(node, vol, nr, reach, |flat|)
    ensures !astray ==> OnlyThis(old(vol.disk), old(node.inode), vol.disk, node.inode)
    ensures !astray && old(Has(vol.disk, node.inode)) ==> Has(vol.disk, node.inode)
    ensures !astray && whole && nr == Short && Times(q + 1, vol.geo.bpc) > Times(reach, vol.geo.bpc) ==>
      Has(vol.disk, node.inode)
    ensures !astray && whole && Times(q + 1, vol.geo.bpc) <= Times(reach, vol.geo.bpc) ==>
      && Stands(node, vol, flat)
      && forall o: nat :: Cached(node.cachePages, o) <==> Cached(old(node.cachePages), o) && o != q
  {
    hide NoRoom, OnlyThis, Coherent, FatRuns.WellFormed, FatFile.FileBytes, InStore, Times;
    astray := false;
    ghost var b, room, fits := vol.geo.bpc, Times(reach, vol.geo.bpc), Times(q + 1, vol.geo.bpc) <= Times(reach, vol.geo.bpc);
    OnlyThisRefl(vol.disk, node.inode);
    StoreWithin(vol.disk, node.inode);
    if whole && !fits { PastIsDirty(node.cachePages, b, StoreOf(node, vol), flat, q, room); }
    var i := FindPage(node, q);
    if i == |node.cachePages| { return; }
    WholePage(node.cachePages[i], b, |flat|, reach);
    ghost var was := node.cachePages;
    if node.cachePages[i].dirty {
      var k;
      k, astray := FlushPage(node, vol, i, flat, nr, reach, whole);
      if astray { return; }
    } else if whole {
      CleanInStore(was, b, StoreOf(node, vol), flat, i);
    }
    ghost var pages := node.cachePages;
    SamePlaces(was, pages, i, q);
    DroppedShape(pages, i, b, |flat|);
    if whole && fits { DropPage(pages, b, StoreOf(node, vol), flat, i); }
    node.cachePages := node.cachePages[..i] + node.cachePages[i + 1..];
  }

  lemma WholePage(p: Page, b: nat, size: nat, reach: nat)
    requires Shaped(p, b, size) && Times(p.block + 1, b) <= size
    ensures p.size == b && (PageFits(p, b, reach) <==> Times(p.block + 1, b) <= Times(reach, b))
  {
  }

  lemma CleanInStore(pages: seq<Page>, b: nat, store: seq<Byte>, flat: seq<Byte>, i: nat)
    requires Coherent(pages, b, store, flat) && i < |pages| && !pages[i].dirty
    ensures InStore(store, flat, b, pages[i].block)
  {
    assert GoodPage(pages, i, b, store, flat);
  }

  lemma SamePlaces(was: seq<Page>, pages: seq<Page>, i: nat, q: nat)
    requires i < |was| && was[i].block == q && Unique(was)
    requires pages == was || pages == was[i := was[i].(dirty := false)]
    ensures Unique(pages) && forall o: nat :: Cached(Without(pages, i), o) <==> Cached(was, o) && o != q
  {
    forall o: nat ensures Cached(Without(pages, i), o) <==> Cached(was, o) && o != q {
      SameBlocks(was, pages, o);
      WithoutCached(pages, i, o);
    }
  }

  lemma DroppedShape(pages: seq<Page>, i: nat, b: nat, size: nat)
    requires i < |pages| && Unique(pages) && Paged(pages, b, size)
    ensures Unique(Without(pages, i)) && Paged(Without(pages, i), b, size)
  {
    var rest := Without(pages, i);
    WithoutCached(pages, i, 0);
    forall j | 0 <= j < |rest| ensures Shaped(rest[j], b, size) {
      var k :| 0 <= k < |pages| && pages[k] == rest[j];
      assert Shaped(pages[k], b, size);
    }
  }

  /** How far the bypass of vfs_read has come in dropping pages, and whether they all fitted. */
  ghost predicate Dropping(node: Node, vol: Volume, flat: seq<Byte>, nr: Outcome, reach: nat, q: nat, i: nat)
    reads node, vol
  {
    && Loose(node, vol, nr, reach, |flat|)
    && (i == 0 || Times(q + i, vol.geo.bpc) <= Times(reach, vol.geo.bpc) ==>
          Stands(node, vol, flat) && forall o: nat :: q <= o < q + i ==> !Cached(node.cachePages, o))
    && (i > 0 && Times(q + i, vol.geo.bpc) > Times(reach, vol.geo.bpc) ==>
          nr != Astray && (nr == Short ==> Has(vol.disk, node.inode)))
  }

  method DropTurn(node: Node, vol: Volume, q: nat, i: nat, ghost flat: seq<Byte>, ghost nr: Outcome, ghost reach: nat,
                  ghost d0: Disk, ghost h0: nat)
    returns (astray: bool)
    requires Dropping(node, vol, flat, nr, reach, q, i) && Times(q + i + 1, vol.geo.bpc) <= |flat|
    requires OnlyThis(d0, h0, vol.disk, node.inode)
    modifies vol`sectors, vol`disk, node`inode, node`size, node`cachePages
    ensures astray ==> nr == Astray && Times(q + i + 1, vol.geo.bpc) > Times(reach, vol.geo.bpc)
    ensures !astray ==> Dropping(node, vol, flat, nr, reach, q, i + 1) && OnlyThis(d0, h0, vol.disk, node.inode)
  {
    hide NoRoom, OnlyThis, Coherent, Loose, Times, FatRuns.WellFormed, FatFile.FileBytes;
    ghost var d, h := vol.disk, node.inode;
    ghost var whole := i == 0 || Times(q + i, vol.geo.bpc) <= Times(reach, vol.geo.bpc);
    TimesMono(q + i, q + i + 1, vol.geo.bpc);
    astray := DropBlock(node, vol, q + i, flat, nr, reach, whole);
    if !astray { OnlyThisOn(d0, h0, d, h, vol.disk, node.inode); }
  }

  /**
   * The bypass of vfs_read: whole blocks straight from the store.  They are the file's exactly when they have room;
   * otherwise the driver, and with it the loop, comes to a point where it reads nothing any more.
   */
  method ReadDirect(node: Node, vol: Volume, q: nat, n: nat, ghost flat: seq<Byte>) returns (out: seq<Byte>, o: Outcome)
    requires Stands(node, vol, flat) && 0 < n && Times(q + n, vol.geo.bpc) <= |flat|
    modifies vol`sectors, vol`disk, node`inode, node`size, node`cachePages
    ensures o == if Times(q + n, vol.geo.bpc) <= old(Capacity(node, vol)) then Done else old(NoRoom(vol.disk, node.inode))
    ensures o == Done ==> Stands(node, vol, flat) && Times(q, vol.geo.bpc) <= Times(q + n, vol.geo.bpc)
    ensures o == Done ==> out == flat[Times(q, vol.geo.bpc)..Times(q + n, vol.geo.bpc)]
    ensures o == Done ==> OnlyThis(old(vol.disk), old(node.inode), vol.disk, node.inode)
    ensures o == Done ==> Reach(vol.disk, node.inode) == old(Reach(vol.disk, node.inode))
    ensures o == Done ==> NoRoom(vol.disk, node.inode) == old(NoRoom(vol.disk, node.inode))
  {
    hide NoRoom, OnlyThis, Coherent, Times, FatRuns.WellFormed, FatFile.FileBytes;
    ghost var d0, h0, nr, reach := vol.disk, node.inode, NoRoom(vol.disk, node.inode), Reach(vol.disk, node.inode);
    out := [];
    OnlyThisRefl(d0, h0);
    StandsLoose(node, vol, flat);
    for i := 0 to n
      invariant Dropping(node, vol, flat, nr, reach, q, i) && OnlyThis(d0, h0, vol.disk, node.inode)
    {
      TimesMono(q + i + 1, q + n, vol.geo.bpc);
      var astray := DropTurn(node, vol, q, i, flat, nr, reach, d0, h0);
      TimesMono(q + i + 1, q + n, vol.geo.bpc);
      if astray { return [], Astray; }
    }
    out, o := ReadThrough(node, vol, q, n, flat, nr, reach);
  }

  /** The driver's read behind the dropped pages, and the turn after it. */
  method ReadThrough(node: Node, vol: Volume, q: nat, n: nat, ghost flat: seq<Byte>, ghost nr: Outcome, ghost reach: nat)
    returns (out: seq<Byte>, o: Outcome)
    requires Dropping(node, vol, flat, nr, reach, q, n) && 0 < n && Times(q + n, vol.geo.bpc) <= |flat|
    ensures o == if Times(q + n, vol.geo.bpc) <= Times(reach, vol.geo.bpc) then Done else nr
    ensures o == Done ==> Times(q, vol.geo.bpc) <= Times(q + n, vol.geo.bpc)
    ensures o == Done ==> out == flat[Times(q, vol.geo.bpc)..Times(q + n, vol.geo.bpc)]
  {
    hide OnlyThis, Coherent, Times, FatRuns.WellFormed, FatFile.FileBytes, FatTable.SomeBeyond, FatTable.NoneFree;
    ghost var b, fits := vol.geo.bpc, Times(q + n, vol.geo.bpc) <= Times(reach, vol.geo.bpc);
    out := [];
    BlocksApart(q, q + n, vol.geo.bpc);
    StoreWithin(vol.disk, node.inode);
    ZeroHasNone(vol.disk);
    NothingTimes(vol.geo.bpc);
    if fits { UncachedRange(node.cachePages, b, StoreOf(node, vol), flat, q, q + n); }
    if nr == Failed { FailedReach(vol.disk, node.inode); }
    assert fits ==> |StoreOf(node, vol)| > 0;
    assert node.inode == 0 ==> !Has(vol.disk, node.inode) && StoreOf(node, vol) == [];
    if node.inode == 0 { return [], Failed; }
    var t, len := Times(q, node.blockSize), Times(q + n, node.blockSize) - Times(q, node.blockSize);
    out := vol.Read(node, t, len);
    o := Done;
    if |out| < len {
      var more := vol.Read(node, t + |out|, len - |out|);
      assert more == [];
      o := Short;
    }
  }

  lemma NothingTimes(b: nat)
    ensures Times(0, b) == 0
  {
  }

  /** The cached branch of vfs_read: what is left of one block, from its page. */
  method ReadCached(node: Node, vol: Volume, q: nat, at: nat, left: nat, ghost flat: seq<Byte>)
    returns (piece: seq<Byte>)
    requires Stands(node, vol, flat) && 0 < left && at < vol.geo.bpc
    requires Times(q, vol.geo.bpc) + at + left <= |flat|
    modifies node`cachePages
    ensures Stands(node, vol, flat) && |piece| == Min(vol.geo.bpc - at, left)
    ensures piece == flat[Times(q, vol.geo.bpc) + at..Times(q, vol.geo.bpc) + at + |piece|]
  {
    var i := GetPage(node, vol, q, flat);
    assert GoodPage(node.cachePages, i, vol.geo.bpc, StoreOf(node, vol), flat);
    var page := node.cachePages[i];
    var m := Min(page.size - at, left);
    PageSlice(page, vol.geo.bpc, StoreOf(node, vol), flat, at, m);
    piece := page.buffer[at..at + m];
  }

  /** One turn of the loop of vfs_read: whole blocks directly, or the rest of one block through its page. */
  method ReadStep(node: Node, vol: Volume, cur: nat, left: nat, ghost flat: seq<Byte>) returns (piece: seq<Byte>, o: Outcome)
    requires Stands(node, vol, flat) && 0 < left && cur + left <= |flat| && vol.geo.bpc > 0
    modifies vol`sectors, vol`disk, node`inode, node`size, node`cachePages
    ensures o != Done ==>
      o == old(NoRoom(vol.disk, node.inode)) && Blocked(cur, cur + left, vol.geo.bpc, old(Capacity(node, vol)))
    ensures o == Done ==> Stands(node, vol, flat) && 0 < |piece| <= left && piece == flat[cur..cur + |piece|]
    ensures o == Done ==> (Blocked(cur + |piece|, cur + left, vol.geo.bpc, old(Capacity(node, vol)))
                      <==> Blocked(cur, cur + left, vol.geo.bpc, old(Capacity(node, vol))))
    ensures o == Done ==> OnlyThis(old(vol.disk), old(node.inode), vol.disk, node.inode)
    ensures o == Done ==> Reach(vol.disk, node.inode) == old(Reach(vol.disk, node.inode))
    ensures o == Done ==> NoRoom(vol.disk, node.inode) == old(NoRoom(vol.disk, node.inode))
  {
    hide NoRoom, OnlyThis, Coherent, Times, Blocked, FatRuns.WellFormed, FatFile.FileBytes;
    OnlyThisRefl(vol.disk, node.inode);
    var q, at := cur / node.blockSize, cur % node.blockSize;
    BlockOf(cur, node.blockSize);
    ghost var room := Capacity(node, vol);
    if at == 0 && left >= node.blockSize {
      WholeBlocks(q, left, node.blockSize);
      BypassBlocked(q, left, node.blockSize, room);
      piece, o := ReadDirect(node, vol, q, left / node.blockSize, flat);
    } else {
      o := Done;
      piece := ReadCached(node, vol, q, at, left, flat);
      PieceBlocked(q, at, left, |piece|, node.blockSize, room);
    }
  }

  /** How many of the bytes asked for the file has. */
  function Within(off: nat, n: nat, size: nat): nat { if off >= size then 0 else Min(n, size - off) }

  /**
   * vfs_read: exactly the slice of the flat file, cut at its end, whatever is cached, dirty or bypassed.  It returns
   * exactly when no whole block of the slice lies past the room of the volume.
   */
  method Read(node: Node, vol: Volume, off: nat, size: nat, ghost flat: seq<Byte>) returns (out: seq<Byte>, o: Outcome)
    requires Stands(node, vol, flat) && vol.geo.bpc > 0
    modifies vol`sectors, vol`disk, node`inode, node`size, node`cachePages
    ensures o == if Blocked(off, off + Within(off, size, |flat|), vol.geo.bpc, old(Capacity(node, vol)))
                 then old(NoRoom(vol.disk, node.inode)) else Done
    ensures o == Done ==> Stands(node, vol, flat)
    ensures o == Done ==> out == if off >= |flat| then [] else flat[off..off + Within(off, size, |flat|)]
    ensures o == Done ==> OnlyThis(old(vol.disk), old(node.inode), vol.disk, node.inode)
    ensures o == Done ==> Reach(vol.disk, node.inode) == old(Reach(vol.disk, node.inode))
    ensures o == Done ==> NoRoom(vol.disk, node.inode) == old(NoRoom(vol.disk, node.inode))
  {
    hide NoRoom, OnlyThis, Coherent, Times, Blocked, FatRuns.WellFormed, FatFile.FileBytes;
    OnlyThisRefl(vol.disk, node.inode);
    ghost var d0, h0, nr, room, reach := vol.disk, node.inode, NoRoom(vol.disk, node.inode), Capacity(node, vol),
                                         Reach(vol.disk, node.inode);
    out, o := [], Done;
    NotBlocked(off, vol.geo.bpc, room);
    if size == 0 || off >= node.size { return; }
    var n := if off + size > node.size then node.size - off else size;
    while |out| < n
      invariant Stands(node, vol, flat) && |out| <= n && o == Done && out == flat[off..off + |out|]
      invariant OnlyThis(d0, h0, vol.disk, node.inode) && Reach(vol.disk, node.inode) == reach
      invariant NoRoom(vol.disk, node.inode) == nr && Capacity(node, vol) == room
      invariant Blocked(off + |out|, off + n, vol.geo.bpc, room) <==> Blocked(off, off + n, vol.geo.bpc, room)
      decreases n - |out|
    {
      ghost var d, h := vol.disk, node.inode;
      var piece;
      piece, o := ReadStep(node, vol, off + |out|, n - |out|, flat);
      if o != Done { return; }
      OnlyThisOn(d0, h0, d, h, vol.disk, node.inode);
      out := out + piece;
    }
    NotBlocked(off + n, vol.geo.bpc, room);
  }

  // ---------------------------------------------------------------------------
  // Writing
  // ---------------------------------------------------------------------------

  /** A page that is not filled from the store, put in front of the list. */
  method NewPage(node: Node, q: nat) returns (i: nat)
    requires !Cached(node.cachePages, q)
    modifies node`cachePages
    ensures i == 0 && |node.cachePages| > 0 && node.cachePages[1..] == old(node.cachePages)
    ensures node.cachePages[0].block == q && |node.cachePages[0].buffer| == node.blockSize
    ensures node.cachePages[0].size == 0
  {
    var buffer := PoolAlloc(node.blockSize);
    node.cachePages := [Page(q, buffer, 0, false)] + node.cachePages;
    i := 0;
  }

  /** The cached branch of vfs_write: bytes go into the page of their block and the page becomes dirty. */
  method PutBytes(node: Node, vol: Volume, q: nat, at: nat, piece: seq<Byte>, orig: nat, ghost flat: seq<Byte>)
    requires Stands(node, vol, flat) && 0 < |piece| && at + |piece| <= vol.geo.bpc
    requires Times(q, vol.geo.bpc) + at <= |flat|
    requires orig <= |flat| && (Times(q, vol.geo.bpc) >= orig ==> Times(q, vol.geo.bpc) == |flat| && at == 0)
    modifies node`size, node`cachePages
    ensures Stands(node, vol, Splice(flat, Times(q, vol.geo.bpc) + at, piece))
  {
    var b := node.blockSize;
    var t := Times(q, b);
    var i: nat;
    if t < orig {
      i := GetPage(node, vol, q, flat);
      assert GoodPage(node.cachePages, i, b, StoreOf(node, vol), flat);
      PutPage(node.cachePages, b, StoreOf(node, vol), flat, i, at, piece);
    } else {
      NotCachedAtEnd(node.cachePages, b, StoreOf(node, vol), flat, q);
      ghost var pages := node.cachePages;
      i := NewPage(node, q);
      TailPage(pages, b, StoreOf(node, vol), flat, node.cachePages, piece);
    }
    node.cachePages := node.cachePages[i := Overwritten(node.cachePages[i], at, piece)];
    if t + at + |piece| > node.size { node.size := t + at + |piece|; }
  }

  lemma NotCachedAtEnd(pages: seq<Page>, b: nat, store: seq<Byte>, flat: seq<Byte>, q: nat)
    requires Coherent(pages, b, store, flat) && |flat| <= Times(q, b)
    ensures !Cached(pages, q)
  {
    forall i | 0 <= i < |pages| ensures pages[i].block != q {
      assert GoodPage(pages, i, b, store, flat);
    }
  }

  lemma TailPage(pages: seq<Page>, b: nat, store: seq<Byte>, flat: seq<Byte>, pages': seq<Page>, piece: seq<Byte>)
    requires Coherent(pages, b, store, flat) && |pages'| > 0 && pages'[1..] == pages
    requires Times(pages'[0].block, b) == |flat| && |pages'[0].buffer| == b && pages'[0].size == 0
    requires 0 < |piece| <= b
    ensures Coherent(pages'[0 := Overwritten(pages'[0], 0, piece)], b, store, Splice(flat, |flat|, piece))
  {
    var p := Overwritten(pages'[0], 0, piece);
    NewTail(pages, b, store, flat, p);
    assert pages'[0 := p] == [p] + pages;
    assert p.buffer[..p.size] == piece;
    assert flat + piece == Splice(flat, |flat|, piece);
  }

  /** The pages of blocks `q` to `r` are dropped, dirty or not. */
  method DropRange(node: Node, q: nat, n: nat)
    requires Unique(node.cachePages)
    modifies node`cachePages
    ensures Unique(node.cachePages)
    ensures forall i :: 0 <= i < |node.cachePages| ==>
      node.cachePages[i] in old(node.cachePages) && !(q <= node.cachePages[i].block < q + n)
    ensures forall o: nat :: (o < q || q + n <= o) && Cached(old(node.cachePages), o) ==> Cached(node.cachePages, o)
  {
    for k := 0 to n
      invariant Unique(node.cachePages)
      invariant forall i :: 0 <= i < |node.cachePages| ==> node.cachePages[i] in old(node.cachePages)
      invariant forall i :: 0 <= i < |node.cachePages| ==> !(q <= node.cachePages[i].block < q + k)
      invariant forall o: nat :: (o < q || q + n <= o) && Cached(old(node.cachePages), o) ==> Cached(node.cachePages, o)
    {
      Invalidate(node, q + k);
    }
  }

  /** vfs_invalidate_cache_page */
  method Invalidate(node: Node, q: nat)
    requires Unique(node.cachePages)
    modifies node`cachePages
    ensures Unique(node.cachePages)
    ensures forall i :: 0 <= i < |node.cachePages| ==>
      node.cachePages[i] in old(node.cachePages) && node.cachePages[i].block != q
    ensures forall o: nat :: o != q && Cached(old(node.cachePages), o) ==> Cached(node.cachePages, o)
  {
    var i := FindPage(node, q);
    if i < |node.cachePages| {
      forall o: nat ensures Cached(Without(node.cachePages, i), o) <==> Cached(node.cachePages, o) && o != q {
        WithoutCached(node.cachePages, i, o);
      }
      WithoutCached(node.cachePages, i, q);
      ghost var rest := Without(node.cachePages, i);
      assert forall j :: 0 <= j < |rest| && rest[j].block == q ==> Cached(rest, q);
      node.cachePages := node.cachePages[..i] + node.cachePages[i + 1..];
    }
  }

  /**
   * The bypass of vfs_write: pages of whole blocks are dropped, the blocks go straight to the store.  With room for them
   * all are stored; otherwise the driver, and with it the loop, comes to a point where it stores nothing any more.
   */
  method WriteDirect(node: Node, vol: Volume, q: nat, n: nat, d: seq<Byte>, ghost flat: seq<Byte>) returns (o: Outcome)
    requires Stands(node, vol, flat) && 0 < n && Times(q, vol.geo.bpc) <= |flat|
    requires Times(q, vol.geo.bpc) + |d| == Times(q + n, vol.geo.bpc)
    modifies vol`sectors, vol`disk, node`inode, node`size, node`cachePages
    ensures o == if Times(q + n, vol.geo.bpc) <= old(Capacity(node, vol)) then Done else old(NoRoom(vol.disk, node.inode))
    ensures o == Done ==> Stands(node, vol, Splice(flat, Times(q, vol.geo.bpc), d))
    ensures o == Done ==> OnlyThis(old(vol.disk), old(node.inode), vol.disk, node.inode)
    ensures o == Done ==> Reach(vol.disk, node.inode) == old(Reach(vol.disk, node.inode))
    ensures o == Done ==> NoRoom(vol.disk, node.inode) == old(NoRoom(vol.disk, node.inode))
  {
    hide Written, Coherent, Wrote, Splice, OnlyThis, FatTable.SomeBeyond, FatTable.NoneFree, Progress, Wanted, ToTheEnd;
    hide Volume.Astray, FatTable.Strays, FatTable.Strung, FatFile.FileBytes, FatRuns.WellFormed, SameBeyond, Times;
    ghost var pages, store, d0, h0, size0 := node.cachePages, StoreOf(node, vol), vol.disk, node.inode, node.size;
    StandsLoose(node, vol, flat);
    BlocksApart(q, q + n, vol.geo.bpc);
    WantedIff(Times(q, vol.geo.bpc), |d|, Reach(d0, h0), vol.geo.bpc);
    if FatTable.NoneFree(d0.files.fat) { NoneBeyond(d0); }
    if NoRoom(d0, h0) == Failed { FailedReach(d0, h0); NothingTimes(vol.geo.bpc); }
    DropRange(node, q, n);
    var t := Times(q, node.blockSize);
    var k, strays := vol.Write(node, t, d);
    if strays != [] { return Astray; }
    if k < 0 { return Failed; }
    WrittenIs(d0, h0, size0, vol.disk, node.inode, node.size, t, d, k);
    if k < |d| {
      ghost var d1, h1, size1 := vol.disk, node.inode, node.size;
      WantedIff(t + k, |d| - k, Reach(d1, h1), vol.geo.bpc);
      var again;
      again, strays := vol.Write(node, t + k, d[k..]);
      WrittenIs(d1, h1, size1, vol.disk, node.inode, node.size, t + k, d[k..], again);
      StuckThere(d1, vol.disk, node.inode, t, k, again);
      assert again == 0;
      return Short;
    }
    o := Done;
    assert d[..k] == d;
    BypassWrite(pages, vol.geo.bpc, store, StoreOf(node, vol), flat, node.cachePages, q, q + n, d);
    SplicedSize(flat, t, d);
  }

  /** At the end of a file that has all clusters there are, nothing more is stored. */
  lemma StuckThere(d1: Disk, d2: Disk, head: nat, t: nat, k: nat, again: nat)
    requires Sound(d1) && Sound(d2) && Has(d1, head) && Has(d2, head) && d1.size == d2.size
    requires Reach(d1, head) == Reach(d2, head) && Free(d1) == 0 && Free(d2) == 0
    requires ToTheEnd(d1, head, t, k) && ToTheEnd(d2, head, t + k, again)
    ensures again == 0
  {
    assert |Chain(d1, head)| == |Chain(d2, head)|;
  }

  lemma SplicedSize(flat: seq<Byte>, off: nat, d: seq<Byte>)
    requires off <= |flat|
    ensures |Splice(flat, off, d)| == Max(|flat|, off + |d|)
  {
  }

  lemma SpliceNothing(flat: seq<Byte>, t: nat)
    requires t <= |flat|
    ensures Splice(flat, t, []) == flat
  {
  }

  /** All whole blocks of `data`, from block `q` on. */
  method WriteBlocks(node: Node, vol: Volume, q: nat, data: seq<Byte>, ghost flat: seq<Byte>) returns (m: nat, o: Outcome)
    requires Stands(node, vol, flat) && 0 < vol.geo.bpc <= |data| && Times(q, vol.geo.bpc) <= |flat|
    modifies vol`sectors, vol`disk, node`inode, node`size, node`cachePages
    ensures o != Done ==> o == old(NoRoom(vol.disk, node.inode))
    ensures o == Done ==> 0 < m <= |data| && Stands(node, vol, Splice(flat, Times(q, vol.geo.bpc), data[..m]))
    ensures o == Done ==> Aligned(Times(q, vol.geo.bpc) + m, vol.geo.bpc)
    ensures var t := Times(q, vol.geo.bpc);
      && (o != Done <==> Blocked(t, t + |data|, vol.geo.bpc, old(Capacity(node, vol))))
      && (o == Done ==> !Blocked(t + m, t + |data|, vol.geo.bpc, old(Capacity(node, vol))))
    ensures o == Done ==> OnlyThis(old(vol.disk), old(node.inode), vol.disk, node.inode)
    ensures o == Done ==> Reach(vol.disk, node.inode) == old(Reach(vol.disk, node.inode))
    ensures o == Done ==> NoRoom(vol.disk, node.inode) == old(NoRoom(vol.disk, node.inode))
  {
    hide OnlyThis, Coherent, NoRoom, Splice, Blocked, Times, FatRuns.WellFormed, FatFile.FileBytes, FatFile.Area;
    WholeBlocks(q, |data|, node.blockSize);
    BypassBlocked(q, |data|, node.blockSize, Capacity(node, vol));
    var n := |data| / node.blockSize;
    m := Times(q + n, node.blockSize) - Times(q, node.blockSize);
    o := WriteDirect(node, vol, q, n, data[..m], flat);
  }

  /** One turn of the loop of vfs_write: whole blocks directly, or into one block through its page. */
  method WriteStep(node: Node, vol: Volume, cur: nat, data: seq<Byte>, orig: nat, ghost flat: seq<Byte>)
    returns (m: nat, o: Outcome)
    requires Stands(node, vol, flat) && 0 < |data| && cur <= |flat| && vol.geo.bpc > 0
    requires orig <= |flat| && (|flat| == orig || |flat| == cur) && (cur > orig ==> Aligned(cur, vol.geo.bpc))
    modifies vol`sectors, vol`disk, node`inode, node`size, node`cachePages
    ensures o != Done ==>
      o == old(NoRoom(vol.disk, node.inode)) && Blocked(cur, cur + |data|, vol.geo.bpc, old(Capacity(node, vol)))
    ensures o == Done ==> 0 < m <= |data| && Stands(node, vol, Splice(flat, cur, data[..m]))
    ensures o == Done && m < |data| ==> Aligned(cur + m, vol.geo.bpc)
    ensures o == Done ==> (Blocked(cur + m, cur + |data|, vol.geo.bpc, old(Capacity(node, vol)))
                      <==> Blocked(cur, cur + |data|, vol.geo.bpc, old(Capacity(node, vol))))
    ensures o == Done ==> OnlyThis(old(vol.disk), old(node.inode), vol.disk, node.inode)
    ensures o == Done ==> Reach(vol.disk, node.inode) == old(Reach(vol.disk, node.inode))
    ensures o == Done ==> NoRoom(vol.disk, node.inode) == old(NoRoom(vol.disk, node.inode))
  {
    hide OnlyThis, Coherent, NoRoom, Splice, Blocked, Times, FatRuns.WellFormed, FatFile.FileBytes, FatFile.Area;
    var q, at := cur / node.blockSize, cur % node.blockSize;
    BlockOf(cur, node.blockSize);
    if cur > orig { AlignedMod(cur, node.blockSize); }
    ghost var room := Capacity(node, vol);
    if at == 0 && |data| >= node.blockSize {
      m, o := WriteBlocks(node, vol, q, data, flat);
    } else {
      o := Done;
      OnlyThisRefl(vol.disk, node.inode);
      m := WriteInto(node, vol, q, at, data, orig, flat);
      PieceBlocked(q, at, |data|, m, node.blockSize, room);
    }
  }

  /** What fits of `data` into block `q` behind position `at`. */
  method WriteInto(node: Node, vol: Volume, q: nat, at: nat, data: seq<Byte>, orig: nat, ghost flat: seq<Byte>)
    returns (m: nat)
    requires Stands(node, vol, flat) && 0 < |data| && at < vol.geo.bpc
    requires Times(q, vol.geo.bpc) + at <= |flat|
    requires orig <= |flat| && (Times(q, vol.geo.bpc) >= orig ==> Times(q, vol.geo.bpc) == |flat| && at == 0)
    modifies node`size, node`cachePages
    ensures m == Min(vol.geo.bpc - at, |data|) && Stands(node, vol, Splice(flat, Times(q, vol.geo.bpc) + at, data[..m]))
    ensures m < |data| ==> Aligned(Times(q, vol.geo.bpc) + at + m, vol.geo.bpc)
  {
    m := Min(node.blockSize - at, |data|);
    PutBytes(node, vol, q, at, data[..m], orig, flat);
    assert m < |data| ==> Times(q, vol.geo.bpc) + at + m == Times(q + 1, vol.geo.bpc);
  }

  /** How far vfs_write has come: `n` bytes of `data` are in the file, and it stands at a block boundary. */
  ghost predicate Writing(node: Node, vol: Volume, off: nat, data: seq<Byte>, flat: seq<Byte>, n: nat,
                          d0: Disk, h0: nat, reach: nat)
    reads node, vol
  {
    && n <= |data| && off <= |flat| && vol.geo.bpc > 0
    && Stands(node, vol, Splice(flat, off, data[..n]))
    && Reach(vol.disk, node.inode) == reach && OnlyThis(d0, h0, vol.disk, node.inode)
    && NoRoom(vol.disk, node.inode) == NoRoom(d0, h0)
    && (0 < n < |data| ==> Aligned(off + n, vol.geo.bpc))
    && (Blocked(off + n, off + |data|, vol.geo.bpc, Times(reach, vol.disk.size))
        <==> Blocked(off, off + |data|, vol.geo.bpc, Times(reach, vol.disk.size)))
  }

  method WriteTurn(node: Node, vol: Volume, off: nat, data: seq<Byte>, n: nat, orig: nat, ghost flat: seq<Byte>,
                   ghost d0: Disk, ghost h0: nat, ghost reach: nat)
    returns (total: nat, o: Outcome)
    requires Writing(node, vol, off, data, flat, n, d0, h0, reach) && n < |data| && orig == |flat|
    modifies vol`sectors, vol`disk, node`inode, node`size, node`cachePages
    ensures o == Done ==> n < total && Writing(node, vol, off, data, flat, total, d0, h0, reach)
    ensures o != Done ==> o == NoRoom(d0, h0) && Blocked(off, off + |data|, vol.geo.bpc, Times(reach, vol.geo.bpc))
  {
    hide OnlyThis, Coherent, NoRoom, Splice, Blocked, Times, FatRuns.WellFormed, FatFile.FileBytes, FatFile.Area;
    ghost var d, h, was := vol.disk, node.inode, Splice(flat, off, data[..n]);
    SplicedSize(flat, off, data[..n]);
    var m;
    m, o := WriteStep(node, vol, off + n, data[n..], orig, was);
    if o == Done {
      OnlyThisOn(d0, h0, d, h, vol.disk, node.inode);
      SpliceMore(flat, off, data, n, m);
    }
    total := n + m;
  }

  /**
   * vfs_write, starting at or before the end of the file: it takes all bytes exactly when no whole block of them lies
   * past the room of the volume.  Then the flat file becomes the splice, whatever is cached, dirty or bypassed, and no
   * other file on the volume changes.
   */
  method Write(node: Node, vol: Volume, off: nat, data: seq<Byte>, ghost flat: seq<Byte>) returns (o: Outcome)
    requires Stands(node, vol, flat) && off <= |flat| && vol.geo.bpc > 0
    modifies vol`sectors, vol`disk, node`inode, node`size, node`cachePages
    ensures o == if Blocked(off, off + |data|, vol.geo.bpc, old(Capacity(node, vol)))
                 then old(NoRoom(vol.disk, node.inode)) else Done
    ensures o == Done ==> Stands(node, vol, Splice(flat, off, data))
    ensures o == Done ==> OnlyThis(old(vol.disk), old(node.inode), vol.disk, node.inode)
    ensures o == Done ==> Reach(vol.disk, node.inode) == old(Reach(vol.disk, node.inode))
    ensures o == Done ==> NoRoom(vol.disk, node.inode) == old(NoRoom(vol.disk, node.inode))
  {
    hide OnlyThis, Coherent, NoRoom, Splice, Blocked, FatRuns.WellFormed, FatFile.FileBytes, FatFile.Area;
    OnlyThisRefl(vol.disk, node.inode);
    var orig := node.size;
    ghost var d0, h0, reach := vol.disk, node.inode, Reach(vol.disk, node.inode);
    var n := 0;
    o := Done;
    assert data[..0] == [] && vol.disk.size == vol.geo.bpc;
    SpliceNothing(flat, off);
    while n < |data|
      invariant o == Done && Writing(node, vol, off, data, flat, n, d0, h0, reach)
    {
      n, o := WriteTurn(node, vol, off, data, n, orig, flat, d0, h0, reach);
      if o != Done { return; }
    }
    NotBlocked(off + n, vol.geo.bpc, Times(reach, vol.disk.size));
    assert data[..n] == data && n == |data| && vol.disk.size == vol.geo.bpc;
  }

  lemma SpliceMore(flat: seq<Byte>, off: nat, data: seq<Byte>, n: nat, m: nat)
    requires off <= |flat| && n + m <= |data|
    ensures Splice(Splice(flat, off, data[..n]), off + n, data[n..][..m]) == Splice(flat, off, data[..n + m])
  {
  }

  /**
   * A file that fills the volume, one byte written behind its end, and a flush: every call reports success, and the
   * byte is not on the volume.
   */
  method LosesLast(node: Node, vol: Volume, x: Byte, ghost flat: seq<Byte>) returns (o: Outcome, code: int)
    requires Stands(node, vol, flat) && |flat| == Capacity(node, vol) && vol.geo.bpc > 1
    requires NoRoom(vol.disk, node.inode) == Short
    modifies vol`sectors, vol`disk, node`inode, node`size, node`cachePages
    ensures o == Done && code == 0 && vol.Valid() && AllClean(node.cachePages) && !(flat + [x] <= StoreOf(node, vol))
  {
    hide Coherent, NoRoom, OnlyThis, Blocked;
    PieceBlocked(Reach(vol.disk, node.inode), 0, 1, 1, vol.geo.bpc, |flat|);
    NotBlocked(|flat| + 1, vol.geo.bpc, |flat|);
    o := Write(node, vol, node.size, [x], flat);
    assert Splice(flat, |flat|, [x]) == flat + [x];
    var astray;
    ghost var end;
    code, astray, end := Flush(node, vol, flat + [x]);
  }

  // ---------------------------------------------------------------------------
  // Whole runs
  // ---------------------------------------------------------------------------

  datatype Op = ReadOp(off: nat, n: nat) | WriteOp(off: nat, data: seq<Byte>) | FlushOp

  /** What one operation does to a flat file, and what it returns. */
  function FlatStep(flat: seq<Byte>, op: Op): (r: (seq<Byte>, seq<Byte>))
    requires op.WriteOp? ==> op.off <= |flat|
  {
    match op
    case ReadOp(off, n) => (flat, if off >= |flat| then [] else flat[off..off + Within(off, n, |flat|)])
    case WriteOp(off, data) => (Splice(flat, off, data), [])
    case FlushOp => (flat, [])
  }

  /** Every write of the run starts at or before the end of the file. */
  ghost predicate Legal(flat: seq<Byte>, ops: seq<Op>)
    decreases |ops|
  {
    ops != [] ==> (ops[0].WriteOp? ==> ops[0].off <= |flat|) && Legal(FlatStep(flat, ops[0]).0, ops[1..])
  }

  /** Whether an operation on a file of `size` bytes gets by with `room` bytes for the file. */
  predicate GetsBy(size: nat, op: Op, b: nat, room: nat)
    requires b > 0
  {
    match op
    case ReadOp(off, n) => !Blocked(off, off + Within(off, n, size), b, room)
    case WriteOp(off, data) => !Blocked(off, off + |data|, b, room)
    case FlushOp => size <= room
  }

  /** The operations of a run before the first that does not get by. */
  ghost function Progresses(flat: seq<Byte>, ops: seq<Op>, b: nat, room: nat): (k: nat)
    requires Legal(flat, ops) && b > 0
    ensures k <= |ops|
    decreases |ops|
  {
    if ops == [] || !GetsBy(|flat|, ops[0], b, room) then 0
    else 1 + Progresses(FlatStep(flat, ops[0]).0, ops[1..], b, room)
  }

  /** The flat file after the first `k` operations, and their results in order. */
  ghost function FlatRun(flat: seq<Byte>, ops: seq<Op>, k: nat): (r: (seq<Byte>, seq<seq<Byte>>))
    requires Legal(flat, ops) && k <= |ops|
    decreases |ops|
  {
    if k == 0 then (flat, [])
    else
      var (next, out) := FlatStep(flat, ops[0]);
      var (last, outs) := FlatRun(next, ops[1..], k - 1);
      (last, [out] + outs)
  }

  /** One operation of a run, on the cached file. */
  method Perform(node: Node, vol: Volume, op: Op, ghost flat: seq<Byte>) returns (out: seq<Byte>, ghost o: Outcome)
    requires Stands(node, vol, flat) && (op.WriteOp? ==> op.off <= |flat|) && vol.geo.bpc > 0
    modifies vol`sectors, vol`disk, node`inode, node`size, node`cachePages
    ensures o == if GetsBy(|flat|, op, vol.geo.bpc, old(Capacity(node, vol))) then Done
                 else old(NoRoom(vol.disk, node.inode))
    ensures o == Done ==> Stands(node, vol, FlatStep(flat, op).0) && out == FlatStep(flat, op).1
    ensures o == Done ==> OnlyThis(old(vol.disk), old(node.inode), vol.disk, node.inode)
    ensures o == Done ==> Reach(vol.disk, node.inode) == old(Reach(vol.disk, node.inode))
    ensures o == Done ==> NoRoom(vol.disk, node.inode) == old(NoRoom(vol.disk, node.inode))
  {
    hide NoRoom, Coherent, OnlyThis, Blocked, Splice, FatRuns.WellFormed, FatFile.FileBytes;
    out := [];
    assert vol.disk.size == vol.geo.bpc;
    match op
    case ReadOp(off, n) => out, o := Read(node, vol, off, n, flat);
    case WriteOp(off, data) => o := Write(node, vol, off, data, flat);
    case FlushOp =>
      var code, astray;
      code, astray, o := Flush(node, vol, flat);
  }

  /**
   * Any run of reads, writes and flushes, then a close; `room` is what the clusters of the file and the free ones hold.
   * The run gets exactly as far as the first operation that does not get by with the room, and up to there every read
   * returns what it would return on the flat file.  If it gets to its end, the close puts the size into the file's
   * directory entry, leaves every other file as it was, and the volume alone holds the file exactly when there is room.
   */
  method Session(node: Node, vol: Volume, ops: seq<Op>, room: nat, ghost flat: seq<Byte>)
    returns (outs: seq<seq<Byte>>, done: nat, ghost o: Outcome)
    requires Stands(node, vol, flat) && Legal(flat, ops) && Placed(node, vol)
    requires room == Capacity(node, vol) && vol.geo.bpc > 0
    modifies vol`sectors, vol`disk, node`inode, node`size, node`cachePages
    ensures done == Progresses(flat, ops, vol.geo.bpc, room) && outs == FlatRun(flat, ops, done).1
    ensures done < |ops| ==> o == old(NoRoom(vol.disk, node.inode))
    ensures done == |ops| ==>
      o == if |FlatRun(flat, ops, done).0| <= room then Done else old(NoRoom(vol.disk, node.inode))
    ensures done == |ops| && o != Astray ==>
      var last := FlatRun(flat, ops, done).0;
      && vol.Valid() && node.cachePages == [] && node.size == |last| && (last <= StoreOf(node, vol) <==> o == Done)
      && Closed(old(vol.disk), old(node.inode), vol.disk, node.inode, Parent(node, vol), Lfn.ShortOf(node.name), |last|)
    decreases |ops|
  {
    hide Closed, OnlyThis, Lfn.ShortOf, Coherent, NoRoom, GetsBy, FlatStep, FatRuns.WellFormed, FatFile.FileBytes;
    outs, done := [], 0;
    if ops == [] {
      var astray;
      astray, o := Close(node, vol, flat);
      return;
    }
    var more := GetsBy(node.size, ops[0], node.blockSize, room);
    var out;
    out, o := Perform(node, vol, ops[0], flat);
    if !more { return; }
    ghost var d, h := vol.disk, node.inode;
    StillPlaced(old(vol.disk), old(node.inode), d, h, Parent(node, vol));
    outs, done, o := Session(node, vol, ops[1..], room, FlatStep(flat, ops[0]).0);
    if done == |ops| - 1 && o != Astray {
      ClosedAfter(old(vol.disk), old(node.inode), d, h, vol.disk, node.inode, Parent(node, vol), Lfn.ShortOf(node.name),
                  |FlatRun(flat, ops, done + 1).0|);
    }
    outs, done := [out] + outs, done + 1;
  }

  lemma ClosedAfter(d0: Disk, h0: nat, d1: Disk, h1: nat, d2: Disk, h2: nat, parent: nat, short: seq<Byte>, size: nat)
    requires OnlyThis(d0, h0, d1, h1) && Closed(d1, h1, d2, h2, parent, short, size) && Has(d0, parent) && parent != h0
    ensures Closed(d0, h0, d2, h2, parent, short, size)
  {
    hide Sized, Slots;
    ZeroHasNone(d0);
    StillPlaced(d0, h0, d1, h1, parent);
    assert SameFile(d0, d1, parent);
    forall h | h != h2 && h != parent ensures SameFile(d0, d2, h) {
      if Has(d0, h) { assert SameFile(d0, d1, h) && SameFile(d1, d2, h); }
    }
  }
}
