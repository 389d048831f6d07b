/** When the cached pages of a node and the bytes in its store together stand for one flat file. */
module PageCache {
  import opened Arith
  import opened Bytes
  import opened Vnode
  import opened FatDisk

  /** How many bytes of the file fall into block `q`. */
  ghost function BlockLen(flat: seq<Byte>, b: nat, q: nat): nat
    requires Times(q, b) <= |flat|
  {
    Min(b, |flat| - Times(q, b))
  }

  /** The store holds block `q` of the file. */
  ghost predicate InStore(store: seq<Byte>, flat: seq<Byte>, b: nat, q: nat) {
    && Times(q, b) <= |flat|
    && var t, n := Times(q, b), BlockLen(flat, b, q);
       t + n <= |store| && store[t..t + n] == flat[t..t + n]
  }

  /** A page holds its whole block of the file, and a clean one is also in the store. */
  ghost predicate PageOk(p: Page, b: nat, store: seq<Byte>, flat: seq<Byte>) {
    && |p.buffer| == b
    && Times(p.block, b) < |flat|
    && p.size == BlockLen(flat, b, p.block)
    && p.buffer[..p.size] == flat[Times(p.block, b)..Times(p.block, b) + p.size]
    && (!p.dirty ==> InStore(store, flat, b, p.block))
  }

  ghost predicate Cached(pages: seq<Page>, q: nat) {
    exists i :: 0 <= i < |pages| && pages[i].block == q
  }

  ghost predicate GoodPage(pages: seq<Page>, i: nat, b: nat, store: seq<Byte>, flat: seq<Byte>) {
    i < |pages| ==> PageOk(pages[i], b, store, flat)
  }

  /** A block without a page is in the store. */
  ghost predicate StoreOk(pages: seq<Page>, b: nat, store: seq<Byte>, flat: seq<Byte>, q: nat) {
    Times(q, b) < |flat| && !Cached(pages, q) ==> InStore(store, flat, b, q)
  }

  ghost predicate Unique(pages: seq<Page>) {
    forall i, j :: 0 <= i < j < |pages| ==> pages[i].block != pages[j].block
  }

  ghost predicate Coherent(pages: seq<Page>, b: nat, store: seq<Byte>, flat: seq<Byte>) {
    && b > 0
    && Unique(pages)
    && (forall i :: GoodPage(pages, i, b, store, flat))
    && (forall q :: StoreOk(pages, b, store, flat, q))
  }

  /** Pages and store stand for at most one file. */
  lemma FlatIsUnique(pages: seq<Page>, b: nat, store: seq<Byte>, f: seq<Byte>, g: seq<Byte>)
    requires Coherent(pages, b, store, f) && Coherent(pages, b, store, g) && |f| == |g|
    ensures f == g
  {
    forall p | 0 <= p < |f| ensures f[p] == g[p] {
      BlockOf(p, b);
      BlockIsUnique(pages, b, store, f, g, p / b);
      var t, n := Times(p / b, b), BlockLen(f, b, p / b);
      assert f[p] == f[t..t + n][p - t] && g[p] == g[t..t + n][p - t];
    }
  }

  lemma BlockIsUnique(pages: seq<Page>, b: nat, store: seq<Byte>, f: seq<Byte>, g: seq<Byte>, q: nat)
    requires Coherent(pages, b, store, f) && Coherent(pages, b, store, g) && |f| == |g| && Times(q, b) < |f|
    ensures f[Times(q, b)..Times(q, b) + BlockLen(f, b, q)] == g[Times(q, b)..Times(q, b) + BlockLen(f, b, q)]
  {
    if Cached(pages, q) {
      var i :| 0 <= i < |pages| && pages[i].block == q;
      assert GoodPage(pages, i, b, store, f) && GoodPage(pages, i, b, store, g);
    } else {
      assert StoreOk(pages, b, store, f, q) && StoreOk(pages, b, store, g, q);
    }
  }

  lemma BlockOf(p: nat, b: nat)
    requires b > 0
    ensures Times(p / b, b) + p % b == p
  {
    TimesIs(p / b, b);
  }

  // ---------------------------------------------------------------------------
  // Single pages
  // ---------------------------------------------------------------------------

  /** Putting a clean copy of an uncached block in front of the list. */
  lemma LoadPage(pages: seq<Page>, b: nat, store: seq<Byte>, flat: seq<Byte>, p: Page)
    requires Coherent(pages, b, store, flat) && PageOk(p, b, store, flat) && !Cached(pages, p.block)
    ensures Coherent([p] + pages, b, store, flat)
  {
    var pages' := [p] + pages;
    assert forall i :: 0 < i < |pages'| ==> pages'[i] == pages[i - 1];
    forall i: nat ensures GoodPage(pages', i, b, store, flat) {
      if i > 0 { assert GoodPage(pages, i - 1, b, store, flat); }
    }
    forall q: nat ensures StoreOk(pages', b, store, flat, q) {
      assert StoreOk(pages, b, store, flat, q);
      if Cached(pages, q) {
        var i :| 0 <= i < |pages| && pages[i].block == q;
        assert pages'[i + 1].block == q;
      }
    }
  }

  /** A piece of a page is the piece of the file at the same place. */
  lemma PageSlice(p: Page, b: nat, store: seq<Byte>, flat: seq<Byte>, at: nat, m: nat)
    requires PageOk(p, b, store, flat) && at + m <= p.size
    ensures p.size <= b && Times(p.block, b) + at + m <= |flat|
    ensures p.buffer[at..at + m] == flat[Times(p.block, b) + at..Times(p.block, b) + at + m]
  {
    var t := Times(p.block, b);
    SliceOfSlice(p.buffer, 0, p.size, at, at + m);
    SliceOfSlice(flat, t, t + p.size, at, at + m);
    assert p.buffer[0..p.size] == p.buffer[..p.size];
  }

  function Without(pages: seq<Page>, i: nat): seq<Page>
    requires i < |pages|
  {
    pages[..i] + pages[i + 1..]
  }

  /** Dropping a page changes what is cached only for its own block. */
  lemma WithoutCached(pages: seq<Page>, i: nat, q: nat)
    requires i < |pages| && Unique(pages)
    ensures Cached(Without(pages, i), q) <==> Cached(pages, q) && q != pages[i].block
    ensures Unique(Without(pages, i))
    ensures forall j :: 0 <= j < |Without(pages, i)| ==> Without(pages, i)[j] in pages
  {
    var pages' := Without(pages, i);
    assert forall j :: 0 <= j < |pages'| ==> pages'[j] == pages[if j < i then j else j + 1];
    if Cached(pages, q) && q != pages[i].block {
      var j :| 0 <= j < |pages| && pages[j].block == q;
      assert pages'[if j < i then j else j - 1].block == q;
    }
  }

  /** A block that is also in the store can lose its page. */
  lemma DropPage(pages: seq<Page>, b: nat, store: seq<Byte>, flat: seq<Byte>, i: nat)
    requires Coherent(pages, b, store, flat) && i < |pages| && InStore(store, flat, b, pages[i].block)
    ensures Coherent(Without(pages, i), b, store, flat)
  {
    var pages' := Without(pages, i);
    forall q: nat ensures StoreOk(pages', b, store, flat, q) {
      assert StoreOk(pages, b, store, flat, q);
      WithoutCached(pages, i, q);
    }
    WithoutCached(pages, i, 0);
    forall j: nat ensures GoodPage(pages', j, b, store, flat) {
      assert GoodPage(pages, if j < i then j else j + 1, b, store, flat);
    }
  }

  /** Blocks of a file do not overlap. */
  lemma BlocksApart(q: nat, r: nat, b: nat)
    requires q < r
    ensures Times(q, b) + b <= Times(r, b)
  {
    TimesMono(q + 1, r, b);
  }

  /** What the store keeps of a block when it is written to somewhere else. */
  lemma InStoreFrame(store: seq<Byte>, store': seq<Byte>, flat: seq<Byte>, b: nat, q: nat, off: nat, d: seq<Byte>)
    requires InStore(store, flat, b, q) && Wrote(store, store', off, d)
    requires Times(q, b) + b <= off || off + |d| <= Times(q, b)
    ensures InStore(store', flat, b, q)
  {
    var t, n := Times(q, b), BlockLen(flat, b, q);
    forall p | t <= p < t + n ensures store'[p] == flat[p] {
      WroteAt(store, store', off, d, p);
      assert store[p] == store[t..t + n][p - t] == flat[t..t + n][p - t];
    }
  }

  /** Writing a page's block of the file to the store puts that block there and disturbs no other. */
  lemma WriteBack(pages: seq<Page>, b: nat, store: seq<Byte>, store': seq<Byte>, flat: seq<Byte>, i: nat)
    requires Coherent(pages, b, store, flat) && i < |pages|
    requires pages[i].size <= |pages[i].buffer|
    requires Wrote(store, store', Times(pages[i].block, b), pages[i].buffer[..pages[i].size])
    ensures InStore(store', flat, b, pages[i].block)
    ensures Coherent(pages[i := pages[i].(dirty := false)], b, store', flat)
  {
    hide Wrote, InStore, Times;
    var p := pages[i];
    assert GoodPage(pages, i, b, store, flat);
    WroteBlock(store, store', flat, b, p);
    var pages' := pages[i := p.(dirty := false)];
    forall j: nat ensures GoodPage(pages', j, b, store', flat) {
      assert GoodPage(pages, j, b, store, flat);
      if j < |pages| && j != i && !pages[j].dirty {
        assert pages[j].block != p.block;
        OtherBlock(store, store', flat, b, pages[j].block, p);
      }
    }
    forall q: nat ensures StoreOk(pages', b, store', flat, q) {
      assert StoreOk(pages, b, store, flat, q);
      SameBlocks(pages, pages', q);
      if Times(q, b) < |flat| && !Cached(pages, q) {
        assert q != p.block;
        OtherBlock(store, store', flat, b, q, p);
      }
    }
  }

  lemma WroteBlock(store: seq<Byte>, store': seq<Byte>, flat: seq<Byte>, b: nat, p: Page)
    requires PageOk(p, b, store, flat) && Wrote(store, store', Times(p.block, b), p.buffer[..p.size]) && b > 0
    ensures InStore(store', flat, b, p.block)
  {
  }

  lemma OtherBlock(store: seq<Byte>, store': seq<Byte>, flat: seq<Byte>, b: nat, q: nat, p: Page)
    requires q != p.block && p.size <= b == |p.buffer|
    requires InStore(store, flat, b, q)
    requires Wrote(store, store', Times(p.block, b), p.buffer[..p.size])
    ensures InStore(store', flat, b, q)
  {
    if q < p.block { BlocksApart(q, p.block, b); } else { BlocksApart(p.block, q, b); }
    InStoreFrame(store, store', flat, b, q, Times(p.block, b), p.buffer[..p.size]);
  }

  lemma SameBlocks(pages: seq<Page>, pages': seq<Page>, q: nat)
    requires |pages| == |pages'| && forall i :: 0 <= i < |pages| ==> pages'[i].block == pages[i].block
    ensures Cached(pages', q) <==> Cached(pages, q)
  {
    if Cached(pages, q) {
      var i :| 0 <= i < |pages| && pages[i].block == q;
      assert pages'[i].block == q;
    }
  }

  // ---------------------------------------------------------------------------
  // Changing the file
  // ---------------------------------------------------------------------------

  /** The file changes from `flat` to `flat'` inside blocks `q` to `r`, starting at or before its end. */
  ghost predicate Window(flat: seq<Byte>, flat': seq<Byte>, b: nat, q: nat, r: nat, off: nat, d: seq<Byte>) {
    && b > 0 && off <= |flat| && flat' == Splice(flat, off, d)
    && q < r && Times(q, b) <= off && off + |d| <= Times(r, b)
  }

  /** Blocks outside the window keep their length and their bytes. */
  lemma OutsideWindow(flat: seq<Byte>, flat': seq<Byte>, b: nat, q: nat, r: nat, off: nat, d: seq<Byte>, o: nat)
    requires Window(flat, flat', b, q, r, off, d) && (o < q || r <= o)
    requires Times(o, b) < |flat'|
    ensures Times(o, b) < |flat| && BlockLen(flat', b, o) == BlockLen(flat, b, o)
    ensures flat'[Times(o, b)..Times(o, b) + BlockLen(flat, b, o)] == flat[Times(o, b)..Times(o, b) + BlockLen(flat, b, o)]
  {
    if o < q { BlocksApart(o, q, b); } else { TimesMono(r, o, b); }
  }

  lemma InStoreOutside(store: seq<Byte>, flat: seq<Byte>, flat': seq<Byte>, b: nat, q: nat, r: nat, off: nat,
                       d: seq<Byte>, o: nat)
    requires Window(flat, flat', b, q, r, off, d) && (o < q || r <= o) && Times(o, b) < |flat'|
    requires InStore(store, flat, b, o)
    ensures InStore(store, flat', b, o)
  {
    OutsideWindow(flat, flat', b, q, r, off, d, o);
  }

  lemma PageOutside(p: Page, b: nat, store: seq<Byte>, flat: seq<Byte>, flat': seq<Byte>, q: nat, r: nat, off: nat,
                    d: seq<Byte>)
    requires Window(flat, flat', b, q, r, off, d) && (p.block < q || r <= p.block)
    requires PageOk(p, b, store, flat)
    ensures PageOk(p, b, store, flat')
  {
    OutsideWindow(flat, flat', b, q, r, off, d, p.block);
    if !p.dirty { InStoreOutside(store, flat, flat', b, q, r, off, d, p.block); }
  }

  /** What vfs_write makes of a page: the bytes copied in, the size raised, the dirty mark set. */
  function Overwritten(p: Page, at: nat, piece: seq<Byte>): Page
    requires at + |piece| <= |p.buffer|
  {
    p.(buffer := Splice(p.buffer, at, piece), size := Max(p.size, at + |piece|), dirty := true)
  }

  lemma OverwrittenOk(p: Page, b: nat, store: seq<Byte>, flat: seq<Byte>, at: nat, piece: seq<Byte>)
    requires PageOk(p, b, store, flat) && at + |piece| <= b && Times(p.block, b) + at <= |flat|
    ensures PageOk(Overwritten(p, at, piece), b, store, Splice(flat, Times(p.block, b) + at, piece))
  {
    hide Times;
    SplicedPage(p.buffer, p.size, flat, Times(p.block, b), at, piece);
  }

  /** Splicing a page and the file it copies at the same place keeps them equal. */
  lemma SplicedPage(buffer: seq<Byte>, size: nat, flat: seq<Byte>, t: nat, at: nat, piece: seq<Byte>)
    requires size <= |buffer| && t + size <= |flat| && buffer[..size] == flat[t..t + size]
    requires at + |piece| <= |buffer| && t + at <= |flat| && (size < at ==> t + size == |flat|)
    ensures var n := Max(size, at + |piece|);
      n <= |buffer| && t + n <= |Splice(flat, t + at, piece)|
      && Splice(buffer, at, piece)[..n] == Splice(flat, t + at, piece)[t..t + n]
  {
    var n, x, y := Max(size, at + |piece|), Splice(buffer, at, piece), Splice(flat, t + at, piece);
    forall k | 0 <= k < n ensures x[..n][k] == y[t..t + n][k] {
      if k < size { assert buffer[..size][k] == flat[t..t + size][k]; }
    }
  }

  /** A write into a cached block. */
  lemma PutPage(pages: seq<Page>, b: nat, store: seq<Byte>, flat: seq<Byte>, i: nat, at: nat, piece: seq<Byte>)
    requires Coherent(pages, b, store, flat) && i < |pages| && at + |piece| <= b == |pages[i].buffer|
    requires Times(pages[i].block, b) + at <= |flat|
    ensures Coherent(pages[i := Overwritten(pages[i], at, piece)], b, store,
                     Splice(flat, Times(pages[i].block, b) + at, piece))
  {
    var q, pages' := pages[i].block, pages[i := Overwritten(pages[i], at, piece)];
    var off := Times(q, b) + at;
    var flat' := Splice(flat, off, piece);
    assert Window(flat, flat', b, q, q + 1, off, piece);
    forall j: nat ensures GoodPage(pages', j, b, store, flat') {
      assert GoodPage(pages, j, b, store, flat);
      if j == i {
        OverwrittenOk(pages[i], b, store, flat, at, piece);
      } else if j < |pages| {
        assert pages[j].block != q;
        PageOutside(pages[j], b, store, flat, flat', q, q + 1, off, piece);
      }
    }
    forall o: nat ensures StoreOk(pages', b, store, flat', o) {
      assert StoreOk(pages, b, store, flat, o);
      SameBlocks(pages, pages', o);
      if Times(o, b) < |flat'| && !Cached(pages, o) {
        assert o != q;
        OutsideWindow(flat, flat', b, q, q + 1, off, piece, o);
        InStoreOutside(store, flat, flat', b, q, q + 1, off, piece, o);
      }
    }
  }

  /** A write that starts a new block exactly at the end of the file, into a page that was never read. */
  lemma NewTail(pages: seq<Page>, b: nat, store: seq<Byte>, flat: seq<Byte>, p: Page)
    requires Coherent(pages, b, store, flat) && Times(p.block, b) == |flat|
    requires p.dirty && 0 < p.size <= b == |p.buffer|
    ensures Coherent([p] + pages, b, store, flat + p.buffer[..p.size])
  {
    var q, piece, pages' := p.block, p.buffer[..p.size], [p] + pages;
    var flat' := flat + piece;
    assert flat' == Splice(flat, |flat|, piece);
    assert Window(flat, flat', b, q, q + 1, |flat|, piece);
    forall i: nat | i < |pages| ensures pages[i].block != q && PageOk(pages[i], b, store, flat') {
      assert GoodPage(pages, i, b, store, flat);
      PageOutside(pages[i], b, store, flat, flat', q, q + 1, |flat|, piece);
    }
    forall o: nat ensures StoreOk(pages, b, store, flat', o) || o == q {
      assert StoreOk(pages, b, store, flat, o);
      if o != q && Times(o, b) < |flat'| && !Cached(pages, o) {
        OutsideWindow(flat, flat', b, q, q + 1, |flat|, piece, o);
        InStoreOutside(store, flat, flat', b, q, q + 1, |flat|, piece, o);
      }
    }
    ConsCoherent(pages, b, store, flat', p);
  }

  lemma ConsCoherent(pages: seq<Page>, b: nat, store: seq<Byte>, flat: seq<Byte>, p: Page)
    requires b > 0 && Unique(pages) && PageOk(p, b, store, flat)
    requires forall i :: 0 <= i < |pages| ==> pages[i].block != p.block && PageOk(pages[i], b, store, flat)
    requires forall o :: StoreOk(pages, b, store, flat, o) || o == p.block
    ensures Coherent([p] + pages, b, store, flat)
  {
    var pages' := [p] + pages;
    forall i: nat ensures GoodPage(pages', i, b, store, flat) {
      if 0 < i < |pages'| { assert pages'[i] == pages[i - 1]; }
    }
    forall o: nat ensures StoreOk(pages', b, store, flat, o) {
      assert pages'[0].block == p.block;
      assert StoreOk(pages, b, store, flat, o) || o == p.block;
      if Cached(pages, o) {
        var i :| 0 <= i < |pages| && pages[i].block == o;
        assert pages'[i + 1].block == o;
      }
    }
  }

  /** A direct write of whole blocks `q` to `r`, whose pages were dropped before. */
  lemma BypassWrite(pages: seq<Page>, b: nat, store: seq<Byte>, store': seq<Byte>, flat: seq<Byte>,
                    pages': seq<Page>, q: nat, r: nat, d: seq<Byte>)
    requires Coherent(pages, b, store, flat) && q < r && Times(q, b) <= |flat| && |d| == Times(r, b) - Times(q, b)
    requires Wrote(store, store', Times(q, b), d)
    requires Unique(pages') && forall i :: 0 <= i < |pages'| ==> pages'[i] in pages && !(q <= pages'[i].block < r)
    requires forall o: nat :: (o < q || r <= o) && Cached(pages, o) ==> Cached(pages', o)
    ensures Coherent(pages', b, store', Splice(flat, Times(q, b), d))
  {
    var off, flat' := Times(q, b), Splice(flat, Times(q, b), d);
    assert Window(flat, flat', b, q, r, off, d);
    forall i: nat ensures GoodPage(pages', i, b, store', flat') {
      if i < |pages'| {
        assert pages'[i] in pages;
        var j :| 0 <= j < |pages| && pages[j] == pages'[i];
        assert GoodPage(pages, j, b, store, flat);
        BypassedPage(pages[j], b, store, store', flat, flat', q, r, d);
      }
    }
    forall o: nat ensures StoreOk(pages', b, store', flat', o) {
      assert StoreOk(pages, b, store, flat, o);
      if Times(o, b) < |flat'| && !Cached(pages', o) {
        if q <= o < r {
          InsideBypass(store, store', flat, b, q, r, d, o);
        } else {
          OutsideWindow(flat, flat', b, q, r, off, d, o);
          BypassedBlock(store, store', flat, flat', b, q, r, d, o);
        }
      }
    }
  }

  lemma BypassedBlock(store: seq<Byte>, store': seq<Byte>, flat: seq<Byte>, flat': seq<Byte>, b: nat, q: nat, r: nat,
                      d: seq<Byte>, o: nat)
    requires Window(flat, flat', b, q, r, Times(q, b), d) && Wrote(store, store', Times(q, b), d)
    requires InStore(store, flat, b, o) && (o < q || r <= o) && Times(o, b) < |flat'|
    ensures InStore(store', flat', b, o)
  {
    if o < q { BlocksApart(o, q, b); } else { TimesMono(r, o, b); }
    InStoreFrame(store, store', flat, b, o, Times(q, b), d);
    InStoreOutside(store', flat, flat', b, q, r, Times(q, b), d, o);
  }

  lemma BypassedPage(p: Page, b: nat, store: seq<Byte>, store': seq<Byte>, flat: seq<Byte>, flat': seq<Byte>,
                     q: nat, r: nat, d: seq<Byte>)
    requires Window(flat, flat', b, q, r, Times(q, b), d) && Wrote(store, store', Times(q, b), d)
    requires PageOk(p, b, store, flat) && (p.block < q || r <= p.block)
    ensures PageOk(p, b, store', flat')
  {
    PageOutside(p, b, store, flat, flat', q, r, Times(q, b), d);
    if !p.dirty { BypassedBlock(store, store', flat, flat', b, q, r, d, p.block); }
    PageMoved(p, b, store, store', flat');
  }

  lemma PageMoved(p: Page, b: nat, store: seq<Byte>, store': seq<Byte>, flat: seq<Byte>)
    requires PageOk(p, b, store, flat) && (p.dirty || InStore(store', flat, b, p.block))
    ensures PageOk(p, b, store', flat)
  {
  }

  lemma InsideBypass(store: seq<Byte>, store': seq<Byte>, flat: seq<Byte>, b: nat, q: nat, r: nat, d: seq<Byte>, o: nat)
    requires Times(q, b) <= |flat| && q <= o < r && |d| == Times(r, b) - Times(q, b)
    requires Wrote(store, store', Times(q, b), d)
    ensures InStore(store', Splice(flat, Times(q, b), d), b, o)
  {
    TimesMono(q, o, b);
    TimesMono(o + 1, r, b);
    WroteSlice(store, store', flat, Times(q, b), d, Times(o, b), b);
  }

  /** What was written reads the same from the store and from the spliced file. */
  lemma WroteSlice(store: seq<Byte>, store': seq<Byte>, flat: seq<Byte>, off: nat, d: seq<Byte>, t: nat, b: nat)
    requires off <= |flat| && off <= t && t + b <= off + |d| && Wrote(store, store', off, d)
    ensures t + b <= |Splice(flat, off, d)| && (b > 0 ==> t + b <= |store'|)
    ensures b > 0 ==> store'[t..t + b] == Splice(flat, off, d)[t..t + b]
  {
    var i := t - off;
    if b > 0 {
      SliceOfSlice(store', off, off + |d|, i, i + b);
      SliceOfSlice(Splice(flat, off, d), off, off + |d|, i, i + b);
      assert Splice(flat, off, d)[off..off + |d|] == d;
    }
  }

  // ---------------------------------------------------------------------------
  // Ranges of blocks
  // ---------------------------------------------------------------------------

  /** Whole blocks without pages are read from the store as they are in the file. */
  lemma {:induction false} UncachedRange(pages: seq<Page>, b: nat, store: seq<Byte>, flat: seq<Byte>, q: nat, r: nat)
    requires Coherent(pages, b, store, flat) && q <= r && Times(r, b) <= |flat|
    requires forall o: nat :: q <= o < r ==> !Cached(pages, o)
    ensures Times(q, b) <= Times(r, b) && (q < r ==> Times(r, b) <= |store|)
    ensures q < r ==> store[Times(q, b)..Times(r, b)] == flat[Times(q, b)..Times(r, b)]
    decreases r - q
  {
    TimesMono(q, r, b);
    if q < r {
      UncachedRange(pages, b, store, flat, q, r - 1);
      var s, t := Times(r - 1, b), Times(r, b);
      assert StoreOk(pages, b, store, flat, r - 1);
      TimesMono(q, r - 1, b);
      assert BlockLen(flat, b, r - 1) == b;
      if q < r - 1 {
        assert store[Times(q, b)..t] == store[Times(q, b)..s] + store[s..t];
        assert flat[Times(q, b)..t] == flat[Times(q, b)..s] + flat[s..t];
      }
    }
  }

  ghost predicate AllClean(pages: seq<Page>) {
    forall i :: 0 <= i < |pages| ==> !pages[i].dirty
  }

  /** With no dirty page the store alone holds the whole file. */
  lemma CleanStoreHoldsFile(pages: seq<Page>, b: nat, store: seq<Byte>, flat: seq<Byte>)
    requires Coherent(pages, b, store, flat) && AllClean(pages)
    ensures flat <= store
  {
    if flat != [] { CleanByte(pages, b, store, flat, |flat| - 1); }
    forall p | 0 <= p < |flat| ensures store[p] == flat[p] { CleanByte(pages, b, store, flat, p); }
  }

  lemma CleanByte(pages: seq<Page>, b: nat, store: seq<Byte>, flat: seq<Byte>, p: nat)
    requires Coherent(pages, b, store, flat) && AllClean(pages) && p < |flat|
    ensures p < |store| && store[p] == flat[p]
  {
    BlockOf(p, b);
    CleanBlock(pages, b, store, flat, p / b);
    var t, n := Times(p / b, b), BlockLen(flat, b, p / b);
    var x, y := store[t..t + n], flat[t..t + n];
    assert x[p - t] == store[p] && y[p - t] == flat[p];
  }

  lemma CleanBlock(pages: seq<Page>, b: nat, store: seq<Byte>, flat: seq<Byte>, q: nat)
    requires Coherent(pages, b, store, flat) && AllClean(pages) && Times(q, b) < |flat|
    ensures InStore(store, flat, b, q)
  {
    assert StoreOk(pages, b, store, flat, q);
    if Cached(pages, q) {
      var i :| 0 <= i < |pages| && pages[i].block == q;
      assert GoodPage(pages, i, b, store, flat);
    }
  }
}
