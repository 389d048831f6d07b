/** The physical page allocator: where its bitmap goes, what is free after start-up, and allocation. */
module Pmm {
  import Arith
  import opened Bitmap

  const PAGE: nat := 4096

  datatype Kind = FreeRam | LoaderData | Other

  datatype Region = Region(start: nat, size: nat, kind: Kind) {
    function End(): nat { start + size }

    /** Memory the boot loader used becomes free. */
    predicate Usable() { kind != Other }
  }

  // ---------------------------------------------------------------------------
  // Start-up
  // ---------------------------------------------------------------------------

  /** The highest address any region reaches. */
  function Highest(rs: seq<Region>): nat {
    if rs == [] then 0
    else
      var h := Highest(rs[..|rs| - 1]);
      if rs[|rs| - 1].End() > h then rs[|rs| - 1].End() else h
  }

  lemma {:induction false} HighestBounds(rs: seq<Region>, i: nat)
    requires i < |rs|
    ensures rs[i].End() <= Highest(rs)
  {
    if i < |rs| - 1 { HighestBounds(rs[..|rs| - 1], i); }
  }

  method FindHighest(rs: seq<Region>) returns (h: nat)
    ensures h == Highest(rs)
  {
    h := 0;
    for i := 0 to |rs|
      invariant h == Highest(rs[..i])
    {
      assert rs[..i + 1][..i] == rs[..i];
      if rs[i].End() > h { h := rs[i].End(); }
    }
    assert rs[..|rs|] == rs;
  }

  /** `size` bytes at `addr` lie in a usable region and off the kernel. */
  ghost predicate GoodPlace(rs: seq<Region>, kernel: nat, kernelEnd: nat, size: nat, addr: nat) {
    && (addr + size <= kernel || kernelEnd <= addr)
    && exists i :: 0 <= i < |rs| && rs[i].Usable() && rs[i].start <= addr && addr + size <= rs[i].End()
  }

  /** The address a region offers for the bitmap: its start, or the end of the kernel inside it. */
  function Offer(r: Region, kernel: nat, kernelEnd: nat, size: nat): nat {
    if r.start < kernelEnd && r.End() > kernel && r.End() >= kernelEnd + size then kernelEnd else r.start
  }

  predicate Offers(r: Region, kernel: nat, kernelEnd: nat, size: nat) {
    && r.Usable() && r.size >= size
    && (r.start >= kernelEnd || r.End() <= kernel || r.End() >= kernelEnd + size || r.start + size <= kernel)
  }

  /** Region `i` is the first that offers a place. */
  ghost predicate FirstOffer(rs: seq<Region>, kernel: nat, kernelEnd: nat, size: nat, i: nat) {
    && i < |rs| && Offers(rs[i], kernel, kernelEnd, size)
    && forall j :: 0 <= j < i ==> !Offers(rs[j], kernel, kernelEnd, size)
  }

  /**
   * Chooses where the bitmap goes: what the first region with a place offers.  0 stands for no place, so a first
   * place at address 0 is not used either.
   */
  method PlaceBitmap(rs: seq<Region>, kernel: nat, kernelEnd: nat, size: nat) returns (addr: nat)
    requires kernel <= kernelEnd
    ensures addr != 0 ==> GoodPlace(rs, kernel, kernelEnd, size, addr)
    ensures forall i: nat :: FirstOffer(rs, kernel, kernelEnd, size, i) ==> addr == Offer(rs[i], kernel, kernelEnd, size)
    ensures (forall i :: 0 <= i < |rs| ==> !Offers(rs[i], kernel, kernelEnd, size)) ==> addr == 0
  {
    addr := 0;
    for i := 0 to |rs|
      invariant forall j :: 0 <= j < i ==> !Offers(rs[j], kernel, kernelEnd, size)
    {
      var r := rs[i];
      if r.Usable() && r.size >= size {
        if !(r.start < kernelEnd && r.End() > kernel) {
          addr := r.start;
          return;
        } else if r.End() >= kernelEnd + size {
          addr := kernelEnd;
          return;
        } else if kernel >= r.start + size && kernel < r.End() {
          addr := r.start;
          return;
        }
      }
    }
  }

  function PagesUp(size: nat): nat { (size + PAGE - 1) / PAGE }

  /** Page `p` is freed for a region: as many pages as it has room for, from the page of its start on. */
  predicate InRegion(r: Region, p: nat) { r.start / PAGE <= p < r.start / PAGE + r.size / PAGE }

  /** Page `p` is set aside for `size` bytes at `addr`. */
  predicate SetAside(addr: nat, size: nat, p: nat) { addr / PAGE <= p < addr / PAGE + PagesUp(size) }

  /** The pages set aside run past a bitmap of `bits` bits, so that setting them writes outside it. */
  predicate Past(addr: nat, size: nat, bits: nat) { PagesUp(size) > 0 && addr / PAGE + PagesUp(size) > bits }

  ghost predicate InUsable(rs: seq<Region>, p: nat) {
    exists i :: 0 <= i < |rs| && rs[i].Usable() && InRegion(rs[i], p)
  }

  /** Byte `x` lies in a usable region. */
  ghost predicate UsableByte(rs: seq<Region>, x: nat) {
    exists i :: 0 <= i < |rs| && rs[i].Usable() && rs[i].start <= x < rs[i].End()
  }

  /** The bytes between the start of a region's first page and the region are usable too. */
  ghost predicate FrontUsable(rs: seq<Region>, i: nat) {
    i < |rs| && rs[i].Usable() && rs[i].size >= PAGE ==>
      forall x :: rs[i].start / PAGE * PAGE <= x < rs[i].start ==> UsableByte(rs, x)
  }

  ghost predicate FrontsUsable(rs: seq<Region>) { forall i :: FrontUsable(rs, i) }

  /**
   * Start and size of a region are divided separately, so the pages freed for regions consist of usable bytes exactly
   * when every region that does not start on a page boundary has usable bytes before it.
   */
  lemma PagesUsableIff(rs: seq<Region>)
    ensures FrontsUsable(rs) <==> forall x: nat :: InUsable(rs, x / PAGE) ==> UsableByte(rs, x)
  {
    hide InRegion;
    if FrontsUsable(rs) {
      forall x: nat | InUsable(rs, x / PAGE) ensures UsableByte(rs, x) {
        var i :| 0 <= i < |rs| && rs[i].Usable() && InRegion(rs[i], x / PAGE);
        FreedByte(rs[i], x);
        assert FrontUsable(rs, i);
      }
    }
    if forall x: nat :: InUsable(rs, x / PAGE) ==> UsableByte(rs, x) {
      forall i: nat ensures FrontUsable(rs, i) {
        if i < |rs| && rs[i].Usable() && rs[i].size >= PAGE {
          forall x | rs[i].start / PAGE * PAGE <= x < rs[i].start ensures UsableByte(rs, x) {
            FrontByte(rs[i], x);
            assert InUsable(rs, x / PAGE);
          }
        }
      }
    }
  }

  /** A byte of a freed page lies in the region or before it in its first page. */
  lemma FreedByte(r: Region, x: nat)
    requires InRegion(r, x / PAGE)
    ensures r.size >= PAGE && r.start / PAGE * PAGE <= x < r.End()
  {
  }

  lemma FrontByte(r: Region, x: nat)
    requires r.size >= PAGE && r.start / PAGE * PAGE <= x < r.start
    ensures InRegion(r, x / PAGE)
  {
  }

  /** For one region alone: all bytes of its freed pages lie in it exactly when it starts on a page boundary. */
  lemma RegionAloneIff(r: Region)
    requires r.Usable() && r.size >= PAGE
    ensures FrontsUsable([r]) <==> r.start % PAGE == 0
  {
    if r.start % PAGE != 0 {
      var x := r.start / PAGE * PAGE;
      assert x < r.start && !UsableByte([r], x);
      assert !FrontUsable([r], 0);
    }
  }

  /** A region of one page at 0x1800: page 1 is freed, and its first byte is in no usable region. */
  lemma OffBoundary()
    ensures var rs := [Region(0x1800, 0x1000, FreeRam)]; InUsable(rs, 1) && !UsableByte(rs, 0x1000) && !FrontsUsable(rs)
  {
    var r := Region(0x1800, 0x1000, FreeRam);
    assert InRegion([r][0], 1);
    RegionAloneIff(r);
  }

  lemma DivMono(a: nat, b: nat)
    requires a <= b
    ensures a / PAGE <= b / PAGE
  {
  }

  /** Setting aside whole pages for a range keeps every byte of it exactly when the range does not run over. */
  lemma SetAsideCovers(addr: nat, size: nat)
    requires size > 0
    ensures SetAside(addr, size, (addr + size - 1) / PAGE) <==> Covered(addr, size)
  {
  }

  ghost predicate Covered(addr: nat, size: nat) { addr % PAGE + size <= PAGE * PagesUp(size) }

  /** Only the last page of a range can be missed, and only when the range runs over. */
  lemma SetAsideButLast(addr: nat, size: nat, x: nat)
    requires addr <= x < addr + size
    ensures SetAside(addr, size, x / PAGE) || (!Covered(addr, size) && x / PAGE == (addr + size - 1) / PAGE)
  {
  }

  function BitmapBytes(total: nat): nat { if total % 8 != 0 then total / 8 + 1 else total / 8 }

  lemma BitmapHolds(total: nat)
    ensures total <= Arith.Times(BitmapBytes(total), 8)
  {
    Arith.TimesIs(BitmapBytes(total), 8);
  }

  class Allocator {
    const total: nat
    const bits: Words

    ghost predicate Valid()
      reads this, bits, bits.words
    {
      bits.Valid() && bits.width == 8 && total <= |bits.used|
    }

    /** Every page starts as used. */
    constructor (pages: nat)
      ensures Valid() && fresh(bits) && fresh(bits.words) && total == pages && |bits.used| == 8 * BitmapBytes(pages)
      ensures forall p :: 0 <= p < |bits.used| ==> bits.used[p]
    {
      total := pages;
      bits := new Words(8, BitmapBytes(pages), Arith.Pow2(8) - 1);
      new;
      BitmapHolds(pages);
      Arith.TimesIs(BitmapBytes(pages), 8);
      assert Arith.Pow2(8) >= 2;
    }

    /** Frees the pages of the usable regions. */
    method FreeRegions(rs: seq<Region>)
      requires Valid() && Highest(rs) / PAGE <= total
      requires forall p :: 0 <= p < |bits.used| ==> bits.used[p]
      modifies bits, bits.words
      ensures Valid() && |bits.used| == old(|bits.used|)
      ensures forall p :: 0 <= p < |bits.used| ==> (bits.used[p] <==> !InUsable(rs, p))
    {
      hide InUsable, InRegion;
      NoneUsable();
      for i := 0 to |rs|
        invariant Valid() && |bits.used| == old(|bits.used|)
        invariant forall p :: 0 <= p < |bits.used| ==> (bits.used[p] <==> !InUsable(rs[..i], p))
      {
        RegionFits(rs, i);
        if rs[i].Usable() { bits.SetAll(rs[i].start / PAGE, rs[i].size / PAGE, false); }
        forall p | 0 <= p < |bits.used| ensures bits.used[p] <==> !InUsable(rs[..i + 1], p) {
          OneMore(rs, i, p);
          InRegionIs(rs[i], p);
        }
      }
      assert rs[..|rs|] == rs;
    }

    /** Sets aside the pages of the kernel and of the bitmap. */
    method Reserve(rs: seq<Region>, kernel: nat, kernelSize: nat, bitmap: nat, bytes: nat)
      requires Valid() && !Past(kernel, kernelSize, |bits.used|) && !Past(bitmap, bytes, |bits.used|)
      requires forall p :: 0 <= p < |bits.used| ==> (bits.used[p] <==> !InUsable(rs, p))
      modifies bits, bits.words
      ensures Valid()
      ensures forall p :: 0 <= p < |bits.used| ==> (bits.used[p] <==> TakenAtStart(rs, kernel, kernelSize, bitmap, bytes, p))
    {
      hide InUsable;
      if PagesUp(kernelSize) > 0 { bits.SetAll(kernel / PAGE, PagesUp(kernelSize), true); }
      if PagesUp(bytes) > 0 { bits.SetAll(bitmap / PAGE, PagesUp(bytes), true); }
    }

    /** The lowest free page, marked as used; `page` is -1 when there is none. */
    method AllocPage() returns (addr: nat, ghost page: int)
      requires Valid()
      modifies bits, bits.words
      ensures Valid()
      ensures page == -1 ==> addr == 0 && bits.used == old(bits.used) && forall p :: 0 <= p < total ==> bits.used[p]
      ensures page != -1 ==> page >= 0 && Lowest(old(bits.used)[..total], page, 1)
      ensures page != -1 ==> addr == page * PAGE && bits.used == Marked(old(bits.used), page, 1, true)
    {
      var r := bits.FindFree(total);
      page, addr := r, 0;
      if r == -1 { return; }
      OnePage(bits.used, total, r);
      bits.SetAll(r, 1, true);
      addr := r * PAGE;
    }

    /** The lowest run of `n` free pages, marked as used; `page` is -1 when there is none. */
    method AllocPages(n: nat) returns (addr: nat, ghost page: int)
      requires Valid()
      modifies bits, bits.words
      ensures Valid()
      ensures n == 0 ==> page == -1
      ensures page == -1 ==> addr == 0 && bits.used == old(bits.used) && (n > 0 ==> NoRun(bits.used[..total], n))
      ensures page != -1 ==> page >= 0 && Lowest(old(bits.used)[..total], page, n)
      ensures page != -1 ==> addr == page * PAGE && bits.used == Marked(old(bits.used), page, n, true)
    {
      page, addr := -1, 0;
      if n == 0 { return; }
      if n == 1 {
        addr, page := AllocPage();
        if page == -1 { NoPage(bits.used, total); }
        return;
      }
      var r := bits.FindRun(total, n);
      page := r;
      if r == -1 { return; }
      bits.SetAll(r, n, true);
      addr := r * PAGE;
    }

    /** pmm_free_pages: nothing happens at address 0, off a page boundary, or past the end. */
    method FreePages(addr: nat, n: nat)
      requires Valid()
      modifies bits, bits.words
      ensures Valid()
      ensures addr != 0 && addr % PAGE == 0 && addr / PAGE + n <= total ==>
        bits.used == Marked(old(bits.used), addr / PAGE, n, false)
      ensures !(addr != 0 && addr % PAGE == 0 && addr / PAGE + n <= total) ==> bits.used == old(bits.used)
    {
      if addr % PAGE != 0 || addr == 0 { return; }
      var start := addr / PAGE;
      if start + n > total { return; }
      bits.SetAll(start, n, false);
    }
  }

  lemma OnePage(used: seq<bool>, total: nat, r: nat)
    requires r < total <= |used| && !used[r] && forall p :: 0 <= p < r ==> used[p]
    ensures Lowest(used[..total], r, 1)
  {
    forall u: nat | u < r ensures !FreeRun(used[..total], u, 1) { assert used[..total][u]; }
  }

  lemma NoPage(used: seq<bool>, total: nat)
    requires total <= |used| && forall p :: 0 <= p < total ==> used[p]
    ensures NoRun(used[..total], 1)
  {
    forall u: nat ensures !FreeRun(used[..total], u, 1) { assert u < total ==> used[..total][u]; }
  }

  /** The pages that are not for allocation. */
  ghost predicate TakenAtStart(rs: seq<Region>, kernel: nat, kernelSize: nat, bitmap: nat, bytes: nat, p: nat) {
    !InUsable(rs, p) || SetAside(kernel, kernelSize, p) || SetAside(bitmap, bytes, p)
  }

  /**
   * pmm_init: stops when there is no region or no place for the bitmap, and writes outside the bitmap exactly when the
   * pages of the kernel or of the bitmap run past it.  Otherwise the free pages are exactly those freed for usable
   * regions and not set aside for kernel or bitmap.
   */
  method Init(rs: seq<Region>, kernel: nat, kernelSize: nat)
    returns (pmm: Allocator?, bitmap: nat, bytes: nat, overruns: bool)
    ensures bytes == BitmapBytes(Highest(rs) / PAGE)
    ensures forall i: nat :: FirstOffer(rs, kernel, kernel + kernelSize, bytes, i) ==>
      bitmap == Offer(rs[i], kernel, kernel + kernelSize, bytes)
    ensures (forall i :: 0 <= i < |rs| ==> !Offers(rs[i], kernel, kernel + kernelSize, bytes)) ==> bitmap == 0
    ensures pmm == null <==> bitmap == 0 || overruns
    ensures overruns <==> bitmap != 0 && (Past(kernel, kernelSize, 8 * bytes) || Past(bitmap, bytes, 8 * bytes))
    ensures bitmap != 0 ==> GoodPlace(rs, kernel, kernel + kernelSize, bytes, bitmap)
    ensures pmm != null ==> fresh(pmm) && fresh(pmm.bits) && fresh(pmm.bits.words) && pmm.Valid()
    ensures pmm != null ==> pmm.total == Highest(rs) / PAGE && |pmm.bits.used| == 8 * bytes
    ensures pmm != null ==> forall p :: 0 <= p < |pmm.bits.used| ==>
      (pmm.bits.used[p] <==> TakenAtStart(rs, kernel, kernelSize, bitmap, bytes, p))
  {
    hide InUsable, SetAside, PagesUp, Offers, Offer, GoodPlace;
    pmm, bitmap, overruns := null, 0, false;
    var highest := FindHighest(rs);
    var total := highest / PAGE;
    bytes := BitmapBytes(total);
    if |rs| < 1 { return; }
    bitmap := PlaceBitmap(rs, kernel, kernel + kernelSize, bytes);
    if bitmap == 0 { return; }
    if Past(kernel, kernelSize, 8 * bytes) || Past(bitmap, bytes, 8 * bytes) { overruns := true; return; }
    var a := new Allocator(total);
    a.FreeRegions(rs);
    a.Reserve(rs, kernel, kernelSize, bitmap, bytes);
    pmm := a;
  }

  /** A page with a byte of the kernel is free after start-up exactly when the kernel runs over into a usable page. */
  lemma KernelFreeIff(rs: seq<Region>, kernel: nat, kernelSize: nat, bitmap: nat, bytes: nat)
    requires kernelSize > 0
    ensures var last := (kernel + kernelSize - 1) / PAGE;
      (exists x :: kernel <= x < kernel + kernelSize && FreeAtStart(rs, kernel, kernelSize, bitmap, bytes, x / PAGE))
      <==> !Covered(kernel, kernelSize) && InUsable(rs, last) && !SetAside(bitmap, bytes, last)
  {
    hide InUsable, Covered;
    SetAsideCovers(kernel, kernelSize);
    forall x | kernel <= x < kernel + kernelSize && FreeAtStart(rs, kernel, kernelSize, bitmap, bytes, x / PAGE)
      ensures !Covered(kernel, kernelSize) && x / PAGE == (kernel + kernelSize - 1) / PAGE
    {
      SetAsideButLast(kernel, kernelSize, x);
    }
    var y := kernel + kernelSize - 1;
    if !Covered(kernel, kernelSize) && InUsable(rs, y / PAGE) && !SetAside(bitmap, bytes, y / PAGE) {
      assert FreeAtStart(rs, kernel, kernelSize, bitmap, bytes, y / PAGE);
    }
  }

  ghost predicate FreeAtStart(rs: seq<Region>, kernel: nat, kernelSize: nat, bitmap: nat, bytes: nat, p: nat) {
    !TakenAtStart(rs, kernel, kernelSize, bitmap, bytes, p)
  }

  lemma NoneUsable()
    ensures forall p :: !InUsable([], p)
  {
  }

  lemma InRegionIs(r: Region, p: nat)
    ensures InRegion(r, p) <==> r.start / PAGE <= p < r.start / PAGE + r.size / PAGE
  {
  }

  lemma RegionFits(rs: seq<Region>, i: nat)
    requires i < |rs|
    ensures rs[i].start / PAGE + rs[i].size / PAGE <= Highest(rs) / PAGE
  {
    HighestBounds(rs, i);
    FloorSum(rs[i].start, rs[i].size);
    DivMono(rs[i].End(), Highest(rs));
  }

  lemma FloorSum(a: nat, b: nat)
    ensures a / PAGE + b / PAGE <= (a + b) / PAGE
  {
  }

  lemma OneMore(rs: seq<Region>, i: nat, p: nat)
    requires i < |rs|
    ensures InUsable(rs[..i + 1], p) <==> InUsable(rs[..i], p) || (rs[i].Usable() && InRegion(rs[i], p))
  {
    var a, b := rs[..i], rs[..i + 1];
    if InUsable(b, p) {
      var k :| 0 <= k < |b| && b[k].Usable() && InRegion(b[k], p);
      if k < i { assert a[k] == b[k]; }
    }
    if InUsable(a, p) {
      var k :| 0 <= k < |a| && a[k].Usable() && InRegion(a[k], p);
      assert b[k] == a[k];
    }
    if rs[i].Usable() && InRegion(rs[i], p) { assert b[i] == rs[i]; }
  }
}
