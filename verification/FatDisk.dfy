/** What a volume holds, as a value: the FAT, the chains of the files, the data area. */
module FatDisk {
  import opened Arith
  import opened Bytes
  import opened FatTable
  import opened FatRuns
  import opened FatFile

  /** Clusters that a transfer of `n` bytes at `off` needs the chain to have. */
  function Wanted(off: nat, n: nat, clusterSize: nat): (want: nat)
    requires clusterSize > 0
    ensures want > 0
  {
    (if n == 0 then off else off + n - 1) / clusterSize + 1
  }

  lemma WantedCovers(off: nat, n: nat, b: nat)
    requires b > 0
    ensures off < Times(Wanted(off, n, b), b) && off + n <= Times(Wanted(off, n, b), b)
  {
    TimesIs(Wanted(off, n, b), b);
    var last := if n == 0 then off else off + n - 1;
    assert last == (last / b) * b + last % b;
    MulStep(last / b, b);
  }

  lemma WantedAtMost(off: nat, n: nat, count: nat, b: nat)
    requires b > 0 && (if n == 0 then off < Times(count, b) else off + n <= Times(count, b))
    ensures Wanted(off, n, b) <= count
  {
    TimesIs(count, b);
    DivBelow(if n == 0 then off else off + n - 1, count, b);
  }

  /** `after` is `before`, possibly longer, with the bytes from `off` on replaced by `d`. */
  ghost predicate Wrote(before: seq<Byte>, after: seq<Byte>, off: nat, d: seq<Byte>) {
    && |before| <= |after|
    && (|d| > 0 ==> off + |d| <= |after| && after[off..off + |d|] == d)
    && (off <= |before| ==> after[..off] == before[..off])
    && (off > |before| ==> before <= after)
    && (off + |d| <= |before| ==> after[off + |d|..|before|] == before[off + |d|..])
  }

  lemma WroteAt(before: seq<Byte>, after: seq<Byte>, off: nat, d: seq<Byte>, p: nat)
    requires Wrote(before, after, off, d)
    ensures off <= p < off + |d| ==> p < |after| && after[p] == d[p - off]
    ensures p < |before| && !(off <= p < off + |d|) ==> after[p] == before[p]
  {
    if off <= p < off + |d| {
      assert after[off..off + |d|][p - off] == d[p - off];
    } else if off + |d| <= p < |before| {
      assert after[off + |d|..|before|][p - off - |d|] == before[off + |d|..][p - off - |d|];
    } else if p < |before| && off <= |before| {
      assert after[..off][p] == before[..off][p];
    }
  }

  lemma WroteIntro(before: seq<Byte>, after: seq<Byte>, off: nat, d: seq<Byte>)
    requires |before| <= |after| && (|d| > 0 ==> off + |d| <= |after|)
    requires forall p :: off <= p < off + |d| ==> after[p] == d[p - off]
    requires forall p :: 0 <= p < |before| && !(off <= p < off + |d|) ==> after[p] == before[p]
    ensures Wrote(before, after, off, d)
  {
  }

  lemma WroteMore(before: seq<Byte>, mid: seq<Byte>, off: nat, d: seq<Byte>, w: nat, m: nat)
    requires w + m <= |d| && off + w + m <= |mid|
    requires Wrote(before, mid, off, d[..w])
    ensures Wrote(before, Splice(mid, off + w, d[w..w + m]), off, d[..w + m])
  {
    var after := Splice(mid, off + w, d[w..w + m]);
    forall p | 0 <= p < |after|
      ensures off <= p < off + w + m ==> after[p] == d[p - off]
      ensures p < |before| && !(off <= p < off + w + m) ==> after[p] == before[p]
    {
      WroteAt(before, mid, off, d[..w], p);
    }
    WroteIntro(before, after, off, d[..w + m]);
  }

  lemma WroteLonger(before: seq<Byte>, mid: seq<Byte>, after: seq<Byte>, off: nat, d: seq<Byte>)
    requires Wrote(before, mid, off, d) && mid <= after
    ensures Wrote(before, after, off, d)
  {
    forall p | 0 <= p < |mid|
      ensures off <= p < off + |d| ==> after[p] == d[p - off]
      ensures p < |before| && !(off <= p < off + |d|) ==> after[p] == before[p]
    {
      WroteAt(before, mid, off, d, p);
    }
    WroteIntro(before, after, off, d);
  }

  /** The chains of the files, the contents of the clusters and their size. */
  datatype Disk = Disk(files: Files, area: seq<seq<Byte>>, size: nat)

  ghost predicate Sound(d: Disk) {
    && WellFormed(d.files)
    && |d.area| == d.files.count && Area(d.area, d.size) && d.size > 0
  }

  ghost predicate Has(d: Disk, head: nat) { head in d.files.live }

  ghost function Chain(d: Disk, head: nat): (ch: seq<nat>)
    requires Sound(d)
    ensures InArea(d.area, ch)
  {
    assert ChainAt(d.files, head);
    if head in d.files.live then d.files.live[head] else []
  }

  lemma ChainFacts(d: Disk, head: nat)
    requires Sound(d) && Has(d, head)
    ensures IsChain(d.files.fat, d.files.count, Chain(d, head)) && Chain(d, head)[0] == head
  {
    assert ChainAt(d.files, head);
  }

  /** Cluster 0 starts no file, which is why an inode of 0 can mean "no cluster yet". */
  lemma ZeroHasNone(d: Disk)
    requires Sound(d)
    ensures !Has(d, 0)
  {
    assert ChainAt(d.files, 0);
  }

  /** The bytes of the file at `head`, up to the end of its last cluster. */
  ghost function Contents(d: Disk, head: nat): (r: seq<Byte>)
    requires Sound(d)
    ensures |r| == Times(|Chain(d, head)|, d.size)
  {
    FileBytes(d.area, d.size, Chain(d, head))
  }

  ghost function Free(d: Disk): nat
    requires Sound(d)
  {
    FreeCount(d.files.fat, d.files.count)
  }

  /** The clusters of a file and the free ones: writing turns free clusters into clusters of the file. */
  ghost function Reach(d: Disk, head: nat): nat
    requires Sound(d)
  {
    |Chain(d, head)| + Free(d)
  }

  /** The entries past the last cluster are as they were. */
  ghost predicate SameBeyond(d0: Disk, d: Disk) {
    && d.files.count == d0.files.count && |d.files.fat| == |d0.files.fat|
    && forall c :: d.files.count <= c < |d.files.fat| ==> d.files.fat[c] == d0.files.fat[c]
  }

  ghost function LastOf(d: Disk, head: nat): nat
    requires Sound(d) && Has(d, head)
  {
    ChainFacts(d, head);
    Chain(d, head)[|Chain(d, head)| - 1]
  }

  ghost function WithFirst(d: Disk, c: nat): Disk
    requires c < |d.files.fat|
  {
    d.(files := Started(d.files, c))
  }

  ghost function WithNext(d: Disk, head: nat, c: nat): Disk
    requires Sound(d) && Has(d, head) && c < |d.files.fat|
  {
    d.(files := Grown(d.files, head, c))
  }

  ghost function WithCluster(d: Disk, c: nat, buf: seq<Byte>): Disk
    requires c < |d.area|
  {
    d.(area := d.area[c := buf])
  }

  /** A file other than the one at `head`. */
  ghost predicate SameFile(d0: Disk, d: Disk, h: nat)
    requires Sound(d0) && Sound(d)
  {
    Has(d0, h) ==> Has(d, h) && Chain(d, h) == Chain(d0, h) && Contents(d, h) == Contents(d0, h)
  }

  /**
   * How far a write has come since `d0`: the file at `head` is its old bytes `before`, perhaps longer, with
   * `w` at `off`; every other file is as it was; and what the file gained in clusters came from the free ones.
   */
  ghost predicate Progress(d0: Disk, d: Disk, head: nat, before: seq<Byte>, off: nat, w: seq<Byte>) {
    && Sound(d0) && Sound(d) && Has(d, head)
    && SameBeyond(d0, d) && d.size == d0.size
    && Reach(d, head) == Reach(d0, head)
    && Wrote(before, Contents(d, head), off, w)
    && (forall h :: h in d.files.live <==> h in d0.files.live || h == head)
    && (forall h :: h != head ==> SameFile(d0, d, h))
  }

  lemma FirstProgress(d: Disk, c: nat, off: nat)
    requires Sound(d) && 2 <= c < d.files.count && Link(d.files.fat, c) == 0
    ensures !Has(d, c) && Progress(d, WithFirst(d, c), c, [], off, [])
  {
    var d' := WithFirst(d, c);
    CreateKeeps(d.files, c);
    AllocateTakesOne(d.files.fat, d.files.count, c, FAT32_EOF);
    WroteIntro([], Contents(d', c), off, []);
  }

  lemma NoProgress(d: Disk, head: nat, off: nat)
    requires Sound(d) && Has(d, head)
    ensures Progress(d, d, head, Contents(d, head), off, [])
  {
    WroteIntro(Contents(d, head), Contents(d, head), off, []);
  }

  lemma NextSound(d: Disk, head: nat, c: nat)
    requires Sound(d) && Has(d, head) && 2 <= c < d.files.count && Link(d.files.fat, c) == 0
    ensures Sound(WithNext(d, head, c)) && Chain(WithNext(d, head, c), head) == Chain(d, head) + [c]
    ensures Reach(WithNext(d, head, c), head) == Reach(d, head)
    ensures Contents(d, head) <= Contents(WithNext(d, head, c), head)
  {
    var d' := WithNext(d, head, c);
    ExtendKeeps(d.files, head, c);
    ChainFacts(d, head);
    ExtendedChain(d.files.fat, d.files.count, Chain(d, head), c);
    FilePrefix(d.area, d.size, Chain(d, head), Chain(d', head));
  }

  lemma NextBeyond(d: Disk, head: nat, c: nat)
    requires Sound(d) && Has(d, head) && c < d.files.count
    ensures SameBeyond(d, WithNext(d, head, c))
  {
    ChainFacts(d, head);
  }

  lemma NextProgress(d0: Disk, d: Disk, head: nat, before: seq<Byte>, off: nat, w: seq<Byte>, c: nat)
    requires Progress(d0, d, head, before, off, w) && 2 <= c < d.files.count && Link(d.files.fat, c) == 0
    ensures Progress(d0, WithNext(d, head, c), head, before, off, w)
  {
    var d' := WithNext(d, head, c);
    NextSound(d, head, c);
    NextBeyond(d, head, c);
    WroteLonger(before, Contents(d, head), Contents(d', head), off, w);
    forall h | h != head ensures SameFile(d0, d', h) { assert SameFile(d0, d, h); }
  }

  /** Rewriting piece `p` of cluster `k` of the file at `head`. */
  ghost function Patched(d: Disk, head: nat, k: nat, at: nat, p: seq<Byte>): Disk
    requires Sound(d) && k < |Chain(d, head)| && at + |p| <= d.size
  {
    var c := Chain(d, head)[k];
    WithCluster(d, c, Splice(d.area[c], at, p))
  }

  lemma PatchSound(d: Disk, head: nat, k: nat, at: nat, p: seq<Byte>)
    requires Sound(d) && k < |Chain(d, head)| && at + |p| <= d.size
    ensures Sound(Patched(d, head, k, at, p))
    ensures Times(k, d.size) + at + |p| <= |Contents(d, head)|
    ensures Contents(Patched(d, head, k, at, p), head) == Splice(Contents(d, head), Times(k, d.size) + at, p)
  {
    hide Times, WellFormed, Splice, FileBytes;
    var ch := Chain(d, head);
    ChainOnce(d, head);
    FileOfPut(d.area, d.size, ch, k, at, p);
    SpliceSize(d.area[ch[k]], at, p);
  }

  lemma ChainOnce(d: Disk, head: nat)
    requires Sound(d)
    ensures Distinct(Chain(d, head))
  {
    if Has(d, head) { ChainFacts(d, head); }
  }

  lemma SpliceSize(s: seq<Byte>, at: nat, p: seq<Byte>)
    requires at + |p| <= |s|
    ensures |Splice(s, at, p)| == |s|
  {
  }

  lemma PatchOther(d: Disk, head: nat, k: nat, at: nat, p: seq<Byte>, h: nat)
    requires Sound(d) && k < |Chain(d, head)| && at + |p| <= d.size && h != head
    ensures Sound(Patched(d, head, k, at, p)) && SameFile(d, Patched(d, head, k, at, p), h)
  {
    var ch, other := Chain(d, head), Chain(d, h);
    assert Separate(d.files, h, head);
    assert ch[k] in ch;
    forall i | 0 <= i < |other| ensures other[i] != ch[k] { assert other[i] in other; }
    FileFrame(d.area, Patched(d, head, k, at, p).area, d.size, other);
  }

  lemma PatchProgress(d0: Disk, d: Disk, head: nat, before: seq<Byte>, off: nat, data: seq<Byte>,
                      written: nat, k: nat, at: nat, m: nat)
    requires written + m <= |data| && Progress(d0, d, head, before, off, data[..written])
    requires k < |Chain(d, head)| && at + m <= d.size && Times(k, d.size) + at == off + written
    ensures Progress(d0, Patched(d, head, k, at, data[written..written + m]), head, before, off, data[..written + m])
  {
    hide Times, WellFormed, FileBytes, Wrote, Splice;
    var p := data[written..written + m];
    var d' := Patched(d, head, k, at, p);
    PatchSound(d, head, k, at, p);
    WroteMore(before, Contents(d, head), off, data, written, m);
    forall h | h != head ensures SameFile(d0, d', h) {
      assert SameFile(d0, d, h);
      PatchOther(d, head, k, at, p, h);
    }
  }

  /** A write at `off` has gone as far as the clusters of the file go. */
  ghost predicate ToTheEnd(d: Disk, head: nat, off: nat, n: nat)
    requires Sound(d)
  {
    off + n == |Contents(d, head)| || (n == 0 && |Contents(d, head)| <= off)
  }

  /**
   * What a write of `data` at `off` did when it stored `n` bytes: to the volume, to the file that was at
   * `head0` with size `size0` and is now at `head` with size `size`, and to every other file.  It is short
   * exactly when the clusters of the file and the free ones are too few.
   */
  ghost predicate Written(d0: Disk, head0: nat, size0: nat, d: Disk, head: nat, size: nat,
                          off: nat, data: seq<Byte>, n: nat) {
    && n <= |data| && Sound(d0)
    && Progress(d0, d, head, Contents(d0, head0), off, data[..n])
    && (if head0 == 0 then !Has(d0, head) else head0 == head) && Reach(d0, head0) == Reach(d0, head)
    && (|data| > 0 ==> (n < |data| <==> Wanted(off, |data|, d.size) > Reach(d0, head0)))
    && (n < |data| ==> Free(d) == 0 && ToTheEnd(d, head, off, n))
    && size == if n > 0 || (data == [] && off < |Contents(d, head)|) then Max(size0, off + n) else size0
  }
}
