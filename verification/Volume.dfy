/** The mounted FAT32 volume: sector input and output, allocation, and files through cluster chains. */
module Fat32Volume {
  import opened Arith
  import opened Bytes
  import opened FatTable
  import opened FatRuns
  import opened FatFile
  import opened FatDisk
  import opened Fat32
  import opened Vnode

  /** What the search over all entries finds exists exactly when some cluster is free. */
  lemma FoundIff(d: Disk, c: nat)
    requires Sound(d) && (c == FAT32_BAD <==> NoneFree(d.files.fat)) && (c != FAT32_BAD ==> LowestFree(d.files.fat, c))
    ensures c < d.files.count <==> Free(d) > 0
    ensures c != FAT32_BAD ==> !Has(d, c)
  {
    if c == FAT32_BAD {
      assert FreeSet(d.files.fat, d.files.count) == {};
    } else {
      AllocatedExistsIffRoom(d.files.fat, d.files.count, c);
      assert ChainAt(d.files, c);
      if Has(d, c) { FreeIsNotLive(d.files, c, c); }
    }
  }

  lemma LastLink(d: Disk, head: nat)
    requires Sound(d) && Has(d, head)
    ensures var ch := Chain(d, head);
      |ch| > 0 && 2 <= ch[|ch| - 1] < |d.files.fat| && Link(d.files.fat, ch[|ch| - 1]) != 0
  {
    ChainFacts(d, head);
    ChainIsNotFree(d.files.fat, d.files.count, Chain(d, head), |Chain(d, head)| - 1);
  }

  lemma FirstStray(d: Disk, last: nat, c: nat)
    requires Sound(d) && 2 <= d.files.count && LowestFree(d.files.fat, c) && d.files.count <= c && Free(d) == 0
    requires last < |d.files.fat| ==> Link(d.files.fat, last) != 0
    ensures Strays(d.files.fat, d.files.count, [c])
    ensures var mid := SetLink(d.files.fat, c, FAT32_EOF);
      Strung(d.files.fat, last, [c]) == if last < |d.files.fat| then SetLink(mid, last, c) else mid
  {
    hide Strung;
    StrungMore(d.files.fat, last, [], c);
    StrungLink(d.files.fat, last, [], c);
    assert [] + [c] == [c];
  }

  lemma StraysIn(fat: Table, count: nat, cs: seq<nat>)
    requires Strays(fat, count, cs) && cs != []
    ensures count <= cs[|cs| - 1] < |fat| && forall i :: 0 <= i < |cs| ==> cs[i] < |fat|
  {
  }

  /** The last stray carries an end mark. */
  lemma StrayEnds(fat: Table, count: nat, last: nat, cs: seq<nat>)
    requires cs != [] && Strays(fat, count, cs) && (last < |fat| ==> Link(fat, last) != 0)
    ensures cs[|cs| - 1] < |fat| && Link(Strung(fat, last, cs), cs[|cs| - 1]) >= FAT32_EOF
  {
    hide Strung, Strays;
    var n := |cs| - 1;
    StraysApart(fat, count, last, cs);
    StrungEnd(fat, last, cs[..n], cs[n]);
    assert cs[..n] + [cs[n]] == cs;
  }

  lemma StraysApart(fat: Table, count: nat, last: nat, cs: seq<nat>)
    requires cs != [] && Strays(fat, count, cs) && (last < |fat| ==> Link(fat, last) != 0)
    ensures forall i :: 0 <= i < |cs| ==> cs[i] < |fat|
    ensures (if |cs| == 1 then last else cs[|cs| - 2]) != cs[|cs| - 1]
  {
  }

  lemma StrungEnd(fat: Table, last: nat, cs: seq<nat>, c: nat)
    requires (forall i :: 0 <= i < |cs| ==> cs[i] < |fat|) && c < |fat|
    requires (if cs == [] then last else cs[|cs| - 1]) != c
    ensures Link(Strung(fat, last, cs + [c]), c) == FAT32_EOF
  {
    hide Strung;
    StrungMore(fat, last, cs, c);
  }

  class Volume {
    const geo: Geo
    /** The first cluster of the root directory. */
    const root: nat
    var sectors: seq<Sector>
    /** What the sectors hold. */
    ghost var disk: Disk

    ghost predicate Valid()
      reads this
    {
      geo.Holds(sectors, disk.files.fat, disk.area) && Sane()
    }

    ghost predicate Sane()
      reads this
    {
      disk.files.count == geo.count && disk.size == geo.bpc && Sound(disk)
    }

    /**
     * Every cluster is in use, and the sectors differ from what the files are by entries past the last cluster that
     * were taken for clusters: `strays` of them, linked behind `last`.
     */
    ghost predicate Astray(last: nat, strays: seq<nat>)
      reads this
    {
      && Sane() && Free(disk) == 0 && strays != [] && Strays(disk.files.fat, geo.count, strays)
      && (last < |disk.files.fat| ==> Link(disk.files.fat, last) != 0)
      && geo.Holds(sectors, Strung(disk.files.fat, last, strays), disk.area)
    }

    constructor (geo: Geo, root: nat, sectors: seq<Sector>, ghost disk: Disk)
      requires geo.Holds(sectors, disk.files.fat, disk.area) && disk.files.count == geo.count
      requires disk.size == geo.bpc && Sound(disk)
      ensures this.geo == geo && this.root == root && this.sectors == sectors && this.disk == disk && Valid()
    {
      this.geo, this.root, this.sectors, this.disk := geo, root, sectors, disk;
    }

    // -------------------------------------------------------------------------
    // FAT entries
    // -------------------------------------------------------------------------

    /** fat32_get_next_cluster, whatever table the sectors hold. */
    method GetNext(c: nat, ghost fat: Table, ghost area: seq<seq<Byte>>) returns (v: nat)
      requires geo.Holds(sectors, fat, area) && c < |fat|
      ensures v == Link(fat, c)
    {
      geo.EntryPlace(c);
      var buffer := sectors[geo.FatSector(c)];
      assert fat[c] == geo.Entry(sectors, c);
      v := Word(buffer, geo.FatIndex(c)) % LINK;
    }

    /** fat32_set_cluster, on the sectors alone: the caller accounts for what it means for the files. */
    method SetCluster(c: nat, value: nat, ghost fat: Table, ghost area: seq<seq<Byte>>)
      requires geo.Holds(sectors, fat, area) && c < |fat|
      modifies this`sectors
      ensures geo.Holds(sectors, SetLink(fat, c, value), area)
    {
      geo.EntryPlace(c);
      var buffer := sectors[geo.FatSector(c)];
      assert fat[c] == geo.Entry(sectors, c);
      var stored := Relinked(Word(buffer, geo.FatIndex(c)), value);
      geo.HoldsAfterPutEntry(sectors, fat, area, c, stored);
      sectors := sectors[geo.FatSector(c) := PutWord(buffer, geo.FatIndex(c), stored)];
    }

    /** The inner loop of fat32_allocate_cluster: the first free entry of one FAT sector, if any. */
    method ScanSector(sector: nat, ghost fat: Table, ghost area: seq<seq<Byte>>) returns (i: nat)
      requires geo.Holds(sectors, fat, area) && sector < geo.firstData - geo.firstFat
      requires forall d :: 2 <= d < Times(sector, geo.bps / 4) && d < |fat| ==> Link(fat, d) != 0
      ensures Times(sector + 1, geo.bps / 4) <= |fat| && i <= geo.bps / 4
      ensures i == geo.bps / 4 ==> forall d :: 2 <= d < Times(sector + 1, geo.bps / 4) ==> Link(fat, d) != 0
      ensures i < geo.bps / 4 ==> LowestFree(fat, Times(sector, geo.bps / 4) + i)
    {
      var entriesPerSector := geo.bps / 4;
      TimesMono(sector + 1, geo.firstData - geo.firstFat, entriesPerSector);
      var buffer := sectors[geo.firstFat + sector];
      i := 0;
      while i < entriesPerSector
        invariant i <= entriesPerSector
        invariant forall d :: 2 <= d < Times(sector, entriesPerSector) + i ==> Link(fat, d) != 0
      {
        var target := Times(sector, entriesPerSector) + i;
        geo.ScannedWord(sectors, fat, area, sector, i);
        if target >= 2 && Word(buffer, i) % LINK == 0 { return; }
        i := i + 1;
      }
    }

    /** The search of fat32_allocate_cluster over all FAT sectors. */
    method FindFree(ghost fat: Table, ghost area: seq<seq<Byte>>) returns (c: nat)
      requires geo.Holds(sectors, fat, area)
      ensures c == FAT32_BAD <==> NoneFree(fat)
      ensures c != FAT32_BAD ==> LowestFree(fat, c)
    {
      var totalFatSectors := geo.firstData - geo.firstFat;
      for sector := 0 to totalFatSectors
        invariant forall d :: 2 <= d < Times(sector, geo.bps / 4) && d < |fat| ==> Link(fat, d) != 0
      {
        var i := ScanSector(sector, fat, area);
        if i < geo.bps / 4 { return Times(sector, geo.bps / 4) + i; }
      }
      c := FAT32_BAD;
    }

    /**
     * fat32_create's call of fat32_allocate_cluster: the lowest free entry becomes a file of one cluster, which exists
     * exactly when some cluster was free.
     */
    method AllocateFirst(ghost off: nat) returns (c: nat)
      requires Valid()
      modifies this`sectors, this`disk
      ensures c == FAT32_BAD <==> NoneFree(old(disk).files.fat)
      ensures c != FAT32_BAD ==> LowestFree(old(disk).files.fat, c) && !Has(old(disk), c)
      ensures c < geo.count <==> Free(old(disk)) > 0
      ensures c == FAT32_BAD ==> Valid() && disk == old(disk)
      ensures c < geo.count ==> Valid() && disk == WithFirst(old(disk), c) && Progress(old(disk), disk, c, [], off, [])
      ensures geo.count <= c < FAT32_BAD ==> disk == old(disk) && Astray(FAT32_BAD, [c])
    {
      c := FindFree(disk.files.fat, disk.area);
      FoundIff(disk, c);
      if c == FAT32_BAD { return; }
      SetCluster(c, FAT32_EOF, disk.files.fat, disk.area);
      if c < geo.count {
        FirstProgress(disk, c, off);
        disk := WithFirst(disk, c);
      } else {
        FirstStray(disk, FAT32_BAD, c);
      }
    }

    /**
     * fat32_allocate_cluster and the link from the last cluster of a chain, as fat32_write joins them.  The chain
     * stays on the device exactly when some cluster was free.
     */
    method Extend(last: nat, ghost head: nat) returns (next: nat)
      requires Valid() && Has(disk, head)
      requires |Chain(disk, head)| > 0 && last == Chain(disk, head)[|Chain(disk, head)| - 1]
      modifies this`sectors, this`disk
      ensures next == FAT32_BAD <==> NoneFree(old(disk).files.fat)
      ensures next != FAT32_BAD ==> LowestFree(old(disk).files.fat, next)
      ensures next < geo.count <==> Free(old(disk)) > 0
      ensures next == FAT32_BAD ==> Valid() && disk == old(disk)
      ensures next < geo.count ==> Valid() && 2 <= next && disk == WithNext(old(disk), head, next)
      ensures geo.count <= next < FAT32_BAD ==> disk == old(disk) && Astray(last, [next])
    {
      next := FindFree(disk.files.fat, disk.area);
      FoundIff(disk, next);
      if next == FAT32_BAD { return; }
      LastLink(disk, head);
      SetCluster(next, FAT32_EOF, disk.files.fat, disk.area);
      SetCluster(last, next, SetLink(disk.files.fat, next, FAT32_EOF), disk.area);
      if next < geo.count {
        NextSound(disk, head, next);
        disk := WithNext(disk, head, next);
      } else {
        FirstStray(disk, last, next);
      }
    }

    /** More of the same behind a stray: each turn of the first loop of fat32_write takes another one. */
    method SeekOn(start: nat, current0: nat, off: nat, ghost last: nat)
      returns (cluster: nat, current: nat, ok: bool, strays: seq<nat>)
      requires Astray(last, [start])
      modifies this`sectors
      ensures Astray(last, strays) && [start] <= strays && geo.count <= cluster
    {
      hide Strung, Strays;
      strays := [start];
      cluster, current := start, current0;
      StraysIn(disk.files.fat, geo.count, strays);
      while current + geo.bpc <= off
        invariant Astray(last, strays) && [start] <= strays && cluster == strays[|strays| - 1]
        invariant geo.count <= cluster < |disk.files.fat| && forall i :: 0 <= i < |strays| ==> strays[i] < |disk.files.fat|
        decreases off - current
      {
        ghost var now := Strung(disk.files.fat, last, strays);
        StrayEnds(disk.files.fat, geo.count, last, strays);
        var link := GetNext(cluster, now, disk.area);
        if link < FAT32_EOF && link != FAT32_BAD { assert false; }
        var next := FindFree(now, disk.area);
        if next == FAT32_BAD { ok := false; return; }
        StraysMore(disk.files.fat, geo.count, last, strays, next);
        StrungMore(disk.files.fat, last, strays, next);
        SetCluster(next, FAT32_EOF, now, disk.area);
        SetCluster(cluster, next, SetLink(now, next, FAT32_EOF), disk.area);
        strays := strays + [next];
        StraysIn(disk.files.fat, geo.count, strays);
        cluster := next;
        current := current + geo.bpc;
      }
      ok := true;
    }

    /** fat32_free_cluster_chain, on any table whose links stay in range. */
    method FreeChain(start: nat, ghost fat: Table, ghost area: seq<seq<Byte>>)
      requires geo.Holds(sectors, fat, area) && LinksInRange(fat) && (Stops(start) || start < |fat|)
      modifies this`sectors
      ensures geo.Holds(sectors, if start < 2 || start >= FAT32_BAD then fat else Release(fat, start), area)
    {
      if start < 2 || start >= FAT32_BAD { return; }
      var current: nat := start;
      ghost var now := fat;
      while current < FAT32_EOF && current != FAT32_BAD && current != 0
        invariant geo.Holds(sectors, now, area) && LinksInRange(now) && (Stops(current) || current < |now|)
        invariant Release(now, current) == Release(fat, start)
        decreases |NonZero(now)|, if Stops(current) then 0 else 1
      {
        geo.EntryPlace(current);
        assert now[current] == geo.Entry(sectors, current);
        var next := Word(sectors[geo.FatSector(current)], geo.FatIndex(current)) % LINK;
        SetLinkInRange(now, current, 0);
        if next != 0 {
          ZeroingShrinks(now, current);
        } else {
          ZeroLink(now, current);
        }
        SetCluster(current, 0, now, area);
        now := SetLink(now, current, 0);
        current := next;
      }
    }

    /** Removing a file: exactly its clusters become free, every other file keeps its chain and bytes. */
    method Remove(head: nat)
      requires Valid() && Has(disk, head)
      modifies this`sectors, this`disk
      ensures Valid() && !Has(disk, head)
      ensures forall h :: h != head ==> SameFile(old(disk), disk, h)
      ensures forall c :: 0 <= c < |disk.files.fat| ==>
        disk.files.fat[c] == if c in Chain(old(disk), head) then Relinked(old(disk).files.fat[c], 0)
                             else old(disk).files.fat[c]
    {
      ChainFacts(disk, head);
      RemoveKeeps(disk.files, head);
      ReleaseChain(disk.files.fat, geo.count, Chain(disk, head));
      FreeChain(head, disk.files.fat, disk.area);
      disk := disk.(files := Removed(disk.files, head));
    }

    // -------------------------------------------------------------------------
    // Clusters
    // -------------------------------------------------------------------------

    method ReadCluster(c: nat) returns (buf: seq<Byte>)
      requires Valid() && 2 <= c < geo.count
      ensures buf == disk.area[c]
    {
      geo.ClusterPlace(c, sectors);
      assert disk.area[c] == geo.Data(sectors, c);
      buf := Join(sectors[geo.FirstSector(c)..geo.FirstSector(c) + geo.spc]);
    }

    method WriteCluster(c: nat, buf: seq<Byte>)
      requires Valid() && 2 <= c < geo.count && |buf| == geo.bpc
      modifies this`sectors, this`disk
      ensures Valid() && disk == WithCluster(old(disk), c, buf)
    {
      geo.ClusterPlace(c, sectors);
      var s := geo.FirstSector(c);
      geo.HoldsAfterPutData(sectors, disk.files.fat, disk.area, c, buf);
      sectors := sectors[..s] + Split(buf, geo.spc, geo.bps) + sectors[s + geo.spc..];
      disk := WithCluster(disk, c, buf);
    }

    /** The next cluster of a chain, or an end mark exactly behind its last cluster. */
    method Follow(cluster: nat, ghost head: nat, ghost k: nat) returns (next: nat)
      requires Valid() && k < |Chain(disk, head)| && cluster == Chain(disk, head)[k]
      ensures k + 1 < |Chain(disk, head)| ==> next == Chain(disk, head)[k + 1] && next < FAT32_BAD
      ensures k + 1 == |Chain(disk, head)| ==> next >= FAT32_EOF
    {
      ChainFacts(disk, head);
      next := GetNext(cluster, disk.files.fat, disk.area);
      assert LinkedAt(disk.files.fat, Chain(disk, head), k);
    }

    // -------------------------------------------------------------------------
    // Reading
    // -------------------------------------------------------------------------

    /** How many bytes fat32_read is asked for once a regular file's end has been taken into account. */
    ghost function Asked(node: Node, off: nat, size: nat): nat
      reads node
    {
      if node.isDirectory then size else if off >= node.size then 0 else Min(size, node.size - off)
    }

    /** fat32_read: the slice of the flat file, cut where the file or its chain ends. */
    method Read(node: Node, off: nat, size: nat) returns (out: seq<Byte>)
      requires Valid()
      requires node.isDirectory || off < node.size ==> Has(disk, node.inode)
      ensures out == var file := Contents(disk, node.inode);
                     if off >= |file| then [] else file[off..off + Min(Asked(node, off, size), |file| - off)]
    {
      out := [];
      var n := size;
      if !node.isDirectory && off >= node.size { return; }
      if !node.isDirectory && off + n > node.size { n := node.size - off; }
      var cluster, current, ok, k := Seek(node.inode, off);
      if !ok { return; }
      out := CopyOut(node.inode, cluster, current, k, off, n);
    }

    /** The first loop of fat32_read: the cluster that holds byte `off`, unless the chain ends before it. */
    method Seek(head: nat, off: nat) returns (cluster: nat, current: nat, ok: bool, ghost k: nat)
      requires Valid() && Has(disk, head)
      ensures ok <==> off < |Contents(disk, head)|
      ensures ok ==> k < |Chain(disk, head)| && cluster == Chain(disk, head)[k]
      ensures ok ==> current == Times(k, geo.bpc) <= off < current + geo.bpc
    {
      ghost var ch := Chain(disk, head);
      ChainFacts(disk, head);
      cluster, current, k, ok := head, 0, 0, true;
      while current + geo.bpc <= off
        invariant k < |ch| && cluster == ch[k] && current == Times(k, geo.bpc) <= off
        decreases off - current
      {
        cluster := Follow(cluster, head, k);
        if cluster >= FAT32_EOF || cluster == FAT32_BAD { ok := false; return; }
        k := k + 1;
        current := current + geo.bpc;
      }
      TimesMono(k + 1, |ch|, geo.bpc);
    }

    /** The second loop of fat32_read: cluster by cluster into the caller's buffer. */
    method CopyOut(ghost head: nat, cluster0: nat, current0: nat, ghost k0: nat, off: nat, n: nat)
      returns (out: seq<Byte>)
      requires Valid() && k0 < |Chain(disk, head)| && cluster0 == Chain(disk, head)[k0]
      requires current0 == Times(k0, geo.bpc) <= off < current0 + geo.bpc
      ensures off < |Contents(disk, head)|
      ensures out == Contents(disk, head)[off..off + Min(n, |Contents(disk, head)| - off)]
    {
      hide WellFormed, FileBytes, Area;
      ghost var ch, file := Chain(disk, head), Contents(disk, head);
      var cluster, current := cluster0, current0;
      ghost var k: nat := k0;
      out := [];
      TimesMono(k + 1, |ch|, geo.bpc);
      while |out| < n
        invariant k < |ch| && cluster == ch[k] && current == Times(k, geo.bpc) <= off + |out|
        invariant |out| <= Min(n, |file| - off) && out == file[off..off + |out|]
        invariant |out| < n ==> off + |out| < current + geo.bpc
      {
        var at := off + |out| - current;
        out := CopyPiece(out, head, k, cluster, off, at, Min(geo.bpc - at, n - |out|));
        if |out| < n {
          cluster := Follow(cluster, head, k);
          if cluster >= FAT32_EOF || cluster == FAT32_BAD { return; }
          k := k + 1;
          current := current + geo.bpc;
        }
      }
    }

    /** The body of that loop: one more piece of the file behind what was already copied. */
    method CopyPiece(copied: seq<Byte>, ghost head: nat, ghost k: nat, cluster: nat, off: nat, at: nat, m: nat)
      returns (out: seq<Byte>)
      requires Valid() && k < |Chain(disk, head)| && cluster == Chain(disk, head)[k]
      requires at + m <= geo.bpc && Times(k, geo.bpc) + at == off + |copied| <= |Contents(disk, head)|
      requires copied == Contents(disk, head)[off..off + |copied|]
      ensures |out| == |copied| + m && off + |out| <= |Contents(disk, head)|
      ensures out == Contents(disk, head)[off..off + |out|]
    {
      ChainFacts(disk, head);
      var buf := ReadCluster(cluster);
      SliceOfFile(disk.area, geo.bpc, Chain(disk, head), k, at, m);
      out := copied + buf[at..at + m];
    }

    // -------------------------------------------------------------------------
    // Writing
    // -------------------------------------------------------------------------

    /**
     * One step along a chain while writing: the next cluster, or a new one linked behind the last.
     * The same lines stand in both loops of fat32_write.
     */
    method Advance(cluster: nat, ghost head: nat, ghost k: nat, ghost d0: Disk, ghost before: seq<Byte>,
                   ghost off: nat, ghost w: seq<Byte>)
      returns (next: nat)
      requires Valid() && Progress(d0, disk, head, before, off, w)
      requires k < |Chain(disk, head)| && cluster == Chain(disk, head)[k]
      modifies this`sectors, this`disk
      ensures Sane() && Progress(d0, disk, head, before, off, w) && k < |Chain(disk, head)|
      ensures next >= geo.count ==> Free(disk) == 0 && k + 1 == |Chain(disk, head)|
      ensures next == FAT32_BAD ==> Valid() && NoneFree(disk.files.fat)
      ensures next < geo.count ==> Valid() && k + 1 < |Chain(disk, head)| && Chain(disk, head)[k + 1] == next
      ensures geo.count <= next && next != FAT32_BAD ==> Astray(LastOf(disk, head), [next])
    {
      ChainFacts(disk, head);
      next := Follow(cluster, head, k);
      if next >= FAT32_EOF || next == FAT32_BAD {
        next := Extend(cluster, head);
        if next < geo.count {
          NextSound(old(disk), head, next);
          NextProgress(d0, old(disk), head, before, off, w, next);
        }
      }
    }

    /** The first loop of fat32_write: the cluster that holds byte `off`, extending the chain to reach it. */
    method SeekForWrite(head: nat, off: nat, ghost d0: Disk, ghost before: seq<Byte>, ghost w: seq<Byte>, ghost want: nat)
      returns (cluster: nat, current: nat, ok: bool, ghost k: nat, strays: seq<nat>)
      requires Valid() && Progress(d0, disk, head, before, off, w) && off < Times(want, geo.bpc)
      modifies this`sectors, this`disk
      ensures Sane() && Progress(d0, disk, head, before, off, w)
      ensures !ok || strays != [] ==> Free(disk) == 0 && want > Reach(disk, head) && |Contents(disk, head)| <= off
      ensures strays == [] ==> Valid()
      ensures strays == [] && !ok ==> NoneFree(disk.files.fat)
      ensures strays == [] && ok ==> k < |Chain(disk, head)| && cluster == Chain(disk, head)[k]
      ensures strays == [] && ok ==> current == Times(k, geo.bpc) <= off < current + geo.bpc
      ensures strays != [] ==> Astray(LastOf(disk, head), strays) && geo.count <= cluster
    {
      hide Wrote, Strung, Strays, SameBeyond, WellFormed, FileBytes;
      ChainFacts(disk, head);
      cluster, current, k, ok, strays := head, 0, 0, true, [];
      while current + geo.bpc <= off
        invariant Valid() && Progress(d0, disk, head, before, off, w)
        invariant k < |Chain(disk, head)| && cluster == Chain(disk, head)[k]
        invariant current == Times(k, geo.bpc) <= off
        decreases off - current
      {
        TimesLess(k + 1, want, geo.bpc);
        var next := Advance(cluster, head, k, d0, before, off, w);
        if next == FAT32_BAD { ok := false; return; }
        if next >= geo.count {
          cluster, current, ok, strays := SeekOn(next, current + geo.bpc, off, LastOf(disk, head));
          return;
        }
        cluster := next;
        k := k + 1;
        current := current + geo.bpc;
      }
    }

    /** Read, modify and write back one cluster. */
    method StorePiece(ghost head: nat, ghost k: nat, cluster: nat, at: nat, piece: seq<Byte>)
      requires Valid() && k < |Chain(disk, head)| && cluster == Chain(disk, head)[k]
      requires at + |piece| <= geo.bpc
      modifies this`sectors, this`disk
      ensures Valid() && disk == Patched(old(disk), head, k, at, piece)
    {
      ChainFacts(disk, head);
      var buf := ReadCluster(cluster);
      buf := buf[..at] + piece + buf[at + |piece|..];
      assert buf == Splice(disk.area[cluster], at, piece);
      WriteCluster(cluster, buf);
    }

    /** As much of the caller's buffer as fits into one cluster. */
    method StoreNext(ghost head: nat, ghost k: nat, cluster: nat, current: nat, off: nat, data: seq<Byte>, written: nat,
                     ghost d0: Disk, ghost before: seq<Byte>)
      returns (total: nat)
      requires Valid() && written < |data| && Progress(d0, disk, head, before, off, data[..written])
      requires k < |Chain(disk, head)| && cluster == Chain(disk, head)[k]
      requires current == Times(k, geo.bpc) <= off + written < current + geo.bpc
      modifies this`sectors, this`disk
      ensures Valid() && written < total <= |data| && off + total <= current + geo.bpc
      ensures Progress(d0, disk, head, before, off, data[..total])
      ensures Chain(disk, head) == Chain(old(disk), head)
      ensures total < |data| ==> off + total == current + geo.bpc
    {
      var at := off + written - current;
      var m := Min(geo.bpc - at, |data| - written);
      StorePiece(head, k, cluster, at, data[written..written + m]);
      PatchProgress(d0, old(disk), head, before, off, data, written, k, at, m);
      total := written + m;
    }

    /** The body of the second loop of fat32_write: store a piece, then move on if more is to come. */
    method StoreStep(head: nat, ghost k: nat, cluster: nat, current: nat, off: nat, data: seq<Byte>, written: nat,
                     ghost d0: Disk, ghost before: seq<Byte>, ghost want: nat)
      returns (total: nat, next: nat)
      requires Valid() && written < |data| && Progress(d0, disk, head, before, off, data[..written])
      requires k < |Chain(disk, head)| && cluster == Chain(disk, head)[k]
      requires current == Times(k, geo.bpc) <= off + written < current + geo.bpc
      requires off + |data| <= Times(want, geo.bpc)
      modifies this`sectors, this`disk
      ensures Sane() && written < total <= |data|
      ensures Progress(d0, disk, head, before, off, data[..total]) && k < |Chain(disk, head)|
      ensures total < |data| ==> off + total == current + geo.bpc
      ensures total == |data| ==> Valid()
      ensures total < |data| && next >= geo.count ==>
        Free(disk) == 0 && want > Reach(d0, head) && ToTheEnd(disk, head, off, total)
      ensures total < |data| && next == FAT32_BAD ==> Valid() && NoneFree(disk.files.fat)
      ensures total < |data| && next < geo.count ==>
        Valid() && k + 1 < |Chain(disk, head)| && Chain(disk, head)[k + 1] == next
      ensures total < |data| && geo.count <= next && next != FAT32_BAD ==> Astray(LastOf(disk, head), [next])
    {
      hide WellFormed, FileBytes, Wrote, Strung, Strays, SameBeyond;
      total := StoreNext(head, k, cluster, current, off, data, written, d0, before);
      next := cluster;
      if total < |data| {
        TimesLess(k + 1, want, geo.bpc);
        next := Advance(cluster, head, k, d0, before, off, data[..total]);
      }
    }

    /** Whether read_blocks finds the sectors of a cluster on the device. */
    method Readable(cluster: nat) returns (ok: bool)
      requires geo.Fits(sectors)
      ensures ok <==> 2 <= cluster < geo.count
    {
      if cluster < 2 { return false; }
      geo.ClusterExistsIff(cluster, sectors);
      ok := geo.FirstSector(cluster) + geo.spc <= |sectors|;
    }

    /** The second loop of fat32_write: cluster by cluster, extending the chain behind its last cluster. */
    method CopyIn(head: nat, cluster0: nat, current0: nat, ghost k0: nat, off: nat, data: seq<Byte>,
                  ghost d0: Disk, ghost before: seq<Byte>, ghost want: nat)
      returns (written: nat, strays: seq<nat>)
      requires Valid() && Progress(d0, disk, head, before, off, data[..0])
      requires k0 < |Chain(disk, head)| && cluster0 == Chain(disk, head)[k0]
      requires current0 == Times(k0, geo.bpc) <= off < current0 + geo.bpc && off + |data| <= Times(want, geo.bpc)
      modifies this`sectors, this`disk
      ensures Sane() && written <= |data| && Progress(d0, disk, head, before, off, data[..written])
      ensures k0 < |Chain(disk, head)| && (written == 0 ==> data == [])
      ensures written < |data| ==> Free(disk) == 0 && want > Reach(d0, head) && ToTheEnd(disk, head, off, written)
      ensures strays == [] ==> Valid() && (written < |data| ==> NoneFree(disk.files.fat))
      ensures strays != [] ==> written < |data| && Astray(LastOf(disk, head), strays)
    {
      hide WellFormed, FileBytes, Wrote, Strung, Strays, SameBeyond;
      var cluster, current := cluster0, current0;
      ghost var k: nat := k0;
      written, strays := 0, [];
      while written < |data|
        invariant Valid() && written <= |data| && Progress(d0, disk, head, before, off, data[..written])
        invariant k0 <= k && k0 < |Chain(disk, head)|
        invariant written < |data| ==> k < |Chain(disk, head)| && cluster == Chain(disk, head)[k]
        invariant written < |data| ==> current == Times(k, geo.bpc) <= off + written < current + geo.bpc
      {
        written, cluster := StoreStep(head, k, cluster, current, off, data, written, d0, before, want);
        if written < |data| && cluster == FAT32_BAD { return; }
        if written < |data| && cluster >= geo.count {
          strays := [cluster];
          return;
        }
        assert Times(k + 1, geo.bpc) == geo.bpc + Times(k, geo.bpc);
        k := k + 1;
        current := current + geo.bpc;
      }
    }

    /** fat32_write once the file has a first cluster. */
    method WriteChain(head: nat, off: nat, data: seq<Byte>, ghost d0: Disk, ghost before: seq<Byte>)
      returns (n: nat, reached: bool, strays: seq<nat>)
      requires Valid() && Progress(d0, disk, head, before, off, [])
      modifies this`sectors, this`disk
      ensures Sane() && n <= |data| && Progress(d0, disk, head, before, off, data[..n])
      ensures strays == [] ==> Valid() && (reached <==> n > 0 || (data == [] && off < |Contents(disk, head)|))
      ensures strays == [] && (n < |data| || !reached) ==> Free(disk) == 0 && NoneFree(disk.files.fat)
      ensures n < |data| ==> ToTheEnd(disk, head, off, n)
      ensures strays != [] ==> Astray(LastOf(disk, head), strays) && (data == [] || n < |data|)
      ensures n < |data| || !reached || strays != [] <==> Wanted(off, |data|, disk.size) > Reach(d0, head)
    {
      hide Strung, Strays, Wrote, Progress, Wanted, Times;
      ghost var want := Wanted(off, |data|, geo.bpc);
      WantedCovers(off, |data|, geo.bpc);
      assert data[..0] == [];
      var cluster, current, ok;
      ghost var k;
      cluster, current, ok, k, strays := SeekForWrite(head, off, d0, before, [], want);
      ProgressReach(d0, disk, head, before, off, []);
      if !ok { return 0, false, strays; }
      reached := true;
      if strays == [] { ChainFacts(disk, head); }
      var there := Readable(cluster);
      if !there { return 0, true, strays; }
      n, strays := CopyIn(head, cluster, current, k, off, data, d0, before, want);
      ProgressReach(d0, disk, head, before, off, data[..n]);
      Holding(off, n, k, |Chain(disk, head)|, geo.bpc, |data|);
    }

    /** The first lines of fat32_write: a file without a cluster gets one. */
    method FirstCluster(node: Node, ghost off: nat)
      requires Valid() && (node.inode == 0 || Has(disk, node.inode))
      modifies this`sectors, this`disk, node`inode
      ensures node.inode == 0 <==> old(node.inode) == 0 && NoneFree(old(disk).files.fat)
      ensures node.inode == 0 ==> Valid() && disk == old(disk)
      ensures node.inode != 0 ==> node.inode >= 2 && (old(node.inode) == 0 || old(node.inode) == node.inode)
      ensures node.inode >= geo.count ==> old(node.inode) == 0 && Free(old(disk)) == 0 && disk == old(disk)
      ensures node.inode >= geo.count ==> Astray(FAT32_BAD, [node.inode])
      ensures node.inode != 0 && old(node.inode) == 0 ==> !Has(old(disk), node.inode)
      ensures 0 < node.inode < geo.count ==> Valid() && Reach(old(disk), old(node.inode)) == Reach(old(disk), node.inode)
      ensures 0 < node.inode < geo.count ==>
        Progress(old(disk), disk, node.inode, Contents(old(disk), old(node.inode)), off, [])
    {
      ZeroHasNone(disk);
      if node.inode == 0 {
        var c := AllocateFirst(off);
        if c == FAT32_BAD { return; }
        node.inode := c;
      } else {
        ChainFacts(disk, node.inode);
        NoProgress(disk, node.inode, off);
      }
    }

    /** fat32_write behind the first cluster: the chain, then the node's size. */
    method WriteFile(node: Node, off: nat, data: seq<Byte>, ghost d0: Disk, ghost head0: nat)
      returns (n: nat, strays: seq<nat>)
      requires Valid() && Sound(d0) && (if head0 == 0 then !Has(d0, node.inode) else head0 == node.inode)
      requires Progress(d0, disk, node.inode, Contents(d0, head0), off, [])
      requires Reach(d0, head0) == Reach(d0, node.inode)
      modifies this`sectors, this`disk, node`size
      ensures strays == [] ==> Valid() && Written(d0, head0, old(node.size), disk, node.inode, node.size, off, data, n)
      ensures strays != [] <==> Wanted(off, |data|, d0.size) > Reach(d0, head0) && SomeBeyond(d0.files.fat, geo.count)
      ensures strays != [] ==> Sane() && n <= |data| && (data == [] || n < |data|)
      ensures strays != [] ==>
        Progress(d0, disk, node.inode, Contents(d0, head0), off, data[..n]) && Astray(LastOf(disk, node.inode), strays)
      ensures node.size == old(node.size) || node.size == Max(old(node.size), off + n)
    {
      hide Strung, Wrote;
      var reached;
      n, reached, strays := WriteChain(node.inode, off, data, d0, Contents(d0, head0));
      BeyondIff(d0, disk, strays);
      if reached && off + n > node.size { node.size := off + n; }
    }

    /**
     * fat32_write: the window is updated, extending the chain as needed, and no other file changes.  It fails on a
     * directory, and on an empty file when no entry is free.  The chain goes astray exactly when the clusters of the
     * file and the free ones are too few and the FAT has a free entry past the last cluster.
     */
    method Write(node: Node, off: nat, data: seq<Byte>) returns (n: int, strays: seq<nat>)
      requires Valid() && (node.inode == 0 || Has(disk, node.inode))
      modifies this`sectors, this`disk, node`inode, node`size
      ensures -1 <= n
      ensures n == -1 <==> node.isDirectory || (old(node.inode) == 0 && NoneFree(old(disk).files.fat))
      ensures n == -1 ==> Valid() && disk == old(disk) && node.size == old(node.size) && node.inode == old(node.inode)
      ensures strays != [] <==> !node.isDirectory && SomeBeyond(old(disk).files.fat, geo.count)
                                && Wanted(off, |data|, old(disk).size) > Reach(old(disk), old(node.inode))
      ensures n >= 0 && strays == [] ==>
        Valid() && Written(old(disk), old(node.inode), old(node.size), disk, node.inode, node.size, off, data, n)
      ensures strays != [] ==> Sane() && 0 <= n <= |data| && (data == [] || n < |data|)
      ensures strays != [] ==> node.size == old(node.size) || node.size == Max(old(node.size), off + n)
      ensures strays != [] && Has(disk, node.inode) ==> Astray(LastOf(disk, node.inode), strays)
      ensures strays != [] && Has(disk, node.inode) ==>
        Progress(old(disk), disk, node.inode, Contents(old(disk), old(node.inode)), off, data[..n])
      ensures strays != [] && !Has(disk, node.inode) ==>
        old(node.inode) == 0 && n == 0 && disk == old(disk) && node.inode == strays[0] && Astray(FAT32_BAD, strays)
    {
      hide Strung, Wrote, Progress;
      strays := [];
      if node.isDirectory { return -1, strays; }
      ghost var d0, head0 := disk, node.inode;
      ZeroHasNone(disk);
      FirstCluster(node, off);
      if node.inode == 0 { NoneIsNoneBeyond(d0); return -1, strays; }
      var there := Readable(node.inode);
      if !there {
        var cluster, current, ok;
        NoHead(d0, node.inode);
        cluster, current, ok, strays := SeekOn(node.inode, 0, off, FAT32_BAD);
        n := 0;
        if ok && off > node.size { node.size := off; }
        return;
      }
      n, strays := WriteFile(node, off, data, d0, head0);
      if strays != [] { ProgressReach(d0, disk, node.inode, Contents(d0, head0), off, data[..n]); }
    }
  }

  lemma ProgressReach(d0: Disk, d: Disk, head: nat, before: seq<Byte>, off: nat, w: seq<Byte>)
    requires Progress(d0, d, head, before, off, w)
    ensures Sound(d0) && Sound(d) && Has(d, head) && Reach(d, head) == Reach(d0, head) && d.size == d0.size
    ensures |Contents(d, head)| == Times(|Chain(d, head)|, d.size)
    ensures |w| > 0 ==> off + |w| <= |Contents(d, head)|
  {
  }

  /** A chain that has the cluster of `off`, and all `n` bytes behind it, has as many clusters as they want. */
  lemma Holding(off: nat, n: nat, k: nat, count: nat, b: nat, size: nat)
    requires b > 0 && off < Times(k, b) + b && k < count && (n > 0 ==> off + n <= Times(count, b))
    ensures off < Times(count, b) && (n == size ==> Wanted(off, size, b) <= count)
  {
    TimesMono(k + 1, count, b);
    if n == size { WantedAtMost(off, n, count, b); }
  }

  /** Astray or not: the entries past the last cluster have not changed since. */
  lemma BeyondIff(d0: Disk, d: Disk, strays: seq<nat>)
    requires SameBeyond(d0, d) && 2 <= d.files.count
    requires strays != [] ==> Strays(d.files.fat, d.files.count, strays)
    ensures strays != [] ==> SomeBeyond(d0.files.fat, d.files.count)
    ensures NoneFree(d.files.fat) ==> !SomeBeyond(d0.files.fat, d.files.count)
  {
    if strays != [] { assert Link(d0.files.fat, strays[0]) == Link(d.files.fat, strays[0]) == 0; }
    if SomeBeyond(d0.files.fat, d.files.count) {
      var c :| 2 <= c < |d0.files.fat| && d.files.count <= c && Link(d0.files.fat, c) == 0;
      assert Link(d.files.fat, c) == Link(d0.files.fat, c) == 0;
    }
  }

  lemma NoneIsNoneBeyond(d: Disk)
    requires NoneFree(d.files.fat)
    ensures !SomeBeyond(d.files.fat, d.files.count)
  {
  }

  /** A file whose first cluster would be a stray has none, and no cluster is free. */
  lemma NoHead(d: Disk, c: nat)
    requires Sound(d) && d.files.count <= c && Free(d) == 0 && Strays(d.files.fat, d.files.count, [c]) && 2 <= d.files.count
    ensures !Has(d, c) && Reach(d, 0) == 0 && SomeBeyond(d.files.fat, d.files.count)
  {
    ZeroHasNone(d);
    assert ChainAt(d.files, c);
    assert [c][0] == c && Link(d.files.fat, c) == 0;
  }
}
