/** The FAT32 driver's volume: sectors on a block device, the FAT in them, and file data in clusters. */
module Fat32 {
  import opened Arith
  import opened Bytes
  import opened FatTable
  import opened FatRuns

  type Sector = seq<Byte>

  /** What read_blocks puts in the caller's buffer. */
  function Join(ss: seq<Sector>): (r: seq<Byte>) {
    if ss == [] then [] else ss[0] + Join(ss[1..])
  }

  /** How write_blocks cuts the caller's buffer into sectors. */
  function Split(buf: seq<Byte>, n: nat, bps: nat): (r: seq<Sector>)
    requires |buf| == Times(n, bps)
    ensures |r| == n && forall i :: 0 <= i < n ==> |r[i]| == bps
    decreases n
  {
    if n == 0 then [] else [buf[..bps]] + Split(buf[bps..], n - 1, bps)
  }

  lemma {:induction false} JoinSplit(buf: seq<Byte>, n: nat, bps: nat)
    requires |buf| == Times(n, bps)
    ensures Join(Split(buf, n, bps)) == buf
    decreases n
  {
    if n > 0 {
      JoinSplit(buf[bps..], n - 1, bps);
      var ss := Split(buf, n, bps);
      assert ss[0] == buf[..bps] && ss[1..] == Split(buf[bps..], n - 1, bps);
    }
  }

  lemma {:induction false} JoinLength(ss: seq<Sector>, bps: nat)
    requires forall i :: 0 <= i < |ss| ==> |ss[i]| == bps
    ensures |Join(ss)| == Times(|ss|, bps)
  {
    if ss != [] { JoinLength(ss[1..], bps); }
  }

  lemma FourTimes(c: nat, eps: nat, bps: nat)
    requires eps > 0 && bps == 4 * eps
    ensures c * 4 / bps == c / eps && c * 4 % bps == 4 * (c % eps) && c % eps < eps
  {
    FourParts(c, c / eps, c % eps, eps, bps);
    DivModUnique(c * 4, c / eps, 4 * (c % eps), bps);
  }

  lemma FourParts(c: nat, q: nat, r: nat, eps: nat, bps: nat)
    requires c == q * eps + r && bps == 4 * eps
    ensures c * 4 == q * bps + 4 * r
  {
    assert q * bps == 4 * (q * eps);
  }

  /** The volume's geometry, as the mount reads it from the boot sector. */
  datatype Geo = Geo(bps: nat, spc: nat, bpc: nat, firstFat: nat, firstData: nat, count: nat) {

    /** FAT entries in the sectors before the data area, which is all the allocation scan looks at. */
    function Entries(): nat
      requires firstFat <= firstData
    {
      Times(firstData - firstFat, bps / 4)
    }

    predicate Valid() {
      && bps > 0 && bps % 4 == 0 && spc > 0 && bpc > 0 && bpc == Times(spc, bps) && firstFat <= firstData
      && 2 <= count <= Entries() <= FAT32_BAD
    }

    predicate Fits(sectors: seq<Sector>) {
      && Valid()
      && firstData + Times(count - 2, spc) <= |sectors| < firstData + Times(count - 1, spc)
      && forall i :: 0 <= i < |sectors| ==> |sectors[i]| == bps
    }

    /** The FAT sector that holds entry `c`, and the word index of the entry in it. */
    function FatSector(c: nat): nat
      requires bps > 0
    {
      firstFat + c * 4 / bps
    }

    function FatIndex(c: nat): nat
      requires bps > 0
    {
      c * 4 % bps / 4
    }

    lemma EntryPlace(c: nat)
      requires Valid() && c < Entries()
      ensures FatSector(c) == firstFat + c / (bps / 4) < firstData
      ensures FatIndex(c) == c % (bps / 4) && 4 * FatIndex(c) + 4 <= bps
    {
      var eps := bps / 4;
      TimesIs(firstData - firstFat, eps);
      DivBelow(c, firstData - firstFat, eps);
      FourTimes(c, eps, bps);
    }

    /** Word `i` of FAT sector `sector` is the entry of cluster `Times(sector, bps / 4) + i`. */
    lemma ScanPlace(sector: nat, i: nat)
      requires Valid() && sector < firstData - firstFat && i < bps / 4
      ensures Times(sector, bps / 4) + i < Entries()
      ensures FatSector(Times(sector, bps / 4) + i) == firstFat + sector && FatIndex(Times(sector, bps / 4) + i) == i
    {
      var c := Times(sector, bps / 4) + i;
      TimesIs(sector, bps / 4);
      DivModUnique(c, sector, i, bps / 4);
      TimesMono(sector + 1, firstData - firstFat, bps / 4);
      EntryPlace(c);
    }

    /** The raw FAT entry of cluster `c`. */
    function Entry(sectors: seq<Sector>, c: nat): (v: nat)
      requires Fits(sectors) && c < Entries()
      ensures v < 0x1_0000_0000
    {
      EntryPlace(c);
      Word(sectors[FatSector(c)], FatIndex(c))
    }

    /** The sectors after the FAT sector holding entry `c` is written back with `v` in its place. */
    function PutEntry(sectors: seq<Sector>, c: nat, v: nat): (r: seq<Sector>)
      requires Fits(sectors) && c < Entries()
      ensures Fits(r) && |r| == |sectors|
      ensures forall i :: firstData <= i < |sectors| ==> r[i] == sectors[i]
    {
      EntryPlace(c);
      sectors[FatSector(c) := PutWord(sectors[FatSector(c)], FatIndex(c), v)]
    }

    lemma EntryOfPut(sectors: seq<Sector>, c: nat, v: nat, d: nat)
      requires Fits(sectors) && c < Entries() && d < Entries() && v < 0x1_0000_0000
      ensures Entry(PutEntry(sectors, c, v), d) == if c == d then v else Entry(sectors, d)
    {
      EntryPlace(c);
      EntryPlace(d);
      if FatSector(c) == FatSector(d) {
        PutWordWord(sectors[FatSector(c)], FatIndex(c), v, FatIndex(d));
        if FatIndex(c) == FatIndex(d) { DivModSame(c, d, bps / 4); }
      }
    }

    /** Cluster data lives in the data area only. */
    lemma DataFrame(sectors: seq<Sector>, sectors': seq<Sector>, d: nat)
      requires Fits(sectors) && Fits(sectors') && |sectors| == |sectors'| && 2 <= d < count
      requires forall i :: FirstSector(d) <= i < FirstSector(d) + spc && i < |sectors| ==>
        sectors'[i] == sectors[i]
      ensures Data(sectors', d) == Data(sectors, d)
    {
      ClusterPlace(d, sectors);
      var s := FirstSector(d);
      assert sectors'[s..s + spc] == sectors[s..s + spc];
    }

    /** The sectors after write_blocks stores `buf` as cluster `c`. */
    function PutData(sectors: seq<Sector>, c: nat, buf: seq<Byte>): (r: seq<Sector>)
      requires Fits(sectors) && 2 <= c < count && |buf| == bpc
      ensures Fits(r) && |r| == |sectors|
      ensures forall i :: 0 <= i < firstData ==> i < |sectors| && r[i] == sectors[i]
    {
      ClusterPlace(c, sectors);
      var s := FirstSector(c);
      sectors[..s] + Split(buf, spc, bps) + sectors[s + spc..]
    }

    lemma DataOfPut(sectors: seq<Sector>, c: nat, buf: seq<Byte>, d: nat)
      requires Fits(sectors) && 2 <= c < count && 2 <= d < count && |buf| == bpc
      ensures Data(PutData(sectors, c, buf), d) == if c == d then buf else Data(sectors, d)
    {
      ClusterPlace(c, sectors);
      ClusterPlace(d, sectors);
      var r := PutData(sectors, c, buf);
      var s := FirstSector(c);
      if c == d {
        assert r[s..s + spc] == Split(buf, spc, bps);
        JoinSplit(buf, spc, bps);
      } else {
        if c < d {
          TimesMono(c - 1, d - 2, spc);
        } else {
          TimesMono(d - 1, c - 2, spc);
        }
        DataFrame(sectors, r, d);
      }
    }

    /** cluster_to_sector */
    function FirstSector(c: nat): nat
      requires 2 <= c
    {
      firstData + Times(c - 2, spc)
    }

    lemma ClusterPlace(c: nat, sectors: seq<Sector>)
      requires Fits(sectors) && 2 <= c < count
      ensures firstData <= FirstSector(c) && FirstSector(c) + spc <= |sectors|
    {
      TimesMono(c - 1, count - 2, spc);
    }

    /** The device has the sectors of a cluster exactly when the cluster exists. */
    lemma ClusterExistsIff(c: nat, sectors: seq<Sector>)
      requires Fits(sectors) && 2 <= c
      ensures FirstSector(c) + spc <= |sectors| <==> c < count
    {
      if c < count {
        TimesMono(c - 1, count - 2, spc);
      } else {
        TimesMono(count - 1, c - 1, spc);
      }
    }

    function Data(sectors: seq<Sector>, c: nat): (r: seq<Byte>)
      requires Fits(sectors) && 2 <= c < count
      ensures |r| == bpc
    {
      ClusterPlace(c, sectors);
      var ss := sectors[FirstSector(c)..FirstSector(c) + spc];
      JoinLength(ss, bps);
      Join(ss)
    }

    /** `fat` and `area` are the entries and the cluster contents that the sectors hold. */
    ghost predicate Holds(sectors: seq<Sector>, fat: Table, area: seq<seq<Byte>>) {
      && Fits(sectors)
      && |fat| == Entries() && |area| == count
      && (forall c {:trigger Entry(sectors, c)} :: 0 <= c < Entries() ==> fat[c] == Entry(sectors, c))
      && (forall c {:trigger Data(sectors, c)} :: 2 <= c < count ==> area[c] == Data(sectors, c))
      && (forall c :: 0 <= c < count ==> |area[c]| == bpc)
    }

    /** What the allocation scan sees at word `i` of FAT sector `sector`. */
    lemma ScannedWord(sectors: seq<Sector>, fat: Table, area: seq<seq<Byte>>, sector: nat, i: nat)
      requires Holds(sectors, fat, area) && sector < firstData - firstFat && i < bps / 4
      ensures Times(sector, bps / 4) + i < |fat| && 4 * i + 4 <= bps
      ensures Word(sectors[firstFat + sector], i) == fat[Times(sector, bps / 4) + i]
    {
      ScanPlace(sector, i);
      assert fat[Times(sector, bps / 4) + i] == Entry(sectors, Times(sector, bps / 4) + i);
    }

    lemma HoldsAfterPutEntry(sectors: seq<Sector>, fat: Table, area: seq<seq<Byte>>, c: nat, v: nat)
      requires Holds(sectors, fat, area) && c < Entries() && v < 0x1_0000_0000
      ensures Holds(PutEntry(sectors, c, v), fat[c := v], area)
    {
      var sectors' := PutEntry(sectors, c, v);
      forall d | 0 <= d < Entries() ensures fat[c := v][d] == Entry(sectors', d) {
        EntryOfPut(sectors, c, v, d);
      }
      forall d | 2 <= d < count ensures area[d] == Data(sectors', d) {
        ClusterPlace(d, sectors);
        DataFrame(sectors, sectors', d);
      }
    }

    lemma HoldsAfterPutData(sectors: seq<Sector>, fat: Table, area: seq<seq<Byte>>, c: nat, buf: seq<Byte>)
      requires Holds(sectors, fat, area) && 2 <= c < count && |buf| == bpc
      ensures Holds(PutData(sectors, c, buf), fat, area[c := buf])
    {
      var sectors' := PutData(sectors, c, buf);
      forall d | 0 <= d < Entries() ensures fat[d] == Entry(sectors', d) {
        EntryPlace(d);
        assert fat[d] == Entry(sectors, d);
      }
      forall d | 2 <= d < count ensures area[c := buf][d] == Data(sectors', d) {
        DataOfPut(sectors, c, buf, d);
      }
    }
  }
}
