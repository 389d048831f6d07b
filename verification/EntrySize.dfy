/** What fat32_close leaves in the parent directory: the size of the file, in its entry. */
module EntrySize {
  import opened Arith
  import opened Bytes
  import opened Lfn
  import opened LfnRoundTrip
  import opened LfnDirectory
  import opened LfnCode
  import opened FatTable
  import FatRuns
  import opened FatFile
  import opened FatDisk
  import opened Fat32Volume

  // ---------------------------------------------------------------------------
  // A directory as a file of entries
  // ---------------------------------------------------------------------------

  /** The entries in the bytes of a directory. */
  function Slots(d: seq<Byte>): (r: seq<Entry>)
    ensures |r| == |d| / 32
  {
    seq<Entry>(|d| / 32, i requires 0 <= i < |d| / 32 => d[32 * i..32 * i + 32])
  }

  /** The search for a short name ends at an end mark or at the name. */
  predicate Stopper(e: Entry, short: seq<Byte>) { Ends(e) || e[..11] == short }

  ghost predicate NoStop(es: seq<Entry>, short: seq<Byte>, n: nat) {
    n <= |es| && forall j :: 0 <= j < n ==> !Stopper(es[j], short)
  }

  /** Entry `i` ends the search, or the search finds nothing. */
  ghost predicate FirstStop(es: seq<Entry>, short: seq<Byte>, i: nat) {
    NoStop(es, short, i) && (i < |es| ==> Stopper(es[i], short))
  }

  lemma FirstStopOnce(es: seq<Entry>, short: seq<Byte>, i: nat, j: nat)
    requires FirstStop(es, short, i) && FirstStop(es, short, j)
    ensures i == j
  {
  }

  function Resized(e: Entry, size: nat): Entry { e[..28] + WordBytes(size) }

  /** The entries after the size of `size` went into the entry with the short name, if the search finds it. */
  ghost predicate Sized(was: seq<Entry>, now: seq<Entry>, short: seq<Byte>, size: nat) {
    exists i: nat :: SizedAt(was, now, short, size, i)
  }

  ghost predicate SizedAt(was: seq<Entry>, now: seq<Entry>, short: seq<Byte>, size: nat, i: nat) {
    && FirstStop(was, short, i)
    && now == if i < |was| && !Ends(was[i]) then was[i := Resized(was[i], size)] else was
  }

  /** Writing the last four bytes of slot `i` resizes its entry. */
  lemma SlotsSplice(d: seq<Byte>, i: nat, size: nat)
    requires i < |d| / 32
    ensures 32 * i + 32 <= |d|
    ensures Slots(Splice(d, 32 * i + 28, WordBytes(size))) == Slots(d)[i := Resized(Slots(d)[i], size)]
  {
    var w := WordBytes(size);
    var d' := Splice(d, 32 * i + 28, w);
    SplicedLength(d, 32 * i + 28, w);
    forall j: nat | j < |d| / 32
      ensures Slots(d')[j] == if j == i then Resized(Slots(d)[i], size) else Slots(d)[j]
    {
      SlotSplice(d, i, w, j);
    }
  }

  lemma SplicedLength(d: seq<Byte>, at: nat, w: seq<Byte>)
    requires at + |w| <= |d|
    ensures |Splice(d, at, w)| == |d|
  {
  }

  lemma SlotSplice(d: seq<Byte>, i: nat, w: seq<Byte>, j: nat)
    requires 32 * i + 32 <= |d| && 32 * j + 32 <= |d| && |w| == 4
    ensures |Splice(d, 32 * i + 28, w)| == |d|
    ensures Splice(d, 32 * i + 28, w)[32 * j..32 * j + 32]
         == if j == i then d[32 * i..32 * i + 32][..28] + w else d[32 * j..32 * j + 32]
  {
  }

  // ---------------------------------------------------------------------------
  // What the listing shows then
  // ---------------------------------------------------------------------------

  lemma ResizedShort(name: seq<Byte>, attr: Byte, cluster: nat, was: nat, size: nat)
    ensures Resized(ShortEntry(name, attr, cluster, was), size) == ShortEntry(name, attr, cluster, size)
  {
    hide ShortOf, WordBytes, Half;
  }

  /** A fragment of a long name is never taken for the short entry. */
  lemma FragmentIsNotShort(name: seq<Byte>, k: nat)
    requires Plain(name) && k < Needed(name)
    ensures !Stopper(Fragment(name, k), ShortOf(name))
  {
    hide ShortOf, Checksum, Units;
    NeededBound(name);
    FragmentParts(name, k);
    FirstUnit(name, k);
    ShortThird(name);
    var e := Fragment(name, k);
    assert e[..11][2] == e[2];
  }

  lemma FirstUnit(name: seq<Byte>, k: nat)
    requires Plain(name) && k < Needed(name)
    ensures Fragment(name, k)[2] == 0
  {
    hide ShortOf, Checksum;
    UnitsFront(name, 13 * k, 5);
    assert Fragment(name, k)[1..11] == Units(name, 13 * k, 5);
    assert Fragment(name, k)[2] == Fragment(name, k)[1..11][1];
  }

  lemma ShortThird(name: seq<Byte>)
    requires Plain(name)
    ensures ShortOf(name)[2] != 0
  {
  }

  lemma {:induction false} FragmentsAreNotShort(name: seq<Byte>, n: nat)
    requires Plain(name) && n <= Needed(name)
    ensures NoStop(Fragments(name, n), ShortOf(name), n)
  {
    hide Fragment, Stopper, ShortOf;
    if n > 0 {
      FragmentIsNotShort(name, n - 1);
      FragmentsAreNotShort(name, n - 1);
      var fs, rest := Fragments(name, n), Fragments(name, n - 1);
      forall j | 0 <= j < n ensures !Stopper(fs[j], ShortOf(name)) {
        if j > 0 { assert fs[j] == rest[j - 1]; }
      }
    }
  }

  /** What a directory lists that has the entries of a name with this size between `a` and `b`. */
  function Shown(a: seq<Entry>, name: seq<Byte>, attr: Byte, cluster: nat, size: nat, b: seq<Entry>, st: Scan): seq<Node> {
    Through(a, st).1 + [NewNode(name, attr, cluster, size)] + Listing(b, IDLE)
  }

  /**
   * In a directory that has the entries of a name, the listing shows the name with its new size exactly when before these
   * entries there is no end mark and no other entry with the same short name.  Then nothing else changes.
   */
  lemma SizeShowsIff(a: seq<Entry>, b: seq<Entry>, name: seq<Byte>, attr: Byte, cluster: nat, was: nat, size: nat,
                     now: seq<Entry>, st: Scan)
    requires Plain(name) && name[0] != 0xE5 && Listed(attr) && cluster < 0x1_0000_0000
    requires was < 0x1_0000_0000 && size < 0x1_0000_0000 && was != size
    requires Sized(a + EntriesOf(name, attr, cluster, was) + b, now, ShortOf(name), size)
    ensures Listing(now, st) == Shown(a, name, attr, cluster, size, b, st) <==> NoStop(a, ShortOf(name), |a|)
    ensures NoEnd(a) ==>
      Listing(a + EntriesOf(name, attr, cluster, was) + b, st) == Shown(a, name, attr, cluster, was, b, st)
    ensures NoEnd(a) && !NoStop(a, ShortOf(name), |a|) ==>
      |Through(a, st).1| < |Listing(now, st)|
      && Listing(now, st)[|Through(a, st).1|] == NewNode(name, attr, cluster, was)
  {
    hide ShortOf, EntriesOf, Listing, Through, Stopper;
    var es := a + EntriesOf(name, attr, cluster, was) + b;
    var i: nat :| SizedAt(es, now, ShortOf(name), size, i);
    if NoEnd(a) { Placed(a, name, attr, cluster, was, b, st); }
    if NoStop(a, ShortOf(name), |a|) {
      SizeShows(a, b, name, attr, cluster, was, size, now, st, i);
    } else {
      assert es == a + (EntriesOf(name, attr, cluster, was) + b);
      EarlierStop(a, EntriesOf(name, attr, cluster, was) + b, ShortOf(name), i);
      SizeMisses(a, b, name, attr, cluster, was, size, now, st, i);
    }
  }

  lemma SizeShows(a: seq<Entry>, b: seq<Entry>, name: seq<Byte>, attr: Byte, cluster: nat, was: nat, size: nat,
                  now: seq<Entry>, st: Scan, i: nat)
    requires Plain(name) && name[0] != 0xE5 && Listed(attr) && cluster < 0x1_0000_0000
    requires was < 0x1_0000_0000 && size < 0x1_0000_0000 && NoStop(a, ShortOf(name), |a|)
    requires SizedAt(a + EntriesOf(name, attr, cluster, was) + b, now, ShortOf(name), size, i)
    ensures Listing(now, st) == Shown(a, name, attr, cluster, size, b, st)
  {
    hide ShortOf, Fragments, ShortEntry, Listing, Through, NewNode, Resized;
    ItsEntry(a, b, name, attr, cluster, was, i);
    ResizedShort(name, attr, cluster, was, size);
    Replaced(a, Fragments(name, Needed(name)), ShortEntry(name, attr, cluster, was),
             ShortEntry(name, attr, cluster, size), b);
    Placed(a, name, attr, cluster, size, b, st);
  }

  /** An entry before those of the name stops the search. */
  lemma EarlierStop(a: seq<Entry>, rest: seq<Entry>, short: seq<Byte>, i: nat)
    requires FirstStop(a + rest, short, i) && !NoStop(a, short, |a|)
    ensures i < |a|
  {
    hide Stopper;
    var es := a + rest;
    var j :| 0 <= j < |a| && Stopper(a[j], short);
    assert es[j] == a[j];
  }

  lemma SizeMisses(a: seq<Entry>, b: seq<Entry>, name: seq<Byte>, attr: Byte, cluster: nat, was: nat, size: nat,
                   now: seq<Entry>, st: Scan, i: nat)
    requires Plain(name) && name[0] != 0xE5 && Listed(attr) && cluster < 0x1_0000_0000
    requires was < 0x1_0000_0000 && size < 0x1_0000_0000 && was != size && i < |a|
    requires SizedAt(a + EntriesOf(name, attr, cluster, was) + b, now, ShortOf(name), size, i)
    ensures Listing(now, st) != Shown(a, name, attr, cluster, size, b, st)
    ensures NoEnd(a) ==>
      |Through(a, st).1| < |Listing(now, st)|
      && Listing(now, st)[|Through(a, st).1|] == NewNode(name, attr, cluster, was)
  {
    hide ShortOf, EntriesOf, Listing, Through, Resized, Stopper, Ends;
    var rest := EntriesOf(name, attr, cluster, was) + b;
    var a' := if !Ends(a[i]) then a[i := Resized(a[i], size)] else a;
    assert (a + EntriesOf(name, attr, cluster, was) + b)[i] == a[i];
    ResizedBefore(a, EntriesOf(name, attr, cluster, was), b, i, size);
    SameCount(a, a', i, size, st);
    if NoEnd(a) {
      Placed(a', name, attr, cluster, was, b, st);
      var n := |Through(a, st).1|;
      assert Shown(a, name, attr, cluster, size, b, st)[n] == NewNode(name, attr, cluster, size);
      assert Listing(now, st)[n] == NewNode(name, attr, cluster, was) != NewNode(name, attr, cluster, size);
    } else {
      assert now == a' + rest;
      CutShort(a', rest, st);
    }
  }

  lemma ResizedBefore(a: seq<Entry>, e: seq<Entry>, b: seq<Entry>, i: nat, size: nat)
    requires i < |a|
    ensures (a + e + b)[i := Resized(a[i], size)] == a[i := Resized(a[i], size)] + e + b
    ensures a + e + b == a + (e + b)
    ensures a[i := Resized(a[i], size)] + e + b == a[i := Resized(a[i], size)] + (e + b)
  {
    hide Resized;
  }

  /** Another size in one entry changes neither which entries end the directory nor how many nodes there are. */
  lemma SameCount(a: seq<Entry>, a': seq<Entry>, i: nat, size: nat, st: Scan)
    requires i < |a| && (a' == a || a' == a[i := Resized(a[i], size)])
    ensures |Through(a', st).1| == |Through(a, st).1| && (NoEnd(a') <==> NoEnd(a))
  {
    hide Resized, Through;
    ResizedKind(a[i], size);
    forall j | 0 <= j < |a| ensures a'[j][0] == a[j][0] && a'[j][11] == a[j][11] {}
    ThroughCount(a, a', st, st);
    if NoEnd(a) { forall j | 0 <= j < |a'| ensures !Ends(a'[j]) { assert !Ends(a[j]); } }
    if NoEnd(a') { forall j | 0 <= j < |a| ensures !Ends(a[j]) { assert !Ends(a'[j]); } }
  }

  lemma ResizedKind(e: Entry, size: nat)
    ensures Resized(e, size)[0] == e[0] && Resized(e, size)[11] == e[11]
  {
  }

  lemma {:induction false} ThroughCount(a: seq<Entry>, a': seq<Entry>, st: Scan, st': Scan)
    requires |a| == |a'| && forall j :: 0 <= j < |a| ==> a'[j][0] == a[j][0] && a'[j][11] == a[j][11]
    ensures |Through(a', st').1| == |Through(a, st).1|
  {
    hide Long, NodeOf;
    if a != [] {
      CountOf(a[0], a'[0], st, st');
      ThroughCount(a[1..], a'[1..], After(st, a[0]).0, After(st', a'[0]).0);
    }
  }

  lemma CountOf(e: Entry, e': Entry, st: Scan, st': Scan)
    requires e'[0] == e[0] && e'[11] == e[11]
    ensures |After(st', e').1| == |After(st, e).1|
  {
    hide Long, NodeOf;
  }

  /** With an end mark among the first entries, nothing behind them shows. */
  lemma {:induction false} CutShort(a: seq<Entry>, rest: seq<Entry>, st: Scan)
    requires !NoEnd(a)
    ensures |Listing(a + rest, st)| <= |Through(a, st).1|
  {
    hide After;
    if !Ends(a[0]) {
      assert (a + rest)[1..] == a[1..] + rest;
      var i :| 0 <= i < |a| && Ends(a[i]);
      assert a[1..][i - 1] == a[i];
      CutShort(a[1..], rest, After(st, a[0]).0);
    }
  }

  /**
   * Two names with one short name, one behind the other: closing the second file writes its size into the entry of the
   * first.
   */
  lemma SizeStrays(one: seq<Byte>, two: seq<Byte>, attr: Byte, c1: nat, c2: nat, was1: nat, was2: nat, size: nat,
                   b: seq<Entry>, now: seq<Entry>, st: Scan)
    requires Plain(one) && one[0] != 0xE5 && Plain(two) && two[0] != 0xE5 && ShortOf(one) == ShortOf(two) && Listed(attr)
    requires c1 < 0x1_0000_0000 && c2 < 0x1_0000_0000
    requires was1 < 0x1_0000_0000 && was2 < 0x1_0000_0000 && size < 0x1_0000_0000
    requires Sized(EntriesOf(one, attr, c1, was1) + EntriesOf(two, attr, c2, was2) + b, now, ShortOf(two), size)
    ensures Listing(now, st) == [NewNode(one, attr, c1, size)] + ([NewNode(two, attr, c2, was2)] + Listing(b, IDLE))
  {
    hide ShortOf, EntriesOf, Listing, Stopper, NewNode, Through, SizedAt;
    var rest := EntriesOf(two, attr, c2, was2) + b;
    var es := EntriesOf(one, attr, c1, was1) + EntriesOf(two, attr, c2, was2) + b;
    assert es == [] + EntriesOf(one, attr, c1, was1) + rest;
    var i: nat :| SizedAt(es, now, ShortOf(two), size, i);
    SizeShows([], rest, one, attr, c1, was1, size, now, st, i);
    NothingThrough(st);
    Placed([], two, attr, c2, was2, b, IDLE);
    NothingThrough(IDLE);
    assert [] + EntriesOf(two, attr, c2, was2) + b == rest;
  }

  lemma NothingThrough(st: Scan)
    ensures Through([], st).1 == []
  {
  }

  ghost predicate NoDot(s: seq<Byte>) { forall i :: 0 <= i < |s| ==> s[i] != 46 }

  /** Names that share their first eight characters and their extension have one short name. */
  lemma Collides(stem: seq<Byte>, one: seq<Byte>, two: seq<Byte>, ext: seq<Byte>)
    requires |stem| == 8 && NoDot(stem) && NoDot(one) && NoDot(two)
    ensures ShortOf(stem + one + [46] + ext) == ShortOf(stem + two + [46] + ext)
  {
    hide Field;
    var x, y := stem + one + [46] + ext, stem + two + [46] + ext;
    FirstDotIs(x, 8 + |one|);
    FirstDotIs(y, 8 + |two|);
    Cut(stem, one, ext);
    Cut(stem, two, ext);
    SameField(stem + one, stem + two);
  }

  lemma Cut(stem: seq<Byte>, one: seq<Byte>, ext: seq<Byte>)
    ensures var x, n := stem + one + [46] + ext, |stem| + |one|; x[..n] == stem + one && x[n + 1..] == ext
    ensures (stem + one)[..|stem|] == stem
  {
  }

  /** document_one.txt and document_two.txt. */
  lemma CollidingDocuments()
    ensures var stem, one, two, ext := [100, 111, 99, 117, 109, 101, 110, 116], [95, 111, 110, 101], [95, 116, 119, 111],
                                       [116, 120, 116];
      && stem + one + [46] + ext != stem + two + [46] + ext
      && Plain(stem + one + [46] + ext) && Plain(stem + two + [46] + ext)
      && ShortOf(stem + one + [46] + ext) == ShortOf(stem + two + [46] + ext)
  {
    hide ShortOf;
    var stem, one, two, ext := [100, 111, 99, 117, 109, 101, 110, 116], [95, 111, 110, 101], [95, 116, 119, 111],
                               [116, 120, 116];
    Collides(stem, one, two, ext);
    assert (stem + one + [46] + ext)[9] != (stem + two + [46] + ext)[9];
  }

  lemma SameField(s: seq<Byte>, t: seq<Byte>)
    requires |s| >= 8 && |t| >= 8 && s[..8] == t[..8]
    ensures Field(s, 8) == Field(t, 8)
  {
    forall i | 0 <= i < 8 ensures s[i] == t[i] { assert s[..8][i] == t[..8][i]; }
  }

  /** The search ends at the short entry of the name. */
  lemma ItsEntry(a: seq<Entry>, b: seq<Entry>, name: seq<Byte>, attr: Byte, cluster: nat, size: nat, i: nat)
    requires Plain(name) && name[0] != 0xE5 && cluster < 0x1_0000_0000 && size < 0x1_0000_0000
    requires NoStop(a, ShortOf(name), |a|)
    requires FirstStop(a + EntriesOf(name, attr, cluster, size) + b, ShortOf(name), i)
    ensures i == |a| + Needed(name) && NoEnd(a)
    ensures var es := a + EntriesOf(name, attr, cluster, size) + b;
      i < |es| && es[i] == ShortEntry(name, attr, cluster, size) && !Ends(es[i])
  {
    hide ShortOf, Fragments, ShortEntry;
    var fs, e := Fragments(name, Needed(name)), ShortEntry(name, attr, cluster, size);
    var es, at := a + EntriesOf(name, attr, cluster, size) + b, |a| + Needed(name);
    FragmentsAreNotShort(name, Needed(name));
    ShortParts(name, attr, cluster, size);
    ShortFirst(name);
    assert es[at] == e && e[0] == e[..11][0];
    forall j | 0 <= j < at ensures !Stopper(es[j], ShortOf(name)) {
      if j < |a| { assert es[j] == a[j]; } else { assert es[j] == fs[j - |a|]; }
    }
    FirstStopOnce(es, ShortOf(name), i, at);
  }

  lemma Replaced(a: seq<Entry>, fs: seq<Entry>, e: Entry, e': Entry, b: seq<Entry>)
    ensures (a + (fs + [e]) + b)[|a| + |fs| := e'] == a + (fs + [e']) + b
  {
  }

  // ---------------------------------------------------------------------------
  // The loop
  // ---------------------------------------------------------------------------

  /** Slot `j` of cluster `k` of a directory. */
  lemma SlotPlace(d: Disk, head: nat, k: nat, per: nat, j: nat)
    requires Sound(d) && k < |Chain(d, head)| && d.size == 32 * per && j < per
    ensures 32 * Times(k, per) == Times(k, d.size) && Times(k, per) + per <= |Slots(Contents(d, head))|
    ensures |d.area[Chain(d, head)[k]]| == d.size
    ensures Slots(Contents(d, head))[Times(k, per) + j] == d.area[Chain(d, head)[k]][32 * j..32 * j + 32]
  {
    hide FatRuns.WellFormed, FileBytes;
    var ch := Chain(d, head);
    TimesScaled(k, per, d.size);
    TimesScaled(|ch|, per, d.size);
    TimesMono(k + 1, |ch|, per);
    SliceOfFile(d.area, d.size, ch, k, 32 * j, 32);
  }

  lemma TimesScaled(k: nat, per: nat, size: nat)
    requires size == 32 * per
    ensures 32 * Times(k, per) == Times(k, size)
  {
    TimesIs(k, per);
    TimesIs(k, size);
    assert k * size == 32 * (k * per);
  }

  /** The inner loop: where the search stops in one cluster. */
  method ScanCluster(buf: seq<Byte>, short: seq<Byte>, per: nat) returns (j: nat)
    requires |buf| == 32 * per
    ensures j <= per && forall i :: 0 <= i < j ==> !Stopper(buf[32 * i..32 * i + 32], short)
    ensures j < per ==> Stopper(buf[32 * j..32 * j + 32], short)
  {
    j := 0;
    while j < per
      invariant j <= per && forall i :: 0 <= i < j ==> !Stopper(buf[32 * i..32 * i + 32], short)
    {
      var e := buf[32 * j..32 * j + 32];
      if e[0] == 0 || e[..11] == short { return; }
      j := j + 1;
    }
  }

  /** Everything but the directory at `parent` is as it was, and its entries have the new size where it belongs. */
  ghost predicate Updated(d0: Disk, d: Disk, parent: nat, short: seq<Byte>, size: nat) {
    && Sound(d0) && Sound(d) && d.files == d0.files && d.size == d0.size
    && (forall h :: h != parent ==> SameFile(d0, d, h))
    && Sized(Slots(Contents(d0, parent)), Slots(Contents(d, parent)), short, size)
  }

  /** fat32_update_entry_size. */
  method UpdateEntrySize(vol: Volume, parent: nat, short: seq<Byte>, size: nat) returns (code: int)
    requires vol.Valid() && Has(vol.disk, parent) && vol.geo.bpc % 32 == 0
    modifies vol`sectors, vol`disk
    ensures vol.Valid() && Updated(old(vol.disk), vol.disk, parent, short, size)
    ensures code == 0 <==> exists i ::
      0 <= i < |Slots(Contents(old(vol.disk), parent))| && FirstStop(Slots(Contents(old(vol.disk), parent)), short, i)
      && !Ends(Slots(Contents(old(vol.disk), parent))[i])
  {
    hide FatRuns.WellFormed, FileBytes, Sound, Slots, FatDisk.Contents, Updated, Stopper;
    ghost var d := vol.disk;
    ghost var es := Slots(Contents(d, parent));
    ghost var ch := Chain(d, parent);
    var per := vol.geo.bpc / 32;
    var cluster := parent;
    ghost var k: nat := 0;
    InChain(d, parent);
    while true
      invariant vol.Valid() && vol.disk == d && k < |ch| && cluster == ch[k] && NoStop(es, short, Times(k, per))
      decreases |ch| - k
    {
      var buf := vol.ReadCluster(cluster);
      var j := ScanCluster(buf, short, per);
      ScanStops(d, parent, k, per, j, short, buf);
      if j < per {
        Stopped(es, short, Times(k, per) + j);
        if buf[32 * j] == 0 {
          NotSized(d, parent, short, size, Times(k, per) + j);
          return -1;
        }
        vol.StorePiece(parent, k, cluster, 32 * j + 28, WordBytes(size));
        SizedThere(d, parent, k, per, j, short, size);
        return 0;
      }
      cluster := vol.Follow(cluster, parent, k);
      if cluster >= FAT32_EOF || cluster == FAT32_BAD {
        AllSeen(d, parent, k, per);
        NotSized(d, parent, short, size, |es|);
        return -1;
      }
      k := k + 1;
    }
  }

  lemma InChain(d: Disk, head: nat)
    requires Sound(d) && Has(d, head)
    ensures |Chain(d, head)| > 0 && Chain(d, head)[0] == head
    ensures forall i :: 0 <= i < |Chain(d, head)| ==> 2 <= Chain(d, head)[i] < d.files.count
  {
    ChainFacts(d, head);
  }

  lemma ScanStops(d: Disk, head: nat, k: nat, per: nat, j: nat, short: seq<Byte>, buf: seq<Byte>)
    requires Sound(d) && k < |Chain(d, head)| && d.size == 32 * per && j <= per
    requires buf == d.area[Chain(d, head)[k]] && |buf| == d.size && NoStop(Slots(Contents(d, head)), short, Times(k, per))
    requires forall i :: 0 <= i < j ==> !Stopper(buf[32 * i..32 * i + 32], short)
    ensures NoStop(Slots(Contents(d, head)), short, Times(k, per) + j)
    ensures j < per ==> Times(k, per) + j < |Slots(Contents(d, head))|
    ensures j < per ==> Slots(Contents(d, head))[Times(k, per) + j] == buf[32 * j..32 * j + 32]
    ensures Times(k + 1, per) == Times(k, per) + per
  {
    hide Slots, FatDisk.Contents, Stopper;
    var es := Slots(Contents(d, head));
    if per > 0 { SlotPlace(d, head, k, per, 0); }
    forall i | 0 <= i < Times(k, per) + j ensures !Stopper(es[i], short) {
      if i >= Times(k, per) { SlotPlace(d, head, k, per, i - Times(k, per)); }
    }
    if j < per { SlotPlace(d, head, k, per, j); }
  }

  lemma Stopped(es: seq<Entry>, short: seq<Byte>, i: nat)
    requires NoStop(es, short, i) && i < |es| && Stopper(es[i], short)
    ensures FirstStop(es, short, i) && forall j: nat :: FirstStop(es, short, j) ==> j == i
  {
    forall j: nat | FirstStop(es, short, j) ensures j == i { FirstStopOnce(es, short, i, j); }
  }

  lemma AllSeen(d: Disk, head: nat, k: nat, per: nat)
    requires Sound(d) && k + 1 == |Chain(d, head)| && d.size == 32 * per
    ensures Times(k + 1, per) == |Slots(Contents(d, head))|
  {
    TimesScaled(k + 1, per, d.size);
  }

  lemma NotSized(d: Disk, parent: nat, short: seq<Byte>, size: nat, i: nat)
    requires Sound(d) && FirstStop(Slots(Contents(d, parent)), short, i)
    requires var es := Slots(Contents(d, parent)); i == |es| || Ends(es[i])
    ensures Updated(d, d, parent, short, size)
    ensures forall j: nat :: FirstStop(Slots(Contents(d, parent)), short, j) ==> j == i
  {
    hide Slots, FatDisk.Contents, Stopper;
    var es := Slots(Contents(d, parent));
    assert SizedAt(es, es, short, size, i);
    forall j: nat | FirstStop(es, short, j) ensures j == i { FirstStopOnce(es, short, i, j); }
  }

  lemma SizedThere(d: Disk, parent: nat, k: nat, per: nat, j: nat, short: seq<Byte>, size: nat)
    requires Sound(d) && Has(d, parent) && k < |Chain(d, parent)| && d.size == 32 * per && j < per
    requires var es := Slots(Contents(d, parent));
      Times(k, per) + j < |es| && FirstStop(es, short, Times(k, per) + j) && !Ends(es[Times(k, per) + j])
    ensures Updated(d, Patched(d, parent, k, 32 * j + 28, WordBytes(size)), parent, short, size)
  {
    hide Slots, FatDisk.Contents, Stopper, WordBytes, Splice, Resized;
    var p, i := WordBytes(size), Times(k, per) + j;
    var d' := Patched(d, parent, k, 32 * j + 28, p);
    PatchSound(d, parent, k, 32 * j + 28, p);
    SlotPlace(d, parent, k, per, j);
    SlotsSplice(Contents(d, parent), i, size);
    assert SizedAt(Slots(Contents(d, parent)), Slots(Contents(d', parent)), short, size, i);
    forall h | h != parent ensures SameFile(d, d', h) { PatchOther(d, parent, k, 32 * j + 28, p, h); }
  }
}
