/** The loops that write and read directory entries, against the functions of Lfn. */
module LfnCode {
  import opened Bytes
  import opened Lfn
  import opened LfnRoundTrip
  import opened LfnDirectory

  // ---------------------------------------------------------------------------
  // Writing
  // ---------------------------------------------------------------------------

  /** fat32_checksum. */
  method Sum(sfn: seq<Byte>) returns (sum: Byte)
    ensures sum == Checksum(sfn)
  {
    sum := 0;
    for i := 0 to |sfn|
      invariant sum == Checksum(sfn[..i])
    {
      assert sfn[..i + 1][..i] == sfn[..i];
      sum := ((if sum % 2 == 1 then 0x80 else 0) + sum / 2 + sfn[i]) % 256;
    }
    assert sfn[..|sfn|] == sfn;
  }

  lemma {:induction false} FirstDotIs(name: seq<Byte>, i: nat)
    requires i <= |name| && (forall j :: 0 <= j < i ==> name[j] != 46) && (i < |name| ==> name[i] == 46)
    ensures FirstDot(name) == i
  {
    if i > 0 { FirstDotIs(name[1..], i - 1); }
  }

  /** fat32_to_83_name. */
  method ToShort(name: seq<Byte>) returns (r: seq<Byte>)
    ensures r == ShortOf(name)
  {
    var i, d := 0, 0;
    var dest: seq<Byte> := seq(11, _ => 32);
    while i < |name| && name[i] != 46 && d < 8
      invariant i == d <= |name| && d <= 8 && |dest| == 11
      invariant forall j :: 0 <= j < i ==> name[j] != 46 && dest[j] == Capital(name[j])
      invariant forall j :: i <= j < 11 ==> dest[j] == 32
    {
      dest := dest[d := Capital(name[i])];
      i, d := i + 1, d + 1;
    }
    ghost var head := d;
    while i < |name| && name[i] != 46
      invariant head <= i <= |name| && (i > head ==> head == 8) && forall j :: 0 <= j < i ==> name[j] != 46
    {
      i := i + 1;
    }
    FirstDotIs(name, i);
    assert dest[..8] == Field(name[..i], 8);
    ghost var front := dest[..8];
    if i < |name| { i := i + 1; }
    ghost var ext := i;
    d := 8;
    while i < |name| && d < 11
      invariant ext <= i <= |name| && 8 <= d <= 11 && |dest| == 11 && i - ext == d - 8 && dest[..8] == front
      invariant forall j :: 8 <= j < d ==> dest[j] == Capital(name[ext + j - 8])
      invariant forall j :: d <= j < 11 ==> dest[j] == 32
    {
      dest := dest[d := Capital(name[i])];
      i, d := i + 1, d + 1;
    }
    r := dest;
    assert r[8..] == Field(name[ext..], 3);
    assert r == r[..8] + r[8..];
  }

  /** One of the three loops that lay out 16-bit units. */
  method PutUnits(name: seq<Byte>, start: nat, n: nat) returns (r: seq<Byte>)
    ensures r == Units(name, start, n)
  {
    r := [];
    for k := 0 to n
      invariant r == Units(name, start, k)
    {
      var i := start + k;
      var wc := if i < |name| then name[i] else if i == |name| then 0 else 0xFFFF;
      r := r + [wc % 256, wc / 256 % 256];
    }
  }

  method BuildFragment(name: seq<Byte>, k: nat, sum: Byte) returns (e: Entry)
    requires k < Needed(name) && |name| <= 255 && sum == Checksum(ShortOf(name))
    ensures e == Fragment(name, k)
  {
    hide Units, Checksum, ShortOf;
    NeededBound(name);
    var u1 := PutUnits(name, 13 * k, 5);
    var u2 := PutUnits(name, 13 * k + 5, 6);
    var u3 := PutUnits(name, 13 * k + 11, 2);
    var number := if k == Needed(name) - 1 then k + 1 + 0x40 else k + 1;
    e := [number] + u1 + [0x0F, 0, sum] + u2 + [0, 0] + u3;
  }

  lemma {:induction false} FragmentsAt(name: seq<Byte>, n: nat, j: nat)
    requires j < n <= Needed(name) && |name| <= 255
    ensures Fragments(name, n)[j] == Fragment(name, n - 1 - j)
  {
    hide Fragment;
    if j > 0 { FragmentsAt(name, n - 1, j - 1); }
  }

  /** Writes the fragments, last one first, and the short entry behind them. */
  method WriteEntries(entries: array<Entry>, s: nat, name: seq<Byte>, attr: Byte, cluster: nat, size: nat)
    requires |name| <= 255 && s + Needed(name) + 1 <= entries.Length
    modifies entries
    ensures entries[..] == old(entries[..s]) + EntriesOf(name, attr, cluster, size) + old(entries[s + Needed(name) + 1..])
  {
    hide Fragment, Fragments, ShortEntry, Checksum, ShortOf;
    ghost var before, n := entries[..], Needed(name);
    var sfn := ToShort(name);
    var sum := Sum(sfn);
    var k: nat, at := Needed(name), s;
    ghost var frags := Fragments(name, n);
    while k > 0
      invariant k <= n && at == s + n - k
      invariant entries[..at] == before[..s] + frags[..n - k] && entries[at..] == before[at..]
    {
      k := k - 1;
      FragmentsAt(name, n, n - 1 - k);
      var e := BuildFragment(name, k, sum);
      ghost var rest := entries[at..];
      entries[at] := e;
      assert entries[at + 1..] == rest[1..];
      assert entries[..at + 1] == before[..s] + frags[..n - k];
      at := at + 1;
    }
    ghost var front := entries[..at];
    assert frags[..n] == frags;
    entries[at] := ShortEntry(name, attr, cluster, size);
    assert entries[..] == front + [ShortEntry(name, attr, cluster, size)] + before[at + 1..];
    Assembled(before, s, name, attr, cluster, size);
  }

  lemma Assembled(before: seq<Entry>, s: nat, name: seq<Byte>, attr: Byte, cluster: nat, size: nat)
    requires |name| <= 255 && s + Needed(name) + 1 <= |before|
    ensures before[..s] + Fragments(name, Needed(name)) + [ShortEntry(name, attr, cluster, size)]
        + before[s + Needed(name) + 1..]
      == before[..s] + EntriesOf(name, attr, cluster, size) + before[s + Needed(name) + 1..]
  {
    hide Fragments, ShortEntry;
    Joined(before[..s], Fragments(name, Needed(name)), [ShortEntry(name, attr, cluster, size)]);
  }

  lemma Joined(a: seq<Entry>, b: seq<Entry>, c: seq<Entry>)
    ensures a + b + c == a + (b + c)
  {
  }

  ghost predicate RunAt(es: seq<Entry>, t: nat, n: nat) { t + n <= |es| && AllOpen(es[t..t + n]) }

  /** There are `n` open entries in a row. */
  ghost predicate HasRoom(es: seq<Entry>, n: nat) { exists t: nat :: RunAt(es, t, n) }

  /** One directory cluster: the first run of open entries that is long enough is used, if there is one. */
  method AddToCluster(entries: array<Entry>, name: seq<Byte>, attr: Byte, cluster: nat, size: nat)
    returns (ok: bool, s: nat)
    requires |name| <= 255
    modifies entries
    ensures ok <==> HasRoom(old(entries[..]), Needed(name) + 1)
    ensures ok ==> RunAt(old(entries[..]), s, Needed(name) + 1)
    ensures ok ==> s == 0 || !Open(old(entries[..])[s - 1])
    ensures ok ==> entries[..] == old(entries[..])[..s] + EntriesOf(name, attr, cluster, size)
                                + old(entries[..])[s + Needed(name) + 1..]
    ensures !ok ==> entries[..] == old(entries[..])
  {
    hide EntriesOf, Needed;
    s := 0;
    var r := FindRoom(entries[..], Needed(name) + 1);
    if r == -1 { return false, s; }
    s := r;
    WriteEntries(entries, r, name, attr, cluster, size);
    ok := true;
  }

  /** The scan for `n` open entries in a row; -1 when there are none. */
  method FindRoom(es: seq<Entry>, n: nat) returns (r: int)
    requires n > 0
    ensures r == -1 ==> !HasRoom(es, n)
    ensures r != -1 ==> r >= 0 && RunAt(es, r, n) && (r == 0 || !Open(es[r - 1]))
  {
    var found, start := 0, 0;
    for i := 0 to |es|
      invariant found < n && found <= i && (found > 0 ==> start == i - found)
      invariant forall j :: i - found <= j < i ==> Open(es[j])
      invariant i == found || !Open(es[i - found - 1])
      invariant forall t: nat :: t + n <= i ==> !RunAt(es, t, n)
    {
      if Open(es[i]) {
        if found == 0 { start := i; }
        found := found + 1;
        if found == n {
          assert RunAt(es, start, n);
          return start;
        }
      } else {
        found := 0;
      }
      forall t: nat | t + n <= i + 1 ensures !RunAt(es, t, n) {
        if t + n == i + 1 { NoRun(es, t, n, i + 1 - found); }
      }
    }
    r := -1;
  }

  /** A run reaches over the entry before the last `t + n - from` ones. */
  lemma NoRun(es: seq<Entry>, t: nat, n: nat, from: nat)
    requires t < from <= t + n <= |es| && !Open(es[from - 1])
    ensures !RunAt(es, t, n)
  {
    assert es[t..t + n][from - 1 - t] == es[from - 1];
  }

  // ---------------------------------------------------------------------------
  // Directories of any number of clusters
  // ---------------------------------------------------------------------------

  /** The entries of a directory, cluster after cluster. */
  function Flat(dir: seq<seq<Entry>>): seq<Entry> {
    if dir == [] then [] else dir[0] + Flat(dir[1..])
  }

  lemma {:induction false} FlatSplit(dir: seq<seq<Entry>>, k: nat)
    requires k <= |dir|
    ensures Flat(dir) == Flat(dir[..k]) + Flat(dir[k..])
  {
    if k > 0 {
      FlatSplit(dir[1..], k - 1);
      assert dir[..k][1..] == dir[1..][..k - 1] && dir[k..] == dir[1..][k - 1..];
    } else {
      assert dir[k..] == dir;
    }
  }

  lemma FlatAt(dir: seq<seq<Entry>>, k: nat)
    requires k < |dir|
    ensures Flat(dir) == Flat(dir[..k]) + (dir[k] + Flat(dir[k + 1..]))
  {
    FlatSplit(dir, k);
    assert dir[k..][1..] == dir[k + 1..];
  }

  /** A cluster as the driver clears it. */
  function Cleared(e: nat): (r: seq<Entry>)
    ensures |r| == e
  {
    seq<Entry>(e, _ => seq(32, _ => 0))
  }

  lemma ClearedRoom(e: nat, n: nat)
    requires n > 0
    ensures HasRoom(Cleared(e), n) <==> n <= e
  {
    var c := Cleared(e);
    if n <= e {
      assert RunAt(c, 0, n);
    } else {
      forall t: nat ensures !RunAt(c, t, n) {}
    }
  }

  /** All clusters of `e` entries. */
  ghost predicate Even(dir: seq<seq<Entry>>, e: nat) { forall c :: 0 <= c < |dir| ==> |dir[c]| == e }

  ghost predicate Roomless(dir: seq<seq<Entry>>, n: nat) { forall c :: 0 <= c < |dir| ==> !HasRoom(dir[c], n) }

  /** The directory with `m` cleared clusters behind it. */
  ghost function Longer(dir: seq<seq<Entry>>, m: nat, e: nat): seq<seq<Entry>> { dir + seq(m, _ => Cleared(e)) }

  /** Where the entries of a name go: a run of open entries in the first cluster that has one long enough. */
  datatype Place = Place(k: nat, s: nat)

  ghost predicate Suits(dir: seq<seq<Entry>>, p: Place, n: nat) {
    && p.k < |dir| && Roomless(dir[..p.k], n) && RunAt(dir[p.k], p.s, n)
    && (p.s == 0 || !Open(dir[p.k][p.s - 1]))
  }

  ghost function Before(dir: seq<seq<Entry>>, p: Place): seq<Entry>
    requires p.k < |dir| && p.s <= |dir[p.k]|
  {
    Flat(dir[..p.k]) + dir[p.k][..p.s]
  }

  ghost function Behind(dir: seq<seq<Entry>>, p: Place, n: nat): seq<Entry>
    requires p.k < |dir| && p.s + n <= |dir[p.k]|
  {
    dir[p.k][p.s + n..] + Flat(dir[p.k + 1..])
  }

  lemma FlatParts(dir: seq<seq<Entry>>, p: Place, n: nat)
    requires p.k < |dir| && p.s + n <= |dir[p.k]|
    ensures Flat(dir) == Before(dir, p) + (dir[p.k][p.s..p.s + n] + Behind(dir, p, n))
  {
    hide Flat;
    FlatAt(dir, p.k);
    ThreeParts(dir[p.k], p.s, n);
    Regroup(Flat(dir[..p.k]), dir[p.k][..p.s], dir[p.k][p.s..p.s + n], dir[p.k][p.s + n..], Flat(dir[p.k + 1..]));
  }

  lemma ThreeParts(c: seq<Entry>, s: nat, n: nat)
    requires s + n <= |c|
    ensures c == c[..s] + c[s..s + n] + c[s + n..]
  {
  }

  lemma Regroup(a: seq<Entry>, b: seq<Entry>, c: seq<Entry>, d: seq<Entry>, e: seq<Entry>)
    ensures a + ((b + c + d) + e) == (a + b) + (c + (d + e))
  {
  }

  /** The directory after the entries have been written at their place. */
  ghost function Filled(dir: seq<seq<Entry>>, p: Place, added: seq<Entry>): seq<seq<Entry>>
    requires p.k < |dir| && p.s + |added| <= |dir[p.k]|
  {
    dir[p.k := dir[p.k][..p.s] + added + dir[p.k][p.s + |added|..]]
  }

  lemma FilledParts(dir: seq<seq<Entry>>, p: Place, added: seq<Entry>)
    requires p.k < |dir| && p.s + |added| <= |dir[p.k]|
    ensures Flat(Filled(dir, p, added)) == Before(dir, p) + added + Behind(dir, p, |added|)
  {
    hide Flat;
    var d := Filled(dir, p, added);
    FlatAt(d, p.k);
    assert d[..p.k] == dir[..p.k] && d[p.k + 1..] == dir[p.k + 1..];
    Regroup(Flat(dir[..p.k]), dir[p.k][..p.s], added, dir[p.k][p.s + |added|..], Flat(dir[p.k + 1..]));
    assert (Flat(dir[..p.k]) + dir[p.k][..p.s]) + (added + Behind(dir, p, |added|))
        == Before(dir, p) + added + Behind(dir, p, |added|);
  }

  /** What a directory can grow by: free clusters, free FAT entries past the last cluster, and where its chain ends. */
  datatype Supply = Supply(free: nat, beyond: nat, stray: bool)

  /** The supply after a call that found no room: all clusters are taken, and the chain ends past them if it can. */
  function Exhausted(have: Supply): Supply {
    if have.stray then have
    else if have.beyond > 0 then Supply(0, have.beyond - 1, true)
    else Supply(0, 0, false)
  }

  /**
   * fat32_add_entry: the entries go to the first cluster with a long enough run of open entries, or to a new one.  The
   * call fails exactly when no cluster has room and no new one can be had or the name needs more entries than a cluster
   * has.  It then has taken every free cluster, and one more from past the end of the volume if the FAT has a free
   * entry there; a directory whose chain already ends there is left alone.
   */
  method AddEntry(dir: seq<seq<Entry>>, e: nat, have: Supply, name: seq<Byte>, attr: Byte, cluster: nat, size: nat)
    returns (ok: bool, dir': seq<seq<Entry>>, left: Supply, ghost p: Place)
    requires |name| <= 255 && Even(dir, e) && dir != []
    ensures ok <==> !Roomless(dir, Needed(name) + 1) || (!have.stray && Needed(name) + 1 <= e && have.free > 0)
    ensures ok ==> left == if Roomless(dir, Needed(name) + 1) then have.(free := have.free - 1) else have
    ensures ok ==> var d := Longer(dir, have.free - left.free, e);
      && Suits(d, p, Needed(name) + 1) && |EntriesOf(name, attr, cluster, size)| == Needed(name) + 1
      && dir' == Filled(d, p, EntriesOf(name, attr, cluster, size))
    ensures !ok ==> left == Exhausted(have) && dir' == Longer(dir, have.free - left.free, e)
  {
    hide EntriesOf, HasRoom, Cleared;
    var k: nat := 0;
    dir', left, p := dir, have, Place(0, 0);
    ghost var n := Needed(name) + 1;
    assert Longer(dir, 0, e) == dir;
    ClearedRoom(e, n);
    EntriesCount(name, attr, cluster, size);
    while true
      invariant left == have.(free := left.free) && left.free <= have.free && (have.stray ==> left == have)
      invariant dir' == Longer(dir, have.free - left.free, e) && k < |dir'|
      invariant Roomless(dir'[..k], n) && (left != have ==> Roomless(dir, n) && k == |dir'| - 1)
      invariant have.free - left.free > 1 ==> n > e
      decreases left.free, |dir'| - k
    {
      var buf := new Entry[|dir'[k]|](i requires 0 <= i < |dir'[k]| => dir'[k][i]);
      assert buf[..] == dir'[k];
      var s;
      ok, s := AddToCluster(buf, name, attr, cluster, size);
      if ok {
        p := Place(k, s);
        dir' := dir'[k := buf[..]];
        Found(dir, e, have.free - left.free, n, k);
        return;
      }
      RoomlessMore(dir', k, n);
      k := k + 1;
      if k == |dir'| {
        assert dir'[..k] == dir';
        NoneFits(dir, e, have.free - left.free, n);
        if left.stray { return; }
        if left.free == 0 {
          left := if left.beyond > 0 then left.(beyond := left.beyond - 1, stray := true) else left;
          return;
        }
        dir', left := dir' + [Cleared(e)], left.(free := left.free - 1);
        assert dir' == Longer(dir, have.free - left.free, e);
        assert dir'[..k] == dir'[..|dir'| - 1];
      }
    }
  }

  lemma RoomlessMore(dir: seq<seq<Entry>>, k: nat, n: nat)
    requires k < |dir| && Roomless(dir[..k], n) && !HasRoom(dir[k], n)
    ensures Roomless(dir[..k + 1], n)
  {
    var front := dir[..k + 1];
    forall c | 0 <= c < |front| ensures !HasRoom(front[c], n) {
      if c < k { assert dir[..k][c] == front[c]; }
    }
  }

  /** Where the search ends well, at most one cluster was added, and one only if the directory had no room. */
  lemma Found(dir: seq<seq<Entry>>, e: nat, m: nat, n: nat, k: nat)
    requires n > 0 && k < |Longer(dir, m, e)| && HasRoom(Longer(dir, m, e)[k], n)
    requires (m > 0 ==> Roomless(dir, n) && k == |dir| + m - 1) && (m > 1 ==> n > e)
    ensures if Roomless(dir, n) then m == 1 && n <= e else m == 0
  {
    hide HasRoom;
    ClearedRoom(e, n);
  }

  lemma NoneFits(dir: seq<seq<Entry>>, e: nat, m: nat, n: nat)
    requires n > 0 && Roomless(Longer(dir, m, e), n)
    ensures Roomless(dir, n) && (m > 0 ==> n > e)
  {
    hide HasRoom;
    var d := Longer(dir, m, e);
    forall c | 0 <= c < |dir| ensures !HasRoom(dir[c], n) { assert d[c] == dir[c]; }
    ClearedRoom(e, n);
    if m > 0 { assert d[|dir|] == Cleared(e); }
  }

  lemma EntriesCount(name: seq<Byte>, attr: Byte, cluster: nat, size: nat)
    requires |name| <= 255
    ensures |EntriesOf(name, attr, cluster, size)| == Needed(name) + 1
  {
  }

  // ---------------------------------------------------------------------------
  // Which names show
  // ---------------------------------------------------------------------------

  /** A name to add, with what its entry says. */
  datatype New = New(name: seq<Byte>, attr: Byte, cluster: nat, size: nat) {
    ghost predicate Ok() {
      Plain(name) && name[0] != 0xE5 && Listed(attr) && cluster < 0x1_0000_0000 && size < 0x1_0000_0000
    }

    function Entries(): seq<Entry>
      requires |name| <= 255
    {
      EntriesOf(name, attr, cluster, size)
    }

    function Shown(): Node { NewNode(name, attr, cluster, size) }
  }

  /** No cluster before the one the entries go to has an end mark. */
  ghost predicate Visible(dir: seq<seq<Entry>>, p: Place)
    requires p.k <= |dir|
  {
    NoEnd(Flat(dir[..p.k]))
  }

  /** In a tidy directory the entries before the run have an end mark only if an earlier cluster has one. */
  lemma VisibleIff(dir: seq<seq<Entry>>, p: Place, n: nat)
    requires Suits(dir, p, n) && n > 0 && Tidy(Flat(dir))
    ensures NoEnd(Before(dir, p)) <==> Visible(dir, p)
  {
    hide Flat, HasRoom;
    var a, b := Flat(dir[..p.k]), dir[p.k][..p.s];
    FlatParts(dir, p, n);
    if NoEnd(a + b) {
      forall i | 0 <= i < |a| ensures !Ends(a[i]) { assert (a + b)[i] == a[i]; }
    }
    if p.s > 0 {
      var last := |a| + p.s - 1;
      assert Flat(dir)[last] == (a + b)[last] == dir[p.k][p.s - 1];
      forall i | 0 <= i < |a + b| ensures !Ends((a + b)[i]) {
        assert Flat(dir)[i] == (a + b)[i];
        assert Ends(Flat(dir)[i]) ==> Ends(Flat(dir)[last]);
      }
    } else {
      assert a + b == a;
    }
  }

  /**
   * Adding a name to a tidy directory: it shows exactly when no cluster before its own has an end mark.  Then the
   * listing gains its node and nothing else changes, and the directory stays tidy; otherwise the listing stays as it is.
   */
  lemma AddedShows(dir: seq<seq<Entry>>, p: Place, x: New, st: Scan) returns (at: nat)
    requires x.Ok() && |x.Entries()| == Needed(x.name) + 1 && Suits(dir, p, Needed(x.name) + 1) && Tidy(Flat(dir))
    ensures at <= |Listing(Flat(dir), st)|
    ensures Visible(dir, p) ==> Tidy(Flat(Filled(dir, p, x.Entries())))
    ensures Listing(Flat(Filled(dir, p, x.Entries())), st)
         == if Visible(dir, p) then Gained(Listing(Flat(dir), st), at, x.Shown()) else Listing(Flat(dir), st)
  {
    hide Flat, HasRoom, EntriesOf, Listing, NewNode, Filled, Tidy;
    var n := Needed(x.name) + 1;
    var a, b, gap := Before(dir, p), Behind(dir, p, n), dir[p.k][p.s..p.s + n];
    VisibleIff(dir, p, n);
    FlatParts(dir, p, n);
    FilledParts(dir, p, x.Entries());
    at := 0;
    if Visible(dir, p) {
      at := Inserted(a, gap, b, x.name, x.attr, x.cluster, x.size, st);
    } else {
      LfnDirectory.Buried(a, x.Entries() + b, gap + b, st);
      assert a + x.Entries() + b == a + (x.Entries() + b);
    }
  }

  // ---------------------------------------------------------------------------
  // Reading
  // ---------------------------------------------------------------------------

  /** One of the three loops that take 16-bit units apart. */
  method ReadGroup(buffer: array<Byte>, e: Entry, at: nat, n: nat, start: nat) returns (off: nat)
    requires buffer.Length == 256 && at + 2 * n <= 32 && start <= 255
    modifies buffer
    ensures (buffer[..], off) == Group(old(buffer[..]), e, at, n, start) && off <= 255
  {
    off := start;
    var k: nat := 0;
    while k < n && off < 255
      invariant k <= n && off <= 255
      invariant Group(old(buffer[..]), e, at, n, start) == Group(buffer[..], e, at + 2 * k, n - k, off)
    {
      if Stops(e[at + 2 * k], e[at + 2 * k + 1]) { break; }
      ghost var b := buffer[..];
      buffer[off] := e[at + 2 * k];
      assert buffer[..] == b[off := e[at + 2 * k]];
      off, k := off + 1, k + 1;
    }
  }

  /** What a long-name entry does to the buffer and the flags. */
  method ReadLong(buffer: array<Byte>, has: bool, sum: Byte, e: Entry) returns (has': bool, sum': Byte)
    requires buffer.Length == 256
    modifies buffer
    ensures Scan(has', sum', buffer[..]) == Long(old(Scan(has, sum, buffer[..])), e)
  {
    hide Group;
    has', sum' := has, sum;
    if e[0] / 0x40 % 2 == 1 {
      forall i | 0 <= i < 256 { buffer[i] := 0; }
      assert buffer[..] == Zeros();
      has', sum' := true, e[13];
    } else if has && e[13] != sum {
      return false, sum;
    }
    var k := e[0] % 0x20;
    if 1 <= k <= 20 {
      var off := ReadGroup(buffer, e, 1, 5, 13 * (k - 1));
      off := ReadGroup(buffer, e, 14, 6, off);
      off := ReadGroup(buffer, e, 28, 2, off);
    }
  }

  /** fat32_readdir: entry `index` of the listing of all clusters, or nothing past its end. */
  method Readdir(dir: seq<seq<Entry>>, index: nat) returns (found: bool, node: Node)
    ensures var all := Listing(Flat(dir), IDLE);
      (found <==> index < |all|) && (found ==> node == all[index])
  {
    hide Listing, Long, NodeOf, Flat;
    ghost var all := Listing(Flat(dir), IDLE);
    ghost var seen: seq<Node> := [];
    node := Node([], false, false, 0, 0);
    var buffer := new Byte[256](_ => 0);
    assert buffer[..] == Zeros();
    var current, has, sum: Byte := 0, false, 0;
    assert dir[0..] == dir;
    for c := 0 to |dir|
      invariant |seen| == current <= index
      invariant all == seen + Listing(Flat(dir[c..]), Scan(has, sum, buffer[..]))
    {
      var entries := dir[c];
      ghost var rest := Flat(dir[c + 1..]);
      FlatFront(dir, c);
      assert entries[0..] == entries;
      for i := 0 to |entries|
        invariant |seen| == current <= index
        invariant all == seen + Listing(entries[i..] + rest, Scan(has, sum, buffer[..]))
      {
        var e := entries[i];
        ghost var st := Scan(has, sum, buffer[..]);
        Next(entries, i, rest, st);
        if e[0] == 0 { return false, node; }
        if e[0] == 0xE5 {
          has := false;
        } else if e[11] == 0x0F {
          has, sum := ReadLong(buffer, has, sum, e);
        } else if e[11] / 8 % 2 == 1 {
          has := false;
        } else {
          if current == index { return true, NodeOf(Scan(has, sum, buffer[..]), e); }
          seen := seen + [NodeOf(st, e)];
          current := current + 1;
          has := false;
        }
      }
      assert entries[|entries|..] + rest == rest;
    }
    Finished(dir, Scan(has, sum, buffer[..]));
    found := false;
  }

  lemma FlatFront(dir: seq<seq<Entry>>, c: nat)
    requires c < |dir|
    ensures Flat(dir[c..]) == dir[c] + Flat(dir[c + 1..])
  {
    assert dir[c..][1..] == dir[c + 1..];
  }

  lemma Finished(dir: seq<seq<Entry>>, st: Scan)
    ensures Listing(Flat(dir[|dir|..]), st) == []
  {
  }

  lemma Next(entries: seq<Entry>, i: nat, rest: seq<Entry>, st: Scan)
    requires i < |entries|
    ensures Listing(entries[i..] + rest, st) == if Ends(entries[i]) then []
      else After(st, entries[i]).1 + Listing(entries[i + 1..] + rest, After(st, entries[i]).0)
  {
    hide After;
    assert (entries[i..] + rest)[1..] == entries[i + 1..] + rest;
  }
}
