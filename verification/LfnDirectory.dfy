/** Adding a name to a directory cluster adds it to the listing, and changes nothing else there. */
module LfnDirectory {
  import opened Bytes
  import opened Lfn
  import opened LfnRoundTrip

  /** The node a new entry stands for. */
  function NewNode(name: seq<Byte>, attr: Byte, cluster: nat, size: nat): Node {
    Node(name, attr / 0x10 % 2 == 1, attr % 2 == 1, cluster, size)
  }

  /** Attributes under which an entry is a file or a directory: no volume label, no long-name fragment. */
  predicate Listed(attr: Byte) { attr / 8 % 2 == 0 }

  lemma ShortRead(name: seq<Byte>, attr: Byte, cluster: nat, size: nat)
    requires Plain(name) && name[0] != 0xE5 && Listed(attr) && cluster < 0x1_0000_0000 && size < 0x1_0000_0000
    ensures var e := ShortEntry(name, attr, cluster, size);
      !Ends(e) && After(Reading(name, 0), e) == (Reading(name, 0).(has := false), [NewNode(name, attr, cluster, size)])
  {
    hide ShortEntry, Checksum, ShortOf, Text, Put, Zeros;
    var e := ShortEntry(name, attr, cluster, size);
    ShortParts(name, attr, cluster, size);
    ShortFirst(name);
    assert e[0] == e[..11][0];
    ReadName(name);
  }

  /** All entries of a new name, whatever comes before and after them. */
  lemma EntriesRead(name: seq<Byte>, attr: Byte, cluster: nat, size: nat, st: Scan, tail: seq<Entry>)
    requires Plain(name) && name[0] != 0xE5 && Listed(attr) && cluster < 0x1_0000_0000 && size < 0x1_0000_0000
    ensures Listing(EntriesOf(name, attr, cluster, size) + tail, st)
         == [NewNode(name, attr, cluster, size)] + Listing(tail, Reading(name, 0).(has := false))
  {
    hide After, ShortEntry, Fragments, Reading;
    var e := ShortEntry(name, attr, cluster, size);
    FragmentsRead(name, Needed(name), st, [e] + tail);
    assert EntriesOf(name, attr, cluster, size) + tail == Fragments(name, Needed(name)) + ([e] + tail);
    ShortRead(name, attr, cluster, size);
    assert ([e] + tail)[1..] == tail;
  }

  /** With no long name under way, what is left in the buffer does not matter. */
  lemma {:induction false} Stale(es: seq<Entry>, st: Scan, st': Scan)
    requires !st.has && !st'.has
    ensures Listing(es, st) == Listing(es, st')
  {
    hide Filled, ShortText, Text, Checksum;
    if es != [] && !Ends(es[0]) {
      var a, b := After(st, es[0]), After(st', es[0]);
      StaleStep(es[0], st, st');
      if a.0 != b.0 { Stale(es[1..], a.0, b.0); }
    }
  }

  lemma StaleStep(e: Entry, st: Scan, st': Scan)
    requires !st.has && !st'.has
    ensures var a, b := After(st, e), After(st', e);
      a.1 == b.1 && (a.0 == b.0 || (!a.0.has && !b.0.has))
  {
    hide Filled, ShortText, Text, Checksum;
  }

  ghost predicate NoEnd(es: seq<Entry>) { forall i :: 0 <= i < |es| ==> !Ends(es[i]) }

  /** Reading a stretch without an end mark: the nodes it completes and the state behind it. */
  function Through(es: seq<Entry>, st: Scan): (Scan, seq<Node>) {
    if es == [] then (st, [])
    else
      var (s, nodes) := After(st, es[0]);
      var (s', more) := Through(es[1..], s);
      (s', nodes + more)
  }

  lemma {:induction false} ListingSplit(a: seq<Entry>, b: seq<Entry>, st: Scan)
    requires NoEnd(a)
    ensures Listing(a + b, st) == Through(a, st).1 + Listing(b, Through(a, st).0)
  {
    hide After;
    if a == [] {
      assert a + b == b;
    } else {
      assert (a + b)[1..] == a[1..] + b;
      ListingSplit(a[1..], b, After(st, a[0]).0);
    }
  }

  ghost predicate AllOpen(es: seq<Entry>) { forall i :: 0 <= i < |es| ==> Open(es[i]) }

  ghost predicate AllEnd(es: seq<Entry>) { forall i :: 0 <= i < |es| ==> Ends(es[i]) }

  /** Behind the first end mark there are only end marks. */
  ghost predicate Tidy(es: seq<Entry>) {
    forall i, j :: 0 <= i <= j < |es| && Ends(es[i]) ==> Ends(es[j])
  }

  /** Deleted entries are passed over, and no long name survives them. */
  lemma {:induction false} Skipped(gap: seq<Entry>, b: seq<Entry>, st: Scan)
    requires AllOpen(gap) && NoEnd(gap) && gap != []
    ensures Listing(gap + b, st) == Listing(b, st.(has := false))
  {
    hide Filled, ShortText, Text, Checksum;
    assert Open(gap[0]) && !Ends(gap[0]);
    assert (gap + b)[1..] == gap[1..] + b;
    if |gap| == 1 {
      assert gap[1..] + b == b;
    } else {
      Skipped(gap[1..], b, st.(has := false));
    }
  }

  lemma NothingThere(es: seq<Entry>, st: Scan)
    requires AllEnd(es)
    ensures Listing(es, st) == []
  {
  }

  /** Adding nothing to the listing: a stretch of open entries before an end or more open entries. */
  lemma GapListing(gap: seq<Entry>, b: seq<Entry>, st: Scan)
    requires AllOpen(gap) && gap != [] && Tidy(gap + b)
    ensures Listing(gap + b, st) == Listing(b, st.(has := false))
  {
    if NoEnd(gap) {
      Skipped(gap, b, st);
    } else {
      var i :| 0 <= i < |gap| && Ends(gap[i]);
      var es := gap + b;
      assert Ends(es[i]);
      forall j | 0 <= j < |b| ensures Ends(b[j]) { assert es[|gap| + j] == b[j] && Ends(es[|gap| + j]); }
      NothingThere(b, st.(has := false));
      FirstEnd(gap, b, st, i);
    }
  }

  lemma {:induction false} FirstEnd(gap: seq<Entry>, b: seq<Entry>, st: Scan, i: nat)
    requires AllOpen(gap) && i < |gap| && Ends(gap[i])
    ensures Listing(gap + b, st) == []
  {
    hide Filled, ShortText, Text, Checksum;
    if !Ends(gap[0]) {
      assert Open(gap[0]);
      assert (gap + b)[1..] == gap[1..] + b;
      FirstEnd(gap[1..], b, After(st, gap[0]).0, i - 1);
    }
  }

  const IDLE: Scan := Scan(false, 0, Zeros())

  /**
   * The entries of a new name written behind entries without an end mark, whatever was there: the nodes before it, the
   * new node, and what stands behind it up to the next end mark.
   */
  lemma Placed(a: seq<Entry>, name: seq<Byte>, attr: Byte, cluster: nat, size: nat, b: seq<Entry>, st: Scan)
    requires Plain(name) && name[0] != 0xE5 && Listed(attr) && cluster < 0x1_0000_0000 && size < 0x1_0000_0000
    requires NoEnd(a)
    ensures Listing(a + EntriesOf(name, attr, cluster, size) + b, st)
         == Through(a, st).1 + [NewNode(name, attr, cluster, size)] + Listing(b, IDLE)
  {
    hide After, Reading, Listing, EntriesOf, Through, NewNode;
    var added, mid := EntriesOf(name, attr, cluster, size), Through(a, st).0;
    ListingSplit(a, added + b, st);
    assert a + added + b == a + (added + b);
    EntriesRead(name, attr, cluster, size, mid, b);
    StillUnread(name, b, IDLE);
    assert IDLE.(has := false) == IDLE;
  }

  /** Behind an end mark nothing shows. */
  lemma {:induction false} Buried(a: seq<Entry>, b: seq<Entry>, c: seq<Entry>, st: Scan)
    requires !NoEnd(a)
    ensures Listing(a + b, st) == Listing(a + c, st)
  {
    hide After;
    if !Ends(a[0]) {
      assert (a + b)[1..] == a[1..] + b && (a + c)[1..] == a[1..] + c;
      var i :| 0 <= i < |a| && Ends(a[i]);
      assert a[1..][i - 1] == a[i];
      Buried(a[1..], b, c, After(st, a[0]).0);
    }
  }

  /** The listing with a node more at place `at`. */
  function Gained(was: seq<Node>, at: nat, node: Node): seq<Node>
    requires at <= |was|
  {
    was[..at] + [node] + was[at..]
  }

  /**
   * Written over a gap of open entries of a tidy directory, not behind an end mark, the listing gains exactly the new
   * node, at the place of the gap, and the directory stays tidy.
   */
  lemma Inserted(a: seq<Entry>, gap: seq<Entry>, b: seq<Entry>, name: seq<Byte>, attr: Byte, cluster: nat, size: nat,
                 st: Scan) returns (at: nat)
    requires Plain(name) && name[0] != 0xE5 && Listed(attr) && cluster < 0x1_0000_0000 && size < 0x1_0000_0000
    requires |gap| == Needed(name) + 1 && Tidy(a + (gap + b)) && NoEnd(a) && AllOpen(gap)
    ensures at <= |Listing(a + (gap + b), st)|
    ensures Listing(a + EntriesOf(name, attr, cluster, size) + b, st)
         == Gained(Listing(a + (gap + b), st), at, NewNode(name, attr, cluster, size))
    ensures Tidy(a + EntriesOf(name, attr, cluster, size) + b)
  {
    hide After, Reading, Listing, EntriesOf, Through, NewNode, Tidy;
    at := |Through(a, st).1|;
    var mid := Through(a, st).0;
    ListingSplit(a, gap + b, st);
    TidyBack(a, gap + b);
    GapListing(gap, b, mid);
    Stale(b, mid.(has := false), IDLE);
    Placed(a, name, attr, cluster, size, b, st);
    var was, node := Listing(a + (gap + b), st), NewNode(name, attr, cluster, size);
    assert was[..at] == Through(a, st).1 && was[at..] == Listing(b, IDLE);
    NoEndsAdded(name, attr, cluster, size);
    TidyBack(gap, b);
    TidyJoin(a + EntriesOf(name, attr, cluster, size), b);
  }

  lemma NoEndsAdded(name: seq<Byte>, attr: Byte, cluster: nat, size: nat)
    requires Plain(name) && name[0] != 0xE5 && cluster < 0x1_0000_0000 && size < 0x1_0000_0000
    ensures NoEnd(EntriesOf(name, attr, cluster, size))
  {
    hide ShortEntry, Fragments;
    ShortParts(name, attr, cluster, size);
    ShortFirst(name);
    var e := ShortEntry(name, attr, cluster, size);
    assert e[0] == e[..11][0];
    NoEndFragments(name, Needed(name));
  }

  lemma {:induction false} NoEndFragments(name: seq<Byte>, n: nat)
    requires 1 <= |name| <= 255 && n <= Needed(name)
    ensures NoEnd(Fragments(name, n))
  {
    hide Fragment;
    NeededBound(name);
    if n > 0 {
      FragmentParts(name, n - 1);
      NoEndFragments(name, n - 1);
    }
  }

  lemma TidyJoin(a: seq<Entry>, b: seq<Entry>)
    requires NoEnd(a) && Tidy(b)
    ensures Tidy(a + b)
  {
    var es := a + b;
    forall i, j | 0 <= i <= j < |es| && Ends(es[i]) ensures Ends(es[j]) {
      assert i >= |a|;
      assert es[i] == b[i - |a|] && es[j] == b[j - |a|];
    }
  }

  lemma TidyBack(a: seq<Entry>, b: seq<Entry>)
    requires Tidy(a + b)
    ensures Tidy(b)
  {
    var es := a + b;
    forall i, j | 0 <= i <= j < |b| && Ends(b[i]) ensures Ends(b[j]) {
      assert es[|a| + i] == b[i] && es[|a| + j] == b[j];
    }
  }

  lemma StillUnread(name: seq<Byte>, b: seq<Entry>, mid: Scan)
    requires |name| <= 255
    ensures Listing(b, Reading(name, 0).(has := false)) == Listing(b, mid.(has := false))
  {
    Stale(b, Reading(name, 0).(has := false), mid.(has := false));
  }

  // ---------------------------------------------------------------------------
  // Exactly which long names come back
  // ---------------------------------------------------------------------------

  ghost predicate NoFiller(b: seq<Byte>) { forall i :: 0 <= i < |b| ==> b[i] != 0xFF }

  lemma {:induction false} GroupNoFiller(buffer: Buffer, e: Entry, at: nat, n: nat, off: nat)
    requires at + 2 * n <= 32 && NoFiller(buffer)
    ensures NoFiller(Group(buffer, e, at, n, off).0)
    decreases n
  {
    if !(n == 0 || off >= 255 || Stops(e[at], e[at + 1])) {
      GroupNoFiller(buffer[off := e[at]], e, at + 2, n - 1, off + 1);
    }
  }

  lemma LongNoFiller(st: Scan, e: Entry)
    requires e[0] / 0x40 % 2 == 1 || NoFiller(st.buffer)
    ensures NoFiller(Long(st, e).buffer)
  {
    hide Group, Checksum;
    var b := if e[0] / 0x40 % 2 == 1 then Zeros() else st.buffer;
    var k := e[0] % 0x20;
    if 1 <= k <= 20 {
      var (b1, o1) := Group(b, e, 1, 5, 13 * (k - 1));
      GroupNoFiller(b, e, 1, 5, 13 * (k - 1));
      var (b2, o2) := Group(b1, e, 14, 6, o1);
      GroupNoFiller(b1, e, 14, 6, o1);
      GroupNoFiller(b2, e, 28, 2, o2);
    }
  }

  lemma FragmentIsLong(name: seq<Byte>, n: nat, st: Scan)
    requires 1 <= n <= Needed(name) && 1 <= |name| <= 255
    ensures var e := Fragment(name, n - 1);
      After(st, e) == (Long(st, e), []) && (n == Needed(name) ==> e[0] / 0x40 % 2 == 1)
  {
    hide Fragment, Long, Units, Checksum, ShortOf, NodeOf;
    NeededBound(name);
    FragmentParts(name, n - 1);
  }

  lemma {:induction false} FragmentsNoFiller(name: seq<Byte>, n: nat, st: Scan)
    requires 1 <= |name| <= 255 && n <= Needed(name) && (n < Needed(name) ==> NoFiller(st.buffer))
    ensures NoFiller(Through(Fragments(name, n), st).0.buffer)
    decreases n
  {
    hide Fragment, Long, After;
    NeededBound(name);
    if n > 0 {
      var e := Fragment(name, n - 1);
      FragmentIsLong(name, n, st);
      LongNoFiller(st, e);
      assert Fragments(name, n)[1..] == Fragments(name, n - 1);
      FragmentsNoFiller(name, n - 1, Long(st, e));
    }
  }

  lemma {:induction false} FragmentsThrough(name: seq<Byte>, n: nat, st: Scan)
    requires Plain(name) && n <= Needed(name) && (n < Needed(name) ==> st == Reading(name, n))
    ensures Through(Fragments(name, n), st).0 == Reading(name, 0)
    decreases n
  {
    hide Fragment, After, Reading;
    NeededBound(name);
    if n > 0 {
      FragmentStep(name, n, st);
      assert Fragments(name, n)[1..] == Fragments(name, n - 1);
      FragmentsThrough(name, n - 1, Reading(name, n - 1));
    }
  }

  lemma {:induction false} TextNoFiller(b: seq<Byte>)
    requires NoFiller(b)
    ensures NoFiller(Text(b))
  {
    if b != [] && b[0] != 0 { TextNoFiller(b[1..]); }
  }

  /** A name of 1 to 255 characters comes back from its fragments exactly when it has no character 0xFF. */
  lemma LongNameIff(name: seq<Byte>, st: Scan)
    requires 1 <= |name| <= 255 && forall i :: 0 <= i < |name| ==> name[i] != 0
    ensures Text(Through(Fragments(name, Needed(name)), st).0.buffer) == name <==> NoFiller(name)
  {
    hide Through, Fragments, Reading;
    if NoFiller(name) {
      FragmentsThrough(name, Needed(name), st);
      ReadName(name);
    } else {
      FragmentsNoFiller(name, Needed(name), st);
      TextNoFiller(Through(Fragments(name, Needed(name)), st).0.buffer);
    }
  }

  /** A name that starts with 0xE5 is written but never listed: its short entry looks deleted. */
  lemma DeletedMark(name: seq<Byte>, attr: Byte, cluster: nat, size: nat, st: Scan, tail: seq<Entry>)
    requires Plain(name) && name[0] == 0xE5 && cluster < 0x1_0000_0000 && size < 0x1_0000_0000
    ensures Listing(EntriesOf(name, attr, cluster, size) + tail, st) == Listing(tail, st.(has := false))
  {
    hide ShortEntry, Fragments, Reading, Long, NodeOf;
    var e := ShortEntry(name, attr, cluster, size);
    FragmentsRead(name, Needed(name), st, [e] + tail);
    assert EntriesOf(name, attr, cluster, size) + tail == Fragments(name, Needed(name)) + ([e] + tail);
    ShortParts(name, attr, cluster, size);
    ShortFirst(name);
    assert e[0] == e[..11][0] == 0xE5;
    assert ([e] + tail)[1..] == tail;
    StillUnread(name, tail, st);
  }
}
