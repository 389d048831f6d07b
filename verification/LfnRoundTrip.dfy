/** Long names read back as they were written, whatever else is in the directory. */
module LfnRoundTrip {
  import opened Bytes
  import opened Lfn

  /** Characters the reader can tell from the terminator and the filler. */
  ghost predicate Plain(name: seq<Byte>) {
    1 <= |name| <= 255 && forall i :: 0 <= i < |name| ==> name[i] != 0 && name[i] != 0xFF
  }

  /** The buffer with the characters `from` to `to` of the name in their places. */
  function Put(buffer: Buffer, name: seq<Byte>, from: nat, to: nat): Buffer
    requires from <= to <= |name| <= 255
  {
    buffer[..from] + name[from..to] + buffer[to..]
  }

  lemma PutPut(buffer: Buffer, name: seq<Byte>, from: nat, mid: nat, to: nat)
    requires from <= mid <= to <= |name| <= 255
    ensures Put(Put(buffer, name, from, mid), name, mid, to) == Put(buffer, name, from, to)
  {
  }

  lemma PutNone(buffer: Buffer, name: seq<Byte>, at: nat)
    requires at <= |name| <= 255
    ensures Put(buffer, name, at, at) == buffer
  {
  }

  lemma PutOne(buffer: Buffer, name: seq<Byte>, at: nat)
    requires at < |name| <= 255
    ensures Put(buffer, name, at, at + 1) == buffer[at := name[at]]
  {
  }

  lemma {:induction false} UnitsFront(name: seq<Byte>, start: nat, n: nat)
    requires n > 0
    ensures Units(name, start, n) == Unit(name, start) + Units(name, start + 1, n - 1)
  {
    if n > 1 {
      UnitsFront(name, start, n - 1);
      assert start + 1 + (n - 1) - 1 == start + n - 1;
    }
  }

  /** At or past the end of the name, a group adds nothing. */
  lemma GroupStops(buffer: Buffer, e: Entry, at: nat, n: nat, off: nat, name: seq<Byte>, start: nat)
    requires at + 2 * n <= 32 && e[at..at + 2 * n] == Units(name, start, n) && start >= |name|
    ensures Group(buffer, e, at, n, off) == (buffer, off)
  {
    if n > 0 {
      UnitsFront(name, start, n);
      assert e[at..at + 2 * n][0] == e[at] && e[at..at + 2 * n][1] == e[at + 1];
    }
  }

  /** Before the end of a plain name, a group copies characters up to its width or the end of the name. */
  lemma {:induction false} GroupReads(buffer: Buffer, e: Entry, at: nat, n: nat, off: nat, name: seq<Byte>)
    requires at + 2 * n <= 32 && e[at..at + 2 * n] == Units(name, off, n) && Plain(name) && off <= |name|
    ensures var m := Min(off + n, |name|);
      Group(buffer, e, at, n, off) == (Put(buffer, name, off, m), m)
    decreases n
  {
    hide Put;
    var m := Min(off + n, |name|);
    if n == 0 || off == |name| {
      if n > 0 { GroupStops(buffer, e, at, n, off, name, off); }
      PutNone(buffer, name, off);
    } else {
      UnitsFront(name, off, n);
      assert e[at..at + 2 * n][0] == e[at] && e[at..at + 2 * n][1] == e[at + 1];
      assert e[at + 2..at + 2 + 2 * (n - 1)] == e[at..at + 2 * n][2..] == Units(name, off + 1, n - 1);
      PutOne(buffer, name, off);
      GroupReads(buffer[off := e[at]], e, at + 2, n - 1, off + 1, name);
      PutPut(buffer, name, off, off + 1, m);
    }
  }

  lemma FragmentParts(name: seq<Byte>, k: nat)
    requires k < Needed(name) && |name| <= 255
    ensures var e := Fragment(name, k);
      && e[1..11] == Units(name, 13 * k, 5) && e[14..26] == Units(name, 13 * k + 5, 6)
      && e[28..32] == Units(name, 13 * k + 11, 2)
      && e[0] == (if k == Needed(name) - 1 then k + 1 + 0x40 else k + 1)
      && e[11] == 0x0F && e[13] == Checksum(ShortOf(name))
  {
    hide Checksum, ShortOf, Units;
  }

  /** A group continues where the one before it ended. */
  lemma GroupNext(buffer: Buffer, e: Entry, at: nat, n: nat, off: nat, name: seq<Byte>, start: nat)
    requires at + 2 * n <= 32 && e[at..at + 2 * n] == Units(name, start, n) && Plain(name)
    requires off == Min(start, |name|)
    ensures var m := Min(start + n, |name|);
      Group(buffer, e, at, n, off) == (Put(buffer, name, off, m), m)
  {
    if start <= |name| {
      GroupReads(buffer, e, at, n, off, name);
    } else {
      GroupStops(buffer, e, at, n, off, name, start);
      PutNone(buffer, name, off);
    }
  }

  /** Fragment `k` fills its 13 places. */
  lemma FragmentReads(buffer: Buffer, name: seq<Byte>, k: nat)
    requires k < Needed(name) && Plain(name)
    ensures Filled(buffer, Fragment(name, k), 13 * k) == Put(buffer, name, 13 * k, Min(13 * k + 13, |name|))
  {
    hide Group, Units, Fragment, Put;
    FragmentParts(name, k);
    var e, o := Fragment(name, k), 13 * k;
    var o1, o2, m := Min(o + 5, |name|), Min(o + 11, |name|), Min(o + 13, |name|);
    GroupNext(buffer, e, 1, 5, o, name, o);
    GroupNext(Put(buffer, name, o, o1), e, 14, 6, o1, name, o + 5);
    PutPut(buffer, name, o, o1, o2);
    GroupNext(Put(buffer, name, o, o2), e, 28, 2, o2, name, o + 11);
    PutPut(buffer, name, o, o2, m);
  }

  lemma PutBefore(buffer: Buffer, name: seq<Byte>, from: nat, mid: nat, to: nat)
    requires from <= mid <= to <= |name| <= 255
    ensures Put(Put(buffer, name, mid, to), name, from, mid) == Put(buffer, name, from, to)
  {
  }

  /** The state while fragments n - 1 down to 0 are still to come. */
  function Reading(name: seq<Byte>, n: nat): Scan
    requires |name| <= 255
  {
    Scan(true, Checksum(ShortOf(name)), Put(Zeros(), name, Min(13 * n, |name|), |name|))
  }

  lemma NeededBound(name: seq<Byte>)
    requires 1 <= |name| <= 255
    ensures 13 * Needed(name) - 13 < |name| <= 13 * Needed(name) && 1 <= Needed(name) <= 20
  {
  }

  lemma FragmentNumber(k: nat)
    requires k < 20
    ensures (k + 1) / 0x40 % 2 == 0 && (k + 1 + 0x40) / 0x40 % 2 == 1
    ensures (k + 1) % 0x20 == k + 1 && (k + 1 + 0x40) % 0x20 == k + 1
  {
  }

  lemma FragmentStep(name: seq<Byte>, n: nat, st: Scan)
    requires Plain(name) && 1 <= n <= Needed(name) && (n < Needed(name) ==> st == Reading(name, n))
    ensures var e := Fragment(name, n - 1);
      !Ends(e) && After(st, e) == (Reading(name, n - 1), [])
  {
    hide Fragment, Put, Filled, Checksum, ShortOf, Zeros, Units, Text, ShortText;
    NeededBound(name);
    FragmentParts(name, n - 1);
    FragmentNumber(n - 1);
    if n == Needed(name) {
      FragmentReads(Zeros(), name, n - 1);
    } else {
      var b := Put(Zeros(), name, 13 * n, |name|);
      FragmentReads(b, name, n - 1);
      PutBefore(Zeros(), name, 13 * (n - 1), 13 * n, |name|);
    }
  }

  /** Reading the fragments of a plain name, from any state, leaves the name in the buffer. */
  lemma {:induction false} FragmentsRead(name: seq<Byte>, n: nat, st: Scan, tail: seq<Entry>)
    requires Plain(name) && n <= Needed(name) && (n < Needed(name) ==> st == Reading(name, n))
    ensures Listing(Fragments(name, n) + tail, st) == Listing(tail, Reading(name, 0))
    decreases n
  {
    hide Fragment, After, Reading;
    NeededBound(name);
    var es := Fragments(name, n) + tail;
    if n == 0 {
      assert es == tail;
    } else {
      FragmentStep(name, n, st);
      assert es[1..] == Fragments(name, n - 1) + tail;
      FragmentsRead(name, n - 1, Reading(name, n - 1), tail);
    }
  }

  lemma {:induction false} TextOf(name: seq<Byte>, pad: seq<Byte>)
    requires (forall i :: 0 <= i < |name| ==> name[i] != 0) && (pad != [] ==> pad[0] == 0)
    ensures Text(name + pad) == name
  {
    if name == [] {
      assert name + pad == pad;
    } else {
      assert (name + pad)[1..] == name[1..] + pad;
      TextOf(name[1..], pad);
    }
  }

  lemma ReadName(name: seq<Byte>)
    requires Plain(name)
    ensures Text(Reading(name, 0).buffer) == name
  {
    var b := Put(Zeros(), name, 0, |name|);
    assert b == name + Zeros()[|name|..];
    TextOf(name, Zeros()[|name|..]);
  }

  lemma ShortParts(name: seq<Byte>, attr: Byte, cluster: nat, size: nat)
    requires cluster < 0x1_0000_0000 && size < 0x1_0000_0000
    ensures var e := ShortEntry(name, attr, cluster, size);
      && e[..11] == ShortOf(name) && e[11] == attr && Word(e, 7) == size
      && 0x1_0000 * (e[20] + 256 * e[21] as int) + e[26] + 256 * e[27] as int == cluster
  {
    hide ShortOf;
    var e := ShortEntry(name, attr, cluster, size);
    assert e[28..32] == WordBytes(size) == WordBytes(size)[0..4];
    WordFrame(e, 7, WordBytes(size), 0);
    WordOfBytes(size);
    Halves(cluster);
    assert e[20] == Half(cluster / 0x1_0000)[0] && e[21] == Half(cluster / 0x1_0000)[1];
    assert e[26] == Half(cluster)[0] && e[27] == Half(cluster)[1];
  }

  lemma Halves(v: nat)
    requires v < 0x1_0000_0000
    ensures var h := v / 0x1_0000;
      0x1_0000 * (h % 256 + 256 * (h / 256 % 256)) + v % 256 + 256 * (v / 256 % 256) == v
  {
  }

  /** The first octet of the short name is the first character, or a space for a leading dot. */
  lemma ShortFirst(name: seq<Byte>)
    requires name != []
    ensures ShortOf(name)[0] == if name[0] == 46 then 32 else Capital(name[0])
  {
  }
}
