/** A file as the bytes of its clusters, one after the other. */
module FatFile {
  import opened Arith
  import opened Bytes
  import opened FatTable

  /** The contents of a data area whose clusters hold `size` bytes each. */
  ghost predicate Area(area: seq<seq<Byte>>, size: nat) {
    forall c :: 0 <= c < |area| ==> |area[c]| == size
  }

  ghost predicate InArea(area: seq<seq<Byte>>, ch: seq<nat>) {
    forall i :: 0 <= i < |ch| ==> ch[i] < |area|
  }

  ghost function FileBytes(area: seq<seq<Byte>>, size: nat, ch: seq<nat>): (r: seq<Byte>)
    requires Area(area, size) && InArea(area, ch)
    ensures |r| == Times(|ch|, size)
  {
    if ch == [] then [] else area[ch[0]] + FileBytes(area, size, ch[1..])
  }

  /** A piece of cluster `i` is the piece of the file at the same place. */
  lemma {:induction false} SliceOfFile(area: seq<seq<Byte>>, size: nat, ch: seq<nat>, i: nat, a: nat, m: nat)
    requires Area(area, size) && InArea(area, ch) && i < |ch| && a + m <= size
    ensures Times(i, size) + a + m <= Times(|ch|, size)
    ensures FileBytes(area, size, ch)[Times(i, size) + a..Times(i, size) + a + m] == area[ch[i]][a..a + m]
    decreases i
  {
    if i > 0 { SliceOfFile(area, size, ch[1..], i - 1, a, m); }
  }

  lemma SpliceLeft(a: seq<Byte>, b: seq<Byte>, off: nat, d: seq<Byte>)
    requires off + |d| <= |a|
    ensures Splice(a + b, off, d) == Splice(a, off, d) + b
  {
  }

  lemma SpliceRight(a: seq<Byte>, b: seq<Byte>, off: nat, d: seq<Byte>)
    requires off + |d| <= |b|
    ensures Splice(a + b, |a| + off, d) == a + Splice(b, off, d)
  {
  }

  /** Rewriting a piece of cluster `i` rewrites exactly that piece of the file. */
  lemma {:induction false} FileOfPut(area: seq<seq<Byte>>, size: nat, ch: seq<nat>, i: nat, a: nat, d: seq<Byte>)
    requires Area(area, size) && InArea(area, ch) && Distinct(ch) && i < |ch| && a + |d| <= size
    ensures Times(i, size) + a + |d| <= Times(|ch|, size)
    ensures FileBytes(area[ch[i] := Splice(area[ch[i]], a, d)], size, ch)
         == Splice(FileBytes(area, size, ch), Times(i, size) + a, d)
    decreases i
  {
    var area' := area[ch[i] := Splice(area[ch[i]], a, d)];
    var rest := FileBytes(area, size, ch[1..]);
    if i == 0 {
      FileFrame(area, area', size, ch[1..]);
      SpliceLeft(area[ch[0]], rest, a, d);
    } else {
      FileOfPut(area, size, ch[1..], i - 1, a, d);
      SpliceRight(area[ch[0]], rest, Times(i - 1, size) + a, d);
    }
  }

  /** A file whose clusters are untouched keeps its bytes. */
  lemma {:induction false} FileFrame(area: seq<seq<Byte>>, area': seq<seq<Byte>>, size: nat, ch: seq<nat>)
    requires Area(area, size) && Area(area', size) && InArea(area, ch) && |area| == |area'|
    requires forall i :: 0 <= i < |ch| ==> area'[ch[i]] == area[ch[i]]
    ensures FileBytes(area', size, ch) == FileBytes(area, size, ch)
  {
    if ch != [] { FileFrame(area, area', size, ch[1..]); }
  }

  /** A longer chain starts with the bytes of its prefix. */
  lemma {:induction false} FilePrefix(area: seq<seq<Byte>>, size: nat, ch: seq<nat>, longer: seq<nat>)
    requires Area(area, size) && InArea(area, longer) && ch <= longer
    ensures FileBytes(area, size, ch) <= FileBytes(area, size, longer)
  {
    if ch != [] { FilePrefix(area, size, ch[1..], longer[1..]); }
  }
}
