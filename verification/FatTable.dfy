/** The FAT as a table of 32-bit entries: chains, allocation and release. */
module FatTable {

  /** Raw 32-bit entries; the top four bits of an entry are not part of its link. */
  type Table = seq<nat>

  const LINK: nat := 0x1000_0000
  const FAT32_EOF: nat := 0x0FFF_FFF8
  const FAT32_BAD: nat := 0x0FFF_FFF7

  function Link(fat: Table, c: nat): (v: nat)
    requires c < |fat|
    ensures v < LINK
  {
    fat[c] % LINK
  }

  /** What fat32_set_cluster stores: the link replaced, the top four bits kept. */
  function Relinked(entry: nat, v: nat): (r: nat)
    ensures r % LINK == v % LINK && r / LINK == entry / LINK
    ensures entry < 0x1_0000_0000 ==> r < 0x1_0000_0000
  {
    entry / LINK * LINK + v % LINK
  }

  function SetLink(fat: Table, c: nat, v: nat): (r: Table)
    requires c < |fat|
    ensures |r| == |fat|
    ensures Link(r, c) == v % LINK && r[c] / LINK == fat[c] / LINK
    ensures forall d :: 0 <= d < |fat| && d != c ==> r[d] == fat[d]
  {
    fat[c := Relinked(fat[c], v)]
  }

  /** A walk along a chain stops at an end mark, at the bad-cluster mark and at a free entry. */
  predicate Stops(v: nat) { v >= FAT32_EOF || v == FAT32_BAD || v == 0 }

  ghost predicate Distinct(ch: seq<nat>) {
    forall i, j :: 0 <= i < j < |ch| ==> ch[i] != ch[j]
  }

  /** `ch` lists, in order, the clusters of a well-formed chain: in range, acyclic, end-marked. */
  ghost predicate IsChain(fat: Table, count: nat, ch: seq<nat>)
    requires count <= |fat|
  {
    && |ch| > 0
    && Distinct(ch)
    && (forall i :: 0 <= i < |ch| ==> 2 <= ch[i] < count)
    && (forall i :: 0 <= i < |ch| ==> LinkedAt(fat, ch, i))
  }

  /** Position `i` of a chain links to the next position, the last one carries an end mark. */
  ghost predicate LinkedAt(fat: Table, ch: seq<nat>, i: nat) {
    && i < |ch| && ch[i] < |fat|
    && if i + 1 < |ch| then Link(fat, ch[i]) == ch[i + 1] else Link(fat, ch[i]) >= FAT32_EOF
  }

  ghost predicate Apart(a: seq<nat>, b: seq<nat>) {
    forall c :: c in a ==> c !in b
  }

  /** Entries of a chain are never free. */
  lemma ChainIsNotFree(fat: Table, count: nat, ch: seq<nat>, i: nat)
    requires count <= |fat| && IsChain(fat, count, ch) && i < |ch|
    ensures Link(fat, ch[i]) != 0
  {
    assert LinkedAt(fat, ch, i);
  }

  lemma HeadEndsIffSingle(fat: Table, count: nat, ch: seq<nat>)
    requires count <= |fat| <= FAT32_BAD && IsChain(fat, count, ch)
    ensures |ch| == 1 <==> Link(fat, ch[0]) >= FAT32_EOF
  {
    assert LinkedAt(fat, ch, 0);
  }

  lemma ChainTail(fat: Table, count: nat, ch: seq<nat>)
    requires count <= |fat| && IsChain(fat, count, ch) && |ch| > 1
    ensures Link(fat, ch[0]) == ch[1] && IsChain(fat, count, ch[1..])
  {
    assert LinkedAt(fat, ch, 0);
    forall i | 0 <= i < |ch| - 1 ensures LinkedAt(fat, ch[1..], i) {
      assert LinkedAt(fat, ch, i + 1);
    }
  }

  /** A chain is determined by the table and its first cluster. */
  lemma {:induction false} ChainIsUnique(fat: Table, count: nat, a: seq<nat>, b: seq<nat>)
    requires count <= |fat| <= FAT32_BAD && IsChain(fat, count, a) && IsChain(fat, count, b)
    requires a[0] == b[0]
    ensures a == b
  {
    HeadEndsIffSingle(fat, count, a);
    HeadEndsIffSingle(fat, count, b);
    if |a| > 1 {
      ChainTail(fat, count, a);
      ChainTail(fat, count, b);
      ChainIsUnique(fat, count, a[1..], b[1..]);
      assert a == [a[0]] + a[1..] && b == [b[0]] + b[1..];
    }
  }

  /** Changes outside a chain leave it a chain. */
  lemma ChainFrame(fat: Table, fat': Table, count: nat, ch: seq<nat>)
    requires count <= |fat| == |fat'| && IsChain(fat, count, ch)
    requires forall i :: 0 <= i < |ch| ==> fat'[ch[i]] == fat[ch[i]]
    ensures IsChain(fat', count, ch)
  {
    forall i | 0 <= i < |ch| ensures LinkedAt(fat', ch, i) { assert LinkedAt(fat, ch, i); }
  }

  // ---------------------------------------------------------------------------
  // Allocation
  // ---------------------------------------------------------------------------

  /** The lowest free entry from 2 on, which is what the sector scan returns. */
  ghost predicate LowestFree(fat: Table, c: nat) {
    && 2 <= c < |fat|
    && Link(fat, c) == 0
    && forall d :: 2 <= d < c ==> Link(fat, d) != 0
  }

  ghost predicate NoneFree(fat: Table) {
    forall d :: 2 <= d < |fat| ==> Link(fat, d) != 0
  }

  /** Free clusters among those that exist on the device. */
  ghost function FreeSet(fat: Table, count: nat): set<nat>
    requires count <= |fat|
  {
    set c: nat | 2 <= c < count && Link(fat, c) == 0
  }

  ghost function FreeCount(fat: Table, count: nat): nat
    requires count <= |fat|
  {
    |FreeSet(fat, count)|
  }

  /**
   * The scan covers every FAT copy, so the cluster it returns exists on the device exactly when
   * some cluster of the device is free.
   */
  lemma AllocatedExistsIffRoom(fat: Table, count: nat, c: nat)
    requires count <= |fat| && LowestFree(fat, c)
    ensures c < count <==> FreeCount(fat, count) > 0
  {
    if c < count {
      assert c in FreeSet(fat, count);
    } else {
      assert FreeSet(fat, count) == {};
    }
  }

  /** Giving a free cluster a non-zero link takes exactly one cluster from the free ones. */
  lemma AllocateTakesOne(fat: Table, count: nat, c: nat, v: nat)
    requires count <= |fat| && 2 <= c < count && Link(fat, c) == 0 && v % LINK != 0
    ensures FreeCount(SetLink(fat, c, v), count) == FreeCount(fat, count) - 1
  {
    var fat' := SetLink(fat, c, v);
    assert FreeSet(fat', count) == FreeSet(fat, count) - {c};
  }

  lemma RelinkTakesNone(fat: Table, count: nat, c: nat, v: nat)
    requires count <= |fat| && c < |fat| && Link(fat, c) != 0 && v % LINK != 0
    ensures FreeCount(SetLink(fat, c, v), count) == FreeCount(fat, count)
  {
    assert FreeSet(SetLink(fat, c, v), count) == FreeSet(fat, count);
  }

  /** Allocation followed by linking the old tail to the new cluster. */
  function Extended(fat: Table, last: nat, c: nat): (r: Table)
    requires c < |fat| && last < |fat|
    ensures |r| == |fat|
  {
    SetLink(SetLink(fat, c, FAT32_EOF), last, c)
  }

  /** Extending appends the new cluster to the chain and disturbs no chain that is apart from it. */
  lemma ExtendedChain(fat: Table, count: nat, ch: seq<nat>, c: nat)
    requires count <= |fat| <= FAT32_BAD && IsChain(fat, count, ch)
    requires 2 <= c < count && Link(fat, c) == 0
    ensures IsChain(Extended(fat, ch[|ch| - 1], c), count, ch + [c])
    ensures forall other: seq<nat> :: IsChain(fat, count, other) && Apart(other, ch) ==>
      IsChain(Extended(fat, ch[|ch| - 1], c), count, other) && Apart(other, ch + [c])
    ensures forall other: seq<nat> :: IsChain(fat, count, other) ==> c !in other
    ensures FreeCount(Extended(fat, ch[|ch| - 1], c), count) == FreeCount(fat, count) - 1
  {
    var last := ch[|ch| - 1];
    var mid := SetLink(fat, c, FAT32_EOF);
    var fat' := Extended(fat, last, c);
    forall other: seq<nat> | IsChain(fat, count, other)
      ensures c !in other
      ensures Apart(other, ch) ==> IsChain(fat', count, other) && Apart(other, ch + [c])
    {
      forall i | 0 <= i < |other| ensures other[i] != c { ChainIsNotFree(fat, count, other, i); }
      if Apart(other, ch) {
        assert last in ch && last !in other;
        ChainFrame(fat, fat', count, other);
      }
    }
    assert c !in ch;
    forall i | 0 <= i <= |ch| ensures LinkedAt(fat', ch + [c], i) {
      if i < |ch| { assert LinkedAt(fat, ch, i); }
    }
    assert LinkedAt(fat, ch, |ch| - 1);
    AllocateTakesOne(fat, count, c, FAT32_EOF);
    RelinkTakesNone(mid, count, last, c);
  }

  /** The entries `cs` linked one behind the other, the first behind `last` (or behind nothing), the last end-marked. */
  ghost function Strung(fat: Table, last: nat, cs: seq<nat>): (r: Table)
    requires forall i :: 0 <= i < |cs| ==> cs[i] < |fat|
    ensures |r| == |fat|
  {
    if cs == [] then fat
    else
      var n := |cs| - 1;
      var mid := SetLink(Strung(fat, last, cs[..n]), cs[n], FAT32_EOF);
      var from := if n == 0 then last else cs[n - 1];
      if from < |fat| then SetLink(mid, from, cs[n]) else mid
  }

  /** The first free entries past the last cluster, in order. */
  ghost predicate Strays(fat: Table, count: nat, cs: seq<nat>) {
    && (forall i :: 0 <= i < |cs| ==> count <= cs[i] < |fat| && Link(fat, cs[i]) == 0)
    && (forall i, j :: 0 <= i < j < |cs| ==> cs[i] < cs[j])
    && (forall i, d :: 0 <= i < |cs| && count <= d < cs[i] && Link(fat, d) == 0 ==> d in cs[..i])
  }

  ghost predicate SomeBeyond(fat: Table, count: nat) { exists d :: 2 <= d < |fat| && count <= d && Link(fat, d) == 0 }

  lemma {:induction false} StrungLink(fat: Table, last: nat, cs: seq<nat>, d: nat)
    requires d < |fat| <= FAT32_BAD && forall i :: 0 <= i < |cs| ==> 2 <= cs[i] < |fat|
    ensures d !in cs && d != last ==> Strung(fat, last, cs)[d] == fat[d]
    ensures d in cs ==> Link(Strung(fat, last, cs), d) != 0
    ensures d == last && cs != [] ==> Link(Strung(fat, last, cs), d) != 0
    ensures cs == [] ==> Strung(fat, last, cs) == fat
  {
    if cs != [] {
      var n := |cs| - 1;
      var front, c := cs[..n], cs[n];
      StrungLink(fat, last, front, d);
      assert cs == front + [c];
      StrungStep(fat, last, front, c, d);
      if n > 0 { assert d == front[n - 1] ==> d in front; }
    }
  }

  lemma StrungStep(fat: Table, last: nat, cs: seq<nat>, c: nat, d: nat)
    requires (forall i :: 0 <= i < |cs| ==> cs[i] < |fat|) && 2 <= c < |fat| <= FAT32_BAD && d < |fat|
    ensures var from := if cs == [] then last else cs[|cs| - 1];
      && (d != c && d != from ==> Strung(fat, last, cs + [c])[d] == Strung(fat, last, cs)[d])
      && (d == c || d == from ==> Link(Strung(fat, last, cs + [c]), d) != 0)
  {
    hide Strung;
    StrungMore(fat, last, cs, c);
  }

  lemma StrungMore(fat: Table, last: nat, cs: seq<nat>, c: nat)
    requires (forall i :: 0 <= i < |cs| ==> cs[i] < |fat|) && c < |fat|
    ensures var from := if cs == [] then last else cs[|cs| - 1];
      var mid := SetLink(Strung(fat, last, cs), c, FAT32_EOF);
      Strung(fat, last, cs + [c]) == if from < |fat| then SetLink(mid, from, c) else mid
  {
    assert (cs + [c])[..|cs|] == cs;
  }

  /** The lowest free entry of the strung table is the next stray. */
  lemma StraysMore(fat: Table, count: nat, last: nat, cs: seq<nat>, c: nat)
    requires 2 <= count <= |fat| <= FAT32_BAD && Strays(fat, count, cs) && FreeCount(fat, count) == 0
    requires last < |fat| ==> Link(fat, last) != 0
    requires LowestFree(Strung(fat, last, cs), c)
    ensures Strays(fat, count, cs + [c])
  {
    hide Strung;
    var now, all := Strung(fat, last, cs), cs + [c];
    StrungLink(fat, last, cs, c);
    assert Link(fat, c) == 0;
    NoneBelow(fat, count, c);
    forall i | 0 <= i < |cs| ensures cs[i] < c {
      var before := cs[..i];
      assert cs[i] in cs && (c < cs[i] ==> c in before);
    }
    forall i, d | 0 <= i < |all| && count <= d < all[i] && Link(fat, d) == 0 ensures d in all[..i] {
      if i < |cs| {
        assert all[..i] == cs[..i];
      } else {
        StrungLink(fat, last, cs, d);
        assert Link(now, d) != 0;
        assert all[..i] == cs;
      }
    }
  }

  lemma NoneBelow(fat: Table, count: nat, c: nat)
    requires count <= |fat| && FreeCount(fat, count) == 0 && 2 <= c < |fat| && Link(fat, c) == 0
    ensures count <= c
  {
    var free := FreeSet(fat, count);
    assert c < count ==> c in free;
  }

  // ---------------------------------------------------------------------------
  // Release
  // ---------------------------------------------------------------------------

  /** Every link is a stop mark or names an entry of the table; cycles and cross links are allowed. */
  ghost predicate LinksInRange(fat: Table) {
    forall c :: 0 <= c < |fat| ==> Stops(Link(fat, c)) || Link(fat, c) < |fat|
  }

  ghost function NonZero(fat: Table): set<nat> {
    set c: nat | c < |fat| && Link(fat, c) != 0
  }

  lemma ZeroingShrinks(fat: Table, c: nat)
    requires c < |fat| && Link(fat, c) != 0
    ensures |NonZero(SetLink(fat, c, 0))| < |NonZero(fat)|
    ensures LinksInRange(fat) ==> LinksInRange(SetLink(fat, c, 0))
  {
    var fat' := SetLink(fat, c, 0);
    assert NonZero(fat') == NonZero(fat) - {c};
    assert forall d :: 0 <= d < |fat| && d != c ==> Link(fat', d) == Link(fat, d);
  }

  /**
   * The loop of fat32_free_cluster_chain.  It terminates on every table whose links stay in range:
   * a pass over a non-zero entry leaves fewer of them, and a pass over a zero entry is the last.
   */
  ghost function Release(fat: Table, cur: nat): (r: Table)
    requires LinksInRange(fat)
    requires Stops(cur) || cur < |fat|
    ensures |r| == |fat|
    decreases |NonZero(fat)|, if Stops(cur) then 0 else 1
  {
    if Stops(cur) then fat
    else
      var next := Link(fat, cur);
      if next == 0 then SetLink(fat, cur, 0)
      else
        ZeroingShrinks(fat, cur);
        Release(SetLink(fat, cur, 0), next)
  }

  lemma ZeroLink(fat: Table, c: nat)
    requires c < |fat| && Link(fat, c) == 0
    ensures SetLink(fat, c, 0) == fat
  {
  }

  /** On a well-formed chain the release zeroes exactly the links of that chain. */
  lemma {:induction false} ReleaseChain(fat: Table, count: nat, ch: seq<nat>)
    requires count <= |fat| <= FAT32_BAD && LinksInRange(fat) && IsChain(fat, count, ch)
    ensures forall c :: 0 <= c < |fat| ==>
      Release(fat, ch[0])[c] == if c in ch then fat[c] / LINK * LINK else fat[c]
    decreases |ch|
  {
    var fat' := SetLink(fat, ch[0], 0);
    assert !Stops(ch[0]);
    ChainIsNotFree(fat, count, ch, 0);
    HeadEndsIffSingle(fat, count, ch);
    if |ch| == 1 {
      ZeroingShrinks(fat, ch[0]);
      assert Release(fat', Link(fat, ch[0])) == fat';
    } else {
      ChainTail(fat, count, ch);
      ZeroingShrinks(fat, ch[0]);
      var rest := ch[1..];
      assert rest[0] == ch[1];
      ChainFrame(fat, fat', count, rest);
      ReleaseChain(fat', count, rest);
      forall c | 0 <= c < |fat|
        ensures Release(fat, ch[0])[c] == if c in ch then fat[c] / LINK * LINK else fat[c]
      {
        assert c in ch <==> c == ch[0] || c in rest by { assert ch == [ch[0]] + rest; }
        assert ch[0] !in rest;
      }
    }
  }

  /** Other chains survive a release, and the released clusters become free. */
  lemma ReleaseKeepsOthers(fat: Table, count: nat, ch: seq<nat>, other: seq<nat>)
    requires count <= |fat| <= FAT32_BAD && LinksInRange(fat) && IsChain(fat, count, ch)
    requires IsChain(fat, count, other) && Apart(other, ch)
    ensures IsChain(Release(fat, ch[0]), count, other)
    ensures forall i :: 0 <= i < |ch| ==> Link(Release(fat, ch[0]), ch[i]) == 0
  {
    ReleaseChain(fat, count, ch);
    ChainFrame(fat, Release(fat, ch[0]), count, other);
  }

  /** A path of links from one cluster to another that passes through no stop mark. */
  ghost predicate Path(fat: Table, p: seq<nat>, from: nat, to: nat) {
    && |p| > 0 && p[0] == from && p[|p| - 1] == to
    && (forall i :: 0 <= i < |p| ==> p[i] < |fat| && !Stops(p[i]))
    && (forall i :: 0 <= i < |p| - 1 ==> Link(fat, p[i]) == p[i + 1])
  }

  ghost predicate Reaches(fat: Table, from: nat, to: nat) {
    exists p: seq<nat> :: Path(fat, p, from, to)
  }

  /**
   * On any table the release frees exactly what is reachable from the start: an entry changes only
   * if a path of links leads to it, every entry so reached ends up free, and the top four bits of
   * every entry survive.
   */
  lemma {:induction false} ReleaseFreesReachable(fat: Table, cur: nat)
    requires LinksInRange(fat)
    requires Stops(cur) || cur < |fat|
    ensures forall c :: 0 <= c < |fat| ==> Release(fat, cur)[c] / LINK == fat[c] / LINK
    ensures forall c :: 0 <= c < |fat| && Release(fat, cur)[c] != fat[c] ==> Reaches(fat, cur, c)
    ensures forall c :: 0 <= c < |fat| && Reaches(fat, cur, c) ==> Link(Release(fat, cur), c) == 0
    decreases |NonZero(fat)|, if Stops(cur) then 0 else 1
  {
    if Stops(cur) {
    } else {
      var next := Link(fat, cur);
      var fat' := SetLink(fat, cur, 0);
      ghost var r := Release(fat, cur);
      assert Path(fat, [cur], cur, cur);
      if next != 0 {
        ZeroingShrinks(fat, cur);
        ReleaseFreesReachable(fat', next);
      }
      forall c | 0 <= c < |fat| && r[c] != fat[c] && c != cur
        ensures Reaches(fat, cur, c)
      {
        assert Reaches(fat', next, c);
        var p :| Path(fat', p, next, c);
        PathBack(fat, cur, p, c);
      }
      forall c | 0 <= c < |fat| && Reaches(fat, cur, c)
        ensures Link(r, c) == 0
      {
        var p :| Path(fat, p, cur, c);
        PathForward(fat, cur, p, c);
      }
    }
  }

  lemma PathBack(fat: Table, cur: nat, p: seq<nat>, c: nat)
    requires cur < |fat| && !Stops(cur)
    requires Path(SetLink(fat, cur, 0), p, Link(fat, cur), c)
    ensures Reaches(fat, cur, c)
  {
    var fat' := SetLink(fat, cur, 0);
    forall i | 0 <= i < |p| - 1 ensures Link(fat, p[i]) == p[i + 1] {
      assert Link(fat', p[i]) == p[i + 1] && p[i + 1] != 0;
    }
    var q := [cur] + p;
    assert forall i :: 0 <= i < |q| - 1 ==> Link(fat, q[i]) == q[i + 1];
    assert Path(fat, q, cur, c);
  }

  /** A path from `cur` either comes back to `cur` last or goes on, without `cur`, from its link. */
  lemma {:induction false} PathForward(fat: Table, cur: nat, p: seq<nat>, c: nat)
    requires LinksInRange(fat) && Path(fat, p, cur, c)
    ensures c == cur || (Link(fat, cur) != 0 && Reaches(SetLink(fat, cur, 0), Link(fat, cur), c))
    ensures Link(Release(fat, cur), cur) == 0
    decreases |p|
  {
    ReleaseHeadFree(fat, cur);
    if c != cur {
      var fat' := SetLink(fat, cur, 0);
      var rest := p[1..];
      if cur in rest {
        var k :| 0 <= k < |rest| && rest[k] == cur;
        var tail := rest[k..];
        assert Path(fat, tail, cur, c) by {
          assert forall i :: 0 <= i < |tail| ==> tail[i] == p[i + k + 1];
        }
        PathForward(fat, cur, tail, c);
      } else {
        assert Path(fat', rest, Link(fat, cur), c) by {
          assert forall i :: 0 <= i < |rest| ==> rest[i] == p[i + 1];
          assert p[1] == Link(fat, p[0]);
        }
      }
    }
  }

  /** A released start stays free: later passes never write a non-zero link. */
  lemma {:induction false} ReleaseOnlyZeroes(fat: Table, cur: nat, c: nat)
    requires LinksInRange(fat) && (Stops(cur) || cur < |fat|) && c < |fat|
    ensures Link(fat, c) == 0 ==> Link(Release(fat, cur), c) == 0
    decreases |NonZero(fat)|, if Stops(cur) then 0 else 1
  {
    if !Stops(cur) && Link(fat, cur) != 0 {
      ZeroingShrinks(fat, cur);
      ReleaseOnlyZeroes(SetLink(fat, cur, 0), Link(fat, cur), c);
    }
  }

  lemma ReleaseHeadFree(fat: Table, cur: nat)
    requires LinksInRange(fat) && !Stops(cur) && cur < |fat|
    ensures Link(Release(fat, cur), cur) == 0
  {
    if Link(fat, cur) != 0 {
      ZeroingShrinks(fat, cur);
      ReleaseOnlyZeroes(SetLink(fat, cur, 0), Link(fat, cur), cur);
    }
  }
}
