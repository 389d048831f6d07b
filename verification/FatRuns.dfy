/** Runs of cluster allocation, chain extension and chain release over one FAT. */
module FatRuns {
  import opened FatTable

  /** A table together with the chains of the files on it, by first cluster. */
  datatype Files = Files(fat: Table, count: nat, live: map<nat, seq<nat>>)

  ghost predicate WellFormed(s: Files) {
    && s.count <= |s.fat| <= FAT32_BAD
    && LinksInRange(s.fat)
    && (forall h :: ChainAt(s, h))
    && (forall h, g :: Separate(s, h, g))
  }

  ghost predicate ChainAt(s: Files, h: nat)
    requires s.count <= |s.fat|
  {
    h in s.live ==> IsChain(s.fat, s.count, s.live[h]) && s.live[h][0] == h
  }

  ghost predicate Separate(s: Files, h: nat, g: nat) {
    h in s.live && g in s.live && h != g ==> Apart(s.live[h], s.live[g])
  }

  datatype Op = Create | Extend(head: nat) | Remove(head: nat)

  /** The allocation scan finds nothing, or finds a cluster that exists on the device. */
  ghost predicate Room(s: Files)
    requires s.count <= |s.fat|
  {
    NoneFree(s.fat) || FreeCount(s.fat, s.count) > 0
  }

  ghost predicate Step(s: Files, op: Op, t: Files)
    requires WellFormed(s)
  {
    match op
    case Create =>
      if NoneFree(s.fat) then t == s
      else exists c :: LowestFree(s.fat, c) && t == Started(s, c)
    case Extend(h) =>
      h in s.live &&
      if NoneFree(s.fat) then t == s
      else exists c :: LowestFree(s.fat, c) && t == Grown(s, h, c)
    case Remove(h) =>
      h in s.live && t == Removed(s, h)
  }

  ghost function Removed(s: Files, h: nat): (t: Files)
    requires WellFormed(s) && h in s.live
  {
    assert ChainAt(s, h);
    s.(fat := Release(s.fat, h), live := s.live - {h})
  }

  ghost function Started(s: Files, c: nat): (t: Files)
    requires c < |s.fat|
  {
    s.(fat := SetLink(s.fat, c, FAT32_EOF), live := s.live[c := [c]])
  }

  ghost function Grown(s: Files, h: nat, c: nat): (t: Files)
    requires WellFormed(s) && h in s.live && c < |s.fat|
  {
    assert ChainAt(s, h);
    s.(fat := Extended(s.fat, s.live[h][|s.live[h]| - 1], c), live := s.live[h := s.live[h] + [c]])
  }

  lemma SetLinkInRange(fat: Table, c: nat, v: nat)
    requires LinksInRange(fat) && c < |fat| && (Stops(v % LINK) || v % LINK < |fat|)
    ensures LinksInRange(SetLink(fat, c, v))
  {
    var fat' := SetLink(fat, c, v);
    assert forall d :: 0 <= d < |fat| && d != c ==> Link(fat', d) == Link(fat, d);
  }

  /** A free cluster belongs to no live chain. */
  lemma FreeIsNotLive(s: Files, c: nat, h: nat)
    requires WellFormed(s) && c < |s.fat| && Link(s.fat, c) == 0 && h in s.live
    ensures c !in s.live[h]
  {
    assert ChainAt(s, h);
    forall i | 0 <= i < |s.live[h]| ensures s.live[h][i] != c {
      ChainIsNotFree(s.fat, s.count, s.live[h], i);
    }
  }

  lemma CreateKeeps(s: Files, c: nat)
    requires WellFormed(s) && 2 <= c < s.count && Link(s.fat, c) == 0
    ensures c !in s.live
    ensures WellFormed(Started(s, c))
  {
    var t := Started(s, c);
    forall h | h in s.live ensures c !in s.live[h] && h != c { FreeIsNotLive(s, c, h); assert ChainAt(s, h); }
    forall h ensures ChainAt(t, h) {
      if h in s.live {
        assert ChainAt(s, h);
        ChainFrame(s.fat, t.fat, s.count, s.live[h]);
      } else {
        assert LinkedAt(t.fat, [c], 0);
      }
    }
    forall h, g ensures Separate(t, h, g) { assert Separate(s, h, g); }
    SetLinkInRange(s.fat, c, FAT32_EOF);
  }

  lemma ExtendKeeps(s: Files, h: nat, c: nat)
    requires WellFormed(s) && h in s.live && 2 <= c < s.count && Link(s.fat, c) == 0
    ensures WellFormed(Grown(s, h, c))
    ensures forall g :: g in s.live ==> c !in s.live[g]
  {
    var ch := s.live[h];
    var t := Grown(s, h, c);
    assert ChainAt(s, h);
    ExtendedChain(s.fat, s.count, ch, c);
    SetLinkInRange(s.fat, c, FAT32_EOF);
    SetLinkInRange(SetLink(s.fat, c, FAT32_EOF), ch[|ch| - 1], c);
    forall g | g in s.live ensures c !in s.live[g] { FreeIsNotLive(s, c, g); }
    forall g ensures ChainAt(t, g) { assert ChainAt(s, g) && Separate(s, g, h); }
    forall g, k ensures Separate(t, g, k) { assert Separate(s, g, k); }
  }

  lemma {:induction false} ReleaseInRange(fat: Table, cur: nat)
    requires LinksInRange(fat) && (Stops(cur) || cur < |fat|)
    ensures LinksInRange(Release(fat, cur))
    decreases |NonZero(fat)|, if Stops(cur) then 0 else 1
  {
    if !Stops(cur) {
      SetLinkInRange(fat, cur, 0);
      if Link(fat, cur) != 0 {
        ZeroingShrinks(fat, cur);
        ReleaseInRange(SetLink(fat, cur, 0), Link(fat, cur));
      }
    }
  }

  lemma RemoveKeeps(s: Files, h: nat)
    requires WellFormed(s) && h in s.live
    ensures WellFormed(Removed(s, h))
  {
    assert ChainAt(s, h);
    ReleaseInRange(s.fat, h);
    var t := Removed(s, h);
    forall g ensures ChainAt(t, g) {
      assert ChainAt(s, g) && Separate(s, g, h);
      if g in s.live && g != h { ReleaseKeepsOthers(s.fat, s.count, s.live[h], s.live[g]); }
    }
    forall g, k ensures Separate(t, g, k) { assert Separate(s, g, k); }
  }

  ghost predicate SameTopBits(a: Table, b: Table) {
    |a| == |b| && forall c :: 0 <= c < |a| ==> a[c] / LINK == b[c] / LINK
  }

  /** What an operation needs: room, if it allocates. */
  ghost predicate RoomFor(s: Files, op: Op)
    requires s.count <= |s.fat|
  {
    op.Remove? || Room(s)
  }

  /** A step keeps the chains well formed exactly when it has room; a step without room takes a chain off the device. */
  lemma StepKeepsIff(s: Files, op: Op, t: Files)
    requires WellFormed(s) && Step(s, op, t)
    ensures WellFormed(t) <==> RoomFor(s, op)
    ensures t.count == s.count && SameTopBits(s.fat, t.fat)
  {
    match op
    case Create =>
      if !NoneFree(s.fat) {
        var c: nat :| LowestFree(s.fat, c) && t == Started(s, c);
        AllocatedExistsIffRoom(s.fat, s.count, c);
        if c < s.count { CreateKeeps(s, c); } else { StrayHead(s, c); }
      }
    case Extend(h) =>
      assert ChainAt(s, h);
      if !NoneFree(s.fat) {
        var c: nat :| LowestFree(s.fat, c) && t == Grown(s, h, c);
        AllocatedExistsIffRoom(s.fat, s.count, c);
        if c < s.count { ExtendKeeps(s, h, c); } else { StrayTail(s, h, c); }
      }
    case Remove(h) =>
      assert ChainAt(s, h);
      RemoveKeeps(s, h);
      ReleaseFreesReachable(s.fat, h);
  }

  lemma StrayHead(s: Files, c: nat)
    requires WellFormed(s) && s.count <= c < |s.fat|
    ensures !WellFormed(Started(s, c))
  {
    var t := Started(s, c);
    assert t.live[c] == [c] && [c][0] == c;
    assert !ChainAt(t, c);
  }

  lemma StrayTail(s: Files, h: nat, c: nat)
    requires WellFormed(s) && h in s.live && s.count <= c < |s.fat|
    ensures !WellFormed(Grown(s, h, c))
  {
    var t := Grown(s, h, c);
    var ch := t.live[h];
    assert ch[|ch| - 1] == c;
    assert !ChainAt(t, h);
  }

  /** A run: one more state than operations, each operation a step from a well-formed state. */
  ghost predicate IsRun(run: seq<Files>, ops: seq<Op>) {
    |run| == |ops| + 1 && forall i: nat :: i < |ops| ==> StepAt(run, ops, i)
  }

  ghost predicate StepAt(run: seq<Files>, ops: seq<Op>, i: nat) {
    i < |ops| && i + 1 < |run| && (WellFormed(run[i]) ==> Step(run[i], ops[i], run[i + 1]))
  }

  ghost predicate RoomAt(run: seq<Files>, ops: seq<Op>, i: nat) {
    i < |ops| && i < |run| && run[i].count <= |run[i].fat| && RoomFor(run[i], ops[i])
  }

  /**
   * In a run the live chains stay in range, acyclic, end-marked and pairwise disjoint up to operation `k` exactly when
   * every operation before it that allocates has room.
   */
  lemma {:induction false} RunKeepsIff(run: seq<Files>, ops: seq<Op>, k: nat)
    requires IsRun(run, ops) && WellFormed(run[0]) && k <= |ops|
    ensures (forall j :: 0 <= j <= k ==> WellFormed(run[j])) <==> forall i: nat :: i < k ==> RoomAt(run, ops, i)
  {
    hide WellFormed, Step;
    if k > 0 {
      RunKeepsIff(run, ops, k - 1);
      assert StepAt(run, ops, k - 1);
      if WellFormed(run[k - 1]) {
        CountFits(run[k - 1]);
        StepKeepsIff(run[k - 1], ops[k - 1], run[k]);
      }
      if forall j :: 0 <= j <= k ==> WellFormed(run[j]) {
        forall i: nat | i < k ensures RoomAt(run, ops, i) {}
      }
      if forall i: nat :: i < k ==> RoomAt(run, ops, i) {
        assert RoomAt(run, ops, k - 1);
      }
    }
  }

  lemma CountFits(s: Files)
    requires WellFormed(s)
    ensures s.count <= |s.fat|
  {
  }

  /** No operation of a run that has room loses the top four bits of an entry. */
  lemma {:induction false} RunKeepsTopBits(run: seq<Files>, ops: seq<Op>, k: nat)
    requires IsRun(run, ops) && k <= |ops| && forall j :: 0 <= j <= k ==> WellFormed(run[j])
    ensures SameTopBits(run[0].fat, run[k].fat)
  {
    hide WellFormed, Step;
    if k > 0 {
      RunKeepsTopBits(run, ops, k - 1);
      assert StepAt(run, ops, k - 1);
      StepKeepsIff(run[k - 1], ops[k - 1], run[k]);
    }
  }

  /**
   * A volume of one cluster whose FAT has one entry more: with the cluster in use, extending its chain takes the
   * entry behind it, for which there is no cluster.
   */
  lemma RunOut(t: Files)
    requires Step(Full(), Extend(2), t)
    ensures WellFormed(Full()) && t.live[2] == [2, 3] && !WellFormed(t)
  {
    var s := Full();
    assert ChainAt(s, 2);
    var c: nat :| LowestFree(s.fat, c) && t == Grown(s, 2, c);
    assert c == 3;
    StrayTail(s, 2, 3);
  }

  ghost function Full(): (s: Files)
    ensures WellFormed(s) && 2 in s.live && |s.fat| == 4 && Link(s.fat, 3) == 0
  {
    var s := Files([FAT32_EOF, FAT32_EOF, FAT32_EOF, 0], 3, map[2 := [2]]);
    assert LinkedAt(s.fat, [2], 0);
    assert forall h :: ChainAt(s, h);
    s
  }
}
