/** Every run of kmalloc and kfree from an empty heap. */
module HeapRun {
  import opened HeapBlocks
  import opened Heap
  import opened HeapAllocator

  /** A request with so many frames left for it, or a pointer given back. */
  datatype Op = Alloc(size: nat, pages: nat) | Free(ptr: nat)

  datatype Result = Allocated(o: Outcome, expansions: nat, left: nat, i: nat) | Released(i: nat) | Ignored

  /** The heap, and the size asked for of every pointer handed out and not given back. */
  datatype State = State(bs: seq<Block>, end: nat, live: map<nat, nat>)

  ghost predicate BackedBy(bs: seq<Block>, live: map<nat, nat>, p: nat) {
    p in live ==> exists b :: b in Live(bs) && Backs(b, p, live[p])
  }

  ghost predicate Counted(bs: seq<Block>, live: map<nat, nat>, b: Block) {
    b in Live(bs) ==> b.addr + HEADER in live
  }

  /** The pointers handed out and not yet given back are exactly those of the blocks in use. */
  ghost predicate Owns(bs: seq<Block>, live: map<nat, nat>) {
    (forall p :: BackedBy(bs, live, p)) && (forall b :: Counted(bs, live, b))
  }

  lemma {:induction false} LiveIsUsed(bs: seq<Block>, b: Block)
    ensures b in Live(bs) <==> b in bs && !b.free
  {
    if bs != [] {
      LiveIsUsed(bs[1..], b);
      assert b in bs <==> b == bs[0] || b in bs[1..];
    }
  }

  /** Live pointers are 16-aligned, inside the heap, and their bytes are pairwise apart. */
  lemma OwnsApart(bs: seq<Block>, end: nat, live: map<nat, nat>, p: nat, q: nat)
    requires InOrder(bs, end) && Owns(bs, live) && p in live && q in live
    ensures p % 16 == 0 && BASE + HEADER <= p && p + live[p] <= end
    ensures p != q ==> p + live[p] + HEADER <= q || q + live[q] + HEADER <= p
  {
    hide Live, Tiles;
    assert BackedBy(bs, live, p) && BackedBy(bs, live, q);
    var a :| a in Live(bs) && Backs(a, p, live[p]);
    var b :| b in Live(bs) && Backs(b, q, live[q]);
    LiveIsUsed(bs, a);
    LiveIsUsed(bs, b);
    var i :| 0 <= i < |bs| && bs[i] == a;
    var j :| 0 <= j < |bs| && bs[j] == b;
    TilesBound(bs, BASE, end, i);
    assert Shaped(bs[i]);
    if i < j { TilesDisjoint(bs, BASE, end, i, j); }
    if j < i { TilesDisjoint(bs, BASE, end, j, i); }
  }

  lemma AllocOwns(bs: seq<Block>, live: map<nat, nat>, i: nat, n: nat, size: nat)
    requires Owns(bs, live) && i < |bs| && Fits(bs[i], n) && size <= n
    ensures Owns(Taken(bs, i, n), live[bs[i].addr + HEADER := size])
  {
    hide Live, Taken;
    TakenLive(bs, i, n);
    var p, t := bs[i].addr + HEADER, TakenBlock(bs[i], n)[0];
    var bs', live' := Taken(bs, i, n), live[p := size];
    forall q ensures BackedBy(bs', live', q) {
      if q == p {
        assert t in Live(bs') && Backs(t, q, live'[q]);
      } else if q in live {
        assert BackedBy(bs, live, q);
        var b :| b in Live(bs) && Backs(b, q, live[q]);
        assert b in Live(bs');
      }
    }
    forall b ensures Counted(bs', live', b) {
      if b in Live(bs') && b != t {
        assert b in Live(bs);
        assert Counted(bs, live, b);
      }
    }
  }

  lemma FreeOwns(bs: seq<Block>, end: nat, live: map<nat, nat>, i: nat)
    requires InOrder(bs, end) && Owns(bs, live) && i < |bs| && !bs[i].free
    ensures Owns(Coalesced(Freed(bs, i)), live - {bs[i].addr + HEADER})
  {
    hide Live, Coalesced;
    FreedLive(bs, i);
    var p, bs' := bs[i].addr + HEADER, Coalesced(Freed(bs, i));
    var live' := live - {p};
    forall q ensures BackedBy(bs', live', q) {
      if q in live' {
        assert BackedBy(bs, live, q);
        var b :| b in Live(bs) && Backs(b, q, live[q]);
        assert b in Live(bs');
      }
    }
    forall b ensures Counted(bs', live', b) {
      if b in Live(bs') {
        assert b in Live(bs) && Counted(bs, live, b);
        OtherPointer(bs, end, i, b);
      }
    }
  }

  /** A block on either side has another address. */
  lemma OtherPointer(bs: seq<Block>, end: nat, i: nat, b: Block)
    requires Tiles(bs, BASE, end) && i < |bs| && b in Live(bs[..i]) + Live(bs[i + 1..])
    ensures b.addr != bs[i].addr
  {
    LiveIsUsed(bs[..i], b);
    LiveIsUsed(bs[i + 1..], b);
    if b in bs[..i] {
      var j :| 0 <= j < i && bs[j] == b;
      TilesDisjoint(bs, BASE, end, j, i);
    } else {
      var j :| 0 <= j < |bs| - i - 1 && bs[i + 1..][j] == b;
      TilesDisjoint(bs, BASE, end, i, i + 1 + j);
    }
  }

  // ---------------------------------------------------------------------------
  // Runs
  // ---------------------------------------------------------------------------

  /** No more frames than there are addresses left. */
  function Frames(end: nat, pages: nat): nat
    requires end < SPACE
  {
    if pages < (SPACE - 1 - end) / PAGE then pages else (SPACE - 1 - end) / PAGE
  }

  /** One call and what it answers; freeing what is not live is left out of a run. */
  ghost predicate Step(s: State, op: Op, r: Result, t: State) {
    match op
    case Alloc(size, pages) =>
      && s.bs != [] && s.end < SPACE && size < SPACE && Safe(s.bs, size, Frames(s.end, pages)) && r.Allocated?
      && Answers(s.bs, s.end, size, Frames(s.end, pages), r.o, r.expansions, r.left, r.i, Space(t.bs, t.end))
      && t.live == if r.o.Given? then s.live[r.o.ptr := size] else s.live
    case Free(ptr) =>
      if ptr in s.live then
        && r.Released? && r.i < |s.bs| && s.bs[r.i].addr + HEADER == ptr && !s.bs[r.i].free
        && t == State(Coalesced(Freed(s.bs, r.i)), s.end, s.live - {ptr})
      else
        r == Ignored && t == s
  }

  ghost predicate StepAt(trace: seq<State>, ops: seq<Op>, results: seq<Result>, k: nat) {
    k + 1 < |trace| && k < |ops| && k < |results| && Step(trace[k], ops[k], results[k], trace[k + 1])
  }

  /** The states a run of the first calls goes through, one more than there are answers. */
  ghost predicate Runs(trace: seq<State>, ops: seq<Op>, results: seq<Result>) {
    |trace| == |results| + 1 && |results| <= |ops| && forall k: nat :: k < |results| ==> StepAt(trace, ops, results, k)
  }

  ghost predicate Good(s: State) { InOrder(s.bs, s.end) && s.end % PAGE == 0 && Owns(s.bs, s.live) }

  /** A call keeps the list in order and the live pointers backed, and hands out no pointer that is live. */
  lemma StepKeeps(s: State, op: Op, r: Result, t: State)
    requires Good(s) && Step(s, op, r, t)
    ensures Good(t)
    ensures op.Alloc? && r.o.Given? ==> r.o.ptr !in s.live
  {
    hide Live, Taken, Coalesced, Grown, InOrder, Owns, Safe;
    match op {
      case Alloc(size, pages) =>
        if size > 0 { AllocKeeps(s, size, Frames(s.end, pages), r, t); }
      case Free(ptr) =>
        if ptr in s.live { FreeKeeps(s, r.i); }
    }
  }

  lemma AllocKeeps(s: State, size: nat, pages: nat, r: Result, t: State)
    requires Good(s) && 0 < size < SPACE && s.end + PAGE * pages < SPACE && Safe(s.bs, size, pages) && r.Allocated?
    requires Answers(s.bs, s.end, size, pages, r.o, r.expansions, r.left, r.i, Space(t.bs, t.end))
    requires t.live == if r.o.Given? then s.live[r.o.ptr := size] else s.live
    ensures Good(t) && (r.o.Given? ==> r.o.ptr !in s.live)
  {
    hide Live, Taken, Coalesced, Grown, InOrder, Owns, Answers, Rounded, Growth, Safe, Best, NoFit;
    RightIff(s.bs, s.end, size, pages, r.o, r.expansions, r.left, r.i, Space(t.bs, t.end));
    if r.o.Given? {
      var n := Rounded(size);
      EndBelow(s.bs, s.end);
      RoundedEven(size);
      SmallGiven(s, size, pages, r, t);
      SmallAnswers(s.bs, s.end, size, pages, r.o, r.expansions, r.left, r.i, Space(t.bs, t.end));
      var l := Searched(s.bs, s.end, n, r.expansions == 1);
      BestFits(l, r.i, n);
      SearchedOwns(s.bs, s.end, n, r.expansions == 1, s.live);
      NotYetLive(l, t.end, s.live, r.i);
      AllocOwns(l, s.live, r.i, n, size);
    }
  }

  /** A call that is safe and succeeds is one whose size does not wrap. */
  lemma SmallGiven(s: State, size: nat, pages: nat, r: Result, t: State)
    requires Good(s) && 0 < size < SPACE && s.end + PAGE * pages < SPACE && Safe(s.bs, size, pages) && r.Allocated?
    requires Answers(s.bs, s.end, size, pages, r.o, r.expansions, r.left, r.i, Space(t.bs, t.end)) && r.o.Given?
    ensures size <= LARGEST
  {
    hide InOrder, Owns, Answers, Rounded, Safe;
    RightIff(s.bs, s.end, size, pages, r.o, r.expansions, r.left, r.i, Space(t.bs, t.end));
    if size > LARGEST { TooLarge(Space(t.bs, t.end), r.o.ptr, size); }
  }

  lemma FreeKeeps(s: State, i: nat)
    requires Good(s) && i < |s.bs| && !s.bs[i].free
    ensures Good(State(Coalesced(Freed(s.bs, i)), s.end, s.live - {s.bs[i].addr + HEADER}))
  {
    hide Live, Coalesced, Owns, Tiles;
    FreedInOrder(s.bs, s.end, i);
    FreeOwns(s.bs, s.end, s.live, i);
  }

  lemma FreedInOrder(bs: seq<Block>, end: nat, i: nat)
    requires InOrder(bs, end) && i < |bs|
    ensures InOrder(Coalesced(Freed(bs, i)), end)
  {
    hide Coalesced, Tiles;
    FreedTiles(bs, i, BASE, end);
    CoalescedTiles(Freed(bs, i), BASE, end);
    assert Shaped(bs[i]);
    CoalescedShaped(Freed(bs, i));
    CoalescedApart(Freed(bs, i));
  }

  /** Every state of every run: the list is in order, live pointers are backed, and none left means one free block. */
  lemma {:induction false} RunKeeps(trace: seq<State>, ops: seq<Op>, results: seq<Result>, k: nat)
    requires Runs(trace, ops, results) && Good(trace[0]) && k <= |results|
    ensures Good(trace[k])
    ensures trace[k].live == map[] ==> |trace[k].bs| == 1 && trace[k].bs[0].free && trace[k].bs[0].End() == trace[k].end
  {
    hide Good, Step;
    if k > 0 {
      RunKeeps(trace, ops, results, k - 1);
      assert StepAt(trace, ops, results, k - 1);
      StepKeeps(trace[k - 1], ops[k - 1], results[k - 1], trace[k]);
    }
    if trace[k].live == map[] { EmptyState(trace[k]); }
  }

  lemma EmptyState(s: State)
    requires Good(s) && s.live == map[]
    ensures |s.bs| == 1 && s.bs[0].free && s.bs[0].End() == s.end
  {
    hide Live, InOrder;
    Empty(s.bs, s.end, s.live);
  }

  /**
   * Any run from a heap with nothing in use, with any number of frames left at each call: the calls go through the
   * states of a run, which ends early only in front of a request that wraps.
   */
  method Run(h: Allocator, ops: seq<Op>) returns (results: seq<Result>, live: map<nat, nat>, ghost trace: seq<State>)
    requires h.Valid() && Live(h.blocks) == []
    requires forall i :: 0 <= i < |ops| && ops[i].Alloc? ==> ops[i].size < SPACE
    modifies h
    ensures Runs(trace, ops, results)
    ensures trace[0] == State(old(h.blocks), old(h.end), map[]) && trace[|results|] == State(h.blocks, h.end, live)
    ensures h.Valid() && forall k: nat :: k <= |results| ==> Good(trace[k])
    ensures |results| < |ops| ==>
      var op := ops[|results|]; op.Alloc? && !Safe(h.blocks, op.size, Frames(h.end, op.pages))
  {
    hide Live, InOrder, Owns, Step, Safe;
    results, live := [], map[];
    trace := [State(h.blocks, h.end, live)];
    NoneOwned(h.blocks, h.end);
    while |results| < |ops|
      invariant h.Valid() && |results| <= |ops| && Runs(trace, ops, results)
      invariant trace[0] == State(old(h.blocks), old(h.end), map[]) && trace[|results|] == State(h.blocks, h.end, live)
      invariant Good(trace[|results|]) && forall k: nat :: k <= |results| ==> Good(trace[k])
    {
      var op := ops[|results|];
      EndBelow(h.blocks, h.end);
      if op.Alloc? && !Safe(h.blocks, op.size, Frames(h.end, op.pages)) { return; }
      var r;
      r, live := Call(h, live, op);
      ghost var t := State(h.blocks, h.end, live);
      RunsMore(trace, ops, results, r, t);
      results, trace := results + [r], trace + [t];
    }
  }

  lemma EndBelow(bs: seq<Block>, end: nat)
    requires InOrder(bs, end)
    ensures end < SPACE && bs != []
  {
  }

  lemma NoneOwned(bs: seq<Block>, end: nat)
    requires InOrder(bs, end) && end % PAGE == 0 && Live(bs) == []
    ensures Good(State(bs, end, map[]))
  {
    hide Live, InOrder;
  }

  lemma RunsMore(trace: seq<State>, ops: seq<Op>, results: seq<Result>, r: Result, t: State)
    requires Runs(trace, ops, results) && |results| < |ops| && Step(trace[|results|], ops[|results|], r, t)
    ensures Runs(trace + [t], ops, results + [r])
  {
    hide Step;
    var trace', results' := trace + [t], results + [r];
    forall k: nat | k < |results'| ensures StepAt(trace', ops, results', k) {
      if k < |results| { assert StepAt(trace, ops, results, k); }
    }
  }

  /** One call on the allocator, as a step. */
  method Call(h: Allocator, live: map<nat, nat>, op: Op) returns (r: Result, live': map<nat, nat>)
    requires h.Valid() && Good(State(h.blocks, h.end, live)) && h.end < SPACE
    requires op.Alloc? ==> op.size < SPACE && Safe(h.blocks, op.size, Frames(h.end, op.pages))
    modifies h
    ensures Step(State(old(h.blocks), old(h.end), live), op, r, State(h.blocks, h.end, live'))
    ensures h.Valid() && Good(State(h.blocks, h.end, live'))
  {
    hide Live, InOrder, Owns, Safe, Answers;
    ghost var s := State(h.blocks, h.end, live);
    EndBelow(h.blocks, h.end);
    match op {
      case Alloc(size, pages) =>
        var o, expansions, left, i := h.Kmalloc(size, Frames(h.end, pages));
        r := Allocated(o, expansions, left, i);
        live' := if o.Given? then live[o.ptr := size] else live;
      case Free(ptr) =>
        if ptr in live {
          LiveBlock(h.blocks, live, ptr);
          var i := h.Kfree(ptr);
          r, live' := Released(i), live - {ptr};
        } else {
          r, live' := Ignored, live;
        }
    }
    StepKeeps(s, op, r, State(h.blocks, h.end, live'));
  }

  lemma LiveBlock(bs: seq<Block>, live: map<nat, nat>, ptr: nat)
    requires Owns(bs, live) && ptr in live
    ensures exists b :: b in bs && !b.free && b.addr + HEADER == ptr
  {
    hide Live;
    assert BackedBy(bs, live, ptr);
    var b :| b in Live(bs) && Backs(b, ptr, live[ptr]);
    LiveIsUsed(bs, b);
  }

  lemma SearchedOwns(bs: seq<Block>, end: nat, n: nat, grew: bool, live: map<nat, nat>)
    requires bs != [] && Growth(n) >= HEADER && Owns(bs, live)
    ensures Owns(Searched(bs, end, n, grew), live)
  {
    hide Live, Grown;
    if grew {
      GrownLive(bs, end, Growth(n));
      var g := Grown(bs, end, Growth(n));
      forall p ensures BackedBy(g, live, p) { assert BackedBy(bs, live, p); }
      forall b ensures Counted(g, live, b) { assert Counted(bs, live, b); }
    }
  }

  lemma GrownLive(bs: seq<Block>, end: nat, n: nat)
    requires bs != [] && n >= HEADER
    ensures Live(Grown(bs, end, n)) == Live(bs)
  {
    hide Live;
    var k: nat := |bs| - 1;
    var front, last, added := bs[..k], bs[k], Block(end, n - HEADER, true);
    assert bs == front + [last];
    LiveSplit(front, [last]);
    LiveSplit(front, [Merged(last, added)]);
    LiveSplit(bs, [added]);
    LiveOne(last);
    LiveOne(added);
    LiveOne(Merged(last, added));
  }

  /** The pointer handed out is not one of the live ones. */
  lemma NotYetLive(l: seq<Block>, end: nat, live: map<nat, nat>, i: nat)
    requires InOrder(l, end) && Owns(l, live) && i < |l| && l[i].free
    ensures l[i].addr + HEADER !in live
  {
    hide Live;
    var p := l[i].addr + HEADER;
    assert BackedBy(l, live, p);
    forall b | b in Live(l) ensures b.addr != l[i].addr {
      LiveIsUsed(l, b);
      FreeAddress(l, end, i, b);
    }
  }

  lemma FreeAddress(bs: seq<Block>, end: nat, i: nat, b: Block)
    requires Tiles(bs, BASE, end) && i < |bs| && bs[i].free && b in bs && !b.free
    ensures b.addr != bs[i].addr
  {
    var j :| 0 <= j < |bs| && bs[j] == b;
    if j < i { TilesDisjoint(bs, BASE, end, j, i); }
    if i < j { TilesDisjoint(bs, BASE, end, i, j); }
  }

  lemma Empty(bs: seq<Block>, end: nat, live: map<nat, nat>)
    requires InOrder(bs, end) && Owns(bs, live) && live == map[]
    ensures |bs| == 1 && bs[0].free && bs[0].End() == end
  {
    NoneCounted(bs, live);
    NothingLive(bs, end);
  }

  lemma NoneCounted(bs: seq<Block>, live: map<nat, nat>)
    requires forall b :: Counted(bs, live, b)
    ensures live == map[] ==> Live(bs) == []
  {
    if Live(bs) != [] { assert Counted(bs, live, Live(bs)[0]); }
  }
}
