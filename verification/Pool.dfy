/** The kernel pool: a window of virtual pages handed out in contiguous runs, tracked by 32-bit words. */
module Pool {
  import Arith
  import opened Bitmap
  import opened PageRuns

  const PAGE: nat := 4096
  const MAX_PAGES: nat := 131072
  const WORDS: nat := 4096

  function Wrap64(x: nat): nat { if x < 0x1_0000_0000_0000_0000 then x else x - 0x1_0000_0000_0000_0000 }

  /** Pages for a size; a size so large that the sum wraps counts as none. */
  function PagesFor(size: nat): nat { Wrap64(size + PAGE - 1) / PAGE }

  /** The count covers the size exactly when the rounding does not wrap. */
  lemma PagesForCovers(size: nat)
    requires 0 < size < 0x1_0000_0000_0000_0000
    ensures PagesFor(size) * PAGE >= size <==> size <= 0x1_0000_0000_0000_0000 - PAGE
    ensures size > 0x1_0000_0000_0000_0000 - PAGE ==> PagesFor(size) == 0
  {
  }

  class Window {
    const base: nat
    const bits: Words

    ghost predicate Valid()
      reads this, bits, bits.words
    {
      bits.Valid() && bits.width == 32 && |bits.used| == MAX_PAGES && base > 0
    }

    /** pool_init. */
    constructor (address: nat)
      requires address > 0
      ensures Valid() && fresh(bits) && fresh(bits.words) && base == address
      ensures forall p :: 0 <= p < MAX_PAGES ==> !bits.used[p]
    {
      base := address;
      bits := new Words(32, WORDS, 0);
      new;
      Arith.TimesIs(WORDS, 32);
    }

    /**
     * The window part of pool_alloc; `frames` says whether physical pages are left.  The lowest run that is long
     * enough is used, and the call fails exactly when the size is no good, no run exists, or no frames are left.
     */
    method Alloc(size: nat, frames: bool) returns (ptr: nat, ghost page: int)
      requires Valid() && size < 0x1_0000_0000_0000_0000
      modifies bits, bits.words
      ensures Valid() && (ptr == 0 <==> page == -1)
      ensures page == -1 ==> bits.used == old(bits.used)
      ensures page == -1 <==> size == 0 || PagesFor(size) == 0 || PagesFor(size) > MAX_PAGES || !frames
                              || NoRun(old(bits.used), PagesFor(size))
      ensures page != -1 ==> page >= 0 && ptr == base + page * PAGE && Lowest(old(bits.used), page, PagesFor(size))
      ensures page != -1 ==> bits.used == Marked(old(bits.used), page, PagesFor(size), true)
    {
      ptr, page := 0, -1;
      if size == 0 { return; }
      var n := PagesFor(size);
      if n == 0 || n > MAX_PAGES { return; }
      assert bits.used[..MAX_PAGES] == bits.used;
      var r := bits.FindRun(MAX_PAGES, n);
      if r == -1 { return; }
      assert FreeRun(bits.used, r, n);
      if !frames { return; }
      bits.SetAll(r, n, true);
      ptr, page := base + r * PAGE, r;
    }

    /** The window part of pool_free. */
    method Free(ptr: nat, size: nat)
      requires Valid() && size < 0x1_0000_0000_0000_0000
      modifies bits, bits.words
      ensures Valid()
      ensures Inside(ptr, size) ==> bits.used == Marked(old(bits.used), (ptr - base) / PAGE, PagesFor(size), false)
      ensures !Inside(ptr, size) ==> bits.used == old(bits.used)
    {
      if size == 0 { return; }
      var n := PagesFor(size);
      if ptr < base || n == 0 { return; }
      var start := (ptr - base) / PAGE;
      if start + n > MAX_PAGES { return; }
      bits.SetAll(start, n, false);
    }

    /** The pages that `size` bytes at `ptr` need lie in the window. */
    predicate Inside(ptr: nat, size: nat)
      reads this
    {
      size > 0 && PagesFor(size) > 0 && base <= ptr && (ptr - base) / PAGE + PagesFor(size) <= MAX_PAGES
    }
  }

  // ---------------------------------------------------------------------------
  // Runs
  // ---------------------------------------------------------------------------

  datatype Event = Take(size: nat, frames: bool) | Give(ptr: nat)

  /** The marked pages, and the size asked for of every pointer handed out and not given back. */
  datatype State = State(used: seq<bool>, sizes: map<nat, nat>)

  /** Whether a request fails. */
  ghost predicate Fails(used: seq<bool>, size: nat, frames: bool) {
    size == 0 || PagesFor(size) == 0 || PagesFor(size) > MAX_PAGES || !frames || NoRun(used, PagesFor(size))
  }

  /** One call and its answer; a live pointer is given back with the size it was asked for. */
  ghost predicate Step(base: nat, s: State, e: Event, ptr: nat, t: State)
  {
    match e
    case Take(size, frames) =>
      if Fails(s.used, size, frames) then ptr == 0 && t == s
      else
        && base <= ptr && (ptr - base) % PAGE == 0 && Lowest(s.used, (ptr - base) / PAGE, PagesFor(size))
        && t == State(Marked(s.used, (ptr - base) / PAGE, PagesFor(size), true), s.sizes[ptr := size])
    case Give(p) =>
      && ptr == 0
      && if p in s.sizes && base <= p && (p - base) / PAGE + PagesFor(s.sizes[p]) <= |s.used| then
           t == State(Marked(s.used, (p - base) / PAGE, PagesFor(s.sizes[p]), false), s.sizes - {p})
         else t == s
  }

  ghost predicate StepAt(base: nat, trace: seq<State>, events: seq<Event>, answers: seq<nat>, k: nat) {
    k + 1 < |trace| && k < |events| && k < |answers| && Step(base, trace[k], events[k], answers[k], trace[k + 1])
  }

  /** The states a run goes through, from an empty window. */
  ghost predicate Runs(base: nat, trace: seq<State>, events: seq<Event>, answers: seq<nat>) {
    && |answers| == |events| && |trace| == |events| + 1 && trace[0] == State(seq(MAX_PAGES, _ => false), map[])
    && forall k: nat :: k < |events| ==> StepAt(base, trace, events, answers, k)
  }

  /** The live pages by their first one, for the sizes asked for. */
  ghost predicate Tracks(base: nat, sizes: map<nat, nat>, live: Live) {
    && (forall t: nat :: TrackedAt(base, sizes, live, t))
    && (forall p :: PointerAt(base, sizes, p))
  }

  ghost predicate TrackedAt(base: nat, sizes: map<nat, nat>, live: Live, t: nat) {
    && (t in live <==> base + t * PAGE in sizes)
    && (t in live ==> live[t] == PagesFor(sizes[base + t * PAGE]))
  }

  ghost predicate PointerAt(base: nat, sizes: map<nat, nat>, p: nat) {
    p in sizes ==> base <= p && (p - base) % PAGE == 0 && PagesFor(sizes[p]) > 0 && 0 < sizes[p] < 0x1_0000_0000_0000_0000
  }

  /** Live runs are apart and inside the window, and a page is marked exactly while a live run holds it. */
  ghost predicate Good(base: nat, s: State) {
    exists live :: Tracks(base, s.sizes, live) && Kept(s.used, seq(MAX_PAGES, _ => false), MAX_PAGES, live)
  }

  /** Two live pointers never share a byte, and each lies in the window with all the bytes asked for. */
  lemma GoodApart(base: nat, s: State, p: nat, q: nat)
    requires Good(base, s) && p in s.sizes && q in s.sizes
    ensures base <= p && p + s.sizes[p] <= base + MAX_PAGES * PAGE
    ensures p != q ==> p + s.sizes[p] <= q || q + s.sizes[q] <= p
  {
    hide Kept, PagesFor;
    var live :| Tracks(base, s.sizes, live) && Kept(s.used, seq(MAX_PAGES, _ => false), MAX_PAGES, live);
    var t, u := Page(base, s.sizes, live, p), Page(base, s.sizes, live, q);
    Whole(s.sizes[p]);
    Whole(s.sizes[q]);
    KeptApart(s.used, seq(MAX_PAGES, _ => false), live, t, u);
  }

  lemma KeptApart(used: seq<bool>, base: seq<bool>, live: Live, t: nat, u: nat)
    requires Kept(used, base, MAX_PAGES, live) && t in live && u in live
    ensures t + live[t] <= MAX_PAGES && (t != u ==> t + live[t] <= u || u + live[u] <= t)
  {
    assert WithinAt(live, MAX_PAGES, t) && PageRuns.ApartAt(live, t, u);
  }

  ghost function Page(base: nat, sizes: map<nat, nat>, live: Live, p: nat): (t: nat)
    requires Tracks(base, sizes, live) && p in sizes
    ensures t in live && p == base + t * PAGE && live[t] == PagesFor(sizes[p]) > 0
    ensures 0 < sizes[p] < 0x1_0000_0000_0000_0000
  {
    assert PointerAt(base, sizes, p);
    var t := (p - base) / PAGE;
    assert TrackedAt(base, sizes, live, t);
    t
  }

  lemma Whole(size: nat)
    requires 0 < size < 0x1_0000_0000_0000_0000 && PagesFor(size) > 0
    ensures size <= PagesFor(size) * PAGE
  {
    PagesForCovers(size);
  }

  lemma StartGood(base: nat)
    ensures Good(base, State(seq(MAX_PAGES, _ => false), map[]))
  {
    hide Kept;
    var live: Live := map[];
    StartKept(seq(MAX_PAGES, _ => false), MAX_PAGES);
    assert Tracks(base, map[], live);
  }

  lemma StepKeeps(base: nat, s: State, e: Event, ptr: nat, t: State)
    requires Good(base, s) && |s.used| == MAX_PAGES && Step(base, s, e, ptr, t)
    requires e.Take? ==> e.size < 0x1_0000_0000_0000_0000
    ensures Good(base, t) && |t.used| == MAX_PAGES
  {
    hide Kept, Marked, Lowest, NoRun, PagesFor, Tracks;
    var live :| Tracks(base, s.sizes, live) && Kept(s.used, seq(MAX_PAGES, _ => false), MAX_PAGES, live);
    match e {
      case Take(size, frames) =>
        if !Fails(s.used, size, frames) {
          var page := (ptr - base) / PAGE;
          TakeKept(s.used, seq(MAX_PAGES, _ => false), live, page, PagesFor(size));
          TracksMore(base, s.sizes, live, page, size);
        }
      case Give(p) =>
        if p in s.sizes && base <= p {
          var page := Page(base, s.sizes, live, p);
          GiveKept(s.used, seq(MAX_PAGES, _ => false), live, page);
          TracksLess(base, s.sizes, live, page);
        }
    }
  }

  lemma TracksMore(base: nat, sizes: map<nat, nat>, live: Live, page: nat, size: nat)
    requires Tracks(base, sizes, live) && 0 < size < 0x1_0000_0000_0000_0000 && PagesFor(size) > 0
    ensures Tracks(base, sizes[base + page * PAGE := size], live[page := PagesFor(size)])
  {
    hide PagesFor;
    var sizes', live' := sizes[base + page * PAGE := size], live[page := PagesFor(size)];
    forall t: nat ensures TrackedAt(base, sizes', live', t) { assert TrackedAt(base, sizes, live, t); }
    forall p: nat ensures PointerAt(base, sizes', p) { assert PointerAt(base, sizes, p); }
  }

  lemma TracksLess(base: nat, sizes: map<nat, nat>, live: Live, page: nat)
    requires Tracks(base, sizes, live)
    ensures Tracks(base, sizes - {base + page * PAGE}, live - {page})
  {
    hide PagesFor;
    var sizes', live' := sizes - {base + page * PAGE}, live - {page};
    forall t: nat ensures TrackedAt(base, sizes', live', t) { assert TrackedAt(base, sizes, live, t); }
    forall p: nat ensures PointerAt(base, sizes', p) { assert PointerAt(base, sizes, p); }
  }

  /** Every state of every run. */
  lemma {:induction false} RunKeeps(base: nat, trace: seq<State>, events: seq<Event>, answers: seq<nat>, k: nat)
    requires Runs(base, trace, events, answers) && k <= |events|
    requires forall i :: 0 <= i < |events| && events[i].Take? ==> events[i].size < 0x1_0000_0000_0000_0000
    ensures Good(base, trace[k]) && |trace[k].used| == MAX_PAGES
  {
    hide Good, Step;
    if k == 0 {
      StartGood(base);
    } else {
      RunKeeps(base, trace, events, answers, k - 1);
      assert StepAt(base, trace, events, answers, k - 1);
      StepKeeps(base, trace[k - 1], events[k - 1], answers[k - 1], trace[k]);
    }
  }

  /** Any run from an empty window goes through the states of a run, one answer to a call. */
  method Run(w: Window, events: seq<Event>) returns (answers: seq<nat>, sizes: map<nat, nat>, ghost trace: seq<State>)
    requires w.Valid() && forall p :: 0 <= p < MAX_PAGES ==> !w.bits.used[p]
    requires forall i :: 0 <= i < |events| && events[i].Take? ==> events[i].size < 0x1_0000_0000_0000_0000
    modifies w.bits, w.bits.words
    ensures w.Valid() && Runs(w.base, trace, events, answers)
    ensures trace[|events|] == State(w.bits.used, sizes)
    ensures forall k: nat :: k <= |events| ==> Good(w.base, trace[k])
  {
    hide Good, Step;
    ghost var s := State(w.bits.used, map[]);
    assert w.bits.used == seq(MAX_PAGES, _ => false);
    answers, sizes, trace := [], map[], [s];
    StartGood(w.base);
    for i := 0 to |events|
      invariant w.Valid() && |answers| == i && |trace| == i + 1 && trace[i] == State(w.bits.used, sizes)
      invariant trace[0] == State(seq(MAX_PAGES, _ => false), map[])
      invariant forall k: nat :: k < i ==> StepAt(w.base, trace, events, answers, k)
      invariant forall k: nat :: k <= i ==> Good(w.base, trace[k])
    {
      var ptr;
      ptr, sizes := Call(w, sizes, events[i]);
      TraceMore(w.base, trace, events, answers, ptr, State(w.bits.used, sizes));
      answers, trace := answers + [ptr], trace + [State(w.bits.used, sizes)];
    }
  }

  lemma TraceMore(base: nat, trace: seq<State>, events: seq<Event>, answers: seq<nat>, ptr: nat, t: State)
    requires |trace| == |answers| + 1 && |answers| < |events| && Step(base, trace[|answers|], events[|answers|], ptr, t)
    requires forall k: nat :: k < |answers| ==> StepAt(base, trace, events, answers, k)
    ensures forall k: nat :: k < |answers| + 1 ==> StepAt(base, trace + [t], events, answers + [ptr], k)
  {
    hide Step;
    forall k: nat | k < |answers| + 1 ensures StepAt(base, trace + [t], events, answers + [ptr], k) {
      if k < |answers| { assert StepAt(base, trace, events, answers, k); }
    }
  }

  /** One call on the window, as a step. */
  method Call(w: Window, sizes: map<nat, nat>, e: Event) returns (ptr: nat, sizes': map<nat, nat>)
    requires w.Valid() && Good(w.base, State(w.bits.used, sizes))
    requires e.Take? ==> e.size < 0x1_0000_0000_0000_0000
    modifies w.bits, w.bits.words
    ensures w.Valid() && Step(w.base, State(old(w.bits.used), sizes), e, ptr, State(w.bits.used, sizes'))
    ensures Good(w.base, State(w.bits.used, sizes'))
  {
    hide Kept, Marked, Lowest, NoRun, PagesFor, Good;
    ghost var s := State(w.bits.used, sizes);
    sizes' := sizes;
    match e {
      case Take(size, frames) =>
        ghost var page;
        ptr, page := w.Alloc(size, frames);
        if ptr != 0 { sizes' := sizes[ptr := size]; }
      case Give(p) =>
        ptr := 0;
        if p in sizes {
          GiveBack(w.base, s, p);
          w.Free(p, sizes[p]);
          sizes' := sizes - {p};
        }
    }
    StepKeeps(w.base, s, e, ptr, State(w.bits.used, sizes'));
  }

  lemma GiveBack(base: nat, s: State, p: nat)
    requires Good(base, s) && p in s.sizes && |s.used| == MAX_PAGES
    ensures base <= p && 0 < s.sizes[p] < 0x1_0000_0000_0000_0000 && PagesFor(s.sizes[p]) > 0
    ensures (p - base) / PAGE + PagesFor(s.sizes[p]) <= MAX_PAGES
  {
    hide Kept, PagesFor;
    var live :| Tracks(base, s.sizes, live) && Kept(s.used, seq(MAX_PAGES, _ => false), MAX_PAGES, live);
    var t := Page(base, s.sizes, live, p);
    KeptApart(s.used, seq(MAX_PAGES, _ => false), live, t, t);
  }

  lemma TakeKept(used: seq<bool>, base: seq<bool>, live: Live, page: nat, n: nat)
    requires Kept(used, base, MAX_PAGES, live) && |used| == MAX_PAGES && n > 0 && Lowest(used, page, n)
    ensures page + n <= |used| && Kept(Marked(used, page, n, true), base, MAX_PAGES, live[page := n])
  {
    assert used[..MAX_PAGES] == used;
    AllocKept(used, base, MAX_PAGES, live, page, n);
  }

  lemma GiveKept(used: seq<bool>, base: seq<bool>, live: Live, page: nat)
    requires Kept(used, base, MAX_PAGES, live) && page in live
    ensures live[page] > 0 && page + live[page] <= MAX_PAGES && page + live[page] <= |used|
    ensures Kept(Marked(used, page, live[page], false), base, MAX_PAGES, live - {page})
  {
    assert WithinAt(live, MAX_PAGES, page);
    FreeKept(used, base, MAX_PAGES, live, page);
  }
}
