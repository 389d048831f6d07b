/** Every run of the physical allocator after start-up. */
module PmmRun {
  import opened Bitmap
  import opened PageRuns
  import opened Pmm

  /** Allocate some pages, or give back the live allocation that starts at a page. */
  datatype Event = Take(n: nat) | Give(page: nat)

  /**
   * The marked pages, the live allocations, and how many pages from page 0 on were marked for a call that then
   * answered 0, which its caller takes for failure.
   */
  datatype State = State(used: seq<bool>, live: Live, lost: nat)

  /** One call and its answer; giving back what is not live is left out of a run. */
  ghost predicate Step(total: nat, s: State, e: Event, addr: nat, t: State)
    requires total <= |s.used|
  {
    match e
    case Take(n) =>
      if n == 0 || NoRun(s.used[..total], n) then addr == 0 && t == s
      else
        && addr % PAGE == 0 && Lowest(s.used[..total], addr / PAGE, n)
        && t.used == Marked(s.used, addr / PAGE, n, true)
        && t.live == (if addr == 0 then s.live else s.live[addr / PAGE := n])
        && t.lost == if addr == 0 then n else s.lost
    case Give(page) =>
      && addr == 0
      && if page in s.live && page + s.live[page] <= |s.used| then
           t == State(Marked(s.used, page, s.live[page], false), s.live - {page}, s.lost)
         else t == s
  }

  ghost predicate StepAt(total: nat, trace: seq<State>, events: seq<Event>, answers: seq<nat>, k: nat) {
    && k + 1 < |trace| && k < |events| && k < |answers| && total <= |trace[k].used|
    && Step(total, trace[k], events[k], answers[k], trace[k + 1])
  }

  /** The states a run goes through, from nothing live. */
  ghost predicate Runs(total: nat, base: seq<bool>, trace: seq<State>, events: seq<Event>, answers: seq<nat>) {
    && |answers| == |events| && |trace| == |events| + 1 && trace[0] == State(base, map[], 0)
    && forall k: nat :: k < |events| ==> StepAt(total, trace, events, answers, k)
  }

  /** The pages that are no caller's to have: those used at the start, and those lost from page 0 on. */
  ghost function Never(base: seq<bool>, lost: nat): (r: seq<bool>)
    requires lost <= |base|
    ensures |r| == |base|
  {
    Marked(base, 0, lost, true)
  }

  ghost predicate Good(total: nat, base: seq<bool>, s: State) {
    && 0 < total <= |base| && s.lost <= total && (s.lost > 0 ==> !base[0])
    && Kept(s.used, Never(base, s.lost), total, s.live) && 0 !in s.live
  }

  lemma NeverNone(base: seq<bool>)
    ensures Never(base, 0) == base
  {
  }

  lemma StartGood(total: nat, base: seq<bool>)
    requires 0 < total <= |base|
    ensures Good(total, base, State(base, map[], 0))
  {
    hide Kept, Never;
    StartKept(base, total);
    NeverNone(base);
  }

  /** A call keeps live allocations apart, inside and off the pages never for allocation. */
  lemma StepKeeps(total: nat, base: seq<bool>, s: State, e: Event, addr: nat, t: State)
    requires Good(total, base, s) && total <= |s.used| && Step(total, s, e, addr, t)
    ensures Good(total, base, t) && |t.used| == |s.used|
    ensures e.Take? && addr != 0 ==> addr / PAGE !in s.live
  {
    hide Kept, Never, Marked, Lowest, NoRun;
    match e {
      case Take(n) =>
        if !(n == 0 || NoRun(s.used[..total], n)) {
          LowestFree(s.used, total, addr / PAGE, n);
          if addr == 0 {
            LosesOnce(total, base, s, n);
          } else {
            AllocKept(s.used, Never(base, s.lost), total, s.live, addr / PAGE, n);
          }
        }
      case Give(page) =>
        if page in s.live && page + s.live[page] <= |s.used| { FreeKept(s.used, Never(base, s.lost), total, s.live, page); }
    }
  }

  lemma LowestFree(used: seq<bool>, total: nat, page: nat, n: nat)
    requires total <= |used| && n > 0 && Lowest(used[..total], page, n)
    ensures page + n <= total && FreeRun(used[..total], page, n) && |Marked(used, page, n, true)| == |used|
  {
  }

  /** Page 0 is marked once at most: it is never given back. */
  lemma LosesOnce(total: nat, base: seq<bool>, s: State, n: nat)
    requires Good(total, base, s) && n > 0 && n <= total <= |s.used| && FreeRun(s.used[..total], 0, n)
    ensures s.lost == 0 && !base[0] && Kept(Marked(s.used, 0, n, true), Never(base, n), total, s.live)
  {
    hide Kept, Marked;
    assert !s.used[..total][0];
    PageZero(s.used, Never(base, s.lost), total, s.live);
    NeverAtZero(base, s.lost);
    NeverNone(base);
    LostKept(s.used, base, total, s.live, 0, n);
  }

  /** A call loses pages exactly when so many are free from page 0 on. */
  lemma LosesIff(total: nat, base: seq<bool>, s: State, n: nat, addr: nat, t: State)
    requires Good(total, base, s) && total <= |s.used| && s.lost == 0 && Step(total, s, Take(n), addr, t)
    ensures t.lost > 0 <==> n > 0 && FreeRun(s.used[..total], 0, n)
    ensures t.lost > 0 ==> addr == 0 && t.live == s.live && t.used != s.used
  {
    hide Kept, Never;
    if t.lost > 0 { assert t.used[0] && !s.used[..total][0]; }
  }

  lemma PageZero(used: seq<bool>, base: seq<bool>, total: nat, live: Live)
    requires Kept(used, base, total, live) && 0 < total && !used[0]
    ensures !base[0]
  {
    assert ExactAt(used, base, live, 0);
  }

  lemma NeverAtZero(base: seq<bool>, lost: nat)
    requires lost <= |base| && base != []
    ensures Never(base, lost)[0] <==> base[0] || lost > 0
  {
  }

  /** Every state of every run; where page 0 is not for allocation, no page is ever lost. */
  lemma {:induction false} RunKeeps(total: nat, base: seq<bool>, trace: seq<State>, events: seq<Event>, answers: seq<nat>,
                                    k: nat)
    requires 0 < total <= |base| && Runs(total, base, trace, events, answers) && k <= |events|
    ensures Good(total, base, trace[k]) && |trace[k].used| == |base| && (base[0] ==> trace[k].lost == 0)
  {
    hide Kept, Never, Step;
    if k == 0 {
      StartGood(total, base);
    } else {
      RunKeeps(total, base, trace, events, answers, k - 1);
      assert StepAt(total, trace, events, answers, k - 1);
      StepKeeps(total, base, trace[k - 1], events[k - 1], answers[k - 1], trace[k]);
    }
  }

  /** Any run of the allocator goes through the states of a run, one answer to a call. */
  method Run(pmm: Allocator, events: seq<Event>) returns (answers: seq<nat>, live: Live, ghost trace: seq<State>)
    requires pmm.Valid() && 0 < pmm.total
    modifies pmm.bits, pmm.bits.words
    ensures pmm.Valid() && Runs(pmm.total, old(pmm.bits.used), trace, events, answers)
    ensures trace[|events|].used == pmm.bits.used && trace[|events|].live == live
    ensures forall k: nat :: k <= |events| ==> Good(pmm.total, old(pmm.bits.used), trace[k])
  {
    hide Kept, Marked, Lowest, NoRun, Good, Step;
    ghost var base, s := pmm.bits.used, State(pmm.bits.used, map[], 0);
    answers, live, trace := [], map[], [s];
    StartGood(pmm.total, base);
    for i := 0 to |events|
      invariant pmm.Valid() && |answers| == i && |trace| == i + 1 && trace[i] == s && trace[0] == State(base, map[], 0)
      invariant s.used == pmm.bits.used && s.live == live && |s.used| == |base|
      invariant forall k: nat :: k < i ==> StepAt(pmm.total, trace, events, answers, k)
      invariant forall k: nat :: k <= i ==> Good(pmm.total, base, trace[k])
    {
      var addr;
      ghost var t;
      addr, live, t := Call(pmm, live, events[i], base, s);
      TraceMore(pmm.total, trace, events, answers, addr, t);
      answers, trace, s := answers + [addr], trace + [t], t;
    }
  }

  lemma TraceMore(total: nat, trace: seq<State>, events: seq<Event>, answers: seq<nat>, addr: nat, t: State)
    requires |trace| == |answers| + 1 && |answers| < |events| && total <= |trace[|answers|].used|
    requires Step(total, trace[|answers|], events[|answers|], addr, t)
    requires forall k: nat :: k < |answers| ==> StepAt(total, trace, events, answers, k)
    ensures forall k: nat :: k < |answers| + 1 ==> StepAt(total, trace + [t], events, answers + [addr], k)
  {
    hide Step;
    forall k: nat | k < |answers| + 1 ensures StepAt(total, trace + [t], events, answers + [addr], k) {
      if k < |answers| { assert StepAt(total, trace, events, answers, k); }
    }
  }

  /** One call on the allocator, as a step. */
  method Call(pmm: Allocator, live: Live, e: Event, ghost base: seq<bool>, ghost s: State)
    returns (addr: nat, live': Live, ghost t: State)
    requires pmm.Valid() && s.used == pmm.bits.used && s.live == live && |base| == |s.used| && Good(pmm.total, base, s)
    modifies pmm.bits, pmm.bits.words
    ensures pmm.Valid() && t.used == pmm.bits.used && t.live == live' && |t.used| == |base|
    ensures pmm.total <= |s.used| && Step(pmm.total, s, e, addr, t) && Good(pmm.total, base, t)
  {
    hide Kept, Marked, Lowest, NoRun, Good;
    live' := live;
    match e {
      case Take(n) =>
        ghost var page;
        addr, page := pmm.AllocPages(n);
        Taken(s.used, pmm.total, n, addr, page);
        if addr != 0 { live' := live[addr / PAGE := n]; }
        t := State(pmm.bits.used, live', if page != -1 && addr == 0 then n else s.lost);
      case Give(page) =>
        addr := 0;
        if page in live {
          GiveBack(pmm.total, base, s, page);
          pmm.FreePages(page * PAGE, live[page]);
          live' := live - {page};
        }
        t := State(pmm.bits.used, live', s.lost);
    }
    StepKeeps(pmm.total, base, s, e, addr, t);
  }

  /** The answer tells the page; no page means no run. */
  lemma Taken(used: seq<bool>, total: nat, n: nat, addr: nat, page: int)
    requires total <= |used| && (page == -1 ==> addr == 0 && (n > 0 ==> NoRun(used[..total], n)))
    requires page != -1 ==> page >= 0 && n > 0 && Lowest(used[..total], page, n) && addr == page * PAGE
    ensures page == -1 <==> n == 0 || NoRun(used[..total], n)
    ensures page != -1 ==> addr % PAGE == 0 && addr / PAGE == page
  {
  }

  lemma GiveBack(total: nat, base: seq<bool>, s: State, page: nat)
    requires Good(total, base, s) && page in s.live && |s.used| == |base|
    ensures page + s.live[page] <= total <= |s.used| && page * PAGE != 0
    ensures page * PAGE % PAGE == 0 && page * PAGE / PAGE == page
  {
    assert WithinAt(s.live, total, page);
  }

  // ---------------------------------------------------------------------------
  // From start-up on
  // ---------------------------------------------------------------------------

  /** Byte `x` lies in the live allocation that starts at page `t`. */
  predicate Holds(live: Live, t: nat, x: nat) { t in live && t * PAGE <= x < (t + live[t]) * PAGE }

  /** A live allocation meets no byte of the kernel or of the bitmap whose page was set aside. */
  lemma LiveOffReserved(total: nat, base: seq<bool>, s: State, t: nat, rs: seq<Region>, kernel: nat, kernelSize: nat,
                        bitmap: nat, bytes: nat, x: nat)
    requires Good(total, base, s) && Holds(s.live, t, x) && Covered(kernel, kernelSize) && Covered(bitmap, bytes)
    requires forall p :: 0 <= p < |base| ==> (base[p] <==> TakenAtStart(rs, kernel, kernelSize, bitmap, bytes, p))
    ensures InUsable(rs, x / PAGE)
    ensures !(kernel <= x < kernel + kernelSize) && !(bitmap <= x < bitmap + bytes)
  {
    hide Covered, SetAside, InUsable;
    var p := x / PAGE;
    HeldPage(total, base, s, t, x);
    if kernel <= x < kernel + kernelSize { SetAsideButLast(kernel, kernelSize, x); }
    if bitmap <= x < bitmap + bytes { SetAsideButLast(bitmap, bytes, x); }
  }

  lemma HeldPage(total: nat, base: seq<bool>, s: State, t: nat, x: nat)
    requires Good(total, base, s) && Holds(s.live, t, x)
    ensures x / PAGE < |base| && !base[x / PAGE]
  {
    var p := x / PAGE;
    assert WithinAt(s.live, total, t);
    assert Covers(s.live, t, p) && ExactAt(s.used, Never(base, s.lost), s.live, p);
  }

  /** What every state of a run after pmm_init keeps. */
  ghost predicate Apart(rs: seq<Region>, kernel: nat, kernelSize: nat, bitmap: nat, bytes: nat, live: Live, t: nat, x: nat) {
    Holds(live, t, x) ==>
      && InUsable(rs, x / PAGE) && (FrontsUsable(rs) ==> UsableByte(rs, x))
      && !(kernel <= x < kernel + kernelSize) && !(bitmap <= x < bitmap + bytes)
      && forall u :: u != t ==> !Holds(live, u, x)
  }

  lemma StateApart(total: nat, base: seq<bool>, s: State, rs: seq<Region>, kernel: nat, kernelSize: nat, bitmap: nat,
                   bytes: nat, t: nat, x: nat)
    requires Good(total, base, s) && Covered(kernel, kernelSize) && Covered(bitmap, bytes)
    requires forall p :: 0 <= p < |base| ==> (base[p] <==> TakenAtStart(rs, kernel, kernelSize, bitmap, bytes, p))
    ensures Apart(rs, kernel, kernelSize, bitmap, bytes, s.live, t, x)
  {
    hide Covered, TakenAtStart, InUsable, FrontsUsable, UsableByte;
    if Holds(s.live, t, x) {
      LiveOffReserved(total, base, s, t, rs, kernel, kernelSize, bitmap, bytes, x);
      PagesUsableIff(rs);
      forall u | u != t ensures !Holds(s.live, u, x) { assert PageRuns.ApartAt(s.live, t, u); }
    }
  }

  /**
   * pmm_init and then any run: in every state each byte of a live allocation is on a page freed for a usable region, off
   * the kernel, off the bitmap, and in no other live allocation, provided kernel and bitmap do not run over their pages.
   * It is usable memory if every region off a page boundary has usable bytes before it.
   */
  method Boot(rs: seq<Region>, kernel: nat, kernelSize: nat, events: seq<Event>)
    returns (started: bool, answers: seq<nat>, bitmap: nat, bytes: nat, ghost trace: seq<State>)
    ensures bytes == BitmapBytes(Highest(rs) / PAGE)
    ensures forall i: nat :: FirstOffer(rs, kernel, kernel + kernelSize, bytes, i) ==>
      bitmap == Offer(rs[i], kernel, kernel + kernelSize, bytes)
    ensures started <==> 0 < Highest(rs) / PAGE && bitmap != 0
                         && !Past(kernel, kernelSize, 8 * bytes) && !Past(bitmap, bytes, 8 * bytes)
    ensures started ==> |answers| == |events| && |trace| == |events| + 1
    ensures started ==> forall p :: 0 <= p < |trace[0].used| ==>
      (trace[0].used[p] <==> TakenAtStart(rs, kernel, kernelSize, bitmap, bytes, p))
    ensures started ==> Runs(Highest(rs) / PAGE, trace[0].used, trace, events, answers)
    ensures started && Covered(kernel, kernelSize) && Covered(bitmap, bytes) ==>
      forall k, t: nat, x: nat :: 0 <= k <= |events| ==> Apart(rs, kernel, kernelSize, bitmap, bytes, trace[k].live, t, x)
  {
    hide Covered, TakenAtStart, InUsable, Good, Runs, Offers, Offer, GoodPlace, Past, Apart;
    answers, trace := [], [];
    var pmm, place, size, overruns := Init(rs, kernel, kernelSize);
    bitmap, bytes := place, size;
    started := pmm != null && 0 < Highest(rs) / PAGE;
    if !started { return; }
    ghost var base := pmm.bits.used;
    var live;
    answers, live, trace := Run(pmm, events);
    RunShape(pmm.total, base, trace, events, answers);
    if Covered(kernel, kernelSize) && Covered(bitmap, bytes) {
      forall k, t: nat, x: nat | 0 <= k <= |events|
        ensures Apart(rs, kernel, kernelSize, bitmap, bytes, trace[k].live, t, x)
      {
        StateApart(pmm.total, base, trace[k], rs, kernel, kernelSize, bitmap, bytes, t, x);
      }
    }
  }

  lemma RunShape(total: nat, base: seq<bool>, trace: seq<State>, events: seq<Event>, answers: seq<nat>)
    requires Runs(total, base, trace, events, answers)
    ensures |answers| == |events| && |trace| == |events| + 1 && trace[0].used == base
  {
  }
}
