/** What runs of page allocation and release keep, for any allocator that takes free runs and gives back live ones. */
module PageRuns {
  import opened Bitmap

  /** Live allocations: first page to number of pages. */
  type Live = map<nat, nat>

  predicate Covers(live: Live, t: nat, p: nat) { t in live && t <= p < t + live[t] }

  ghost predicate Held(live: Live, p: nat) { exists t :: Covers(live, t, p) }

  ghost predicate ApartAt(live: Live, t: nat, u: nat) {
    t in live && u in live && t != u ==> t + live[t] <= u || u + live[u] <= t
  }

  ghost predicate WithinAt(live: Live, total: nat, t: nat) { t in live ==> live[t] > 0 && t + live[t] <= total }

  /** A page is used exactly when it was never for allocation or a live allocation holds it, and not both. */
  ghost predicate ExactAt(used: seq<bool>, base: seq<bool>, live: Live, p: nat) {
    p < |used| && p < |base| ==> (used[p] <==> base[p] || Held(live, p)) && !(base[p] && Held(live, p))
  }

  ghost predicate Kept(used: seq<bool>, base: seq<bool>, total: nat, live: Live) {
    && |used| == |base| && total <= |used|
    && (forall p :: ExactAt(used, base, live, p))
    && (forall t, u :: ApartAt(live, t, u))
    && (forall t :: WithinAt(live, total, t))
  }

  lemma StartKept(base: seq<bool>, total: nat)
    requires total <= |base|
    ensures Kept(base, base, total, map[])
  {
    assert forall p :: !Held(map[], p);
  }

  lemma AllocKept(used: seq<bool>, base: seq<bool>, total: nat, live: Live, t: nat, n: nat)
    requires Kept(used, base, total, live) && n > 0 && t + n <= total && FreeRun(used[..total], t, n)
    ensures t !in live && Kept(Marked(used, t, n, true), base, total, live[t := n])
  {
    var live', used' := live[t := n], Marked(used, t, n, true);
    assert !used[..total][t] && WithinAt(live, total, t);
    HeldIsUsed(used, base, total, live, t, t);
    forall p ensures ExactAt(used', base, live', p) { AllocPage(used, base, total, live, t, n, p); }
    forall u, v ensures ApartAt(live', u, v) {
      assert ApartAt(live, u, v);
      if u in live { FreeIsApart(used, base, total, live, t, n, u); }
      if v in live { FreeIsApart(used, base, total, live, t, n, v); }
    }
    forall u ensures WithinAt(live', total, u) { assert WithinAt(live, total, u); }
  }

  lemma AllocPage(used: seq<bool>, base: seq<bool>, total: nat, live: Live, t: nat, n: nat, p: nat)
    requires Kept(used, base, total, live) && n > 0 && t + n <= total && FreeRun(used[..total], t, n) && t !in live
    ensures ExactAt(Marked(used, t, n, true), base, live[t := n], p)
  {
    var live' := live[t := n];
    assert ExactAt(used, base, live, p);
    if t <= p < t + n {
      assert !used[..total][p];
      assert Covers(live', t, p);
    }
    if Held(live, p) {
      var u :| Covers(live, u, p);
      assert Covers(live', u, p);
    }
    if Held(live', p) && !(t <= p < t + n) {
      var u :| Covers(live', u, p);
      assert Covers(live, u, p);
    }
  }

  /** A free run meets no live allocation. */
  lemma FreeIsApart(used: seq<bool>, base: seq<bool>, total: nat, live: Live, t: nat, n: nat, u: nat)
    requires Kept(used, base, total, live) && n > 0 && t + n <= total && FreeRun(used[..total], t, n) && u in live
    ensures t + n <= u || u + live[u] <= t
  {
    assert WithinAt(live, total, u);
    var p := if t < u then u else t;
    HeldIsUsed(used, base, total, live, u, p);
    assert t <= p < t + n ==> !used[..total][p];
  }

  lemma HeldIsUsed(used: seq<bool>, base: seq<bool>, total: nat, live: Live, u: nat, p: nat)
    requires Kept(used, base, total, live)
    ensures Covers(live, u, p) && p < |used| ==> used[p]
  {
    assert ExactAt(used, base, live, p);
  }

  lemma FreeKept(used: seq<bool>, base: seq<bool>, total: nat, live: Live, t: nat)
    requires Kept(used, base, total, live) && t in live && t + live[t] <= |used|
    ensures Kept(Marked(used, t, live[t], false), base, total, live - {t})
  {
    var live', used' := live - {t}, Marked(used, t, live[t], false);
    forall p ensures ExactAt(used', base, live', p) { FreePage(used, base, total, live, t, p); }
    forall u, v ensures ApartAt(live', u, v) { assert ApartAt(live, u, v); }
    forall u ensures WithinAt(live', total, u) { assert WithinAt(live, total, u); }
  }

  lemma FreePage(used: seq<bool>, base: seq<bool>, total: nat, live: Live, t: nat, p: nat)
    requires Kept(used, base, total, live) && t in live && t + live[t] <= |used|
    ensures ExactAt(Marked(used, t, live[t], false), base, live - {t}, p)
  {
    var live' := live - {t};
    assert ExactAt(used, base, live, p);
    if Held(live', p) {
      var u :| Covers(live', u, p);
      assert Covers(live, u, p) && ApartAt(live, t, u);
    }
    if Held(live, p) {
      var u :| Covers(live, u, p);
      if u != t { assert Covers(live', u, p) && ApartAt(live, t, u); }
    }
    if t <= p < t + live[t] { assert Covers(live, t, p); }
  }

  /** A run that is marked but handed to nobody counts as never for allocation. */
  lemma LostKept(used: seq<bool>, base: seq<bool>, total: nat, live: Live, t: nat, n: nat)
    requires Kept(used, base, total, live) && t + n <= total && FreeRun(used[..total], t, n)
    ensures Kept(Marked(used, t, n, true), Marked(base, t, n, true), total, live)
  {
    var used', base' := Marked(used, t, n, true), Marked(base, t, n, true);
    forall p: nat ensures ExactAt(used', base', live, p) {
      assert ExactAt(used, base, live, p);
      if t <= p < t + n { assert !used[..total][p]; }
    }
  }
}
