/** Any number of names added to a directory: which of them readdir shows. */
module LfnRun {
  import opened Bytes
  import opened Lfn
  import opened LfnRoundTrip
  import opened LfnDirectory
  import opened LfnCode

  // ---------------------------------------------------------------------------
  // Directories cluster by cluster
  // ---------------------------------------------------------------------------

  /** The nodes of all clusters, as if an end mark ended its cluster only. */
  ghost function Across(dir: seq<seq<Entry>>, st: Scan): seq<Node>
    decreases |dir|
  {
    if dir == [] then []
    else if NoEnd(dir[0]) then Through(dir[0], st).1 + Across(dir[1..], Through(dir[0], st).0)
    else Listing(dir[0], st) + Across(dir[1..], IDLE)
  }

  /** States that read on in the same way. */
  ghost predicate Alike(s: Scan, t: Scan) { s == t || (!s.has && !t.has) }

  lemma {:induction false} ThroughStale(es: seq<Entry>, s: Scan, t: Scan)
    requires Alike(s, t)
    ensures Through(es, s).1 == Through(es, t).1 && Alike(Through(es, s).0, Through(es, t).0)
  {
    hide After;
    if es != [] && s != t {
      StaleStep(es[0], s, t);
      ThroughStale(es[1..], After(s, es[0]).0, After(t, es[0]).0);
    }
  }

  lemma {:induction false} AcrossStale(dir: seq<seq<Entry>>, s: Scan, t: Scan)
    requires Alike(s, t)
    ensures Across(dir, s) == Across(dir, t)
    decreases |dir|
  {
    hide Through, Listing, NoEnd;
    if dir != [] && s != t {
      if NoEnd(dir[0]) {
        ThroughStale(dir[0], s, t);
        AcrossStale(dir[1..], Through(dir[0], s).0, Through(dir[0], t).0);
      } else {
        Stale(dir[0], s, t);
      }
    }
  }

  lemma {:induction false} ThroughSplit(a: seq<Entry>, b: seq<Entry>, st: Scan)
    ensures Through(a + b, st).0 == Through(b, Through(a, st).0).0
  {
    hide After;
    if a == [] {
      assert a + b == b;
    } else {
      assert (a + b)[1..] == a[1..] + b;
      ThroughSplit(a[1..], b, After(st, a[0]).0);
    }
  }

  lemma WholeListing(es: seq<Entry>, st: Scan)
    requires NoEnd(es)
    ensures Listing(es, st) == Through(es, st).1
  {
    hide After, Through;
    ListingSplit(es, [], st);
    assert es + [] == es;
  }

  /** Behind a gap no long name is under way. */
  lemma GapBreaks(gap: seq<Entry>, st: Scan)
    requires AllOpen(gap) && NoEnd(gap) && gap != []
    ensures !Through(gap, st).0.has
  {
    hide Long, NodeOf;
    var n := |gap| - 1;
    assert gap == gap[..n] + [gap[n]] && Open(gap[n]);
    ThroughSplit(gap[..n], [gap[n]], st);
    OneThrough(gap[n], Through(gap[..n], st).0);
  }

  lemma OneThrough(e: Entry, st: Scan)
    ensures Through([e], st).0 == After(st, e).0
  {
    hide After;
    assert [e][1..] == [];
  }

  /** Nor behind the entries of a name. */
  lemma NameBreaks(x: New, st: Scan)
    requires x.Ok()
    ensures !Through(x.Entries(), st).0.has
  {
    hide Long, NodeOf, ShortEntry, Fragments, Through;
    var e, fs := ShortEntry(x.name, x.attr, x.cluster, x.size), Fragments(x.name, Needed(x.name));
    ShortParts(x.name, x.attr, x.cluster, x.size);
    ThroughSplit(fs, [e], st);
    OneThrough(e, Through(fs, st).0);
  }

  lemma GainedOne(was: seq<Node>, at: nat, node: Node)
    requires at <= |was|
    ensures multiset(Gained(was, at, node)) == multiset(was) + multiset{node}
  {
    assert was == was[..at] + was[at..];
  }

  /** The cluster with the entries of a name in it. */
  ghost function With(c: seq<Entry>, s: nat, added: seq<Entry>): seq<Entry>
    requires s + |added| <= |c|
  {
    c[..s] + added + c[s + |added|..]
  }

  lemma NoEndFront(c: seq<Entry>, s: nat)
    requires s <= |c| && Tidy(c) && (s == 0 || !Open(c[s - 1]))
    ensures NoEnd(c[..s])
  {
    forall i | 0 <= i < s ensures !Ends(c[..s][i]) {
      assert c[..s][i] == c[i];
      assert !Ends(c[s - 1]);
    }
  }

  /** The entries of a name in one cluster: the cluster lists its node as well, and reading on behind it is the same. */
  lemma InCluster(c: seq<Entry>, s: nat, x: New, st: Scan)
    requires x.Ok() && |x.Entries()| == Needed(x.name) + 1 && RunAt(c, s, Needed(x.name) + 1)
    requires Tidy(c) && (s == 0 || !Open(c[s - 1]))
    ensures var c' := With(c, s, x.Entries());
      && multiset(Listing(c', st)) == multiset(Listing(c, st)) + multiset{x.Shown()} && Tidy(c')
      && (NoEnd(c) ==> NoEnd(c'))
      && (NoEnd(c') ==> Alike(Through(c', st).0, if NoEnd(c) then Through(c, st).0 else IDLE))
  {
    hide EntriesOf, Listing, NewNode, Through, Tidy, NoEnd, Alike;
    var n := Needed(x.name) + 1;
    var a, gap, b := c[..s], c[s..s + n], c[s + n..];
    ThreeParts(c, s, n);
    assert c == a + (gap + b);
    NoEndFront(c, s);
    NoEndsAdded(x.name, x.attr, x.cluster, x.size);
    var at := Inserted(a, gap, b, x.name, x.attr, x.cluster, x.size, st);
    GainedOne(Listing(c, st), at, x.Shown());
    NoEndParts(a, gap, b, x.Entries());
    if NoEnd(a + x.Entries() + b) { ReadOn(a, gap, b, x, st); }
  }

  lemma NoEndParts(a: seq<Entry>, gap: seq<Entry>, b: seq<Entry>, added: seq<Entry>)
    requires NoEnd(a) && NoEnd(added)
    ensures NoEnd(a + (gap + b)) <==> NoEnd(gap) && NoEnd(b)
    ensures NoEnd(a + added + b) <==> NoEnd(b)
  {
    var es, fs := a + (gap + b), a + added + b;
    if NoEnd(es) {
      forall i | 0 <= i < |gap| ensures !Ends(gap[i]) { assert es[|a| + i] == gap[i]; }
      forall i | 0 <= i < |b| ensures !Ends(b[i]) { assert es[|a| + |gap| + i] == b[i]; }
    }
    if NoEnd(fs) {
      forall i | 0 <= i < |b| ensures !Ends(b[i]) { assert fs[|a| + |added| + i] == b[i]; }
    }
  }

  lemma ReadOn(a: seq<Entry>, gap: seq<Entry>, b: seq<Entry>, x: New, st: Scan)
    requires x.Ok() && NoEnd(b) && NoEnd(a) && AllOpen(gap) && gap != [] && Tidy(a + (gap + b))
    ensures var es := a + (gap + b);
      Alike(Through(a + x.Entries() + b, st).0, if NoEnd(es) then Through(es, st).0 else IDLE)
  {
    hide EntriesOf, Listing, Through, Tidy;
    var es, mid := a + (gap + b), Through(a, st).0;
    assert a + x.Entries() + b == a + (x.Entries() + b);
    ThroughSplit(a, x.Entries() + b, st);
    ThroughSplit(x.Entries(), b, mid);
    NameBreaks(x, mid);
    NoEndParts(a, gap, b, []);
    if NoEnd(es) {
      ThroughSplit(a, gap + b, st);
      ThroughSplit(gap, b, mid);
      GapBreaks(gap, mid);
      ThroughStale(b, Through(x.Entries(), mid).0, Through(gap, mid).0);
    } else {
      TidyBack(a, gap + b);
      NothingBehind(gap, b);
      NoneThrough(Through(x.Entries(), mid).0);
    }
  }

  lemma NoneThrough(st: Scan)
    ensures Through([], st).0 == st
  {
  }

  lemma NothingBehind(gap: seq<Entry>, b: seq<Entry>)
    requires Tidy(gap + b) && !NoEnd(gap) && NoEnd(b)
    ensures b == []
  {
    hide NoEnd, AllEnd, Tidy;
    assert gap + b == gap + ([] + (b + []));
    EndsFrom(gap, [], b, []);
    NotBoth(b);
  }

  lemma NotBoth(b: seq<Entry>)
    ensures b == [] || !NoEnd(b) || !AllEnd(b)
  {
    if b != [] { assert Ends(b[0]) || !Ends(b[0]); }
  }

  lemma {:induction false} InsertedAcross(dir: seq<seq<Entry>>, p: Place, x: New, st: Scan)
    requires x.Ok() && |x.Entries()| == Needed(x.name) + 1 && p.k < |dir| && RunAt(dir[p.k], p.s, Needed(x.name) + 1)
    requires Tidy(dir[p.k]) && (p.s == 0 || !Open(dir[p.k][p.s - 1]))
    ensures multiset(Across(LfnCode.Filled(dir, p, x.Entries()), st)) == multiset(Across(dir, st)) + multiset{x.Shown()}
    decreases p.k
  {
    hide EntriesOf, Listing, NewNode, Through, Tidy, NoEnd, RunAt;
    PlaceHolds(dir[p.k], p.s, Needed(x.name) + 1);
    var d := LfnCode.Filled(dir, p, x.Entries());
    if p.k == 0 {
      assert d[0] == With(dir[0], p.s, x.Entries()) && d[1..] == dir[1..];
      InCluster(dir[0], p.s, x, st);
      if NoEnd(d[0]) {
        WholeListing(d[0], st);
        AcrossStale(dir[1..], Through(d[0], st).0, if NoEnd(dir[0]) then Through(dir[0], st).0 else IDLE);
      }
      if NoEnd(dir[0]) { WholeListing(dir[0], st); }
    } else {
      var q := Place(p.k - 1, p.s);
      assert d[0] == dir[0] && d[1..] == LfnCode.Filled(dir[1..], q, x.Entries());
      InsertedAcross(dir[1..], q, x, if NoEnd(dir[0]) then Through(dir[0], st).0 else IDLE);
    }
  }

  lemma PlaceHolds(c: seq<Entry>, s: nat, n: nat)
    requires RunAt(c, s, n)
    ensures s + n <= |c|
  {
  }

  /** Clusters of end marks add nothing. */
  lemma {:induction false} AcrossEnds(dir: seq<seq<Entry>>, more: seq<seq<Entry>>, st: Scan)
    requires forall c :: 0 <= c < |more| ==> AllEnd(more[c])
    ensures Across(dir + more, st) == Across(dir, st)
    decreases |dir|, |more|
  {
    hide Through, Listing;
    if dir != [] {
      assert (dir + more)[1..] == dir[1..] + more;
      AcrossEnds(dir[1..], more, if NoEnd(dir[0]) then Through(dir[0], st).0 else IDLE);
    } else if more != [] {
      assert dir + more == more && [] + more[1..] == more[1..];
      NothingThere(more[0], st);
      if NoEnd(more[0]) { WholeListing(more[0], st); }
      AcrossEnds([], more[1..], if NoEnd(more[0]) then Through(more[0], st).0 else IDLE);
    } else {
      assert dir + more == dir;
    }
  }

  /** The first `m` clusters, or all if there are fewer. */
  ghost function Front(dir: seq<seq<Entry>>, m: nat): seq<seq<Entry>> { if m < |dir| then dir[..m] else dir }

  lemma FrontNext(dir: seq<seq<Entry>>, m: nat)
    requires dir != [] && m > 0
    ensures Front(dir, m) != [] && Front(dir, m)[0] == dir[0] && Front(dir, m)[1..] == Front(dir[1..], m - 1)
  {
  }

  /**
   * What readdir shows of a directory, taken from its first `m` clusters: all of them, or one of them has an end mark and
   * between it and cluster `m` there are only end marks.
   */
  lemma {:induction false} ListingAcross(dir: seq<seq<Entry>>, m: nat, st: Scan)
    requires m >= |dir| || exists i :: 0 <= i < m && !NoEnd(dir[i])
    requires forall i, j :: 0 <= i < j < m && j < |dir| && !NoEnd(dir[i]) ==> AllEnd(dir[j])
    ensures Listing(Flat(dir), st) == Across(Front(dir, m), st)
    decreases |dir|
  {
    hide Through, Listing, NoEnd, AllEnd;
    if dir == [] {
      NothingListed(st);
    } else {
      FrontNext(dir, m);
      if NoEnd(dir[0]) {
        ListingSplit(dir[0], Flat(dir[1..]), st);
        Later(dir, m);
        ListingAcross(dir[1..], m - 1, Through(dir[0], st).0);
      } else {
        LfnDirectory.Buried(dir[0], Flat(dir[1..]), [], st);
        assert dir[0] + [] == dir[0];
        var rest := Front(dir[1..], m - 1);
        forall c | 0 <= c < |rest| ensures AllEnd(rest[c]) { assert rest[c] == dir[c + 1]; }
        AcrossEnds([], rest, IDLE);
        assert [] + rest == rest;
      }
    }
  }

  lemma NothingListed(st: Scan)
    ensures Listing([], st) == []
  {
  }

  lemma Later(dir: seq<seq<Entry>>, m: nat)
    requires dir != [] && m > 0 && NoEnd(dir[0]) && (m >= |dir| || exists i :: 0 <= i < m && !NoEnd(dir[i]))
    requires forall i, j :: 0 <= i < j < m && j < |dir| && !NoEnd(dir[i]) ==> AllEnd(dir[j])
    ensures m - 1 >= |dir[1..]| || exists i :: 0 <= i < m - 1 && !NoEnd(dir[1..][i])
    ensures forall i, j :: 0 <= i < j < m - 1 && j < |dir[1..]| && !NoEnd(dir[1..][i]) ==> AllEnd(dir[1..][j])
  {
    hide NoEnd, AllEnd;
    var rest := dir[1..];
    if m < |dir| {
      var i :| 0 <= i < m && !NoEnd(dir[i]);
      assert rest[i - 1] == dir[i];
    }
    forall i, j | 0 <= i < j < m - 1 && j < |rest| && !NoEnd(rest[i]) ensures AllEnd(rest[j]) {
      assert rest[i] == dir[i + 1] && rest[j] == dir[j + 1];
    }
  }

  // ---------------------------------------------------------------------------
  // Runs of additions
  // ---------------------------------------------------------------------------

  datatype State = State(dir: seq<seq<Entry>>, have: Supply)

  /** Where the entries of a name went, or that it was refused. */
  datatype Result = In(cluster: nat) | Full

  ghost predicate Fits(e: nat, s: State, x: New) {
    var n := Needed(x.name) + 1;
    !Roomless(s.dir, n) || (!s.have.stray && n <= e && s.have.free > 0)
  }

  ghost predicate PutAt(e: nat, s: State, x: New, r: Result, t: State, p: Place)
    requires |x.name| <= 255
  {
    && (Roomless(s.dir, Needed(x.name) + 1) ==> s.have.free > 0)
    && t.have == (if Roomless(s.dir, Needed(x.name) + 1) then s.have.(free := s.have.free - 1) else s.have)
    && var d := Longer(s.dir, s.have.free - t.have.free, e);
       && Suits(d, p, Needed(x.name) + 1) && |x.Entries()| == Needed(x.name) + 1
       && t.dir == LfnCode.Filled(d, p, x.Entries()) && r == In(p.k)
  }

  /** One call of fat32_add_entry. */
  ghost predicate AddStep(e: nat, s: State, x: New, r: Result, t: State) {
    && |x.name| <= 255
    && if Fits(e, s, x) then exists p :: PutAt(e, s, x, r, t, p)
       else r == Full && t == State(Longer(s.dir, s.have.free - Exhausted(s.have).free, e), Exhausted(s.have))
  }

  ghost predicate AddStepAt(e: nat, trace: seq<State>, news: seq<New>, results: seq<Result>, k: nat) {
    && k + 1 < |trace| && k < |news| && k < |results| && AddStep(e, trace[k], news[k], results[k], trace[k + 1])
  }

  ghost predicate AddRun(e: nat, trace: seq<State>, news: seq<New>, results: seq<Result>) {
    && |results| == |news| && |trace| == |news| + 1
    && forall k: nat :: k < |news| ==> AddStepAt(e, trace, news, results, k)
  }

  /** The nodes of the names that went to cluster `v` or one before it. */
  ghost function Nodes(news: seq<New>, results: seq<Result>, v: nat): multiset<Node>
    requires |news| == |results|
  {
    if news == [] then multiset{} else var n := |news| - 1; Nodes(news[..n], results[..n], v) + NodeAt(news[n], results[n], v)
  }

  ghost function NodeAt(x: New, r: Result, v: nat): multiset<Node> {
    if r.In? && r.cluster <= v then multiset{x.Shown()} else multiset{}
  }

  ghost function Shows(s: State): multiset<Node> { multiset(Listing(Flat(s.dir), IDLE)) }

  /** The first cluster with an end mark, or the number of clusters if there is none. */
  ghost function Limit(dir: seq<seq<Entry>>): (v: nat)
    ensures v <= |dir| && (v < |dir| ==> !NoEnd(dir[v])) && forall c :: 0 <= c < v ==> NoEnd(dir[c])
  {
    if dir == [] || !NoEnd(dir[0]) then 0 else 1 + Limit(dir[1..])
  }

  ghost predicate AllTidy(dir: seq<seq<Entry>>) { forall c :: 0 <= c < |dir| ==> Tidy(dir[c]) }

  /** No cluster is lost and none gets an end mark it did not have. */
  ghost predicate Grown(dir: seq<seq<Entry>>, dir': seq<seq<Entry>>) {
    |dir| <= |dir'| && forall c :: 0 <= c < |dir| && NoEnd(dir[c]) ==> NoEnd(dir'[c])
  }

  lemma LongerAcross(dir: seq<seq<Entry>>, k: nat, e: nat, m: nat)
    ensures Across(Front(Longer(dir, k, e), m), IDLE) == Across(Front(dir, m), IDLE)
    ensures AllTidy(dir) ==> AllTidy(Longer(dir, k, e))
    ensures Grown(dir, Longer(dir, k, e))
  {
    hide Across, Cleared;
    ClearedEnds(e);
    var d, f := Longer(dir, k, e), Front(Longer(dir, k, e), m);
    if m > |dir| {
      var more := f[|dir|..];
      assert f == dir + more;
      AcrossEnds(dir, more, IDLE);
    } else {
      assert f == Front(dir, m);
    }
  }

  lemma ClearedEnds(e: nat)
    ensures AllEnd(Cleared(e)) && Tidy(Cleared(e))
  {
  }

  lemma FilledFront(dir: seq<seq<Entry>>, p: Place, added: seq<Entry>, m: nat)
    requires p.k < |dir| && p.s + |added| <= |dir[p.k]|
    ensures p.k < m ==>
      && p.k < |Front(dir, m)| && Front(dir, m)[p.k] == dir[p.k]
      && Front(LfnCode.Filled(dir, p, added), m) == LfnCode.Filled(Front(dir, m), p, added)
    ensures p.k >= m ==> Front(LfnCode.Filled(dir, p, added), m) == Front(dir, m)
  {
  }

  /** One addition: the clusters up to `v` list the new node as well if the entries went to one of them. */
  lemma AddStepAcross(e: nat, s: State, x: New, r: Result, t: State, v: nat)
    requires x.Ok() && AddStep(e, s, x, r, t) && AllTidy(s.dir)
    ensures AllTidy(t.dir) && Grown(s.dir, t.dir)
    ensures multiset(Across(Front(t.dir, v + 1), IDLE)) == multiset(Across(Front(s.dir, v + 1), IDLE)) + NodeAt(x, r, v)
  {
    hide Across, EntriesOf, NewNode, Tidy, Roomless, RunAt, NoEnd, LfnCode.Filled, Longer;
    if Fits(e, s, x) {
      var p :| PutAt(e, s, x, r, t, p);
      var d := Longer(s.dir, s.have.free - t.have.free, e);
      LongerAcross(s.dir, s.have.free - t.have.free, e, v + 1);
      PutAcross(d, p, x, v);
    } else {
      LongerAcross(s.dir, s.have.free - t.have.free, e, v + 1);
    }
  }

  lemma TidyAt(d: seq<seq<Entry>>, k: nat)
    requires k < |d| && AllTidy(d)
    ensures Tidy(d[k])
  {
  }

  lemma OneChanged(d: seq<seq<Entry>>, k: nat, c: seq<Entry>)
    requires k < |d| && AllTidy(d) && Tidy(c) && (NoEnd(d[k]) ==> NoEnd(c))
    ensures AllTidy(d[k := c]) && Grown(d, d[k := c])
  {
    hide Tidy, NoEnd;
  }

  lemma PutAcross(d: seq<seq<Entry>>, p: Place, x: New, v: nat)
    requires x.Ok() && |x.Entries()| == Needed(x.name) + 1 && Suits(d, p, Needed(x.name) + 1) && AllTidy(d)
    ensures var d' := LfnCode.Filled(d, p, x.Entries());
      && AllTidy(d') && Grown(d, d')
      && multiset(Across(Front(d', v + 1), IDLE)) == multiset(Across(Front(d, v + 1), IDLE)) + NodeAt(x, In(p.k), v)
  {
    hide Across, EntriesOf, NewNode, Tidy, Roomless, RunAt, NoEnd, AllTidy, Grown, Front, Listing, Through;
    assert Tidy(d[p.k]) by { TidyAt(d, p.k); }
    PlaceHolds(d[p.k], p.s, Needed(x.name) + 1);
    FilledFront(d, p, x.Entries(), v + 1);
    InCluster(d[p.k], p.s, x, IDLE);
    OneChanged(d, p.k, With(d[p.k], p.s, x.Entries()));
    if p.k < v + 1 { InsertedAcross(Front(d, v + 1), p, x, IDLE); }
  }

  lemma {:induction false} RunAcross(e: nat, trace: seq<State>, news: seq<New>, results: seq<Result>, k: nat, v: nat)
    requires AddRun(e, trace, news, results) && k <= |news| && AllTidy(trace[0].dir)
    requires forall i :: 0 <= i < |news| ==> news[i].Ok()
    ensures AllTidy(trace[k].dir) && Grown(trace[0].dir, trace[k].dir)
    ensures multiset(Across(Front(trace[k].dir, v + 1), IDLE))
         == multiset(Across(Front(trace[0].dir, v + 1), IDLE)) + Nodes(news[..k], results[..k], v)
  {
    hide Across, AddStep, AllTidy, NodeAt, Front;
    if k > 0 {
      RunAcross(e, trace, news, results, k - 1, v);
      assert AddStepAt(e, trace, news, results, k - 1);
      AddStepAcross(e, trace[k - 1], news[k - 1], results[k - 1], trace[k], v);
      assert news[..k][..k - 1] == news[..k - 1] && results[..k][..k - 1] == results[..k - 1];
    }
  }

  lemma {:induction false} TidyClusters(dir: seq<seq<Entry>>)
    requires Tidy(Flat(dir))
    ensures AllTidy(dir)
    ensures forall i, j :: 0 <= i < j < |dir| && !NoEnd(dir[i]) ==> AllEnd(dir[j])
  {
    hide Flat;
    forall c | 0 <= c < |dir| ensures Tidy(dir[c]) {
      FlatAt(dir, c);
      TidyBack(Flat(dir[..c]), dir[c] + Flat(dir[c + 1..]));
      TidyFront(dir[c], Flat(dir[c + 1..]));
    }
    forall i, j | 0 <= i < j < |dir| && !NoEnd(dir[i]) ensures AllEnd(dir[j]) {
      FlatAt(dir, i);
      TidyBack(Flat(dir[..i]), dir[i] + Flat(dir[i + 1..]));
      FlatAt(dir[i + 1..], j - i - 1);
      assert dir[i + 1..][j - i - 1] == dir[j];
      EndsFrom(dir[i], Flat(dir[i + 1..][..j - i - 1]), dir[j], Flat(dir[i + 1..][j - i..]));
    }
  }

  lemma TidyFront(a: seq<Entry>, b: seq<Entry>)
    requires Tidy(a + b)
    ensures Tidy(a)
  {
    var es := a + b;
    forall i, j | 0 <= i <= j < |a| && Ends(a[i]) ensures Ends(a[j]) { assert es[i] == a[i] && es[j] == a[j]; }
  }

  lemma EndsFrom(a: seq<Entry>, mid: seq<Entry>, b: seq<Entry>, rest: seq<Entry>)
    requires Tidy(a + (mid + (b + rest))) && !NoEnd(a)
    ensures AllEnd(b)
  {
    var es := a + (mid + (b + rest));
    var i :| 0 <= i < |a| && Ends(a[i]);
    assert Ends(es[i]);
    forall j | 0 <= j < |b| ensures Ends(b[j]) {
      assert es[|a| + |mid| + j] == b[j];
    }
  }

  /**
   * Any run of additions from a tidy directory, at every point of it: readdir lists what it listed, and of the names added
   * exactly those whose entries are in no cluster behind the first one that has an end mark now.
   */
  lemma RunShows(e: nat, trace: seq<State>, news: seq<New>, results: seq<Result>, k: nat)
    requires AddRun(e, trace, news, results) && k <= |news| && Tidy(Flat(trace[0].dir))
    requires forall i :: 0 <= i < |news| ==> news[i].Ok()
    ensures Shows(trace[k]) == Shows(trace[0]) + Nodes(news[..k], results[..k], Limit(trace[k].dir))
  {
    hide Flat, Tidy, AddStepAt, Listing, Across, NoEnd, AllEnd, AllTidy, Nodes;
    var was, dir, v := trace[0].dir, trace[k].dir, Limit(trace[k].dir);
    TidyClusters(was);
    RunAcross(e, trace, news, results, k, v);
    ListingAcross(dir, v + 1, IDLE);
    assert v + 1 >= |was| || !NoEnd(was[v]);
    ListingAcross(was, v + 1, IDLE);
  }

  /**
   * A cluster with room for one more entry only, and a name that needs two: it goes to the next cluster, and the listing
   * stays as it is.
   */
  lemma HiddenOne(used: Entry, end: Entry, e: nat, have: Supply, x: New, r: Result, t: State)
    requires !Open(used) && Ends(end) && e >= 2 && |x.name| <= 255 && Needed(x.name) == 1
    requires have.free > 0 && !have.stray && AddStep(e, State([AlmostFull(used, end, e)], have), x, r, t)
    ensures r == In(1) && Limit(t.dir) == 0 && Shows(t) == Shows(State([AlmostFull(used, end, e)], have))
  {
    hide EntriesOf, Listing;
    var c := AlmostFull(used, end, e);
    forall s: nat ensures !RunAt(c, s, 2) { NotTwo(used, end, e, s); }
    var s := State([c], have);
    assert Roomless(s.dir, 2);
    var p :| PutAt(e, s, x, r, t, p);
    var d := Longer(s.dir, 1, e);
    assert d[0] == c && RunAt(d[p.k], p.s, 2);
    assert t.dir[0] == c && Ends(c[e - 1]);
    LfnDirectory.Buried(c, Flat(t.dir[1..]), Flat(s.dir[1..]), IDLE);
  }

  function AlmostFull(used: Entry, end: Entry, e: nat): (r: seq<Entry>)
    requires e > 0
    ensures |r| == e
  {
    seq<Entry>(e - 1, _ => used) + [end]
  }

  lemma NotTwo(used: Entry, end: Entry, e: nat, s: nat)
    requires !Open(used) && e >= 2
    ensures !RunAt(AlmostFull(used, end, e), s, 2)
  {
    var c := AlmostFull(used, end, e);
    if s + 2 <= e { assert c[s..s + 2][0] == c[s] == used; }
  }

  /** Any number of names, one after the other. */
  method AddAll(dir: seq<seq<Entry>>, e: nat, have: Supply, news: seq<New>)
    returns (dir': seq<seq<Entry>>, left: Supply, oks: seq<bool>, ghost trace: seq<State>, ghost results: seq<Result>)
    requires Even(dir, e) && dir != [] && forall i :: 0 <= i < |news| ==> |news[i].name| <= 255
    ensures |oks| == |news|
    ensures AddRun(e, trace, news, results) && forall i :: 0 <= i < |news| ==> (oks[i] <==> results[i] != Full)
    ensures trace[0] == State(dir, have) && trace[|news|] == State(dir', left)
  {
    hide EntriesOf, AddStep;
    dir', left, oks, trace, results := dir, have, [], [State(dir, have)], [];
    for i := 0 to |news|
      invariant Even(dir', e) && dir' != [] && |oks| == |results| == i && |trace| == i + 1
      invariant forall k :: 0 <= k < i ==> (oks[k] <==> results[k] != Full)
      invariant trace[0] == State(dir, have) && trace[i] == State(dir', left)
      invariant forall k: nat :: k < i ==> AddStepAt(e, trace, news, results, k)
    {
      ghost var r;
      var ok;
      ok, dir', left, r := AddOne(dir', e, left, news[i]);
      TraceMore(e, trace, news, results, r, State(dir', left));
      oks, trace, results := oks + [ok], trace + [State(dir', left)], results + [r];
    }
  }

  lemma TraceMore(e: nat, trace: seq<State>, news: seq<New>, results: seq<Result>, r: Result, t: State)
    requires |trace| == |results| + 1 && |results| < |news| && AddStep(e, trace[|results|], news[|results|], r, t)
    requires forall k: nat :: k < |results| ==> AddStepAt(e, trace, news, results, k)
    ensures forall k: nat :: k < |results| + 1 ==> AddStepAt(e, trace + [t], news, results + [r], k)
  {
    hide AddStep;
    forall k: nat | k < |results| + 1 ensures AddStepAt(e, trace + [t], news, results + [r], k) {
      if k < |results| { assert AddStepAt(e, trace, news, results, k); }
    }
  }

  method AddOne(dir: seq<seq<Entry>>, e: nat, have: Supply, x: New)
    returns (ok: bool, dir': seq<seq<Entry>>, left: Supply, ghost r: Result)
    requires Even(dir, e) && dir != [] && |x.name| <= 255
    ensures ok <==> r != Full
    ensures AddStep(e, State(dir, have), x, r, State(dir', left)) && Even(dir', e) && dir' != []
  {
    hide EntriesOf, Roomless, Suits;
    ghost var p;
    ok, dir', left, p := AddEntry(dir, e, have, x.name, x.attr, x.cluster, x.size);
    r := Full;
    if ok {
      PlaceIn(Longer(dir, have.free - left.free, e), p, Needed(x.name) + 1);
      r := In(p.k);
      assert PutAt(e, State(dir, have), x, r, State(dir', left), p);
    }
  }

  lemma PlaceIn(dir: seq<seq<Entry>>, p: Place, n: nat)
    requires Suits(dir, p, n)
    ensures p.k < |dir| && p.s + n <= |dir[p.k]|
  {
  }
}
