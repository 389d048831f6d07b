/** What holds in every reachable state, said with the pointers themselves. */
module AfLocalRuns {
  import opened AfLocal
  import opened AfLocalSafety

  /** The sockets met by following next pointers from a holder's head. */
  ghost predicate IsWalk(st: State, o: Owner, path: seq<nat>) {
    && |path| > 0 && Head(st, o) == Some(path[0])
    && forall i: nat :: i + 1 < |path| ==> LinksTo(st, path[i], path[i + 1])
  }

  predicate LinksTo(st: State, x: nat, y: nat) { x in st.socks && st.socks[x].next == Some(y) }

  function Last(path: seq<nat>): nat
    requires |path| > 0
  {
    path[|path| - 1]
  }

  /** A connecting socket is on some list. */
  ghost predicate Listed(st: State, x: nat) {
    exists o, path :: IsWalk(st, o, path) && Last(path) == x
  }

  /** No socket is met twice: not by two holders, and not twice from one. */
  ghost predicate OneHolder(st: State, o: Owner, o': Owner, path: seq<nat>, path': seq<nat>) {
    IsWalk(st, o, path) && IsWalk(st, o', path') && Last(path) == Last(path') ==> o == o' && path == path'
  }

  ghost predicate SafeSock(st: State, x: nat) {
    x in st.socks ==>
      && (st.socks[x].state == Connected <==> st.socks[x].peer.Some?)
      && (st.socks[x].state == Connecting ==> Listed(st, x))
      && PeerOk(st, x)
  }

  ghost predicate Safe(st: State) {
    && (forall x :: SafeSock(st, x))
    && (forall o, o', path, path' :: OneHolder(st, o, o', path, path'))
  }

  lemma {:induction false} WalkPlaces(st: State, w: Where, o: Owner, path: seq<nat>, i: nat)
    requires Inv(st, w) && IsWalk(st, o, path) && i < |path|
    ensures path[0] in w && path[i] in w && w[path[i]].0 == o && w[path[i]].1 + i == w[path[0]].1
  {
    assert HeadOk(st, w, o);
    if i > 0 {
      WalkPlaces(st, w, o, path, i - 1);
      assert LinksTo(st, path[i - 1], path[i - 1 + 1]);
      assert PendingOk(st, w, path[i - 1]);
    }
  }

  lemma WalksMeet(st: State, w: Where, o: Owner, o': Owner, path: seq<nat>, path': seq<nat>)
    requires Inv(st, w)
    ensures OneHolder(st, o, o', path, path')
  {
    if IsWalk(st, o, path) && IsWalk(st, o', path') && Last(path) == Last(path') {
      WalkPlaces(st, w, o, path, |path| - 1);
      WalkPlaces(st, w, o', path', |path'| - 1);
      forall i | 0 <= i < |path| ensures path[i] == path'[i] {
        WalkPlaces(st, w, o, path, i);
        WalkPlaces(st, w, o', path', i);
        assert PlaceOk(w, path[i], path'[i]);
      }
    }
  }

  /** The walk from the holder's head down to a given depth. */
  lemma {:induction false} WalkDown(st: State, w: Where, o: Owner, n: nat) returns (path: seq<nat>)
    requires Inv(st, w) && Head(st, o).Some?
    requires Head(st, o).value in w && n <= w[Head(st, o).value].1
    ensures IsWalk(st, o, path) && |path| == n + 1
  {
    if n == 0 {
      path := [Head(st, o).value];
    } else {
      var front := WalkDown(st, w, o, n - 1);
      WalkPlaces(st, w, o, front, n - 1);
      var x := front[n - 1];
      assert PendingOk(st, w, x);
      path := front + [st.socks[x].next.value];
      forall i: nat | i + 1 < |path| ensures LinksTo(st, path[i], path[i + 1]) {
        if i + 1 < n { assert LinksTo(st, front[i], front[i + 1]); }
      }
    }
  }

  lemma PendingListed(st: State, w: Where, x: nat)
    requires Inv(st, w) && x in w
    ensures Listed(st, x)
  {
    var o := w[x].0;
    assert HeadOk(st, w, o);
    var top := w[Head(st, o).value].1;
    var path := WalkDown(st, w, o, top - w[x].1);
    WalkPlaces(st, w, o, path, |path| - 1);
    assert PlaceOk(w, x, Last(path));
  }

  lemma InvSafe(st: State, w: Where)
    requires Inv(st, w)
    ensures Safe(st)
  {
    forall x ensures SafeSock(st, x) {
      assert SockOk(st, w, x) && PeerOk(st, x);
      if x in w { PendingListed(st, w, x); }
    }
    forall o, o', path, path' ensures OneHolder(st, o, o', path, path') { WalksMeet(st, w, o, o', path, path'); }
  }

  lemma {:induction false} RunInv(run: seq<State>, ops: seq<Op>, i: nat) returns (w: Where)
    requires IsRun(run, ops) && i < |run|
    ensures Inv(run[i], w)
  {
    if i == 0 {
      InitialInv(run[0]);
      w := map[];
    } else {
      var w0 := RunInv(run, ops, i - 1);
      assert StepAt(run, ops, i - 1);
      StepInv(run[i - 1], w0, ops[i - 1]);
      w := After(run[i - 1], w0, ops[i - 1]);
    }
  }

  /** In every reachable state of every interleaving, connections pair up and pending sockets have one holder. */
  lemma RunSafe(run: seq<State>, ops: seq<Op>, i: nat)
    requires IsRun(run, ops) && i < |run|
    ensures Safe(run[i])
  {
    var w := RunInv(run, ops, i);
    InvSafe(run[i], w);
  }

  /** The step a thread takes next, when it is inside a call and not asleep. */
  function StepOf(t: nat, p: Pc): Op
    requires !p.Idle? && !p.ConnectSleep? && !p.AcceptSleep? && !p.RecvSleep?
  {
    match p
    case ConnectWake(_, _) => DoConnectWake(t)
    case ConnectTest(_) => DoConnectTest(t)
    case AcceptTest(_) => DoAcceptTest(t)
    case AcceptHand(_, _) => CreateFails(t)
    case AcceptPair(_, _, _) => FinishAccept(t)
    case SendDeliver(_) => Deliver(t, [])
    case RecvTest(_) => DoRecvTest(t, 0)
    case ReleaseWake(_, _, _) => DoReleaseWake(t)
    case ReleaseDrain(_, pending, _) => if pending.Some? then DoReleaseRead(t) else FinishRelease(t)
    case ReleaseRead(_, _, _, _) => DrainOne(t)
  }

  /** No thread ever holds a pointer that leads nowhere: in every reachable state its next step is defined. */
  lemma RunNeverDangles(run: seq<State>, ops: seq<Op>, i: nat, t: nat)
    requires IsRun(run, ops) && i < |run| && t in run[i].pc
    requires !run[i].pc[t].Idle? && !run[i].pc[t].ConnectSleep? && !run[i].pc[t].AcceptSleep? && !run[i].pc[t].RecvSleep?
    ensures Enabled(run[i], StepOf(t, run[i].pc[t]))
  {
    var st := run[i];
    var w := RunInv(run, ops, i);
    assert ThreadOk(st, t) && HeadOk(st, w, Hand(t));
    if Held(st.pc[t]).Some? { assert PendingOk(st, w, Held(st.pc[t]).value); }
    if st.pc[t].AcceptTest? {
      assert HeadOk(st, w, Queue(st.pc[t].s));
      if st.socks[st.pc[t].s].queue.Some? { assert PendingOk(st, w, st.socks[st.pc[t].s].queue.value); }
    }
  }
}
