/** What every interleaving of AF_LOCAL steps keeps: connections pair up, pending sockets have one holder. */
module AfLocalSafety {
  import opened AfLocal

  /** Who holds a list of pending sockets: a listening socket, or a thread in accept or release. */
  datatype Owner = Queue(s: nat) | Hand(t: nat)

  /** The place of each pending socket: its holder, and how many sockets come behind it in the list. */
  type Where = map<nat, (Owner, nat)>

  /** The first socket of a holder's list. */
  function Head(st: State, o: Owner): Option<nat> {
    match o
    case Queue(s) => if s in st.socks then st.socks[s].queue else None
    case Hand(t) => if t in st.pc then Held(st.pc[t]) else None
  }

  function Held(p: Pc): Option<nat> {
    match p
    case AcceptHand(_, c) => Some(c)
    case AcceptPair(_, c, _) => Some(c)
    case ReleaseWake(_, pending, _) => pending
    case ReleaseDrain(_, pending, _) => pending
    case ReleaseRead(_, cur, _, _) => Some(cur)
    case _ => None
  }

  /** A pending socket is waiting or already closing, and its next pointer leads to the next place. */
  ghost predicate PendingOk(st: State, w: Where, x: nat) {
    x in w ==>
      && x in st.socks && st.socks[x].state in {Connecting, Closing} && st.socks[x].shared
      && match st.socks[x].next
         case None => w[x].1 == 0
         case Some(y) => y in w && w[x].1 > 0 && w[y] == (w[x].0, w[x].1 - 1)
  }

  ghost predicate PlaceOk(w: Where, x: nat, y: nat) {
    x in w && y in w && w[x] == w[y] ==> x == y
  }

  ghost predicate HeadOk(st: State, w: Where, o: Owner) {
    match Head(st, o)
    case None => forall x :: x in w ==> w[x].0 != o
    case Some(h) => h in w && w[h].0 == o && forall x :: x in w && w[x].0 == o ==> w[x].1 <= w[h].1
  }

  /** Some thread is releasing `p` and has yet to visit its former peer `x`. */
  ghost predicate ReleasingTo(st: State, p: nat, x: nat) {
    exists t :: t in st.pc && Releasing(st.pc[t], p, x)
  }

  predicate Releasing(pc: Pc, p: nat, x: nat) {
    (pc.ReleaseWake? || pc.ReleaseDrain? || pc.ReleaseRead?) && pc.s == p && pc.peer == Some(x)
  }

  ghost predicate SockOk(st: State, w: Where, x: nat) {
    x in st.socks ==>
      && (st.socks[x].state == Connecting ==> x in w)
      && (st.socks[x].peer.Some? <==> st.socks[x].state == Connected)
      && (!st.socks[x].shared ==> st.socks[x].state == Created && st.socks[x].queue.None?)
  }

  /** A peer points back, unless it is closing and the closing thread is on its way here. */
  ghost predicate PeerOk(st: State, x: nat) {
    x in st.socks && st.socks[x].peer.Some? ==>
      var p := st.socks[x].peer.value;
      && p in st.socks && p != x
      && (st.socks[p].peer == Some(x) || (st.socks[p].state == Closing && ReleasingTo(st, p, x)))
  }

  ghost predicate ThreadOk(st: State, t: nat) {
    t in st.pc ==>
      match st.pc[t]
      case Idle => true
      case ConnectWake(c, s) => c in st.socks && s in st.socks
      case ConnectTest(c) => c in st.socks
      case ConnectSleep(c) => c in st.socks
      case AcceptTest(s) => s in st.socks
      case AcceptSleep(s) => s in st.socks
      case AcceptHand(s, c) => s in st.socks && Alone(st, c)
      case AcceptPair(s, c, session) =>
        s in st.socks && Alone(st, c) && session in st.socks && !st.socks[session].shared
      case SendDeliver(dest) => dest in st.socks
      case RecvTest(s) => s in st.socks
      case RecvSleep(s) => s in st.socks
      case ReleaseWake(s, _, peer) => Closed(st, s, peer)
      case ReleaseDrain(s, _, peer) => Closed(st, s, peer)
      case ReleaseRead(s, cur, next, peer) => Closed(st, s, peer) && cur in st.socks && next == st.socks[cur].next
  }

  ghost predicate Alone(st: State, c: nat) { c in st.socks && st.socks[c].next.None? }

  ghost predicate Closed(st: State, s: nat, peer: Option<nat>) {
    && s in st.socks && st.socks[s].state == Closing
    && (peer.Some? ==> peer.value in st.socks && peer.value != s)
  }

  /** Two threads never build the same session. */
  ghost predicate SessionOk(st: State, t: nat, u: nat) {
    (t in st.pc && u in st.pc && st.pc[t].AcceptPair? && st.pc[u].AcceptPair? &&
     st.pc[t].session == st.pc[u].session) ==> t == u
  }

  ghost predicate Inv(st: State, w: Where) {
    && (forall x :: PendingOk(st, w, x))
    && (forall x, y :: PlaceOk(w, x, y))
    && (forall o :: HeadOk(st, w, o))
    && (forall x :: SockOk(st, w, x))
    && (forall x :: PeerOk(st, x))
    && (forall t :: ThreadOk(st, t))
    && (forall t, u :: SessionOk(st, t, u))
  }

  lemma InitialInv(st: State)
    requires Initial(st)
    ensures Inv(st, map[])
  {
    forall o ensures HeadOk(st, map[], o) { }
  }

  /** How the places change with a step. */
  ghost function After(st: State, w: Where, op: Op): Where
    requires Enabled(st, op)
  {
    match op
    case StartConnect(t, c, s) =>
      if Next(st, op) == st then w
      else
        var q := st.socks[s].queue;
        w[c := (Queue(s), if q.Some? && q.value in w then w[q.value].1 + 1 else 0)]
    case DoAcceptTest(t) =>
      if Next(st, op).pc[t].AcceptHand? then w[Next(st, op).pc[t].c := (Hand(t), 0)] else w
    case CreateFails(t) => w - {st.pc[t].c}
    case FinishAccept(t) => w - {st.pc[t].c}
    case StartRelease(t, s) =>
      if Next(st, op) == st then w
      else map x | x in w :: if w[x].0 == Queue(s) then (Hand(t), w[x].1) else w[x]
    case DrainOne(t) => w - {st.pc[t].cur}
    case _ => w
  }

  // ---------------------------------------------------------------------------
  // Frames
  // ---------------------------------------------------------------------------

  /** What a step may do to a thread that is neither taking nor dropping a list, a session or a release. */
  ghost predicate SameDuty(p: Pc, q: Pc) {
    && Held(p) == Held(q)
    && (p.ReleaseWake? || p.ReleaseDrain? || p.ReleaseRead? ==>
          (q.ReleaseWake? || q.ReleaseDrain? || q.ReleaseRead?) && q.s == p.s && q.peer == p.peer)
  }

  /** Releases in progress stay in progress. */
  lemma ReleasingFrame(st: State, st': State, p: nat, x: nat)
    requires ReleasingTo(st, p, x)
    requires forall t :: t in st.pc ==> t in st'.pc && SameDuty(st.pc[t], st'.pc[t])
    ensures ReleasingTo(st', p, x)
  {
    var t :| t in st.pc && Releasing(st.pc[t], p, x);
    assert Releasing(st'.pc[t], p, x);
  }

  /** What a step may do to a socket without touching connections, lists or their order. */
  ghost predicate SameLinks(a: Sock, b: Sock) {
    && a.peer == b.peer && a.queue == b.queue && a.next == b.next && a.shared == b.shared
    && (a.state == b.state || (a.shared && a.state in {Created, Listening} && b.state in {Created, Listening}))
  }

  ghost predicate Quiet(st: State, st': State) {
    && st'.pc.Keys == st.pc.Keys
    && (forall t :: t in st.pc ==> SameDuty(st.pc[t], st'.pc[t]))
    && (forall x :: x in st.socks ==> x in st'.socks && SameLinks(st.socks[x], st'.socks[x]))
    && (forall x :: x in st'.socks && x !in st.socks ==>
          st'.socks[x].peer.None? && st'.socks[x].queue.None? && st'.socks[x].state == Created)
  }

  /** A step that changes no connection, no list and no holder keeps everything. */
  lemma QuietStep(st: State, st': State, w: Where)
    requires Inv(st, w) && Quiet(st, st')
    requires forall t :: ThreadOk(st', t)
    requires forall t, u :: SessionOk(st', t, u)
    ensures Inv(st', w)
  {
    forall x ensures PendingOk(st', w, x) { assert PendingOk(st, w, x); }
    forall o ensures HeadOk(st', w, o) { assert HeadOk(st, w, o); }
    forall x ensures SockOk(st', w, x) { assert SockOk(st, w, x); }
    forall x ensures PeerOk(st', x) {
      assert PeerOk(st, x);
      if x in st.socks && st.socks[x].peer.Some? {
        var p := st.socks[x].peer.value;
        if st.socks[p].peer != Some(x) { ReleasingFrame(st, st', p, x); }
      }
    }
  }

  /** Sockets stay, and closing ones stay closing. */
  ghost predicate Stays(st: State, st': State) {
    forall x :: x in st.socks ==>
      && x in st'.socks && (st.socks[x].state == Closing ==> st'.socks[x].state == Closing)
  }

  // ---------------------------------------------------------------------------
  // Steps that keep lists and connections
  // ---------------------------------------------------------------------------

  ghost predicate IsQuiet(op: Op) {
    op.NewSocket? || op.Listen? || op.DoConnectWake? || op.DoConnectTest? || op.StartAccept? || op.CreateSession? ||
    op.StartSend? || op.Deliver? || op.StartRecv? || op.DoRecvTest? || op.DoReleaseWake? || op.DoReleaseRead?
  }

  lemma QuietThread(st: State, w: Where, op: Op, u: nat)
    requires Inv(st, w) && Enabled(st, op) && IsQuiet(op)
    ensures ThreadOk(Next(st, op), u)
  {
    hide Next, ThreadOk, Inv;
    if op.NewSocket? || op.Listen? || op.CreateSession? || op.StartSend? || op.Deliver? {
      QuietThreadSockets(st, w, op, u);
    } else if op.DoReleaseWake? || op.DoReleaseRead? || op.StartRecv? || op.DoRecvTest? {
      QuietThreadRelease(st, w, op, u);
    } else {
      QuietThreadWaits(st, w, op, u);
    }
  }

  lemma QuietThreadSockets(st: State, w: Where, op: Op, u: nat)
    requires Inv(st, w) && Enabled(st, op)
    requires op.NewSocket? || op.Listen? || op.CreateSession? || op.StartSend? || op.Deliver?
    ensures ThreadOk(Next(st, op), u)
  {
    if op.StartSend? { assert PeerOk(st, op.s); }
    assert ThreadOk(st, u);
  }

  lemma QuietThreadRelease(st: State, w: Where, op: Op, u: nat)
    requires Inv(st, w) && Enabled(st, op)
    requires op.DoReleaseWake? || op.DoReleaseRead? || op.StartRecv? || op.DoRecvTest?
    ensures ThreadOk(Next(st, op), u)
  {
    assert ThreadOk(st, u);
  }

  lemma QuietThreadWaits(st: State, w: Where, op: Op, u: nat)
    requires Inv(st, w) && Enabled(st, op)
    requires op.DoConnectWake? || op.DoConnectTest? || op.StartAccept?
    ensures ThreadOk(Next(st, op), u)
  {
    assert ThreadOk(st, u);
  }

  lemma QuietSessions(st: State, w: Where, op: Op)
    requires Inv(st, w) && Enabled(st, op) && IsQuiet(op)
    ensures forall u, v :: SessionOk(Next(st, op), u, v)
  {
    var st' := Next(st, op);
    forall u, v ensures SessionOk(st', u, v) { assert SessionOk(st, u, v) && ThreadOk(st, u) && ThreadOk(st, v); }
  }

  lemma QuietSocks(st: State, op: Op, x: nat)
    requires Enabled(st, op) && IsQuiet(op) && x in st.socks
    ensures x in Next(st, op).socks && SameLinks(st.socks[x], Next(st, op).socks[x])
  {
  }

  lemma QuietPcs(st: State, op: Op, u: nat)
    requires Enabled(st, op) && IsQuiet(op)
    ensures Next(st, op).pc.Keys == st.pc.Keys
    ensures u in st.pc ==> SameDuty(st.pc[u], Next(st, op).pc[u])
  {
  }

  lemma QuietOp(st: State, w: Where, op: Op)
    requires Inv(st, w) && Enabled(st, op) && IsQuiet(op)
    ensures Inv(Next(st, op), w)
  {
    var st' := Next(st, op);
    forall u ensures ThreadOk(st', u) { QuietThread(st, w, op, u); }
    QuietSessions(st, w, op);
    forall x | x in st.socks ensures x in st'.socks && SameLinks(st.socks[x], st'.socks[x]) { QuietSocks(st, op, x); }
    forall u ensures st'.pc.Keys == st.pc.Keys && (u in st.pc ==> SameDuty(st.pc[u], st'.pc[u])) {
      QuietPcs(st, op, u);
    }
    QuietStep(st, st', w);
  }

  // ---------------------------------------------------------------------------
  // connect
  // ---------------------------------------------------------------------------

  lemma ConnectOp(st: State, w: Where, op: Op)
    requires Inv(st, w) && Enabled(st, op) && op.StartConnect?
    ensures Inv(Next(st, op), After(st, w, op))
  {
    var st', w' := Next(st, op), After(st, w, op);
    var t, c, s := op.t, op.c, op.s;
    if st' == st { return; }
    assert PendingOk(st, w, c);
    assert c !in w;
    assert HeadOk(st, w, Queue(s));
    forall x ensures PendingOk(st', w', x) { assert PendingOk(st, w, x); }
    forall x, y ensures PlaceOk(w', x, y) { assert PlaceOk(w, x, y); }
    forall o ensures HeadOk(st', w', o) { assert HeadOk(st, w, o); }
    forall x ensures SockOk(st', w', x) { assert SockOk(st, w, x); }
    forall x ensures PeerOk(st', x) { ConnectPeer(st, w, op, x); }
    forall u ensures ThreadOk(st', u) {
      assert ThreadOk(st, u);
      assert HeadOk(st, w, Hand(u));
    }
    forall u, v ensures SessionOk(st', u, v) { assert SessionOk(st, u, v); }
  }

  lemma ConnectPeer(st: State, w: Where, op: Op, x: nat)
    requires Inv(st, w) && Enabled(st, op) && op.StartConnect? && Next(st, op) != st
    ensures PeerOk(Next(st, op), x)
  {
    assert PeerOk(st, x) && SockOk(st, w, op.c) && SockOk(st, w, x);
    if x in st.socks && st.socks[x].peer.Some? {
      var p := st.socks[x].peer.value;
      if st.socks[p].peer != Some(x) {
        var t :| t in st.pc && Releasing(st.pc[t], p, x);
        assert Releasing(Next(st, op).pc[t], p, x);
      }
    }
  }

  // ---------------------------------------------------------------------------
  // accept
  // ---------------------------------------------------------------------------

  /** Connections only depend on peers, closing states and releases in progress. */
  lemma PeerFrame(st: State, st': State, w: Where, x: nat)
    requires Inv(st, w) && x in st.socks && x in st'.socks && st'.socks[x].peer == st.socks[x].peer
    requires Stays(st, st') && KeepsPeers(st, st')
    requires forall t :: t in st.pc ==> t in st'.pc && KeepsRelease(st.pc[t], st'.pc[t])
    ensures PeerOk(st', x)
  {
    assert PeerOk(st, x);
    if st.socks[x].peer.Some? {
      var p := st.socks[x].peer.value;
      if st.socks[p].peer != Some(x) {
        var t :| t in st.pc && Releasing(st.pc[t], p, x);
        assert Releasing(st'.pc[t], p, x);
      }
    }
  }

  ghost predicate KeepsPeers(st: State, st': State) {
    forall y :: y in st.socks && y in st'.socks && st.socks[y].peer.Some? ==> st'.socks[y].peer == st.socks[y].peer
  }

  /** The part of a thread's duty that connections rely on. */
  ghost predicate KeepsRelease(p: Pc, q: Pc) {
    p.ReleaseWake? || p.ReleaseDrain? || p.ReleaseRead? ==>
      (q.ReleaseWake? || q.ReleaseDrain? || q.ReleaseRead?) && q.s == p.s && q.peer == p.peer
  }

  lemma AcceptPop(st: State, w: Where, t: nat, s: nat, c: nat)
    requires Inv(st, w) && t in st.pc && st.pc[t] == AcceptTest(s) && s in st.socks && c in st.socks
    requires st.socks[s].queue == Some(c)
    ensures Inv(Popped(st, t, s, c), w[c := (Hand(t), 0)])
  {
    hide PendingOk, PlaceOk, HeadOk, SockOk, PeerOk, ThreadOk, SessionOk, Popped;
    PopLists(st, w, t, s, c);
    PopRest(st, w, t, s, c);
  }

  lemma PopLists(st: State, w: Where, t: nat, s: nat, c: nat)
    requires Inv(st, w) && t in st.pc && st.pc[t] == AcceptTest(s) && s in st.socks && c in st.socks
    requires st.socks[s].queue == Some(c)
    ensures var st', w' := Popped(st, t, s, c), w[c := (Hand(t), 0)];
      (forall x :: PendingOk(st', w', x)) && (forall x, y :: PlaceOk(w', x, y)) && (forall o :: HeadOk(st', w', o))
  {
    var st', w' := Popped(st, t, s, c), w[c := (Hand(t), 0)];
    assert HeadOk(st, w, Queue(s)) && HeadOk(st, w, Hand(t)) && PendingOk(st, w, c);
    forall x ensures PendingOk(st', w', x) { assert PendingOk(st, w, x); assert PlaceOk(w, x, c); }
    forall x, y ensures PlaceOk(w', x, y) { assert PlaceOk(w, x, y); }
    forall o ensures HeadOk(st', w', o) {
      assert HeadOk(st, w, o);
      forall x | x in w && x != c ensures w[x] != w[c] { assert PlaceOk(w, x, c); }
    }
  }

  lemma PopRest(st: State, w: Where, t: nat, s: nat, c: nat)
    requires Inv(st, w) && t in st.pc && st.pc[t] == AcceptTest(s) && s in st.socks && c in st.socks
    requires st.socks[s].queue == Some(c)
    ensures var st', w' := Popped(st, t, s, c), w[c := (Hand(t), 0)];
      && (forall x :: SockOk(st', w', x)) && (forall x :: PeerOk(st', x)) && (forall u :: ThreadOk(st', u))
      && (forall u, v :: SessionOk(st', u, v))
  {
    var st', w' := Popped(st, t, s, c), w[c := (Hand(t), 0)];
    assert HeadOk(st, w, Queue(s)) && HeadOk(st, w, Hand(t)) && PendingOk(st, w, c);
    forall x ensures SockOk(st', w', x) { assert SockOk(st, w, x) && SockOk(st, w, s); }
    forall x ensures PeerOk(st', x) { if x in st.socks { PeerFrame(st, st', w, x); } }
    forall u ensures ThreadOk(st', u) { assert ThreadOk(st, u) && HeadOk(st, w, Hand(u)); }
    forall u, v ensures SessionOk(st', u, v) { assert SessionOk(st, u, v); }
  }

  lemma AcceptTestOp(st: State, w: Where, op: Op)
    requires Inv(st, w) && Enabled(st, op) && op.DoAcceptTest?
    ensures Inv(Next(st, op), After(st, w, op))
  {
    var st', s := Next(st, op), st.pc[op.t].s;
    if st'.pc[op.t].AcceptHand? {
      AcceptPop(st, w, op.t, s, st.socks[s].queue.value);
    } else {
      forall u ensures ThreadOk(st', u) { assert ThreadOk(st, u); }
      forall u, v ensures SessionOk(st', u, v) { assert SessionOk(st, u, v); }
      QuietStep(st, st', w);
    }
  }

  /** A thread that holds one socket lets go of it, leaving it connected, closed or free again. */
  lemma DropHand(st: State, st': State, w: Where, t: nat, c: nat)
    requires Inv(st, w) && t in st.pc && Held(st.pc[t]) == Some(c) && Alone(st, c)
    requires t in st'.pc && Held(st'.pc[t]).None?
    requires forall u :: u in st.pc && u != t ==> u in st'.pc && Held(st'.pc[u]) == Held(st.pc[u])
    requires st'.pc.Keys == st.pc.Keys && st'.socks.Keys == st.socks.Keys
    requires forall x :: x in st.socks && x != c ==>
      st'.socks[x].next == st.socks[x].next && st'.socks[x].queue == st.socks[x].queue
    requires st'.socks[c].queue == st.socks[c].queue
    requires forall x :: x in w && x in st.socks && x != c ==>
      st'.socks[x].state == st.socks[x].state && st'.socks[x].shared == st.socks[x].shared
    ensures forall x :: PendingOk(st', w - {c}, x)
    ensures forall x, y :: PlaceOk(w - {c}, x, y)
    ensures forall o :: HeadOk(st', w - {c}, o)
  {
    var w' := w - {c};
    assert HeadOk(st, w, Hand(t)) && PendingOk(st, w, c);
    forall x | x in w && x != c ensures w[x].0 != Hand(t) { assert PlaceOk(w, x, c); }
    forall x ensures PendingOk(st', w', x) { assert PendingOk(st, w, x); }
    forall x, y ensures PlaceOk(w', x, y) { assert PlaceOk(w, x, y); }
    forall o ensures HeadOk(st', w', o) { assert HeadOk(st, w, o); assert Head(st', o) == Head(st, o) || o == Hand(t); }
  }

  lemma CreateFailsOp(st: State, w: Where, op: Op)
    requires Inv(st, w) && Enabled(st, op) && op.CreateFails?
    ensures Inv(Next(st, op), After(st, w, op))
  {
    hide PendingOk, PlaceOk, HeadOk, SockOk, PeerOk, ThreadOk, SessionOk, Next;
    FailedLists(st, w, op);
    FailedSocks(st, w, op);
    forall u ensures ThreadOk(Next(st, op), u) { FailedThread(st, w, op, u); }
  }

  lemma FailedLists(st: State, w: Where, op: Op)
    requires Inv(st, w) && Enabled(st, op) && op.CreateFails?
    ensures var st', w' := Next(st, op), w - {st.pc[op.t].c};
      (forall x :: PendingOk(st', w', x)) && (forall x, y :: PlaceOk(w', x, y)) && (forall o :: HeadOk(st', w', o))
  {
    var st', t, c := Next(st, op), op.t, st.pc[op.t].c;
    assert ThreadOk(st, t);
    DropHand(st, st', w, t, c);
  }

  lemma FailedSocks(st: State, w: Where, op: Op)
    requires Inv(st, w) && Enabled(st, op) && op.CreateFails?
    ensures var st', w' := Next(st, op), w - {st.pc[op.t].c};
      (forall x :: SockOk(st', w', x)) && (forall x :: PeerOk(st', x)) && (forall u, v :: SessionOk(st', u, v))
  {
    var st', t, c := Next(st, op), op.t, st.pc[op.t].c;
    assert ThreadOk(st, t) && HeadOk(st, w, Hand(t)) && PendingOk(st, w, c) && SockOk(st, w, c);
    forall x ensures SockOk(st', w - {c}, x) { assert SockOk(st, w, x); }
    forall x ensures PeerOk(st', x) { if x in st.socks { PeerFrame(st, st', w, x); } }
    forall u, v ensures SessionOk(st', u, v) { assert SessionOk(st, u, v); }
  }

  lemma FailedThread(st: State, w: Where, op: Op, u: nat)
    requires Inv(st, w) && Enabled(st, op) && op.CreateFails?
    ensures ThreadOk(Next(st, op), u)
  {
    assert ThreadOk(st, op.t) && ThreadOk(st, u);
  }

  lemma FinishAcceptOp(st: State, w: Where, op: Op)
    requires Inv(st, w) && Enabled(st, op) && op.FinishAccept?
    ensures Inv(Next(st, op), After(st, w, op))
  {
    hide PendingOk, PlaceOk, HeadOk, SockOk, PeerOk, ThreadOk, SessionOk, Next;
    AcceptedLists(st, w, op);
    AcceptedSocks(st, w, op);
    forall x ensures PeerOk(Next(st, op), x) { AcceptedPeer(st, w, op, x); }
    forall u ensures ThreadOk(Next(st, op), u) { AcceptedThread(st, w, op, u); }
  }

  lemma AcceptedLists(st: State, w: Where, op: Op)
    requires Inv(st, w) && Enabled(st, op) && op.FinishAccept?
    ensures var st', w' := Next(st, op), w - {st.pc[op.t].c};
      (forall x :: PendingOk(st', w', x)) && (forall x, y :: PlaceOk(w', x, y)) && (forall o :: HeadOk(st', w', o))
  {
    var st', t, c, session := Next(st, op), op.t, st.pc[op.t].c, st.pc[op.t].session;
    assert ThreadOk(st, t) && SockOk(st, w, session) && PendingOk(st, w, session);
    DropHand(st, st', w, t, c);
  }

  lemma AcceptedSocks(st: State, w: Where, op: Op)
    requires Inv(st, w) && Enabled(st, op) && op.FinishAccept?
    ensures var st', w' := Next(st, op), w - {st.pc[op.t].c};
      (forall x :: SockOk(st', w', x)) && (forall u, v :: SessionOk(st', u, v))
  {
    var st', t, c, session := Next(st, op), op.t, st.pc[op.t].c, st.pc[op.t].session;
    assert ThreadOk(st, t) && HeadOk(st, w, Hand(t)) && PendingOk(st, w, c) && SockOk(st, w, session);
    forall x ensures SockOk(st', w - {c}, x) { assert SockOk(st, w, x); }
    forall u, v ensures SessionOk(st', u, v) { assert SessionOk(st, u, v); }
  }

  lemma AcceptedPeer(st: State, w: Where, op: Op, x: nat)
    requires Inv(st, w) && Enabled(st, op) && op.FinishAccept?
    ensures PeerOk(Next(st, op), x)
  {
    var st', t, c, session := Next(st, op), op.t, st.pc[op.t].c, st.pc[op.t].session;
    assert ThreadOk(st, t) && HeadOk(st, w, Hand(t)) && PendingOk(st, w, c);
    assert SockOk(st, w, c) && SockOk(st, w, session);
    if x in st.socks && st'.socks[x].peer == st.socks[x].peer { PeerFrame(st, st', w, x); }
  }

  lemma AcceptedThread(st: State, w: Where, op: Op, u: nat)
    requires Inv(st, w) && Enabled(st, op) && op.FinishAccept?
    ensures ThreadOk(Next(st, op), u)
  {
    assert ThreadOk(st, op.t) && ThreadOk(st, u) && SessionOk(st, op.t, u);
  }

  // ---------------------------------------------------------------------------
  // release
  // ---------------------------------------------------------------------------

  lemma ReleaseOp(st: State, w: Where, op: Op)
    requires Inv(st, w) && Enabled(st, op) && op.StartRelease?
    ensures Inv(Next(st, op), After(st, w, op))
  {
    hide PendingOk, PlaceOk, HeadOk, SockOk, PeerOk, ThreadOk, SessionOk, Next;
    if Next(st, op) == st { return; }
    ReleaseLists(st, w, op);
    ReleaseRest(st, w, op);
    forall x ensures PeerOk(Next(st, op), x) { ReleasePeer(st, w, op, x); }
  }

  lemma ReleaseLists(st: State, w: Where, op: Op)
    requires Inv(st, w) && Enabled(st, op) && op.StartRelease? && Next(st, op) != st
    ensures var st', w' := Next(st, op), After(st, w, op);
      (forall x :: PendingOk(st', w', x)) && (forall x, y :: PlaceOk(w', x, y)) && (forall o :: HeadOk(st', w', o))
  {
    var st', w', t, s := Next(st, op), After(st, w, op), op.t, op.s;
    assert HeadOk(st, w, Queue(s)) && HeadOk(st, w, Hand(t)) && SockOk(st, w, s);
    forall x ensures PendingOk(st', w', x) { assert PendingOk(st, w, x); }
    forall x, y ensures PlaceOk(w', x, y) { assert PlaceOk(w, x, y); }
    forall o ensures HeadOk(st', w', o) { assert HeadOk(st, w, o); }
  }

  lemma ReleaseRest(st: State, w: Where, op: Op)
    requires Inv(st, w) && Enabled(st, op) && op.StartRelease? && Next(st, op) != st
    ensures var st', w' := Next(st, op), After(st, w, op);
      (forall x :: SockOk(st', w', x)) && (forall u :: ThreadOk(st', u)) && (forall u, v :: SessionOk(st', u, v))
  {
    var st', w', s := Next(st, op), After(st, w, op), op.s;
    assert SockOk(st, w, s);
    forall x ensures SockOk(st', w', x) { assert SockOk(st, w, x); }
    forall u ensures ThreadOk(st', u) { assert ThreadOk(st, u) && PeerOk(st, s); }
    forall u, v ensures SessionOk(st', u, v) { assert SessionOk(st, u, v); }
  }

  lemma ReleasePeer(st: State, w: Where, op: Op, x: nat)
    requires Inv(st, w) && Enabled(st, op) && op.StartRelease? && Next(st, op) != st
    ensures PeerOk(Next(st, op), x)
  {
    var st', s := Next(st, op), op.s;
    assert PeerOk(st, x) && SockOk(st, w, s);
    if x in st.socks && x != s && st.socks[x].peer.Some? {
      var p := st.socks[x].peer.value;
      if p == s && st.socks[s].peer == Some(x) {
        assert Releasing(st'.pc[op.t], s, x);
      } else if st.socks[p].peer != Some(x) {
        var t :| t in st.pc && Releasing(st.pc[t], p, x);
        assert Releasing(st'.pc[t], p, x);
      }
    }
  }

  lemma DrainOp(st: State, w: Where, op: Op)
    requires Inv(st, w) && Enabled(st, op) && op.DrainOne?
    ensures Inv(Next(st, op), After(st, w, op))
  {
    hide PendingOk, PlaceOk, HeadOk, SockOk, PeerOk, ThreadOk, SessionOk, Next;
    DrainLists(st, w, op);
    DrainSocks(st, w, op);
    forall o ensures HeadOk(Next(st, op), After(st, w, op), o) { DrainHead(st, w, op, o); }
    forall u ensures ThreadOk(Next(st, op), u) { DrainThread(st, w, op, u); }
  }

  lemma DrainLists(st: State, w: Where, op: Op)
    requires Inv(st, w) && Enabled(st, op) && op.DrainOne?
    ensures var st', w' := Next(st, op), After(st, w, op);
      (forall x :: PendingOk(st', w', x)) && (forall x, y :: PlaceOk(w', x, y))
  {
    var st', w', t, c := Next(st, op), After(st, w, op), op.t, st.pc[op.t].cur;
    assert ThreadOk(st, t) && HeadOk(st, w, Hand(t)) && PendingOk(st, w, c);
    forall x ensures PendingOk(st', w', x) { assert PendingOk(st, w, x); assert PlaceOk(w, x, c); }
    forall x, y ensures PlaceOk(w', x, y) { assert PlaceOk(w, x, y); }
  }

  lemma DrainSocks(st: State, w: Where, op: Op)
    requires Inv(st, w) && Enabled(st, op) && op.DrainOne?
    ensures var st', w' := Next(st, op), After(st, w, op);
      (forall x :: SockOk(st', w', x)) && (forall x :: PeerOk(st', x)) && (forall u, v :: SessionOk(st', u, v))
  {
    var st', w', t, c := Next(st, op), After(st, w, op), op.t, st.pc[op.t].cur;
    assert ThreadOk(st, t) && HeadOk(st, w, Hand(t)) && PendingOk(st, w, c) && SockOk(st, w, c);
    forall x ensures SockOk(st', w', x) { assert SockOk(st, w, x); }
    forall x ensures PeerOk(st', x) { if x in st.socks { PeerFrame(st, st', w, x); } }
    forall u, v ensures SessionOk(st', u, v) { assert SessionOk(st, u, v); }
  }

  lemma DrainThread(st: State, w: Where, op: Op, u: nat)
    requires Inv(st, w) && Enabled(st, op) && op.DrainOne?
    ensures ThreadOk(Next(st, op), u)
  {
    assert HeadOk(st, w, Hand(op.t)) && ThreadOk(st, op.t) && ThreadOk(st, u) && HeadOk(st, w, Hand(u));
  }

  lemma DrainHead(st: State, w: Where, op: Op, o: Owner)
    requires Inv(st, w) && Enabled(st, op) && op.DrainOne?
    ensures HeadOk(Next(st, op), After(st, w, op), o)
  {
    var st', t, c := Next(st, op), op.t, st.pc[op.t].cur;
    assert ThreadOk(st, t) && HeadOk(st, w, Hand(t)) && PendingOk(st, w, c) && HeadOk(st, w, o);
    if o == Hand(t) {
      forall x | x in w && x != c && w[x].0 == o ensures w[x].1 < w[c].1 { assert PlaceOk(w, x, c); }
    } else {
      assert Head(st', o) == Head(st, o);
    }
  }

  lemma FinishReleaseOp(st: State, w: Where, op: Op)
    requires Inv(st, w) && Enabled(st, op) && op.FinishRelease?
    ensures Inv(Next(st, op), w)
  {
    var st', t := Next(st, op), op.t;
    var p := st.pc[t];
    assert ThreadOk(st, t);
    if p.peer.Some? { assert SockOk(st, w, p.peer.value); }
    forall x ensures PendingOk(st', w, x) { assert PendingOk(st, w, x); }
    forall o ensures HeadOk(st', w, o) { assert HeadOk(st, w, o); assert Head(st', o) == Head(st, o); }
    forall x ensures SockOk(st', w, x) { assert SockOk(st, w, x); }
    forall x ensures PeerOk(st', x) { UnpairPeer(st, w, op, x); }
    forall u ensures ThreadOk(st', u) { assert ThreadOk(st, u); }
    forall u, v ensures SessionOk(st', u, v) { assert SessionOk(st, u, v); }
  }

  lemma UnpairPeer(st: State, w: Where, op: Op, x: nat)
    requires Inv(st, w) && Enabled(st, op) && op.FinishRelease?
    ensures PeerOk(Next(st, op), x)
  {
    var st', t := Next(st, op), op.t;
    var s, peer := st.pc[t].s, st.pc[t].peer;
    assert PeerOk(st, x) && ThreadOk(st, t) && SockOk(st, w, s);
    if x in st.socks && st'.socks[x].peer.Some? {
      var p := st.socks[x].peer.value;
      if peer.Some? { assert SockOk(st, w, peer.value); }
      if st.socks[p].peer != Some(x) {
        var u :| u in st.pc && Releasing(st.pc[u], p, x);
        assert Releasing(st'.pc[u], p, x);
      }
    }
  }

  // ---------------------------------------------------------------------------
  // Runs
  // ---------------------------------------------------------------------------

  /** Every step of every thread keeps the invariant, with the places moved as `After` says. */
  lemma StepInv(st: State, w: Where, op: Op)
    requires Inv(st, w) && Enabled(st, op)
    ensures Inv(Next(st, op), After(st, w, op))
  {
    match op
    case StartConnect(_, _, _) => ConnectOp(st, w, op);
    case DoAcceptTest(_) => AcceptTestOp(st, w, op);
    case CreateFails(_) => CreateFailsOp(st, w, op);
    case FinishAccept(_) => FinishAcceptOp(st, w, op);
    case StartRelease(_, _) => ReleaseOp(st, w, op);
    case DrainOne(_) => DrainOp(st, w, op);
    case FinishRelease(_) => FinishReleaseOp(st, w, op);
    case _ => QuietOp(st, w, op);
  }
}
