/**
 * AF_LOCAL sockets as a concurrent protocol: one atomic step per critical section, any number of threads.
 *
 * A thread between two critical sections is described by its program counter.  A step that tests a wait
 * condition and sleeps is atomic because wait() marks the thread while it still holds the socket's lock, and
 * every change of the condition needs that lock.  Threads are the main threads that wakeup() visits.
 */
module AfLocal {

  datatype Option<+T> = None | Some(value: T)

  datatype SockState = Created | Connected | Listening | Connecting | Closing

  /** `shared` is false for a session socket until accept hands it out. */
  datatype Sock = Sock(state: SockState, peer: Option<nat>, queue: Option<nat>, next: Option<nat>,
                       rx: seq<int>, shared: bool)

  const RING: nat := 16384

  datatype Pc =
    | Idle
    | ConnectWake(c: nat, s: nat)
    | ConnectTest(c: nat)
    | ConnectSleep(c: nat)
    | AcceptTest(s: nat)
    | AcceptSleep(s: nat)
    | AcceptHand(s: nat, c: nat)
    | AcceptPair(s: nat, c: nat, session: nat)
    | SendDeliver(dest: nat)
    | RecvTest(s: nat)
    | RecvSleep(s: nat)
    | ReleaseWake(s: nat, pending: Option<nat>, peer: Option<nat>)
    | ReleaseDrain(s: nat, pending: Option<nat>, peer: Option<nat>)
    | ReleaseRead(s: nat, cur: nat, next: Option<nat>, peer: Option<nat>)

  datatype State = State(socks: map<nat, Sock>, pc: map<nat, Pc>)

  /** wakeup: what becomes of one thread when channel `x` is signalled. */
  function Roused(p: Pc, x: nat): Pc {
    match p
    case ConnectSleep(c) => if c == x then ConnectTest(c) else p
    case AcceptSleep(s) => if s == x then AcceptTest(s) else p
    case RecvSleep(s) => if s == x then RecvTest(s) else p
    case _ => p
  }

  function Wake(pc: map<nat, Pc>, x: nat): map<nat, Pc> {
    map t | t in pc :: Roused(pc[t], x)
  }

  const Fresh := Sock(Created, None, None, None, [], true)

  datatype Op =
    | NewSocket(x: nat)
    | Listen(x: nat)
    | StartConnect(t: nat, c: nat, s: nat)
    | DoConnectWake(t: nat)
    | DoConnectTest(t: nat)
    | StartAccept(t: nat, s: nat)
    | DoAcceptTest(t: nat)
    | CreateSession(t: nat, session: nat)
    | CreateFails(t: nat)
    | FinishAccept(t: nat)
    | StartSend(t: nat, s: nat, d: nat)
    | Deliver(t: nat, data: seq<int>)
    | StartRecv(t: nat, s: nat)
    | DoRecvTest(t: nat, n: nat)
    | StartRelease(t: nat, s: nat)
    | DoReleaseWake(t: nat)
    | DoReleaseRead(t: nat)
    | DrainOne(t: nat)
    | FinishRelease(t: nat)

  /** A socket that user calls can name. */
  predicate Usable(st: State, x: nat) { x in st.socks && st.socks[x].shared }

  predicate At(st: State, t: nat) { t in st.pc }

  predicate Enabled(st: State, op: Op) {
    match op
    case NewSocket(x) => x !in st.socks
    case Listen(x) => Usable(st, x)
    case StartConnect(t, c, s) => At(st, t) && st.pc[t].Idle? && Usable(st, c) && Usable(st, s) && c != s
    case DoConnectWake(t) => At(st, t) && st.pc[t].ConnectWake?
    case DoConnectTest(t) => At(st, t) && st.pc[t].ConnectTest? && st.pc[t].c in st.socks
    case StartAccept(t, s) => At(st, t) && st.pc[t].Idle? && Usable(st, s)
    case DoAcceptTest(t) =>
      && At(st, t) && st.pc[t].AcceptTest? && st.pc[t].s in st.socks
      && (st.socks[st.pc[t].s].queue.Some? ==> st.socks[st.pc[t].s].queue.value in st.socks)
    case CreateSession(t, session) => At(st, t) && st.pc[t].AcceptHand? && session !in st.socks
    case CreateFails(t) => At(st, t) && st.pc[t].AcceptHand? && st.pc[t].c in st.socks
    case FinishAccept(t) =>
      At(st, t) && st.pc[t].AcceptPair? && st.pc[t].c in st.socks && st.pc[t].session in st.socks
    case StartSend(t, s, d) => At(st, t) && st.pc[t].Idle? && Usable(st, s) && Usable(st, d)
    case Deliver(t, data) => At(st, t) && st.pc[t].SendDeliver? && st.pc[t].dest in st.socks
    case StartRecv(t, s) => At(st, t) && st.pc[t].Idle? && Usable(st, s)
    case DoRecvTest(t, n) => At(st, t) && st.pc[t].RecvTest? && st.pc[t].s in st.socks
    case StartRelease(t, s) => At(st, t) && st.pc[t].Idle? && Usable(st, s)
    case DoReleaseWake(t) => At(st, t) && st.pc[t].ReleaseWake?
    case DoReleaseRead(t) =>
      && At(st, t) && st.pc[t].ReleaseDrain? && st.pc[t].pending.Some?
      && st.pc[t].pending.value in st.socks
    case DrainOne(t) => At(st, t) && st.pc[t].ReleaseRead? && st.pc[t].cur in st.socks
    case FinishRelease(t) =>
      && At(st, t) && st.pc[t].ReleaseDrain? && st.pc[t].pending.None?
      && (st.pc[t].peer.Some? ==> st.pc[t].peer.value in st.socks)
  }

  function Next(st: State, op: Op): State
    requires Enabled(st, op)
  {
    match op
    case NewSocket(x) => st.(socks := st.socks[x := Fresh])
    case Listen(x) =>
      if st.socks[x].state in {Closing, Connected, Connecting} then st
      else st.(socks := st.socks[x := st.socks[x].(state := Listening)])
    case StartConnect(t, c, s) =>
      if st.socks[c].state in {Closing, Connecting, Connected} || st.socks[s].state != Listening then st
      else
        var client := st.socks[c].(state := Connecting, next := st.socks[s].queue);
        var server := st.socks[s].(queue := Some(c));
        State(st.socks[c := client][s := server], st.pc[t := ConnectWake(c, s)])
    case DoConnectWake(t) => st.(pc := Wake(st.pc, st.pc[t].s)[t := ConnectTest(st.pc[t].c)])
    case DoConnectTest(t) =>
      var c := st.pc[t].c;
      st.(pc := st.pc[t := if st.socks[c].state == Connecting then ConnectSleep(c) else Idle])
    case StartAccept(t, s) => st.(pc := st.pc[t := AcceptTest(s)])
    case DoAcceptTest(t) =>
      var s := st.pc[t].s;
      var server := st.socks[s];
      if server.queue.None? && server.state == Listening then st.(pc := st.pc[t := AcceptSleep(s)])
      else if server.state != Listening then st.(pc := st.pc[t := Idle])
      else Popped(st, t, s, server.queue.value)
    case CreateSession(t, session) =>
      State(st.socks[session := Fresh.(shared := false)],
            st.pc[t := AcceptPair(st.pc[t].s, st.pc[t].c, session)])
    case CreateFails(t) =>
      var c := st.pc[t].c;
      if st.socks[c].state == Connecting then
        State(st.socks[c := st.socks[c].(state := Created, next := None)], Wake(st.pc, c)[t := Idle])
      else st.(pc := st.pc[t := Idle])
    case FinishAccept(t) =>
      var c, session := st.pc[t].c, st.pc[t].session;
      if st.socks[c].state != Connecting || st.socks[session].state == Closing then st.(pc := st.pc[t := Idle])
      else Paired(st, t, c, session)
    case StartSend(t, s, d) =>
      var dest := if st.socks[s].state == Connected && st.socks[s].peer.Some? then st.socks[s].peer.value else d;
      if dest == s then st else st.(pc := st.pc[t := SendDeliver(dest)])
    case Deliver(t, data) =>
      var d := st.pc[t].dest;
      var dest := st.socks[d];
      var room := if |dest.rx| < RING then RING - 1 - |dest.rx| else 0;
      var k := if |data| < room then |data| else room;
      if dest.state in {Created, Closing} || k == 0 then st.(pc := st.pc[t := Idle])
      else State(st.socks[d := dest.(rx := dest.rx + data[..k])], Wake(st.pc, d)[t := Idle])
    case StartRecv(t, s) => st.(pc := st.pc[t := RecvTest(s)])
    case DoRecvTest(t, n) =>
      var s := st.pc[t].s;
      var sock := st.socks[s];
      if sock.rx == [] && sock.state == Connected then st.(pc := st.pc[t := RecvSleep(s)])
      else
        State(st.socks[s := sock.(rx := sock.rx[if n < |sock.rx| then n else |sock.rx|..])], st.pc[t := Idle])
    case StartRelease(t, s) =>
      var sock := st.socks[s];
      if sock.state == Closing then st
      else
        State(st.socks[s := sock.(state := Closing, queue := None, peer := None)],
              st.pc[t := ReleaseWake(s, sock.queue, sock.peer)])
    case DoReleaseWake(t) =>
      var p := st.pc[t];
      st.(pc := Wake(st.pc, p.s)[t := ReleaseDrain(p.s, p.pending, p.peer)])
    case DoReleaseRead(t) =>
      var p := st.pc[t];
      st.(pc := st.pc[t := ReleaseRead(p.s, p.pending.value, st.socks[p.pending.value].next, p.peer)])
    case DrainOne(t) =>
      var p := st.pc[t];
      var cur := st.socks[p.cur];
      State(st.socks[p.cur := cur.(next := None, state := if cur.state == Connecting then Created else cur.state)],
            Wake(st.pc, p.cur)[t := ReleaseDrain(p.s, p.next, p.peer)])
    case FinishRelease(t) =>
      var p := st.pc[t];
      if p.peer.Some? && st.socks[p.peer.value].peer == Some(p.s) then
        var other := st.socks[p.peer.value];
        State(st.socks[p.peer.value := other.(peer := None,
                state := if other.state in {Connected, Connecting} then Created else other.state)],
              Wake(st.pc, p.peer.value)[t := Idle])
      else st.(pc := st.pc[t := Idle])
  }

  /** The end of accept's first critical section: the head of the queue is in the thread's hand. */
  function Popped(st: State, t: nat, s: nat, c: nat): State
    requires s in st.socks && c in st.socks
  {
    var socks := st.socks[s := st.socks[s].(queue := st.socks[c].next)];
    State(socks[c := socks[c].(next := None)], st.pc[t := AcceptHand(s, c)])
  }

  /** accept's last critical section: the two ends point at each other and the client is woken. */
  function Paired(st: State, t: nat, c: nat, session: nat): State
    requires c in st.socks && session in st.socks
  {
    var a := st.socks[session].(peer := Some(c), state := Connected, shared := true);
    var socks := st.socks[session := a];
    State(socks[c := socks[c].(peer := Some(session), state := Connected)], Wake(st.pc, c)[t := Idle])
  }

  ghost predicate Initial(st: State) {
    st.socks == map[] && forall t :: t in st.pc ==> st.pc[t].Idle?
  }

  ghost predicate IsRun(run: seq<State>, ops: seq<Op>) {
    && |run| == |ops| + 1 && Initial(run[0])
    && forall i :: StepAt(run, ops, i)
  }

  ghost predicate StepAt(run: seq<State>, ops: seq<Op>, i: nat) {
    i < |ops| && i + 1 < |run| ==> Enabled(run[i], ops[i]) && run[i + 1] == Next(run[i], ops[i])
  }
}
