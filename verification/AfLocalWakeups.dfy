/** Lost wake-ups: none, except when a socket that others wait on in accept itself calls connect. */
module AfLocalWakeups {
  import opened AfLocal
  import opened AfLocalSafety
  import opened AfLocalRuns

  /** A thread is between its change of socket `x` and the wake-up of the sleepers on `x`. */
  ghost predicate Waking(st: State, x: nat) {
    exists t :: t in st.pc && WillWake(st.pc[t], x)
  }

  predicate WillWake(p: Pc, x: nat) {
    (p.ConnectWake? && p.s == x) || (p.ReleaseWake? && p.s == x)
  }

  /** The condition a sleeping thread waits under, re-read in the current state. */
  predicate StillWaits(st: State, p: Pc) {
    match p
    case ConnectSleep(c) => c in st.socks && st.socks[c].state == Connecting
    case AcceptSleep(s) => s in st.socks && st.socks[s].queue.None? && st.socks[s].state == Listening
    case RecvSleep(s) => s in st.socks && st.socks[s].rx == [] && st.socks[s].state == Connected
    case _ => true
  }

  function Channel(p: Pc): nat
    requires p.ConnectSleep? || p.AcceptSleep? || p.RecvSleep?
  {
    if p.ConnectSleep? then p.c else p.s
  }

  ghost predicate SleepOk(st: State, t: nat) {
    t in st.pc && (st.pc[t].ConnectSleep? || st.pc[t].AcceptSleep? || st.pc[t].RecvSleep?) ==>
      StillWaits(st, st.pc[t]) || Waking(st, Channel(st.pc[t]))
  }

  /** No wake-up is lost: who sleeps still has to, or is about to be woken. */
  ghost predicate NoneLost(st: State) { forall t :: SleepOk(st, t) }

  /** connect called on a listening socket that a thread waits on in accept, with nobody about to wake it. */
  ghost predicate Strands(st: State, op: Op) {
    && Enabled(st, op) && op.StartConnect?
    && st.socks[op.c].state == Listening && st.socks[op.s].state == Listening
    && !Waking(st, op.c) && exists u :: u in st.pc && st.pc[u] == AcceptSleep(op.c)
  }

  /** The step that wakes every sleeper on `x`. */
  ghost predicate Delivers(st: State, op: Op, x: nat) {
    (op.DoConnectWake? || op.DoReleaseWake?) && op.t in st.pc && WillWake(st.pc[op.t], x)
  }

  lemma WakingStays(st: State, op: Op, x: nat)
    requires Enabled(st, op) && Waking(st, x)
    ensures Waking(Next(st, op), x) || Delivers(st, op, x)
  {
    if !Delivers(st, op, x) {
      var t :| t in st.pc && WillWake(st.pc[t], x);
      assert WillWake(Next(st, op).pc[t], x);
    }
  }

  /** A thread asleep after the step was asleep before it, or has just tested its condition. */
  lemma SleeperStays(st: State, op: Op, t: nat)
    requires Enabled(st, op) && t in Next(st, op).pc
    ensures var q := Next(st, op).pc[t];
      q.ConnectSleep? || q.AcceptSleep? || q.RecvSleep? ==>
        (t in st.pc && st.pc[t] == q && !Delivers(st, op, Channel(q))) || StillWaits(Next(st, op), q)
  {
  }

  /** A step that ends a wait condition wakes the sleeper, announces the wake-up, or strands the sleeper. */
  lemma StepWaits(st: State, w: Where, op: Op, t: nat)
    requires Inv(st, w) && Enabled(st, op) && t in st.pc && t in Next(st, op).pc && Next(st, op).pc[t] == st.pc[t]
    requires StillWaits(st, st.pc[t]) && (st.pc[t].ConnectSleep? || st.pc[t].AcceptSleep? || st.pc[t].RecvSleep?)
    ensures StillWaits(Next(st, op), st.pc[t]) || Waking(Next(st, op), Channel(st.pc[t]))
            || (op.StartConnect? && st.pc[t] == AcceptSleep(op.c))
  {
    var st' := Next(st, op);
    if (op.StartConnect? || op.StartRelease?) && st' != st { assert WillWake(st'.pc[op.t], op.s); }
    if op.FinishAccept? { assert ThreadOk(st, op.t) && SockOk(st, w, st.pc[op.t].session); }
  }

  /** A step keeps every wake-up exactly when it does not strand a thread in accept. */
  lemma StepLosesIff(st: State, w: Where, op: Op)
    requires Inv(st, w) && Enabled(st, op) && NoneLost(st)
    ensures NoneLost(Next(st, op)) <==> !Strands(st, op)
  {
    if Strands(st, op) {
      StrandedSleeper(st, op);
    } else {
      forall t ensures SleepOk(Next(st, op), t) { SleeperKept(st, w, op, t); }
    }
  }

  lemma SleeperKept(st: State, w: Where, op: Op, t: nat)
    requires Inv(st, w) && Enabled(st, op) && NoneLost(st) && !Strands(st, op)
    ensures SleepOk(Next(st, op), t)
  {
    var st' := Next(st, op);
    if t in st'.pc {
      var q := st'.pc[t];
      if (q.ConnectSleep? || q.AcceptSleep? || q.RecvSleep?) && !StillWaits(st', q) {
        SleeperStays(st, op, t);
        assert SleepOk(st, t);
        if Waking(st, Channel(q)) {
          WakingStays(st, op, Channel(q));
        } else {
          StepWaits(st, w, op, t);
        }
      }
    }
  }

  lemma StrandedSleeper(st: State, op: Op)
    requires Strands(st, op)
    ensures !NoneLost(Next(st, op))
  {
    var st' := Next(st, op);
    var u :| u in st.pc && st.pc[u] == AcceptSleep(op.c);
    forall t | t in st'.pc ensures !WillWake(st'.pc[t], op.c) { assert t != op.t ==> !WillWake(st.pc[t], op.c); }
    assert !SleepOk(st', u);
  }

  /**
   * Over whole runs: no wake-up has been lost in any state up to the n-th exactly when no step before it
   * stranded a thread.
   */
  lemma {:induction false} RunLosesIff(run: seq<State>, ops: seq<Op>, n: nat)
    requires IsRun(run, ops) && n < |run|
    ensures (forall i: nat :: i <= n ==> NoneLost(run[i])) <==> (forall i: nat :: i < n ==> !Strands(run[i], ops[i]))
  {
    if n == 0 {
      assert NoneLost(run[0]);
    } else {
      RunLosesIff(run, ops, n - 1);
      assert StepAt(run, ops, n - 1);
      if NoneLost(run[n - 1]) {
        var w := RunInv(run, ops, n - 1);
        StepLosesIff(run[n - 1], w, ops[n - 1]);
      }
    }
  }

  /** As long as listening sockets do not call connect, no reachable state has lost a wake-up. */
  lemma RunLosesNone(run: seq<State>, ops: seq<Op>)
    requires IsRun(run, ops)
    requires forall i :: 0 <= i < |ops| && ops[i].StartConnect? && ops[i].c in run[i].socks ==>
      run[i].socks[ops[i].c].state != Listening
    ensures forall i :: 0 <= i < |run| ==> NoneLost(run[i])
  {
    RunLosesIff(run, ops, |ops|);
  }

  /** A run goes on with any enabled step. */
  lemma RunGoesOn(run: seq<State>, ops: seq<Op>, op: Op) returns (run': seq<State>, ops': seq<Op>, st: State)
    requires IsRun(run, ops) && Enabled(run[|ops|], op)
    ensures IsRun(run', ops') && st == run'[|ops'|] == Next(run[|ops|], op)
  {
    st := Next(run[|ops|], op);
    run', ops' := run + [st], ops + [op];
    forall i ensures StepAt(run', ops', i) { assert StepAt(run, ops, i); }
  }

  /** One such run: thread 1 waits in accept on socket 0, then thread 2 connects socket 0 to socket 1. */
  lemma RunLosesOne() returns (run: seq<State>, ops: seq<Op>)
    ensures IsRun(run, ops) && !NoneLost(run[|ops|])
  {
    var st;
    run, ops := [State(map[], map[1 := Idle, 2 := Idle])], [];
    run, ops, st := RunGoesOn(run, ops, NewSocket(0));
    run, ops, st := RunGoesOn(run, ops, NewSocket(1));
    run, ops, st := RunGoesOn(run, ops, Listen(0));
    run, ops, st := RunGoesOn(run, ops, Listen(1));
    run, ops, st := RunGoesOn(run, ops, StartAccept(1, 0));
    run, ops, st := RunGoesOn(run, ops, DoAcceptTest(1));
    assert st.pc == map[1 := AcceptSleep(0), 2 := Idle];
    StrandedStep(st, StartConnect(2, 0, 1));
    run, ops, st := RunGoesOn(run, ops, StartConnect(2, 0, 1));
  }

  lemma StrandedStep(st: State, op: Op)
    requires Enabled(st, op) && op == StartConnect(2, 0, 1) && st.pc == map[1 := AcceptSleep(0), 2 := Idle]
    requires st.socks[0].state == Listening && st.socks[1].state == Listening
    ensures !NoneLost(Next(st, op))
  {
    assert 1 in st.pc && st.pc[1] == AcceptSleep(op.c);
    StrandedSleeper(st, op);
  }
}
