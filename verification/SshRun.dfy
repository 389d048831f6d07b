/** Whole conversations: what one side sends is what the other side receives, in order. */
module SshRun {
  import opened SshPacket
  import opened SshSession

  datatype Step = SendOne(message: Message) | ReceiveOne

  /** The messages of a script that ssh_send_packet takes. */
  function Accepted(d: Direction, steps: seq<Step>): seq<Message> {
    if steps == [] then []
    else
      var before, last := Accepted(d, steps[..|steps| - 1]), steps[|steps| - 1];
      if last.SendOne? && Fits(d, last.message) then before + [last.message] else before
  }

  /** The receive steps of a script. */
  function Receives(steps: seq<Step>): nat {
    if steps == [] then 0 else Receives(steps[..|steps| - 1]) + if steps[|steps| - 1].ReceiveOne? then 1 else 0
  }

  /** A call that failed did so in a step of its kind. */
  predicate Blames(code: int, step: Step) { if step.SendOne? then code == -3 else code in {-2, -5, -7} }

  /** The numbers the packet after `log[..n]` has or will have. */
  ghost function CounterAt(log: seq<Sent>, n: nat, next: nat): nat { if n < |log| then log[n].counter else next }

  ghost function SequenceAt(log: seq<Sent>, n: nat, next: nat): nat { if n < |log| then log[n].sequence else next }

  /** The sender's numbers come right after those of the last packet in the log. */
  ghost predicate UpToDate(d: Direction, log: seq<Sent>, counter: nat, sequence: nat)
    requires AllSendable(d, log)
  {
    log != [] ==> counter == NextCounter(d, log[|log| - 1]) && sequence == NextSequence(log[|log| - 1].sequence)
  }

  lemma LogMore(d: Direction, log: seq<Sent>, y: Sent)
    requires Numbered(d, log) && Sendable(d, y) && UpToDate(d, log, y.counter, y.sequence)
    ensures Numbered(d, log + [y])
  {
    var all := log + [y];
    forall i ensures Follows(d, all, i) { assert Follows(d, log, i); }
  }

  /** Decoding the stream yields the first packet still on it, and leaves the others. */
  lemma FrontPacket(d: Direction, log: seq<Sent>, n: nat)
    requires d.Ok() && AllSendable(d, log) && n < |log|
    ensures var s, x := WireAll(d, log[n..]), log[n];
      && Decode(d, x.counter, x.sequence, s) == Packet(x.message, |WireOf(d, x)|)
      && |WireOf(d, x)| <= |s| && s[|WireOf(d, x)|..] == WireAll(d, log[n + 1..])
  {
    var x := log[n];
    assert log[n..][1..] == log[n + 1..];
    WireFront(d, log[n..]);
    DecodeWire(d, x.counter, x.sequence, x.message, x.pad, WireAll(d, log[n + 1..]));
  }

  /** Both ends agree on keys and numbers, and the stream holds the packets sent and not yet received. */
  ghost predicate InStep(a: Sender, b: Receiver, d: Direction, log: seq<Sent>, n: nat)
    reads a, a.iv, b, b.iv, a.output
  {
    && a.Valid() && b.Valid() && a.output == b.input && a.Direct() == d == b.Direct()
    && a.tx != b.rx && a.tx != b.iv && a.iv != b.rx && a.iv != b.iv
    && Numbered(d, log) && UpToDate(d, log, a.counter, a.sequence) && n <= |log|
    && a.output.queue == WireAll(d, log[n..])
    && b.counter == CounterAt(log, n, a.counter) && b.sequence == SequenceAt(log, n, a.sequence)
  }

  method SendStep(a: Sender, b: Receiver, ghost d: Direction, ghost log: seq<Sent>, ghost n: nat, m: Message)
    returns (code: int, ghost log': seq<Sent>)
    requires InStep(a, b, d, log, n)
    modifies a`sequence, a`counter, a.tx, a.iv, a.output
    ensures code in {0, -3}
    ensures a.output.WriteFaulted(old(a.output.writeFaults), old(a.output.readFaults), code == -3)
    ensures code == 0 ==> InStep(a, b, d, log', n)
    ensures code == 0 && Fits(d, m) ==> Messages(log') == Messages(log) + [m] && |log| < |log'| && log'[..|log|] == log
    ensures code == 0 && !Fits(d, m) ==> log' == log
  {
    hide Fits, WireAll, Numbered, Plain, PadLength;
    ghost var c, sn := a.counter, a.sequence;
    ghost var pad;
    var r;
    r, pad := a.Send(m);
    log' := log;
    if r == -1 { return 0, log; }
    if r == -3 { return -3, log; }
    code := 0;
    ghost var y := Sent(m, pad, c, sn);
    log' := log + [y];
    LogMore(d, log, y);
    SentMore(d, log, y, n);
  }

  lemma SentMore(d: Direction, log: seq<Sent>, y: Sent, n: nat)
    requires Numbered(d, log) && Sendable(d, y) && n <= |log|
    ensures WireAll(d, (log + [y])[n..]) == WireAll(d, log[n..]) + WireOf(d, y)
    ensures Messages(log + [y]) == Messages(log) + [y.message] && (log + [y])[..|log|] == log
  {
    hide Fits, WireAll, PadLength;
    assert (log + [y])[n..] == log[n..] + [y];
    WireMore(d, log[n..], y);
  }

  method ReceiveStep(a: Sender, b: Receiver, ghost d: Direction, ghost log: seq<Sent>, ghost n: nat)
    returns (code: int, m: Message)
    requires InStep(a, b, d, log, n)
    modifies b`sequence, b`counter, b.rx, b.iv, b.input
    ensures code in {0, -2, -5, -7}
    ensures b.input.ReadFaulted(old(b.input.writeFaults), old(b.input.readFaults), code != 0)
    ensures code == 0 ==> n < |log| && m == log[n].message && InStep(a, b, d, log, n + 1)
  {
    hide DecodeRest, Plain, PadLength;
    if n < |log| { FrontPacket(d, log, n); }
    var r := b.Receive();
    m := Message(0, []);
    if r.Failed? { return r.code, m; }
    code, m := 0, r.message;
    assert Follows(d, log, n);
  }

  /**
   * Any script of sends and receives, with the stream cut into any pieces, up to the first call that fails.
   * Every receive step done has received one message, and these are the messages accepted for sending, in order.  A call
   * fails exactly when the stream faults in it, never for a check on a packet; and the two ends agree on counter and
   * sequence number.
   */
  method Run(a: Sender, b: Receiver, steps: seq<Step>)
    returns (done: nat, code: int, got: seq<Message>, ghost log: seq<Sent>)
    requires InStep(a, b, a.Direct(), [], 0)
    modifies a`sequence, a`counter, a.tx, a.iv, a.output, b`sequence, b`counter, b.rx, b.iv
    ensures done <= |steps| && (code == 0 <==> done == |steps|) && (code != 0 ==> Blames(code, steps[done]))
    ensures a.output.WriteFaulted(old(a.output.writeFaults), a.output.readFaults, code == -3)
    ensures a.output.ReadFaulted(a.output.writeFaults, old(a.output.readFaults), code in {-2, -5, -7})
    ensures |got| == Receives(steps[..done]) <= |log|
    ensures Messages(log) == Accepted(a.Direct(), steps[..done]) && got == Messages(log)[..|got|]
    ensures code == 0 ==> InStep(a, b, a.Direct(), log, |got|)
  {
    hide Fits, WireAll, UpToDate, CounterAt, SequenceAt, Numbered;
    ghost var d := a.Direct();
    done, code, got, log := 0, 0, [], [];
    while done < |steps|
      invariant done <= |steps| && code == 0 && a.Direct() == d && InStep(a, b, d, log, |got|)
      invariant Messages(log) == Accepted(d, steps[..done]) && got == Messages(log)[..|got|]
      invariant |got| == Receives(steps[..done])
      invariant a.output.WriteFaulted(old(a.output.writeFaults), old(a.output.readFaults), false)
    {
      assert steps[..done + 1][..done] == steps[..done];
      if steps[done].SendOne? {
        ghost var log';
        code, log' := SendStep(a, b, d, log, |got|, steps[done].message);
        if code != 0 { return; }
        log := log';
      } else {
        var m;
        code, m := ReceiveStep(a, b, d, log, |got|);
        if code != 0 { return; }
        got := got + [m];
      }
      done := done + 1;
    }
    assert steps[..done] == steps;
  }

  /** When everything sent has been received, both ends stand at the same numbers. */
  lemma SameNumbers(a: Sender, b: Receiver, log: seq<Sent>)
    requires InStep(a, b, a.Direct(), log, |log|)
    ensures a.counter == b.counter && a.sequence == b.sequence && a.iv[..] == b.iv[..]
  {
  }
}
