/** Conversations that cross NEWKEYS: each end changes keys right behind it, and sequence numbers go on. */
module SshRekey {
  import opened Bytes
  import opened Octets
  import opened SshPacket
  import opened SshSession
  import opened SshRun

  const NEWKEYS: Byte := 21

  /** The keys an exchange has agreed on for one direction. */
  datatype Fresh = Fresh(key: seq<Byte>, iv: seq<Byte>, macKey: seq<Byte>) {
    ghost predicate Ok() { |iv| == 16 && |macKey| == 32 }
  }

  ghost function Under(d: Direction, k: Fresh): Direction { d.(encrypted := true, key := k.key, macKey := k.macKey) }

  /** The sending end takes the new keys; its sequence number goes on. */
  method SwitchSender(a: Sender, k: Fresh)
    requires a.Valid() && k.Ok()
    modifies a`encrypted, a`key, a`macKey, a`counter, a.iv
    ensures a.Valid() && a.Direct() == Under(old(a.Direct()), k) && a.counter == Value(k.iv)
  {
    hide BigEndian, Value;
    Store(a.iv, 0, k.iv);
    a.encrypted, a.key, a.macKey, a.counter := true, k.key, k.macKey, Value(k.iv);
    BigEndianOfValue(k.iv);
    assert a.iv[..] == a.iv[..16] == k.iv;
  }

  /** ssh_process_newkeys on the receiving end; its sequence number goes on. */
  method SwitchReceiver(b: Receiver, k: Fresh)
    requires b.Valid() && k.Ok()
    modifies b`encrypted, b`key, b`macKey, b`counter, b.iv
    ensures b.Valid() && b.Direct() == Under(old(b.Direct()), k) && b.counter == Value(k.iv)
  {
    hide BigEndian, Value;
    Store(b.iv, 0, k.iv);
    b.encrypted, b.key, b.macKey, b.counter := true, k.key, k.macKey, Value(k.iv);
    BigEndianOfValue(k.iv);
    assert b.iv[..] == b.iv[..16] == k.iv;
  }

  // ---------------------------------------------------------------------------
  // What goes over
  // ---------------------------------------------------------------------------

  predicate Announced(ms: seq<Message>) { exists i :: 0 <= i < |ms| && ms[i].kind == NEWKEYS }

  /** The messages of a script that are accepted for sending, before and behind the first NEWKEYS among them. */
  ghost function Sends(d: Direction, k: Fresh, steps: seq<Step>): seq<Message> {
    if steps == [] then []
    else
      var before, last := Sends(d, k, steps[..|steps| - 1]), steps[|steps| - 1];
      if last.SendOne? && Fits(if Announced(before) then Under(d, k) else d, last.message) then before + [last.message]
      else before
  }

  /** The packets under the old keys and under the new ones, and how many of them have been received. */
  datatype Trace = Trace(before: seq<Sent>, behind: seq<Sent>, got: nat)

  ghost predicate Apart(a: Sender, b: Receiver)
    reads a, b
  {
    a.tx != b.rx && a.tx != b.iv && a.iv != b.rx && a.iv != b.iv && a.output == b.input
  }

  /** The numbers of the first packet under the new keys: the counter is the new one, the sequence goes on. */
  ghost predicate Continues(d: Direction, k: Fresh, t: Trace, counter: nat, sequence: nat) {
    && t.before != [] && AllSendable(Under(d, k), t.behind)
    && CounterAt(t.behind, 0, counter) == Value(k.iv)
    && SequenceAt(t.behind, 0, sequence) == NextSequence(t.before[|t.before| - 1].sequence)
    && UpToDate(Under(d, k), t.behind, counter, sequence)
  }

  /** The sender is past NEWKEYS and the receiver is not: the stream holds packets under both sets of keys. */
  ghost predicate Crossing(a: Sender, b: Receiver, d: Direction, k: Fresh, t: Trace)
    reads a, a.iv, b, b.iv, a.output
  {
    && a.Valid() && b.Valid() && Apart(a, b) && a.Direct() == Under(d, k) && b.Direct() == d
    && Numbered(d, t.before) && Numbered(Under(d, k), t.behind) && t.got < |t.before|
    && Continues(d, k, t, a.counter, a.sequence)
    && a.output.queue == WireAll(d, t.before[t.got..]) + WireAll(Under(d, k), t.behind)
    && b.counter == t.before[t.got].counter && b.sequence == t.before[t.got].sequence
  }

  /** NEWKEYS is the last message under the old keys, once it has been sent. */
  ghost predicate OnlyLast(before: seq<Sent>, sent: bool) {
    && (sent ==> before != [] && before[|before| - 1].message.kind == NEWKEYS)
    && forall i :: 0 <= i < |before| && (sent ==> i < |before| - 1) ==> before[i].message.kind != NEWKEYS
  }

  /** Where a conversation stands: before NEWKEYS, across it, or behind it at both ends. */
  ghost predicate Stands(a: Sender, b: Receiver, d: Direction, k: Fresh, t: Trace, sent: bool, taken: bool)
    reads a, a.iv, b, b.iv, a.output
  {
    && OnlyLast(t.before, sent) && (taken ==> sent)
    && (!sent ==> InStep(a, b, d, t.before, t.got) && t.behind == [])
    && (sent && !taken ==> Crossing(a, b, d, k, t))
    && (taken ==> t.got >= |t.before| && InStep(a, b, Under(d, k), t.behind, t.got - |t.before|))
  }

  ghost function All(t: Trace): seq<Message> { Messages(t.before) + Messages(t.behind) }

  lemma AnnouncedIff(t: Trace, sent: bool)
    requires OnlyLast(t.before, sent) && (!sent ==> t.behind == [])
    ensures Announced(All(t)) <==> sent
  {
    var ms := All(t);
    if sent {
      assert ms[|t.before| - 1] == t.before[|t.before| - 1].message;
    } else {
      forall i | 0 <= i < |ms| ensures ms[i].kind != NEWKEYS { assert ms[i] == t.before[i].message; }
    }
  }

  // ---------------------------------------------------------------------------
  // Sending
  // ---------------------------------------------------------------------------

  /** NEWKEYS has just been sent, and the sender changes keys behind it. */
  lemma StartCrossing(d: Direction, k: Fresh, log: seq<Sent>, n: nat, sequence: nat)
    requires d.Ok() && k.Ok() && Numbered(d, log) && n < |log| && sequence == NextSequence(log[|log| - 1].sequence)
    ensures Continues(d, k, Trace(log, [], n), Value(k.iv), sequence) && Numbered(Under(d, k), [])
    ensures WireAll(d, log[n..]) + WireAll(Under(d, k), []) == WireAll(d, log[n..])
  {
    assert WireAll(Under(d, k), []) == [];
  }

  lemma LastIsNew(before: seq<Sent>, log: seq<Sent>, m: Message)
    requires OnlyLast(before, false) && |log| == |before| + 1 && log[..|before|] == before && log[|before|].message == m
    ensures OnlyLast(log, m.kind == NEWKEYS)
  {
    forall i | 0 <= i < |before| ensures log[i].message.kind != NEWKEYS { assert log[i] == log[..|before|][i] == before[i]; }
  }

  lemma OneMore(before: seq<Sent>, log: seq<Sent>, m: Message)
    requires |before| < |log| && log[..|before|] == before && Messages(log) == Messages(before) + [m]
    ensures |log| == |before| + 1 && log[|before|].message == m
  {
    assert |Messages(log)| == |Messages(before)| + 1;
    assert Messages(log)[|before|] == m;
  }

  /** A message before NEWKEYS, or NEWKEYS itself. */
  method SendBefore(a: Sender, b: Receiver, ghost d: Direction, k: Fresh, ghost t: Trace, m: Message)
    returns (code: int, sent: bool, ghost t': Trace)
    requires Stands(a, b, d, k, t, false, false) && k.Ok()
    modifies a`sequence, a`counter, a`encrypted, a`key, a`macKey, a.tx, a.iv, a.output
    ensures code in {0, -3} && (code == 0 ==> Stands(a, b, d, k, t', sent, false) && t'.got == t.got)
    ensures a.output.WriteFaulted(old(a.output.writeFaults), old(a.output.readFaults), code == -3)
    ensures code == 0 ==> All(t') == All(t) + if Fits(d, m) then [m] else []
  {
    hide Fits, WireAll, UpToDate, Numbered, CounterAt, SequenceAt, Continues;
    sent, t' := false, t;
    var fits := Fits(a.Direct(), m);
    ghost var log;
    code, log := SendStep(a, b, d, t.before, t.got, m);
    if code != 0 || !fits { return; }
    OneMore(t.before, log, m);
    LastIsNew(t.before, log, m);
    t' := Trace(log, [], t.got);
    assert All(t') == Messages(log) + [] == Messages(log);
    assert All(t) == Messages(t.before) + [] == Messages(t.before);
    if m.kind == NEWKEYS {
      ghost var sequence := a.sequence;
      NextNumbers(a, b, d, log, t.got);
      SwitchSender(a, k);
      StartCrossing(d, k, log, t.got, sequence);
      sent := true;
    }
  }

  /** What the numbers of both ends are when packets are still on the way. */
  lemma NextNumbers(a: Sender, b: Receiver, d: Direction, log: seq<Sent>, n: nat)
    requires InStep(a, b, d, log, n) && n < |log|
    ensures d.Ok() && a.sequence == NextSequence(log[|log| - 1].sequence)
    ensures b.counter == log[n].counter && b.sequence == log[n].sequence
  {
  }

  /** A message under the new keys while the receiver still has old packets to read. */
  method SendAcross(a: Sender, b: Receiver, ghost d: Direction, ghost k: Fresh, ghost t: Trace, m: Message)
    returns (code: int, ghost t': Trace)
    requires Crossing(a, b, d, k, t)
    modifies a`sequence, a`counter, a.tx, a.iv, a.output
    ensures code in {0, -3} && (code == 0 ==> Crossing(a, b, d, k, t') && t'.got == t.got && t'.before == t.before)
    ensures a.output.WriteFaulted(old(a.output.writeFaults), old(a.output.readFaults), code == -3)
    ensures code == 0 ==> All(t') == All(t) + if Fits(Under(d, k), m) then [m] else []
  {
    hide Fits, WireAll, Numbered, Plain, Continues, Messages;
    ghost var c, sn := a.counter, a.sequence;
    ghost var pad;
    var r;
    r, pad := a.Send(m);
    code, t' := 0, t;
    if r == -1 { return; }
    if r == -3 { return -3, t; }
    ghost var y := Sent(m, pad, c, sn);
    t' := Trace(t.before, t.behind + [y], t.got);
    CrossMore(d, k, t, y, a.counter, a.sequence);
  }

  lemma CrossMore(d: Direction, k: Fresh, t: Trace, y: Sent, counter: nat, sequence: nat)
    requires Numbered(d, t.before) && t.got <= |t.before| && Numbered(Under(d, k), t.behind) && Sendable(Under(d, k), y)
    requires Continues(d, k, t, y.counter, y.sequence)
    requires counter == NextCounter(Under(d, k), y) && sequence == NextSequence(y.sequence)
    ensures Numbered(Under(d, k), t.behind + [y])
    ensures Continues(d, k, Trace(t.before, t.behind + [y], t.got), counter, sequence)
    ensures WireAll(d, t.before[t.got..]) + WireAll(Under(d, k), t.behind + [y])
         == WireAll(d, t.before[t.got..]) + WireAll(Under(d, k), t.behind) + WireOf(Under(d, k), y)
    ensures All(Trace(t.before, t.behind + [y], t.got)) == All(t) + [y.message]
  {
    hide Fits, WireAll, Plain, PadLength;
    var e := Under(d, k);
    LogMore(e, t.behind, y);
    WireMore(e, t.behind, y);
    assert Messages(t.behind + [y]) == Messages(t.behind) + [y.message];
  }

  // ---------------------------------------------------------------------------
  // Receiving
  // ---------------------------------------------------------------------------

  /** The first packet on the stream decodes whatever follows it, other keys included. */
  lemma FrontAcross(d: Direction, log: seq<Sent>, n: nat, rest: seq<Byte>)
    requires d.Ok() && AllSendable(d, log) && n < |log|
    ensures var s, x := WireAll(d, log[n..]) + rest, log[n];
      && Decode(d, x.counter, x.sequence, s) == Packet(x.message, |WireOf(d, x)|)
      && |WireOf(d, x)| <= |s| && s[|WireOf(d, x)|..] == WireAll(d, log[n + 1..]) + rest
  {
    hide WireAll, Decode, Fits, PadLength;
    var x := log[n];
    var w, more := WireOf(d, x), WireAll(d, log[n + 1..]);
    assert log[n..][1..] == log[n + 1..];
    WireFront(d, log[n..]);
    assert w + more + rest == w + (more + rest);
    DecodeWire(d, x.counter, x.sequence, x.message, x.pad, more + rest);
  }

  /** A packet under the old keys while the sender has changed; behind NEWKEYS the receiver changes too. */
  method ReceiveAcross(a: Sender, b: Receiver, ghost d: Direction, k: Fresh, ghost t: Trace)
    returns (code: int, m: Message, taken: bool)
    requires Stands(a, b, d, k, t, true, false) && k.Ok()
    modifies b`sequence, b`counter, b`encrypted, b`key, b`macKey, b.rx, b.iv, b.input
    ensures code in {0, -2, -5, -7}
    ensures b.input.ReadFaulted(old(b.input.writeFaults), old(b.input.readFaults), code != 0)
    ensures code == 0 ==> m == t.before[t.got].message && Stands(a, b, d, k, t.(got := t.got + 1), true, taken)
  {
    hide DecodeRest, Plain, PadLength, WireAll, Fits, CounterAt, SequenceAt;
    FrontAcross(d, t.before, t.got, WireAll(Under(d, k), t.behind));
    taken, m := false, Message(0, []);
    var r := b.Receive();
    if r.Failed? { return r.code, m, taken; }
    code, m := 0, r.message;
    assert Follows(d, t.before, t.got);
    if m.kind == NEWKEYS {
      assert t.got == |t.before| - 1;
      SwitchReceiver(b, k);
      Crossed(d, k, t);
      taken := true;
    }
  }

  /** The last old packet is off the stream: what is left is under the new keys. */
  lemma Crossed(d: Direction, k: Fresh, t: Trace)
    requires AllSendable(d, t.before) && AllSendable(Under(d, k), t.behind)
    ensures WireAll(d, t.before[|t.before|..]) + WireAll(Under(d, k), t.behind) == WireAll(Under(d, k), t.behind[0..])
  {
    assert WireAll(d, []) == [] && t.behind[0..] == t.behind;
  }

  // ---------------------------------------------------------------------------
  // Runs
  // ---------------------------------------------------------------------------

  method SendAfter(a: Sender, b: Receiver, ghost d: Direction, ghost k: Fresh, ghost t: Trace, m: Message)
    returns (code: int, ghost t': Trace)
    requires Stands(a, b, d, k, t, true, true)
    modifies a`sequence, a`counter, a.tx, a.iv, a.output
    ensures code in {0, -3} && (code == 0 ==> Stands(a, b, d, k, t', true, true) && t'.got == t.got)
    ensures a.output.WriteFaulted(old(a.output.writeFaults), old(a.output.readFaults), code == -3)
    ensures code == 0 ==> All(t') == All(t) + if Fits(Under(d, k), m) then [m] else []
  {
    hide Fits, WireAll, UpToDate, Numbered, CounterAt, SequenceAt, Messages;
    ghost var log;
    code, log := SendStep(a, b, Under(d, k), t.behind, t.got - |t.before|, m);
    t' := if code == 0 then Trace(t.before, log, t.got) else t;
  }

  /** One message to send, wherever the conversation stands. */
  method SendOnce(a: Sender, b: Receiver, ghost d: Direction, k: Fresh, ghost t: Trace, m: Message, sent: bool, taken: bool)
    returns (code: int, sent': bool, ghost t': Trace)
    requires Stands(a, b, d, k, t, sent, taken) && k.Ok()
    modifies a`sequence, a`counter, a`encrypted, a`key, a`macKey, a.tx, a.iv, a.output
    ensures code in {0, -3} && (code == 0 ==> Stands(a, b, d, k, t', sent', taken) && t'.got == t.got)
    ensures a.output.WriteFaulted(old(a.output.writeFaults), old(a.output.readFaults), code == -3)
    ensures code == 0 ==> All(t') == All(t) + if Fits(if sent then Under(d, k) else d, m) then [m] else []
  {
    hide Fits, InStep, Crossing, All;
    sent' := sent;
    if !sent {
      code, sent', t' := SendBefore(a, b, d, k, t, m);
    } else if !taken {
      code, t' := SendAcross(a, b, d, k, t, m);
    } else {
      code, t' := SendAfter(a, b, d, k, t, m);
    }
  }

  /** One message to receive, wherever the conversation stands: it is the next of those sent. */
  method ReceiveOnce(a: Sender, b: Receiver, ghost d: Direction, k: Fresh, ghost t: Trace, sent: bool, taken: bool)
    returns (code: int, m: Message, taken': bool)
    requires Stands(a, b, d, k, t, sent, taken) && k.Ok()
    modifies b`sequence, b`counter, b`encrypted, b`key, b`macKey, b.rx, b.iv, b.input
    ensures code in {0, -2, -5, -7}
    ensures b.input.ReadFaulted(old(b.input.writeFaults), old(b.input.readFaults), code != 0)
    ensures code == 0 ==> Stands(a, b, d, k, t.(got := t.got + 1), sent, taken')
    ensures code == 0 ==> t.got < |All(t)| && m == All(t)[t.got]
  {
    hide WireAll, UpToDate, Numbered, CounterAt, SequenceAt, Crossing;
    taken' := taken;
    if !sent {
      code, m := ReceiveStep(a, b, d, t.before, t.got);
    } else if !taken {
      GotBelow(a, b, d, k, t);
      code, m, taken' := ReceiveAcross(a, b, d, k, t);
    } else {
      code, m := ReceiveStep(a, b, Under(d, k), t.behind, t.got - |t.before|);
    }
  }

  lemma GotBelow(a: Sender, b: Receiver, d: Direction, k: Fresh, t: Trace)
    requires Crossing(a, b, d, k, t)
    ensures t.got < |t.before|
  {
  }

  /**
   * Any script of sends and receives across a change of keys, with the stream cut into any pieces, up to the first call
   * that fails.  Every receive step done has received one message, and these are the messages accepted for sending, in
   * order, NEWKEYS and what follows it included.  A call fails exactly when the stream faults in it, never for a check
   * on a packet.
   */
  method Run(a: Sender, b: Receiver, k: Fresh, steps: seq<Step>)
    returns (done: nat, code: int, got: seq<Message>, sent: bool, taken: bool, ghost t: Trace)
    requires InStep(a, b, a.Direct(), [], 0) && k.Ok()
    modifies a`sequence, a`counter, a`encrypted, a`key, a`macKey, a.tx, a.iv, a.output
    modifies b`sequence, b`counter, b`encrypted, b`key, b`macKey, b.rx, b.iv, b.input
    ensures done <= |steps| && (code == 0 <==> done == |steps|) && (code != 0 ==> Blames(code, steps[done]))
    ensures a.output.WriteFaulted(old(a.output.writeFaults), a.output.readFaults, code == -3)
    ensures a.output.ReadFaulted(a.output.writeFaults, old(a.output.readFaults), code in {-2, -5, -7})
    ensures |got| == Receives(steps[..done]) <= |All(t)|
    ensures got == All(t)[..|got|] && All(t) == Sends(old(a.Direct()), k, steps[..done])
    ensures code == 0 ==> t.got == |got| && Stands(a, b, old(a.Direct()), k, t, sent, taken)
    ensures code == 0 ==> (sent <==> Announced(All(t))) && (taken <==> Announced(got))
  {
    hide Fits, InStep, Crossing, Stands, Messages, Announced, Sends, Receives;
    Nothing(a.Direct(), k);
    Starting(a, b, k);
    ghost var d := a.Direct();
    done, code, got, sent, taken, t := 0, 0, [], false, false, Trace([], [], 0);
    while done < |steps|
      invariant done <= |steps| && code == 0 && Stands(a, b, d, k, t, sent, taken)
      invariant t.got == |got| <= |All(t)| && got == All(t)[..|got|] && All(t) == Sends(d, k, steps[..done])
      invariant |got| == Receives(steps[..done]) && a.output == b.input
      invariant a.output.WriteFaulted(old(a.output.writeFaults), old(a.output.readFaults), false)
    {
      OneStep(d, k, steps, done);
      StandsAnnounced(a, b, d, k, t, sent, taken);
      if steps[done].SendOne? {
        ghost var t';
        code, sent, t' := SendOnce(a, b, d, k, t, steps[done].message, sent, taken);
        if code != 0 { return; }
        t := t';
      } else {
        var m;
        code, m, taken := ReceiveOnce(a, b, d, k, t, sent, taken);
        if code != 0 { return; }
        t := t.(got := t.got + 1);
        got := got + [m];
      }
      done := done + 1;
    }
    assert steps[..done] == steps;
    StandsAnnounced(a, b, d, k, t, sent, taken);
    TakenIff(a, b, d, k, t, sent, taken, got);
  }

  lemma Nothing(d: Direction, k: Fresh)
    ensures Sends(d, k, []) == [] && Receives([]) == 0
  {
  }

  lemma OneStep(d: Direction, k: Fresh, steps: seq<Step>, i: nat)
    requires i < |steps|
    ensures var before := Sends(d, k, steps[..i]);
      Sends(d, k, steps[..i + 1]) == before +
        if steps[i].SendOne? && Fits(if Announced(before) then Under(d, k) else d, steps[i].message) then [steps[i].message]
        else []
    ensures Receives(steps[..i + 1]) == Receives(steps[..i]) + if steps[i].ReceiveOne? then 1 else 0
  {
    hide Fits, Announced;
    assert steps[..i + 1][..i] == steps[..i];
  }

  lemma Starting(a: Sender, b: Receiver, k: Fresh)
    requires InStep(a, b, a.Direct(), [], 0)
    ensures a.output == b.input && Stands(a, b, a.Direct(), k, Trace([], [], 0), false, false)
    ensures All(Trace([], [], 0)) == []
  {
  }

  lemma StandsAnnounced(a: Sender, b: Receiver, d: Direction, k: Fresh, t: Trace, sent: bool, taken: bool)
    requires Stands(a, b, d, k, t, sent, taken)
    ensures Announced(All(t)) <==> sent
  {
    hide InStep, Crossing;
    AnnouncedIff(t, sent);
  }

  /** The receiver has changed keys exactly when it has received NEWKEYS. */
  lemma TakenIff(a: Sender, b: Receiver, d: Direction, k: Fresh, t: Trace, sent: bool, taken: bool, got: seq<Message>)
    requires Stands(a, b, d, k, t, sent, taken) && t.got == |got| <= |All(t)| && got == All(t)[..|got|]
    ensures taken <==> Announced(got)
  {
    hide InStep;
    if taken {
      assert got[|t.before| - 1] == t.before[|t.before| - 1].message;
    } else {
      forall i | 0 <= i < |got| ensures got[i].kind != NEWKEYS {
        GotOld(a, b, d, k, t, sent);
        assert got[i] == t.before[i].message;
      }
    }
  }

  lemma GotOld(a: Sender, b: Receiver, d: Direction, k: Fresh, t: Trace, sent: bool)
    requires Stands(a, b, d, k, t, sent, false)
    ensures t.got <= |t.before| && (sent ==> t.got < |t.before|)
  {
  }

  /** When everything sent has been received, both ends stand at the same numbers, under the same keys. */
  lemma SameNumbersAfter(a: Sender, b: Receiver, d: Direction, k: Fresh, t: Trace)
    requires Stands(a, b, d, k, t, true, true) && t.got == |All(t)|
    ensures a.counter == b.counter && a.sequence == b.sequence && a.iv[..] == b.iv[..]
    ensures a.Direct() == b.Direct() == Under(d, k)
  {
    SameNumbers(a, b, t.behind);
  }

  // ---------------------------------------------------------------------------
  // A sender that changes keys late
  // ---------------------------------------------------------------------------

  /** The peer, which changed keys behind NEWKEYS, finds on the stream some packets under the new keys with these messages. */
  ghost predicate Reads(e: Direction, stream: seq<Byte>, ms: seq<Message>, xs: seq<Sent>) {
    AllSendable(e, xs) && Messages(xs) == ms && stream == WireAll(e, xs)
  }

  /**
   * The server keeps the old keys until it processes the client's NEWKEYS.  What it puts on the stream behind its own
   * NEWKEYS, `gap` under the old keys and then `behind` under the new ones, is a stream of these messages under the new
   * keys, for some padding and numbers, exactly when nothing was sent in the gap.
   */
  lemma LateIff(d: Direction, k: Fresh, gap: seq<Sent>, behind: seq<Sent>)
    requires !d.encrypted && AllSendable(d, gap) && AllSendable(Under(d, k), behind)
    ensures (exists xs :: Reads(Under(d, k), WireAll(d, gap) + WireAll(Under(d, k), behind),
                                Messages(gap) + Messages(behind), xs)) <==> gap == []
  {
    hide WireAll, AllSendable, Messages;
    var e := Under(d, k);
    var stream, ms := WireAll(d, gap) + WireAll(e, behind), Messages(gap) + Messages(behind);
    if gap == [] {
      NothingWired(d);
      assert Messages(gap) == [] by { NoMessages(); }
      assert Reads(e, stream, ms, behind);
    }
    forall xs: seq<Sent> | Reads(e, stream, ms, xs) ensures gap == [] { TooLong(d, e, gap, behind, xs); }
  }

  lemma NoMessages()
    ensures Messages([]) == []
  {
  }

  ghost predicate Carry(xs: seq<Sent>, ys: seq<Sent>) {
    |xs| == |ys| && forall i :: 0 <= i < |xs| ==> xs[i].message == ys[i].message
  }

  lemma TooLong(d: Direction, e: Direction, gap: seq<Sent>, behind: seq<Sent>, xs: seq<Sent>)
    requires AllSendable(d, gap) && AllSendable(e, behind) && AllSendable(e, xs) && !d.encrypted && e.encrypted
    requires Messages(xs) == Messages(gap) + Messages(behind)
    ensures gap != [] ==> |WireAll(e, xs)| > |WireAll(d, gap)| + |WireAll(e, behind)|
  {
    hide WireAll, Fits, PadLength, Sendable;
    CarryParts(gap, behind, xs);
    var n := |gap|;
    LongerWired(d, e, gap, xs[..n]);
    SameWired(e, behind, xs[n..]);
    JoinWired(e, xs, n);
  }

  lemma CarryParts(gap: seq<Sent>, behind: seq<Sent>, xs: seq<Sent>)
    requires Messages(xs) == Messages(gap) + Messages(behind)
    ensures |xs| == |gap| + |behind| && Carry(gap, xs[..|gap|]) && Carry(behind, xs[|gap|..])
  {
    var ms, n := Messages(xs), |gap|;
    assert |ms| == |xs|;
    forall i | 0 <= i < n ensures gap[i].message == xs[..n][i].message { assert ms[i] == gap[i].message; }
    forall i | 0 <= i < |behind| ensures behind[i].message == xs[n..][i].message { assert ms[n + i] == behind[i].message; }
  }

  lemma NothingWired(d: Direction)
    ensures WireAll(d, []) == []
  {
  }

  lemma WiredLength(d: Direction, x: Sent)
    requires Sendable(d, x)
    ensures |WireOf(d, x)| == 6 + |x.message.payload| + PadLength(d.BlockSize(), |x.message.payload|) + d.MacLen()
  {
  }

  /** A packet is longer under the new keys, by its MAC at least. */
  lemma {:induction false} LongerWired(d: Direction, e: Direction, xs: seq<Sent>, ys: seq<Sent>)
    requires AllSendable(d, xs) && AllSendable(e, ys) && !d.encrypted && e.encrypted
    requires Carry(xs, ys)
    ensures |WireAll(d, xs)| + 32 * |xs| <= |WireAll(e, ys)|
  {
    hide WireAll, Fits, PadLength;
    if xs == [] {
      NothingWired(d);
    } else {
      var n := |xs| - 1;
      LongerWired(d, e, xs[..n], ys[..n]);
      assert xs == xs[..n] + [xs[n]] && ys == ys[..n] + [ys[n]];
      WireMore(d, xs[..n], xs[n]);
      WireMore(e, ys[..n], ys[n]);
      WiredLength(d, xs[n]);
      WiredLength(e, ys[n]);
      PadGrows(|xs[n].message.payload|);
    }
  }

  lemma PadGrows(n: nat)
    ensures PadLength(8, n) <= PadLength(16, n)
  {
  }

  lemma {:induction false} SameWired(e: Direction, xs: seq<Sent>, ys: seq<Sent>)
    requires AllSendable(e, xs) && AllSendable(e, ys)
    requires Carry(xs, ys)
    ensures |WireAll(e, xs)| == |WireAll(e, ys)|
  {
    hide WireAll, Fits, PadLength;
    if xs == [] {
      NothingWired(e);
    } else {
      var n := |xs| - 1;
      SameWired(e, xs[..n], ys[..n]);
      assert xs == xs[..n] + [xs[n]] && ys == ys[..n] + [ys[n]];
      WireMore(e, xs[..n], xs[n]);
      WireMore(e, ys[..n], ys[n]);
      WiredLength(e, xs[n]);
      WiredLength(e, ys[n]);
    }
  }

  lemma {:induction false} JoinWired(e: Direction, xs: seq<Sent>, n: nat)
    requires AllSendable(e, xs) && n <= |xs|
    ensures WireAll(e, xs) == WireAll(e, xs[..n]) + WireAll(e, xs[n..])
  {
    hide WireAll, Fits, PadLength;
    if n == 0 {
      NothingWired(e);
      assert xs[..0] == [] && xs[0..] == xs;
    } else {
      WireFront(e, xs);
      WireFront(e, xs[..n]);
      JoinWired(e, xs[1..], n - 1);
      assert xs[..n][1..] == xs[1..][..n - 1] && xs[1..][n - 1..] == xs[n..];
    }
  }
}
