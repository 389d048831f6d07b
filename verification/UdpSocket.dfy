/** udp_input and the datagram half of recvfrom over the ring. */
module UdpSocket {
  import opened Bytes
  import opened Circular
  import opened UdpRing

  /** sockaddr_in: family, port and address in network order, zeros. */
  function Address(port: seq<Byte>, ip: seq<Byte>): (r: seq<Byte>)
    requires |port| == 2 && |ip| == 4
    ensures |r| == 16
  {
    [2, 0] + port + ip + [0, 0, 0, 0, 0, 0, 0, 0]
  }

  /** The length field of a UDP header. */
  function LengthField(data: seq<Byte>): nat
    requires |data| >= 8
  {
    256 * (data[4] as int) + data[5]
  }

  predicate WellFormed(data: seq<Byte>) { |data| >= 8 && 8 <= LengthField(data) <= |data| }

  function Parsed(data: seq<Byte>, ip: seq<Byte>): Datagram
    requires WellFormed(data) && |ip| == 4
  {
    Datagram(Address(data[..2], ip), data[8..LengthField(data)])
  }

  class Socket {
    const ring: Ring
    ghost var queue: seq<Datagram>

    ghost predicate Valid()
      reads this, ring, ring.buffer
    {
      ring.Valid() && ring.contents == Concat(Records(queue)) && forall i :: 0 <= i < |queue| ==> Fine(queue[i])
    }

    constructor (size: nat)
      requires 0 < size <= 0x8000_0000
      ensures Valid() && queue == [] && fresh(ring) && fresh(ring.buffer) && ring.size == size
    {
      ring := new Ring(size);
      queue := [];
    }

    /** A datagram is queued whole or dropped whole, and dropped exactly when its record does not fit. */
    method Input(data: seq<Byte>, ip: seq<Byte>) returns (code: int)
      requires Valid() && |ip| == 4
      modifies this, ring, ring.buffer
      ensures Valid()
      ensures |data| < 8 <==> code == -1
      ensures |data| >= 8 && !WellFormed(data) <==> code == -2
      ensures code == -3 <==>
        WellFormed(data) && |old(ring.contents)| + |Record(Parsed(data, ip))| > ring.size - 1
      ensures code == 0 <==> WellFormed(data) && code != -3
      ensures queue == if code == 0 then old(queue) + [Parsed(data, ip)] else old(queue)
    {
      hide Concat, Records;
      if |data| < 8 { return -1; }
      var n := 256 * (data[4] as int) + data[5];
      if n > |data| || n < 8 { return -2; }
      var length := n - 8;
      var room := ring.Room();
      if room < 20 + length { return -3; }
      ghost var d := Parsed(data, ip);
      ring.PushAll(WordBytes(length));
      ring.PushAll(Address(data[..2], ip));
      ring.PushAll(data[8..n]);
      Laid(old(ring.contents), length, data, ip);
      RecordsMore(queue, d);
      queue := queue + [d];
      code := 0;
    }

    /** The oldest datagram, cut to `len` bytes, with the rest of it discarded. */
    method Receive(len: nat) returns (source: seq<Byte>, data: seq<Byte>)
      requires Valid() && queue != [] && len > 0
      modifies this, ring
      ensures Valid() && queue == old(queue)[1..]
      ensures source == old(queue)[0].source
      ensures data == old(queue)[0].payload[..Min(len, |old(queue)[0].payload|)]
    {
      hide Concat, Records, Record, WordBytes, Word;
      RecordsFront(queue);
      ghost var d, rest := queue[0], Concat(Records(queue[1..]));
      assert Fine(d);
      RecordParts(d, rest);
      var word := ring.PopAll(4);
      WordOfBytes(|d.payload|);
      var n := Word(word, 0);
      source := ring.PopAll(16);
      var limit := if n < len then n else len;
      data := ring.PopAll(limit);
      if limit < n { ring.Skip(n - limit); }
      Rest(d.payload, rest, limit);
      queue := queue[1..];
    }
  }

  lemma Rest(payload: seq<Byte>, rest: seq<Byte>, limit: nat)
    requires limit <= |payload|
    ensures (payload + rest)[..limit] == payload[..limit]
    ensures (payload + rest)[limit..][|payload| - limit..] == rest
    ensures limit == |payload| ==> (payload + rest)[limit..] == rest
  {
  }

  lemma Laid(was: seq<Byte>, length: nat, data: seq<Byte>, ip: seq<Byte>)
    requires WellFormed(data) && |ip| == 4 && length == LengthField(data) - 8
    ensures was + WordBytes(length) + Address(data[..2], ip) + data[8..length + 8] == was + Record(Parsed(data, ip))
  {
  }

  // ---------------------------------------------------------------------------
  // Runs over a plain queue of datagrams
  // ---------------------------------------------------------------------------

  type Ip = b: seq<Byte> | |b| == 4 witness [0, 0, 0, 0]

  datatype Event = Arrive(data: seq<Byte>, ip: Ip) | Ask(len: nat)

  datatype Answer = Code(code: int) | Got(source: seq<Byte>, data: seq<Byte>) | Waits

  /** What a caller that asks for `len` bytes sees of a datagram. */
  function Seen(d: Datagram, len: nat): Answer { Got(d.source, d.payload[..Min(len, |d.payload|)]) }

  /** The bytes a queue takes up: 20 and the payload for each datagram. */
  function Taken(q: seq<Datagram>): nat {
    if q == [] then 0 else Taken(q[..|q| - 1]) + 20 + |q[|q| - 1].payload|
  }

  /** What an arrival or a receive call answers with `cap` bytes for records, and the queue behind it. */
  function Answered(cap: nat, q: seq<Datagram>, e: Event): (Answer, seq<Datagram>) {
    match e
    case Arrive(data, ip) =>
      if |data| < 8 then (Code(-1), q)
      else if !WellFormed(data) then (Code(-2), q)
      else if Taken(q + [Parsed(data, ip)]) > cap then (Code(-3), q)
      else (Code(0), q + [Parsed(data, ip)])
    case Ask(len) =>
      if len == 0 then (Code(-1), q)
      else if q == [] then (Waits, q)
      else (Seen(q[0], len), q[1..])
  }

  /** The answers to a run of events, and the queue at its end. */
  function Played(cap: nat, q: seq<Datagram>, events: seq<Event>): (r: (seq<Answer>, seq<Datagram>))
    ensures |r.0| == |events|
  {
    if events == [] then ([], q)
    else
      var n := |events| - 1;
      var before := Played(cap, q, events[..n]);
      var last := Answered(cap, before.1, events[n]);
      (before.0 + [last.0], last.1)
  }

  lemma {:induction false} TakenIs(q: seq<Datagram>)
    requires forall i :: 0 <= i < |q| ==> Fine(q[i])
    ensures Taken(q) == |Concat(Records(q))|
  {
    hide Concat, Records;
    if q == [] {
      NoRecords();
    } else {
      var n := |q| - 1;
      TakenIs(q[..n]);
      RecordsMore(q[..n], q[n]);
      assert q[..n] + [q[n]] == q;
    }
  }

  lemma NoRecords()
    ensures Concat(Records([])) == []
  {
  }

  /** Any run on the socket answers, and leaves the queue, as the plain queue does. */
  method Run(s: Socket, events: seq<Event>) returns (answers: seq<Answer>)
    requires s.Valid()
    modifies s, s.ring, s.ring.buffer
    ensures s.Valid() && (answers, s.queue) == Played(s.ring.size - 1, old(s.queue), events)
  {
    hide Concat, Records, Answered;
    answers := [];
    ghost var q, cap := s.queue, s.ring.size - 1;
    for i := 0 to |events|
      invariant s.Valid() && (answers, s.queue) == Played(cap, q, events[..i])
    {
      assert events[..i + 1][..i] == events[..i];
      var a := Handle(s, events[i]);
      answers := answers + [a];
    }
    assert events[..|events|] == events;
  }

  method Handle(s: Socket, e: Event) returns (a: Answer)
    requires s.Valid()
    modifies s, s.ring, s.ring.buffer
    ensures s.Valid() && (a, s.queue) == Answered(s.ring.size - 1, old(s.queue), e)
  {
    hide Concat, Records, Record, Address;
    match e {
      case Arrive(data, ip) =>
        TakenIs(s.queue);
        if WellFormed(data) { TakenMore(s.queue, Parsed(data, ip)); }
        var code := s.Input(data, ip);
        a := Code(code);
      case Ask(len) =>
        if len == 0 { return Code(-1); }
        EmptyIff(s);
        if s.ring.head == s.ring.tail { return Waits; }
        var source, data := s.Receive(len);
        a := Got(source, data);
    }
  }

  lemma TakenMore(q: seq<Datagram>, d: Datagram)
    ensures Taken(q + [d]) == Taken(q) + 20 + |d.payload|
  {
    assert (q + [d])[..|q|] == q;
  }

  lemma EmptyIff(s: Socket)
    requires s.Valid()
    ensures s.ring.head == s.ring.tail <==> s.queue == []
  {
    if s.queue != [] { RecordsFront(s.queue); }
  }

  /** The datagrams that were accepted, oldest first. */
  function Accepted(events: seq<Event>, answers: seq<Answer>): seq<Datagram>
    requires |events| == |answers|
  {
    if events == [] then []
    else
      var n := |events| - 1;
      Accepted(events[..n], answers[..n])
      + if events[n].Arrive? && answers[n] == Code(0) && WellFormed(events[n].data)
        then [Parsed(events[n].data, events[n].ip)] else []
  }

  /** The receive calls that were answered, with the length each asked for, oldest first. */
  function Received(events: seq<Event>, answers: seq<Answer>): seq<(nat, Answer)>
    requires |events| == |answers|
  {
    if events == [] then []
    else
      var n := |events| - 1;
      Received(events[..n], answers[..n])
      + if events[n].Ask? && answers[n].Got? then [(events[n].len, answers[n])] else []
  }

  /** The k-th answered call sees the k-th accepted datagram, and the queue holds the accepted ones not yet seen. */
  ghost predicate InOrder(accepted: seq<Datagram>, received: seq<(nat, Answer)>, q: seq<Datagram>) {
    && |received| <= |accepted| && q == accepted[|received|..]
    && forall k :: 0 <= k < |received| ==> received[k].1 == Seen(accepted[k], received[k].0)
  }

  lemma {:induction false} Fifo(cap: nat, events: seq<Event>)
    ensures var r := Played(cap, [], events); InOrder(Accepted(events, r.0), Received(events, r.0), r.1)
  {
    hide Answered, Seen;
    if events != [] {
      var n := |events| - 1;
      var before := Played(cap, [], events[..n]);
      var last := Answered(cap, before.1, events[n]);
      Fifo(cap, events[..n]);
      assert (before.0 + [last.0])[..n] == before.0;
      FifoStep(cap, Accepted(events[..n], before.0), Received(events[..n], before.0), before.1, events[n]);
    }
  }

  lemma FifoStep(cap: nat, accepted: seq<Datagram>, received: seq<(nat, Answer)>, q: seq<Datagram>, e: Event)
    requires InOrder(accepted, received, q)
    ensures var r := Answered(cap, q, e);
      var more := if e.Arrive? && r.0 == Code(0) && WellFormed(e.data) then [Parsed(e.data, e.ip)] else [];
      var seen := if e.Ask? && r.0.Got? then [(e.len, r.0)] else [];
      InOrder(accepted + more, received + seen, r.1)
  {
    hide Taken, Address;
  }
}
