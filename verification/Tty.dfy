/** The input queue of a terminal with the canonical mode fixed. */
module Tty {
  import opened Bytes
  import opened Circular

  const CR: Byte := 13
  const NL: Byte := 10

  function Mapped(s: seq<Byte>): (r: seq<Byte>)
    ensures |r| == |s|
  {
    seq<Byte>(|s|, i requires 0 <= i < |s| => if s[i] == CR then NL else s[i])
  }

  function Newlines(s: seq<Byte>): nat {
    if s == [] then 0 else Newlines(s[..|s| - 1]) + if s[|s| - 1] == NL then 1 else 0
  }

  lemma {:induction false} NewlinesFront(s: seq<Byte>)
    requires s != []
    ensures Newlines(s) == (if s[0] == NL then 1 else 0) + Newlines(s[1..])
  {
    var n := |s| - 1;
    if n > 0 {
      NewlinesFront(s[..n]);
      assert s[1..][..n - 1] == s[..n][1..];
    }
  }

  lemma {:induction false} SomeNewline(s: seq<Byte>)
    ensures Newlines(s) > 0 <==> NL in s
  {
    if s != [] {
      SomeNewline(s[..|s| - 1]);
      assert s == s[..|s| - 1] + [s[|s| - 1]];
    }
  }

  class Device {
    const input: Ring
    const output: Ring
    const canonical: bool
    const echo: bool
    var raw: nat
    var lines: nat

    ghost predicate Valid()
      reads this, input, input.buffer, output, output.buffer
    {
      && input.Valid() && output.Valid() && input != output && input.buffer != output.buffer
      && raw == |input.contents| && lines == if canonical then Newlines(input.contents) else 0
    }

    constructor (size: nat, canonical: bool, echo: bool)
      requires 0 < size <= 0x8000_0000
      ensures Valid() && input.contents == [] && output.contents == [] && input.size == size && output.size == size
      ensures fresh(input) && fresh(input.buffer) && fresh(output) && fresh(output.buffer)
      ensures this.canonical == canonical && this.echo == echo
    {
      input := new Ring(size);
      output := new Ring(size);
      this.canonical, this.echo, raw, lines := canonical, echo, 0, 0;
    }

    /** tty_put_queue: dropped when the output queue is full. */
    method Echo(c: Byte)
      requires Valid()
      modifies output, output.buffer
      ensures Valid()
      ensures output.contents == old(output.contents) + if |old(output.contents)| < output.size - 1 then [c] else []
    {
      var full := output.Full();
      if !full { output.Push(c); }
    }

    /** One character into the input queue, unless it is full. */
    method Put(b: Byte) returns (ok: bool)
      requires Valid()
      modifies this, input, input.buffer, output, output.buffer
      ensures Valid() && (ok <==> |old(input.contents)| < input.size - 1)
      ensures input.contents == old(input.contents) + if ok then Mapped([b]) else []
      ensures output.contents == old(output.contents)
        + if ok && echo && |old(output.contents)| < output.size - 1 then Mapped([b]) else []
    {
      hide Newlines, Mapped;
      var c := if b == CR then NL else b;
      MappedOne(b);
      NewlinesMore(input.contents, c);
      var full := input.Full();
      if full { return false; }
      input.Push(c);
      raw := raw + 1;
      if canonical && c == NL { lines := lines + 1; }
      if echo { Echo(c); }
      ok := true;
    }

    /** tty_write_to_in_queue: as much as fits, carriage returns stored as newlines; the echo keeps what fits. */
    method Write(data: seq<Byte>) returns (n: nat)
      requires Valid()
      modifies this, input, input.buffer, output, output.buffer
      ensures Valid() && n == Min(|data|, input.size - 1 - |old(input.contents)|)
      ensures input.contents == old(input.contents) + Mapped(data[..n])
      ensures echo ==>
        output.contents == old(output.contents) + Mapped(data[..Min(n, output.size - 1 - |old(output.contents)|)])
      ensures !echo ==> output.contents == old(output.contents)
    {
      hide Newlines;
      n := 0;
      ghost var room := output.size - 1 - |output.contents|;
      while n < |data|
        invariant Valid() && n <= |data| && n <= input.size - 1 - |old(input.contents)|
        invariant input.contents == old(input.contents) + Mapped(data[..n])
        invariant echo ==> output.contents == old(output.contents) + Mapped(data[..Min(n, room)])
        invariant !echo ==> output.contents == old(output.contents)
      {
        MappedMore(data, n);
        var ok := Put(data[n]);
        if !ok { return; }
        n := n + 1;
      }
    }

    /** Whether a read returns at once rather than waits. */
    predicate Ready()
      reads this
    {
      if canonical then lines > 0 else raw > 0
    }

    /** tty_read_from_in_queue once its wait is over: at least one byte, up to the first newline or the size asked. */
    method Read(size: nat) returns (data: seq<Byte>)
      requires Valid() && Ready() && size > 0
      modifies this, input
      ensures Valid() && old(input.contents) == data + input.contents && 1 <= |data| <= size
      ensures canonical ==> forall i :: 0 <= i < |data| - 1 ==> data[i] != NL
      ensures canonical ==> |data| == size || data[|data| - 1] == NL
      ensures !canonical ==> |data| == Min(size, |old(input.contents)|)
    {
      hide Newlines, Ring.Valid;
      data := [];
      SomeNewline(input.contents);
      ghost var all := input.contents;
      var empty := Drained();
      while !empty && |data| < size
        invariant Valid() && all == data + input.contents && |data| <= size && (empty <==> input.contents == [])
        invariant canonical ==> forall i :: 0 <= i < |data| ==> data[i] != NL
        decreases size - |data|
      {
        var c := Get();
        data := data + [c];
        if canonical && c == NL { return; }
        empty := Drained();
      }
      if |data| < size {
        assert all == data;
      }
    }

    /** Nothing is left in the input queue. */
    method Drained() returns (empty: bool)
      requires Valid()
      ensures empty <==> input.contents == []
    {
      hide Newlines;
      empty := input.tail == input.head;
    }

    /** One character off the input queue. */
    method Get() returns (c: Byte)
      requires Valid() && input.contents != []
      modifies this, input
      ensures Valid() && old(input.contents) == [c] + input.contents
    {
      NewlinesFront(input.contents);
      c := input.Pop();
      raw := raw - 1;
      if canonical && c == NL && lines > 0 { lines := lines - 1; }
    }
  }

  lemma MappedOne(b: Byte)
    ensures Mapped([b]) == [if b == CR then NL else b]
  {
  }

  lemma NewlinesMore(s: seq<Byte>, c: Byte)
    ensures Newlines(s + [c]) == Newlines(s) + if c == NL then 1 else 0
  {
    assert (s + [c])[..|s|] == s;
  }

  lemma MappedMore(data: seq<Byte>, n: nat)
    requires n < |data|
    ensures Mapped(data[..n + 1]) == Mapped(data[..n]) + Mapped([data[n]])
  {
  }

  // ---------------------------------------------------------------------------
  // Runs over a plain queue of `cap` bytes
  // ---------------------------------------------------------------------------

  datatype Event = In(data: seq<Byte>) | Out(size: nat)

  datatype Answer = Took(n: nat) | Gave(data: seq<Byte>) | Waits

  predicate Readable(canonical: bool, q: seq<Byte>) { if canonical then NL in q else q != [] }

  /** How much one read takes: up to the size asked, and in canonical mode up to the first newline. */
  function Front(canonical: bool, q: seq<Byte>, size: nat): (k: nat)
    ensures k <= |q|
  {
    if size == 0 || q == [] then 0
    else if canonical && q[0] == NL then 1
    else 1 + Front(canonical, q[1..], size - 1)
  }

  /** What a write or a read answers, and the queue behind it; a read that has to wait leaves it alone. */
  function Answered(cap: nat, canonical: bool, q: seq<Byte>, e: Event): (r: (Answer, seq<Byte>))
    requires |q| <= cap
    ensures |r.1| <= cap
  {
    match e
    case In(data) =>
      var n := Min(|data|, cap - |q|);
      (Took(n), q + Mapped(data[..n]))
    case Out(size) =>
      if size == 0 then (Gave([]), q)
      else if !Readable(canonical, q) then (Waits, q)
      else var k := Front(canonical, q, size); (Gave(q[..k]), q[k..])
  }

  /** The answers to a run of events, and the queue at its end. */
  function Played(cap: nat, canonical: bool, q: seq<Byte>, events: seq<Event>): (r: (seq<Answer>, seq<Byte>))
    requires |q| <= cap
    ensures |r.0| == |events| && |r.1| <= cap
  {
    if events == [] then ([], q)
    else
      var n := |events| - 1;
      var before := Played(cap, canonical, q, events[..n]);
      var last := Answered(cap, canonical, before.1, events[n]);
      (before.0 + [last.0], last.1)
  }

  lemma {:induction false} FrontIs(canonical: bool, q: seq<Byte>, size: nat, k: nat)
    requires k <= |q| && k <= size && (size > 0 && q != [] ==> k > 0)
    requires canonical ==> forall i :: 0 <= i < k - 1 ==> q[i] != NL
    requires k == size || k == |q| || (canonical && k > 0 && q[k - 1] == NL)
    requires canonical && k > 0 && k < size && k < |q| ==> q[k - 1] == NL
    ensures k == Front(canonical, q, size)
  {
    if size > 0 && q != [] && !(canonical && q[0] == NL) {
      if k > 1 || size == 1 || |q| == 1 { FrontIs(canonical, q[1..], size - 1, k - 1); }
    }
  }

  /** Any run on the device answers, and leaves the queue, as the plain queue does. */
  method Run(d: Device, events: seq<Event>) returns (answers: seq<Answer>)
    requires d.Valid()
    modifies d, d.input, d.input.buffer, d.output, d.output.buffer
    ensures d.Valid() && |old(d.input.contents)| <= d.input.size - 1
    ensures (answers, d.input.contents) == Played(d.input.size - 1, d.canonical, old(d.input.contents), events)
  {
    hide Newlines, Answered;
    answers := [];
    ghost var q, cap := d.input.contents, d.input.size - 1;
    QueueFits(d);
    for i := 0 to |events|
      invariant d.Valid() && (answers, d.input.contents) == Played(cap, d.canonical, q, events[..i])
    {
      assert events[..i + 1][..i] == events[..i];
      var a := Handle(d, events[i]);
      answers := answers + [a];
    }
    assert events[..|events|] == events;
  }

  lemma QueueFits(d: Device)
    requires d.Valid()
    ensures |d.input.contents| <= d.input.size - 1
  {
  }

  method Handle(d: Device, e: Event) returns (a: Answer)
    requires d.Valid()
    modifies d, d.input, d.input.buffer, d.output, d.output.buffer
    ensures d.Valid() && |old(d.input.contents)| <= d.input.size - 1
    ensures (a, d.input.contents) == Answered(d.input.size - 1, d.canonical, old(d.input.contents), e)
  {
    hide Newlines, Front;
    QueueFits(d);
    ghost var q := d.input.contents;
    SomeNewline(q);
    match e {
      case In(data) =>
        var n := d.Write(data);
        a := Took(n);
      case Out(size) =>
        if size == 0 {
          a := Gave([]);
        } else if !d.Ready() {
          a := Waits;
        } else {
          var data := d.Read(size);
          ReadFront(d.canonical, q, data, d.input.contents, size);
          a := Gave(data);
        }
    }
  }

  lemma ReadFront(canonical: bool, q: seq<Byte>, data: seq<Byte>, rest: seq<Byte>, size: nat)
    requires q == data + rest && 1 <= |data| <= size
    requires canonical ==> forall i :: 0 <= i < |data| - 1 ==> data[i] != NL
    requires canonical ==> |data| == size || data[|data| - 1] == NL
    requires !canonical ==> |data| == Min(size, |q|)
    ensures var k := Front(canonical, q, size); data == q[..k] && rest == q[k..]
  {
    hide Front;
    FrontIs(canonical, q, size, |data|);
  }

  /** All the bytes reads gave. */
  function Given(answers: seq<Answer>): seq<Byte> {
    if answers == [] then []
    else
      var n := |answers| - 1;
      Given(answers[..n]) + if answers[n].Gave? then answers[n].data else []
  }

  /** All the bytes writes took. */
  function Accepted(events: seq<Event>, answers: seq<Answer>): seq<Byte>
    requires |events| == |answers|
  {
    if events == [] then []
    else
      var n := |events| - 1;
      Accepted(events[..n], answers[..n])
      + if events[n].In? && answers[n].Took? && answers[n].n <= |events[n].data| then events[n].data[..answers[n].n] else []
  }

  /** Nothing is lost, doubled or reordered: what was read and what is queued are what was there and what was taken. */
  lemma {:induction false} Conserved(cap: nat, canonical: bool, q: seq<Byte>, events: seq<Event>)
    requires |q| <= cap
    ensures var r := Played(cap, canonical, q, events); Given(r.0) + r.1 == q + Mapped(Accepted(events, r.0))
  {
    hide Answered, Given, Accepted, Mapped;
    if events == [] {
      NothingConserved(q);
    } else {
      var n := |events| - 1;
      var before := Played(cap, canonical, q, events[..n]);
      var last := Answered(cap, canonical, before.1, events[n]);
      Conserved(cap, canonical, q, events[..n]);
      NextSums(events, before.0, last.0);
      ConservedStep(cap, canonical, q, Given(before.0), Accepted(events[..n], before.0), before.1, events[n]);
    }
  }

  lemma NothingConserved(q: seq<Byte>)
    ensures Given([]) + q == q + Mapped(Accepted([], []))
  {
    assert Mapped([]) == [];
  }

  /** What one more answer adds to what was given and taken. */
  lemma NextSums(events: seq<Event>, answers: seq<Answer>, last: Answer)
    requires |events| == |answers| + 1
    ensures var e, got, taken := events[|answers|], Given(answers), Accepted(events[..|answers|], answers);
      && Given(answers + [last]) == (if last.Gave? then got + last.data else got)
      && Accepted(events, answers + [last])
         == if e.In? && last.Took? && last.n <= |e.data| then taken + e.data[..last.n] else taken
  {
    hide Mapped;
    assert (answers + [last])[..|answers|] == answers;
  }

  lemma ConservedStep(cap: nat, canonical: bool, q: seq<Byte>, got: seq<Byte>, taken: seq<Byte>, p: seq<Byte>, e: Event)
    requires |p| <= cap && got + p == q + Mapped(taken)
    ensures var r := Answered(cap, canonical, p, e);
      && (r.0.Took? ==> e.In? && r.0.n <= |e.data| && got + r.1 == q + Mapped(taken + e.data[..r.0.n]))
      && (r.0.Gave? ==> e.Out? && got + r.0.data + r.1 == q + Mapped(taken))
      && (r.0.Waits? ==> e.Out? && got + r.1 == q + Mapped(taken))
  {
    hide Mapped, Front;
    var r := Answered(cap, canonical, p, e);
    match e {
      case In(data) =>
        MappedJoin(taken, data[..r.0.n]);
        assert got + (p + Mapped(data[..r.0.n])) == got + p + Mapped(data[..r.0.n]);
        assert q + Mapped(taken) + Mapped(data[..r.0.n]) == q + (Mapped(taken) + Mapped(data[..r.0.n]));
      case Out(size) =>
        if r.0.Gave? { assert got + r.0.data + r.1 == got + (r.0.data + r.1) && r.0.data + r.1 == p; }
    }
  }

  lemma MappedJoin(a: seq<Byte>, b: seq<Byte>)
    ensures Mapped(a + b) == Mapped(a) + Mapped(b)
  {
  }

  // ---------------------------------------------------------------------------
  // The queue that jams
  // ---------------------------------------------------------------------------

  /** Full, and no newline in it. */
  predicate Jammed(cap: nat, q: seq<Byte>) { |q| == cap && NL !in q }

  /** A write of something takes nothing, and a read of something waits. */
  predicate Refuses(cap: nat, q: seq<Byte>, e: Event)
    requires |q| <= cap
  {
    match e
    case In(data) => data != [] ==> Answered(cap, true, q, e) == (Took(0), q)
    case Out(size) => size > 0 ==> Answered(cap, true, q, e) == (Waits, q)
  }

  /** A canonical device refuses every write and every read exactly when its queue is full without a newline. */
  lemma JammedIff(cap: nat, q: seq<Byte>)
    requires |q| <= cap
    ensures Jammed(cap, q) <==> forall e :: Refuses(cap, q, e)
  {
    if Jammed(cap, q) {
      forall e ensures Refuses(cap, q, e) { JamRefuses(cap, q, e); }
    } else if |q| < cap {
      assert !Refuses(cap, q, In([0]));
    } else {
      assert !Refuses(cap, q, Out(1));
    }
  }

  lemma JamRefuses(cap: nat, q: seq<Byte>, e: Event)
    requires Jammed(cap, q)
    ensures Refuses(cap, q, e) && Answered(cap, true, q, e).1 == q
  {
    assert q + Mapped([]) == q;
    if e.In? { assert e.data[..0] == []; }
  }

  /** No run of events gets it going again. */
  lemma {:induction false} JammedForever(cap: nat, q: seq<Byte>, events: seq<Event>)
    requires Jammed(cap, q)
    ensures var r := Played(cap, true, q, events);
      r.1 == q && Given(r.0) == [] && forall i :: 0 <= i < |events| ==> r.0[i] in {Took(0), Waits, Gave([])}
  {
    hide Answered;
    if events != [] {
      var n := |events| - 1;
      JammedForever(cap, q, events[..n]);
      JamRefuses(cap, q, events[n]);
      JamAnswer(cap, q, events[n]);
      var before := Played(cap, true, q, events[..n]).0;
      assert (before + [Answered(cap, true, q, events[n]).0])[..n] == before;
    }
  }

  lemma JamAnswer(cap: nat, q: seq<Byte>, e: Event)
    requires Jammed(cap, q)
    ensures Answered(cap, true, q, e).0 in {Took(0), Waits, Gave([])}
  {
  }

  /** A write that fills the queue with no newline in it or in what was there. */
  predicate Jams(cap: nat, q: seq<Byte>, e: Event)
    requires |q| <= cap
  {
    e.In? && |q| + |e.data| >= cap && NL !in q && NL !in e.data[..cap - |q|] && CR !in e.data[..cap - |q|]
  }

  lemma JamsIff(cap: nat, q: seq<Byte>, e: Event)
    requires |q| <= cap && !Jammed(cap, q)
    ensures Jammed(cap, Answered(cap, true, q, e).1) <==> Jams(cap, q, e)
  {
    hide Front;
    var r := Answered(cap, true, q, e);
    if e.In? {
      MappedNewline(e.data[..r.0.n]);
    } else if r.0.Gave? && e.size > 0 {
      FrontSome(true, q, e.size);
    }
  }

  lemma MappedNewline(s: seq<Byte>)
    ensures NL in Mapped(s) <==> NL in s || CR in s
  {
    var m := Mapped(s);
    if NL in m {
      var i :| 0 <= i < |m| && m[i] == NL;
      assert s[i] == NL || s[i] == CR;
    }
    if NL in s {
      var i :| 0 <= i < |s| && s[i] == NL;
      assert m[i] == NL;
    }
    if CR in s {
      var i :| 0 <= i < |s| && s[i] == CR;
      assert m[i] == NL;
    }
  }

  lemma FrontSome(canonical: bool, q: seq<Byte>, size: nat)
    requires size > 0 && q != []
    ensures Front(canonical, q, size) > 0
  {
  }

  /** A run jams the device exactly when one of its writes does. */
  lemma {:induction false} RunJamsIff(cap: nat, q: seq<Byte>, events: seq<Event>)
    requires |q| <= cap && !Jammed(cap, q)
    ensures Jammed(cap, Played(cap, true, q, events).1)
       <==> exists k :: 0 <= k < |events| && JamsAt(cap, q, events, k)
  {
    hide Answered, Jams;
    if events != [] {
      var n := |events| - 1;
      var before := Played(cap, true, q, events[..n]).1;
      RunJamsIff(cap, q, events[..n]);
      assert JamsAt(cap, q, events, n) <==> Jams(cap, before, events[n]);
      if Jammed(cap, before) {
        JamRefuses(cap, before, events[n]);
        var k :| 0 <= k < n && JamsAt(cap, q, events[..n], k);
        assert events[..n][..k] == events[..k];
        assert JamsAt(cap, q, events, k);
      } else {
        JamsIff(cap, before, events[n]);
        forall k | 0 <= k < n ensures !JamsAt(cap, q, events, k) {
          assert events[..n][..k] == events[..k];
          assert !JamsAt(cap, q, events[..n], k);
        }
      }
    }
  }

  predicate JamsAt(cap: nat, q: seq<Byte>, events: seq<Event>, k: nat)
    requires |q| <= cap && k < |events|
  {
    Jams(cap, Played(cap, true, q, events[..k]).1, events[k])
  }

  /** From an empty queue, one line as long as the queue is enough. */
  lemma JamReached(cap: nat, line: seq<Byte>)
    requires |line| == cap > 0 && NL !in line && CR !in line
    ensures Jammed(cap, Played(cap, true, [], [In(line)]).1)
  {
    var e := In(line);
    assert [e][..0] == [];
    assert line[..cap] == line;
    JamsIff(cap, [], e);
  }
}
