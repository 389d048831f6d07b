/** The receive ring of a datagram socket: records in a circular buffer behave as a queue of datagrams. */
module UdpRing {
  import opened Bytes

  datatype Datagram = Datagram(source: seq<Byte>, payload: seq<Byte>)

  /** Length, source address and payload, as they lie in the ring. */
  function Record(d: Datagram): (r: seq<Byte>)
    ensures |r| == 4 + |d.source| + |d.payload|
  {
    WordBytes(|d.payload|) + d.source + d.payload
  }

  ghost predicate Fine(d: Datagram) { |d.source| == 16 && |d.payload| < 0x1_0000 }

  function Records(q: seq<Datagram>): (r: seq<seq<Byte>>)
    ensures |r| == |q|
  {
    seq(|q|, i requires 0 <= i < |q| => Record(q[i]))
  }

  lemma RecordsMore(q: seq<Datagram>, d: Datagram)
    ensures Concat(Records(q + [d])) == Concat(Records(q)) + Record(d)
  {
    assert Records(q + [d])[..|q|] == Records(q);
  }

  lemma RecordsFront(q: seq<Datagram>)
    requires q != []
    ensures Concat(Records(q)) == Record(q[0]) + Concat(Records(q[1..]))
  {
    ConcatFront(Records(q));
    assert Records(q)[1..] == Records(q[1..]);
  }

  /** The parts of the record at the front. */
  lemma RecordParts(d: Datagram, rest: seq<Byte>)
    requires |d.source| == 16
    ensures var s := Record(d) + rest;
      s[..4] == WordBytes(|d.payload|) && s[4..][..16] == d.source && s[4..][16..] == d.payload + rest
  {
  }
}
