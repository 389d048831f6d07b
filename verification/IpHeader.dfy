/** IPv4 packets as ip_output builds them, and the checks ip_input makes. */
module IpHeader {
  import opened Bytes
  import opened Checksum

  /** A 16-bit field in network order. */
  function Net16(v: nat): (r: seq<Byte>)
    ensures |r| == 2
  {
    [v / 256 % 256, v % 256]
  }

  function Host16(b: seq<Byte>): nat
    requires |b| == 2
  {
    256 * (b[0] as int) + b[1]
  }

  datatype Packet = Packet(id: nat, protocol: Byte, source: seq<Byte>, dest: seq<Byte>, payload: seq<Byte>)

  ghost predicate Fine(p: Packet) { |p.source| == 4 && |p.dest| == 4 }

  /** The header with its checksum field zero. */
  function Blank(p: Packet): (r: seq<Byte>)
    requires |p.source| == 4 && |p.dest| == 4
    ensures |r| == 20 && r[10] == 0 && r[11] == 0
  {
    [0x45, 0] + Net16(20 + |p.payload|) + Net16(p.id) + Net16(0x4000) + [64, p.protocol] + [0, 0] + p.source + p.dest
  }

  /** A header of 20 octets with the fields of `p` and a checksum that verifies, then the payload. */
  ghost predicate Carries(bytes: seq<Byte>, p: Packet) {
    && |bytes| == 20 + |p.payload| && bytes[20..] == p.payload
    && bytes[0] == 0x45 && Host16(bytes[2..4]) == |bytes| && Host16(bytes[4..6]) == p.id % 65536
    && Host16(bytes[6..8]) == 0x4000 && bytes[8] == 64 && bytes[9] == p.protocol
    && bytes[12..16] == p.source && bytes[16..20] == p.dest
    && Complement(Sum(bytes[..20])) == 0
  }

  /** ip_output's packet: refused exactly above the Ethernet MTU. */
  method Build(p: Packet) returns (code: int, bytes: seq<Byte>)
    requires Fine(p)
    ensures if 20 + |p.payload| > 1500 then code == -2 && bytes == [] else code == 0 && Carries(bytes, p)
  {
    hide Sum, Complement, Carries;
    bytes := [];
    if 20 + |p.payload| > 1500 { return -2, bytes; }
    var h := Blank(p);
    var c := Calculate(h);
    bytes := Stored(h, 10, c) + p.payload;
    code := 0;
    BuiltCarries(p);
  }

  lemma BuiltCarries(p: Packet)
    requires Fine(p) && 20 + |p.payload| <= 1500
    ensures Carries(Stored(Blank(p), 10, Complement(Sum(Blank(p)))) + p.payload, p)
  {
    hide Sum, Complement, Blank, Stored, Host16;
    var h := Blank(p);
    var s := Stored(h, 10, Complement(Sum(h)));
    var bytes := s + p.payload;
    BlankFields(p);
    StoredPasses(h, 10);
    StoredElsewhere(h, Complement(Sum(h)));
    assert bytes[..20] == s && bytes[20..] == p.payload;
    Field(s, p.payload, h, 2, 4);
    Field(s, p.payload, h, 4, 6);
    Field(s, p.payload, h, 6, 8);
    Field(s, p.payload, h, 12, 16);
    Field(s, p.payload, h, 16, 20);
  }

  lemma Field(s: seq<Byte>, rest: seq<Byte>, h: seq<Byte>, i: nat, j: nat)
    requires |s| == |h| == 20 && s[..10] == h[..10] && s[12..] == h[12..] && i <= j <= 20 && (j <= 10 || 12 <= i)
    ensures (s + rest)[i..j] == h[i..j]
  {
    forall k | i <= k < j ensures s[k] == h[k] {
      if k < 10 { assert s[..10][k] == h[..10][k]; } else { assert s[12..][k - 12] == h[12..][k - 12]; }
    }
  }

  lemma BlankFields(p: Packet)
    requires Fine(p) && 20 + |p.payload| <= 1500
    ensures var h := Blank(p);
      && h[0] == 0x45 && h[8] == 64 && h[9] == p.protocol
      && Host16(h[2..4]) == 20 + |p.payload| && Host16(h[4..6]) == p.id % 65536 && Host16(h[6..8]) == 0x4000
      && h[12..16] == p.source && h[16..20] == p.dest
  {
    var h := Blank(p);
    assert h[2..4] == Net16(20 + |p.payload|) && h[4..6] == Net16(p.id) && h[6..8] == Net16(0x4000);
    NetHost(20 + |p.payload|);
    NetHost(p.id);
    NetHost(0x4000);
    Behind(h[..12], p.source, p.dest);
    assert h == h[..12] + p.source + p.dest;
  }

  lemma Behind(front: seq<Byte>, a: seq<Byte>, b: seq<Byte>)
    requires |front| == 12 && |a| == 4 && |b| == 4
    ensures var s := front + a + b; s[12..16] == a && s[16..20] == b
  {
  }

  lemma NetHost(v: nat)
    ensures Host16(Net16(v)) == v % 65536
  {
  }

  lemma StoredElsewhere(h: seq<Byte>, c: nat)
    requires |h| == 20
    ensures var s := Stored(h, 10, c);
      s[..10] == h[..10] && s[12..] == h[12..] && s[0] == h[0] && s[8] == h[8] && s[9] == h[9]
  {
  }

  // ---------------------------------------------------------------------------
  // What ip_input lets through
  // ---------------------------------------------------------------------------

  datatype Verdict = Dropped(code: int) | Deliver(protocol: Byte, source: seq<Byte>, payload: seq<Byte>)

  /** The header length in octets. */
  function Ihl(packet: seq<Byte>): nat
    requires packet != []
  {
    packet[0] % 16 * 4
  }

  /** Long enough, version 4, and the header inside the packet. */
  predicate Headed(packet: seq<Byte>) { |packet| >= 20 && packet[0] / 16 == 4 && 20 <= Ihl(packet) <= |packet| }

  predicate Summed(packet: seq<Byte>)
    requires Headed(packet)
  {
    Complement(Sum(packet[..Ihl(packet)])) == 0
  }

  /** The length field covers the header and lies inside the packet. */
  predicate Sized(packet: seq<Byte>)
    requires Headed(packet)
  {
    Ihl(packet) <= Host16(packet[2..4]) <= |packet|
  }

  /** To this host, to everybody, or to a host without an address. */
  predicate ForUs(packet: seq<Byte>, me: seq<Byte>)
    requires |packet| >= 20
  {
    packet[16..20] == me || packet[16..20] == [255, 255, 255, 255] || me == [0, 0, 0, 0]
  }

  /** ip_input up to the transport layer: each reason to drop has its own code, and nothing else is dropped. */
  method Check(packet: seq<Byte>, me: seq<Byte>) returns (v: Verdict)
    requires |me| == 4
    ensures v == Dropped(-1) <==> |packet| < 20
    ensures v == Dropped(-2) <==> |packet| >= 20 && packet[0] / 16 != 4
    ensures v == Dropped(-3) <==> |packet| >= 20 && packet[0] / 16 == 4 && !Headed(packet)
    ensures v == Dropped(-4) <==> Headed(packet) && !Summed(packet)
    ensures v == Dropped(-5) <==> Headed(packet) && Summed(packet) && !Sized(packet)
    ensures v == Dropped(0) <==> Headed(packet) && Summed(packet) && Sized(packet) && !ForUs(packet, me)
    ensures v.Deliver? <==> Headed(packet) && Summed(packet) && Sized(packet) && ForUs(packet, me)
    ensures v.Deliver? ==> v.protocol == packet[9] && v.source == packet[12..16]
                           && packet[..Ihl(packet)] + v.payload == packet[..Host16(packet[2..4])]
  {
    hide Sum, Complement;
    if |packet| < 20 { return Dropped(-1); }
    if packet[0] / 16 != 4 { return Dropped(-2); }
    var ihl := packet[0] % 16 * 4;
    if ihl < 20 || ihl > |packet| { return Dropped(-3); }
    var c := Calculate(packet[..ihl]);
    if c != 0 { return Dropped(-4); }
    var total := Host16(packet[2..4]);
    if total > |packet| || total < ihl { return Dropped(-5); }
    var dest := packet[16..20];
    if dest != me && dest != [255, 255, 255, 255] && me != [0, 0, 0, 0] { return Dropped(0); }
    v := Deliver(packet[9], packet[12..16], packet[ihl..total]);
  }

  /**
   * A packet from ip_output to ip_input at a host: delivered with its protocol, source and payload exactly when it
   * fits the MTU and the host is its destination, the destination is broadcast, or the host has no address.
   */
  method Exchange(p: Packet, me: seq<Byte>) returns (sent: bool, v: Verdict)
    requires Fine(p) && |me| == 4
    ensures sent <==> 20 + |p.payload| <= 1500
    ensures sent && (p.dest == me || p.dest == [255, 255, 255, 255] || me == [0, 0, 0, 0]) ==>
      v == Deliver(p.protocol, p.source, p.payload)
    ensures sent && p.dest != me && p.dest != [255, 255, 255, 255] && me != [0, 0, 0, 0] ==> v == Dropped(0)
  {
    hide Carries, Summed, Sized, Headed, ForUs;
    v := Dropped(-1);
    var code, bytes := Build(p);
    sent := code == 0;
    if !sent { return; }
    CarriesPasses(bytes, p);
    v := Check(bytes, me);
    if v.Deliver? { Payload(bytes, p, v.payload); }
  }

  lemma CarriesPasses(bytes: seq<Byte>, p: Packet)
    requires Carries(bytes, p)
    ensures Headed(bytes) && Ihl(bytes) == 20 && Summed(bytes) && Sized(bytes)
    ensures Host16(bytes[2..4]) == |bytes| && bytes[9] == p.protocol && bytes[12..16] == p.source
    ensures forall me :: ForUs(bytes, me) <==> p.dest == me || p.dest == [255, 255, 255, 255] || me == [0, 0, 0, 0]
  {
    hide Sum, Complement;
  }

  lemma Payload(bytes: seq<Byte>, p: Packet, payload: seq<Byte>)
    requires Carries(bytes, p) && |bytes| >= 20 && bytes[..20] + payload == bytes[..|bytes|]
    ensures payload == p.payload
  {
    hide Sum, Complement;
    assert payload == (bytes[..20] + payload)[20..] == bytes[20..];
  }

  /** A 16-bit word as the checksum loads it. */
  function WordAt(s: seq<Byte>, at: nat): nat
    requires at + 2 <= |s|
  {
    s[at] + 256 * (s[at + 1] as int)
  }

  /**
   * Of a packet that passes, any one header word behind the first may be overwritten by any other: the checksum
   * finds it exactly when the two words differ modulo 65535.
   */
  lemma WordErrorIff(packet: seq<Byte>, at: nat, w: nat)
    requires Headed(packet) && Summed(packet) && at % 2 == 0 && 2 <= at && at + 2 <= Ihl(packet) && w < 65536
    ensures var q := Stored(packet, at, w);
      Headed(q) && (Summed(q) <==> (w - WordAt(packet, at)) % 65535 == 0)
  {
    hide Sum, Complement;
    var n := Ihl(packet);
    var q := Stored(packet, at, w);
    assert q[0] == packet[0];
    assert q[..n] == Stored(packet[..n], at, w);
    assert WordAt(packet[..n], at) == WordAt(packet, at);
    Overwritten(packet[..n], at, w);
    ZeroIff(Sum(packet[..n]));
    ZeroIff(Sum(q[..n]));
    SumPositive(q[..n]);
    SameResidue(Sum(packet[..n]), Sum(q[..n]), w - WordAt(packet, at));
  }

  lemma Overwritten(h: seq<Byte>, at: nat, w: nat)
    requires at + 2 <= |h| && at % 2 == 0 && w < 65536
    ensures Sum(Stored(h, at, w)) == Sum(h) + w - WordAt(h, at)
  {
    hide Sum;
    Around(h, at);
    SumWord(h[..at], h[at], h[at + 1], h[at + 2..]);
    SumWord(h[..at], w % 256, w / 256 % 256, h[at + 2..]);
    TwoBytes(w);
  }

  lemma Around(h: seq<Byte>, at: nat)
    requires at + 2 <= |h|
    ensures h == h[..at] + [h[at], h[at + 1]] + h[at + 2..]
  {
  }

  lemma SumWord(a: seq<Byte>, x: Byte, y: Byte, b: seq<Byte>)
    requires |a| % 2 == 0
    ensures Sum(a + [x, y] + b) == Sum(a) + (x + 256 * (y as int)) + Sum(b)
  {
    SumAround(a, x, y, b);
  }

  lemma SumPositive(h: seq<Byte>)
    requires |h| >= 2 && h[0] > 0
    ensures Sum(h) > 0
  {
  }

  lemma SameResidue(a: nat, b: nat, d: int)
    requires b == a + d && a % 65535 == 0
    ensures b % 65535 == 0 <==> d % 65535 == 0
  {
  }
}
