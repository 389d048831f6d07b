/** The binary packet protocol (section 6 of RFC 4253) as a function from messages to wire octets and back. */
module SshPacket {
  import opened Bytes
  import opened Octets
  import opened AesCtr
  import Sha256

  const MAX_PACKET: nat := 35000
  const MIN_PAD: nat := 4

  /** What both ends of one direction share: the primitives, the keys and whether they are in use. */
  datatype Direction = Direction(cipher: Cipher, compress: Sha256.Compression, encrypted: bool, key: seq<Byte>,
                                 macKey: seq<Byte>)
  {
    ghost predicate Ok() { |macKey| == 32 }

    function BlockSize(): nat { if encrypted then 16 else 8 }

    function MacLen(): nat { if encrypted then 32 else 0 }

    function Mac(sequence: nat, packet: seq<Byte>): (r: seq<Byte>)
      requires |macKey| == 32
      ensures |r| == 32
    {
      Sha256.Hmac(m => Sha256.Sha(compress, m), macKey, BigEndian(sequence, 4) + packet)
    }

    /** The octets of one packet as they leave, given its plain octets. */
    function Wire(c: nat, sequence: nat, plain: seq<Byte>): (r: seq<Byte>)
      requires |macKey| == 32
      ensures |r| == |plain| + MacLen()
    {
      if encrypted then Crypt(cipher, key, c, plain) + Mac(sequence, plain) else plain
    }

    /** How far one packet moves the counter. */
    function Blocks(n: nat): nat { if encrypted then (n + 15) / 16 else 0 }
  }

  datatype Message = Message(kind: Byte, payload: seq<Byte>)

  function PadLength(block: nat, n: nat): (p: nat)
    requires block == 8 || block == 16
    ensures MIN_PAD <= p < MIN_PAD + block && (6 + n + p) % 8 == 0 && (block == 16 ==> (6 + n + p) % 16 == 0)
  {
    FillUp(6 + n, 8);
    FillUp(6 + n, 16);
    var p := if block == 16 then 16 - (6 + n) % 16 else 8 - (6 + n) % 8;
    if p < MIN_PAD then p + block else p
  }

  lemma FillUp(x: nat, block: nat)
    requires block == 8 || block == 16
    ensures var p := block - x % block; (x + p) % block == (x + p + block) % block == 0
    ensures var p := block - x % block; (x + p) % 8 == (x + p + block) % 8 == 0
  {
    var k := x / block + 1;
    assert x + (block - x % block) == block * k;
    Multiple(k, block);
    Multiple(k + 1, block);
  }

  lemma Multiple(k: nat, block: nat)
    requires block == 8 || block == 16
    ensures (block * k) % block == 0 && (block * k) % 8 == 0
  {
    if block == 16 { assert block * k == 8 * (2 * k); }
  }

  /** No shorter padding would do. */
  lemma PadLeast(block: nat, n: nat, p: nat)
    requires block == 8 || block == 16
    requires p >= MIN_PAD && (if block == 16 then (6 + n + p) % 16 == 0 else (6 + n + p) % 8 == 0)
    ensures PadLength(block, n) <= p
  {
    hide PadLength;
    Apart(6 + n + p, 6 + n + PadLength(block, n), block);
  }

  lemma Apart(x: nat, y: nat, block: nat)
    requires (block == 8 || block == 16) && x % block == 0 && y % block == 0
    ensures y <= x || y >= x + block
  {
  }

  /** packet_length, padding_length, message number, payload, padding. */
  function Plain(m: Message, pad: seq<Byte>): (r: seq<Byte>)
    requires |pad| < 256
    ensures |r| == 6 + |m.payload| + |pad|
  {
    BigEndian(2 + |m.payload| + |pad|, 4) + [|pad|, m.kind] + m.payload + pad
  }

  /** ssh_send_packet refuses what would not fit its buffer. */
  predicate Fits(d: Direction, m: Message) {
    && |m.payload| <= MAX_PACKET - 64
    && 6 + |m.payload| + PadLength(d.BlockSize(), |m.payload|) + d.MacLen() <= MAX_PACKET
  }

  datatype Decoded = Packet(message: Message, used: nat) | Refused(code: int) | Short

  function Opened(d: Direction, c: nat, s: seq<Byte>): (r: seq<Byte>)
    ensures |r| == |s|
  {
    if d.encrypted then Crypt(d.cipher, d.key, c, s) else s
  }

  /** The packet lengths ssh_process_packet goes on with. */
  predicate GoodLength(d: Direction, n: nat) {
    6 <= n <= MAX_PACKET - 4 && (d.encrypted ==> (n + 4) % 16 == 0)
  }

  /** What ssh_process_packet reads off the front of a stream. */
  function Decode(d: Direction, c: nat, sequence: nat, s: seq<Byte>): Decoded
    requires |d.macKey| == 32
  {
    if |s| < 4 then Short
    else
      var n := Value(Opened(d, c, s[..4]));
      if GoodLength(d, n) then DecodeRest(d, c, sequence, s, n) else Refused(-4)
  }

  /** The same once packet_length is known. */
  function DecodeRest(d: Direction, c: nat, sequence: nat, s: seq<Byte>, n: nat): Decoded
    requires |d.macKey| == 32 && GoodLength(d, n)
  {
    if |s| < n + 4 + d.MacLen() then Short
    else
      var plain := Opened(d, c, s[..n + 4]);
      if d.encrypted && s[n + 4..n + 36] != d.Mac(sequence, plain) then Refused(-8)
      else Body(plain, n, d.MacLen())
  }

  /** The checks on a packet whose MAC has passed. */
  function Body(plain: seq<Byte>, n: nat, mac: nat): Decoded
    requires |plain| == n + 4 >= 10
  {
    var pad := plain[4];
    if pad < MIN_PAD || pad + 2 > n then Refused(-6)
    else Packet(Message(plain[5], plain[6..4 + n - pad]), n + 4 + mac)
  }

  lemma PlainLength(m: Message, pad: seq<Byte>)
    requires |pad| < 256 && 2 + |m.payload| + |pad| < 0x1_0000_0000
    ensures Value(Plain(m, pad)[..4]) == 2 + |m.payload| + |pad|
  {
    assert Plain(m, pad)[..4] == BigEndian(2 + |m.payload| + |pad|, 4);
    assert Pow256(4) == 0x1_0000_0000;
    ValueOfBigEndian(2 + |m.payload| + |pad|, 4);
  }

  lemma OpenWire(d: Direction, c: nat, sequence: nat, plain: seq<Byte>, rest: seq<Byte>, n: nat)
    requires |d.macKey| == 32 && n <= |plain|
    ensures Opened(d, c, (d.Wire(c, sequence, plain) + rest)[..n]) == plain[..n]
  {
    var s := d.Wire(c, sequence, plain) + rest;
    if d.encrypted {
      var x := Crypt(d.cipher, d.key, c, plain);
      assert s[..n] == x[..n];
      CryptPrefix(d.cipher, d.key, c, x, n);
      CryptUndo(d.cipher, d.key, c, plain);
    } else {
      assert s[..n] == plain[..n];
    }
  }

  /** Whatever follows it on the stream, a packet that was sent decodes to the message it carries. */
  lemma DecodeWire(d: Direction, c: nat, sequence: nat, m: Message, pad: seq<Byte>, rest: seq<Byte>)
    requires d.Ok() && Fits(d, m) && |pad| == PadLength(d.BlockSize(), |m.payload|)
    ensures Decode(d, c, sequence, d.Wire(c, sequence, Plain(m, pad)) + rest)
         == Packet(m, |d.Wire(c, sequence, Plain(m, pad))|)
  {
    var plain := Plain(m, pad);
    var n := |plain| - 4;
    var s := d.Wire(c, sequence, plain) + rest;
    OpenWire(d, c, sequence, plain, rest, 4);
    OpenWire(d, c, sequence, plain, rest, n + 4);
    PlainLength(m, pad);
    assert plain[..n + 4] == plain;
    if d.encrypted { assert s[n + 4..n + 36] == d.Mac(sequence, plain); }
    assert plain[6..4 + n - |pad|] == m.payload;
  }

  // ---------------------------------------------------------------------------
  // Streams of packets
  // ---------------------------------------------------------------------------

  /** A packet on its way, with the counter and the sequence number it left under. */
  datatype Sent = Sent(message: Message, pad: seq<Byte>, counter: nat, sequence: nat)

  ghost predicate Sendable(d: Direction, x: Sent) {
    d.Ok() && Fits(d, x.message) && |x.pad| == PadLength(d.BlockSize(), |x.message.payload|)
  }

  ghost predicate AllSendable(d: Direction, xs: seq<Sent>) { forall i :: 0 <= i < |xs| ==> Sendable(d, xs[i]) }

  function NextSequence(sequence: nat): nat { (sequence + 1) % 0x1_0000_0000 }

  ghost function PlainOf(d: Direction, x: Sent): seq<Byte>
    requires Sendable(d, x)
  {
    Plain(x.message, x.pad)
  }

  ghost function WireOf(d: Direction, x: Sent): seq<Byte>
    requires Sendable(d, x)
  {
    d.Wire(x.counter, x.sequence, PlainOf(d, x))
  }

  ghost function NextCounter(d: Direction, x: Sent): nat
    requires Sendable(d, x)
  {
    x.counter + d.Blocks(|PlainOf(d, x)|)
  }

  /** Each packet leaves under the numbers that follow those of the packet before it. */
  ghost predicate Follows(d: Direction, xs: seq<Sent>, i: nat)
    requires AllSendable(d, xs)
  {
    i + 1 < |xs| ==> xs[i + 1].counter == NextCounter(d, xs[i]) && xs[i + 1].sequence == NextSequence(xs[i].sequence)
  }

  ghost predicate Numbered(d: Direction, xs: seq<Sent>) {
    AllSendable(d, xs) && forall i :: Follows(d, xs, i)
  }

  ghost function Wires(d: Direction, xs: seq<Sent>): (r: seq<seq<Byte>>)
    requires AllSendable(d, xs)
    ensures |r| == |xs|
  {
    seq(|xs|, i requires 0 <= i < |xs| => WireOf(d, xs[i]))
  }

  /** The octets of a whole run of packets. */
  ghost function WireAll(d: Direction, xs: seq<Sent>): seq<Byte>
    requires AllSendable(d, xs)
  {
    Concat(Wires(d, xs))
  }

  lemma WireFront(d: Direction, xs: seq<Sent>)
    requires AllSendable(d, xs) && xs != []
    ensures WireAll(d, xs) == WireOf(d, xs[0]) + WireAll(d, xs[1..])
  {
    ConcatFront(Wires(d, xs));
    assert Wires(d, xs)[1..] == Wires(d, xs[1..]);
  }

  lemma WireMore(d: Direction, xs: seq<Sent>, y: Sent)
    requires AllSendable(d, xs) && Sendable(d, y)
    ensures WireAll(d, xs + [y]) == WireAll(d, xs) + WireOf(d, y)
  {
    assert Wires(d, xs + [y])[..|xs|] == Wires(d, xs);
  }

  ghost function Messages(xs: seq<Sent>): (r: seq<Message>)
    ensures |r| == |xs|
  {
    seq(|xs|, i requires 0 <= i < |xs| => xs[i].message)
  }

  ghost function Plains(d: Direction, xs: seq<Sent>): seq<Byte>
    requires AllSendable(d, xs)
  {
    if xs == [] then [] else Plains(d, xs[..|xs| - 1]) + PlainOf(d, xs[|xs| - 1])
  }

  ghost function Ciphered(d: Direction, xs: seq<Sent>): seq<Byte>
    requires AllSendable(d, xs)
  {
    if xs == [] then []
    else Ciphered(d, xs[..|xs| - 1]) + Crypt(d.cipher, d.key, xs[|xs| - 1].counter, PlainOf(d, xs[|xs| - 1]))
  }

  lemma NumberedFront(d: Direction, xs: seq<Sent>, n: nat)
    requires Numbered(d, xs) && n <= |xs|
    ensures Numbered(d, xs[..n])
  {
    forall i ensures Follows(d, xs[..n], i) { assert Follows(d, xs, i); }
  }

  lemma WholeBlocks(d: Direction, x: Sent)
    requires d.encrypted && Sendable(d, x)
    ensures |PlainOf(d, x)| == 16 * (NextCounter(d, x) - x.counter)
  {
  }

  lemma {:induction false} KeystreamPosition(d: Direction, xs: seq<Sent>)
    requires d.encrypted && Numbered(d, xs) && xs != []
    ensures |Plains(d, xs)| == 16 * (NextCounter(d, xs[|xs| - 1]) - xs[0].counter)
  {
    var n := |xs| - 1;
    WholeBlocks(d, xs[n]);
    if n == 0 {
      assert Plains(d, xs) == PlainOf(d, xs[0]);
    } else {
      NumberedFront(d, xs, n);
      KeystreamPosition(d, xs[..n]);
      assert Follows(d, xs, n - 1);
    }
  }

  /**
   * Encrypted packets fill whole blocks, so the encrypted parts of a run, put end to end, are the plain run
   * under one uninterrupted keystream.
   */
  lemma {:induction false} OneKeystream(d: Direction, xs: seq<Sent>)
    requires d.encrypted && Numbered(d, xs) && xs != []
    ensures Ciphered(d, xs) == Crypt(d.cipher, d.key, xs[0].counter, Plains(d, xs))
  {
    var n := |xs| - 1;
    var plain := PlainOf(d, xs[n]);
    if n == 0 {
      assert Plains(d, xs) == plain;
      assert Ciphered(d, xs) == Crypt(d.cipher, d.key, xs[0].counter, plain);
    } else {
      NumberedFront(d, xs, n);
      OneKeystream(d, xs[..n]);
      KeystreamPosition(d, xs[..n]);
      assert Follows(d, xs, n - 1);
      CryptBlocks(d.cipher, d.key, xs[0].counter, Plains(d, xs[..n]), plain, xs[n].counter - xs[0].counter);
    }
  }
}
