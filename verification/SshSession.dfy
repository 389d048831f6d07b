/** Sending and receiving packets over a byte stream that takes and gives octets in arbitrary pieces. */
module SshSession {
  import opened Bytes
  import opened Octets
  import opened AesCtr
  import opened SshPacket
  import Sha256

  /**
   * One direction of a connection.  A call may move any part of what is asked, or fault: move nothing, or report a count
   * that is out of range.
   */
  class Channel {
    var queue: seq<Byte>
    /** How many calls have faulted. */
    ghost var writeFaults: nat
    ghost var readFaults: nat

    method Write(data: seq<Byte>) returns (n: int)
      requires data != []
      modifies this
      ensures queue == old(queue) + (if 0 < n <= |data| then data[..n] else [])
      ensures writeFaults == old(writeFaults) + (if 0 < n <= |data| then 0 else 1) && readFaults == old(readFaults)
    {
      n := *;
      if 0 < n <= |data| { queue := queue + data[..n]; } else { writeFaults := writeFaults + 1; }
    }

    method Read(max: nat) returns (n: int, data: seq<Byte>)
      requires max > 0
      modifies this
      ensures 0 < n <= max ==> |data| == n && old(queue) == data + queue
      ensures !(0 < n <= max) ==> queue == old(queue)
      ensures readFaults == old(readFaults) + (if 0 < n <= max then 0 else 1) && writeFaults == old(writeFaults)
    {
      n, data := *, [];
      if 0 < n <= max && n > |queue| { n := 0; }
      if 0 < n <= max {
        data, queue := queue[..n], queue[n..];
      } else {
        readFaults := readFaults + 1;
      }
    }

    /** Since a state with so many faults, exactly one write has faulted if `failed`, and no read. */
    ghost predicate WriteFaulted(w: nat, r: nat, failed: bool)
      reads this
    {
      writeFaults == w + (if failed then 1 else 0) && readFaults == r
    }

    /** Since a state with so many faults, exactly one read has faulted if `failed`, and no write. */
    ghost predicate ReadFaulted(w: nat, r: nat, failed: bool)
      reads this
    {
      readFaults == r + (if failed then 1 else 0) && writeFaults == w
    }
  }

  datatype Received = Got(message: Message) | Failed(code: int)

  method RandomBytes(n: nat) returns (r: seq<Byte>)
    ensures |r| == n
  {
    r := [];
    while |r| < n
      invariant |r| <= n
    {
      var b: Byte := *;
      r := r + [b];
    }
  }

  /** ssh_send_packet's padding loop. */
  method Padding(block: nat, n: nat) returns (p: nat)
    requires block == 8 || block == 16
    ensures p == PadLength(block, n)
  {
    p := block - (if block == 16 then (6 + n) % 16 else (6 + n) % 8);
    ghost var first := p;
    while p < MIN_PAD
      invariant p == first || (first < MIN_PAD && p == first + block)
      decreases MIN_PAD - p
    {
      p := p + block;
    }
  }

  /** Copies `data` into `buf` at `off`. */
  method Store(buf: array<Byte>, off: nat, data: seq<Byte>)
    requires off + |data| <= buf.Length
    modifies buf
    ensures buf[..off + |data|] == old(buf[..off]) + data
  {
    for i := 0 to |data|
      invariant buf[..off + i] == old(buf[..off]) + data[..i]
    {
      buf[off + i] := data[i];
    }
  }

  /** The sending half of a session. */
  class Sender {
    const cipher: Cipher
    const compress: Sha256.Compression
    const tx: array<Byte>
    const iv: array<Byte>
    const output: Channel
    var encrypted: bool
    var key: seq<Byte>
    var macKey: seq<Byte>
    var sequence: nat
    ghost var counter: nat

    ghost predicate Valid()
      reads this, iv
    {
      && tx.Length == MAX_PACKET && iv.Length == 16 && tx != iv && |macKey| == 32
      && iv[..] == BigEndian(counter, 16)
    }

    function Direct(): Direction
      reads this
    {
      Direction(cipher, compress, encrypted, key, macKey)
    }

    constructor (e: Cipher, f: Sha256.Compression, ch: Channel, k: seq<Byte>, mk: seq<Byte>, enc: bool, start: nat)
      requires |mk| == 32
      ensures Valid() && fresh(tx) && fresh(iv) && output == ch && Direct() == Direction(e, f, enc, k, mk)
      ensures sequence == 0 && counter == start
    {
      cipher, compress, output := e, f, ch;
      tx := new Byte[MAX_PACKET](_ => 0);
      var octets := BigEndian(start, 16);
      iv := new Byte[16](i requires 0 <= i < 16 => octets[i]);
      key, macKey, encrypted, sequence, counter := k, mk, enc, 0, start;
    }

    /** Lays the packet out in the transmit buffer. */
    method Frame(m: Message, pad: seq<Byte>)
      requires Valid() && |pad| < 256 && 6 + |m.payload| + |pad| <= MAX_PACKET
      modifies tx
      ensures tx[..6 + |m.payload| + |pad|] == Plain(m, pad)
    {
      var n := 2 + |m.payload| + |pad|;
      Sha256.SequenceOctets(n);
      tx[0], tx[1], tx[2], tx[3] := n / 0x100_0000 % 256, n / 0x1_0000 % 256, n / 0x100 % 256, n % 256;
      tx[4], tx[5] := |pad|, m.kind;
      assert tx[..6] == BigEndian(n, 4) + [|pad|, m.kind];
      Store(tx, 6, m.payload);
      Store(tx, 6 + |m.payload|, pad);
    }

    /** Encrypts the framed packet in place and puts the MAC of its plain octets behind it. */
    method Protect(n: nat)
      requires Valid() && encrypted && n + 32 <= MAX_PACKET
      modifies tx, iv, this`counter
      ensures Valid() && counter == old(counter) + (n + 15) / 16
      ensures tx[..n + 32] == old(Direct()).Wire(old(counter), sequence, old(tx[..n]))
    {
      var mac := Sha256.PacketMac(compress, macKey, sequence, tx[..n]);
      ghost var c, plain, d := counter, tx[..n], Direct();
      CryptInPlace(cipher, key, iv, c, tx, n);
      counter := counter + (n + 15) / 16;
      assert mac == d.Mac(sequence, plain);
      Store(tx, n, mac);
    }

    /** Writes the first `n` octets of the buffer, however the channel cuts them. */
    method Flush(n: nat) returns (r: int)
      requires Valid() && 0 < n <= MAX_PACKET
      modifies output
      ensures r == n || r == -3
      ensures r == n ==> output.queue == old(output.queue) + tx[..n]
      ensures r == -3 ==> old(output.queue) <= output.queue < old(output.queue) + tx[..n]
      ensures output.WriteFaulted(old(output.writeFaults), old(output.readFaults), r == -3)
    {
      var done := 0;
      while done < n
        invariant done <= n && output.queue == old(output.queue) + tx[..done]
        invariant output.WriteFaulted(old(output.writeFaults), old(output.readFaults), false)
      {
        var k := output.Write(tx[done..n]);
        if k <= 0 || k > n - done { return -3; }
        assert tx[..done + k] == tx[..done] + tx[done..n][..k];
        done := done + k;
      }
      r := done;
    }

    /** ssh_send_packet.  A message that does not fit changes nothing; any other uses up its numbers. */
    method Send(m: Message) returns (r: int, ghost pad: seq<Byte>)
      requires Valid()
      modifies this`sequence, this`counter, tx, iv, output
      ensures Valid() && (r == -1 <==> !Fits(Direct(), m))
      ensures r == -1 ==> sequence == old(sequence) && counter == old(counter) && output.queue == old(output.queue)
      ensures r != -1 ==> |pad| == PadLength(Direct().BlockSize(), |m.payload|)
      ensures r != -1 ==> sequence == NextSequence(old(sequence))
      ensures r != -1 ==> counter == old(counter) + Direct().Blocks(|Plain(m, pad)|)
      ensures r != -1 ==> r == -3 || r > 0
      ensures r > 0 ==>
        output.queue == old(output.queue) + Direct().Wire(old(counter), old(sequence), Plain(m, pad))
      ensures r == -3 ==>
        old(output.queue) <= output.queue < old(output.queue) + Direct().Wire(old(counter), old(sequence), Plain(m, pad))
      ensures output.WriteFaulted(old(output.writeFaults), old(output.readFaults), r == -3)
    {
      pad := [];
      var block, macLen := if encrypted then 16 else 8, if encrypted then 32 else 0;
      if |m.payload| > MAX_PACKET - 64 { return -1, pad; }
      var p := Padding(block, |m.payload|);
      var n := 6 + |m.payload| + p;
      if n + macLen > MAX_PACKET { return -1, pad; }
      var padding := RandomBytes(p);
      pad := padding;
      Prepare(m, padding);
      r := Flush(n + macLen);
    }

    /** Leaves the octets of the packet in the transmit buffer and moves the numbers on. */
    method Prepare(m: Message, pad: seq<Byte>)
      requires Valid() && |pad| < 256 && 6 + |m.payload| + |pad| + Direct().MacLen() <= MAX_PACKET
      modifies this`sequence, this`counter, tx, iv
      ensures Valid() && sequence == NextSequence(old(sequence))
      ensures counter == old(counter) + Direct().Blocks(|Plain(m, pad)|)
      ensures tx[..|Plain(m, pad)| + Direct().MacLen()] == Direct().Wire(old(counter), old(sequence), Plain(m, pad))
    {
      hide Plain, Crypt, Sha256.Hmac;
      PlainSize(m, pad);
      Frame(m, pad);
      if encrypted { Protect(6 + |m.payload| + |pad|); }
      sequence := NextSequence(sequence);
    }
  }

  lemma PlainSize(m: Message, pad: seq<Byte>)
    requires |pad| < 256
    ensures |Plain(m, pad)| == 6 + |m.payload| + |pad|
  {
  }

  // ---------------------------------------------------------------------------
  // Receiving
  // ---------------------------------------------------------------------------

  /** Reads `buf[from..to]` off the channel, however it is cut. */
  method ReadInto(input: Channel, buf: array<Byte>, from: nat, to: nat) returns (ok: bool)
    requires from <= to <= buf.Length
    modifies input, buf
    ensures buf[..from] == old(buf[..from])
    ensures ok ==> old(input.queue) == buf[from..to] + input.queue
    ensures input.ReadFaulted(old(input.writeFaults), old(input.readFaults), !ok)
  {
    var done := from;
    while done < to
      invariant from <= done <= to && buf[..from] == old(buf[..from])
      invariant old(input.queue) == buf[from..done] + input.queue
      invariant input.ReadFaulted(old(input.writeFaults), old(input.readFaults), false)
    {
      var k, data := input.Read(to - done);
      if k <= 0 || k > to - done { return false; }
      ghost var got, rest := buf[..done], input.queue;
      Store(buf, done, data);
      assert buf[..done + k] == got + data;
      assert buf[..from] == buf[..done + k][..from] == got[..from];
      assert buf[from..done + k] == buf[..done + k][from..] == got[from..] + data;
      done := done + k;
    }
    ok := true;
  }

  /** The receiving half of a session. */
  class Receiver {
    const cipher: Cipher
    const compress: Sha256.Compression
    const rx: array<Byte>
    const iv: array<Byte>
    const input: Channel
    var encrypted: bool
    var key: seq<Byte>
    var macKey: seq<Byte>
    var sequence: nat
    ghost var counter: nat

    ghost predicate Valid()
      reads this, iv
    {
      && rx.Length == MAX_PACKET && iv.Length == 16 && rx != iv && |macKey| == 32
      && iv[..] == BigEndian(counter, 16)
    }

    function Direct(): Direction
      reads this
    {
      Direction(cipher, compress, encrypted, key, macKey)
    }

    constructor (e: Cipher, f: Sha256.Compression, ch: Channel, k: seq<Byte>, mk: seq<Byte>, enc: bool, start: nat)
      requires |mk| == 32
      ensures Valid() && fresh(rx) && fresh(iv) && input == ch && Direct() == Direction(e, f, enc, k, mk)
      ensures sequence == 0 && counter == start
    {
      cipher, compress, input := e, f, ch;
      rx := new Byte[MAX_PACKET](_ => 0);
      var octets := BigEndian(start, 16);
      iv := new Byte[16](i requires 0 <= i < 16 => octets[i]);
      key, macKey, encrypted, sequence, counter := k, mk, enc, 0, start;
    }

    /** packet_length, read through the keystream without moving the counter. */
    method Length() returns (n: nat)
      requires Valid()
      ensures n == Value(Opened(Direct(), counter, rx[..4]))
    {
      var h := rx[..4];
      if encrypted {
        var stream := cipher(key, iv[..]);
        h := [Xor(h[0], stream[0]), Xor(h[1], stream[1]), Xor(h[2], stream[2]), Xor(h[3], stream[3])];
        FirstOctets(cipher, key, counter, rx[..4]);
      }
      FourOctets(h);
      n := (h[0] as int) * 0x100_0000 + (h[1] as int) * 0x1_0000 + (h[2] as int) * 0x100 + h[3];
    }

    /** Decrypts the packet in place, reads the MAC behind it and checks it. */
    method Check(n: nat) returns (code: int, ghost mac: seq<Byte>)
      requires Valid() && encrypted && n <= MAX_PACKET
      modifies rx, iv, input, this`counter
      ensures Valid() && rx[..n] == Opened(Direct(), old(counter), old(rx[..n]))
      ensures counter == old(counter) + (n + 15) / 16
      ensures code in {0, -7, -8}
      ensures input.ReadFaulted(old(input.writeFaults), old(input.readFaults), code == -7)
      ensures code != -7 ==> |mac| == 32 && old(input.queue) == mac + input.queue
      ensures code != -7 ==> (code == 0 <==> mac == Direct().Mac(sequence, rx[..n]))
    {
      hide Sha256.Hmac, Sha256.Sha, Crypt;
      ghost var d := Direct();
      CryptInPlace(cipher, key, iv, counter, rx, n);
      counter := counter + (n + 15) / 16;
      var remote := new Byte[32](_ => 0);
      var ok := ReadInto(input, remote, 0, 32);
      mac := remote[0..32];
      if !ok { return -7, mac; }
      var computed := Sha256.PacketMac(compress, macKey, sequence, rx[..n]);
      assert computed == d.Mac(sequence, rx[..n]) && remote[..] == mac;
      code := if remote[..] == computed then 0 else -8;
    }

    /** Reads the header and the rest of the packet it announces, still encrypted. */
    method Fetch() returns (code: int, n: nat)
      requires Valid()
      modifies rx, input
      ensures Valid() && code in {0, -2, -4, -5}
      ensures input.ReadFaulted(old(input.writeFaults), old(input.readFaults), code in {-2, -5})
      ensures code == -4 ==> Decode(Direct(), counter, sequence, old(input.queue)) == Refused(-4)
      ensures code == 0 ==> Announced(Direct(), counter, old(input.queue), n)
      ensures code == 0 ==> rx[..n + 4] == old(input.queue)[..n + 4] && input.queue == old(input.queue)[n + 4..]
    {
      ghost var s := input.queue;
      n := 0;
      var ok := ReadInto(input, rx, 0, 4);
      if !ok { return -2, n; }
      assert s[..4] == rx[..4];
      ghost var head := rx[..4];
      n := Length();
      if n < 6 || n > MAX_PACKET - 4 { return -4, n; }
      if encrypted && (n + 4) % 16 != 0 { return -4, n; }
      ok := ReadInto(input, rx, 4, n + 4);
      if !ok { return -5, n; }
      code := 0;
      assert rx[..n + 4] == head + rx[4..n + 4];
      assert s == rx[..n + 4] + input.queue;
    }

    /**
     * The framing half of ssh_process_packet.  Unless the stream itself fails, the outcome is what decoding the
     * front of the stream gives, and a packet moves the stream and the numbers past itself.
     */
    method Receive() returns (r: Received)
      requires Valid()
      modifies this`sequence, this`counter, rx, iv, input
      ensures Valid()
      ensures input.ReadFaulted(old(input.writeFaults), old(input.readFaults), r.Failed? && r.code in {-2, -5, -7})
      ensures r.Failed? ==> r.code in {-2, -5, -7} || Front(old(counter), old(sequence), old(input.queue)) == Refused(r.code)
      ensures r.Got? ==> Front(old(counter), old(sequence), old(input.queue)).Packet?
      ensures r.Got? ==> Took(r.message, old(counter), old(sequence), old(input.queue))
    {
      ghost var s := input.queue;
      var code, n := Fetch();
      if code != 0 { return Failed(code); }
      code := Open(n, s);
      if code != 0 { return Failed(code); }
      sequence := NextSequence(sequence);
      r := Unpack(n);
    }

    /** Decrypts and authenticates what Fetch left in the buffer. */
    method Open(n: nat, ghost s: seq<Byte>) returns (code: int)
      requires Valid() && GoodLength(Direct(), n) && n + 4 <= |s|
      requires rx[..n + 4] == s[..n + 4] && input.queue == s[n + 4..]
      modifies this`counter, rx, iv, input
      ensures Valid() && code in {0, -7, -8}
      ensures input.ReadFaulted(old(input.writeFaults), old(input.readFaults), code == -7)
      ensures code == -8 ==> DecodeRest(Direct(), old(counter), sequence, s, n) == Refused(-8)
      ensures code == 0 ==>
        DecodeRest(Direct(), old(counter), sequence, s, n) == Body(rx[..n + 4], n, Direct().MacLen())
      ensures code == 0 ==> n + 4 + Direct().MacLen() <= |s| && input.queue == s[n + 4 + Direct().MacLen()..]
      ensures counter == old(counter) + Direct().Blocks(n + 4)
    {
      hide Sha256.Sha, Sha256.Hmac, Crypt, Body;
      code := 0;
      if encrypted {
        ghost var mac;
        code, mac := Check(n + 4);
        if code == -7 { return; }
        assert s[n + 4..][..32] == mac;
        assert s[n + 4..n + 36] == mac && input.queue == s[n + 36..];
      }
    }

    /** The last checks, and the message between the header and the padding. */
    method Unpack(n: nat) returns (r: Received)
      requires Valid() && 6 <= n <= MAX_PACKET - 4
      ensures var x := Body(rx[..n + 4], n, Direct().MacLen());
        (x.Packet? && r == Got(x.message)) || (r == Failed(-6) && x == Refused(-6))
    {
      var pad, kind := rx[4], rx[5];
      if pad < MIN_PAD || pad + 2 > n { return Failed(-6); }
      assert rx[6..4 + n - pad] == rx[..n + 4][6..4 + n - pad];
      r := Got(Message(kind, rx[6..4 + n - pad]));
    }

    /** The reference reading of the front of the stream. */
    ghost function Front(c: nat, sn: nat, s: seq<Byte>): Decoded
      requires |macKey| == 32
      reads this
    {
      Decode(Direct(), c, sn, s)
    }

    /** The stream and the numbers are past the packet at the front of `s`, which carried `m`. */
    ghost predicate Took(m: Message, c: nat, sn: nat, s: seq<Byte>)
      requires |macKey| == 32 && Front(c, sn, s).Packet?
      reads this, input
    {
      var x := Front(c, sn, s);
      && m == x.message && Direct().MacLen() <= x.used <= |s| && input.queue == s[x.used..]
      && sequence == NextSequence(sn) && counter == c + Direct().Blocks(x.used - Direct().MacLen())
    }
  }

  /** The header at the front of `s` announces a packet of acceptable length that is all there. */
  ghost predicate Announced(d: Direction, c: nat, s: seq<Byte>, n: nat) {
    |s| >= n + 4 && n == Value(Opened(d, c, s[..4])) && GoodLength(d, n)
  }

  lemma FirstOctets(e: Cipher, key: seq<Byte>, c: nat, h: seq<Byte>)
    requires |h| == 4
    ensures var stream := e(key, BigEndian(c, 16));
      Crypt(e, key, c, h) == [Xor(h[0], stream[0]), Xor(h[1], stream[1]), Xor(h[2], stream[2]), Xor(h[3], stream[3])]
  {
  }

  lemma FourOctets(h: seq<Byte>)
    requires |h| == 4
    ensures Value(h) == (h[0] as int) * 0x100_0000 + (h[1] as int) * 0x1_0000 + (h[2] as int) * 0x100 + h[3]
  {
    assert h[..3][..2] == h[..2] && h[..2][..1] == h[..1] && h[..1][..0] == [];
    assert Value(h[..1]) == h[0] && Value(h[..2]) == 256 * Value(h[..1]) + h[1];
    assert Value(h[..3]) == 256 * Value(h[..2]) + h[2];
  }
}
