/**
 * The key exchange of a server session (sections 7 and 8 of RFC 4253 with curve25519-sha256): banner, KEXINIT,
 * KEXDH_INIT, NEWKEYS, and the other messages that move the session state.  Scalar multiplication, signing and
 * the outcome of sending are parameters.
 */
module SshKex {
  import opened Bytes
  import opened Octets
  import opened SshMpint
  import Sha256

  datatype Phase = Disconnected | ExchangeBanners | KexInit | KexDh | ExpectNewkeys | AuthStage | ConnectedShell

  datatype Keys = Keys(key: seq<Byte>, iv: seq<Byte>, mac: seq<Byte>)

  type Octets32 = s: seq<Byte> | |s| == 32 witness seq(32, _ => 0)

  // ---------------------------------------------------------------------------
  // The exchange hash and the keys
  // ---------------------------------------------------------------------------

  function Ascii(s: string): seq<Byte> { seq<Byte>(|s|, i requires 0 <= i < |s| => s[i] as int % 256) }

  /** A string in the sense of section 5 of RFC 4251. */
  function Str(s: seq<Byte>): seq<Byte> { BigEndian(|s|, 4) + s }

  const SERVER_BANNER: seq<Byte> := Ascii("SSH-2.0-SiriusSSH_0.1")
  const HOST_KEY_FORMAT: seq<Byte> := Ascii("ssh-ed25519")

  /** What the exchange hash covers. */
  datatype Transcript = Transcript(clientBanner: seq<Byte>, serverBanner: seq<Byte>, clientInit: seq<Byte>,
                                   serverInit: seq<Byte>, hostKey: seq<Byte>, e: seq<Byte>, f: seq<Byte>, k: seq<Byte>)

  function Encoded(t: Transcript): seq<Byte> {
    Str(t.clientBanner) + (Str(t.serverBanner) + (Str(t.clientInit) + (Str(t.serverInit)
    + (Str(t.hostKey) + (Str(t.e) + (Str(t.f) + Mpint(t.k)))))))
  }

  lemma StrFront(a: seq<Byte>, b: seq<Byte>, x: seq<Byte>, y: seq<Byte>)
    requires |a| < Pow256(4) && |b| < Pow256(4) && Str(a) + x == Str(b) + y
    ensures a == b && x == y
  {
    var s, t := Str(a) + x, Str(b) + y;
    assert BigEndian(|a|, 4) == s[..4] && BigEndian(|b|, 4) == t[..4];
    ValueOfBigEndian(|a|, 4);
    ValueOfBigEndian(|b|, 4);
    assert a == s[4..4 + |a|] && b == t[4..4 + |b|];
    assert x == s[4 + |a|..] && y == t[4 + |b|..];
  }

  ghost predicate Sized(t: Transcript) {
    && |t.clientBanner| < Pow256(4) && |t.serverBanner| < Pow256(4) && |t.clientInit| < Pow256(4)
    && |t.serverInit| < Pow256(4) && |t.hostKey| < Pow256(4) && |t.e| < Pow256(4) && |t.f| < Pow256(4) && |t.k| == 32
  }

  lemma MpintBinds(k: seq<Byte>, k': seq<Byte>)
    requires |k| == 32 && |k'| == 32 && Mpint(k) == Mpint(k')
    ensures k == k'
  {
    assert Mpint(k)[4..] == Body(k) && Mpint(k')[4..] == Body(k');
    BodyCanonical(k, Spaced(k));
    BodyCanonical(k', Spaced(k'));
    BigEndianOfValue(k);
    BigEndianOfValue(k');
  }

  /** Another string with a clear top bit and the value of `k`. */
  ghost function Spaced(k: seq<Byte>): (r: seq<Byte>)
    ensures Value(r) == Value(k) && r != [] && r[0] < 0x80
  {
    ValueFront(0, k);
    [0] + k
  }

  /** The hash input determines everything it covers, the shared secret included. */
  lemma TranscriptBinds(t: Transcript, u: Transcript)
    requires Sized(t) && Sized(u) && Encoded(t) == Encoded(u)
    ensures t == u
  {
    hide Str, Mpint, Pow256;
    var t7, u7 := Mpint(t.k), Mpint(u.k);
    var t6, u6 := Str(t.f) + t7, Str(u.f) + u7;
    var t5, u5 := Str(t.e) + t6, Str(u.e) + u6;
    var t4, u4 := Str(t.hostKey) + t5, Str(u.hostKey) + u5;
    var t3, u3 := Str(t.serverInit) + t4, Str(u.serverInit) + u4;
    var t2, u2 := Str(t.clientInit) + t3, Str(u.clientInit) + u3;
    var t1, u1 := Str(t.serverBanner) + t2, Str(u.serverBanner) + u2;
    StrFront(t.clientBanner, u.clientBanner, t1, u1);
    StrFront(t.serverBanner, u.serverBanner, t2, u2);
    StrFront(t.clientInit, u.clientInit, t3, u3);
    StrFront(t.serverInit, u.serverInit, t4, u4);
    StrFront(t.hostKey, u.hostKey, t5, u5);
    StrFront(t.e, u.e, t6, u6);
    StrFront(t.f, u.f, t7, u7);
    MpintBinds(t.k, u.k);
  }

  /** Section 7.2 of RFC 4253. */
  function Derived(f: Sha256.Compression, k: seq<Byte>, h: seq<Byte>, letter: char, id: seq<Byte>): (r: seq<Byte>)
    ensures |r| == 32
  {
    Sha256.Sha(f, Mpint(k) + (h + ([letter as int % 256] + id)))
  }

  function ClientToServer(f: Sha256.Compression, k: seq<Byte>, h: seq<Byte>, id: seq<Byte>): Keys {
    Keys(Derived(f, k, h, 'C', id)[..16], Derived(f, k, h, 'A', id)[..16], Derived(f, k, h, 'E', id))
  }

  function ServerToClient(f: Sha256.Compression, k: seq<Byte>, h: seq<Byte>, id: seq<Byte>): Keys {
    Keys(Derived(f, k, h, 'D', id)[..16], Derived(f, k, h, 'B', id)[..16], Derived(f, k, h, 'F', id))
  }

  // ---------------------------------------------------------------------------
  // Writing the hash input
  // ---------------------------------------------------------------------------

  method PutStr(buffer: array<Byte>, index: nat, s: seq<Byte>) returns (next: nat)
    requires index + 4 + |s| <= buffer.Length
    modifies buffer
    ensures next == index + 4 + |s| && buffer[..next] == old(buffer[..index]) + Str(s)
  {
    hide BigEndian;
    ghost var before := buffer[..index];
    var n := |s|;
    Sha256.SequenceOctets(n);
    buffer[index], buffer[index + 1] := n / 0x100_0000 % 256, n / 0x1_0000 % 256;
    buffer[index + 2], buffer[index + 3] := n / 0x100 % 256, n % 256;
    assert buffer[..index + 4] == before + BigEndian(n, 4);
    next := Copy(buffer, index + 4, s);
    assert before + BigEndian(n, 4) + s == before + Str(s);
  }

  /** The hash input in the order the reply builds it; refused when it might not fit. */
  method Transcribe(t: Transcript) returns (ok: bool, input: seq<Byte>)
    requires |t.e| == 32 && |t.f| == 32 && |t.k| == 32
    ensures ok <==> Required(t) <= 4096
    ensures ok ==> input == Encoded(t)
  {
    hide Str, Mpint;
    input := [];
    if Required(t) > 4096 { return false, []; }
    var h := new Byte[4096](_ => 0);
    var n := PutStr(h, 0, t.clientBanner);
    n := PutStr(h, n, t.serverBanner);
    n := PutStr(h, n, t.clientInit);
    n := PutStr(h, n, t.serverInit);
    n := PutStr(h, n, t.hostKey);
    ghost var front := h[..n];
    n := PutStr(h, n, t.e);
    n := PutStr(h, n, t.f);
    ok, n := Append(h, n, t.k);
    input := h[..n];
    Assembled(t, front, input);
  }

  lemma Assembled(t: Transcript, front: seq<Byte>, all: seq<Byte>)
    requires front == [] + Str(t.clientBanner) + Str(t.serverBanner) + Str(t.clientInit) + Str(t.serverInit) + Str(t.hostKey)
    requires all == front + Str(t.e) + Str(t.f) + Mpint(t.k)
    ensures all == Encoded(t)
  {
    hide Str, Mpint;
  }

  function Required(t: Transcript): nat {
    4 + |t.clientBanner| + 4 + |t.serverBanner| + 4 + |t.clientInit| + 4 + |t.serverInit| + 4 + |t.hostKey|
    + 4 + 32 + 4 + 32 + 4 + 33
  }

  /** The banner without the line ending. */
  function Stripped(b: seq<Byte>): seq<Byte> {
    if b != [] && (b[|b| - 1] == 13 || b[|b| - 1] == 10) then Stripped(b[..|b| - 1]) else b
  }

  method Strip(b: seq<Byte>) returns (r: seq<Byte>)
    ensures r == Stripped(b)
  {
    var n: nat := |b|;
    assert b[..n] == b;
    while n > 0 && (b[n - 1] == 13 || b[n - 1] == 10)
      invariant n <= |b| && Stripped(b) == Stripped(b[..n])
    {
      assert b[..n][..n - 1] == b[..n - 1];
      n := n - 1;
    }
    r := b[..n];
  }

  /** One key: the hash of secret, exchange hash, letter and session identifier. */
  method Derive(f: Sha256.Compression, k: seq<Byte>, h: seq<Byte>, letter: char, id: seq<Byte>) returns (r: seq<Byte>)
    requires |k| == 32 && |h| == 32 && |id| == 32
    ensures r == Derived(f, k, h, letter, id)
  {
    hide Mpint;
    var buffer := new Byte[128](_ => 0);
    var ok, n := Append(buffer, 0, k);
    n := Copy(buffer, n, h);
    n := Copy(buffer, n, [letter as int % 256]);
    n := Copy(buffer, n, id);
    assert buffer[..n] == Mpint(k) + (h + ([letter as int % 256] + id));
    r := Sha256.Hash(f, buffer[..n]);
  }
}
