/** A server session through its key exchange, and what every run of it keeps. */
module SshKexSession {
  import opened Bytes
  import opened SshKex
  import Sha256

  /** The messages of the exchange that were accepted, oldest first. */
  datatype Accept = AcceptKexinit | AcceptKexdh | AcceptNewkeys

  const KEXINIT: Byte := 20

  /** The payload of the server's KEXINIT: a fixed cookie and one algorithm of each kind. */
  function ServerOffer(): (r: seq<Byte>)
    ensures |r| == 143
  {
    seq<Byte>(16, i requires 0 <= i < 16 => i)
    + Str(Ascii("curve25519-sha256")) + Str(Ascii("ssh-ed25519"))
    + Str(Ascii("aes128-ctr")) + Str(Ascii("aes128-ctr"))
    + Str(Ascii("hmac-sha2-256")) + Str(Ascii("hmac-sha2-256"))
    + Str(Ascii("none")) + Str(Ascii("none")) + Str([]) + Str([]) + [0, 0, 0, 0, 0]
  }

  type ScalarMult = (seq<Byte>, seq<Byte>) -> Octets32

  type Signature = s: seq<Byte> | |s| == 64 witness seq(64, _ => 0)

  /** What reaches the session; the flags say how signing and sending end. */
  datatype Event =
    | Banner(text: seq<Byte>)
    | Kexinit(payload: seq<Byte>, sent: bool)
    | KexdhInit(payload: seq<Byte>, secret: seq<Byte>, public: Octets32, signature: Signature, signed: bool,
                sentReply: bool, sentNewkeys: bool)
    | Newkeys
    | UserAuth(accepted: bool)
    | Shell(accepted: bool)
    | Disconnect
    | Other

  // ---------------------------------------------------------------------------
  // The exchange as a protocol
  // ---------------------------------------------------------------------------

  /** From its first S on, and before any NUL, the banner reads SSH-2.0. */
  predicate BannerOk(text: seq<Byte>) {
    text != [] && text[0] != 0 && if text[0] == 83 then Ascii("SSH-2.0") <= text else BannerOk(text[1..])
  }

  /** The payload starts with a string of 32 octets. */
  predicate HasKey(payload: seq<Byte>) { |payload| >= 36 && payload[..4] == [0, 0, 0, 32] }

  /** What the next event depends on. */
  datatype View = View(phase: Phase, encrypted: bool, banner: seq<Byte>, clientInit: seq<Byte>)

  /** Banner and KEXINIT payload of the client leave room for the rest of the hash input. */
  predicate Hashable(v: View) { |Stripped(v.banner)| + |v.clientInit| <= 3751 }

  /** Whether an event is accepted. */
  predicate Accepts(v: View, e: Event) {
    match e
    case Banner(text) => BannerOk(text)
    case Kexinit(payload, sent) => v.phase == KexInit && |payload| < 4096 && sent
    case KexdhInit(payload, _, _, _, signed, sentReply, sentNewkeys) =>
      v.phase == KexDh && HasKey(payload) && Hashable(v) && signed && sentReply && sentNewkeys
    case Newkeys => v.phase == ExpectNewkeys
    case _ => true
  }

  function Next(v: View, e: Event): View {
    match e
    case Banner(text) => v.(phase := if BannerOk(text) then KexInit else v.phase, banner := text)
    case Kexinit(payload, _) =>
      if v.phase != KexInit || |payload| >= 4096 then v
      else v.(phase := if Accepts(v, e) then KexDh else KexInit, clientInit := [KEXINIT] + payload)
    case KexdhInit(_, _, _, _, _, _, _) => if Accepts(v, e) then v.(phase := ExpectNewkeys) else v
    case Newkeys => if Accepts(v, e) then v.(phase := AuthStage, encrypted := true) else v
    case UserAuth(accepted) => if accepted then v.(phase := AuthStage) else v
    case Shell(accepted) => if accepted then v.(phase := ConnectedShell) else v
    case Disconnect => v.(phase := Disconnected)
    case Other => v
  }

  /** The session after a run of events. */
  function After(v: View, events: seq<Event>): View {
    if events == [] then v else Next(After(v, events[..|events| - 1]), events[|events| - 1])
  }

  function Mark(v: View, e: Event): seq<Accept> {
    if !Accepts(v, e) then []
    else match e
      case Kexinit(_, _) => [AcceptKexinit]
      case KexdhInit(_, _, _, _, _, _, _) => [AcceptKexdh]
      case Newkeys => [AcceptNewkeys]
      case _ => []
  }

  /** The messages of the exchange a run of events has accepted, oldest first. */
  function Marks(v: View, events: seq<Event>): seq<Accept> {
    if events == [] then []
    else
      var n := |events| - 1;
      Marks(v, events[..n]) + Mark(After(v, events[..n]), events[n])
  }

  const START: View := View(ExchangeBanners, false, [], [])

  predicate OneBanner(events: seq<Event>) {
    forall i, j :: 0 <= i < j < |events| && events[i].Banner? ==> !events[j].Banner?
  }

  /** Where a run stands that has accepted `marks`. */
  ghost predicate InStep(v: View, marks: seq<Accept>, greeted: bool) {
    && marks <= [AcceptKexinit, AcceptKexdh, AcceptNewkeys]
    && (v.encrypted <==> |marks| == 3)
    && (v.phase == KexInit ==> marks == []) && (v.phase == KexDh ==> |marks| == 1)
    && (v.phase == ExpectNewkeys ==> |marks| == 2)
    && (!greeted ==> marks == [] && v.phase != KexInit)
  }

  /**
   * Over every run with one banner exchange the messages of the key exchange are accepted at most once each and in
   * order, and encryption is on exactly when all three were.
   */
  lemma {:induction false} EncryptedIff(events: seq<Event>)
    requires OneBanner(events)
    ensures Marks(START, events) <= [AcceptKexinit, AcceptKexdh, AcceptNewkeys]
    ensures After(START, events).encrypted <==> Marks(START, events) == [AcceptKexinit, AcceptKexdh, AcceptNewkeys]
  {
    RunInStep(events);
  }

  lemma {:induction false} RunInStep(events: seq<Event>)
    requires OneBanner(events)
    ensures InStep(After(START, events), Marks(START, events), exists i :: 0 <= i < |events| && events[i].Banner?)
  {
    hide Next, Mark;
    if events != [] {
      var n := |events| - 1;
      var front := events[..n];
      RunInStep(front);
      var greeted := exists i :: 0 <= i < |front| && front[i].Banner?;
      if greeted {
        var i :| 0 <= i < |front| && front[i].Banner?;
        assert events[i].Banner?;
      }
      assert (exists i :: 0 <= i < |events| && events[i].Banner?) <==> greeted || events[n].Banner?;
      NextInStep(After(START, front), Marks(START, front), greeted, events[n]);
    }
  }

  lemma NextInStep(v: View, marks: seq<Accept>, greeted: bool, e: Event)
    requires InStep(v, marks, greeted) && !(greeted && e.Banner?)
    ensures InStep(Next(v, e), marks + Mark(v, e), greeted || e.Banner?)
  {
    hide BannerOk, HasKey, Hashable;
  }

  /** The client's KEXINIT may be accepted and the exchange still be bound to fail, for want of room in the hash input. */
  lemma TooLongToHash(v: View, payload: seq<Byte>, e: Event)
    requires v.phase == KexInit && |payload| < 4096 && e.KexdhInit?
    requires |Stripped(v.banner)| + |payload| > 3750
    ensures var w := Next(v, Kexinit(payload, true));
      w.phase == KexDh && !Accepts(w, e) && Next(w, e) == w
  {
  }

  /** K_S, f and the signature, as the client reads them (section 8 of RFC 4253). */
  function Reply(hostKey: Octets32, public: Octets32, signature: Signature): seq<Byte> {
    Str(Str(HOST_KEY_FORMAT) + Str(hostKey)) + Str(public) + Str(Str(HOST_KEY_FORMAT) + Str(signature))
  }

  class Session {
    const f: Sha256.Compression
    const mult: ScalarMult
    const hostKey: Octets32
    var state: Phase
    var encrypted: bool
    var clientBanner: seq<Byte>
    var clientInit: seq<Byte>
    var serverInit: seq<Byte>
    var clientE: Octets32
    var publicY: Octets32
    var sharedK: Octets32
    var exchangeHash: Octets32
    var sessionId: Octets32
    var sessionIdSet: bool
    var inbound: Keys
    var outbound: Keys
    ghost var bannerDone: bool
    ghost var accepted: seq<Accept>

    ghost function Look(): View
      reads this
    {
      View(state, encrypted, clientBanner, clientInit)
    }

    constructor (f: Sha256.Compression, mult: ScalarMult, hostKey: Octets32)
      ensures Ordered() && Keyed() && Look() == START && accepted == [] && !sessionIdSet && !bannerDone
      ensures this.f == f && this.mult == mult && this.hostKey == hostKey
    {
      this.f, this.mult, this.hostKey := f, mult, hostKey;
      state, encrypted, sessionIdSet, bannerDone, accepted := ExchangeBanners, false, false, false, [];
      clientBanner, clientInit, serverInit := [], [], [];
      var zeros: Octets32 := seq(32, _ => 0);
      clientE, publicY, sharedK, exchangeHash, sessionId := zeros, zeros, zeros, zeros, zeros;
      inbound, outbound := Keys([], [], []), Keys([], [], []);
    }

    /** KEXINIT, KEXDH_INIT and NEWKEYS are accepted once each, in this order, and the last one turns encryption on. */
    ghost predicate Ordered()
      reads this
    {
      && accepted <= [AcceptKexinit, AcceptKexdh, AcceptNewkeys]
      && (encrypted <==> |accepted| == 3)
      && (state == ExchangeBanners ==> accepted == [])
      && (state == KexInit ==> accepted == [] && bannerDone)
      && (state == KexDh ==> |accepted| == 1 && serverInit == [KEXINIT] + ServerOffer())
      && (state == ExpectNewkeys ==> |accepted| == 2)
      && (accepted != [] ==> bannerDone)
    }

    /** Once both ends may use them, both directions' keys come from one secret, one hash and the session identifier. */
    ghost predicate Keyed()
      reads this
    {
      && (state == ExpectNewkeys || encrypted ==>
            sessionIdSet && outbound == ServerToClient(f, sharedK, exchangeHash, sessionId))
      && (encrypted ==> inbound == ClientToServer(f, sharedK, exchangeHash, sessionId))
    }

    method ProcessKexinit(payload: seq<Byte>, sent: bool) returns (code: int)
      requires Ordered() && Keyed()
      modifies this`state, this`clientInit, this`serverInit, this`accepted
      ensures Ordered() && Keyed()
      ensures code == 0 <==> old(state) == KexInit && |payload| < 4096 && sent
      ensures code == 0 ==> clientInit == [KEXINIT] + payload && serverInit == [KEXINIT] + ServerOffer()
      ensures Look() == Next(old(Look()), Kexinit(payload, sent))
      ensures accepted == old(accepted) + Mark(old(Look()), Kexinit(payload, sent))
    {
      hide ServerOffer;
      if state != KexInit { return -2; }
      if |payload| + 1 > 4096 { return -3; }
      clientInit := [KEXINIT] + payload;
      serverInit := [KEXINIT] + ServerOffer();
      if !sent { return -3; }
      state := KexDh;
      accepted := accepted + [AcceptKexinit];
      code := 0;
    }

    ghost function Covered(): Transcript
      reads this
    {
      Transcript(Stripped(clientBanner), SERVER_BANNER, clientInit, serverInit, Str(HOST_KEY_FORMAT) + Str(hostKey),
                 clientE, publicY, sharedK)
    }

    /** ssh_build_kexdh_reply. */
    method BuildReply(signature: Signature, signed: bool) returns (ok: bool, reply: seq<Byte>)
      requires state == KexDh && !encrypted && serverInit == [KEXINIT] + ServerOffer()
      modifies this`exchangeHash, this`sessionId, this`sessionIdSet, this`outbound
      ensures ok <==> Hashable(Look()) && signed
      ensures old(sessionIdSet) ==> sessionIdSet && sessionId == old(sessionId)
      ensures ok ==> exchangeHash == Sha256.Sha(f, Encoded(Covered())) && sessionIdSet
      ensures ok && !old(sessionIdSet) ==> sessionId == exchangeHash
      ensures ok ==> outbound == ServerToClient(f, sharedK, exchangeHash, sessionId)
      ensures ok ==> reply == Reply(hostKey, publicY, signature)
    {
      hide Stripped, Str, Encoded, Derived, ServerOffer, Required, ServerToClient, Sha256.Sha;
      reply := [];
      var banner := Strip(clientBanner);
      var blob := Str(HOST_KEY_FORMAT) + Str(hostKey);
      var t := Transcript(banner, SERVER_BANNER, clientInit, serverInit, blob, clientE, publicY, sharedK);
      RequiredIs(t, hostKey);
      var input;
      ok, input := Transcribe(t);
      if !ok { return; }
      exchangeHash := Sha256.Hash(f, input);
      if !sessionIdSet { sessionId, sessionIdSet := exchangeHash, true; }
      outbound := DeriveOutbound();
      ok := signed;
      if ok { reply := Assemble(blob, publicY, Str(HOST_KEY_FORMAT) + Str(signature)); }
    }

    method DeriveOutbound() returns (keys: Keys)
      ensures keys == ServerToClient(f, sharedK, exchangeHash, sessionId)
    {
      hide Derived;
      var key := Derive(f, sharedK, exchangeHash, 'D', sessionId);
      var iv := Derive(f, sharedK, exchangeHash, 'B', sessionId);
      var mac := Derive(f, sharedK, exchangeHash, 'F', sessionId);
      keys := Keys(key[..16], iv[..16], mac);
    }

    method DeriveInbound() returns (keys: Keys)
      ensures keys == ClientToServer(f, sharedK, exchangeHash, sessionId)
    {
      hide Derived;
      var iv := Derive(f, sharedK, exchangeHash, 'A', sessionId);
      var key := Derive(f, sharedK, exchangeHash, 'C', sessionId);
      var mac := Derive(f, sharedK, exchangeHash, 'E', sessionId);
      keys := Keys(key[..16], iv[..16], mac);
    }

    method ProcessKexdhInit(payload: seq<Byte>, secret: seq<Byte>, public: Octets32, signature: Signature, signed: bool,
                            sentReply: bool, sentNewkeys: bool) returns (code: int, reply: seq<Byte>)
      requires Ordered() && Keyed()
      modifies this`state, this`clientE, this`publicY, this`sharedK, this`exchangeHash, this`sessionId,
               this`sessionIdSet, this`outbound, this`accepted
      ensures Ordered() && Keyed()
      ensures old(sessionIdSet) ==> sessionIdSet && sessionId == old(sessionId)
      ensures old(state) != KexDh ==> code != 0 && sharedK == old(sharedK) && exchangeHash == old(exchangeHash)
      ensures old(state) != KexDh ==> outbound == old(outbound)
      ensures var e := KexdhInit(payload, secret, public, signature, signed, sentReply, sentNewkeys);
        && (code == 0 <==> Accepts(old(Look()), e)) && Look() == Next(old(Look()), e)
        && accepted == old(accepted) + Mark(old(Look()), e)
      ensures code == 0 ==> sharedK == mult(secret, clientE) && publicY == public
      ensures code == 0 ==> Str(clientE) <= payload && reply == Reply(hostKey, publicY, signature)
      ensures code == 0 ==> exchangeHash == Sha256.Sha(f, Encoded(Covered()))
    {
      hide Sha256.Sha, Encoded, Str, ServerToClient, ClientToServer, Stripped, Hashable, ServerOffer, HasKey;
      hide Accepts, Next, Mark, KeyLengthField, Reply;
      reply := [];
      KexdhIs(Look(), KexdhInit(payload, secret, public, signature, signed, sentReply, sentNewkeys));
      KeyLength(payload);
      if state != KexDh { return -2, reply; }
      if |payload| < 4 { return -3, reply; }
      var length := KeyLengthField(payload);
      if length != 32 || |payload| < 36 { return -4, reply; }
      ClientKey(payload);
      clientE := payload[4..36];
      publicY := public;
      sharedK := mult(secret, clientE);
      var ok;
      ok, reply := BuildReply(signature, signed);
      if !ok { return -5, reply; }
      if !sentReply { return -6, reply; }
      if !sentNewkeys { return -7, reply; }
      state := ExpectNewkeys;
      accepted := accepted + [AcceptKexdh];
      code := 0;
    }

    method ProcessNewkeys() returns (code: int)
      requires Ordered() && Keyed()
      modifies this`state, this`inbound, this`encrypted, this`accepted
      ensures Ordered() && Keyed()
      ensures code == 0 <==> old(state) == ExpectNewkeys
      ensures Look() == Next(old(Look()), Newkeys) && accepted == old(accepted) + Mark(old(Look()), Newkeys)
      ensures code != 0 ==> unchanged(this)
    {
      hide ServerToClient, ClientToServer;
      if state != ExpectNewkeys { return -2; }
      inbound := DeriveInbound();
      encrypted := true;
      state := AuthStage;
      accepted := accepted + [AcceptNewkeys];
      code := 0;
    }

    /** One event of a session with one banner exchange. */
    method Handle(e: Event) returns (code: int)
      requires Ordered() && Keyed() && !(e.Banner? && bannerDone)
      modifies this
      ensures Ordered() && Keyed() && (bannerDone <==> old(bannerDone) || e.Banner?)
      ensures (code == 0 <==> Accepts(old(Look()), e)) && Look() == Next(old(Look()), e)
      ensures accepted == old(accepted) + Mark(old(Look()), e)
      ensures old(sessionIdSet) ==> sessionIdSet && sessionId == old(sessionId)
      ensures old(encrypted) ==> encrypted && inbound == old(inbound) && outbound == old(outbound)
    {
      hide Sha256.Sha, ServerToClient, ClientToServer, Encoded, Stripped, BannerOk, HasKey, Hashable, ServerOffer;
      code := 0;
      match e {
        case Banner(text) =>
          bannerDone := true;
          clientBanner := text;
          if BannerOk(text) { state := KexInit; } else { code := -4; }
        case Kexinit(payload, sent) => code := ProcessKexinit(payload, sent);
        case KexdhInit(payload, secret, public, signature, signed, sentReply, sentNewkeys) =>
          var reply;
          code, reply := ProcessKexdhInit(payload, secret, public, signature, signed, sentReply, sentNewkeys);
        case Newkeys => code := ProcessNewkeys();
        case UserAuth(accepted) => if accepted { state := AuthStage; }
        case Shell(accepted) => if accepted { state := ConnectedShell; }
        case Disconnect => state := Disconnected;
        case Other =>
      }
    }
  }

  method Assemble(a: seq<Byte>, b: seq<Byte>, c: seq<Byte>) returns (r: seq<Byte>)
    requires |a| == 51 && |b| == 32 && |c| == 83
    ensures r == Str(a) + Str(b) + Str(c)
  {
    hide Str;
    var buffer := new Byte[512](_ => 0);
    var n := PutStr(buffer, 0, a);
    n := PutStr(buffer, n, b);
    n := PutStr(buffer, n, c);
    r := buffer[..n];
    assert buffer[..0] == [];
  }

  lemma RequiredIs(t: Transcript, hostKey: Octets32)
    requires t.serverBanner == SERVER_BANNER && |t.serverInit| == 144 && t.hostKey == Str(HOST_KEY_FORMAT) + Str(hostKey)
    ensures Required(t) == 345 + |t.clientBanner| + |t.clientInit| && |t.hostKey| == 51
    ensures forall s: Signature :: |Str(HOST_KEY_FORMAT) + Str(s)| == 83
  {
    assert |SERVER_BANNER| == 21 && |HOST_KEY_FORMAT| == 11;
  }

  lemma KexdhIs(v: View, e: Event)
    requires e.KexdhInit?
    ensures Accepts(v, e) <==>
      v.phase == KexDh && HasKey(e.payload) && Hashable(v) && e.signed && e.sentReply && e.sentNewkeys
    ensures Next(v, e) == if Accepts(v, e) then v.(phase := ExpectNewkeys) else v
    ensures Mark(v, e) == if Accepts(v, e) then [AcceptKexdh] else []
  {
  }

  function KeyLengthField(b: seq<Byte>): nat
    requires |b| >= 4
  {
    (b[0] as int) * 0x100_0000 + (b[1] as int) * 0x1_0000 + (b[2] as int) * 0x100 + b[3]
  }

  lemma KeyLength(payload: seq<Byte>)
    ensures HasKey(payload) <==> |payload| >= 36 && KeyLengthField(payload) == 32
  {
    if |payload| >= 36 { assert payload[..4] == [payload[0], payload[1], payload[2], payload[3]]; }
  }

  lemma ClientKey(payload: seq<Byte>)
    requires |payload| >= 36
    requires KeyLengthField(payload) == 32
    ensures Str(payload[4..36]) <= payload
  {
    Sha256.SequenceOctets(32);
    assert payload[..36] == Str(payload[4..36]);
  }

  /**
   * Every run of a session with at most one banner exchange answers as the protocol does, event by event, and keeps
   * the keys: encryption never goes off, its keys stay, and the session identifier stays once it is set.
   */
  method Drive(s: Session, events: seq<Event>) returns (codes: seq<int>)
    requires s.Ordered() && s.Keyed() && OneBanner(events)
    requires s.bannerDone ==> forall i :: 0 <= i < |events| ==> !events[i].Banner?
    modifies s
    ensures s.Ordered() && s.Keyed() && |codes| == |events|
    ensures s.Look() == After(old(s.Look()), events) && s.accepted == old(s.accepted) + Marks(old(s.Look()), events)
    ensures forall i :: 0 <= i < |events| ==> (codes[i] == 0 <==> AcceptsAt(old(s.Look()), events, i))
    ensures old(s.sessionIdSet) ==> s.sessionIdSet && s.sessionId == old(s.sessionId)
    ensures old(s.encrypted) ==> s.encrypted && s.inbound == old(s.inbound) && s.outbound == old(s.outbound)
  {
    hide Session.Ordered, Session.Keyed, Accepts, Next, Mark;
    codes := [];
    ghost var v := s.Look();
    for n := 0 to |events|
      invariant s.Ordered() && s.Keyed() && |codes| == n
      invariant s.bannerDone ==> forall i :: n <= i < |events| ==> !events[i].Banner?
      invariant s.Look() == After(v, events[..n]) && s.accepted == old(s.accepted) + Marks(v, events[..n])
      invariant forall i :: 0 <= i < n ==> (codes[i] == 0 <==> AcceptsAt(v, events, i))
      invariant old(s.sessionIdSet) ==> s.sessionIdSet && s.sessionId == old(s.sessionId)
      invariant old(s.encrypted) ==> s.encrypted && s.inbound == old(s.inbound) && s.outbound == old(s.outbound)
    {
      assert events[..n + 1][..n] == events[..n];
      var code := s.Handle(events[n]);
      codes := codes + [code];
    }
    assert events[..|events|] == events;
  }

  /** Event `i` of a run is accepted where the events before it have led. */
  predicate AcceptsAt(v: View, events: seq<Event>, i: nat)
    requires i < |events|
  {
    Accepts(After(v, events[..i]), events[i])
  }
}
