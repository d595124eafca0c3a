/** Whole runs of OSCORE: a client and a server that stay in step, and the numbers one sender uses. */
module Runs {
  import opened Bytes
  import opened OscoreErrors
  import opened Coap
  import opened Options
  import opened Hkdf
  import opened Cbor
  import opened Nonce
  import opened OscoreValue
  import opened Aad
  import opened Context
  import opened OscoreWire
  import opened Protect
  import opened Unprotect
  import opened RoundTrip
  import SplitMerge

  // ----- client and server over a lossy link -----

  /** The client sends a request, or the server a response, through a buffer of `cap` bytes; the link may lose it. */
  datatype Event =
    | Request(buf: bytes, cap: uint16, delivered: bool)
    | Response(buf: bytes, cap: uint16, delivered: bool)

  /** Both endpoints; `paired` when the last request of the client reached the server. */
  datatype Link = Link(client: State, server: State, paired: bool)

  function IsRequestBytes(buf: bytes): bool {
    Parse(buf).Ok? && IsRequest(Parse(buf).value.code)
  }

  /** What a call with the CoAP packet in `buf` sends, and the context afterwards. */
  function SendBytes(cr: Crypto, st: State, buf: bytes, cap: uint16): (Result<bytes>, State) {
    match Parse(buf)
    case Err(e) => (Err(e), st)
    case Ok(p) => Send(cr, st, p, cap)
  }

  /** The link after an event, and what was received if something was. */
  function Step(cr: Crypto, l: Link, e: Event): (Link, Option<Result<Option<Packet>>>) {
    if e.Request? then
      if !IsRequestBytes(e.buf) then (l, None)
      else
        var sent := SendBytes(cr, l.client, e.buf, e.cap);
        if sent.0.Err? || !e.delivered then (Link(sent.1, l.server, false), None)
        else
          var received := UnprotectBytes(cr, l.server, sent.0.value);
          (Link(sent.1, received.1, received.0.Ok?), Some(received.0))
    else
      if IsRequestBytes(e.buf) then (l, None)
      else
        var sent := SendBytes(cr, l.server, e.buf, e.cap);
        if sent.0.Err? || !e.delivered then (Link(l.client, sent.1, l.paired), None)
        else
          var received := UnprotectBytes(cr, l.client, sent.0.value);
          (Link(received.1, sent.1, l.paired), Some(received.0))
  }

  /** What holds at every moment of a run. */
  ghost predicate InStep(hmac: Hmac, l: Link) {
    && Adopts(hmac, l.client, l.server)
    && (l.paired ==> Mirrored(hmac, l.client, l.server) && Paired(l.client, l.server))
  }

  /** What can be checked before an event: a packet that is to arrive lies in the domain. */
  predicate Proper(l: Link, e: Event) {
    e.delivered ==>
      && Parse(e.buf).Ok?
      && (e.Request? ==> RequestDeliverable(l.client, Parse(e.buf).value, e.cap))
      && (e.Response? ==> l.paired && ResponseDeliverable(Parse(e.buf).value, e.cap))
  }

  predicate ProperRun(cr: Crypto, l: Link, es: seq<Event>)
    decreases |es|
  {
    es == [] || (Proper(l, es[0]) && ProperRun(cr, Step(cr, l, es[0]).0, es[1..]))
  }

  /** A packet that was to arrive was received as the packet the sender parsed. */
  predicate Received(cr: Crypto, l: Link, e: Event) {
    e.delivered ==> Parse(e.buf).Ok? && Step(cr, l, e).1 == Some(Ok(Some(Parse(e.buf).value)))
  }

  predicate AllReceived(cr: Crypto, l: Link, es: seq<Event>)
    decreases |es|
  {
    es == [] || (Received(cr, l, es[0]) && AllReceived(cr, Step(cr, l, es[0]).0, es[1..]))
  }

  function Final(cr: Crypto, l: Link, es: seq<Event>): Link
    decreases |es|
  {
    if es == [] then l else Final(cr, Step(cr, l, es[0]).0, es[1..])
  }

  /** Sending changes nothing that the two endpoints must have in common. */
  lemma ClientStaysAdopted(cr: Crypto, client: State, server: State, buf: bytes)
    requires Adopts(cr.hmac, client, server)
    ensures Adopts(cr.hmac, ProtectBytes(cr, client, buf).1, server)
  {
    hide Derive, SeqNum2Piv, NonceOf, AadOf, OscoreValue.Value, Parse, Finish, PlaintextOf;
  }

  lemma ResponsesChangeNothing(cr: Crypto, st: State, buf: bytes)
    requires !IsRequestBytes(buf)
    ensures ProtectBytes(cr, st, buf).1 == st
  {
    hide NextRequest, Parse, Finish, PlaintextOf, IsRequest;
  }

  lemma SendsProtected(cr: Crypto, st: State, buf: bytes, cap: uint16)
    ensures SendBytes(cr, st, buf, cap).1 == ProtectBytes(cr, st, buf).1
    ensures Parse(buf).Ok? ==> SendBytes(cr, st, buf, cap) == Send(cr, st, Parse(buf).value, cap)
  {
    hide Parse, ProtectPacket, WritePacket;
  }

  lemma RequestStep(cr: Crypto, l: Link, e: Event)
    requires AeadCorrect(cr) && InStep(cr.hmac, l) && Proper(l, e) && e.Request?
    ensures InStep(cr.hmac, Step(cr, l, e).0) && Received(cr, l, e)
    ensures e.delivered ==> Step(cr, l, e).0.paired
  {
    hide Mirrored, Adopts, Paired, Parse, SendBytes, Send, ProtectBytes, UnprotectBytes, RequestDeliverable,
         ResponseDeliverable, IsRequest;
    ClientStaysAdopted(cr, l.client, l.server, e.buf);
    SendsProtected(cr, l.client, e.buf, e.cap);
    if e.delivered {
      var p := Parse(e.buf).value;
      RequestRoundTrip(cr, l.client, l.server, p, e.cap);
      RequestDeliverableMeans(l.client, p, e.cap);
      MirroredAdopts(cr.hmac, Step(cr, l, e).0.client, Step(cr, l, e).0.server);
    }
  }

  lemma ResponseStep(cr: Crypto, l: Link, e: Event)
    requires AeadCorrect(cr) && InStep(cr.hmac, l) && Proper(l, e) && e.Response?
    ensures InStep(cr.hmac, Step(cr, l, e).0) && Received(cr, l, e)
  {
    hide Mirrored, Adopts, Paired, Parse, SendBytes, Send, ProtectBytes, UnprotectBytes, RequestDeliverable,
         ResponseDeliverable, IsRequest;
    SendsProtected(cr, l.server, e.buf, e.cap);
    if !IsRequestBytes(e.buf) {
      ResponsesChangeNothing(cr, l.server, e.buf);
    }
    if e.delivered {
      var p := Parse(e.buf).value;
      ResponseRoundTrip(cr, l.client, l.server, p, e.cap);
      ResponseDeliverableMeans(p, e.cap);
    }
  }

  /**
   * Over any run of requests and responses, with losses, the server can go on adopting the
   * client's ID context; both have the same one, and the same Partial IV, nonce and AAD, whenever
   * the last request arrived; and every packet that was to arrive is recovered as it was sent.
   */
  lemma {:induction false} RunAgreement(cr: Crypto, l: Link, es: seq<Event>)
    requires AeadCorrect(cr) && InStep(cr.hmac, l) && ProperRun(cr, l, es)
    ensures InStep(cr.hmac, Final(cr, l, es)) && AllReceived(cr, l, es)
    decreases |es|
  {
    hide InStep, Step, Proper, Received;
    if es != [] {
      if es[0].Request? {
        RequestStep(cr, l, es[0]);
      } else {
        ResponseStep(cr, l, es[0]);
      }
      RunAgreement(cr, Step(cr, l, es[0]).0, es[1..]);
    }
  }

  /**
   * The same from initialisation with swapped ids and the same secret and salt; the server's own
   * ID context may be any that is no shorter than the client's.
   */
  lemma RunFromInit(cr: Crypto, p: InitParams, p': InitParams, es: seq<Event>)
    requires AeadCorrect(cr)
    requires p.dev == CLIENT && |p.idContext| <= |p'.idContext|
    requires p' == p.(dev := SERVER, senderId := p.recipientId, recipientId := p.senderId, idContext := p'.idContext)
    requires InitState(cr.hmac, p).Ok?
    ensures InitState(cr.hmac, p').Ok?
    ensures var l := Link(InitState(cr.hmac, p).value, InitState(cr.hmac, p').value, false);
            ProperRun(cr, l, es) ==> InStep(cr.hmac, Final(cr, l, es)) && AllReceived(cr, l, es)
  {
    hide InitState, Mirrored, Adopts, Final, AllReceived, ProperRun;
    InitAdopts(cr.hmac, p, p');
    var l := Link(InitState(cr.hmac, p).value, InitState(cr.hmac, p').value, false);
    if ProperRun(cr, l, es) {
      RunAgreement(cr, l, es);
    }
  }

  // ----- the keys of one endpoint, whatever it sends or receives -----

  datatype Call = Sending(buf: bytes) | Receiving(buf: bytes)

  function AfterCall(cr: Crypto, st: State, call: Call): State {
    if call.Sending? then ProtectBytes(cr, st, call.buf).1 else UnprotectBytes(cr, st, call.buf).1
  }

  function AfterCalls(cr: Crypto, st: State, calls: seq<Call>): State
    decreases |calls|
  {
    if calls == [] then st else AfterCalls(cr, AfterCall(cr, st, calls[0]), calls[1..])
  }

  lemma SendingKeeps(cr: Crypto, st: State, buf: bytes)
    ensures Kept(cr.hmac, st, ProtectBytes(cr, st, buf).1)
  {
    hide Derive, SeqNum2Piv, NonceOf, AadOf, OscoreValue.Value, Parse, Finish, PlaintextOf, IsRequest;
  }

  lemma ReceivingKeeps(cr: Crypto, st: State, buf: bytes)
    ensures Kept(cr.hmac, st, UnprotectBytes(cr, st, buf).1)
  {
    hide Derive, UpdateServer, Parse, Open, IsRequest, FindOscore;
    if Parse(buf).Ok? {
      var found := FindOscore(Parse(buf).value.options, None);
      if found.Ok? && found.value.Some? && found.value.value.Fields? {
        UpdateKeeps(cr.hmac, st, found.value.value.piv, found.value.value.kidContext);
      }
    }
  }

  /**
   * Whatever bytes an endpoint is given to send or to receive, in any order and whether the
   * calls succeed or fail: Common IV, sender key and recipient key stay the KDF of the current
   * secret, salt, ids and ID context, and the ID context never grows.
   */
  lemma {:induction false} KeysOverRun(cr: Crypto, st: State, calls: seq<Call>)
    ensures Kept(cr.hmac, st, AfterCalls(cr, st, calls))
    decreases |calls|
  {
    hide ProtectBytes, UnprotectBytes, Derive;
    if calls != [] {
      SendingKeeps(cr, st, calls[0].buf);
      ReceivingKeeps(cr, st, calls[0].buf);
      KeysOverRun(cr, AfterCall(cr, st, calls[0]), calls[1..]);
    }
  }

  /**
   * From initialisation on, at every moment, Common IV, sender key and recipient key are the HMAC
   * of the initial secret and salt over the own ids, the ID context then held, and the type.
   */
  lemma KeysFromInit(cr: Crypto, p: InitParams, calls: seq<Call>)
    requires InitState(cr.hmac, p).Ok?
    ensures var st := AfterCalls(cr, InitState(cr.hmac, p).value, calls);
            && KeysConsistent(cr.hmac, st)
            && KeysWritten(cr.hmac, p.masterSecret, p.masterSalt, p.senderId, p.recipientId, st)
            && |st.cc.idContext| <= |p.idContext|
            && st.sc.senderId == p.senderId && st.rc.recipientId == p.recipientId
  {
    hide AfterCalls, KeyOf, IvOf, KeysWritten;
    InitConsistent(cr.hmac, p);
    InitWritten(cr.hmac, p);
    KeysOverRun(cr, InitState(cr.hmac, p).value, calls);
    ConsistentMeansWritten(cr.hmac, AfterCalls(cr, InitState(cr.hmac, p).value, calls));
  }

  /** An endpoint whose two ids differ never has one key from one HMAC input for both directions. */
  lemma KeysStayApart(cr: Crypto, p: InitParams, calls: seq<Call>)
    requires InitState(cr.hmac, p).Ok? && p.senderId != p.recipientId
    ensures var st, prk := AfterCalls(cr, InitState(cr.hmac, p).value, calls),
                           Prk(cr.hmac, p.masterSecret, p.masterSalt);
            var a := KeyInfo(p.senderId, st.cc.idContext) + [0x01];
            var b := KeyInfo(p.recipientId, st.cc.idContext) + [0x01];
            && a != b && st.sc.senderKey == cr.hmac(prk, a)[..16] && st.rc.recipientKey == cr.hmac(prk, b)[..16]
  {
    hide *;
    KeysFromInit(cr, p, calls);
    KeysApart(cr.hmac, p.masterSecret, p.masterSalt, p.senderId, p.recipientId,
              AfterCalls(cr, InitState(cr.hmac, p).value, calls));
  }

  // ----- the sequence numbers of one sender -----

  /** A call draws a number when it gets as far as the increment. */
  predicate Draws(buf: bytes) {
    IsRequestBytes(buf) && PlaintextOf(Parse(buf).value).Ok?
  }

  /** Whether an OSCORE packet carries an OSCORE option with this value. */
  ghost predicate Carries(q: Packet, value: bytes) {
    exists o <- q.options :: o.number == OSCORE && o.value == value
  }

  /**
   * One call: the counter advances exactly when a request gets as far as the increment, also
   * if it then fails; an emitted request carries the shortest form, 1 to 5 bytes, of the
   * counter before the call; everything else of the context stays.
   */
  lemma OneCall(cr: Crypto, st: State, buf: bytes)
    ensures var (sent, st') := ProtectBytes(cr, st, buf);
            && st'.sc.senderSeqNum == (if Draws(buf) then U64(st.sc.senderSeqNum + 1) else st.sc.senderSeqNum)
            && (!Draws(buf) ==> st' == st)
            && st'.rrc.kid == st.rrc.kid && st'.cc == st.cc
            && (sent.Ok? && IsRequestBytes(buf) ==>
                  && Draws(buf) && st.sc.senderSeqNum < 0x100_0000_0000
                  && st.rrc.kidContext.Some?
                  && st'.rrc.piv.Some? && 1 <= |st'.rrc.piv.value|
                  && SeqNum2Piv(st.sc.senderSeqNum) == Ok(st'.rrc.piv.value)
                  && LittleEndianValue(st'.rrc.piv.value) == st.sc.senderSeqNum
                  && st'.rrc.nonce == Some(NonceOf(st.rrc.kid, st'.rrc.piv.value, st.cc.commonIv))
                  && Carries(sent.value, OscoreValue.Value(st'.rrc.piv.value, st.rrc.kid, st.rrc.kidContext.value)))
  {
    SeqNum2PivCorrect(st.sc.senderSeqNum);
    hide SeqNum2Piv, LittleEndianValue, NonceOf, AadOf, OscoreValue.Value, Parse, Finish, PlaintextOf, U64,
         IsRequest, Carries;
    var (sent, st') := ProtectBytes(cr, st, buf);
    if sent.Ok? && IsRequestBytes(buf) {
      var p := Parse(buf).value;
      FinishCarries(cr, st', p, Split(p.options, 0, 0, 0).u, NextRequest(st).0.value, PlaintextOf(p).value);
    }
  }

  lemma FinishCarries(cr: Crypto, st: State, p: Packet, us: seq<CoapOption>, value: Value, plaintext: bytes)
    ensures var r := Finish(cr, st, p, us, value, plaintext); r.Ok? ==> Carries(r.value, value)
  {
    SplitMerge.OscoreIsAmong(us, value);
    var k, w := OscorePosition(us), WithOscore(us, value);
    hide WithOscore, EncStructure;
    assert w[k] in w;
  }

  /** An emitted request: the number its Partial IV spells, and its nonce. */
  datatype Emission = Emission(number: nat, nonce: Iv)

  /** The requests emitted by a run of calls. */
  function Emissions(cr: Crypto, st: State, bufs: seq<bytes>): seq<Emission>
    decreases |bufs|
  {
    if bufs == [] then []
    else
      var (sent, st') := ProtectBytes(cr, st, bufs[0]);
      OneCall(cr, st, bufs[0]);
      (if sent.Ok? && IsRequestBytes(bufs[0])
       then [Emission(LittleEndianValue(st'.rrc.piv.value), st'.rrc.nonce.value)] else [])
      + Emissions(cr, st', bufs[1..])
  }

  lemma EmissionsStep(cr: Crypto, st: State, bufs: seq<bytes>)
    requires bufs != []
    ensures var (sent, st') := ProtectBytes(cr, st, bufs[0]);
            var n := st.sc.senderSeqNum;
            var rest := Emissions(cr, st', bufs[1..]);
            Emissions(cr, st, bufs)
            == if sent.Ok? && IsRequestBytes(bufs[0]) && SeqNum2Piv(n).Ok?
               then [Emission(n, NonceOf(st.rrc.kid, SeqNum2Piv(n).value, st.cc.commonIv))] + rest
               else rest
  {
    hide SeqNum2Piv, LittleEndianValue, NonceOf, ProtectBytes, Draws, IsRequestBytes, Carries, OscoreValue.Value;
    OneCall(cr, st, bufs[0]);
    var rest := Emissions(cr, ProtectBytes(cr, st, bufs[0]).1, bufs[1..]);
    assert [] + rest == rest;
  }

  /** The numbers of a run lie between the counter and its later values, and below 2^40. */
  lemma {:induction false} NumbersInRange(cr: Crypto, st: State, bufs: seq<bytes>, i: nat)
    requires st.sc.senderSeqNum + |bufs| < 0x1_0000_0000_0000_0000
    requires i < |Emissions(cr, st, bufs)|
    ensures var e := Emissions(cr, st, bufs)[i];
            && st.sc.senderSeqNum <= e.number < 0x100_0000_0000
            && SeqNum2Piv(e.number).Ok?
            && e.nonce == NonceOf(st.rrc.kid, SeqNum2Piv(e.number).value, st.cc.commonIv)
    decreases |bufs|
  {
    hide *;
    if bufs == [] {
      EmissionsOfNothing(cr, st);
    } else {
      var st' := ProtectBytes(cr, st, bufs[0]).1;
      CounterStep(cr, st, bufs);
      var all, rest := Emissions(cr, st, bufs), Emissions(cr, st', bufs[1..]);
      if all == rest {
        NumbersInRange(cr, st', bufs[1..], i);
      } else if i > 0 {
        NumbersInRange(cr, st', bufs[1..], i - 1);
      }
    }
  }

  lemma NoWrap(n: nat)
    requires n + 1 < 0x1_0000_0000_0000_0000
    ensures U64(n + 1) == n + 1
  {
  }

  /**
   * Over any run of fewer than 2^64 calls, each emitted request has a number larger than all
   * before it.
   */
  lemma {:induction false} NumbersIncrease(cr: Crypto, st: State, bufs: seq<bytes>, i: nat, j: nat)
    requires st.sc.senderSeqNum + |bufs| < 0x1_0000_0000_0000_0000
    requires i < j < |Emissions(cr, st, bufs)|
    ensures Emissions(cr, st, bufs)[i].number < Emissions(cr, st, bufs)[j].number
    decreases |bufs|
  {
    hide *;
    if bufs == [] {
      EmissionsOfNothing(cr, st);
    } else {
      var st' := ProtectBytes(cr, st, bufs[0]).1;
      CounterStep(cr, st, bufs);
      var all, rest := Emissions(cr, st, bufs), Emissions(cr, st', bufs[1..]);
      if all == rest {
        NumbersIncrease(cr, st', bufs[1..], i, j);
      } else if i > 0 {
        NumbersIncrease(cr, st', bufs[1..], i - 1, j - 1);
      } else {
        NumbersInRange(cr, st', bufs[1..], j - 1);
      }
    }
  }

  lemma EmissionsOfNothing(cr: Crypto, st: State)
    ensures Emissions(cr, st, []) == []
  {
  }

  /** Either the first call emits nothing, or it emits the counter, which then advances. */
  lemma CounterStep(cr: Crypto, st: State, bufs: seq<bytes>)
    requires bufs != [] && st.sc.senderSeqNum + |bufs| < 0x1_0000_0000_0000_0000
    ensures var st' := ProtectBytes(cr, st, bufs[0]).1;
            var n, n' := st.sc.senderSeqNum, st'.sc.senderSeqNum;
            var all, rest := Emissions(cr, st, bufs), Emissions(cr, st', bufs[1..]);
            && n <= n' <= n + 1 && st'.rrc.kid == st.rrc.kid && st'.cc == st.cc
            && (all == rest
                || (n' == n + 1 && n < 0x100_0000_0000 && SeqNum2Piv(n).Ok?
                    && all == [Emission(n, NonceOf(st.rrc.kid, SeqNum2Piv(n).value, st.cc.commonIv))] + rest))
  {
    hide *;
    OneCall(cr, st, bufs[0]);
    EmissionsStep(cr, st, bufs);
    NoWrap(st.sc.senderSeqNum);
  }

  /** Once the counter has reached 2^40, no request is emitted again. */
  lemma Exhausted(cr: Crypto, st: State, bufs: seq<bytes>)
    requires st.sc.senderSeqNum + |bufs| < 0x1_0000_0000_0000_0000
    requires st.sc.senderSeqNum >= 0x100_0000_0000
    ensures Emissions(cr, st, bufs) == []
  {
    if Emissions(cr, st, bufs) != [] {
      NumbersInRange(cr, st, bufs, 0);
    }
  }

  lemma {:induction false} ShiftGrows(n: nat, m: nat)
    requires 0 < n < m
    ensures !IsShiftOf(n, m)
  {
    forall k: nat
      ensures n != m * Pow256(k)
    {
      TimesPower(m, k);
    }
  }

  lemma TimesPower(m: nat, k: nat)
    ensures m * Pow256(k) >= m
  {
    var p := Pow256(k);
    hide *;
    assert m * p >= m * 1;
  }

  lemma ShiftOfZero(m: nat)
    ensures IsShiftOf(m, 0) <==> m == 0
  {
    if m == 0 {
      assert m == 0 * Pow256(0);
    }
  }

  /**
   * Of two requests emitted in a run, the later one reuses the nonce of the earlier one exactly
   * when its number is the earlier number times a power of 256.
   */
  lemma RunNonces(cr: Crypto, st: State, bufs: seq<bytes>, i: nat, j: nat)
    requires st.sc.senderSeqNum + |bufs| < 0x1_0000_0000_0000_0000
    requires i < j < |Emissions(cr, st, bufs)|
    ensures var a, b := Emissions(cr, st, bufs)[i], Emissions(cr, st, bufs)[j];
            a.nonce == b.nonce <==> IsShiftOf(b.number, a.number)
  {
    hide *;
    var a, b := Emissions(cr, st, bufs)[i], Emissions(cr, st, bufs)[j];
    NumbersInRange(cr, st, bufs, i);
    NumbersInRange(cr, st, bufs, j);
    NumbersIncrease(cr, st, bufs, i, j);
    if a.number == 0 {
      PivOfZero();
      ZeroNonce(b.number, st.rrc.kid, st.cc.commonIv);
      ShiftOfZero(b.number);
    } else {
      SharedNonce(a.number, b.number, st.rrc.kid, st.cc.commonIv);
      ShiftGrows(a.number, b.number);
    }
  }

  lemma PivOfZero()
    ensures SeqNum2Piv(0) == Ok([0])
  {
  }

  // ----- responses -----

  /** A response of a server: its options and the ciphertext, cut to 16 bits of length. */
  lemma ResponsePayload(cr: Crypto, server: State, p: Packet)
    requires !IsRequest(p.code) && ProtectPacket(cr, server, p).0.Ok?
    ensures PlaintextOf(p).Ok? && server.rrc.nonce.Some? && server.rrc.aad.Some?
    ensures ProtectPacket(cr, server, p).0.value.payload == PayloadOf(Sealed(cr, server, PlaintextOf(p).value))
    ensures ProtectPacket(cr, server, p).1 == server
  {
    hide PlaintextOf, EncStructure, IsRequest, Split;
  }

  /**
   * All responses to one request are sealed under one key, one nonce and one AAD: those the
   * context holds, which no response changes.
   */
  lemma ResponsesShareNonce(cr: Crypto, server: State, p: Packet, p': Packet)
    requires !IsRequest(p.code) && !IsRequest(p'.code)
    requires ProtectPacket(cr, server, p).0.Ok? && ProtectPacket(cr, ProtectPacket(cr, server, p).1, p').0.Ok?
    ensures server.rrc.nonce.Some? && server.rrc.aad.Some? && PlaintextOf(p).Ok? && PlaintextOf(p').Ok?
    ensures var k, n, a := server.sc.senderKey, server.rrc.nonce.value, EncStructure(server.rrc.aad.value);
            && ProtectPacket(cr, server, p).0.value.payload == PayloadOf(cr.seal(k, n, a, PlaintextOf(p).value))
            && ProtectPacket(cr, ProtectPacket(cr, server, p).1, p').0.value.payload
               == PayloadOf(cr.seal(k, n, a, PlaintextOf(p').value))
  {
    ResponsePayload(cr, server, p);
    ResponsePayload(cr, server, p');
    hide ProtectPacket, PlaintextOf, EncStructure;
  }
}
