/** What the receiver recovers from a packet the sender protected. */
module RoundTrip {
  import opened Bytes
  import opened OscoreErrors
  import opened Coap
  import opened Options
  import opened SplitMerge
  import opened Hkdf
  import opened Nonce
  import opened OscoreValue
  import opened Aad
  import opened Context
  import opened Protect
  import opened Unprotect

  function EncryptedOf(p: Packet): seq<CoapOption> { Rebase(OfClass(p.options, true), 0) }
  function OuterOf(p: Packet): seq<CoapOption> { Rebase(OfClass(p.options, false), 0) }

  // ----- when the plaintext can be built -----

  lemma PlaintextBytesLen(code: byte, es: seq<CoapOption>, payload: bytes)
    ensures |PlaintextBytes(code, es, payload)|
         == 1 + |EncodeOptions(es)| + if payload == [] then 0 else 1 + |payload|
  {
  }

  lemma ReservedLen(predicted: nat, payload: bytes)
    requires 1 + predicted + (if payload == [] then 0 else 1 + |payload|) < 0x1_0000
    ensures PlaintextLen(U16(predicted), payload) == 1 + predicted + if payload == [] then 0 else 1 + |payload|
  {
  }

  /** The plaintext of a packet, and the room there is for it. */
  function PlaintextFor(p: Packet): bytes { PlaintextBytes(p.code, EncryptedOf(p), p.payload) }

  /** The predicted lengths are exact, and the 16-bit lengths of scratch buffer and plaintext hold. */
  predicate PlaintextFits(p: Packet) {
    && LengthsExact(p.options, 0)
    && |EncodeOptions(EncryptedOf(p))| <= ScratchLen(EncryptedOf(p))
    && |PlaintextFor(p)| < 0x1_0000
  }

  /**
   * Filling the plaintext buffer succeeds exactly when the predicted option lengths are exact
   * and everything fits 16-bit lengths; code, options, marker and payload then fill the buffer.
   */
  lemma PlaintextSucceeds(p: Packet)
    requires Numbered(p.options, 0)
    ensures PlaintextOf(p).Ok? <==> PlaintextFits(p)
    ensures PlaintextOf(p).Ok? ==> PlaintextOf(p).value == PlaintextFor(p)
    ensures Split(p.options, 0, 0, 0).e == EncryptedOf(p) && Split(p.options, 0, 0, 0).u == OuterOf(p)
  {
    SplitIsRebase(p.options, 0, 0, 0);
    SplitLength(p.options, 0, 0, 0);
    PlaintextAccounting(p.options, 0, 0);
    PlaintextBytesLen(p.code, EncryptedOf(p), p.payload);
    hide Split, Rebase, OfClass, LengthsExact, PlaintextBytes, PlaintextLen, Plaintext, U16;
    if |PlaintextFor(p)| < 0x1_0000 {
      ReservedLen(PredictedSum(p.options), p.payload);
    }
  }

  // ----- the domain of the round trip -----

  /** What can be checked of a packet before it is handed to the sender. */
  predicate Deliverable(p: Packet) {
    && |p.options| <= 20 && Numbered(p.options, 0) && Mergeable(p.options)
    && PlaintextFits(p)
    && |EncryptedOf(p)| <= 10
    && OptionBytesMarkerFree(EncodeOptions(EncryptedOf(p)), p.payload)
  }

  /** The outer options with the OSCORE option are short, few, and free of markers. */
  predicate OuterReadable(us: seq<CoapOption>, value: bytes) {
    && |us| < 20 && |value| < 13
    && (forall o <- us :: |o.value| < 13)
    && PAYLOAD_MARKER !in EncodeOptions(WithOscore(us, value))
  }

  /** The length of the OSCORE packet, with its 8-byte tag. */
  function SentLength(p: Packet, value: Value): nat {
    4 + |p.token| + |EncodeOptions(WithOscore(OuterOf(p), value))| + 1 + |PlaintextFor(p)| + 8
  }

  /** The bytes of an OSCORE packet in a buffer whose size is a uint16_t, and the context afterwards. */
  function Send(cr: Crypto, st: State, p: Packet, cap: uint16): (Result<bytes>, State) {
    var (q, st') := ProtectPacket(cr, st, p);
    (if q.Err? then Err(q.error) else WritePacket(q.value, cap), st')
  }

  // ----- the encrypted part -----

  /** The receiver reads back code, options and payload of the plaintext. */
  lemma PlaintextRead(code: byte, es: seq<CoapOption>, payload: bytes)
    ensures ParsePlaintext(PlaintextBytes(code, es, payload)) == Ok(Decrypted(code, es, payload))
       <==> WellNumbered(es, 0) && |es| <= 10 && OptionBytesMarkerFree(EncodeOptions(es), payload)
  {
    RestRead(SubtractLength, es, payload, MAX_E_OPTIONS);
    var plaintext := PlaintextBytes(code, es, payload);
    AppendAssoc([code], EncodeOptions(es), PayloadPart(payload));
    hide EncodeOptions, PayloadPart, ParseOptions, WellNumbered, OptionBytesMarkerFree;
    assert plaintext[1..] == EncodeOptions(es) + PayloadPart(payload);
  }

  lemma {:induction false} RebaseWellNumbered(os: seq<CoapOption>, number: byte)
    ensures WellNumbered(Rebase(os, number), number)
  {
    if os != [] {
      RebaseWellNumbered(os[1..], os[0].number);
      SumReaches(os[0].number, number);
    }
  }

  // ----- the outer packet -----

  lemma OuterWellNumbered(us: seq<CoapOption>, value: Value)
    ensures WellNumbered(WithOscore(us, value), 0)
  {
    RebaseWellNumbered(Inserted(us, value, OscorePosition(us)), 0);
  }

  lemma OuterShort(us: seq<CoapOption>, value: Value)
    requires (forall o <- us :: |o.value| < 13) && |value| < 13
    ensures forall o <- WithOscore(us, value) :: |o.value| < 13
  {
    var all := Inserted(us, value, OscorePosition(us));
    RebaseContent(all, 0);
    forall o <- WithOscore(us, value)
      ensures |o.value| < 13
    {
      var i :| 0 <= i < |all| && WithOscore(us, value)[i] == o;
      var k := OscorePosition(us);
      assert all[i] == if i < k then us[i] else if i == k then CoapOption(0, value, OSCORE) else us[i - 1];
    }
  }

  /** The OSCORE packet survives its byte form. */
  lemma OuterRead(q: Packet, us: seq<CoapOption>, value: Value)
    requires q.options == WithOscore(us, value) && OuterReadable(us, value)
    ensures Parse(Serialize(q)) == Ok(q)
  {
    hide *;
    OuterReadableMeans(us, value);
    OuterWellNumbered(us, value);
    OuterShort(us, value);
    OscoreIsAmong(us, value);
    AllMarkerFree(EncodeOptions(q.options), q.payload);
    FreeOfMarkers(q);
    ReadableIs(q);
    ParseSerialized(q);
  }

  lemma OuterReadableMeans(us: seq<CoapOption>, value: bytes)
    requires OuterReadable(us, value)
    ensures |us| < MAX_OPTION_COUNT && |value| < 13 && (forall o <- us :: |o.value| < 13)
    ensures PAYLOAD_MARKER !in EncodeOptions(WithOscore(us, value))
  {
  }

  lemma AllMarkerFree(e: bytes, payload: bytes)
    requires PAYLOAD_MARKER !in e
    ensures OptionBytesMarkerFree(e, payload)
  {
  }

  lemma ReadableIs(p: Packet)
    requires WellNumbered(p.options, 0) && |p.options| <= MAX_OPTION_COUNT && MarkerFree(p)
    requires forall o <- p.options :: |o.value| < 13
    ensures Readable(p)
  {
  }

  lemma {:induction false} ShortScratch(os: seq<CoapOption>)
    requires forall o <- os :: |o.value| < 13
    ensures ScratchSum(os) <= 17 * |os|
  {
    if os != [] {
      assert os[0] in os;
      ShortScratch(os[1..]);
    }
  }

  lemma SerializedLen(q: Packet)
    ensures |Serialize(q)|
         == 4 + |q.token| + |EncodeOptions(q.options)| + if q.payload == [] then 0 else 1 + |q.payload|
  {
    hide EncodeOptions;
  }

  /** A readable OSCORE packet that fits the buffer is written into it. */
  lemma OuterWritten(q: Packet, us: seq<CoapOption>, value: Value, cap: uint16)
    requires q.options == WithOscore(us, value) && OuterReadable(us, value) && |Serialize(q)| <= cap
    ensures WritePacket(q, cap) == Ok(Serialize(q))
  {
    hide *;
    OuterReadableMeans(us, value);
    OuterShort(us, value);
    OscoreIsAmong(us, value);
    ShortScratch(q.options);
    ScratchIsSum(q.options);
    WriteSucceeds(q, cap);
  }

  lemma ScratchIsSum(os: seq<CoapOption>)
    requires ScratchSum(os) <= 17 * |os| && |os| <= MAX_OPTION_COUNT
    ensures |EncodeOptions(os)| <= ScratchLen(os)
  {
    ScratchEnough(os);
  }

  lemma WriteSucceeds(q: Packet, cap: uint16)
    requires |EncodeOptions(q.options)| <= ScratchLen(q.options) && |Serialize(q)| <= cap
    ensures WritePacket(q, cap) == Ok(Serialize(q))
  {
    hide Serialize, EncodeOptions, ScratchLen;
  }

  // ----- one packet -----

  lemma DeliverableMeans(p: Packet)
    requires Deliverable(p)
    ensures Numbered(p.options, 0) && |p.options| <= MAX_OPTION_COUNT && Mergeable(p.options) && PlaintextFits(p)
    ensures |EncryptedOf(p)| <= 10
    ensures OptionBytesMarkerFree(EncodeOptions(EncryptedOf(p)), p.payload)
  {
  }

  lemma EncryptedWellNumbered(p: Packet)
    ensures WellNumbered(EncryptedOf(p), 0)
  {
    RebaseWellNumbered(OfClass(p.options, true), 0);
  }

  /** The outer options all lie below the OSCORE option, which the receiver then finds last. */
  lemma OscoreFound(p: Packet, value: Value)
    requires Mergeable(p.options)
    ensures var q := WithOscore(OuterOf(p), value);
            FindOscore(q, None)
            == if value == [] then Ok(Some(Unset))
               else match ParseValue(value) { case Ok(f) => Ok(Some(f)) case Err(e) => Err(e) }
  {
    hide WithOscore, FindOscore, ParseValue, Mergeable, OfClass, Rebase, SameContent, WithoutOscore;
    OuterBelowOscore(p.options);
    OscoreComesLast(OuterOf(p), value);
    var us, q := OuterOf(p), WithOscore(OuterOf(p), value);
    LastApart(q, |us|);
    FindOscoreLast(q[..|us|], q[|us|]);
  }

  lemma LastApart<T>(s: seq<T>, n: nat)
    requires |s| == n + 1
    ensures s == s[..n] + [s[n]]
  {
  }

  /** Sealed by one endpoint and opened by the other under the same key, nonce and AAD. */
  lemma OpenSealed(cr: Crypto, sender: State, receiver: State, p: Packet, q: Packet, value: Value)
    requires AeadCorrect(cr) && Deliverable(p) && |PlaintextFor(p)| + 8 < 0x1_0000
    requires sender.sc.senderKey == receiver.rc.recipientKey
    requires sender.rrc.nonce.Some? && sender.rrc.nonce == receiver.rrc.nonce
    requires sender.rrc.aad.Some? && sender.rrc.aad == receiver.rrc.aad
    requires Finish(cr, sender, p, OuterOf(p), value, PlaintextFor(p)) == Ok(q)
    ensures (exists o <- q.options :: o.number == OSCORE) && Open(cr, receiver, q) == Ok(p)
    ensures q.options == WithOscore(OuterOf(p), value) && q.payload != []
    ensures IsRequest(q.code) <==> IsRequest(p.code)
  {
    hide *;
    DeliverableMeans(p);
    var es, us := EncryptedOf(p), OuterOf(p);
    PlaintextForIs(p);
    EncryptedWellNumbered(p);
    PlaintextRead(p.code, es, p.payload);
    MergedBack(p, value);
    FinishedPacket(cr, sender, p, us, value, PlaintextFor(p));
    OpensTo(cr, receiver, q, PlaintextFor(p), es, p);
  }

  lemma PlaintextForIs(p: Packet)
    ensures PlaintextFor(p) == PlaintextBytes(p.code, EncryptedOf(p), p.payload)
  {
  }

  /** The merge gives the options back exactly when none of them is lost. */
  lemma MergedBack(p: Packet, value: Value)
    requires Numbered(p.options, 0) && |p.options| <= MAX_OPTION_COUNT
    ensures exists o <- WithOscore(OuterOf(p), value) :: o.number == OSCORE
    ensures Merge(WithOscore(OuterOf(p), value), EncryptedOf(p)) == Ok(p.options) <==> Mergeable(p.options)
  {
    hide Merge, WithOscore, Mergeable, Rebase, OfClass, Numbered, Split;
    SplitIsRebase(p.options, 0, 0, 0);
    OscoreIsAmong(OuterOf(p), value);
    SplitMergeIdentity(p.options, value);
  }

  lemma OpensTo(cr: Crypto, st: State, q: Packet, plaintext: bytes, es: seq<CoapOption>, p: Packet)
    requires st.rrc.nonce.Some? && st.rrc.aad.Some? && |q.payload| >= 8
    requires cr.open(st.rc.recipientKey, st.rrc.nonce.value, EncStructure(st.rrc.aad.value), q.payload)
             == Some(plaintext)
    requires ParsePlaintext(plaintext) == Ok(Decrypted(p.code, es, p.payload))
    requires (exists o <- q.options :: o.number == OSCORE) && Merge(q.options, es) == Ok(p.options)
    requires p == q.(code := p.code, options := p.options, payload := p.payload)
    ensures Open(cr, st, q) == Ok(p)
  {
    hide ParsePlaintext, Merge, EncStructure;
  }

  /** The ciphertext that goes into the packet of `plaintext`. */
  function Sealed(cr: Crypto, sender: State, plaintext: bytes): bytes
    requires sender.rrc.nonce.Some? && sender.rrc.aad.Some?
  {
    cr.seal(sender.sc.senderKey, sender.rrc.nonce.value, EncStructure(sender.rrc.aad.value), plaintext)
  }

  lemma FinishedPacket(cr: Crypto, sender: State, p: Packet, us: seq<CoapOption>, value: Value, plaintext: bytes)
    requires sender.rrc.nonce.Some? && sender.rrc.aad.Some? && AeadCorrect(cr)
    ensures var r := Finish(cr, sender, p, us, value, plaintext);
            && (r.Ok? <==> |us| < MAX_OPTION_COUNT) && (r.Err? ==> r.error == Undefined)
            && |Sealed(cr, sender, plaintext)| == |plaintext| + 8
            && cr.open(sender.sc.senderKey, sender.rrc.nonce.value, EncStructure(sender.rrc.aad.value),
                       Sealed(cr, sender, plaintext)) == Some(plaintext)
            && (r.Ok? ==>
                  && r.value == p.(code := if IsRequest(p.code) then POST else CHANGED,
                                   options := WithOscore(us, value), payload := r.value.payload)
                  && r.value.payload == PayloadOf(Sealed(cr, sender, plaintext))
                  && (|plaintext| + 8 < 0x1_0000 ==> r.value.payload == Sealed(cr, sender, plaintext))
                  && (IsRequest(r.value.code) <==> IsRequest(p.code)))
  {
    hide WithOscore, EncStructure;
  }

  // ----- requests -----

  /** Two endpoints with swapped ids and everything else in common, the first a client. */
  predicate Mirrored(hmac: Hmac, client: State, server: State) {
    && KeysConsistent(hmac, client) && KeysConsistent(hmac, server)
    && client.cc.masterSecret == server.cc.masterSecret && client.cc.masterSalt == server.cc.masterSalt
    && client.cc.idContext == server.cc.idContext
    && client.sc.senderId == server.rc.recipientId && client.rc.recipientId == server.sc.senderId
    && client.rrc.kid == server.rrc.kid == client.sc.senderId
    && client.rrc.kidContext.Some? && client.rrc.kidContext.value == client.cc.idContext
  }

  /** The same with any two ID contexts: the client sends its own along with every request. */
  predicate Related(hmac: Hmac, client: State, server: State) {
    && KeysConsistent(hmac, client) && KeysConsistent(hmac, server)
    && client.cc.masterSecret == server.cc.masterSecret && client.cc.masterSalt == server.cc.masterSalt
    && client.sc.senderId == server.rc.recipientId && client.rc.recipientId == server.sc.senderId
    && client.rrc.kid == server.rrc.kid == client.sc.senderId
    && client.rrc.kidContext.Some? && client.rrc.kidContext.value == client.cc.idContext
  }

  /** The server can take over the client's ID context, which is its own or no longer than its own. */
  predicate Adopts(hmac: Hmac, client: State, server: State) {
    Related(hmac, client, server) && |client.cc.idContext| <= |server.cc.idContext|
  }

  lemma MirroredAdopts(hmac: Hmac, client: State, server: State)
    ensures Mirrored(hmac, client, server) <==>
              Adopts(hmac, client, server) && client.cc.idContext == server.cc.idContext
  {
    hide KeysConsistent;
  }

  /** Both hold the same Partial IV, nonce and AAD: those of the last request. */
  predicate Paired(client: State, server: State) {
    && client.rrc.nonce.Some? && client.rrc.nonce == server.rrc.nonce
    && client.rrc.aad.Some? && client.rrc.aad == server.rrc.aad
    && client.rrc.piv.Some? && client.rrc.piv == server.rrc.piv
  }

  /** Each one's sender key is the other's recipient key, and the Common IVs agree. */
  lemma MirroredKeys(hmac: Hmac, client: State, server: State)
    requires Mirrored(hmac, client, server)
    ensures client.sc.senderKey == server.rc.recipientKey && server.sc.senderKey == client.rc.recipientKey
    ensures client.cc.commonIv == server.cc.commonIv
  {
    hide Expand, Extract, Info;
  }

  /** Initialised with swapped ids and the same secret, salt and ID context, they are mirrored. */
  lemma InitMirrored(hmac: Hmac, p: InitParams, p': InitParams)
    requires p.dev == CLIENT && p' == p.(dev := SERVER, senderId := p.recipientId, recipientId := p.senderId)
    requires InitState(hmac, p).Ok?
    ensures InitState(hmac, p').Ok? && Mirrored(hmac, InitState(hmac, p).value, InitState(hmac, p').value)
  {
    hide Derive;
  }

  /** The server may have been initialised with another ID context that is no shorter. */
  lemma InitAdopts(hmac: Hmac, p: InitParams, p': InitParams)
    requires p.dev == CLIENT && |p.idContext| <= |p'.idContext|
    requires p' == p.(dev := SERVER, senderId := p.recipientId, recipientId := p.senderId, idContext := p'.idContext)
    requires InitState(hmac, p).Ok?
    ensures InitState(hmac, p').Ok? && Adopts(hmac, InitState(hmac, p).value, InitState(hmac, p').value)
  {
    hide Derive;
  }

  /** The value of the OSCORE option in the client's next request. */
  function NextValue(client: State): Result<Value>
  {
    NextRequest(client).0
  }

  lemma NextRequestIs(st: State)
    requires st.rrc.kidContext.Some?
    ensures NextRequest(st).0.Ok? <==> st.sc.senderSeqNum < 0x100_0000_0000
    ensures NextRequest(st).0.Ok? ==>
              var st', piv := NextRequest(st).1, SeqNum2Piv(st.sc.senderSeqNum).value;
              && piv != []
              && NextRequest(st).0.value == OscoreValue.Value(piv, st.rrc.kid, st.rrc.kidContext.value)
              && st'.rrc == ReqRespContext(Some(NonceOf(st.rrc.kid, piv, st.cc.commonIv)), Some(AadOf(st.rrc.kid, piv)),
                                           Some(piv), st.rrc.kidContext, st.rrc.kid)
              && st'.cc == st.cc && st'.rc == st.rc && st'.sc.senderKey == st.sc.senderKey
                 && st'.sc.senderId == st.sc.senderId
  {
    SeqNum2PivCorrect(st.sc.senderSeqNum);
    hide SeqNum2Piv, NonceOf, AadOf, OscoreValue.Value;
  }

  /** What the server reads from the option of the client's next request. */
  lemma NextFields(hmac: Hmac, client: State, server: State)
    requires Related(hmac, client, server) && NextRequest(client).0.Ok?
    ensures var value, piv := NextRequest(client).0.value, NextRequest(client).1.rrc.piv;
            && value != [] && piv.Some?
            && ParseValue(value) == Ok(Fields(piv, client.cc.idContext, server.rc.recipientId))
  {
    NextRequestIs(client);
    var piv := SeqNum2Piv(client.sc.senderSeqNum).value;
    ParseValueWritten(piv, client.rrc.kid, client.rrc.kidContext.value);
    hide OscoreValue.Value, ParseValue, NonceOf, AadOf, Derive, NextRequest, SeqNum2Piv;
  }

  /**
   * The server accepts the option of a request exactly when it can adopt the client's ID context.
   * It then has that ID context, the client's keys crosswise, and the nonce and AAD of the request.
   */
  lemma ServerFollows(hmac: Hmac, client: State, server: State)
    requires Related(hmac, client, server) && NextRequest(client).0.Ok?
    ensures var value, client' := NextRequest(client).0.value, NextRequest(client).1;
            && value != [] && ParseValue(value).Ok? && ParseValue(value).value.Fields?
            && var accepted := AcceptRequest(hmac, server, ParseValue(value).value);
               && (accepted.0.Ok? <==> Adopts(hmac, client, server))
               && (accepted.0.Ok? ==> Mirrored(hmac, client', accepted.1) && Paired(client', accepted.1))
               && (accepted.0.Err? ==> accepted.0 == Err(DestBufferTooSmall))
  {
    NextFields(hmac, client, server);
    var fields, client' := ParseValue(NextRequest(client).0.value).value, NextRequest(client).1;
    var accepted := AcceptRequest(hmac, server, fields);
    NextRequestIs(client);
    UpdateMakes(hmac, server, fields.piv, fields.kidContext);
    UpdateKeeps(hmac, server, fields.piv, fields.kidContext);
    hide OscoreValue.Value, ParseValue, NonceOf, AadOf, KeyOf, IvOf, NextRequest, SeqNum2Piv, UpdateServer;
    if accepted.0.Ok? {
      SameIv(hmac, client', accepted.1);
    }
  }

  /** With the same secret, salt and ID context the Common IVs agree. */
  lemma SameIv(hmac: Hmac, a: State, b: State)
    requires KeysConsistent(hmac, a) && KeysConsistent(hmac, b)
    requires a.cc.masterSecret == b.cc.masterSecret && a.cc.masterSalt == b.cc.masterSalt
    requires a.cc.idContext == b.cc.idContext
    ensures a.cc.commonIv == b.cc.commonIv
  {
    hide Derive;
  }

  /** Whether the request `p` can be sent now in a buffer of `cap` bytes and read by the server. */
  predicate RequestDeliverable(client: State, p: Packet, cap: uint16) {
    && IsRequest(p.code) && Deliverable(p)
    && NextValue(client).Ok? && OuterReadable(OuterOf(p), NextValue(client).value)
    && SentLength(p, NextValue(client).value) <= cap
  }

  /**
   * End to end: the packet struct the server hands on equals the one the client parsed, and
   * both sides agree on ID context, Partial IV, nonce and AAD afterwards, also if the server had
   * another ID context before.
   */
  lemma RequestRoundTrip(cr: Crypto, client: State, server: State, p: Packet, cap: uint16)
    requires AeadCorrect(cr) && Adopts(cr.hmac, client, server) && RequestDeliverable(client, p, cap)
    ensures var (sent, client') := Send(cr, client, p, cap);
            sent.Ok? &&
            var (received, server') := UnprotectBytes(cr, server, sent.value);
            && received == Ok(Some(p))
            && Mirrored(cr.hmac, client', server') && Paired(client', server')
  {
    hide *;
    RequestDeliverableMeans(client, p, cap);
    DeliverableMeans(p);
    PlaintextSucceeds(p);
    var value, client' := NextRequest(client).0.value, NextRequest(client).1;
    AdoptsMeans(cr.hmac, client, server);
    ServerFollows(cr.hmac, client, server);
    var fields := ParseValue(value).value;
    var server' := AcceptRequest(cr.hmac, server, fields).1;
    ProtectsRequest(cr, client, p);
    PairedMeans(client', server');
    OuterReadableMeans(OuterOf(p), value);
    FinishedPacket(cr, client', p, OuterOf(p), value, PlaintextFor(p));
    var q := Finish(cr, client', p, OuterOf(p), value, PlaintextFor(p)).value;
    SentFits(p, q, value, cap);
    MirroredKeys(cr.hmac, client', server');
    OpenSealed(cr, client', server', p, q, value);
    OuterRead(q, OuterOf(p), value);
    OuterWritten(q, OuterOf(p), value, cap);
    OscoreFound(p, value);
    UnprotectsRequest(cr, server, q, fields);
    SendIs(cr, client, p, cap);
  }

  /** A request with an ID context longer than the server's, and so different from it, is refused. */
  lemma LongerContextRefused(cr: Crypto, client: State, server: State, p: Packet, cap: uint16)
    requires AeadCorrect(cr) && Related(cr.hmac, client, server) && RequestDeliverable(client, p, cap)
    requires |client.cc.idContext| > |server.cc.idContext|
    ensures var sent := Send(cr, client, p, cap).0;
            sent.Ok? && UnprotectBytes(cr, server, sent.value).0 == Err(DestBufferTooSmall)
  {
    hide *;
    RequestDeliverableMeans(client, p, cap);
    DeliverableMeans(p);
    PlaintextSucceeds(p);
    var value, client' := NextRequest(client).0.value, NextRequest(client).1;
    RelatedClient(cr.hmac, client, server);
    NextRequestIs(client);
    AdoptsMeans(cr.hmac, client, server);
    ServerFollows(cr.hmac, client, server);
    ProtectsRequest(cr, client, p);
    OuterReadableMeans(OuterOf(p), value);
    FinishedPacket(cr, client', p, OuterOf(p), value, PlaintextFor(p));
    var q := Finish(cr, client', p, OuterOf(p), value, PlaintextFor(p)).value;
    SentFits(p, q, value, cap);
    OuterRead(q, OuterOf(p), value);
    OuterWritten(q, OuterOf(p), value, cap);
    OscoreFound(p, value);
    RefusesRequest(cr, server, q, ParseValue(value).value);
    SendIs(cr, client, p, cap);
  }

  lemma RelatedClient(hmac: Hmac, client: State, server: State)
    requires Related(hmac, client, server)
    ensures client.rrc.kidContext.Some?
  {
    hide KeysConsistent;
  }

  lemma RefusesRequest(cr: Crypto, st: State, q: Packet, fields: Compressed)
    requires IsRequest(q.code) && FindOscore(q.options, None) == Ok(Some(fields)) && Parse(Serialize(q)) == Ok(q)
    ensures var r := AcceptRequest(cr.hmac, st, fields);
            r.0.Err? ==> UnprotectBytes(cr, st, Serialize(q)) == (Err(r.0.error), r.1)
  {
    hide FindOscore, AcceptRequest, Parse, Open, IsRequest, Serialize;
  }

  lemma AdoptsMeans(hmac: Hmac, client: State, server: State)
    ensures Adopts(hmac, client, server) <==>
              Related(hmac, client, server) && |client.cc.idContext| <= |server.cc.idContext|
  {
    hide Related;
  }

  lemma SendIs(cr: Crypto, st: State, p: Packet, cap: uint16)
    ensures Send(cr, st, p, cap).1 == ProtectPacket(cr, st, p).1
    ensures Send(cr, st, p, cap).0
         == match ProtectPacket(cr, st, p).0 { case Err(e) => Err(e) case Ok(q) => WritePacket(q, cap) }
  {
    hide ProtectPacket, WritePacket;
  }

  /** A packet whose length is not cut has the length predicted. */
  lemma SentFits(p: Packet, q: Packet, value: Value, cap: uint16)
    requires SentLength(p, value) <= cap && q.token == p.token && q.options == WithOscore(OuterOf(p), value)
    requires |q.payload| == (|PlaintextFor(p)| + 8) % 0x1_0000
    ensures |PlaintextFor(p)| + 8 < 0x1_0000 && |Serialize(q)| <= cap
  {
    SerializedLen(q);
    hide PlaintextFor, EncodeOptions, WithOscore, OuterOf, Serialize;
  }

  lemma RequestDeliverableMeans(client: State, p: Packet, cap: uint16)
    requires RequestDeliverable(client, p, cap)
    ensures IsRequest(p.code) && Deliverable(p) && NextRequest(client).0.Ok?
    ensures OuterReadable(OuterOf(p), NextRequest(client).0.value)
    ensures SentLength(p, NextRequest(client).0.value) <= cap
  {
    hide Deliverable, NextRequest, OuterReadable, OuterOf, IsRequest, SentLength;
  }

  lemma PairedMeans(client: State, server: State)
    requires Paired(client, server)
    ensures client.rrc.nonce.Some? && client.rrc.nonce == server.rrc.nonce
    ensures client.rrc.aad.Some? && client.rrc.aad == server.rrc.aad
  {
  }

  lemma ProtectsRequest(cr: Crypto, st: State, p: Packet)
    requires IsRequest(p.code) && PlaintextOf(p).Ok? && NextRequest(st).0.Ok?
    ensures ProtectPacket(cr, st, p)
         == (Finish(cr, NextRequest(st).1, p, Split(p.options, 0, 0, 0).u, NextRequest(st).0.value,
            PlaintextOf(p).value), NextRequest(st).1)
  {
    hide PlaintextOf, NextRequest, Finish, Split, IsRequest;
  }

  lemma UnprotectsRequest(cr: Crypto, st: State, q: Packet, fields: Compressed)
    requires IsRequest(q.code) && FindOscore(q.options, None) == Ok(Some(fields))
    requires AcceptRequest(cr.hmac, st, fields).0.Ok? && Parse(Serialize(q)) == Ok(q)
    requires exists o <- q.options :: o.number == OSCORE
    ensures var st' := AcceptRequest(cr.hmac, st, fields).1;
            var r := Open(cr, st', q);
            r.Ok? ==> UnprotectBytes(cr, st, Serialize(q)) == (Ok(Some(r.value)), st')
  {
    hide FindOscore, AcceptRequest, Parse, Open, IsRequest, Serialize;
  }

  // ----- responses -----

  /** Whether the response `p` can be sent in a buffer of `cap` bytes and read by the client. */
  predicate ResponseDeliverable(p: Packet, cap: uint16) {
    !IsRequest(p.code) && Deliverable(p) && OuterReadable(OuterOf(p), []) && SentLength(p, []) <= cap
  }

  /** The response decrypts under the nonce and AAD stored with the request; no context changes. */
  lemma ResponseRoundTrip(cr: Crypto, client: State, server: State, p: Packet, cap: uint16)
    requires AeadCorrect(cr) && Mirrored(cr.hmac, client, server) && Paired(client, server)
             && ResponseDeliverable(p, cap)
    ensures var (sent, server') := Send(cr, server, p, cap);
            && sent.Ok? && server' == server
            && UnprotectBytes(cr, client, sent.value) == (Ok(Some(p)), client)
  {
    hide *;
    ResponseDeliverableMeans(p, cap);
    DeliverableMeans(p);
    PlaintextSucceeds(p);
    ProtectsResponse(cr, server, p);
    PairedMeans(client, server);
    OuterReadableMeans(OuterOf(p), []);
    FinishedPacket(cr, server, p, OuterOf(p), [], PlaintextFor(p));
    var q := Finish(cr, server, p, OuterOf(p), [], PlaintextFor(p)).value;
    SentFits(p, q, [], cap);
    MirroredKeys(cr.hmac, client, server);
    OpenSealed(cr, server, client, p, q, []);
    OuterRead(q, OuterOf(p), []);
    OuterWritten(q, OuterOf(p), [], cap);
    OscoreFound(p, []);
    UnprotectsResponse(cr, client, q);
    SendIs(cr, server, p, cap);
  }

  lemma ResponseDeliverableMeans(p: Packet, cap: uint16)
    requires ResponseDeliverable(p, cap)
    ensures !IsRequest(p.code) && Deliverable(p) && OuterReadable(OuterOf(p), []) && SentLength(p, []) <= cap
  {
  }

  lemma ProtectsResponse(cr: Crypto, st: State, p: Packet)
    requires !IsRequest(p.code) && PlaintextOf(p).Ok?
    ensures ProtectPacket(cr, st, p) == (Finish(cr, st, p, Split(p.options, 0, 0, 0).u, [], PlaintextOf(p).value), st)
  {
    hide PlaintextOf, Finish, Split, IsRequest;
  }

  lemma UnprotectsResponse(cr: Crypto, st: State, q: Packet)
    requires !IsRequest(q.code) && FindOscore(q.options, None) == Ok(Some(Unset)) && Parse(Serialize(q)) == Ok(q)
    requires exists o <- q.options :: o.number == OSCORE
    ensures var r := Open(cr, st, q);
            r.Ok? ==> UnprotectBytes(cr, st, Serialize(q)) == (Ok(Some(r.value)), st)
  {
    hide FindOscore, Parse, Open, IsRequest, Serialize;
  }
}
