/**
 * The EDHOC initiator (edhoc_initiator_run in modules/edhoc/src/initiator.c): the run as a
 * function of the received message, the imperative run, and authentication before message 3.
 */
module EdhocInitiator {
  import opened Bytes
  import opened Cbor
  import opened Hkdf
  import opened Edhoc
  import opened EdhocTh
  import opened EdhocPlaintext
  import opened EdhocMac
  import opened EdhocMessages

  const PRK_3AE_DEFAULT_SIZE: nat := 256

  /** Its parameters; auxiliary data is empty. */
  datatype InitiatorContext = InitiatorContext(methodType: byte, corr: byte, suites: ShortString, cI: ShortString,
                                               gX: ShortString, x: bytes, i: bytes,
                                               idCred: bytes, cred: bytes, sk: bytes, pk: bytes)

  /** The sizes of the caller's buffers for an error message and for auxiliary data. */
  datatype Buffers = Buffers(errCap: nat, adCap: nat)

  function OfferOf(c: InitiatorContext): Offer {
    Offer(4 * c.methodType + c.corr, c.suites, c.gX, c.cI)
  }

  // ----- the run as a function -----

  /** The suite, which is the first of the list, and message 1. */
  function Start(c: InitiatorContext): Result<(Suite, bytes)> {
    if c.suites == [] then Err(Undefined)
    else
      var suite :- GetSuite(c.suites[0]);
      var msg1 :- Msg1(OfferOf(c));
      Ok((suite, msg1))
  }

  /** Message 2, opened. */
  datatype Opened2 = Opened2(m2: Msg2Parts, th2: Digest, prk2e: Digest, parts: Parts)

  function Parse2(c: InitiatorContext, msg2: bytes, buffers: Buffers): (r: Result<Msg2Parts>)
    ensures r.Ok? ==> |r.value.cR| <= 1 && |r.value.ciphertext2| <= CIPHERTEXT2_DEFAULT_SIZE
  {
    var received :- Rx(msg2, MSG_2_DEFAULT_SIZE);
    var m2 := Msg2Parse(c.corr, |c.cI|, |c.gX|, received);
    if m2 == Err(ErrorMessageReceived) then Err(Reported(received, buffers.errCap)) else m2
  }

  function Open2(cr: EdhocCrypto, suite: Suite, c: InitiatorContext, msg1: bytes, msg2: bytes,
      buffers: Buffers): (r: Result<Opened2>)
    ensures r.Ok? ==> |r.value.m2.cR| <= 1 && |r.value.m2.ciphertext2| <= CIPHERTEXT2_DEFAULT_SIZE
  {
    var m2 :- Parse2(c, msg2, buffers);
    var th2 :- Th2(cr, msg1, m2.cI, m2.gY, m2.cR);
    var prk2e := Extract(cr.hmac, [], cr.dh(c.x, m2.gY));
    var parts :- PlaintextSplit(XorKeystream(cr, suite, prk2e, th2, m2.ciphertext2), buffers.adCap);
    Ok(Opened2(m2, th2, prk2e, parts))
  }

  function Prk3e2m(cr: EdhocCrypto, c: InitiatorContext, o: Opened2, peer: Peer): Digest {
    PrkDerive(cr, StaticDhR(c.methodType), o.prk2e, peer.g, c.x)
  }

  /** What the responder must have authenticated. */
  function Binding2(cr: EdhocCrypto, c: InitiatorContext, o: Opened2, peer: Peer): Binding {
    Binding(Message2, StaticDhR(c.methodType), Prk3e2m(cr, c, o, peer), o.th2, o.parts.idCred, peer.cred, o.parts.ad)
  }

  /** What message 3 comes with. */
  datatype Sealed3 = Sealed3(th3: Digest, prk4x3m: Digest, ciphertext3: ShortString, msg3: bytes)

  function Binding3(cr: EdhocCrypto, c: InitiatorContext, o: Opened2, prk3e2m: Digest, th3: Digest): Binding {
    Binding(Message3, StaticDhI(c.methodType), PrkDerive(cr, StaticDhI(c.methodType), prk3e2m, o.m2.gY, c.i), th3,
        c.idCred, c.cred, [])
  }

  function Data3(c: InitiatorContext, o: Opened2): ShortString {
    if c.corr == 2 || c.corr == 3 then [] else o.m2.cR
  }

  /** The plaintext of message 3 in its buffer. */
  function P3ae(idCred: bytes, signOrMac: bytes): (r: Result<bytes>)
    ensures r.Ok? ==> |r.value| <= PRK_3AE_DEFAULT_SIZE
  {
    var kid :- IdCred2Kid(Trunc8(idCred));
    var p := (if kid.Some? then [kid.value] else idCred) + Encode(ByteString(Trunc8(signOrMac)));
    if |p| > PRK_3AE_DEFAULT_SIZE then Err(DestBufferTooSmall) else Ok(p)
  }

  function Encrypt3(cr: EdhocCrypto, suite: Suite, prk3e2m: Digest, th3: Digest, p: bytes): (c: ShortString)
    requires |p| <= PRK_3AE_DEFAULT_SIZE
    ensures |c| == |p| + suite.macLen
  {
    var k := Aead3Of(cr, suite, prk3e2m, th3);
    cr.seal(k.k, k.iv, k.a, p, suite.macLen)
  }

  function Seal3(cr: EdhocCrypto, suite: Suite, c: InitiatorContext, o: Opened2, prk3e2m: Digest): Result<Sealed3> {
    var th3 :- Th3(cr, o.th2, o.m2.ciphertext2, Data3(c, o));
    var b := Binding3(cr, c, o, prk3e2m, th3);
    var signOrMac :- SignOrMac(cr, suite, b, c.sk, c.pk);
    var p :- P3ae(c.idCred, signOrMac);
    var ciphertext3 := Encrypt3(cr, suite, prk3e2m, th3, p);
    var msg3 :- Msg3(o.m2.cR, ciphertext3);
    Ok(Sealed3(th3, b.prk, ciphertext3, msg3))
  }

  /** After the check: message 3 and TH_4, or the error message of a failed check. */
  function Finish(cr: EdhocCrypto, suite: Suite, c: InitiatorContext, msg1: bytes, o: Opened2, peer: Peer,
      authentic: bool): Run {
    if !authentic then
      match ErrorMessage(Initiator, c.corr, o.m2.cR, [])
      case Err(e) => Run([msg1], Err(e))
      case Ok(m) => Run([msg1, m], Err(ResponderAuthenticationFailed))
    else
      var prk3e2m := Prk3e2m(cr, c, o, peer);
      match Seal3(cr, suite, c, o, prk3e2m)
      case Err(e) => Run([msg1], Err(e))
      case Ok(s) =>
        match Th4(cr, s.th3, s.ciphertext3)
        case Err(e) => Run([msg1, s.msg3], Err(e))
        case Ok(th4) => Run([msg1, s.msg3], Ok(Session(o.th2, s.th3, th4, o.prk2e, prk3e2m, s.prk4x3m)))
  }

  /** The whole run, given what is received as message 2. */
  function InitiatorRun(cr: EdhocCrypto, c: InitiatorContext, lookup: Lookup, msg2: bytes, buffers: Buffers): Run {
    match Start(c)
    case Err(e) => Run([], Err(e))
    case Ok((suite, msg1)) =>
      match Open2(cr, suite, c, msg1, msg2, buffers)
      case Err(e) => Run([msg1], Err(e))
      case Ok(o) =>
        match lookup(o.parts.idCred)
        case Err(e) => Run([msg1], Err(e))
        case Ok(peer) =>
          match Check(cr, suite, Binding2(cr, c, o, peer), peer.pk, o.parts.signOrMac)
          case Err(e) => Run([msg1], Err(e))
          case Ok(authentic) => Finish(cr, suite, c, msg1, o, peer, authentic)
  }

  // ----- the imperative run -----

  method ReceiveMessage2(cr: EdhocCrypto, suite: Suite, c: InitiatorContext, msg1: bytes, msg2: bytes, buffers: Buffers)
    returns (r: Result<Opened2>)
    ensures r == Open2(cr, suite, c, msg1, msg2, buffers)
  {
    hide Msg2Parse, Th2, PlaintextSplit, XorKeystream, Hkdf.Extract;
    Parse2Lengths(c, msg2, buffers);
    if |msg2| > MSG_2_DEFAULT_SIZE { return Err(MessageBufferTooSmall); }
    var m2 := ParseMsg2(c.corr, |c.cI|, |c.gX|, msg2);
    if m2 == Err(ErrorMessageReceived) { return Err(Reported(msg2, buffers.errCap)); }
    if m2.Err? { return Err(m2.error); }
    var gXy := cr.dh(c.x, m2.value.gY);
    var th2 := Th2Calculate(cr, msg1, m2.value.cI, m2.value.gY, m2.value.cR);
    if th2.Err? { return Err(th2.error); }
    var prk2e := Extract(cr.hmac, [], gXy);
    var p2e := ApplyKeystream(cr, suite, prk2e, th2.value, m2.value.ciphertext2);
    var parts := PlaintextSplitAt(p2e, buffers.adCap);
    if parts.Err? { return Err(parts.error); }
    r := Ok(Opened2(m2.value, th2.value, prk2e, parts.value));
  }

  lemma Parse2Lengths(c: InitiatorContext, msg2: bytes, buffers: Buffers)
    ensures var m2 := Msg2Parse(c.corr, |c.cI|, |c.gX|, msg2);
             m2.Ok? ==> |m2.value.ciphertext2| <= CIPHERTEXT2_DEFAULT_SIZE
  {
  }

  method CreateMessage3(cr: EdhocCrypto, suite: Suite, c: InitiatorContext, o: Opened2, prk3e2m: Digest)
      returns (r: Result<Sealed3>)
    ensures r == Seal3(cr, suite, c, o, prk3e2m)
  {
    hide Th3, SignatureOrMacMsg, IdCred2Kid, Encode, Aead3Of, Msg3, PrkDerive;
    var data3: ShortString := o.m2.cR;
    if c.corr == 2 || c.corr == 3 { data3 := []; }
    var th3 := Th3Calculate(cr, o.th2, o.m2.ciphertext2, data3);
    if th3.Err? { return Err(th3.error); }
    var b := Binding3(cr, c, o, prk3e2m, th3.value);
    var md := SignatureOrMacMsgCreate(cr, suite, b);
    if md.Err? { return Err(md.error); }
    var signOrMac := md.value.mac;
    if !b.staticDh { signOrMac := cr.sign(c.sk, c.pk, md.value.m); }
    var encoded := Encode(ByteString(Trunc8(signOrMac)));
    var kid := IdCred2Kid(Trunc8(c.idCred));
    if kid.Err? { return Err(kid.error); }
    var id := if kid.value.Some? then [kid.value.value] else c.idCred;
    if |id| + |encoded| > PRK_3AE_DEFAULT_SIZE { return Err(DestBufferTooSmall); }
    var k := Aead3Calc(cr, suite, prk3e2m, th3.value);
    var ciphertext3 := cr.seal(k.k, k.iv, k.a, id + encoded, suite.macLen);
    var msg3 := Msg3Create(o.m2.cR, ciphertext3);
    if msg3.Err? { return Err(msg3.error); }
    r := Ok(Sealed3(th3.value, b.prk, ciphertext3, msg3.value));
  }

  /** edhoc_initiator_run; `sent` collects what is transmitted. */
  method EdhocInitiatorRun(cr: EdhocCrypto, c: InitiatorContext, lookup: Lookup, msg2: bytes, buffers: Buffers)
    returns (sent: seq<bytes>, result: Result<Session>)
    ensures Run(sent, result) == InitiatorRun(cr, c, lookup, msg2, buffers)
  {
    hide GetSuite, Msg1, Open2, Seal3, Th4, SignatureOrMacMsg, ErrorMessage, PrkDerive;
    sent := [];
    if c.suites == [] { return sent, Err(Undefined); }
    var suite := GetSuite(c.suites[0]);
    if suite.Err? { return sent, Err(suite.error); }
    var msg1 := Msg1Encode(OfferOf(c));
    if msg1.Err? { return sent, Err(msg1.error); }
    sent := sent + [msg1.value];

    var o := ReceiveMessage2(cr, suite.value, c, msg1.value, msg2, buffers);
    if o.Err? { return sent, Err(o.error); }
    var peer := lookup(o.value.parts.idCred);
    if peer.Err? { return sent, Err(peer.error); }
    var prk3e2m := Prk3e2m(cr, c, o.value, peer.value);
    var b := Binding2(cr, c, o.value, peer.value);
    var md := SignatureOrMacMsgCreate(cr, suite.value, b);
    if md.Err? { return sent, Err(md.error); }
    var authentic;
    if b.staticDh {
      if |o.value.parts.signOrMac| < suite.value.macLen { return sent, Err(Undefined); }
      authentic := md.value.mac == o.value.parts.signOrMac[..suite.value.macLen];
    } else {
      authentic := cr.verify(peer.value.pk, md.value.m, o.value.parts.signOrMac);
    }
    if !authentic {
      var m := ErrorMessage(Initiator, c.corr, o.value.m2.cR, []);
      if m.Err? { return sent, Err(m.error); }
      return sent + [m.value], Err(ResponderAuthenticationFailed);
    }

    var s := CreateMessage3(cr, suite.value, c, o.value, prk3e2m);
    if s.Err? { return sent, Err(s.error); }
    sent := sent + [s.value.msg3];
    var th4 := Th4Calculate(cr, s.value.th3, s.value.ciphertext3);
    if th4.Err? { return sent, Err(th4.error); }
    result := Ok(Session(o.value.th2, s.value.th3, th4.value, o.value.prk2e, prk3e2m, s.value.prk4x3m));
  }
}
