/**
 * The EDHOC responder (edhoc_responder_run in modules/edhoc/src/responder.c): the run as a
 * function of the received messages, and the imperative run.
 */
module EdhocResponder {
  import opened Bytes
  import opened Cbor
  import opened Hkdf
  import opened Edhoc
  import opened EdhocTh
  import opened EdhocPlaintext
  import opened EdhocMac
  import opened EdhocMessages

  type Suites = s: bytes | |s| < 0x100

  /** Its parameters; auxiliary data is empty. */
  datatype ResponderContext = ResponderContext(suites: Suites, gY: ShortString, y: bytes, cR: ShortString, r: bytes,
                                               idCred: bytes, cred: bytes, sk: bytes, pk: bytes)

  /** The sizes of the caller's buffers for an error message and for auxiliary data. */
  datatype Buffers = Buffers(errCap: nat, ad1Cap: nat, ad3Cap: nat)

  // ----- the run as a function -----

  function Parse1(msg1: bytes, buffers: Buffers): (r: Result<Msg1Parts>)
    ensures r.Ok? ==> |r.value.cI| <= C_I_DEFAULT_SIZE && r.value.suites != []
  {
    var received :- Rx(msg1, MSG_1_DEFAULT_SIZE);
    Msg1Parse(received, buffers.ad1Cap)
  }

  /** What is kept between messages 2 and 3. */
  datatype Answered = Answered(suite: Suite, methodType: nat, corr: byte, th2: Digest, prk2e: Digest, prk3e2m: Digest,
                               ciphertext2: ShortString, msg2: bytes)

  /** The correlation value: the code assigns 3 where it means to compare with it. */
  function CorrOf(methodCorr: byte): byte { if methodCorr % 4 == 1 then 1 else 3 }

  function BindingOf2(c: ResponderContext, methodType: nat, prk3e2m: Digest, th2: Digest): Binding {
    Binding(Message2, StaticDhR(methodType), prk3e2m, th2, c.idCred, c.cred, [])
  }

  /** Message 2 from its keys: authenticator, plaintext, keystream. */
  function Encrypt2(cr: EdhocCrypto, suite: Suite, c: ResponderContext, b: Binding,
      prk2e: Digest): (r: Result<ShortString>)
    ensures r.Ok? ==> |r.value| <= CIPHERTEXT2_DEFAULT_SIZE
  {
    var signOrMac :- SignOrMac(cr, suite, b, c.sk, c.pk);
    var p :- PlaintextEncode(c.idCred, signOrMac);
    if |p| > CIPHERTEXT2_DEFAULT_SIZE then Err(Undefined)
    else Ok(XorKeystream(cr, suite, prk2e, b.th, p))
  }

  /** What is read of unset flags or of a short G_X is undefined. */
  function Answer(cr: EdhocCrypto, c: ResponderContext, m1: Msg1Parts, msg1: bytes): Result<Answered>
    requires m1.suites != []
  {
    var suite :- GetSuite(m1.suites[0]);
    var th2 :- Th2(cr, msg1, [], c.gY, c.cR);
    var methodType := m1.methodCorr / 4;
    if methodType > 3 || |m1.gX| != G_X_DEFAULT_SIZE then Err(Undefined)
    else
      var prk2e := Extract(cr.hmac, [], cr.dh(c.y, m1.gX));
      var prk3e2m := PrkDerive(cr, StaticDhR(methodType), prk2e, m1.gX, c.r);
      var ciphertext2 :- Encrypt2(cr, suite, c, BindingOf2(c, methodType, prk3e2m, th2), prk2e);
      var msg2 :- Msg2(CorrOf(m1.methodCorr), m1.cI, c.gY, c.cR, ciphertext2);
      Ok(Answered(suite, methodType, CorrOf(m1.methodCorr), th2, prk2e, prk3e2m, ciphertext2, msg2))
  }

  /** Message 3, opened. */
  datatype Opened3 = Opened3(th3: Digest, ciphertext3: ShortString, parts: Parts)

  function Parse3(c: ResponderContext, a: Answered, msg3: bytes, buffers: Buffers): Result<ShortString> {
    var received :- Rx(msg3, MSG_3_DEFAULT_SIZE);
    var m3 := Msg3Parse(a.corr, |c.cR|, received);
    if m3 == Err(ErrorMessageReceived) then Err(Reported(received, buffers.errCap)) else m3
  }

  function Decrypt3(cr: EdhocCrypto, a: Answered, th3: Digest, ciphertext3: bytes): Result<bytes> {
    if |ciphertext3| < a.suite.macLen then Err(Undefined)
    else
      var k := Aead3Of(cr, a.suite, a.prk3e2m, th3);
      match cr.open(k.k, k.iv, k.a, ciphertext3, a.suite.macLen)
      case None => Err(AeadAuthenticationFailed)
      case Some(p) => Ok(p)
  }

  function Open3(cr: EdhocCrypto, c: ResponderContext, a: Answered, msg3: bytes, buffers: Buffers): Result<Opened3> {
    var ciphertext3 :- Parse3(c, a, msg3, buffers);
    var th3 :- Th3(cr, a.th2, a.ciphertext2, Trunc8(c.cR));
    var p :- Decrypt3(cr, a, th3, ciphertext3);
    var parts :- PlaintextSplit(p, buffers.ad3Cap);
    Ok(Opened3(th3, ciphertext3, parts))
  }

  function Prk4x3m(cr: EdhocCrypto, c: ResponderContext, a: Answered, peer: Peer): Digest {
    PrkDerive(cr, StaticDhI(a.methodType), a.prk3e2m, peer.g, c.y)
  }

  /** What the initiator must have authenticated. */
  function BindingOf3(cr: EdhocCrypto, c: ResponderContext, a: Answered, o: Opened3, peer: Peer): Binding {
    Binding(Message3, StaticDhI(a.methodType), Prk4x3m(cr, c, a, peer), o.th3, o.parts.idCred, peer.cred, o.parts.ad)
  }

  /** After the check: TH_4, or the error message of a failed check. */
  function Finish(cr: EdhocCrypto, c: ResponderContext, m1: Msg1Parts, a: Answered, o: Opened3, peer: Peer,
      authentic: bool): Run {
    if !authentic then
      match ErrorMessage(Responder, a.corr, m1.cI, [])
      case Err(e) => Run([a.msg2], Err(e))
      case Ok(m) => Run([a.msg2, m], Err(ResponderAuthenticationFailed))
    else
      match Th4(cr, o.th3, o.ciphertext3)
      case Err(e) => Run([a.msg2], Err(e))
      case Ok(th4) => Run([a.msg2], Ok(Session(a.th2, o.th3, th4, a.prk2e, a.prk3e2m, Prk4x3m(cr, c, a, peer))))
  }

  /** Message 3 received after message 2 was sent. */
  function Conclude(cr: EdhocCrypto, c: ResponderContext, lookup: Lookup, m1: Msg1Parts, a: Answered, msg3: bytes,
      buffers: Buffers): Run {
    match Open3(cr, c, a, msg3, buffers)
    case Err(e) => Run([a.msg2], Err(e))
    case Ok(o) =>
      match lookup(o.parts.idCred)
      case Err(e) => Run([a.msg2], Err(e))
      case Ok(peer) =>
        match Check(cr, a.suite, BindingOf3(cr, c, a, o, peer), peer.pk, o.parts.signOrMac)
        case Err(e) => Run([a.msg2], Err(e))
        case Ok(authentic) => Finish(cr, c, m1, a, o, peer, authentic)
  }

  /** The whole run, given what is received as messages 1 and 3. */
  function ResponderRun(cr: EdhocCrypto, c: ResponderContext, lookup: Lookup, msg1: bytes, msg3: bytes,
      buffers: Buffers): Run {
    match Parse1(msg1, buffers)
    case Err(e) => Run([], Err(e))
    case Ok(m1) =>
      if m1.suites[0] !in c.suites then
        match ErrorMessage(Responder, m1.methodCorr, m1.cI, c.suites)
        case Err(e) => Run([], Err(e))
        case Ok(m) => Run([m], Err(ErrorMessageSent))
      else
        match Answer(cr, c, m1, msg1)
        case Err(e) => Run([], Err(e))
        case Ok(a) => Conclude(cr, c, lookup, m1, a, msg3, buffers)
  }

  // ----- the imperative run -----

  /** Looks for the selected suite among the supported ones. */
  method SelectedSuiteIsSupported(selected: byte, suites: Suites) returns (found: bool)
    ensures found <==> selected in suites
  {
    for i := 0 to |suites|
      invariant selected !in suites[..i]
    {
      if suites[i] == selected { return true; }
    }
    found := false;
  }

  method CreateMessage2(cr: EdhocCrypto, c: ResponderContext, m1: Msg1Parts, msg1: bytes) returns (r: Result<Answered>)
    requires m1.suites != []
    ensures r == Answer(cr, c, m1, msg1)
  {
    hide GetSuite, Th2, SignatureOrMacMsg, PlaintextEncode, XorKeystream, Msg2, PrkDerive, Hkdf.Extract;
    var methodType := m1.methodCorr / 4;
    var corr := m1.methodCorr - 4 * methodType;
    var suite := GetSuite(m1.suites[0]);
    if suite.Err? { return Err(suite.error); }
    if corr != 1 { corr := 3; }
    var th2 := Th2Calculate(cr, msg1, [], c.gY, c.cR);
    if th2.Err? { return Err(th2.error); }
    if methodType > 3 || |m1.gX| != G_X_DEFAULT_SIZE { return Err(Undefined); }
    var gXy := cr.dh(c.y, m1.gX);
    var prk2e := Extract(cr.hmac, [], gXy);
    var prk3e2m := PrkDerive(cr, StaticDhR(methodType), prk2e, m1.gX, c.r);
    var b := BindingOf2(c, methodType, prk3e2m, th2.value);
    var md := SignatureOrMacMsgCreate(cr, suite.value, b);
    if md.Err? { return Err(md.error); }
    var signOrMac := md.value.mac;
    if !b.staticDh { signOrMac := cr.sign(c.sk, c.pk, md.value.m); }
    var p2e := PlaintextEncodeInto(c.idCred, signOrMac);
    if p2e.Err? { return Err(p2e.error); }
    if |p2e.value| > CIPHERTEXT2_DEFAULT_SIZE { return Err(Undefined); }
    var ciphertext2 := ApplyKeystream(cr, suite.value, prk2e, th2.value, p2e.value);
    var msg2 := Msg2Encode(corr, m1.cI, c.gY, c.cR, ciphertext2);
    if msg2.Err? { return Err(msg2.error); }
    r := Ok(Answered(suite.value, methodType, corr, th2.value, prk2e, prk3e2m, ciphertext2, msg2.value));
  }

  method ReceiveMessage3(cr: EdhocCrypto, c: ResponderContext, a: Answered, msg3: bytes, buffers: Buffers)
      returns (r: Result<Opened3>)
    ensures r == Open3(cr, c, a, msg3, buffers)
  {
    hide Msg3Parse, Th3, Aead3Of, PlaintextSplit;
    if |msg3| > MSG_3_DEFAULT_SIZE { return Err(MessageBufferTooSmall); }
    var ciphertext3 := ParseMsg3(a.corr, |c.cR|, msg3);
    if ciphertext3 == Err(ErrorMessageReceived) { return Err(Reported(msg3, buffers.errCap)); }
    if ciphertext3.Err? { return Err(ciphertext3.error); }
    var th3 := Th3Calculate(cr, a.th2, a.ciphertext2, Trunc8(c.cR));
    if th3.Err? { return Err(th3.error); }
    var k := Aead3Calc(cr, a.suite, a.prk3e2m, th3.value);
    if |ciphertext3.value| < a.suite.macLen { return Err(Undefined); }
    var p3ae := cr.open(k.k, k.iv, k.a, ciphertext3.value, a.suite.macLen);
    if p3ae.None? { return Err(AeadAuthenticationFailed); }
    var parts := PlaintextSplitAt(p3ae.value, buffers.ad3Cap);
    if parts.Err? { return Err(parts.error); }
    r := Ok(Opened3(th3.value, ciphertext3.value, parts.value));
  }

  /** edhoc_responder_run; `sent` collects what is transmitted. */
  method EdhocResponderRun(cr: EdhocCrypto, c: ResponderContext, lookup: Lookup, msg1: bytes, msg3: bytes,
      buffers: Buffers)
    returns (sent: seq<bytes>, result: Result<Session>)
    ensures Run(sent, result) == ResponderRun(cr, c, lookup, msg1, msg3, buffers)
  {
    hide Msg1Parse, Answer, Open3, Th4, SignatureOrMacMsg, ErrorMessage, PrkDerive;
    sent := [];
    if |msg1| > MSG_1_DEFAULT_SIZE { return sent, Err(MessageBufferTooSmall); }
    var m1 := ParseMsg1(msg1, buffers.ad1Cap);
    if m1.Err? { return sent, Err(m1.error); }
    var supported := SelectedSuiteIsSupported(m1.value.suites[0], c.suites);
    if !supported {
      var m := ErrorMessage(Responder, m1.value.methodCorr, m1.value.cI, c.suites);
      if m.Err? { return sent, Err(m.error); }
      return sent + [m.value], Err(ErrorMessageSent);
    }
    var a := CreateMessage2(cr, c, m1.value, msg1);
    if a.Err? { return sent, Err(a.error); }
    sent := sent + [a.value.msg2];

    var o := ReceiveMessage3(cr, c, a.value, msg3, buffers);
    if o.Err? { return sent, Err(o.error); }
    var peer := lookup(o.value.parts.idCred);
    if peer.Err? { return sent, Err(peer.error); }
    var prk4x3m := Prk4x3m(cr, c, a.value, peer.value);
    var b := BindingOf3(cr, c, a.value, o.value, peer.value);
    var md := SignatureOrMacMsgCreate(cr, a.value.suite, b);
    if md.Err? { return sent, Err(md.error); }
    var authentic;
    if b.staticDh {
      if |o.value.parts.signOrMac| < a.value.suite.macLen { return sent, Err(Undefined); }
      authentic := md.value.mac == o.value.parts.signOrMac[..a.value.suite.macLen];
    } else {
      authentic := cr.verify(peer.value.pk, md.value.m, o.value.parts.signOrMac);
    }
    if !authentic {
      var m := ErrorMessage(Responder, a.value.corr, m1.value.cI, []);
      if m.Err? { return sent, Err(m.error); }
      return sent + [m.value], Err(ResponderAuthenticationFailed);
    }
    var th4 := Th4Calculate(cr, o.value.th3, o.value.ciphertext3);
    if th4.Err? { return sent, Err(th4.error); }
    result := Ok(Session(a.value.th2, o.value.th3, th4.value, a.value.prk2e, a.value.prk3e2m, prk4x3m));
  }
}
