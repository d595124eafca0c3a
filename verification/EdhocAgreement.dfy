/**
 * Whole runs of EDHOC: two honest parties agree on every hash and key exactly when corr is 1
 * and C_R is below 48.
 */
module EdhocAgreement {
  import opened Bytes
  import opened Cbor
  import opened Wire
  import opened Hkdf
  import opened Edhoc
  import opened EdhocTh
  import opened EdhocPlaintext
  import opened EdhocMac
  import opened EdhocMessages
  import I = EdhocInitiator
  import R = EdhocResponder

  // ----- two honest parties -----

  /** An initiator and a responder, and the identifiers of their credentials. */
  datatype Parties = Parties(i: I.InitiatorContext, r: R.ResponderContext, idI: CredId, idR: CredId)

  predicate Carried(id: CredId) { id.Kid? ==> id.kid < 48 }

  /** One supported suite, matching keys, known credentials, and sizes that fit the messages. */
  ghost predicate Honest(cr: EdhocCrypto, p: Parties, lookupI: Lookup, lookupR: Lookup) {
    && Laws(cr)
    && p.i.methodType <= 3 && p.i.corr <= 3
    && |p.i.suites| == 1 && p.i.suites[0] <= 3 && p.i.suites[0] in p.r.suites
    && p.i.gX == cr.pub(p.i.x) && p.r.gY == cr.pub(p.r.y)
    && |p.i.cI| <= C_I_DEFAULT_SIZE && |p.r.cR| == 1
    && p.i.pk == cr.verifyKey(p.i.sk) && p.r.pk == cr.verifyKey(p.r.sk)
    && p.i.idCred == IdCredBytes(p.idI) && p.r.idCred == IdCredBytes(p.idR) && Carried(p.idI) && Carried(p.idR)
    && |p.i.idCred| <= 171 && |p.r.idCred| <= 152 && |p.i.cred| <= 255 && |p.r.cred| <= 255
    && lookupI(p.r.idCred) == Ok(Peer(p.r.cred, p.r.pk, cr.pub(p.r.r)))
    && lookupR(p.i.idCred) == Ok(Peer(p.i.cred, p.i.pk, cr.pub(p.i.i)))
  }

  // ----- message 1 -----

  function SuiteOf(selected: byte): Suite { if selected == 0 || selected == 2 then Suite(10, 8) else Suite(30, 16) }

  /** Message 1 is short. */
  lemma Msg1Short(o: Offer)
    requires o.methodCorr < 16 && |o.suites| == 1 && o.suites[0] <= 3 && |o.gX| == 32 && |o.cI| <= C_I_DEFAULT_SIZE
    ensures Msg1(o) == Ok(EncodeAll(Msg1Items(o))) && |EncodeAll(Msg1Items(o))| <= 50
  {
    hide Encode, EncodeAll;
    var items := Msg1Items(o);
    FourItems(items);
    NumberSize(o.methodCorr);
    NumberSize(o.suites[0]);
    StringSize(o.gX);
    IdentifierSize(o.cI);
  }

  lemma IdentifierSize(c: ShortString)
    requires |c| <= 8
    ensures |Encode(BstrIdentifier(c))| <= 9
  {
  }

  lemma StartHonest(c: I.InitiatorContext, adCap: nat)
    requires c.methodType <= 3 && c.corr <= 3 && |c.suites| == 1 && c.suites[0] <= 3 && |c.gX| == 32
             && |c.cI| <= C_I_DEFAULT_SIZE
    ensures var s := I.Start(c);
            && s.Ok? && s.value.0 == SuiteOf(c.suites[0]) && |s.value.1| <= 50
            && Msg1Parse(s.value.1, adCap) == Ok(Msg1Parts(4 * c.methodType + c.corr, c.suites, c.gX, c.cI, []))
  {
    hide Msg1, Msg1Parse, EncodeAll;
    Msg1Short(I.OfferOf(c));
    Msg1RoundTrip(I.OfferOf(c), adCap);
  }

  // ----- transcript hashes can be computed -----

  lemma Th2Exists(cr: EdhocCrypto, msg1: bytes, gY: Point, cR: ShortString)
    requires |msg1| <= 50 && |cR| <= 8
    ensures Th2(cr, msg1, [], gY, cR).Ok?
  {
    hide Encode, EncodeAll, BstrIdentifier;
    var items := Th2Items([], gY, cR);
    assert items == [ByteString(gY), BstrIdentifier(cR)];
    Two(ByteString(gY), BstrIdentifier(cR));
    StringSize(gY);
    IdentifierSize(cR);
  }

  lemma Th3Exists(cr: EdhocCrypto, th2: Digest, ciphertext2: ShortString, data3: ShortString)
    requires |ciphertext2| < 0x100 && |data3| <= 1
    ensures Th3(cr, th2, ciphertext2, data3).Ok?
  {
    ByteSize(data3);
    hide Encode, EncodeAll, BstrIdentifier;
    ThreeItems(Th3Items(th2, ciphertext2, data3));
    StringSize(th2);
    StringSize(ciphertext2);
  }

  lemma ByteSize(c: ShortString)
    requires |c| <= 1
    ensures |Encode(BstrIdentifier(c))| <= |c| + 1
  {
    if |c| == 1 && c[0] >= 24 {
      NumberSize(c[0] as int - 24);
    }
    hide *;
  }

  lemma Th4Exists(cr: EdhocCrypto, th3: Digest, ciphertext3: ShortString)
    requires |ciphertext3| < 0x100
    ensures Th4(cr, th3, ciphertext3).Ok?
  {
    hide Encode, EncodeAll;
    Two(ByteString(th3), ByteString(ciphertext3));
    StringSize(th3);
    StringSize(ciphertext3);
  }

  // ----- message 2 -----

  /** The identifier as sent is no longer than the ID_CRED. */
  lemma IdPartLen(id: CredId)
    ensures IdPart(IdCredBytes(id)).Ok? && |IdPart(IdCredBytes(id)).value| <= |IdCredBytes(id)|
  {
    hide Encode, IdPart, PlaintextSplit, IdCredBytes, KidIdCred, Decode;
    if id.Kid? {
      KidBytes(id.kid);
      KidSent(id.kid);
      KidLayout(id.kid);
    } else {
      CertificateRoundTrip(id, Zeros(2), 0);
    }
  }

  /** The plaintext of a party, and that it is read back. */
  lemma PlaintextCarried(id: CredId, signOrMac: bytes, adCap: nat)
    requires 2 <= |signOrMac| <= 64
    ensures var p := PlaintextEncode(IdCredBytes(id), signOrMac);
            && p.Ok? && |p.value| <= |IdCredBytes(id)| + 66
            && (|IdCredBytes(id)| <= 173 ==> I.P3ae(IdCredBytes(id), signOrMac) == p)
            && (Carried(id) ==> PlaintextSplit(p.value, adCap) == Ok(Parts(IdCredBytes(id), signOrMac, [])))
  {
    hide Encode, IdCred2Kid, PlaintextSplit, IdCredBytes;
    PlaintextRoundTrip(id, signOrMac, adCap);
    IdCredLen(id);
    IdPartLen(id);
    StringSize(signOrMac);
  }

  lemma Msg2Exists(corr: byte, cI: ShortString, gY: Point, cR: ShortString, ciphertext2: ShortString)
    requires (corr == 1 || corr == 3) && |cR| == 1 && |ciphertext2| <= 218
    ensures Msg2(corr, cI, gY, cR, ciphertext2).Ok?
  {
    hide Encode, EncodeAll, BstrIdentifier;
    var a, b, c := ByteString(Trunc8(gY)), Int(cR[0] as int - 24), ByteString(ciphertext2);
    assert Msg2Items(corr, cI, gY, b, ciphertext2) == [a, b, c];
    ThreeItems([a, b, c]);
    StringSize(gY);
    StringSize(ciphertext2);
    ByteSize(cR);
    BstrIs(cR);
  }

  lemma BstrIs(c: ShortString)
    requires |c| == 1
    ensures BstrIdentifier(c) == Int(c[0] as int - 24)
  {
  }

  lemma Encrypt2Honest(cr: EdhocCrypto, suite: Suite, c: R.ResponderContext, b: Binding, prk2e: Digest, id: CredId)
      returns (signOrMac: bytes, p: bytes)
    requires Laws(cr) && 2 <= suite.macLen <= 16
    requires b.idCred == c.idCred == IdCredBytes(id) && |c.idCred| <= 152 && b.cred == c.cred && |c.cred| <= 255
             && b.ad == []
    ensures SignOrMac(cr, suite, b, c.sk, c.pk) == Ok(signOrMac) && 2 <= |signOrMac| <= 64
    ensures PlaintextEncode(c.idCred, signOrMac) == Ok(p) && |p| <= 218
    ensures R.Encrypt2(cr, suite, c, b, prk2e) == Ok(XorKeystream(cr, suite, prk2e, b.th, p))
  {
    hide SignOrMac, PlaintextEncode, XorKeystream, PlaintextSplit, IdCredBytes;
    SignOrMacExists(cr, suite, b, c.sk, c.pk);
    SignOrMacLen(cr, suite, b, c.sk, c.pk);
    signOrMac := SignOrMac(cr, suite, b, c.sk, c.pk).value;
    PlaintextCarried(id, signOrMac, 0);
    p := PlaintextEncode(c.idCred, signOrMac).value;
  }

  /** The responder's state after message 2. */
  ghost predicate AnsweredHonestly(cr: EdhocCrypto, p: Parties, msg1: bytes, a: R.Answered, signOrMac: bytes,
      ptxt: bytes) {
    && |p.i.suites| == 1 && a.suite == SuiteOf(p.i.suites[0]) && a.methodType == p.i.methodType
       && a.corr == (if p.i.corr == 1 then 1 else 3)
    && Th2(cr, msg1, [], p.r.gY, p.r.cR) == Ok(a.th2)
    && a.prk2e == Extract(cr.hmac, [], cr.dh(p.r.y, p.i.gX))
    && a.prk3e2m == PrkDerive(cr, StaticDhR(a.methodType), a.prk2e, p.i.gX, p.r.r)
    && SignOrMac(cr, a.suite, R.BindingOf2(p.r, a.methodType, a.prk3e2m, a.th2), p.r.sk, p.r.pk) == Ok(signOrMac)
    && 2 <= |signOrMac| <= 64 && PlaintextEncode(p.r.idCred, signOrMac) == Ok(ptxt) && |ptxt| <= 218
    && a.ciphertext2 == XorKeystream(cr, a.suite, a.prk2e, a.th2, ptxt)
    && Msg2(a.corr, p.i.cI, p.r.gY, p.r.cR, a.ciphertext2) == Ok(a.msg2)
  }

  lemma AnswerHonest(cr: EdhocCrypto, p: Parties, lookupI: Lookup, lookupR: Lookup, msg1: bytes)
      returns (signOrMac: bytes, ptxt: bytes)
    requires Honest(cr, p, lookupI, lookupR) && |msg1| <= 50
    ensures var a := R.Answer(cr, p.r, Msg1Parts(4 * p.i.methodType + p.i.corr, p.i.suites, p.i.gX, p.i.cI, []), msg1);
            a.Ok? && AnsweredHonestly(cr, p, msg1, a.value, signOrMac, ptxt)
  {
    hide Th2, SignOrMac, PlaintextEncode, XorKeystream, Msg2, PrkDerive, Hkdf.Extract, R.Encrypt2, IdCredBytes,
         StaticDhR, R.Answer, R.CorrOf, GetSuite, R.BindingOf2, SuiteOf, Laws;
    SuiteIs(p.i.suites[0]);
    Th2Exists(cr, msg1, p.r.gY, p.r.cR);
    var suite, methodType, th2 := SuiteOf(p.i.suites[0]), p.i.methodType, Th2(cr, msg1, [], p.r.gY, p.r.cR).value;
    var prk2e := Extract(cr.hmac, [], cr.dh(p.r.y, p.i.gX));
    var prk3e2m := PrkDerive(cr, StaticDhR(methodType), prk2e, p.i.gX, p.r.r);
    var b := R.BindingOf2(p.r, methodType, prk3e2m, th2);
    BindingIs(p.r, methodType, prk3e2m, th2);
    signOrMac, ptxt := Encrypt2Honest(cr, suite, p.r, b, prk2e, p.idR);
    var ciphertext2 := XorKeystream(cr, suite, prk2e, th2, ptxt);
    Msg2Exists(if p.i.corr == 1 then 1 else 3, p.i.cI, p.r.gY, p.r.cR, ciphertext2);
    MethodAndCorr(p.i.methodType, p.i.corr);
    AnswerIs(cr, p.r, Msg1Parts(4 * p.i.methodType + p.i.corr, p.i.suites, p.i.gX, p.i.cI, []), msg1,
             R.Answered(suite, methodType, if p.i.corr == 1 then 1 else 3, th2, prk2e, prk3e2m, ciphertext2,
                        Msg2(if p.i.corr == 1 then 1 else 3, p.i.cI, p.r.gY, p.r.cR, ciphertext2).value));
  }

  lemma SuiteIs(suite: byte)
    requires suite <= 3
    ensures GetSuite(suite) == Ok(SuiteOf(suite)) && 8 <= SuiteOf(suite).macLen <= 16
  {
  }

  lemma BindingIs(c: R.ResponderContext, methodType: nat, prk3e2m: Digest, th2: Digest)
    ensures R.BindingOf2(c, methodType, prk3e2m, th2)
             == Binding(Message2, StaticDhR(methodType), prk3e2m, th2, c.idCred, c.cred, [])
  {
  }

  /** Message 2 from its parts. */
  lemma AnswerIs(cr: EdhocCrypto, c: R.ResponderContext, m1: Msg1Parts, msg1: bytes, a: R.Answered)
    requires m1.suites != [] && GetSuite(m1.suites[0]) == Ok(a.suite) && Th2(cr, msg1, [], c.gY, c.cR) == Ok(a.th2)
    requires m1.methodCorr / 4 == a.methodType <= 3 && R.CorrOf(m1.methodCorr) == a.corr && |m1.gX| == 32
    requires a.prk2e == Extract(cr.hmac, [], cr.dh(c.y, m1.gX))
    requires a.prk3e2m == PrkDerive(cr, StaticDhR(a.methodType), a.prk2e, m1.gX, c.r)
    requires R.Encrypt2(cr, a.suite, c, R.BindingOf2(c, a.methodType, a.prk3e2m, a.th2), a.prk2e) == Ok(a.ciphertext2)
    requires Msg2(a.corr, m1.cI, c.gY, c.cR, a.ciphertext2) == Ok(a.msg2)
    ensures R.Answer(cr, c, m1, msg1) == Ok(a)
  {
    hide GetSuite, Th2, R.CorrOf, PrkDerive, Hkdf.Extract, R.Encrypt2, R.BindingOf2, Msg2, StaticDhR;
  }

  lemma MethodAndCorr(methodType: byte, corr: byte)
    requires methodType <= 3 && corr <= 3
    ensures (4 * methodType + corr) / 4 == methodType && R.CorrOf(4 * methodType + corr) == if corr == 1 then 1 else 3
  {
  }

  /** The initiator opens message 2. */
  lemma Open2Honest(cr: EdhocCrypto, p: Parties, lookupI: Lookup, lookupR: Lookup, msg1: bytes, a: R.Answered,
      signOrMac: bytes, ptxt: bytes, buffers: I.Buffers)
    requires Honest(cr, p, lookupI, lookupR) && AnsweredHonestly(cr, p, msg1, a, signOrMac, ptxt)
    requires p.i.corr == 1 || p.i.corr == 3
    ensures I.Open2(cr, a.suite, p.i, msg1, a.msg2, buffers)
         == Ok(I.Opened2(Msg2Parts([], p.r.gY, p.r.cR, a.ciphertext2), a.th2, a.prk2e,
            Parts(p.r.idCred, signOrMac, [])))
  {
    hide Th2, SignOrMac, PlaintextEncode, PlaintextSplit, XorKeystream, Msg2, Msg2Parse, PrkDerive, Hkdf.Extract,
         IdCredBytes;
    assert p.r.cR == [p.r.cR[0]];
    Msg2Received(a.corr, p.i.cI, p.r.gY, p.r.cR, a.ciphertext2);
    Msg2RoundTrip(a.corr, |p.i.cI|, p.i.cI, p.r.gY, p.r.cR[0], a.ciphertext2);
    KeystreamTwice(cr, a.suite, a.prk2e, a.th2, ptxt);
    PlaintextCarried(p.idR, signOrMac, buffers.adCap);
    assert cr.dh(p.i.x, p.r.gY) == cr.dh(p.r.y, p.i.gX);
  }

  /** The initiator derives the same PRK and accepts the responder. */
  lemma Accept2Honest(cr: EdhocCrypto, p: Parties, lookupI: Lookup, lookupR: Lookup, msg1: bytes, a: R.Answered,
      signOrMac: bytes, ptxt: bytes, o: I.Opened2)
    requires Honest(cr, p, lookupI, lookupR) && AnsweredHonestly(cr, p, msg1, a, signOrMac, ptxt)
    requires o.th2 == a.th2 && o.prk2e == a.prk2e && o.parts == Parts(p.r.idCred, signOrMac, [])
    ensures var peer := Peer(p.r.cred, p.r.pk, cr.pub(p.r.r));
            && I.Prk3e2m(cr, p.i, o, peer) == a.prk3e2m
            && Check(cr, a.suite, I.Binding2(cr, p.i, o, peer), peer.pk, signOrMac) == Ok(true)
  {
    hide SignOrMac, Check, Th2, PlaintextEncode, XorKeystream, Msg2, PrkDerive, Hkdf.Extract, IdCredBytes;
    PrkAgreement(cr, StaticDhR(p.i.methodType), a.prk2e, p.r.r, p.i.x);
    CheckAccepts(cr, a.suite, R.BindingOf2(p.r, a.methodType, a.prk3e2m, a.th2), p.r.sk);
  }

  // ----- message 3 -----

  function Binding3(p: Parties, prk4x3m: Digest, th3: Digest): Binding {
    Binding(Message3, StaticDhI(p.i.methodType), prk4x3m, th3, p.i.idCred, p.i.cred, [])
  }

  /** Message 3 as it is sent. */
  function Msg3Bytes(cR: ShortString, ciphertext3: ShortString): bytes {
    Encode(BstrIdentifier(cR)) + Encode(ByteString(ciphertext3))
  }

  /** What the initiator hashes as C_R. */
  function Data3(p: Parties): ShortString {
    if p.i.corr == 2 || p.i.corr == 3 then [] else p.r.cR
  }

  /** The initiator's state after message 3. */
  ghost predicate SealedHonestly(cr: EdhocCrypto, p: Parties, a: R.Answered, s: I.Sealed3, signOrMac: bytes,
      ptxt: bytes) {
    && 2 <= |signOrMac| <= 64 && |ptxt| <= 237 && |s.ciphertext3| <= 253
    && Th3(cr, a.th2, a.ciphertext2, Data3(p)) == Ok(s.th3)
    && s.prk4x3m == PrkDerive(cr, StaticDhI(p.i.methodType), a.prk3e2m, p.r.gY, p.i.i)
    && SignOrMac(cr, a.suite, Binding3(p, s.prk4x3m, s.th3), p.i.sk, p.i.pk) == Ok(signOrMac)
    && PlaintextEncode(p.i.idCred, signOrMac) == Ok(ptxt)
    && s.ciphertext3 == I.Encrypt3(cr, a.suite, a.prk3e2m, s.th3, ptxt)
    && s.msg3 == Msg3Bytes(p.r.cR, s.ciphertext3)
  }

  /** Message 3 from its parts. */
  lemma Seal3Is(cr: EdhocCrypto, suite: Suite, c: I.InitiatorContext, o: I.Opened2, prk3e2m: Digest, b: Binding,
      signOrMac: bytes, ptxt: bytes)
    requires Th3(cr, o.th2, o.m2.ciphertext2, I.Data3(c, o)) == Ok(b.th) && b == I.Binding3(cr, c, o, prk3e2m, b.th)
    requires SignOrMac(cr, suite, b, c.sk, c.pk) == Ok(signOrMac)
    requires |ptxt| <= I.PRK_3AE_DEFAULT_SIZE && I.P3ae(c.idCred, signOrMac) == Ok(ptxt)
    ensures var ciphertext3 := I.Encrypt3(cr, suite, prk3e2m, b.th, ptxt);
            I.Seal3(cr, suite, c, o, prk3e2m)
            == match Msg3(o.m2.cR, ciphertext3)
               case Err(e) => Err(e)
               case Ok(msg3) => Ok(I.Sealed3(b.th, b.prk, ciphertext3, msg3))
  {
    hide Th3, I.Data3, I.Binding3, SignOrMac, I.P3ae, I.Encrypt3, Msg3;
  }

  lemma Seal3Honest(cr: EdhocCrypto, p: Parties, lookupI: Lookup, lookupR: Lookup, a: R.Answered, o: I.Opened2)
      returns (signOrMac: bytes, ptxt: bytes)
    requires Honest(cr, p, lookupI, lookupR) && a.suite == SuiteOf(p.i.suites[0]) && |a.ciphertext2| <= 218
    requires o.th2 == a.th2 && o.m2 == Msg2Parts([], p.r.gY, p.r.cR, a.ciphertext2)
    ensures var s := I.Seal3(cr, a.suite, p.i, o, a.prk3e2m);
            if p.r.cR[0] < 48 then s.Ok? && SealedHonestly(cr, p, a, s.value, signOrMac, ptxt)
            else s == Err(CborEncodingBufferTooSmall)
  {
    hide Laws, Th3, SignOrMac, PlaintextEncode, PrkDerive, I.Encrypt3, Msg3, I.Seal3, I.P3ae, IdCredBytes, StaticDhI,
         SuiteOf, PlaintextSplit;
    SuiteIs(p.i.suites[0]);
    var data3 := I.Data3(p.i, o);
    Th3Exists(cr, a.th2, a.ciphertext2, data3);
    var th3 := Th3(cr, a.th2, a.ciphertext2, data3).value;
    var b := Binding3(p, PrkDerive(cr, StaticDhI(p.i.methodType), a.prk3e2m, p.r.gY, p.i.i), th3);
    SignOrMacExists(cr, a.suite, b, p.i.sk, p.i.pk);
    SignOrMacLen(cr, a.suite, b, p.i.sk, p.i.pk);
    signOrMac := SignOrMac(cr, a.suite, b, p.i.sk, p.i.pk).value;
    PlaintextCarried(p.idI, signOrMac, 0);
    ptxt := PlaintextEncode(p.i.idCred, signOrMac).value;
    Seal3Is(cr, a.suite, p.i, o, a.prk3e2m, b, signOrMac, ptxt);
    assert p.r.cR == [p.r.cR[0]];
    Msg3Written(p.r.cR[0], I.Encrypt3(cr, a.suite, a.prk3e2m, th3, ptxt));
  }

  /** Message 3 fits the buffer it is received in. */
  lemma Msg3Received(cR: ShortString, ciphertext3: ShortString)
    requires |cR| == 1 && cR[0] < 48 && |ciphertext3| <= 253
    ensures |Msg3Bytes(cR, ciphertext3)| <= MSG_3_DEFAULT_SIZE
  {
    SmallInt(cR[0] as int - 24);
    StringSize(ciphertext3);
  }

  lemma Parse3Honest(c: R.ResponderContext, a: R.Answered, ciphertext3: ShortString, buffers: R.Buffers)
    requires |c.cR| == 1 && c.cR[0] < 48 && a.corr == 1 && |ciphertext3| <= 253
    ensures R.Parse3(c, a, Msg3Bytes(c.cR, ciphertext3), buffers) == Ok(ciphertext3)
  {
    Msg3Received(c.cR, ciphertext3);
    assert c.cR == [c.cR[0]];
    Msg3RoundTrip(a.corr, c.cR[0], ciphertext3);
    hide Msg3Parse, Encode;
  }

  /** The responder opens message 3. */
  lemma Open3Honest(cr: EdhocCrypto, p: Parties, lookupI: Lookup, lookupR: Lookup, a: R.Answered, s: I.Sealed3,
      signOrMac: bytes, ptxt: bytes, buffers: R.Buffers)
    requires Honest(cr, p, lookupI, lookupR) && SealedHonestly(cr, p, a, s, signOrMac, ptxt)
    requires p.i.corr == 1 && a.corr == 1 && p.r.cR[0] < 48
    ensures R.Open3(cr, p.r, a, s.msg3, buffers)
             == Ok(R.Opened3(s.th3, s.ciphertext3, Parts(p.i.idCred, signOrMac, [])))
  {
    hide Laws, Th3, SignOrMac, PlaintextEncode, PrkDerive, I.Encrypt3, IdCredBytes, StaticDhI, PlaintextSplit,
         R.Parse3, R.Decrypt3,
         Msg3Bytes;
    Parse3Honest(p.r, a, s.ciphertext3, buffers);
    Decrypted(cr, a, s.th3, ptxt);
    PlaintextCarried(p.idI, signOrMac, buffers.ad3Cap);
  }

  /** Decryption undoes encryption. */
  lemma Decrypted(cr: EdhocCrypto, a: R.Answered, th3: Digest, ptxt: bytes)
    requires Laws(cr) && |ptxt| <= I.PRK_3AE_DEFAULT_SIZE
    ensures R.Decrypt3(cr, a, th3, I.Encrypt3(cr, a.suite, a.prk3e2m, th3, ptxt)) == Ok(ptxt)
  {
    hide Aead3Of;
  }

  /** A responder that does not expect C_R cannot open message 3. */
  lemma Open3Fails(cr: EdhocCrypto, p: Parties, lookupI: Lookup, lookupR: Lookup, a: R.Answered, s: I.Sealed3,
      signOrMac: bytes, ptxt: bytes, buffers: R.Buffers)
    requires Honest(cr, p, lookupI, lookupR) && SealedHonestly(cr, p, a, s, signOrMac, ptxt)
    requires a.corr == 3 && a.suite == SuiteOf(p.i.suites[0])
    ensures R.Open3(cr, p.r, a, s.msg3, buffers).Err?
  {
    hide Laws, Th3, SignOrMac, PlaintextEncode, PrkDerive, I.Encrypt3, IdCredBytes, StaticDhI, PlaintextSplit,
         Msg3Parse, Encode, SuiteOf, Aead3Of;
    assert p.r.cR == [p.r.cR[0]];
    SuiteIs(p.i.suites[0]);
    Msg3Unexpected(a.corr, p.r.cR[0], s.ciphertext3);
  }

  /** The responder derives the same PRK and accepts the initiator. */
  lemma Accept3Honest(cr: EdhocCrypto, p: Parties, lookupI: Lookup, lookupR: Lookup, a: R.Answered, s: I.Sealed3,
      signOrMac: bytes, ptxt: bytes, o: R.Opened3)
    requires Honest(cr, p, lookupI, lookupR) && SealedHonestly(cr, p, a, s, signOrMac, ptxt)
    requires a.methodType == p.i.methodType && o.th3 == s.th3 && o.parts == Parts(p.i.idCred, signOrMac, [])
    ensures var peer := Peer(p.i.cred, p.i.pk, cr.pub(p.i.i));
            && R.Prk4x3m(cr, p.r, a, peer) == s.prk4x3m
            && Check(cr, a.suite, R.BindingOf3(cr, p.r, a, o, peer), peer.pk, signOrMac) == Ok(true)
  {
    hide SignOrMac, Check, Th3, PlaintextEncode, PrkDerive, I.Encrypt3, IdCredBytes, Encode, Laws;
    PrkAgreement(cr, StaticDhI(p.i.methodType), a.prk3e2m, p.i.i, p.r.y);
    CheckAccepts(cr, a.suite, Binding3(p, s.prk4x3m, s.th3), p.i.sk);
  }

  // ----- the exchange -----

  /** Two runs in which everything received is what the other party sent. */
  ghost predicate Delivered(cr: EdhocCrypto, p: Parties, lookupI: Lookup, lookupR: Lookup, bi: I.Buffers, br: R.Buffers,
                            i: Run, r: Run, msg1: bytes, msg2: bytes, msg3: bytes) {
    && i == I.InitiatorRun(cr, p.i, lookupI, msg2, bi)
    && r == R.ResponderRun(cr, p.r, lookupR, msg1, msg3, br)
    && 1 <= |i.sent| && msg1 == i.sent[0]
    && 1 <= |r.sent| && msg2 == r.sent[0]
    && (|i.sent| > 1 ==> msg3 == i.sent[1])
  }

  lemma InitiatorSendsFirst(cr: EdhocCrypto, c: I.InitiatorContext, lookup: Lookup, msg2: bytes, buffers: I.Buffers)
    requires I.Start(c).Ok?
    ensures var run := I.InitiatorRun(cr, c, lookup, msg2, buffers);
            1 <= |run.sent| && run.sent[0] == I.Start(c).value.1
  {
    hide I.Start, I.Open2, Check, I.Binding2, I.Seal3, Th4, ErrorMessage, I.Prk3e2m;
  }

  lemma ResponderSendsFirst(cr: EdhocCrypto, c: R.ResponderContext, lookup: Lookup, m1: Msg1Parts, a: R.Answered,
      msg3: bytes, buffers: R.Buffers)
    ensures var run := R.Conclude(cr, c, lookup, m1, a, msg3, buffers); 1 <= |run.sent| && run.sent[0] == a.msg2
  {
    hide R.Open3, Check, R.BindingOf3, Th4, ErrorMessage, R.Prk4x3m;
  }

  /** The responder's run on message 1 of an honest initiator. */
  lemma ResponderAnswers(cr: EdhocCrypto, p: Parties, lookupI: Lookup, lookupR: Lookup, br: R.Buffers)
    returns (m1: Msg1Parts, a: R.Answered, signOrMac: bytes, ptxt: bytes)
    requires Honest(cr, p, lookupI, lookupR)
    ensures I.Start(p.i).Ok? && I.Start(p.i).value.0 == a.suite
    ensures AnsweredHonestly(cr, p, I.Start(p.i).value.1, a, signOrMac, ptxt)
    ensures forall msg3 ::
              R.ResponderRun(cr, p.r, lookupR, I.Start(p.i).value.1, msg3, br)
                  == R.Conclude(cr, p.r, lookupR, m1, a, msg3, br)
  {
    hide Laws, I.Start, Msg1Parse, R.Answer, R.Conclude, IdCredBytes, SuiteOf, ErrorMessage;
    StartHonest(p.i, br.ad1Cap);
    var msg1 := I.Start(p.i).value.1;
    m1 := Msg1Parts(4 * p.i.methodType + p.i.corr, p.i.suites, p.i.gX, p.i.cI, []);
    signOrMac, ptxt := AnswerHonest(cr, p, lookupI, lookupR, msg1);
    a := R.Answer(cr, p.r, m1, msg1).value;
  }

  /** The initiator's run on message 2 of an honest responder, C_I not being expected. */
  lemma InitiatorConcludes(cr: EdhocCrypto, p: Parties, lookupI: Lookup, lookupR: Lookup, a: R.Answered,
      signOrMac2: bytes, ptxt2: bytes, bi: I.Buffers)
    returns (s: I.Sealed3, signOrMac: bytes, ptxt: bytes)
    requires Honest(cr, p, lookupI, lookupR) && I.Start(p.i).Ok? && I.Start(p.i).value.0 == a.suite
    requires AnsweredHonestly(cr, p, I.Start(p.i).value.1, a, signOrMac2, ptxt2) && (p.i.corr == 1 || p.i.corr == 3)
    ensures var msg1, run := I.Start(p.i).value.1, I.InitiatorRun(cr, p.i, lookupI, a.msg2, bi);
            if p.r.cR[0] < 48 then
              && SealedHonestly(cr, p, a, s, signOrMac, ptxt) && Th4(cr, s.th3, s.ciphertext3).Ok?
              && run == Run([msg1, s.msg3],
                 Ok(Session(a.th2, s.th3, Th4(cr, s.th3, s.ciphertext3).value, a.prk2e, a.prk3e2m, s.prk4x3m)))
            else run == Run([msg1], Err(CborEncodingBufferTooSmall))
  {
    hide Laws, I.Start, I.Open2, Check, I.Binding2, I.Seal3, Th4, I.Prk3e2m, IdCredBytes, SuiteOf, Th2, Th3,
         SignOrMac, PlaintextEncode, XorKeystream, Msg2;
    hide PrkDerive, Hkdf.Extract, I.Encrypt3, StaticDhR, StaticDhI, Msg3Bytes, SealedHonestly, ErrorMessage;
    var msg1 := I.Start(p.i).value.1;
    var o := I.Opened2(Msg2Parts([], p.r.gY, p.r.cR, a.ciphertext2), a.th2, a.prk2e, Parts(p.r.idCred, signOrMac2, []));
    Open2Honest(cr, p, lookupI, lookupR, msg1, a, signOrMac2, ptxt2, bi);
    Accept2Honest(cr, p, lookupI, lookupR, msg1, a, signOrMac2, ptxt2, o);
    signOrMac, ptxt := Seal3Honest(cr, p, lookupI, lookupR, a, o);
    s := I.Sealed3(Zeros(32), Zeros(32), [], []);
    if p.r.cR[0] < 48 {
      s := I.Seal3(cr, a.suite, p.i, o, a.prk3e2m).value;
      CiphertextShort(cr, p, a, s, signOrMac, ptxt);
      Th4Exists(cr, s.th3, s.ciphertext3);
    }
  }

  lemma CiphertextShort(cr: EdhocCrypto, p: Parties, a: R.Answered, s: I.Sealed3, signOrMac: bytes, ptxt: bytes)
    requires SealedHonestly(cr, p, a, s, signOrMac, ptxt)
    ensures |s.ciphertext3| < 0x100
  {
  }

  /** The responder's run on message 3 of an honest initiator. */
  lemma ResponderConcludes(cr: EdhocCrypto, p: Parties, lookupI: Lookup, lookupR: Lookup, m1: Msg1Parts,
      a: R.Answered, s: I.Sealed3,
                           signOrMac: bytes, ptxt: bytes, br: R.Buffers)
    requires Honest(cr, p, lookupI, lookupR) && SealedHonestly(cr, p, a, s, signOrMac, ptxt)
    requires a.methodType == p.i.methodType && a.corr == 1 && p.i.corr == 1 && p.r.cR[0] < 48
    requires Th4(cr, s.th3, s.ciphertext3).Ok?
    ensures R.Conclude(cr, p.r, lookupR, m1, a, s.msg3, br)
         == Run([a.msg2], Ok(Session(a.th2, s.th3, Th4(cr, s.th3, s.ciphertext3).value, a.prk2e, a.prk3e2m, s.prk4x3m)))
  {
    hide Laws, R.Open3, Check, R.BindingOf3, Th4, R.Prk4x3m, IdCredBytes, SealedHonestly, ErrorMessage;
    Open3Honest(cr, p, lookupI, lookupR, a, s, signOrMac, ptxt, br);
    var o := R.Opened3(s.th3, s.ciphertext3, Parts(p.i.idCred, signOrMac, []));
    Accept3Honest(cr, p, lookupI, lookupR, a, s, signOrMac, ptxt, o);
  }

  /** An initiator that expects C_I fails on message 2. */
  lemma InitiatorFails(cr: EdhocCrypto, p: Parties, lookupI: Lookup, lookupR: Lookup, a: R.Answered,
      signOrMac: bytes, ptxt: bytes, bi: I.Buffers)
    requires Honest(cr, p, lookupI, lookupR) && I.Start(p.i).Ok?
    requires AnsweredHonestly(cr, p, I.Start(p.i).value.1, a, signOrMac, ptxt) && (p.i.corr == 0 || p.i.corr == 2)
    ensures I.InitiatorRun(cr, p.i, lookupI, a.msg2, bi).result == Err(CborByteStringBufferTooSmall)
  {
    hide Laws, I.Start, IdCredBytes, SuiteOf, Th2, SignOrMac, PlaintextEncode, XorKeystream, Msg2, Msg2Parse,
         PrkDerive, Hkdf.Extract, StaticDhR;
    assert p.r.cR == [p.r.cR[0]];
    Msg2Received(a.corr, p.i.cI, p.r.gY, p.r.cR, a.ciphertext2);
    Msg2Unexpected(a.corr, |p.i.cI|, p.i.corr, p.i.cI, p.r.gY, p.r.cR[0], a.ciphertext2);
  }

  /** A responder that does not expect C_R fails on message 3. */
  lemma ResponderFails(cr: EdhocCrypto, p: Parties, lookupI: Lookup, lookupR: Lookup, m1: Msg1Parts, a: R.Answered,
      s: I.Sealed3,
                       signOrMac: bytes, ptxt: bytes, br: R.Buffers)
    requires Honest(cr, p, lookupI, lookupR) && SealedHonestly(cr, p, a, s, signOrMac, ptxt)
    requires a.corr == 3 && a.suite == SuiteOf(p.i.suites[0])
    ensures R.Conclude(cr, p.r, lookupR, m1, a, s.msg3, br).result.Err?
  {
    hide Laws, R.Open3, IdCredBytes, SealedHonestly, SuiteOf;
    Open3Fails(cr, p, lookupI, lookupR, a, s, signOrMac, ptxt, br);
  }

  /** Both runs succeed exactly when the correlation value is 1 and C_R is below 48. */
  predicate Interoperates(p: Parties)
    requires |p.r.cR| == 1
  {
    p.i.corr == 1 && p.r.cR[0] < 48
  }

  /** Agreement: both succeed exactly in that case, and then with the same hashes and keys. */
  lemma Agreement(cr: EdhocCrypto, p: Parties, lookupI: Lookup, lookupR: Lookup, bi: I.Buffers, br: R.Buffers,
                  i: Run, r: Run, msg1: bytes, msg2: bytes, msg3: bytes)
    requires Honest(cr, p, lookupI, lookupR) && Delivered(cr, p, lookupI, lookupR, bi, br, i, r, msg1, msg2, msg3)
    ensures i.result.Ok? && r.result.Ok? <==> Interoperates(p)
    ensures Interoperates(p) ==> i.result == r.result && i.sent == [msg1, msg3] && r.sent == [msg2]
  {
    hide Laws, I.Start, I.InitiatorRun, R.ResponderRun, R.Conclude, SealedHonestly, IdCredBytes, SuiteOf, Th2, Th4,
         SignOrMac, PlaintextEncode;
    hide XorKeystream, Msg2, PrkDerive, Hkdf.Extract, StaticDhR;
    var m1, a, signOrMac2, ptxt2 := ResponderAnswers(cr, p, lookupI, lookupR, br);
    InitiatorSendsFirst(cr, p.i, lookupI, msg2, bi);
    ResponderSendsFirst(cr, p.r, lookupR, m1, a, msg3, br);
    if p.i.corr == 0 || p.i.corr == 2 {
      InitiatorFails(cr, p, lookupI, lookupR, a, signOrMac2, ptxt2, bi);
      return;
    }
    var s, signOrMac3, ptxt3 := InitiatorConcludes(cr, p, lookupI, lookupR, a, signOrMac2, ptxt2, bi);
    if p.r.cR[0] < 48 {
      if p.i.corr == 1 {
        ResponderConcludes(cr, p, lookupI, lookupR, m1, a, s, signOrMac3, ptxt3, br);
      } else {
        ResponderFails(cr, p, lookupI, lookupR, m1, a, s, signOrMac3, ptxt3, br);
      }
    }
  }

  /** Honest parties can always exchange their messages in this way. */
  lemma ExchangeExists(cr: EdhocCrypto, p: Parties, lookupI: Lookup, lookupR: Lookup, bi: I.Buffers, br: R.Buffers)
    returns (i: Run, r: Run, msg1: bytes, msg2: bytes, msg3: bytes)
    requires Honest(cr, p, lookupI, lookupR)
    ensures Delivered(cr, p, lookupI, lookupR, bi, br, i, r, msg1, msg2, msg3)
  {
    hide Laws, I.Start, I.InitiatorRun, R.ResponderRun, R.Conclude, IdCredBytes, SuiteOf, Th2, SignOrMac,
         PlaintextEncode, AnsweredHonestly, Honest;
    var m1, a, signOrMac, ptxt := ResponderAnswers(cr, p, lookupI, lookupR, br);
    msg1 := I.Start(p.i).value.1;
    msg2 := a.msg2;
    i := I.InitiatorRun(cr, p.i, lookupI, msg2, bi);
    InitiatorSendsFirst(cr, p.i, lookupI, msg2, bi);
    msg3 := if |i.sent| > 1 then i.sent[1] else [];
    r := R.ResponderRun(cr, p.r, lookupR, msg1, msg3, br);
    ResponderSendsFirst(cr, p.r, lookupR, m1, a, msg3, br);
  }
}
