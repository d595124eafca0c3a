/**
 * What the two EDHOC runs compute and decide, written out with hash, HMAC, DH and AEAD: the
 * transcript hashes and keys of a session, and the authenticator that alone is accepted.
 */
module EdhocVerdict {
  import opened Bytes
  import opened Cbor
  import opened Hkdf
  import opened Wire
  import opened Edhoc
  import opened EdhocTh
  import opened EdhocPlaintext
  import opened EdhocMac
  import opened EdhocMessages
  import opened EdhocWire
  import I = EdhocInitiator
  import R = EdhocResponder
  import G = EdhocAgreement

  // ----- suites -----

  /** The supported suites: 0 and 2 with an 8-byte tag, 1 and 3 with a 16-byte one. */
  lemma SuiteTable(selected: byte)
    ensures GetSuite(selected)
         == if selected == 0 || selected == 2 then Ok(Suite(10, 8))
            else if selected == 1 || selected == 3 then Ok(Suite(30, 16))
            else Err(UnsupportedCipherSuite)
  {
  }

  // ----- the key schedule as a chain -----

  /** Two different HMAC inputs with the same result. */
  predicate HmacCollision(cr: EdhocCrypto, k: bytes, m: bytes, k': bytes, m': bytes) {
    (k != k' || m != m') && cr.hmac(k, m) == cr.hmac(k', m')
  }

  /** With a static DH key, equal PRKs come from equal PRKs and shared secrets, or HMAC inputs collide. */
  lemma PrkBinding(cr: EdhocCrypto, prk: Digest, pk: bytes, sk: bytes, prk': Digest, pk': bytes, sk': bytes)
    requires PrkDerive(cr, true, prk, pk, sk) == PrkDerive(cr, true, prk', pk', sk')
    ensures (prk == prk' && cr.dh(sk, pk) == cr.dh(sk', pk'))
            || HmacCollision(cr, prk, cr.dh(sk, pk), prk', cr.dh(sk', pk'))
  {
    PrkWritten(cr, true, prk, pk, sk);
    PrkWritten(cr, true, prk', pk', sk');
    hide PrkDerive;
  }

  // ----- the initiator -----

  /** Suite and message 1. */
  lemma StartWritten(c: I.InitiatorContext, suite: Suite, msg1: bytes)
    requires I.Start(c) == Ok((suite, msg1))
    ensures c.suites != [] && c.suites[0] <= 3 && |msg1| <= 256
    ensures suite == if c.suites[0] == 0 || c.suites[0] == 2 then Suite(10, 8) else Suite(30, 16)
    ensures var suites := if |c.suites| == 1 then Uint(c.suites[0]) else Arr(|c.suites|) + Uints(c.suites);
            msg1 == Uint(4 * c.methodType + c.corr) + suites + Bstr(c.gX) + Identifier(c.cI)
  {
    SuiteTable(c.suites[0]);
    Msg1Written(I.OfferOf(c));
    hide Msg1, GetSuite, Uint, Uints, Arr, Bstr, Identifier;
  }

  /** Message 2 as it is opened: TH_2, PRK_2e, and the plaintext behind the keystream. */
  lemma Open2Written(cr: EdhocCrypto, suite: Suite, c: I.InitiatorContext, msg1: bytes, msg2: bytes,
      buffers: I.Buffers, o: I.Opened2)
    requires I.Open2(cr, suite, c, msg1, msg2, buffers) == Ok(o)
    ensures I.Parse2(c, msg2, buffers) == Ok(o.m2) && |o.m2.cR| <= 1 && |o.m2.ciphertext2| <= 256
    ensures o.prk2e == cr.hmac(seq(32, _ => 0), cr.dh(c.x, o.m2.gY))
    ensures var cI := if o.m2.cI == [] then [] else Bstr(o.m2.cI);
            o.th2 == cr.hash(msg1 + (cI + Bstr(o.m2.gY) + Identifier(o.m2.cR)))
    ensures var n := |o.m2.ciphertext2|;
            PlaintextSplit(XorBytes(o.m2.ciphertext2,
                                    Expand(cr.hmac, o.prk2e, InfoBytes(suite.aead, o.th2, KEYSTREAM_2, n), n)),
                           buffers.adCap) == Ok(o.parts)
  {
    hide I.Parse2, Th2, XorKeystream, PlaintextSplit, Bstr, Identifier, InfoBytes, XorBytes, Expand, Hkdf.Extract;
    var m2 := I.Parse2(c, msg2, buffers).value;
    Prk2eWritten(cr, cr.dh(c.x, m2.gY));
    Th2Written(cr, msg1, m2.cI, m2.gY, m2.cR);
    KeystreamWritten(cr, suite, o.prk2e, o.th2, m2.ciphertext2);
  }

  /** PRK_3e2m of the initiator: methods 1 and 3 bring in the responder's static DH key. */
  function Prk3e2mI(cr: EdhocCrypto, c: I.InitiatorContext, o: I.Opened2, peer: Peer): Digest {
    if c.methodType == 1 || c.methodType == 3 then cr.hmac(o.prk2e, cr.dh(c.x, peer.g)) else o.prk2e
  }

  /** What the responder must have authenticated. */
  function Claimed2(cr: EdhocCrypto, c: I.InitiatorContext, o: I.Opened2, peer: Peer): Binding {
    Binding(Message2, c.methodType == 1 || c.methodType == 3, Prk3e2mI(cr, c, o, peer), o.th2, o.parts.idCred,
            peer.cred, o.parts.ad)
  }

  lemma Claimed2Is(cr: EdhocCrypto, c: I.InitiatorContext, o: I.Opened2, peer: Peer)
    ensures I.Prk3e2m(cr, c, o, peer) == Prk3e2mI(cr, c, o, peer)
    ensures I.Binding2(cr, c, o, peer) == Claimed2(cr, c, o, peer)
  {
    PrkWritten(cr, c.methodType == 1 || c.methodType == 3, o.prk2e, peer.g, c.x);
    hide PrkDerive;
  }

  /** The initiator got as far as the check of the authenticator in message 2. */
  ghost predicate Checks2(cr: EdhocCrypto, c: I.InitiatorContext, lookup: Lookup, msg2: bytes, buffers: I.Buffers,
      suite: Suite, msg1: bytes, o: I.Opened2, peer: Peer) {
    && I.Start(c) == Ok((suite, msg1)) && I.Open2(cr, suite, c, msg1, msg2, buffers) == Ok(o)
    && lookup(o.parts.idCred) == Ok(peer)
  }

  /** The error message of an initiator: C_R, one byte, if it is to be sent, and an empty string. */
  function ErrorOfInitiator(c: I.InitiatorContext, cR: bytes): bytes {
    if (c.corr == 0 || c.corr == 1) && |cR| == 1 then [0x41, cR[0], 0x40] else [0x40]
  }

  lemma ErrorOfInitiatorIs(c: I.InitiatorContext, cR: bytes)
    requires |cR| <= 1
    ensures ErrorMessage(Initiator, c.corr, cR, []) == Ok(ErrorOfInitiator(c, cR))
  {
    ErrorWritten(Initiator, c.corr, cR, []);
    hide ErrorMessage;
    assert Short([]) == [];
    assert [] + [0x40] + [] == [0x40];
    if |cR| == 1 {
      assert Short(cR) == cR == [cR[0]];
      assert Bstr(cR) == [0x41, cR[0]];
      assert [0x41, cR[0]] + [0x40] + [] == [0x41, cR[0], 0x40];
    }
  }

  lemma CheckedRun(cr: EdhocCrypto, c: I.InitiatorContext, lookup: Lookup, msg2: bytes, buffers: I.Buffers,
      suite: Suite, msg1: bytes, o: I.Opened2, peer: Peer)
    requires Checks2(cr, c, lookup, msg2, buffers, suite, msg1, o, peer)
    ensures I.InitiatorRun(cr, c, lookup, msg2, buffers)
         == match Check(cr, suite, I.Binding2(cr, c, o, peer), peer.pk, o.parts.signOrMac)
            case Err(e) => Run([msg1], Err(e))
            case Ok(authentic) => I.Finish(cr, suite, c, msg1, o, peer, authentic)
  {
    hide I.Start, I.Open2, Check, I.Binding2, I.Finish;
  }

  /** MAC_2 of a responder with a static DH key: the seal of nothing under the keys of PRK_3e2m and TH_2. */
  function Mac2(cr: EdhocCrypto, suite: Suite, c: I.InitiatorContext, o: I.Opened2, peer: Peer): bytes {
    var prk3e2m := cr.hmac(o.prk2e, cr.dh(c.x, peer.g));
    var k := cr.hmac(prk3e2m, InfoBytes(suite.aead, o.th2, K_2M, 16) + [0x01])[..16];
    var iv := cr.hmac(prk3e2m, InfoBytes(suite.aead, o.th2, IV_2M, 13) + [0x01])[..13];
    cr.seal(k, iv, MacInput(o.parts.idCred, o.th2, peer.cred, o.parts.ad), [], suite.macLen)
  }

  lemma Mac2Is(cr: EdhocCrypto, suite: Suite, c: I.InitiatorContext, o: I.Opened2, peer: Peer)
    requires c.methodType == 1 || c.methodType == 3
    ensures Mac2(cr, suite, c, o, peer) == MacBytes(cr, suite, Claimed2(cr, c, o, peer))
  {
    hide InfoBytes, MacInput;
  }

  /**
   * The verdict on a responder with a static DH key: the one MAC that its TH_2, PRK_3e2m and
   * credential give is accepted; any other of full length brings an error message and failure.
   */
  lemma VerdictOnMac2(cr: EdhocCrypto, c: I.InitiatorContext, lookup: Lookup, msg2: bytes, buffers: I.Buffers,
      suite: Suite, msg1: bytes, o: I.Opened2, peer: Peer)
    requires Checks2(cr, c, lookup, msg2, buffers, suite, msg1, o, peer) && (c.methodType == 1 || c.methodType == 3)
    requires |MacInput(o.parts.idCred, o.th2, peer.cred, o.parts.ad)| <= 512 && |o.parts.signOrMac| >= suite.macLen
    ensures I.InitiatorRun(cr, c, lookup, msg2, buffers)
         == if o.parts.signOrMac[..suite.macLen] == Mac2(cr, suite, c, o, peer)
            then I.Finish(cr, suite, c, msg1, o, peer, true)
            else Run([msg1, ErrorOfInitiator(c, o.m2.cR)], Err(ResponderAuthenticationFailed))
  {
    hide *;
    CheckedRun(cr, c, lookup, msg2, buffers, suite, msg1, o, peer);
    MacCheck2(cr, suite, c, o, peer);
    ShortIdentifier(cr, c, lookup, msg2, buffers, suite, msg1, o, peer);
    RefusedByInitiator(cr, suite, c, msg1, o, peer);
  }

  lemma MacCheck2(cr: EdhocCrypto, suite: Suite, c: I.InitiatorContext, o: I.Opened2, peer: Peer)
    requires c.methodType == 1 || c.methodType == 3
    requires |MacInput(o.parts.idCred, o.th2, peer.cred, o.parts.ad)| <= 512 && |o.parts.signOrMac| >= suite.macLen
    ensures Check(cr, suite, I.Binding2(cr, c, o, peer), peer.pk, o.parts.signOrMac)
         == Ok(o.parts.signOrMac[..suite.macLen] == Mac2(cr, suite, c, o, peer))
  {
    hide Check, MacInput, InfoBytes, I.Binding2;
    var b := Claimed2(cr, c, o, peer);
    Claimed2Is(cr, c, o, peer);
    CheckStatic(cr, suite, b, peer.pk, o.parts.signOrMac);
    assert Check(cr, suite, b, peer.pk, o.parts.signOrMac).value
        <==> o.parts.signOrMac[..suite.macLen] == Mac2(cr, suite, c, o, peer);
  }

  lemma RefusedByInitiator(cr: EdhocCrypto, suite: Suite, c: I.InitiatorContext, msg1: bytes, o: I.Opened2, peer: Peer)
    requires |o.m2.cR| <= 1
    ensures I.Finish(cr, suite, c, msg1, o, peer, false)
         == Run([msg1, ErrorOfInitiator(c, o.m2.cR)], Err(ResponderAuthenticationFailed))
  {
    hide ErrorMessage, ErrorOfInitiator, I.Seal3, Th4;
    ErrorOfInitiatorIs(c, o.m2.cR);
  }

  lemma ShortIdentifier(cr: EdhocCrypto, c: I.InitiatorContext, lookup: Lookup, msg2: bytes, buffers: I.Buffers,
      suite: Suite, msg1: bytes, o: I.Opened2, peer: Peer)
    requires Checks2(cr, c, lookup, msg2, buffers, suite, msg1, o, peer)
    ensures |o.m2.cR| <= 1
  {
    hide I.Start;
    Open2Written(cr, suite, c, msg1, msg2, buffers, o);
    hide I.Open2;
  }

  /** A responder that signs: the signature must verify over the Sig_structure of its MAC_2. */
  lemma VerdictOnSignature2(cr: EdhocCrypto, c: I.InitiatorContext, lookup: Lookup, msg2: bytes, buffers: I.Buffers,
      suite: Suite, msg1: bytes, o: I.Opened2, peer: Peer)
    requires Checks2(cr, c, lookup, msg2, buffers, suite, msg1, o, peer) && c.methodType != 1 && c.methodType != 3
    requires |MacInput(o.parts.idCred, o.th2, peer.cred, o.parts.ad)| <= 512 && |Signed2(cr, suite, o, peer)| <= 512
    ensures I.InitiatorRun(cr, c, lookup, msg2, buffers)
         == if cr.verify(peer.pk, Signed2(cr, suite, o, peer), o.parts.signOrMac)
            then I.Finish(cr, suite, c, msg1, o, peer, true)
            else Run([msg1, ErrorOfInitiator(c, o.m2.cR)], Err(ResponderAuthenticationFailed))
  {
    hide *;
    CheckedRun(cr, c, lookup, msg2, buffers, suite, msg1, o, peer);
    SignatureCheck2(cr, suite, c, o, peer);
    ShortIdentifier(cr, c, lookup, msg2, buffers, suite, msg1, o, peer);
    RefusedByInitiator(cr, suite, c, msg1, o, peer);
  }

  /** What a responder signs: the MAC is then made with PRK_2e, which is also PRK_3e2m. */
  function Signed2(cr: EdhocCrypto, suite: Suite, o: I.Opened2, peer: Peer): bytes {
    SignatureInput(o.parts.idCred, o.th2, peer.cred, o.parts.ad,
                   MacBytes(cr, suite, Binding(Message2, false, o.prk2e, o.th2, o.parts.idCred, peer.cred, o.parts.ad)))
  }

  lemma SignatureCheck2(cr: EdhocCrypto, suite: Suite, c: I.InitiatorContext, o: I.Opened2, peer: Peer)
    requires c.methodType != 1 && c.methodType != 3
    requires |MacInput(o.parts.idCred, o.th2, peer.cred, o.parts.ad)| <= 512 && |Signed2(cr, suite, o, peer)| <= 512
    ensures Check(cr, suite, I.Binding2(cr, c, o, peer), peer.pk, o.parts.signOrMac)
         == Ok(cr.verify(peer.pk, Signed2(cr, suite, o, peer), o.parts.signOrMac))
  {
    hide Check, MacInput, MacBytes, SignatureInput, I.Binding2;
    Claimed2Is(cr, c, o, peer);
    CheckWritten(cr, suite, Claimed2(cr, c, o, peer), peer.pk, o.parts.signOrMac);
  }

  /** Message 3 and what comes with it, from what the initiator holds. */
  lemma Seal3Written(cr: EdhocCrypto, suite: Suite, c: I.InitiatorContext, o: I.Opened2, prk3e2m: Digest, s: I.Sealed3)
      returns (signOrMac: bytes, p: bytes)
    requires I.Seal3(cr, suite, c, o, prk3e2m) == Ok(s) && |o.m2.cR| <= 1
    ensures var data3 := if c.corr == 2 || c.corr == 3 then [] else o.m2.cR;
            s.th3 == cr.hash([0x58, 0x20] + o.th2 + Bstr(o.m2.ciphertext2) + Identifier(data3))
    ensures s.prk4x3m
         == if c.methodType == 2 || c.methodType == 3 then cr.hmac(prk3e2m, cr.dh(c.i, o.m2.gY)) else prk3e2m
    ensures var dh := c.methodType == 2 || c.methodType == 3;
            var mac := MacBytes(cr, suite, Binding(Message3, dh, s.prk4x3m, s.th3, c.idCred, c.cred, []));
            signOrMac == if dh then mac
                         else cr.sign(c.sk, c.pk, SignatureInput(c.idCred, s.th3, c.cred, [], mac))
    ensures I.P3ae(c.idCred, signOrMac) == Ok(p)
    ensures s.ciphertext3
         == cr.seal(Material(cr, prk3e2m, InfoBytes(suite.aead, s.th3, K_3AE, 16), 16),
                    Material(cr, prk3e2m, InfoBytes(suite.aead, s.th3, IV_3AE, 13), 13),
                    [0x83, 0x68, 0x45, 0x6E, 0x63, 0x72, 0x79, 0x70, 0x74, 0x30, 0x40, 0x58, 0x20] + s.th3,
                    p, suite.macLen)
    ensures s.msg3 == (if o.m2.cR == [] then [] else Identifier(o.m2.cR)) + Bstr(Short(s.ciphertext3))
    ensures o.m2.cR != [] ==> o.m2.cR[0] < 48
  {
    hide Th3, PrkDerive, SignOrMac, I.P3ae, Aead3Of, Msg3, Bstr, Identifier, Short, MacBytes, SignatureInput, Material,
         InfoBytes, MacInput;
    Th3Written(cr, o.th2, o.m2.ciphertext2, I.Data3(c, o));
    PrkWritten(cr, StaticDhI(c.methodType), prk3e2m, o.m2.gY, c.i);
    var b := I.Binding3(cr, c, o, prk3e2m, s.th3);
    SignOrMacWritten(cr, suite, b, c.sk, c.pk);
    Aead3Written(cr, suite, prk3e2m, s.th3);
    signOrMac := SignOrMac(cr, suite, b, c.sk, c.pk).value;
    p := I.P3ae(c.idCred, signOrMac).value;
    Msg3Bytes(o.m2.cR, s.ciphertext3);
    assert [] + Bstr(Short(s.ciphertext3)) == Bstr(Short(s.ciphertext3));
  }

  lemma SuccessfulRun(cr: EdhocCrypto, c: I.InitiatorContext, lookup: Lookup, msg2: bytes, buffers: I.Buffers)
      returns (suite: Suite, msg1: bytes, o: I.Opened2, peer: Peer, s: I.Sealed3)
    requires I.InitiatorRun(cr, c, lookup, msg2, buffers).result.Ok?
    ensures Checks2(cr, c, lookup, msg2, buffers, suite, msg1, o, peer)
    ensures Check(cr, suite, I.Binding2(cr, c, o, peer), peer.pk, o.parts.signOrMac) == Ok(true)
    ensures var prk3e2m := I.Prk3e2m(cr, c, o, peer);
            && I.Seal3(cr, suite, c, o, prk3e2m) == Ok(s) && Th4(cr, s.th3, s.ciphertext3).Ok?
            && I.InitiatorRun(cr, c, lookup, msg2, buffers)
               == Run([msg1, s.msg3], Ok(Session(o.th2, s.th3, Th4(cr, s.th3, s.ciphertext3).value, o.prk2e, prk3e2m,
                                                 s.prk4x3m)))
  {
    hide I.Start, I.Open2, Check, I.Binding2, I.Seal3, Th4, I.Prk3e2m, ErrorMessage;
    suite, msg1 := I.Start(c).value.0, I.Start(c).value.1;
    o := I.Open2(cr, suite, c, msg1, msg2, buffers).value;
    peer := lookup(o.parts.idCred).value;
    s := I.Seal3(cr, suite, c, o, I.Prk3e2m(cr, c, o, peer)).value;
  }

  /**
   * What the success of an initiator means, whatever it received: the authenticator in message 2
   * is the right MAC, or a signature that verifies, over its own TH_2, and the session consists of
   * the hashes and keys written out here and in `Open2Written` and `Seal3Written`.
   */
  lemma InitiatorSucceeds(cr: EdhocCrypto, c: I.InitiatorContext, lookup: Lookup, msg2: bytes, buffers: I.Buffers)
      returns (suite: Suite, msg1: bytes, o: I.Opened2, peer: Peer, s: I.Sealed3)
    requires I.InitiatorRun(cr, c, lookup, msg2, buffers).result.Ok?
    ensures Checks2(cr, c, lookup, msg2, buffers, suite, msg1, o, peer)
    ensures if c.methodType == 1 || c.methodType == 3
            then |o.parts.signOrMac| >= suite.macLen && o.parts.signOrMac[..suite.macLen] == Mac2(cr, suite, c, o, peer)
            else cr.verify(peer.pk, Signed2(cr, suite, o, peer), o.parts.signOrMac)
    ensures I.Seal3(cr, suite, c, o, Prk3e2mI(cr, c, o, peer)) == Ok(s)
    ensures I.InitiatorRun(cr, c, lookup, msg2, buffers)
         == Run([msg1, s.msg3],
                Ok(Session(o.th2, s.th3, cr.hash([0x58, 0x20] + s.th3 + Bstr(s.ciphertext3)), o.prk2e,
                           Prk3e2mI(cr, c, o, peer), s.prk4x3m)))
  {
    suite, msg1, o, peer, s := SuccessfulRun(cr, c, lookup, msg2, buffers);
    hide *;
    Claimed2Is(cr, c, o, peer);
    Accepted2(cr, suite, c, o, peer);
    Th4Written(cr, s.th3, s.ciphertext3);
  }

  lemma Accepted2(cr: EdhocCrypto, suite: Suite, c: I.InitiatorContext, o: I.Opened2, peer: Peer)
    requires Check(cr, suite, I.Binding2(cr, c, o, peer), peer.pk, o.parts.signOrMac) == Ok(true)
    ensures if c.methodType == 1 || c.methodType == 3
            then |o.parts.signOrMac| >= suite.macLen && o.parts.signOrMac[..suite.macLen] == Mac2(cr, suite, c, o, peer)
            else cr.verify(peer.pk, Signed2(cr, suite, o, peer), o.parts.signOrMac)
  {
    hide Check, MacInput, MacBytes, InfoBytes, SignatureInput, I.Binding2, Mac2;
    Claimed2Is(cr, c, o, peer);
    CheckWritten(cr, suite, Claimed2(cr, c, o, peer), peer.pk, o.parts.signOrMac);
    if c.methodType == 1 || c.methodType == 3 {
      MacCheck2(cr, suite, c, o, peer);
    }
  }

  // ----- the responder -----

  /** Keys, authenticator and ciphertext of message 2, from what the responder holds. */
  lemma AnswerWritten(cr: EdhocCrypto, c: R.ResponderContext, m1: Msg1Parts, msg1: bytes, a: R.Answered)
      returns (signOrMac: bytes, p: bytes)
    requires m1.suites != [] && R.Answer(cr, c, m1, msg1) == Ok(a)
    ensures m1.suites[0] <= 3 && |m1.gX| == 32 && a.methodType == m1.methodCorr / 4 <= 3
    ensures a.suite == if m1.suites[0] == 0 || m1.suites[0] == 2 then Suite(10, 8) else Suite(30, 16)
    ensures a.corr == if m1.methodCorr % 4 == 1 then 1 else 3
    ensures a.th2 == cr.hash(msg1 + (Bstr(c.gY) + Identifier(c.cR)))
    ensures a.prk2e == cr.hmac(seq(32, _ => 0), cr.dh(c.y, m1.gX))
    ensures a.prk3e2m
         == if a.methodType == 1 || a.methodType == 3 then cr.hmac(a.prk2e, cr.dh(c.r, m1.gX)) else a.prk2e
    ensures var dh := a.methodType == 1 || a.methodType == 3;
            var mac := MacBytes(cr, a.suite, Binding(Message2, dh, a.prk3e2m, a.th2, c.idCred, c.cred, []));
            signOrMac == if dh then mac else cr.sign(c.sk, c.pk, SignatureInput(c.idCred, a.th2, c.cred, [], mac))
    ensures PlaintextEncode(c.idCred, signOrMac) == Ok(p) && |p| <= 256
    ensures a.ciphertext2
         == XorBytes(p, Expand(cr.hmac, a.prk2e, InfoBytes(a.suite.aead, a.th2, KEYSTREAM_2, |p|), |p|))
    ensures Msg2(a.corr, m1.cI, c.gY, c.cR, a.ciphertext2) == Ok(a.msg2)
  {
    hide Th2, GetSuite, PrkDerive, SignOrMac, PlaintextEncode, XorKeystream, Msg2, Bstr, Identifier, Short, MacBytes,
         SignatureInput, InfoBytes, MacInput, XorBytes, Expand, Hkdf.Extract;
    SuiteTable(m1.suites[0]);
    Th2Written(cr, msg1, [], c.gY, c.cR);
    assert [] + Bstr(c.gY) == Bstr(c.gY);
    Prk2eWritten(cr, cr.dh(c.y, m1.gX));
    PrkWritten(cr, StaticDhR(a.methodType), a.prk2e, m1.gX, c.r);
    var b := R.BindingOf2(c, a.methodType, a.prk3e2m, a.th2);
    SignOrMacWritten(cr, a.suite, b, c.sk, c.pk);
    signOrMac := SignOrMac(cr, a.suite, b, c.sk, c.pk).value;
    p := PlaintextEncode(c.idCred, signOrMac).value;
    KeystreamWritten(cr, a.suite, a.prk2e, a.th2, p);
  }

  /** Message 3 as it is opened: TH_3, and the plaintext that the AEAD gives under the keys of PRK_3e2m. */
  lemma Open3Written(cr: EdhocCrypto, c: R.ResponderContext, a: R.Answered, msg3: bytes, buffers: R.Buffers,
      o: R.Opened3) returns (p: bytes)
    requires R.Open3(cr, c, a, msg3, buffers) == Ok(o)
    ensures R.Parse3(c, a, msg3, buffers) == Ok(o.ciphertext3) && |o.ciphertext3| >= a.suite.macLen
    ensures o.th3 == cr.hash([0x58, 0x20] + a.th2 + Bstr(a.ciphertext2) + Identifier(Short(c.cR)))
    ensures cr.open(Material(cr, a.prk3e2m, InfoBytes(a.suite.aead, o.th3, K_3AE, 16), 16),
                    Material(cr, a.prk3e2m, InfoBytes(a.suite.aead, o.th3, IV_3AE, 13), 13),
                    [0x83, 0x68, 0x45, 0x6E, 0x63, 0x72, 0x79, 0x70, 0x74, 0x30, 0x40, 0x58, 0x20] + o.th3,
                    o.ciphertext3, a.suite.macLen) == Some(p)
    ensures PlaintextSplit(p, buffers.ad3Cap) == Ok(o.parts)
  {
    hide R.Parse3, Th3, Aead3Of, PlaintextSplit, Bstr, Identifier, Short, Trunc8, Material, InfoBytes;
    ShortIs(c.cR);
    Th3Written(cr, a.th2, a.ciphertext2, Trunc8(c.cR));
    Aead3Written(cr, a.suite, a.prk3e2m, o.th3);
    p := R.Decrypt3(cr, a, o.th3, o.ciphertext3).value;
  }

  /** PRK_4x3m of the responder: methods 2 and 3 bring in the initiator's static DH key. */
  function Prk4x3mR(cr: EdhocCrypto, c: R.ResponderContext, a: R.Answered, peer: Peer): Digest {
    if a.methodType == 2 || a.methodType == 3 then cr.hmac(a.prk3e2m, cr.dh(c.y, peer.g)) else a.prk3e2m
  }

  /** What the initiator must have authenticated. */
  function Claimed3(cr: EdhocCrypto, c: R.ResponderContext, a: R.Answered, o: R.Opened3, peer: Peer): Binding {
    Binding(Message3, a.methodType == 2 || a.methodType == 3, Prk4x3mR(cr, c, a, peer), o.th3, o.parts.idCred,
            peer.cred, o.parts.ad)
  }

  lemma Claimed3Is(cr: EdhocCrypto, c: R.ResponderContext, a: R.Answered, o: R.Opened3, peer: Peer)
    ensures R.Prk4x3m(cr, c, a, peer) == Prk4x3mR(cr, c, a, peer)
    ensures R.BindingOf3(cr, c, a, o, peer) == Claimed3(cr, c, a, o, peer)
  {
    PrkWritten(cr, a.methodType == 2 || a.methodType == 3, a.prk3e2m, peer.g, c.y);
    hide PrkDerive;
  }

  /** MAC_3 of an initiator with a static DH key: the seal of nothing under the keys of PRK_4x3m and TH_3. */
  function Mac3(cr: EdhocCrypto, c: R.ResponderContext, a: R.Answered, o: R.Opened3, peer: Peer): bytes {
    var prk4x3m := cr.hmac(a.prk3e2m, cr.dh(c.y, peer.g));
    var k := cr.hmac(prk4x3m, InfoBytes(a.suite.aead, o.th3, K_3M, 16) + [0x01])[..16];
    var iv := cr.hmac(prk4x3m, InfoBytes(a.suite.aead, o.th3, IV_3M, 13) + [0x01])[..13];
    cr.seal(k, iv, MacInput(o.parts.idCred, o.th3, peer.cred, o.parts.ad), [], a.suite.macLen)
  }

  lemma Mac3Is(cr: EdhocCrypto, c: R.ResponderContext, a: R.Answered, o: R.Opened3, peer: Peer)
    requires a.methodType == 2 || a.methodType == 3
    ensures Mac3(cr, c, a, o, peer) == MacBytes(cr, a.suite, Claimed3(cr, c, a, o, peer))
  {
    hide InfoBytes, MacInput;
  }

  /** What an initiator signs: the MAC is then made with PRK_3e2m, which is also PRK_4x3m. */
  function Signed3(cr: EdhocCrypto, a: R.Answered, o: R.Opened3, peer: Peer): bytes {
    SignatureInput(o.parts.idCred, o.th3, peer.cred, o.parts.ad,
                   MacBytes(cr, a.suite,
                            Binding(Message3, false, a.prk3e2m, o.th3, o.parts.idCred, peer.cred, o.parts.ad)))
  }

  /** The responder sent message 2 and got as far as the check of the authenticator in message 3. */
  ghost predicate Checks3(cr: EdhocCrypto, c: R.ResponderContext, lookup: Lookup, msg1: bytes, msg3: bytes,
      buffers: R.Buffers, m1: Msg1Parts, a: R.Answered, o: R.Opened3, peer: Peer) {
    && R.Parse1(msg1, buffers) == Ok(m1) && m1.suites[0] in c.suites && R.Answer(cr, c, m1, msg1) == Ok(a)
    && R.Open3(cr, c, a, msg3, buffers) == Ok(o) && lookup(o.parts.idCred) == Ok(peer)
  }

  lemma CheckedRunR(cr: EdhocCrypto, c: R.ResponderContext, lookup: Lookup, msg1: bytes, msg3: bytes,
      buffers: R.Buffers, m1: Msg1Parts, a: R.Answered, o: R.Opened3, peer: Peer)
    requires Checks3(cr, c, lookup, msg1, msg3, buffers, m1, a, o, peer)
    ensures R.ResponderRun(cr, c, lookup, msg1, msg3, buffers)
         == match Check(cr, a.suite, R.BindingOf3(cr, c, a, o, peer), peer.pk, o.parts.signOrMac)
            case Err(e) => Run([a.msg2], Err(e))
            case Ok(authentic) => R.Finish(cr, c, m1, a, o, peer, authentic)
    ensures a.corr == 1 || a.corr == 3
  {
    hide R.Parse1, R.Open3, Check, R.BindingOf3, R.Finish, ErrorMessage;
    var _, _ := AnswerWritten(cr, c, m1, msg1, a);
    hide R.Answer;
  }

  /** The error message of a responder after message 2 is an empty byte string. */
  lemma RefusedByResponder(cr: EdhocCrypto, c: R.ResponderContext, m1: Msg1Parts, a: R.Answered, o: R.Opened3,
      peer: Peer)
    requires a.corr == 1 || a.corr == 3
    ensures R.Finish(cr, c, m1, a, o, peer, false) == Run([a.msg2, [0x40]], Err(ResponderAuthenticationFailed))
  {
    ErrorWritten(Responder, a.corr, m1.cI, []);
    hide ErrorMessage, Th4;
    assert Short([]) == [];
    assert [] + [0x40] + [] == [0x40];
  }

  /** The verdict on an initiator with a static DH key, against the one right MAC. */
  lemma VerdictOnMac3(cr: EdhocCrypto, c: R.ResponderContext, lookup: Lookup, msg1: bytes, msg3: bytes,
      buffers: R.Buffers, m1: Msg1Parts, a: R.Answered, o: R.Opened3, peer: Peer)
    requires Checks3(cr, c, lookup, msg1, msg3, buffers, m1, a, o, peer) && (a.methodType == 2 || a.methodType == 3)
    requires |MacInput(o.parts.idCred, o.th3, peer.cred, o.parts.ad)| <= 512
    requires |o.parts.signOrMac| >= a.suite.macLen
    ensures R.ResponderRun(cr, c, lookup, msg1, msg3, buffers)
         == if o.parts.signOrMac[..a.suite.macLen] == Mac3(cr, c, a, o, peer)
            then R.Finish(cr, c, m1, a, o, peer, true)
            else Run([a.msg2, [0x40]], Err(ResponderAuthenticationFailed))
  {
    hide *;
    CheckedRunR(cr, c, lookup, msg1, msg3, buffers, m1, a, o, peer);
    MacCheck3(cr, c, a, o, peer);
    RefusedByResponder(cr, c, m1, a, o, peer);
  }

  lemma MacCheck3(cr: EdhocCrypto, c: R.ResponderContext, a: R.Answered, o: R.Opened3, peer: Peer)
    requires a.methodType == 2 || a.methodType == 3
    requires |MacInput(o.parts.idCred, o.th3, peer.cred, o.parts.ad)| <= 512
    requires |o.parts.signOrMac| >= a.suite.macLen
    ensures Check(cr, a.suite, R.BindingOf3(cr, c, a, o, peer), peer.pk, o.parts.signOrMac)
         == Ok(o.parts.signOrMac[..a.suite.macLen] == Mac3(cr, c, a, o, peer))
  {
    hide Check, MacInput, InfoBytes, R.BindingOf3;
    var b := Claimed3(cr, c, a, o, peer);
    Claimed3Is(cr, c, a, o, peer);
    CheckStatic(cr, a.suite, b, peer.pk, o.parts.signOrMac);
    assert Check(cr, a.suite, b, peer.pk, o.parts.signOrMac).value
        <==> o.parts.signOrMac[..a.suite.macLen] == Mac3(cr, c, a, o, peer);
  }

  /** The verdict on an initiator that signs. */
  lemma VerdictOnSignature3(cr: EdhocCrypto, c: R.ResponderContext, lookup: Lookup, msg1: bytes, msg3: bytes,
      buffers: R.Buffers, m1: Msg1Parts, a: R.Answered, o: R.Opened3, peer: Peer)
    requires Checks3(cr, c, lookup, msg1, msg3, buffers, m1, a, o, peer) && a.methodType != 2 && a.methodType != 3
    requires |MacInput(o.parts.idCred, o.th3, peer.cred, o.parts.ad)| <= 512 && |Signed3(cr, a, o, peer)| <= 512
    ensures R.ResponderRun(cr, c, lookup, msg1, msg3, buffers)
         == if cr.verify(peer.pk, Signed3(cr, a, o, peer), o.parts.signOrMac)
            then R.Finish(cr, c, m1, a, o, peer, true)
            else Run([a.msg2, [0x40]], Err(ResponderAuthenticationFailed))
  {
    hide *;
    CheckedRunR(cr, c, lookup, msg1, msg3, buffers, m1, a, o, peer);
    SignatureCheck3(cr, c, a, o, peer);
    RefusedByResponder(cr, c, m1, a, o, peer);
  }

  lemma SignatureCheck3(cr: EdhocCrypto, c: R.ResponderContext, a: R.Answered, o: R.Opened3, peer: Peer)
    requires a.methodType != 2 && a.methodType != 3
    requires |MacInput(o.parts.idCred, o.th3, peer.cred, o.parts.ad)| <= 512 && |Signed3(cr, a, o, peer)| <= 512
    ensures Check(cr, a.suite, R.BindingOf3(cr, c, a, o, peer), peer.pk, o.parts.signOrMac)
         == Ok(cr.verify(peer.pk, Signed3(cr, a, o, peer), o.parts.signOrMac))
  {
    hide Check, MacInput, MacBytes, SignatureInput, R.BindingOf3;
    Claimed3Is(cr, c, a, o, peer);
    CheckWritten(cr, a.suite, Claimed3(cr, c, a, o, peer), peer.pk, o.parts.signOrMac);
  }

  lemma SuccessfulRunR(cr: EdhocCrypto, c: R.ResponderContext, lookup: Lookup, msg1: bytes, msg3: bytes,
      buffers: R.Buffers) returns (m1: Msg1Parts, a: R.Answered, o: R.Opened3, peer: Peer)
    requires R.ResponderRun(cr, c, lookup, msg1, msg3, buffers).result.Ok?
    ensures Checks3(cr, c, lookup, msg1, msg3, buffers, m1, a, o, peer)
    ensures Check(cr, a.suite, R.BindingOf3(cr, c, a, o, peer), peer.pk, o.parts.signOrMac) == Ok(true)
    ensures var th4 := Th4(cr, o.th3, o.ciphertext3);
            && th4.Ok?
            && R.ResponderRun(cr, c, lookup, msg1, msg3, buffers)
               == Run([a.msg2], Ok(Session(a.th2, o.th3, th4.value, a.prk2e, a.prk3e2m, R.Prk4x3m(cr, c, a, peer))))
  {
    hide R.Parse1, R.Answer, R.Open3, Check, R.BindingOf3, Th4, R.Prk4x3m, ErrorMessage;
    m1 := R.Parse1(msg1, buffers).value;
    a := R.Answer(cr, c, m1, msg1).value;
    o := R.Open3(cr, c, a, msg3, buffers).value;
    peer := lookup(o.parts.idCred).value;
  }

  /** What the success of a responder means, whatever it received; see also `AnswerWritten` and `Open3Written`. */
  lemma ResponderSucceeds(cr: EdhocCrypto, c: R.ResponderContext, lookup: Lookup, msg1: bytes, msg3: bytes,
      buffers: R.Buffers) returns (m1: Msg1Parts, a: R.Answered, o: R.Opened3, peer: Peer)
    requires R.ResponderRun(cr, c, lookup, msg1, msg3, buffers).result.Ok?
    ensures Checks3(cr, c, lookup, msg1, msg3, buffers, m1, a, o, peer)
    ensures if a.methodType == 2 || a.methodType == 3
            then |o.parts.signOrMac| >= a.suite.macLen
                 && o.parts.signOrMac[..a.suite.macLen] == Mac3(cr, c, a, o, peer)
            else cr.verify(peer.pk, Signed3(cr, a, o, peer), o.parts.signOrMac)
    ensures R.ResponderRun(cr, c, lookup, msg1, msg3, buffers)
         == Run([a.msg2], Ok(Session(a.th2, o.th3, cr.hash([0x58, 0x20] + o.th3 + Bstr(o.ciphertext3)), a.prk2e,
                                     a.prk3e2m, Prk4x3mR(cr, c, a, peer))))
  {
    m1, a, o, peer := SuccessfulRunR(cr, c, lookup, msg1, msg3, buffers);
    hide *;
    Claimed3Is(cr, c, a, o, peer);
    Accepted3(cr, c, a, o, peer);
    Th4Written(cr, o.th3, o.ciphertext3);
  }

  lemma Accepted3(cr: EdhocCrypto, c: R.ResponderContext, a: R.Answered, o: R.Opened3, peer: Peer)
    requires Check(cr, a.suite, R.BindingOf3(cr, c, a, o, peer), peer.pk, o.parts.signOrMac) == Ok(true)
    ensures if a.methodType == 2 || a.methodType == 3
            then |o.parts.signOrMac| >= a.suite.macLen
                 && o.parts.signOrMac[..a.suite.macLen] == Mac3(cr, c, a, o, peer)
            else cr.verify(peer.pk, Signed3(cr, a, o, peer), o.parts.signOrMac)
  {
    hide Check, MacInput, MacBytes, InfoBytes, SignatureInput, R.BindingOf3, Mac3;
    Claimed3Is(cr, c, a, o, peer);
    CheckWritten(cr, a.suite, Claimed3(cr, c, a, o, peer), peer.pk, o.parts.signOrMac);
    if a.methodType == 2 || a.methodType == 3 {
      MacCheck3(cr, c, a, o, peer);
    }
  }

  /**
   * A selected suite that the responder does not support: it fails and never sends message 2, but
   * at most an error message, with C_I if METHOD_CORR is 0 or 2, and with its own suites.
   */
  lemma UnsupportedSuite(cr: EdhocCrypto, c: R.ResponderContext, lookup: Lookup, msg1: bytes, msg3: bytes,
      buffers: R.Buffers, m1: Msg1Parts)
    requires R.Parse1(msg1, buffers) == Ok(m1) && m1.suites[0] !in c.suites
    ensures var cI := if (m1.methodCorr == 0 || m1.methodCorr == 2) && m1.cI != [] then Bstr(m1.cI) else [];
            var msg := cI + [0x40] + if c.suites == [] then [] else Bstr(c.suites);
            R.ResponderRun(cr, c, lookup, msg1, msg3, buffers)
            == if |msg| > 64 then Run([], Err(CborEncodingBufferTooSmall)) else Run([msg], Err(ErrorMessageSent))
  {
    ErrorWritten(Responder, m1.methodCorr, m1.cI, c.suites);
    ShortCI(msg1, buffers);
    hide ErrorMessage, R.Parse1, R.Answer, R.Conclude, Bstr;
    assert Short(m1.cI) == m1.cI && Short(c.suites) == c.suites;
  }

  lemma ShortCI(msg1: bytes, buffers: R.Buffers)
    ensures R.Parse1(msg1, buffers).Ok? ==> |R.Parse1(msg1, buffers).value.cI| <= 8
  {
    hide Msg1Parse;
  }

  // ----- what else ends a run -----

  /** The plaintext of message 3 in its buffer of 256 bytes. */
  lemma P3aeWritten(id: CredId, signOrMac: bytes)
    ensures var front := if id.Kid? then [Identifier([id.kid])[0]] else IdCredBytes(id);
            var p := front + Bstr(Short(signOrMac));
            I.P3ae(IdCredBytes(id), signOrMac) == if |p| > 256 then Err(DestBufferTooSmall) else Ok(p)
  {
    hide Encode, IdCred2Kid, IdCredBytes, Bstr, Short, Trunc8, KidIdCred, Identifier;
    IdCredLen(id);
    ShortIs(signOrMac);
    BstrWritten(Trunc8(signOrMac));
    if id.Kid? {
      KidBytes(id.kid);
      KidLayout(id.kid);
      KidSent(id.kid);
      IdentifierWritten([id.kid]);
      BstrIdentifierOf(id.kid);
      assert |KidIdCred(id.kid)| != 1;
    } else {
      CertificateRoundTrip(id, [], 0);
    }
  }

  /** Messages of more than 256 bytes are not received. */
  lemma LongMessages(cr: EdhocCrypto, i: I.InitiatorContext, r: R.ResponderContext, lookup: Lookup, msg1: bytes,
      msg2: bytes, msg3: bytes, bi: I.Buffers, br: R.Buffers, m1: Msg1Parts, a: R.Answered)
    ensures |msg2| > 256 && I.Start(i).Ok? ==>
              I.InitiatorRun(cr, i, lookup, msg2, bi) == Run([I.Start(i).value.1], Err(MessageBufferTooSmall))
    ensures |msg1| > 256 ==> R.ResponderRun(cr, r, lookup, msg1, msg3, br) == Run([], Err(MessageBufferTooSmall))
    ensures |msg3| > 256 ==> R.Conclude(cr, r, lookup, m1, a, msg3, br) == Run([a.msg2], Err(MessageBufferTooSmall))
  {
    hide I.Start, Msg2Parse, Msg1Parse, Msg3Parse, R.Answer;
  }

  /** A text string in the place of G_Y ends the initiator's run, as an error message if its buffer holds it. */
  lemma ErrorMessageEnds(cr: EdhocCrypto, c: I.InitiatorContext, lookup: Lookup, text: ShortString, rest: bytes,
      buffers: I.Buffers)
    requires I.Start(c).Ok? && (c.corr == 1 || c.corr == 3) && |c.gX| == 32 && |text| <= 32
    ensures var msg2 := Encode(TextString(text)) + rest;
            |msg2| <= 256 ==>
              I.InitiatorRun(cr, c, lookup, msg2, buffers)
              == Run([I.Start(c).value.1],
                     Err(if |msg2| > buffers.errCap then DestBufferTooSmall else ErrorMessageReceived))
  {
    hide I.Start, Msg2Parse, Encode;
    TextIsError(c.corr, |c.cI|, text, rest);
  }

  /** A ciphertext_3 that the AEAD does not open ends the responder's run. */
  lemma Message3NotOpened(cr: EdhocCrypto, c: R.ResponderContext, lookup: Lookup, m1: Msg1Parts, a: R.Answered,
      msg3: bytes, buffers: R.Buffers, ciphertext3: ShortString, th3: Digest)
    requires R.Parse3(c, a, msg3, buffers) == Ok(ciphertext3) && |ciphertext3| >= a.suite.macLen
    requires Th3(cr, a.th2, a.ciphertext2, Short(c.cR)) == Ok(th3)
    requires cr.open(Material(cr, a.prk3e2m, InfoBytes(a.suite.aead, th3, K_3AE, 16), 16),
                     Material(cr, a.prk3e2m, InfoBytes(a.suite.aead, th3, IV_3AE, 13), 13),
                     [0x83, 0x68, 0x45, 0x6E, 0x63, 0x72, 0x79, 0x70, 0x74, 0x30, 0x40, 0x58, 0x20] + th3,
                     ciphertext3, a.suite.macLen).None?
    ensures R.Conclude(cr, c, lookup, m1, a, msg3, buffers) == Run([a.msg2], Err(AeadAuthenticationFailed))
  {
    hide R.Parse3, Th3, Aead3Of, PlaintextSplit, Short, Trunc8, Material, InfoBytes;
    ShortIs(c.cR);
    Aead3Written(cr, a.suite, a.prk3e2m, th3);
  }

  // ----- the keys of a session -----

  /**
   * The keys made of the shared secrets of both ephemeral keys, of the responder's static key with
   * the initiator's ephemeral key, and of the initiator's static key with the responder's ephemeral key.
   */
  predicate KeysFrom(cr: EdhocCrypto, kind: nat, s: Session, xy: bytes, rx: bytes, iy: bytes) {
    && s.prk2e == cr.hmac(seq(32, _ => 0), xy)
    && s.prk3e2m == (if kind == 1 || kind == 3 then cr.hmac(s.prk2e, rx) else s.prk2e)
    && s.prk4x3m == (if kind == 2 || kind == 3 then cr.hmac(s.prk3e2m, iy) else s.prk3e2m)
  }

  /** Equal PRK_4x3m of two sessions of a method: all shared secrets in it are equal, or HMAC inputs collide. */
  lemma KeyBinding(cr: EdhocCrypto, kind: nat, s: Session, xy: bytes, rx: bytes, iy: bytes,
                   s': Session, xy': bytes, rx': bytes, iy': bytes)
    requires KeysFrom(cr, kind, s, xy, rx, iy) && KeysFrom(cr, kind, s', xy', rx', iy') && s.prk4x3m == s'.prk4x3m
    ensures
      || (xy == xy' && (kind == 1 || kind == 3 ==> rx == rx') && (kind == 2 || kind == 3 ==> iy == iy'))
      || HmacCollision(cr, seq(32, _ => 0), xy, seq(32, _ => 0), xy')
      || HmacCollision(cr, s.prk2e, rx, s'.prk2e, rx')
      || HmacCollision(cr, s.prk3e2m, iy, s'.prk3e2m, iy')
  {
    var zeros: bytes := seq(32, _ => 0);
    assert s.prk2e == cr.hmac(zeros, xy) && s'.prk2e == cr.hmac(zeros, xy');
  }

  /**
   * A session and its three messages, written out with the secret and public keys of both parties,
   * for corr = 1 and a single suite.
   */
  ghost predicate WrittenAs(cr: EdhocCrypto, p: G.Parties, s: Session, msg1: bytes, msg2: bytes, msg3: bytes,
      ciphertext2: Long, ciphertext3: Long)
    requires |p.i.suites| == 1
  {
    && KeysFrom(cr, p.i.methodType, s, cr.dh(p.i.x, cr.pub(p.r.y)), cr.dh(p.i.x, cr.pub(p.r.r)),
                cr.dh(p.i.i, cr.pub(p.r.y)))
    && msg1 == Uint(4 * p.i.methodType + 1) + Uint(p.i.suites[0]) + Bstr(cr.pub(p.i.x)) + Identifier(p.i.cI)
    && msg2 == Bstr(cr.pub(p.r.y)) + Identifier(p.r.cR) + Bstr(ciphertext2)
    && msg3 == Identifier(p.r.cR) + Bstr(ciphertext3)
    && s.th2 == cr.hash(msg1 + (Bstr(cr.pub(p.r.y)) + Identifier(p.r.cR)))
    && s.th3 == cr.hash([0x58, 0x20] + s.th2 + Bstr(ciphertext2) + Identifier(p.r.cR))
    && s.th4 == cr.hash([0x58, 0x20] + s.th3 + Bstr(ciphertext3))
  }

  /** The session of two honest parties, which both hold, and the messages that brought it about. */
  lemma AgreementKeys(cr: EdhocCrypto, p: G.Parties, lookupI: Lookup, lookupR: Lookup, bi: I.Buffers, br: R.Buffers,
                      i: Run, r: Run, msg1: bytes, msg2: bytes, msg3: bytes)
      returns (s: Session, ciphertext2: Long, ciphertext3: Long)
    requires G.Honest(cr, p, lookupI, lookupR) && G.Interoperates(p)
    requires G.Delivered(cr, p, lookupI, lookupR, bi, br, i, r, msg1, msg2, msg3)
    ensures i.result == r.result == Ok(s) && WrittenAs(cr, p, s, msg1, msg2, msg3, ciphertext2, ciphertext3)
  {
    hide *;
    HonestMeans(cr, p, lookupI, lookupR);
    DeliveredMeans(cr, p, lookupI, lookupR, bi, br, i, r, msg1, msg2, msg3);
    G.Agreement(cr, p, lookupI, lookupR, bi, br, i, r, msg1, msg2, msg3);
    var m1, a, mac2, ptxt2 := G.ResponderAnswers(cr, p, lookupI, lookupR, br);
    G.InitiatorSendsFirst(cr, p.i, lookupI, msg2, bi);
    G.ResponderSendsFirst(cr, p.r, lookupR, m1, a, msg3, br);
    var sealed, mac3, ptxt3 := G.InitiatorConcludes(cr, p, lookupI, lookupR, a, mac2, ptxt2, bi);
    ciphertext2, ciphertext3 := a.ciphertext2, sealed.ciphertext3;
    StartWritten(p.i, a.suite, msg1);
    AnsweredMeans(cr, p, msg1, a, mac2, ptxt2);
    SealedMeans(cr, p, a, sealed, mac3, ptxt3);
    Th4Written(cr, sealed.th3, sealed.ciphertext3);
    s := i.result.value;
    SessionIs(cr, p, s, msg1, msg2, msg3, ciphertext2, ciphertext3);
  }

  lemma SessionIs(cr: EdhocCrypto, p: G.Parties, s: Session, msg1: bytes, msg2: bytes, msg3: bytes,
      ciphertext2: Long, ciphertext3: Long)
    requires |p.i.suites| == 1
    requires s.prk2e == cr.hmac(seq(32, _ => 0), cr.dh(p.i.x, cr.pub(p.r.y)))
    requires s.prk3e2m
          == if p.i.methodType == 1 || p.i.methodType == 3 then cr.hmac(s.prk2e, cr.dh(p.i.x, cr.pub(p.r.r)))
             else s.prk2e
    requires s.prk4x3m
          == if p.i.methodType == 2 || p.i.methodType == 3 then cr.hmac(s.prk3e2m, cr.dh(p.i.i, cr.pub(p.r.y)))
             else s.prk3e2m
    requires msg1 == Uint(4 * p.i.methodType + 1) + Uint(p.i.suites[0]) + Bstr(cr.pub(p.i.x)) + Identifier(p.i.cI)
    requires msg2 == Bstr(cr.pub(p.r.y)) + Identifier(p.r.cR) + Bstr(ciphertext2)
    requires msg3 == Identifier(p.r.cR) + Bstr(ciphertext3)
    requires s.th2 == cr.hash(msg1 + (Bstr(cr.pub(p.r.y)) + Identifier(p.r.cR)))
    requires s.th3 == cr.hash([0x58, 0x20] + s.th2 + Bstr(ciphertext2) + Identifier(p.r.cR))
    requires s.th4 == cr.hash([0x58, 0x20] + s.th3 + Bstr(ciphertext3))
    ensures WrittenAs(cr, p, s, msg1, msg2, msg3, ciphertext2, ciphertext3)
  {
    hide Uint, Bstr, Identifier;
  }

  lemma HonestMeans(cr: EdhocCrypto, p: G.Parties, lookupI: Lookup, lookupR: Lookup)
    requires G.Honest(cr, p, lookupI, lookupR) && G.Interoperates(p)
    ensures |p.r.cR| == 1 && |p.i.suites| == 1 && p.i.corr == 1 && p.r.cR[0] < 48 && p.i.methodType <= 3
    ensures p.i.gX == cr.pub(p.i.x) && p.r.gY == cr.pub(p.r.y) && Laws(cr)
  {
    hide Laws, IdCredBytes;
  }

  lemma DeliveredMeans(cr: EdhocCrypto, p: G.Parties, lookupI: Lookup, lookupR: Lookup, bi: I.Buffers,
      br: R.Buffers, i: Run, r: Run, msg1: bytes, msg2: bytes, msg3: bytes)
    requires G.Delivered(cr, p, lookupI, lookupR, bi, br, i, r, msg1, msg2, msg3)
    ensures i == I.InitiatorRun(cr, p.i, lookupI, msg2, bi)
    ensures r == R.ResponderRun(cr, p.r, lookupR, msg1, msg3, br)
    ensures 1 <= |i.sent| && msg1 == i.sent[0] && 1 <= |r.sent| && msg2 == r.sent[0]
    ensures |i.sent| > 1 ==> msg3 == i.sent[1]
  {
    hide I.InitiatorRun, R.ResponderRun;
  }

  lemma AnsweredMeans(cr: EdhocCrypto, p: G.Parties, msg1: bytes, a: R.Answered, signOrMac: bytes, ptxt: bytes)
    requires G.AnsweredHonestly(cr, p, msg1, a, signOrMac, ptxt) && p.i.corr == 1 && |p.r.cR| == 1
    requires p.i.gX == cr.pub(p.i.x) && p.r.gY == cr.pub(p.r.y) && Laws(cr)
    ensures a.prk2e == cr.hmac(seq(32, _ => 0), cr.dh(p.i.x, cr.pub(p.r.y)))
    ensures a.prk3e2m
         == if p.i.methodType == 1 || p.i.methodType == 3 then cr.hmac(a.prk2e, cr.dh(p.i.x, cr.pub(p.r.r)))
            else a.prk2e
    ensures a.msg2 == Bstr(cr.pub(p.r.y)) + Identifier(p.r.cR) + Bstr(a.ciphertext2)
    ensures a.th2 == cr.hash(msg1 + (Bstr(cr.pub(p.r.y)) + Identifier(p.r.cR)))
  {
    hide Th2, SignOrMac, PlaintextEncode, XorKeystream, Msg2, PrkDerive, Hkdf.Extract, Bstr, Identifier, G.SuiteOf,
         R.BindingOf2, Short;
    Prk2eWritten(cr, cr.dh(p.r.y, p.i.gX));
    PrkWritten(cr, StaticDhR(a.methodType), a.prk2e, p.i.gX, p.r.r);
    Th2Written(cr, msg1, [], p.r.gY, p.r.cR);
    Msg2Written(1, p.i.cI, p.r.gY, p.r.cR[0], a.ciphertext2);
    assert p.r.cR == [p.r.cR[0]];
    assert Short(p.r.gY) == p.r.gY by { ShortPoint(p.r.gY); }
    assert [] + Bstr(p.r.gY) == Bstr(p.r.gY);
    assert cr.dh(p.r.y, cr.pub(p.i.x)) == cr.dh(p.i.x, cr.pub(p.r.y));
    assert cr.dh(p.r.r, cr.pub(p.i.x)) == cr.dh(p.i.x, cr.pub(p.r.r));
  }

  lemma ShortPoint(b: bytes)
    requires |b| < 0x100
    ensures Short(b) == b
  {
  }

  lemma SealedMeans(cr: EdhocCrypto, p: G.Parties, a: R.Answered, s: I.Sealed3, signOrMac: bytes, ptxt: bytes)
    requires G.SealedHonestly(cr, p, a, s, signOrMac, ptxt) && p.i.corr == 1 && p.r.gY == cr.pub(p.r.y)
    ensures s.prk4x3m
         == if p.i.methodType == 2 || p.i.methodType == 3 then cr.hmac(a.prk3e2m, cr.dh(p.i.i, cr.pub(p.r.y)))
            else a.prk3e2m
    ensures s.msg3 == Identifier(p.r.cR) + Bstr(s.ciphertext3)
    ensures s.th3 == cr.hash([0x58, 0x20] + a.th2 + Bstr(a.ciphertext2) + Identifier(p.r.cR))
  {
    hide Th3, SignOrMac, PlaintextEncode, PrkDerive, I.Encrypt3, Bstr, Identifier, Encode, BstrIdentifier;
    PrkWritten(cr, StaticDhI(p.i.methodType), a.prk3e2m, p.r.gY, p.i.i);
    Th3Written(cr, a.th2, a.ciphertext2, p.r.cR);
    IdentifierWritten(p.r.cR);
    BstrWritten(s.ciphertext3);
  }
}
