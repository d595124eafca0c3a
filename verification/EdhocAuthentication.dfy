/**
 * Authentication in EDHOC, against any received messages: nothing succeeds before the peer is
 * authenticated, and a verified signature binds its signer to the transcript.
 */
module EdhocAuthentication {
  import opened Bytes
  import opened Cbor
  import opened Hkdf
  import opened Edhoc
  import opened EdhocTh
  import opened EdhocPlaintext
  import opened EdhocMac
  import opened EdhocMessages
  import opened EdhocWire
  import opened EdhocVerdict
  import I = EdhocInitiator
  import R = EdhocResponder

  // ----- authentication before success, against any received messages -----

  /** The initiator opened message 2 and the authenticator in it is right for its own TH_2. */
  predicate ResponderAuthenticated(cr: EdhocCrypto, c: I.InitiatorContext, lookup: Lookup, msg2: bytes,
      buffers: I.Buffers) {
    I.Start(c).Ok? &&
    var (suite, msg1) := I.Start(c).value;
    var o := I.Open2(cr, suite, c, msg1, msg2, buffers);
    && o.Ok? && lookup(o.value.parts.idCred).Ok?
    && var peer := lookup(o.value.parts.idCred).value;
       Check(cr, suite, I.Binding2(cr, c, o.value, peer), peer.pk, o.value.parts.signOrMac) == Ok(true)
  }

  /** The error message an initiator can send after message 1. */
  ghost predicate IsErrorMessage(c: I.InitiatorContext, m: bytes) {
    exists cR: bytes :: |cR| <= 1 && ErrorMessage(Initiator, c.corr, cR, []) == Ok(m)
  }

  /**
   * Whatever arrives as message 2: without authentication of the responder on the initiator's
   * own TH_2 the run does not succeed, and nothing follows message 1 but an error message.
   */
  lemma InitiatorAuthenticates(cr: EdhocCrypto, c: I.InitiatorContext, lookup: Lookup, msg2: bytes, buffers: I.Buffers)
    ensures var run := I.InitiatorRun(cr, c, lookup, msg2, buffers);
            && |run.sent| <= 2
            && (run.result.Ok? ==> |run.sent| == 2)
            && (!ResponderAuthenticated(cr, c, lookup, msg2, buffers) ==>
                  && run.result.Err?
                  && (|run.sent| == 2 ==>
                        run.result == Err(ResponderAuthenticationFailed) && IsErrorMessage(c, run.sent[1])))
  {
    hide I.Start, I.Open2, Check, I.Binding2, I.Seal3, Th4, ErrorMessage, I.Prk3e2m;
  }

  /** The responder opened message 3 and the authenticator in it is right for its own TH_3. */
  predicate InitiatorAuthenticated(cr: EdhocCrypto, c: R.ResponderContext, lookup: Lookup, msg1: bytes, msg3: bytes,
      buffers: R.Buffers) {
    var m1 := Msg1Parse(msg1, buffers.ad1Cap);
    m1.Ok? &&
    var a := R.Answer(cr, c, m1.value, msg1);
    a.Ok? &&
    var o := R.Open3(cr, c, a.value, msg3, buffers);
    && o.Ok? && lookup(o.value.parts.idCred).Ok?
    && var peer := lookup(o.value.parts.idCred).value;
       Check(cr, a.value.suite, R.BindingOf3(cr, c, a.value, o.value, peer), peer.pk, o.value.parts.signOrMac)
           == Ok(true)
  }

  /** Whatever arrives: the responder succeeds only after authenticating the initiator on its own TH_3. */
  lemma ResponderAuthenticates(cr: EdhocCrypto, c: R.ResponderContext, lookup: Lookup, msg1: bytes, msg3: bytes,
      buffers: R.Buffers)
    ensures var run := R.ResponderRun(cr, c, lookup, msg1, msg3, buffers);
            && (run.result.Ok? ==> |run.sent| == 1 && InitiatorAuthenticated(cr, c, lookup, msg1, msg3, buffers))
            && (|run.sent| == 2 ==>
                  && run.result == Err(ResponderAuthenticationFailed)
                  && !InitiatorAuthenticated(cr, c, lookup, msg1, msg3, buffers))
  {
    hide Msg1Parse, R.Answer, R.Open3, Check, R.BindingOf3, Th4, ErrorMessage, R.Prk4x3m;
  }

  // ----- what a verified signature says -----

  /** The data a party signs. */
  datatype Claim = Claim(mac: bytes, idCred: bytes, th: Digest, cred: bytes, ad: bytes)

  function SignedData(t: Claim): bytes {
    EncodeAll(MItems(Some(t.mac), t.idCred, t.th, t.cred, t.ad))
  }

  /** A signature that is not forged: what it verifies was claimed by the holder of the key. */
  ghost predicate Genuine(cr: EdhocCrypto, pk: bytes, signature: bytes, claims: set<Claim>) {
    forall m :: cr.verify(pk, m, signature) ==> exists t :: t in claims && m == SignedData(t)
  }

  /**
   * A checked signature means that the holder of the key made a claim over the same transcript hash
   * and credentials.
   */
  lemma CheckedMeansClaimed(cr: EdhocCrypto, suite: Suite, b: Binding, pk: bytes, signature: bytes, claims: set<Claim>)
    requires Genuine(cr, pk, signature, claims) && !b.staticDh && Check(cr, suite, b, pk, signature) == Ok(true)
    ensures exists t :: t in claims && t.th == b.th && Trunc8(t.idCred) == Trunc8(b.idCred)
                        && Trunc8(t.cred) + Trunc8(t.ad) == Trunc8(b.cred) + Trunc8(b.ad)
  {
    hide InnerMac, EncodeAll, MItems, Trunc8;
    var mac := InnerMac(cr, suite, b).value;
    var m := SignatureOrMacMsg(cr, suite, b).value.m;
    assert cr.verify(pk, m, signature);
    var t :| t in claims && m == SignedData(t);
    MUnique(Some(mac), b.idCred, b.th, b.cred, b.ad, Some(t.mac), t.idCred, t.th, t.cred, t.ad);
  }

  /** What a responder hashed when it made a claim. */
  datatype Session2 = Session2(msg1: bytes, gY: ShortString, cR: ShortString)

  function Hashed2(s: Session2): bytes { Th2Bytes(s.msg1, s.gY, s.cR) }

  /** Every claim was made over the TH_2 of one of the sessions. */
  predicate ClaimsOf(cr: EdhocCrypto, claims: set<Claim>, sessions: set<Session2>) {
    forall t :: t in claims ==> exists s :: s in sessions && t.th == cr.hash(Hashed2(s))
  }

  lemma Th2Hash(cr: EdhocCrypto, msg1: bytes, gY: ShortString, cR: ShortString)
    ensures var th2 := Th2(cr, msg1, [], gY, cR);
            th2.Ok? ==> th2.value == cr.hash(Hashed2(Session2(msg1, gY, cR)))
  {
    hide EncodeAll, Th2Items;
  }

  /** Message 2 as the initiator opens it. */
  function Received2(cr: EdhocCrypto, c: I.InitiatorContext, msg2: bytes, buffers: I.Buffers): Result<I.Opened2> {
    var (suite, msg1) :- I.Start(c);
    I.Open2(cr, suite, c, msg1, msg2, buffers)
  }

  /** Its signature, if there is one and the credential is known, is not forged. */
  ghost predicate Genuine2(cr: EdhocCrypto, c: I.InitiatorContext, lookup: Lookup, msg2: bytes, buffers: I.Buffers,
      claims: set<Claim>) {
    var o := Received2(cr, c, msg2, buffers);
    o.Ok? && lookup(o.value.parts.idCred).Ok? ==>
      Genuine(cr, lookup(o.value.parts.idCred).value.pk, o.value.parts.signOrMac, claims)
  }

  /**
   * A signing responder took part: if the initiator succeeds, with corr = 1 or 3, then a session
   * of the key's holder had the same message 1, G_Y and C_R, unless two hashed inputs collide.
   */
  lemma ResponderTookPart(cr: EdhocCrypto, c: I.InitiatorContext, lookup: Lookup, msg2: bytes, buffers: I.Buffers,
                          claims: set<Claim>, sessions: set<Session2>)
    returns (m2: Msg2Parts, s: Session2)
    requires I.InitiatorRun(cr, c, lookup, msg2, buffers).result.Ok? && (c.corr == 1 || c.corr == 3)
             && !StaticDhR(c.methodType)
    requires Genuine2(cr, c, lookup, msg2, buffers, claims) && ClaimsOf(cr, claims, sessions)
    requires forall t :: t in sessions ==> IsSequence(t.msg1)
    ensures I.Start(c).Ok? && I.Parse2(c, msg2, buffers) == Ok(m2) && s in sessions
    ensures var own := Session2(I.Start(c).value.1, m2.gY, m2.cR);
            s == own || Collision(cr, Hashed2(s), Hashed2(own))
  {
    hide I.InitiatorRun, I.Start, IsSequence, Check, Th2, Hashed2, I.Prk3e2m, I.Parse2, Genuine;
    InitiatorAuthenticates(cr, c, lookup, msg2, buffers);
    var (suite, msg1) := I.Start(c).value;
    var o := I.Open2(cr, suite, c, msg1, msg2, buffers).value;
    var peer := lookup(o.parts.idCred).value;
    CheckedMeansClaimed(cr, suite, I.Binding2(cr, c, o, peer), peer.pk, o.parts.signOrMac, claims);
    var t :| t in claims && t.th == o.th2;
    s :| s in sessions && t.th == cr.hash(Hashed2(s));
    m2 := o.m2;
    NoIdentifier(c, msg2, buffers);
    Th2Hash(cr, msg1, m2.gY, m2.cR);
    OwnIsSequence(c);
    if Hashed2(s) == Hashed2(Session2(msg1, m2.gY, m2.cR)) {
      SessionUnique(s, Session2(msg1, m2.gY, m2.cR));
    }
  }

  lemma NoIdentifier(c: I.InitiatorContext, msg2: bytes, buffers: I.Buffers)
    requires c.corr == 1 || c.corr == 3
    ensures I.Parse2(c, msg2, buffers).Ok? ==> I.Parse2(c, msg2, buffers).value.cI == []
  {
  }

  lemma SessionUnique(s: Session2, s': Session2)
    requires IsSequence(s.msg1) && IsSequence(s'.msg1) && Hashed2(s) == Hashed2(s')
    ensures s == s'
  {
    hide IsSequence, Th2Items, EncodeAll;
    Th2InputUnique(s.msg1, s.gY, s.cR, s'.msg1, s'.gY, s'.cR);
  }

  /** Message 1 as it is written, with one suite or several, is a sequence of items. */
  lemma Msg1IsSequence(o: Offer)
    requires o.methodCorr < 0x8000_0000 && Msg1(o).Ok?
    ensures IsSequence(Msg1(o).value)
  {
    hide EncodeAll, Msg1Items, IsItems;
    EncodedItems(Msg1Items(o));
  }

  lemma OwnIsSequence(c: I.InitiatorContext)
    requires I.Start(c).Ok?
    ensures IsSequence(I.Start(c).value.1)
  {
    Msg1IsSequence(I.OfferOf(c));
    hide Msg1, IsSequence;
  }

  // ----- the same for the initiator -----

  /** What an initiator hashed when it made a claim in message 3. */
  datatype Session3 = Session3(th2: Digest, ciphertext2: ShortString, cR: ShortString)

  function Hashed3(s: Session3): bytes { EncodeAll(Th3Items(s.th2, s.ciphertext2, s.cR)) }

  predicate ClaimsOf3(cr: EdhocCrypto, claims: set<Claim>, sessions: set<Session3>) {
    forall t :: t in claims ==> exists s :: s in sessions && t.th == cr.hash(Hashed3(s))
  }

  /** Message 3 as the responder opens it, and its own state. */
  function Received3(cr: EdhocCrypto, c: R.ResponderContext, msg1: bytes, msg3: bytes,
      buffers: R.Buffers): Result<(R.Answered, R.Opened3)> {
    var m1 :- Msg1Parse(msg1, buffers.ad1Cap);
    var a :- R.Answer(cr, c, m1, msg1);
    var o :- R.Open3(cr, c, a, msg3, buffers);
    Ok((a, o))
  }

  ghost predicate Genuine3(cr: EdhocCrypto, c: R.ResponderContext, lookup: Lookup, msg1: bytes, msg3: bytes,
      buffers: R.Buffers, claims: set<Claim>) {
    var r := Received3(cr, c, msg1, msg3, buffers);
    r.Ok? && lookup(r.value.1.parts.idCred).Ok? ==>
      Genuine(cr, lookup(r.value.1.parts.idCred).value.pk, r.value.1.parts.signOrMac, claims)
  }

  lemma Th3Hash(cr: EdhocCrypto, s: Session3)
    ensures var th3 := Th3(cr, s.th2, s.ciphertext2, s.cR); th3.Ok? ==> th3.value == cr.hash(Hashed3(s))
  {
    hide EncodeAll, Th3Items;
  }

  /**
   * A signing initiator took part: if the responder succeeds, then a session of the key's holder
   * had the same TH_2, ciphertext_2 and C_R, unless two hashed inputs collide.
   */
  lemma InitiatorTookPart(cr: EdhocCrypto, c: R.ResponderContext, lookup: Lookup, msg1: bytes, msg3: bytes,
      buffers: R.Buffers,
                          claims: set<Claim>, sessions: set<Session3>)
    returns (a: R.Answered, s: Session3)
    requires R.ResponderRun(cr, c, lookup, msg1, msg3, buffers).result.Ok?
    requires Genuine3(cr, c, lookup, msg1, msg3, buffers, claims) && ClaimsOf3(cr, claims, sessions)
    ensures Received3(cr, c, msg1, msg3, buffers).Ok? && a == Received3(cr, c, msg1, msg3, buffers).value.0
    ensures !StaticDhI(a.methodType) ==>
              var own := Session3(a.th2, a.ciphertext2, Trunc8(c.cR));
              s in sessions && (s == own || Collision(cr, Hashed3(s), Hashed3(own)))
  {
    hide R.ResponderRun, Msg1Parse, R.Answer, Check, Th3, Hashed3, R.Prk4x3m, R.Parse3, R.Decrypt3, PlaintextSplit,
         Genuine, Trunc8;
    ResponderAuthenticates(cr, c, lookup, msg1, msg3, buffers);
    var (answered, o) := Received3(cr, c, msg1, msg3, buffers).value;
    a := answered;
    s := Session3(a.th2, a.ciphertext2, Trunc8(c.cR));
    if !StaticDhI(a.methodType) {
      var own, peer := s, lookup(o.parts.idCred).value;
      CheckedMeansClaimed(cr, a.suite, R.BindingOf3(cr, c, a, o, peer), peer.pk, o.parts.signOrMac, claims);
      var t :| t in claims && t.th == o.th3;
      s :| s in sessions && t.th == cr.hash(Hashed3(s));
      Th3Hash(cr, own);
      if Hashed3(s) == Hashed3(own) {
        Hashed3Unique(s, own);
      }
    }
  }

  lemma Hashed3Unique(s: Session3, s': Session3)
    requires Hashed3(s) == Hashed3(s')
    ensures s == s'
  {
    hide Th3Items, EncodeAll;
    Th3InputUnique(s.th2, s.ciphertext2, s.cR, s'.th2, s'.ciphertext2, s'.cR);
  }

  // ----- what the parties sign -----

  lemma ClaimOf(cr: EdhocCrypto, suite: Suite, b: Binding, sk: bytes, pk: bytes) returns (t: Claim)
    requires SignOrMac(cr, suite, b, sk, pk).Ok? && !b.staticDh
    ensures t.th == b.th && t.idCred == b.idCred && t.cred == b.cred && t.ad == b.ad
    ensures SignOrMac(cr, suite, b, sk, pk) == Ok(cr.sign(sk, pk, SignedData(t)))
  {
    hide InnerMac, EncodeAll, MItems;
    t := Claim(InnerMac(cr, suite, b).value, b.idCred, b.th, b.cred, b.ad);
  }

  /**
   * A signing responder that sends message 2 signs one claim, over the TH_2 of the message 1 it
   * received and of its own G_Y and C_R, and sends the signature.
   */
  lemma AnswerClaims(cr: EdhocCrypto, c: R.ResponderContext, m1: Msg1Parts, msg1: bytes) returns (t: Claim, ptxt: bytes)
    requires m1.suites != [] && R.Answer(cr, c, m1, msg1).Ok? && !StaticDhR(R.Answer(cr, c, m1, msg1).value.methodType)
    ensures ClaimsOf(cr, {t}, {Session2(msg1, c.gY, c.cR)})
    ensures var a := R.Answer(cr, c, m1, msg1).value;
            && t.th == a.th2 && t.idCred == c.idCred && t.cred == c.cred && t.ad == []
            && PlaintextEncode(c.idCred, cr.sign(c.sk, c.pk, SignedData(t))) == Ok(ptxt)
               && |ptxt| <= CIPHERTEXT2_DEFAULT_SIZE
            && a.ciphertext2 == XorKeystream(cr, a.suite, a.prk2e, a.th2, ptxt)
  {
    hide GetSuite, Th2, SignOrMac, PlaintextEncode, XorKeystream, Msg2, PrkDerive, Hkdf.Extract, SignedData, Hashed2,
         R.CorrOf;
    var a := R.Answer(cr, c, m1, msg1).value;
    var b := R.BindingOf2(c, a.methodType, a.prk3e2m, a.th2);
    t := ClaimOf(cr, a.suite, b, c.sk, c.pk);
    ptxt := PlaintextEncode(c.idCred, SignOrMac(cr, a.suite, b, c.sk, c.pk).value).value;
    Th2Hash(cr, msg1, c.gY, c.cR);
    assert Session2(msg1, c.gY, c.cR) in {Session2(msg1, c.gY, c.cR)};
  }

  /** The same for a signing initiator, message 3 and its own TH_3. */
  lemma SealClaims(cr: EdhocCrypto, suite: Suite, c: I.InitiatorContext, o: I.Opened2, prk3e2m: Digest)
      returns (t: Claim, ptxt: bytes)
    requires I.Seal3(cr, suite, c, o, prk3e2m).Ok? && !StaticDhI(c.methodType)
    ensures ClaimsOf3(cr, {t}, {Session3(o.th2, o.m2.ciphertext2, I.Data3(c, o))})
    ensures var s := I.Seal3(cr, suite, c, o, prk3e2m).value;
            && t.th == s.th3 && t.idCred == c.idCred && t.cred == c.cred && t.ad == []
            && I.P3ae(c.idCred, cr.sign(c.sk, c.pk, SignedData(t))) == Ok(ptxt)
            && s.ciphertext3 == I.Encrypt3(cr, suite, prk3e2m, s.th3, ptxt)
  {
    hide Th3, SignOrMac, I.P3ae, I.Encrypt3, Msg3, PrkDerive, SignedData, Hashed3, I.Data3;
    var own := Session3(o.th2, o.m2.ciphertext2, I.Data3(c, o));
    var s := I.Seal3(cr, suite, c, o, prk3e2m).value;
    var b := I.Binding3(cr, c, o, prk3e2m, s.th3);
    t := ClaimOf(cr, suite, b, c.sk, c.pk);
    ptxt := I.P3ae(c.idCred, SignOrMac(cr, suite, b, c.sk, c.pk).value).value;
    Th3Hash(cr, own);
    assert own in {own};
  }

  // ----- what an accepted MAC says -----

  /** Two MACs that are equal although what they are made over differs. */
  predicate MacCollision(cr: EdhocCrypto, suite: Suite, b: Binding, b': Binding) {
    && MacInput(b.idCred, b.th, b.cred, b.ad) != MacInput(b'.idCred, b'.th, b'.cred, b'.ad)
    && MacBytes(cr, suite, b) == MacBytes(cr, suite, b')
  }

  /** Equal MACs are made over the same transcript hash, identifier, credential and data, or collide. */
  lemma MacBinding(cr: EdhocCrypto, suite: Suite, b: Binding, b': Binding)
    requires MacBytes(cr, suite, b) == MacBytes(cr, suite, b')
    ensures || MacCollision(cr, suite, b, b')
            || (b.th == b'.th && Trunc8(b.idCred) == Trunc8(b'.idCred)
                && Trunc8(b.cred) + Trunc8(b.ad) == Trunc8(b'.cred) + Trunc8(b'.ad))
  {
    hide MacInput, MacBytes, Trunc8, EncodeAll, MItems;
    MacInputWritten(b.idCred, b.th, b.cred, b.ad);
    MacInputWritten(b'.idCred, b'.th, b'.cred, b'.ad);
    if MacInput(b.idCred, b.th, b.cred, b.ad) == MacInput(b'.idCred, b'.th, b'.cred, b'.ad) {
      MUnique(None, b.idCred, b.th, b.cred, b.ad, None, b'.idCred, b'.th, b'.cred, b'.ad);
    }
  }

  /** A MAC that is not forged: it was made, for one of the bindings, by a holder of the static DH key. */
  ghost predicate Made(cr: EdhocCrypto, suite: Suite, mac: bytes, made: set<Binding>) {
    exists b :: b in made && mac == MacBytes(cr, suite, b)
  }

  /** The MAC in message 2, if it is long enough, is not forged. */
  ghost predicate MadeBefore2(cr: EdhocCrypto, c: I.InitiatorContext, lookup: Lookup, msg2: bytes,
      buffers: I.Buffers, made: set<Binding>) {
    forall suite: Suite, msg1, o: I.Opened2, peer ::
      Checks2(cr, c, lookup, msg2, buffers, suite, msg1, o, peer) && |o.parts.signOrMac| >= suite.macLen ==>
        Made(cr, suite, o.parts.signOrMac[..suite.macLen], made)
  }

  /** Nor is the MAC in message 3. */
  ghost predicate MadeBefore3(cr: EdhocCrypto, c: R.ResponderContext, lookup: Lookup, msg1: bytes, msg3: bytes,
      buffers: R.Buffers, made: set<Binding>) {
    forall m1, a: R.Answered, o: R.Opened3, peer ::
      Checks3(cr, c, lookup, msg1, msg3, buffers, m1, a, o, peer) && StaticDhI(a.methodType)
      && |o.parts.signOrMac| >= a.suite.macLen ==>
        Made(cr, a.suite, o.parts.signOrMac[..a.suite.macLen], made)
  }

  /** Every MAC was made over the TH_2 of one of the sessions. */
  predicate MadeIn(cr: EdhocCrypto, made: set<Binding>, sessions: set<Session2>) {
    forall b :: b in made ==> exists s :: s in sessions && b.th == cr.hash(Hashed2(s))
  }

  predicate MadeIn3(cr: EdhocCrypto, made: set<Binding>, sessions: set<Session3>) {
    forall b :: b in made ==> exists s :: s in sessions && b.th == cr.hash(Hashed3(s))
  }

  /**
   * A responder with a static DH key took part: if the initiator succeeds, with corr = 1 or 3, on
   * a MAC that is not forged, then a session in which it was made had the same message 1, G_Y and
   * C_R, unless two hashed inputs or two MACs collide.
   */
  lemma StaticResponderTookPart(cr: EdhocCrypto, c: I.InitiatorContext, lookup: Lookup, msg2: bytes,
      buffers: I.Buffers, made: set<Binding>, sessions: set<Session2>)
    returns (suite: Suite, msg1: bytes, o: I.Opened2, peer: Peer, b: Binding, s: Session2)
    requires I.InitiatorRun(cr, c, lookup, msg2, buffers).result.Ok? && (c.corr == 1 || c.corr == 3)
             && (c.methodType == 1 || c.methodType == 3)
    requires MadeBefore2(cr, c, lookup, msg2, buffers, made)
    requires MadeIn(cr, made, sessions) && forall t :: t in sessions ==> IsSequence(t.msg1)
    ensures Checks2(cr, c, lookup, msg2, buffers, suite, msg1, o, peer) && b in made && s in sessions
    ensures var own := Session2(msg1, o.m2.gY, o.m2.cR);
            || s == own || Collision(cr, Hashed2(s), Hashed2(own))
            || MacCollision(cr, suite, Claimed2(cr, c, o, peer), b)
  {
    hide I.InitiatorRun, IsSequence, Hashed2, MacBytes, Mac2, Checks2, Signed2, MacInput, I.Seal3;
    var sealed;
    suite, msg1, o, peer, sealed := InitiatorSucceeds(cr, c, lookup, msg2, buffers);
    Mac2Is(cr, suite, c, o, peer);
    b :| b in made && o.parts.signOrMac[..suite.macLen] == MacBytes(cr, suite, b);
    s :| s in sessions && b.th == cr.hash(Hashed2(s));
    MacBinding(cr, suite, Claimed2(cr, c, o, peer), b);
    Th2OfInitiator(cr, c, lookup, msg2, buffers, suite, msg1, o, peer);
    if Hashed2(s) == Hashed2(Session2(msg1, o.m2.gY, o.m2.cR)) {
      SessionUnique(s, Session2(msg1, o.m2.gY, o.m2.cR));
    }
  }

  lemma Th2OfInitiator(cr: EdhocCrypto, c: I.InitiatorContext, lookup: Lookup, msg2: bytes, buffers: I.Buffers,
      suite: Suite, msg1: bytes, o: I.Opened2, peer: Peer)
    requires Checks2(cr, c, lookup, msg2, buffers, suite, msg1, o, peer) && (c.corr == 1 || c.corr == 3)
    ensures o.th2 == cr.hash(Hashed2(Session2(msg1, o.m2.gY, o.m2.cR))) && IsSequence(msg1)
  {
    hide I.Start, I.Parse2, Th2, PlaintextSplit, XorKeystream, IsSequence, Hashed2, Hkdf.Extract;
    NoIdentifier(c, msg2, buffers);
    Th2Hash(cr, msg1, o.m2.gY, o.m2.cR);
    OwnIsSequence(c);
  }

  /** The same for an initiator with a static DH key, its TH_2, ciphertext_2 and C_R. */
  lemma StaticInitiatorTookPart(cr: EdhocCrypto, c: R.ResponderContext, lookup: Lookup, msg1: bytes, msg3: bytes,
      buffers: R.Buffers, made: set<Binding>, sessions: set<Session3>)
    returns (m1: Msg1Parts, a: R.Answered, o: R.Opened3, peer: Peer, b: Binding, s: Session3)
    requires R.ResponderRun(cr, c, lookup, msg1, msg3, buffers).result.Ok?
    requires MadeBefore3(cr, c, lookup, msg1, msg3, buffers, made)
    requires MadeIn3(cr, made, sessions)
    ensures Checks3(cr, c, lookup, msg1, msg3, buffers, m1, a, o, peer)
    ensures a.methodType == 2 || a.methodType == 3 ==>
              var own := Session3(a.th2, a.ciphertext2, Trunc8(c.cR));
              && b in made && s in sessions
              && (s == own || Collision(cr, Hashed3(s), Hashed3(own))
                  || MacCollision(cr, a.suite, Claimed3(cr, c, a, o, peer), b))
  {
    hide R.ResponderRun, Hashed3, MacBytes, Mac3, Checks3, Signed3, MacInput, Trunc8;
    m1, a, o, peer := ResponderSucceeds(cr, c, lookup, msg1, msg3, buffers);
    b, s := Claimed3(cr, c, a, o, peer), Session3(a.th2, a.ciphertext2, Trunc8(c.cR));
    if a.methodType == 2 || a.methodType == 3 {
      var own := s;
      Mac3Is(cr, c, a, o, peer);
      b :| b in made && o.parts.signOrMac[..a.suite.macLen] == MacBytes(cr, a.suite, b);
      s :| s in sessions && b.th == cr.hash(Hashed3(s));
      MacBinding(cr, a.suite, Claimed3(cr, c, a, o, peer), b);
      Th3OfResponder(cr, c, lookup, msg1, msg3, buffers, m1, a, o, peer);
      if Hashed3(s) == Hashed3(own) {
        Hashed3Unique(s, own);
      }
    }
  }

  lemma Th3OfResponder(cr: EdhocCrypto, c: R.ResponderContext, lookup: Lookup, msg1: bytes, msg3: bytes,
      buffers: R.Buffers, m1: Msg1Parts, a: R.Answered, o: R.Opened3, peer: Peer)
    requires Checks3(cr, c, lookup, msg1, msg3, buffers, m1, a, o, peer)
    ensures o.th3 == cr.hash(Hashed3(Session3(a.th2, a.ciphertext2, Trunc8(c.cR))))
  {
    hide R.Parse1, R.Answer, R.Parse3, R.Decrypt3, PlaintextSplit, Th3, Hashed3, Trunc8;
    Th3Hash(cr, Session3(a.th2, a.ciphertext2, Trunc8(c.cR)));
  }
}
