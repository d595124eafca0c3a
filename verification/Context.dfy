/**
 * The security context of an endpoint (modules/oscore/src/security_context.c): how it is
 * initialised and updated, and what holds of it at any time.
 */
module Context {
  import opened Bytes
  import opened OscoreErrors
  import opened Coap
  import opened Hkdf
  import opened Nonce
  import opened OscoreValue
  import opened Aad

  const SHA_256: int := 0

  type Key = k: bytes | |k| == 16 witness Zeros(16)

  // ----- the state -----

  datatype CommonContext = CommonContext(masterSecret: ByteArray, masterSalt: ByteArray, idContext: ByteArray,
      commonIv: Iv)
  datatype SenderContext = SenderContext(senderId: ByteArray, senderKey: Key, senderSeqNum: uint64)
  datatype RecipientContext = RecipientContext(recipientId: ByteArray, recipientKey: Key)

  /** What persists from a request to its response; None while a buffer has not been written. */
  datatype ReqRespContext = ReqRespContext(nonce: Option<Iv>, aad: Option<AadBytes>, piv: Option<Piv>,
                                           kidContext: Option<KidContext>, kid: Kid)

  datatype State = State(rrc: ReqRespContext, cc: CommonContext, sc: SenderContext, rc: RecipientContext)

  datatype DevType = SERVER | CLIENT

  datatype InitParams = InitParams(dev: DevType, masterSecret: ByteArray, senderId: ByteArray, recipientId: ByteArray,
                                   idContext: ByteArray, masterSalt: ByteArray, aeadAlg: int, hkdf: int)

  // ----- key derivation -----

  /** The KDF of section 3.2.1 of RFC 8613 for an id (empty for the Common IV). */
  function Derive(hmac: Hmac, secret: bytes, salt: bytes, idContext: ByteArray, id: ByteArray,
      kind: DeriveType): (k: bytes)
    ensures |k| == kind.Len()
  {
    Expand(hmac, Extract(hmac, salt, secret), Info(id, idContext, kind), kind.Len())
  }

  function KeyOf(hmac: Hmac, cc: CommonContext, id: ByteArray): Key {
    Derive(hmac, cc.masterSecret, cc.masterSalt, cc.idContext, id, KeyType)
  }

  function IvOf(hmac: Hmac, cc: CommonContext): Iv {
    Derive(hmac, cc.masterSecret, cc.masterSalt, cc.idContext, [], IvType)
  }

  /** Common IV and keys are those of the current secret, salt, ids and ID context. */
  predicate KeysConsistent(hmac: Hmac, st: State) {
    && st.cc.commonIv == IvOf(hmac, st.cc)
    && st.sc.senderKey == KeyOf(hmac, st.cc, st.sc.senderId)
    && st.rc.recipientKey == KeyOf(hmac, st.cc, st.rc.recipientId)
  }

  // ----- initialisation -----

  /** The state after initialisation; a server takes its KID from the recipient id. */
  function InitState(hmac: Hmac, p: InitParams): Result<State> {
    if p.aeadAlg != AES_CCM_16_64_128 then Err(InvalidAlgorithmAEAD)
    else if p.hkdf != SHA_256 then Err(InvalidAlgorithmHKDF)
    else
      var cc0 := CommonContext(p.masterSecret, p.masterSalt, p.idContext, Zeros(13));
      var cc := cc0.(commonIv := IvOf(hmac, cc0));
      var sc := SenderContext(p.senderId, KeyOf(hmac, cc, p.senderId), 0);
      var rc := RecipientContext(p.recipientId, KeyOf(hmac, cc, p.recipientId));
      var kid := if p.dev.CLIENT? then p.senderId else p.recipientId;
      if p.dev.CLIENT? && |p.idContext| > MAX_KID_CONTEXT_LEN then Err(DestBufferTooSmall)
      else if |kid| > MAX_KID_LEN then Err(DestBufferTooSmall)
      else
        Ok(State(ReqRespContext(None, None, None, if p.dev.CLIENT? then Some(p.idContext) else None, kid), cc, sc, rc))
  }

  lemma InitConsistent(hmac: Hmac, p: InitParams)
    ensures var r := InitState(hmac, p); r.Ok? ==> KeysConsistent(hmac, r.value) && r.value.sc.senderSeqNum == 0
  {
  }

  // ----- updates -----

  /** Nonce and AAD anew from the KID and Partial IV held. */
  function WithNonceAad(st: State): (Result<()>, State) {
    if st.rrc.piv.None? then (Err(Undefined), st)
    else (Ok(()), st.(rrc := st.rrc.(nonce := Some(NonceOf(st.rrc.kid, st.rrc.piv.value, st.cc.commonIv)),
                                     aad := Some(AadOf(st.rrc.kid, st.rrc.piv.value)))))
  }

  /** The ID context replaced and everything derived from it anew. */
  function WithIdContext(hmac: Hmac, st: State, idContext: ByteArray): State {
    var cc := st.cc.(idContext := idContext);
    st.(cc := cc.(commonIv := IvOf(hmac, cc)),
        sc := st.sc.(senderKey := KeyOf(hmac, cc, st.sc.senderId)),
        rc := st.rc.(recipientKey := KeyOf(hmac, cc, st.rc.recipientId)))
  }

  /**
   * The update of a server with the Partial IV and KID context of a request.  A KID context
   * that differs from the ID context replaces it, if it is not longer than the old one.
   */
  function UpdateServer(hmac: Hmac, st: State, newPiv: Option<Piv>, newKidContext: ByteArray): (Result<()>, State) {
    if newPiv.None? then (Err(Undefined), st)
    else
      var st1 := st.(rrc := st.rrc.(piv := newPiv));
      if st.cc.idContext == newKidContext then WithNonceAad(st1)
      else if |newKidContext| > MAX_KID_CONTEXT_LEN then (Err(DestBufferTooSmall), st1)
      else
        var st2 := st1.(rrc := st1.rrc.(kidContext := Some(newKidContext)));
        if |st.cc.idContext| < |newKidContext| then (Err(DestBufferTooSmall), st2)
        else WithNonceAad(WithIdContext(hmac, st2, newKidContext))
  }

  /** What no update changes, and what it keeps. */
  ghost predicate Kept(hmac: Hmac, before: State, after: State) {
    && (KeysConsistent(hmac, before) ==> KeysConsistent(hmac, after))
    && |after.cc.idContext| <= |before.cc.idContext|
    && after.cc.masterSecret == before.cc.masterSecret && after.cc.masterSalt == before.cc.masterSalt
    && after.sc.senderId == before.sc.senderId && after.rc.recipientId == before.rc.recipientId
    && after.rrc.kid == before.rrc.kid
  }

  /** Whether it succeeds or fails, an update keeps the keys consistent and never lengthens the ID context. */
  lemma UpdateKeeps(hmac: Hmac, st: State, newPiv: Option<Piv>, newKidContext: ByteArray)
    ensures Kept(hmac, st, UpdateServer(hmac, st, newPiv, newKidContext).1)
    ensures UpdateServer(hmac, st, newPiv, newKidContext).1.sc.senderSeqNum == st.sc.senderSeqNum
    ensures Kept(hmac, st, WithNonceAad(st).1)
    ensures UpdateServer(hmac, st, newPiv, newKidContext).0.Ok? ==>
              UpdateServer(hmac, st, newPiv, newKidContext).1.cc.idContext == newKidContext
  {
    hide Derive, NonceOf, AadOf;
  }

  /**
   * A server's update succeeds exactly with a Partial IV and a KID context that is the ID context
   * or no longer than it, and at most 8 bytes.  Nonce and AAD are then those of the request, with
   * the Common IV that holds afterwards; a failed update leaves ids, keys, nonce and AAD alone.
   */
  lemma UpdateMakes(hmac: Hmac, st: State, newPiv: Option<Piv>, newKidContext: ByteArray)
    ensures var (r, after) := UpdateServer(hmac, st, newPiv, newKidContext);
            var same := newKidContext == st.cc.idContext;
            && (r.Ok? <==>
                  newPiv.Some? && (same || (|newKidContext| <= 8 && |newKidContext| <= |st.cc.idContext|)))
            && (r.Ok? ==>
                  && after.rrc.kid == st.rrc.kid && after.rrc.piv == newPiv
                  && after.rrc.nonce == Some(NonceOf(st.rrc.kid, newPiv.value, after.cc.commonIv))
                  && after.rrc.aad == Some(AadOf(st.rrc.kid, newPiv.value))
                  && after.rrc.kidContext == (if same then st.rrc.kidContext else Some(newKidContext))
                  && after.cc.idContext == newKidContext
                  && (same ==> after.cc == st.cc && after.sc == st.sc && after.rc == st.rc)
                  && (!same ==> KeysConsistent(hmac, after)))
            && (r.Err? ==>
                  && r.error == (if newPiv.None? then Undefined else DestBufferTooSmall)
                  && after.cc == st.cc && after.sc == st.sc && after.rc == st.rc
                  && after.rrc.nonce == st.rrc.nonce && after.rrc.aad == st.rrc.aad)
  {
    hide Derive, NonceOf, AadOf;
  }

  // ----- the context object -----

  /** The context struct; its four parts are updated in place. */
  class SecurityContext {
    var rrc: ReqRespContext
    var cc: CommonContext
    var sc: SenderContext
    var rc: RecipientContext

    ghost function Current(): State
      reads this
    {
      State(rrc, cc, sc, rc)
    }

    constructor ()
    {
      rrc := ReqRespContext(None, None, None, None, []);
      cc := CommonContext([], [], [], Zeros(13));
      sc := SenderContext([], Zeros(16), 0);
      rc := RecipientContext([], Zeros(16));
    }

    /** HKDF of the common context for an id. */
    method DeriveBytes(hmac: Hmac, id: ByteArray, kind: DeriveType) returns (k: bytes)
      ensures k == Derive(hmac, cc.masterSecret, cc.masterSalt, cc.idContext, id, kind)
    {
      hide Expand, Extract, Info;
      var out := new byte[kind.Len()](_ => 0);
      var r := HkdfSha256(hmac, cc.masterSecret, cc.masterSalt, Info(id, cc.idContext, kind), out);
      k := out[..];
    }

    method DeriveCommonIv(hmac: Hmac)
      modifies this
      ensures Current() == old(Current()).(cc := old(cc).(commonIv := IvOf(hmac, old(cc))))
    {
      hide Derive;
      var iv := DeriveBytes(hmac, [], IvType);
      cc := cc.(commonIv := iv);
    }

    method DeriveSenderKey(hmac: Hmac)
      modifies this
      ensures Current() == old(Current()).(sc := old(sc).(senderKey := KeyOf(hmac, old(cc), old(sc.senderId))))
    {
      hide Derive;
      var key := DeriveBytes(hmac, sc.senderId, KeyType);
      sc := sc.(senderKey := key);
    }

    method DeriveRecipientKey(hmac: Hmac)
      modifies this
      ensures Current() == old(Current()).(rc := old(rc).(recipientKey := KeyOf(hmac, old(cc), old(rc.recipientId))))
    {
      hide Derive;
      var key := DeriveBytes(hmac, rc.recipientId, KeyType);
      rc := rc.(recipientKey := key);
    }

    method Init(hmac: Hmac, p: InitParams) returns (r: Result<()>)
      modifies this
      ensures r == match InitState(hmac, p) { case Ok(_) => Ok(()) case Err(e) => Err(e) }
      ensures r.Ok? ==> Current() == InitState(hmac, p).value
    {
      hide Derive;
      if p.aeadAlg != AES_CCM_16_64_128 {
        return Err(InvalidAlgorithmAEAD);
      }
      if p.hkdf != SHA_256 {
        return Err(InvalidAlgorithmHKDF);
      }
      cc := CommonContext(p.masterSecret, p.masterSalt, p.idContext, Zeros(13));
      DeriveCommonIv(hmac);
      rc := rc.(recipientId := p.recipientId);
      DeriveRecipientKey(hmac);
      sc := sc.(senderId := p.senderId);
      DeriveSenderKey(hmac);
      sc := sc.(senderSeqNum := 0);
      rrc := ReqRespContext(None, None, None, None, []);
      if p.dev == CLIENT {
        if |p.idContext| > MAX_KID_CONTEXT_LEN {
          return Err(DestBufferTooSmall);
        }
        rrc := rrc.(kidContext := Some(p.idContext));
        if |p.senderId| > MAX_KID_LEN {
          return Err(DestBufferTooSmall);
        }
        rrc := rrc.(kid := p.senderId);
      } else {
        if |p.recipientId| > MAX_KID_LEN {
          return Err(DestBufferTooSmall);
        }
        rrc := rrc.(kid := p.recipientId);
      }
      r := Ok(());
    }

    /** The update before a request is sent (CLIENT) or after one is received (SERVER). */
    method Update(hmac: Hmac, dev: DevType, options: seq<CoapOption>, newPiv: Option<Piv>, newKidContext: ByteArray)
        returns (r: Result<()>)
      modifies this
      ensures (r, Current()) == if dev.SERVER? then UpdateServer(hmac, old(Current()), newPiv, newKidContext)
                                else WithNonceAad(old(Current()))
    {
      hide Derive, NonceOf, AadOf;
      if dev == SERVER {
        if newPiv.None? {
          return Err(Undefined);
        }
        rrc := rrc.(piv := newPiv);
        if cc.idContext != newKidContext {
          if |newKidContext| > MAX_KID_CONTEXT_LEN {
            return Err(DestBufferTooSmall);
          }
          rrc := rrc.(kidContext := Some(newKidContext));
          if |cc.idContext| < |newKidContext| {
            return Err(DestBufferTooSmall);
          }
          cc := cc.(idContext := newKidContext);
          DeriveCommonIv(hmac);
          DeriveSenderKey(hmac);
          DeriveRecipientKey(hmac);
        }
      }
      if rrc.piv.None? {
        return Err(Undefined);
      }
      var nonce := new byte[NONCE_LEN](_ => 0);
      CreateNonce(rrc.kid, rrc.piv.value, cc.commonIv, nonce);
      rrc := rrc.(nonce := Some(nonce[..]));
      var aad := CreateAad(options, rrc.kid, rrc.piv.value);
      rrc := rrc.(aad := Some(aad));
      r := Ok(());
    }
  }
}
