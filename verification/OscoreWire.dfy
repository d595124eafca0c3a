/**
 * The structures OSCORE feeds to its cryptography, written out byte by byte, and what keys,
 * Common IV, nonce and ciphertext come to when they are written with the HMAC and AEAD alone.
 */
module OscoreWire {
  import opened Bytes
  import opened OscoreErrors
  import opened Cbor
  import opened Hkdf
  import opened Wire
  import opened Coap
  import opened Nonce
  import opened OscoreValue
  import opened Aad
  import opened Context

  // ----- CBOR structures -----

  /** The ID context in the info structure: null if there is none. */
  function ContextItem(idContext: Long): bytes {
    if idContext == [] then [0xF6] else Bstr(idContext)
  }

  /** The info structure of section 3.2.1 of RFC 8613: id, ID context, algorithm 10, "Key" or "IV", length. */
  lemma InfoWritten(id: ByteArray, idContext: ByteArray, kind: DeriveType)
    ensures Info(id, idContext, kind)
         == [0x85] + Bstr(id) + ContextItem(idContext)
            + if kind.KeyType? then [0x0A, 0x63, 0x4B, 0x65, 0x79, 0x10] else [0x0A, 0x62, 0x49, 0x56, 0x0D]
  {
    hide Encode, EncodeAll, Bstr, Tstr, Uint;
    var context: CborItem := if idContext == [] then Null else ByteString(idContext);
    var front := [ArrayHead(5), ByteString(id), context];
    var a, n, l := Int(10), TextString(kind.Name()), Int(kind.Len());
    assert InfoItems(id, idContext, kind) == front + [a, n, l];
    EncodeAllAppend(front, [a, n, l]);
    Three(ArrayHead(5), ByteString(id), context);
    Three(a, n, l);
    ArrayWritten(5);
    BstrWritten(id);
    if idContext == [] {
      NullWritten();
    } else {
      BstrWritten(idContext);
    }
    TailWritten(kind);
  }

  lemma TailWritten(kind: DeriveType)
    ensures Encode(Int(10)) + Encode(TextString(kind.Name())) + Encode(Int(kind.Len()))
         == if kind.KeyType? then [0x0A, 0x63, 0x4B, 0x65, 0x79, 0x10] else [0x0A, 0x62, 0x49, 0x56, 0x0D]
  {
    hide Encode;
    UintWritten(10);
    TstrWritten(kind.Name());
    UintWritten(kind.Len());
  }

  /** The external_aad of section 5.4: version 1, algorithm 10, KID, Partial IV, no class I options. */
  lemma AadWritten(kid: Kid, piv: Piv)
    ensures AadOf(kid, piv) == [0x85, 0x01, 0x81, 0x0A, 0x40 + |kid|] + kid + [0x40 + |piv|] + piv + [0x40]
  {
    hide Encode, EncodeAll, Uint;
    var front := [ArrayHead(5), Int(1), ArrayHead(1), Int(10)];
    assert AadItems(kid, piv) == front + [ByteString(kid), ByteString(piv), ByteString([])];
    EncodeAllAppend(front, [ByteString(kid), ByteString(piv), ByteString([])]);
    Four(ArrayHead(5), Int(1), ArrayHead(1), Int(10));
    Three(ByteString(kid), ByteString(piv), ByteString([]));
    HeadsWritten();
    BstrWritten(kid);
    BstrWritten(piv);
    BstrWritten([]);
  }

  lemma HeadsWritten()
    ensures Encode(ArrayHead(5)) + Encode(Int(1)) + Encode(ArrayHead(1)) + Encode(Int(10)) == [0x85, 0x01, 0x81, 0x0A]
  {
    hide Encode;
    ArrayWritten(5);
    ArrayWritten(1);
    UintWritten(1);
    UintWritten(10);
  }

  /** The Enc_structure of section 5.3 of RFC 8152: "Encrypt0", no protected header, the external_aad. */
  lemma EncWritten(aad: AadBytes)
    ensures EncStructure(aad)
         == [0x83, 0x68, 0x45, 0x6E, 0x63, 0x72, 0x79, 0x70, 0x74, 0x30, 0x40] + Bstr(aad)
  {
    hide Encode, EncodeAll, Bstr;
    Four(ArrayHead(3), TextString(ENCRYPT0), ByteString([]), ByteString(aad));
    EncFront();
    BstrWritten(aad);
  }

  lemma EncFront()
    ensures Encode(ArrayHead(3)) + Encode(TextString(ENCRYPT0)) + Encode(ByteString([]))
         == [0x83, 0x68, 0x45, 0x6E, 0x63, 0x72, 0x79, 0x70, 0x74, 0x30, 0x40]
  {
    hide Encode;
    ArrayWritten(3);
    TstrWritten(ENCRYPT0);
    BstrWritten([]);
    EmptyString();
  }

  // ----- keys and Common IV -----

  /** The PRK under which everything is expanded; without a salt it is extracted under zeros. */
  function Prk(hmac: Hmac, secret: bytes, salt: bytes): Digest {
    hmac(if salt == [] then seq(32, _ => 0) else salt, secret)
  }

  lemma PrkIs(hmac: Hmac, secret: bytes, salt: bytes)
    ensures Hkdf.Extract(hmac, salt, secret) == Prk(hmac, secret, salt)
  {
    assert Zeros(HASH_LEN) == seq(32, _ => 0);
  }

  /** The info structure of the key of an id, and of the Common IV. */
  function KeyInfo(id: Long, idContext: Long): bytes {
    [0x85] + Bstr(id) + ContextItem(idContext) + [0x0A, 0x63, 0x4B, 0x65, 0x79, 0x10]
  }

  function IvInfo(idContext: Long): bytes {
    [0x85, 0x40] + ContextItem(idContext) + [0x0A, 0x62, 0x49, 0x56, 0x0D]
  }

  /** The key of an id is the front of one HMAC over its info structure and the counter 1. */
  lemma KeyWritten(hmac: Hmac, cc: CommonContext, id: ByteArray)
    ensures KeyOf(hmac, cc, id)
         == hmac(Prk(hmac, cc.masterSecret, cc.masterSalt), KeyInfo(id, cc.idContext) + [0x01])[..16]
  {
    hide Expand, Info, Bstr, ContextItem, Hkdf.Extract, Prk;
    InfoWritten(id, cc.idContext, KeyType);
    PrkIs(hmac, cc.masterSecret, cc.masterSalt);
    ExpandShort(hmac, Prk(hmac, cc.masterSecret, cc.masterSalt), Info(id, cc.idContext, KeyType), 16);
  }

  lemma IvWritten(hmac: Hmac, cc: CommonContext)
    ensures IvOf(hmac, cc) == hmac(Prk(hmac, cc.masterSecret, cc.masterSalt), IvInfo(cc.idContext) + [0x01])[..13]
  {
    hide Expand, Info, Bstr, ContextItem, Hkdf.Extract, Prk;
    InfoWritten([], cc.idContext, IvType);
    assert Bstr([]) == [0x40] by { EmptyString(); }
    assert [0x85] + [0x40] == [0x85, 0x40];
    PrkIs(hmac, cc.masterSecret, cc.masterSalt);
    ExpandShort(hmac, Prk(hmac, cc.masterSecret, cc.masterSalt), Info([], cc.idContext, IvType), 13);
  }

  /** Common IV, sender key and recipient key, each made with its own id. */
  ghost predicate KeysWritten(hmac: Hmac, secret: bytes, salt: bytes, senderId: ByteArray, recipientId: ByteArray,
      st: State) {
    var prk, context := Prk(hmac, secret, salt), st.cc.idContext;
    && st.cc.commonIv == hmac(prk, IvInfo(context) + [0x01])[..13]
    && st.sc.senderKey == hmac(prk, KeyInfo(senderId, context) + [0x01])[..16]
    && st.rc.recipientKey == hmac(prk, KeyInfo(recipientId, context) + [0x01])[..16]
  }

  lemma ConsistentMeansWritten(hmac: Hmac, st: State)
    requires KeysConsistent(hmac, st)
    ensures KeysWritten(hmac, st.cc.masterSecret, st.cc.masterSalt, st.sc.senderId, st.rc.recipientId, st)
  {
    hide KeyOf, IvOf, Prk, KeyInfo, IvInfo;
    IvWritten(hmac, st.cc);
    KeyWritten(hmac, st.cc, st.sc.senderId);
    KeyWritten(hmac, st.cc, st.rc.recipientId);
  }

  /** After initialisation the keys are made of the parameters. */
  lemma InitWritten(hmac: Hmac, p: InitParams)
    requires InitState(hmac, p).Ok?
    ensures var st := InitState(hmac, p).value;
            && KeysWritten(hmac, p.masterSecret, p.masterSalt, p.senderId, p.recipientId, st)
            && st.cc.idContext == p.idContext && st.sc.senderSeqNum == 0
            && st.sc.senderId == p.senderId && st.rc.recipientId == p.recipientId
            && st.rrc.kid == (if p.dev.CLIENT? then p.senderId else p.recipientId)
            && st.rrc.nonce.None? && st.rrc.aad.None? && st.rrc.piv.None?
            && st.rrc.kidContext == (if p.dev.CLIENT? then Some(p.idContext) else None)
  {
    hide KeyOf, IvOf, KeysWritten;
    InitConsistent(hmac, p);
    ConsistentMeansWritten(hmac, InitState(hmac, p).value);
  }

  /** Initialisation fails exactly for another algorithm, or an id or ID context that does not fit. */
  lemma InitFails(hmac: Hmac, p: InitParams)
    ensures var r := InitState(hmac, p);
            var fits := && |if p.dev.CLIENT? then p.senderId else p.recipientId| <= 7
                        && (p.dev.CLIENT? ==> |p.idContext| <= 8);
            && (p.aeadAlg != 10 ==> r == Err(InvalidAlgorithmAEAD))
            && (p.aeadAlg == 10 && p.hkdf != 0 ==> r == Err(InvalidAlgorithmHKDF))
            && (p.aeadAlg == 10 && p.hkdf == 0 && !fits ==> r == Err(DestBufferTooSmall))
            && (p.aeadAlg == 10 && p.hkdf == 0 && fits ==> r.Ok?)
  {
    hide KeyOf, IvOf;
  }

  lemma KeyInfoUnique(id: ByteArray, id': ByteArray, idContext: ByteArray)
    requires KeyInfo(id, idContext) == KeyInfo(id', idContext)
    ensures id == id'
  {
    hide Info, KeyInfo, Bstr, ContextItem;
    KeyInfoIs(id, idContext);
    KeyInfoIs(id', idContext);
    InfoUnique(id, idContext, KeyType, id', idContext, KeyType);
  }

  lemma KeyInfoIs(id: ByteArray, idContext: ByteArray)
    ensures Info(id, idContext, KeyType) == KeyInfo(id, idContext)
  {
    InfoWritten(id, idContext, KeyType);
    hide Info, Bstr, ContextItem;
  }

  /**
   * Separation: with different ids the two keys come from different inputs of one HMAC, so equal
   * keys mean that it agrees on two different inputs in the first 16 bytes.
   */
  lemma KeysApart(hmac: Hmac, secret: bytes, salt: bytes, senderId: ByteArray, recipientId: ByteArray, st: State)
    requires KeysWritten(hmac, secret, salt, senderId, recipientId, st) && senderId != recipientId
    ensures var prk := Prk(hmac, secret, salt);
            var a, b := KeyInfo(senderId, st.cc.idContext) + [0x01], KeyInfo(recipientId, st.cc.idContext) + [0x01];
            && a != b && st.sc.senderKey == hmac(prk, a)[..16] && st.rc.recipientKey == hmac(prk, b)[..16]
  {
    hide Prk, KeyInfo, IvInfo;
    var a, b := KeyInfo(senderId, st.cc.idContext), KeyInfo(recipientId, st.cc.idContext);
    if a == b {
      KeyInfoUnique(senderId, recipientId, st.cc.idContext);
    }
    SplitLast(a, b);
  }

  lemma SplitLast(a: bytes, b: bytes)
    ensures a + [0x01] == b + [0x01] <==> a == b
  {
    if a + [0x01] == b + [0x01] {
      SplitAt(a, [0x01], b, [0x01]);
    }
  }

  // ----- the OSCORE option -----

  /** Its value: flags, Partial IV, KID context behind its length, KID. */
  lemma ValueWritten(piv: Piv, kid: Kid, kidContext: KidContext)
    requires piv != []
    ensures OscoreValue.Value(piv, kid, kidContext)
         == if kidContext == [] then [|piv| + 8] + piv + kid
            else [|piv| + 0x18] + piv + [|kidContext|] + kidContext + kid
  {
    FlagsAre(piv, kidContext);
    if kidContext == [] {
      assert [|piv| + 8] + piv + [] == [|piv| + 8] + piv;
    } else {
      AppendAssoc([|piv| + 0x18] + piv, [|kidContext|], kidContext);
    }
    hide Flags;
  }
}
