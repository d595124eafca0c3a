/**
 * Keys and authenticators of EDHOC (okm.c, hkdf_info.c, prk.c, signature_or_mac_msg.c and
 * a_Xae_encode.c in modules/edhoc/src).
 */
module EdhocMac {
  import opened Bytes
  import opened Cbor
  import opened Hkdf
  import opened Edhoc

  const INFO_DEFAULT_SIZE: nat := 64
  const A_2M_DEFAULT_SIZE: nat := 512
  const A_3AE_DEFAULT_SIZE: nat := 64
  const AEAD_KEY_DEFAULT_SIZE: nat := 16
  const AEAD_IV_DEFAULT_SIZE: nat := 13

  function Ascii(s: string): (b: bytes)
    ensures |b| == |s|
  {
    seq(|s|, i requires 0 <= i < |s| => U8(s[i] as int))
  }

  // ----- key material -----

  /** Labels as long as the longest one in use, and lengths the expand loop can produce. */
  type Label = s: string | |s| <= 11 witness ""
  type OkmLen = n: nat | n <= 254 * HASH_LEN

  function InfoItems(aead: byte, th: Digest, name: Label, len: OkmLen): seq<CborItem> {
    [ArrayHead(4), Int(aead), ByteString(th), TextString(Ascii(name)), Int(len)]
  }

  /** The info structure always fits its buffer. */
  lemma InfoFits(aead: byte, th: Digest, name: Label, len: OkmLen)
    ensures EncodeInto(InfoItems(aead, th, name, len), INFO_DEFAULT_SIZE)
             == Ok(EncodeAll(InfoItems(aead, th, name, len)))
  {
    var items := InfoItems(aead, th, name, len);
    hide Encode, EncodeAll;
    FiveItems(items);
    ArraySize(4);
    NumberSize(aead);
    StringSize(th);
    TextSize(Ascii(name));
    NumberSize(len);
  }

  /** Output key material: HKDF-Expand of the encoded info structure. */
  function Okm(cr: EdhocCrypto, suite: Suite, name: Label, prk: Digest, th: Digest, len: OkmLen): (okm: bytes)
    ensures |okm| == len
  {
    Expand(cr.hmac, prk, EncodeAll(InfoItems(suite.aead, th, name, len)), len)
  }

  /** Encodes the info structure into its buffer and runs the expand loop. */
  method OkmCalc(cr: EdhocCrypto, suite: Suite, name: Label, prk: Digest, th: Digest, len: OkmLen) returns (okm: bytes)
    ensures okm == Okm(cr, suite, name, prk, th, len)
  {
    InfoFits(suite.aead, th, name, len);
    var info := EncodeItems(InfoItems(suite.aead, th, name, len), INFO_DEFAULT_SIZE);
    hide EncodeAll, EncodeInto, Expand, InfoItems;
    var out := new byte[len](_ => 0);
    var r := HkdfExpand(cr.hmac, prk, info.value, out);
    okm := out[..];
  }

  /** The PRK of the next stage: with a static DH key the old one salts the new shared secret. */
  function PrkDerive(cr: EdhocCrypto, staticDh: bool, prk: Digest, pk: bytes, sk: bytes): Digest {
    if staticDh then Extract(cr.hmac, prk, cr.dh(sk, pk)) else prk
  }

  /** Both ends of a DH exchange derive the same PRK. */
  lemma PrkAgreement(cr: EdhocCrypto, staticDh: bool, prk: Digest, a: bytes, b: bytes)
    requires Laws(cr)
    ensures PrkDerive(cr, staticDh, prk, cr.pub(a), b) == PrkDerive(cr, staticDh, prk, cr.pub(b), a)
  {
  }

  // ----- what is authenticated -----

  /** The Sig_structure of a signature, or the Enc_structure behind the MAC. */
  function MItems(mac: Option<bytes>, idCred: bytes, th: Digest, cred: bytes, ad: bytes): seq<CborItem> {
    var external := Encode(ByteString(th)) + Trunc8(cred) + Trunc8(ad);
    var parts := [ByteString(Trunc8(idCred)), ShortItem(external)];
    if mac.Some?
    then [ArrayHead(4), TextString(Ascii("Signature1"))] + parts + [ByteString(Trunc8(mac.value))]
    else [ArrayHead(3), TextString(Ascii("Encrypt0"))] + parts
  }

  function ShortItem(b: bytes): CborItem
    requires |b| < 0x1_0000_0000
  {
    ByteString(b)
  }

  /** Encodes it into a buffer of 512 bytes. */
  function MEncode(mac: Option<bytes>, idCred: bytes, th: Digest, cred: bytes, ad: bytes): Result<bytes> {
    EncodeInto(MItems(mac, idCred, th, cred, ad), A_2M_DEFAULT_SIZE)
  }

  /** What is authenticated determines the transcript hash, the identifier and, together, credential and data. */
  lemma MUnique(mac: Option<bytes>, idCred: bytes, th: Digest, cred: bytes, ad: bytes,
                mac': Option<bytes>, idCred': bytes, th': Digest, cred': bytes, ad': bytes)
    requires EncodeAll(MItems(mac, idCred, th, cred, ad)) == EncodeAll(MItems(mac', idCred', th', cred', ad'))
    ensures mac.Some? == mac'.Some? && (mac.Some? ==> Trunc8(mac.value) == Trunc8(mac'.value))
    ensures th == th' && Trunc8(idCred) == Trunc8(idCred')
    ensures Trunc8(cred) + Trunc8(ad) == Trunc8(cred') + Trunc8(ad')
  {
    hide EncodeAll, Trunc8, Ascii;
    var a, b := MItems(mac, idCred, th, cred, ad), MItems(mac', idCred', th', cred', ad');
    ItemsUnique(a, b);
    assert a[0] == b[0] && a[2] == b[2] && a[3] == b[3] && a[|a| - 1] == b[|b| - 1];
    AppendAssoc(Encode(ByteString(th)), Trunc8(cred), Trunc8(ad));
    AppendAssoc(Encode(ByteString(th')), Trunc8(cred'), Trunc8(ad'));
    FirstItemUnique(ByteString(th), Trunc8(cred) + Trunc8(ad), ByteString(th'), Trunc8(cred') + Trunc8(ad'));
  }

  // ----- authenticators -----

  /** The labels of the inner MAC's key and IV in message 2 or 3. */
  datatype Step = Message2 | Message3

  function KeyLabel(step: Step): Label { if step.Message2? then "K_2m" else "K_3m" }
  function IvLabel(step: Step): Label { if step.Message2? then "IV_2m" else "IV_3m" }

  /** What an authenticator is made over: keys of the step, transcript hash, and a party's credential. */
  datatype Binding = Binding(step: Step, staticDh: bool, prk: Digest, th: Digest, idCred: bytes, cred: bytes, ad: bytes)

  /** The inner MAC: the tag of an empty plaintext. */
  function InnerMac(cr: EdhocCrypto, suite: Suite, b: Binding): Result<bytes> {
    var a :- MEncode(None, b.idCred, b.th, b.cred, b.ad);
    Ok(cr.seal(Okm(cr, suite, KeyLabel(b.step), b.prk, b.th, AEAD_KEY_DEFAULT_SIZE),
               Okm(cr, suite, IvLabel(b.step), b.prk, b.th, AEAD_IV_DEFAULT_SIZE), a, [], suite.macLen))
  }

  /** The inner MAC and, for a party that signs, the data to be signed. */
  datatype MacAndData = MacAndData(mac: bytes, m: bytes)

  function SignatureOrMacMsg(cr: EdhocCrypto, suite: Suite, b: Binding): Result<MacAndData> {
    var mac :- InnerMac(cr, suite, b);
    if b.staticDh then Ok(MacAndData(mac, []))
    else
      var m :- MEncode(Some(mac), b.idCred, b.th, b.cred, b.ad);
      Ok(MacAndData(mac, m))
  }

  method SignatureOrMacMsgCreate(cr: EdhocCrypto, suite: Suite, b: Binding) returns (r: Result<MacAndData>)
    ensures r == SignatureOrMacMsg(cr, suite, b)
  {
    hide Okm, EncodeInto, MItems;
    var k := OkmCalc(cr, suite, KeyLabel(b.step), b.prk, b.th, AEAD_KEY_DEFAULT_SIZE);
    var iv := OkmCalc(cr, suite, IvLabel(b.step), b.prk, b.th, AEAD_IV_DEFAULT_SIZE);
    var a := EncodeItems(MItems(None, b.idCred, b.th, b.cred, b.ad), A_2M_DEFAULT_SIZE);
    if a.Err? {
      return Err(a.error);
    }
    var mac := cr.seal(k, iv, a.value, [], suite.macLen);
    var m: bytes := [];
    if !b.staticDh {
      var encoded := EncodeItems(MItems(Some(mac), b.idCred, b.th, b.cred, b.ad), A_2M_DEFAULT_SIZE);
      if encoded.Err? {
        return Err(encoded.error);
      }
      m := encoded.value;
    }
    r := Ok(MacAndData(mac, m));
  }

  /** The authenticator a party sends: the MAC of a static DH key, or a signature. */
  function SignOrMac(cr: EdhocCrypto, suite: Suite, b: Binding, sk: bytes, pk: bytes): Result<bytes> {
    var md :- SignatureOrMacMsg(cr, suite, b);
    Ok(if b.staticDh then md.mac else cr.sign(sk, pk, md.m))
  }

  /** Whether a received authenticator is right; comparing beyond what was received reads unwritten bytes. */
  function Check(cr: EdhocCrypto, suite: Suite, b: Binding, pk: bytes, signOrMac: bytes): Result<bool> {
    var md :- SignatureOrMacMsg(cr, suite, b);
    if !b.staticDh then Ok(cr.verify(pk, md.m, signOrMac))
    else if |signOrMac| < suite.macLen then Err(Undefined)
    else Ok(md.mac == signOrMac[..suite.macLen])
  }

  /** The authenticator of the holder of the key passes the check. */
  lemma CheckAccepts(cr: EdhocCrypto, suite: Suite, b: Binding, sk: bytes)
    requires Laws(cr)
    ensures var s := SignOrMac(cr, suite, b, sk, cr.verifyKey(sk));
            s.Ok? ==> Check(cr, suite, b, cr.verifyKey(sk), s.value) == Ok(true)
  {
    hide Okm, MEncode, KeyLabel, IvLabel;
    var s := SignOrMac(cr, suite, b, sk, cr.verifyKey(sk));
    if s.Ok? && b.staticDh {
      assert |s.value| == suite.macLen;
      assert s.value[..suite.macLen] == s.value;
    }
  }

  /** An authenticator has 64 bytes or the length of the tag. */
  lemma SignOrMacLen(cr: EdhocCrypto, suite: Suite, b: Binding, sk: bytes, pk: bytes)
    requires Laws(cr) && SignOrMac(cr, suite, b, sk, pk).Ok?
    ensures |SignOrMac(cr, suite, b, sk, pk).value| == if b.staticDh then suite.macLen else 64
  {
    hide Okm, MEncode, KeyLabel, IvLabel;
  }

  /** The structures fit their buffers for identifiers and credentials of up to 180 and 255 bytes. */
  lemma MFits(mac: Option<bytes>, idCred: bytes, th: Digest, cred: bytes)
    requires |idCred| <= 180 && |cred| <= 255 && (mac.Some? ==> |mac.value| <= 16)
    ensures MEncode(mac, idCred, th, cred, []).Ok?
  {
    hide Encode, EncodeAll;
    var items := MItems(mac, idCred, th, cred, []);
    ArraySize(3);
    ArraySize(4);
    TextSize(Ascii("Signature1"));
    TextSize(Ascii("Encrypt0"));
    StringSize(Trunc8(idCred));
    StringSize(th);
    StringSize(Encode(ByteString(th)) + Trunc8(cred) + Trunc8([]));
    if mac.Some? {
      StringSize(Trunc8(mac.value));
      FiveItems(items);
    } else {
      FourItems(items);
    }
  }

  lemma SignOrMacExists(cr: EdhocCrypto, suite: Suite, b: Binding, sk: bytes, pk: bytes)
    requires Laws(cr) && suite.macLen <= 16 && |b.idCred| <= 180 && |b.cred| <= 255 && b.ad == []
    ensures SignOrMac(cr, suite, b, sk, pk).Ok?
  {
    hide Okm, MEncode, KeyLabel, IvLabel;
    MFits(None, b.idCred, b.th, b.cred);
    var mac := InnerMac(cr, suite, b).value;
    MFits(Some(mac), b.idCred, b.th, b.cred);
  }

  // ----- the AEAD of message 3 -----

  function AXaeItems(th: Digest): seq<CborItem> {
    [ArrayHead(3), TextString(Ascii("Encrypt0")), ByteString([]), ByteString(th)]
  }

  lemma AXaeFits(th: Digest)
    ensures EncodeInto(AXaeItems(th), A_3AE_DEFAULT_SIZE) == Ok(EncodeAll(AXaeItems(th)))
  {
    hide Encode, EncodeAll;
    FourItems(AXaeItems(th));
    ArraySize(3);
    TextSize(Ascii("Encrypt0"));
    StringSize([]);
    StringSize(th);
  }

  /** Key, IV and associated data of message 3. */
  datatype Aead3 = Aead3(k: bytes, iv: bytes, a: bytes)

  function Aead3Of(cr: EdhocCrypto, suite: Suite, prk3e2m: Digest, th3: Digest): Aead3 {
    Aead3(Okm(cr, suite, "K_3ae", prk3e2m, th3, AEAD_KEY_DEFAULT_SIZE),
          Okm(cr, suite, "IV_3ae", prk3e2m, th3, AEAD_IV_DEFAULT_SIZE),
          EncodeAll(AXaeItems(th3)))
  }

  method Aead3Calc(cr: EdhocCrypto, suite: Suite, prk3e2m: Digest, th3: Digest) returns (r: Aead3)
    ensures r == Aead3Of(cr, suite, prk3e2m, th3)
  {
    hide Okm, EncodeInto, AXaeItems, EncodeAll;
    var k := OkmCalc(cr, suite, "K_3ae", prk3e2m, th3, AEAD_KEY_DEFAULT_SIZE);
    var iv := OkmCalc(cr, suite, "IV_3ae", prk3e2m, th3, AEAD_IV_DEFAULT_SIZE);
    AXaeFits(th3);
    var a := EncodeItems(AXaeItems(th3), A_3AE_DEFAULT_SIZE);
    r := Aead3(k, iv, a.value);
  }

  // ----- the keystream of message 2 -----

  /** Message 2 is encrypted, and decrypted, by xoring a keystream. */
  function XorKeystream(cr: EdhocCrypto, suite: Suite, prk2e: Digest, th2: Digest, data: bytes): (r: bytes)
    requires |data| <= 254 * HASH_LEN
    ensures |r| == |data|
  {
    XorBytes(data, Okm(cr, suite, "KEYSTREAM_2", prk2e, th2, |data|))
  }

  lemma KeystreamTwice(cr: EdhocCrypto, suite: Suite, prk2e: Digest, th2: Digest, data: bytes)
    requires |data| <= 254 * HASH_LEN
    ensures XorKeystream(cr, suite, prk2e, th2, XorKeystream(cr, suite, prk2e, th2, data)) == data
  {
    hide Okm;
    XorBytesTwice(data, Okm(cr, suite, "KEYSTREAM_2", prk2e, th2, |data|));
  }

  /** Derives the keystream and mixes it in byte by byte. */
  method ApplyKeystream(cr: EdhocCrypto, suite: Suite, prk2e: Digest, th2: Digest, data: bytes) returns (r: bytes)
    requires |data| <= 254 * HASH_LEN
    ensures r == XorKeystream(cr, suite, prk2e, th2, data)
  {
    hide Okm, XorBytes;
    var keystream := OkmCalc(cr, suite, "KEYSTREAM_2", prk2e, th2, |data|);
    var buffer := new byte[|data|](_ => 0);
    CopyInto(buffer, 0, data);
    assert buffer[..] == data;
    XorInPlace(buffer, keystream);
    r := buffer[..];
  }
}
