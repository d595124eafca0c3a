/**
 * The structures of EDHOC written out byte by byte, next to what the modelled code encodes: the
 * info structure and the keys made of it, what is authenticated, the inputs of the transcript
 * hashes, and the messages.
 */
module EdhocWire {
  import opened Bytes
  import opened Cbor
  import opened Hkdf
  import opened Wire
  import opened Edhoc
  import opened EdhocTh
  import opened EdhocPlaintext
  import opened EdhocMac
  import opened EdhocMessages

  // ----- keys -----

  /** [ AEAD algorithm, transcript hash, label, length ] */
  function InfoBytes(aead: byte, th: Digest, name: bytes, len: uint16): bytes
    requires |name| < 24
  {
    [0x84] + Uint(aead) + [0x58, 0x20] + th + Tstr(name) + Uint(len)
  }

  lemma InfoWritten(aead: byte, th: Digest, name: Label, len: OkmLen)
    ensures EncodeAll(InfoItems(aead, th, name, len)) == InfoBytes(aead, th, Ascii(name), len)
  {
    Five(ArrayHead(4), Int(aead), ByteString(th), TextString(Ascii(name)), Int(len));
    ArrayWritten(4);
    UintWritten(aead);
    BstrWritten(th);
    TstrWritten(Ascii(name));
    UintWritten(len);
    hide Encode, EncodeAll, Uint, Tstr, Ascii;
    AppendAssoc([0x84] + Uint(aead), [0x58, 0x20], th);
  }

  /** Keys and IVs are the front of one HMAC over the info structure and the counter 1. */
  function Material(cr: EdhocCrypto, prk: Digest, info: bytes, len: nat): (r: bytes)
    requires len <= 32
    ensures |r| == len
  {
    cr.hmac(prk, info + [0x01])[..len]
  }

  lemma OkmWritten(cr: EdhocCrypto, suite: Suite, name: Label, prk: Digest, th: Digest, len: OkmLen)
    requires 0 < len <= 32
    ensures Okm(cr, suite, name, prk, th, len)
         == Material(cr, prk, InfoBytes(suite.aead, th, Ascii(name), len), len)
  {
    hide InfoItems, InfoBytes, EncodeAll, Expand;
    InfoWritten(suite.aead, th, name, len);
    ExpandShort(cr.hmac, prk, EncodeAll(InfoItems(suite.aead, th, name, len)), len);
  }

  const K_2M: bytes := [0x4B, 0x5F, 0x32, 0x6D]
  const IV_2M: bytes := [0x49, 0x56, 0x5F, 0x32, 0x6D]
  const K_3M: bytes := [0x4B, 0x5F, 0x33, 0x6D]
  const IV_3M: bytes := [0x49, 0x56, 0x5F, 0x33, 0x6D]
  const K_3AE: bytes := [0x4B, 0x5F, 0x33, 0x61, 0x65]
  const IV_3AE: bytes := [0x49, 0x56, 0x5F, 0x33, 0x61, 0x65]
  const KEYSTREAM_2: bytes := [0x4B, 0x45, 0x59, 0x53, 0x54, 0x52, 0x45, 0x41, 0x4D, 0x5F, 0x32]

  /** The labels in use, in ASCII. */
  lemma Labels()
    ensures Ascii("K_2m") == K_2M && Ascii("IV_2m") == IV_2M && Ascii("K_3m") == K_3M && Ascii("IV_3m") == IV_3M
    ensures Ascii("K_3ae") == K_3AE && Ascii("IV_3ae") == IV_3AE && Ascii("KEYSTREAM_2") == KEYSTREAM_2
  {
  }

  lemma Contexts()
    ensures Ascii("Encrypt0") == [0x45, 0x6E, 0x63, 0x72, 0x79, 0x70, 0x74, 0x30]
    ensures Ascii("Signature1") == [0x53, 0x69, 0x67, 0x6E, 0x61, 0x74, 0x75, 0x72, 0x65, 0x31]
  {
  }

  // ----- what is authenticated -----

  /** A byte string whose length is passed in eight bits. */
  function Short(b: bytes): (r: bytes)
    ensures |r| < 0x100
  {
    b[..|b| % 0x100]
  }

  /** The Enc_structure under the MAC of a party: "Encrypt0", identifier, and hash, credential and data. */
  function MacInput(idCred: bytes, th: Digest, cred: bytes, ad: bytes): bytes {
    [0x83, 0x68, 0x45, 0x6E, 0x63, 0x72, 0x79, 0x70, 0x74, 0x30]
    + Bstr(Short(idCred)) + Bstr([0x58, 0x20] + th + Short(cred) + Short(ad))
  }

  /** The Sig_structure: "Signature1", the same, and the MAC. */
  function SignatureInput(idCred: bytes, th: Digest, cred: bytes, ad: bytes, mac: bytes): bytes {
    [0x84, 0x6A, 0x53, 0x69, 0x67, 0x6E, 0x61, 0x74, 0x75, 0x72, 0x65, 0x31]
    + Bstr(Short(idCred)) + Bstr([0x58, 0x20] + th + Short(cred) + Short(ad)) + Bstr(Short(mac))
  }

  lemma ExternalWritten(th: Digest, cred: bytes, ad: bytes)
    ensures Encode(ByteString(th)) + Trunc8(cred) + Trunc8(ad) == [0x58, 0x20] + th + Short(cred) + Short(ad)
  {
    BstrWritten(th);
  }

  /** How the two structures begin. */
  lemma Encrypt0Written()
    ensures Encode(ArrayHead(3)) + Encode(TextString(Ascii("Encrypt0")))
         == [0x83, 0x68, 0x45, 0x6E, 0x63, 0x72, 0x79, 0x70, 0x74, 0x30]
  {
    hide Encode, Ascii;
    var name := Ascii("Encrypt0");
    ArrayWritten(3);
    TstrWritten(name);
    Contexts();
  }

  lemma Signature1Written()
    ensures Encode(ArrayHead(4)) + Encode(TextString(Ascii("Signature1")))
         == [0x84, 0x6A, 0x53, 0x69, 0x67, 0x6E, 0x61, 0x74, 0x75, 0x72, 0x65, 0x31]
  {
    hide Encode, Ascii;
    var name := Ascii("Signature1");
    ArrayWritten(4);
    TstrWritten(name);
    Contexts();
  }

  lemma MacInputWritten(idCred: bytes, th: Digest, cred: bytes, ad: bytes)
    ensures EncodeAll(MItems(None, idCred, th, cred, ad)) == MacInput(idCred, th, cred, ad)
  {
    hide EncodeAll, Encode, Bstr, Ascii, Short, Trunc8;
    ExternalWritten(th, cred, ad);
    var external := [0x58, 0x20] + th + Short(cred) + Short(ad);
    var name, id, e := TextString(Ascii("Encrypt0")), ByteString(Short(idCred)), ByteString(external);
    ShortIs(idCred);
    assert MItems(None, idCred, th, cred, ad) == [ArrayHead(3), name, id, e];
    Four(ArrayHead(3), name, id, e);
    Encrypt0Written();
    BstrWritten(Short(idCred));
    BstrWritten(external);
  }

  lemma ShortIs(b: bytes)
    ensures Trunc8(b) == Short(b)
  {
  }

  lemma SignatureInputWritten(idCred: bytes, th: Digest, cred: bytes, ad: bytes, mac: bytes)
    ensures EncodeAll(MItems(Some(mac), idCred, th, cred, ad)) == SignatureInput(idCred, th, cred, ad, mac)
  {
    hide EncodeAll, Encode, Bstr, Ascii, Short, Trunc8;
    ExternalWritten(th, cred, ad);
    var external := [0x58, 0x20] + th + Short(cred) + Short(ad);
    var name, id, e := TextString(Ascii("Signature1")), ByteString(Short(idCred)), ByteString(external);
    var m := ByteString(Short(mac));
    ShortIs(idCred);
    ShortIs(mac);
    assert MItems(Some(mac), idCred, th, cred, ad) == [ArrayHead(4), name, id, e, m];
    Five(ArrayHead(4), name, id, e, m);
    Signature1Written();
    BstrWritten(Short(idCred));
    BstrWritten(external);
    BstrWritten(Short(mac));
  }

  /** The associated data of message 3: "Encrypt0", an empty string, and TH_3. */
  lemma A3aeWritten(th: Digest)
    ensures EncodeAll(AXaeItems(th))
         == [0x83, 0x68, 0x45, 0x6E, 0x63, 0x72, 0x79, 0x70, 0x74, 0x30, 0x40, 0x58, 0x20] + th
  {
    hide EncodeAll, Encode, Ascii;
    Four(ArrayHead(3), TextString(Ascii("Encrypt0")), ByteString([]), ByteString(th));
    Encrypt0Written();
    BstrWritten([]);
    BstrWritten(th);
    var front := [0x83, 0x68, 0x45, 0x6E, 0x63, 0x72, 0x79, 0x70, 0x74, 0x30, 0x40];
    assert Encode(ArrayHead(3)) + Encode(TextString(Ascii("Encrypt0"))) + [0x40] == front;
    AppendAssoc(front, [0x58, 0x20], th);
  }

  // ----- connection identifiers -----

  /** One byte as the integer 24 below it, anything else as a byte string. */
  function Identifier(c: Long): bytes {
    if |c| != 1 then Bstr(c)
    else if c[0] < 24 then [0x37 - c[0]]
    else if c[0] < 48 then [c[0] - 24]
    else [0x18, c[0] - 24]
  }

  lemma IdentifierWritten(c: ShortString)
    ensures Encode(BstrIdentifier(c)) == Identifier(c)
  {
    if |c| != 1 {
      BstrWritten(c);
    } else if c[0] < 48 {
      SmallInt(c[0] as int - 24);
    } else {
      LargeInt(c[0] as int - 24);
    }
    hide Encode, Bstr;
  }

  // ----- inputs of the transcript hashes -----

  /** TH_2 hashes message 1 as received, C_I if its length is passed, G_Y and C_R. */
  lemma Th2Written(cr: EdhocCrypto, msg1: bytes, cI: ShortString, gY: ShortString, cR: ShortString)
    ensures var input := msg1 + ((if cI == [] then [] else Bstr(cI)) + Bstr(gY) + Identifier(cR));
            Th2(cr, msg1, cI, gY, cR)
            == if |msg1| > 297 then Err(DestBufferTooSmall)
               else if |input| > 297 then Err(CborEncodingBufferTooSmall)
               else Ok(cr.hash(input))
  {
    hide Encode, EncodeAll, Bstr, Identifier, BstrIdentifier;
    BstrWritten(gY);
    IdentifierWritten(cR);
    if cI == [] {
      Two(ByteString(gY), BstrIdentifier(cR));
      assert Th2Items(cI, gY, cR) == [ByteString(gY), BstrIdentifier(cR)];
      assert [] + Bstr(gY) == Bstr(gY);
    } else {
      BstrWritten(cI);
      Three(ByteString(cI), ByteString(gY), BstrIdentifier(cR));
      assert Th2Items(cI, gY, cR) == [ByteString(cI), ByteString(gY), BstrIdentifier(cR)];
    }
  }

  /** TH_3 hashes TH_2, ciphertext_2 and C_R, or nothing in its place. */
  lemma Th3Written(cr: EdhocCrypto, th2: Digest, ciphertext2: ShortString, data3: ShortString)
    ensures var input := [0x58, 0x20] + th2 + Bstr(ciphertext2) + Identifier(data3);
            Th3(cr, th2, ciphertext2, data3)
            == if |input| > |ciphertext2| + |data3| + 38 then Err(CborEncodingBufferTooSmall) else Ok(cr.hash(input))
  {
    hide Encode, EncodeAll, Identifier, BstrIdentifier;
    BstrWritten(th2);
    BstrWritten(ciphertext2);
    IdentifierWritten(data3);
    Three(ByteString(th2), ByteString(ciphertext2), BstrIdentifier(data3));
  }

  /** TH_4 hashes TH_3 and ciphertext_3. */
  lemma Th4Written(cr: EdhocCrypto, th3: Digest, ciphertext3: ShortString)
    ensures var input := [0x58, 0x20] + th3 + Bstr(ciphertext3);
            Th4(cr, th3, ciphertext3)
            == if |input| > |ciphertext3| + 36 then Err(CborEncodingBufferTooSmall) else Ok(cr.hash(input))
  {
    hide Encode, EncodeAll;
    BstrWritten(th3);
    BstrWritten(ciphertext3);
    Two(ByteString(th3), ByteString(ciphertext3));
  }

  // ----- the key schedule -----

  /** PRK_2e: the shared secret under a salt of zeros. */
  lemma Prk2eWritten(cr: EdhocCrypto, secret: bytes)
    ensures Hkdf.Extract(cr.hmac, [], secret) == cr.hmac(seq(32, _ => 0), secret)
  {
    assert Zeros(HASH_LEN) == seq(32, _ => 0);
  }

  /** A static DH key brings its shared secret in under the old PRK; otherwise the old PRK stays. */
  lemma PrkWritten(cr: EdhocCrypto, staticDh: bool, prk: Digest, pk: bytes, sk: bytes)
    ensures PrkDerive(cr, staticDh, prk, pk, sk) == if staticDh then cr.hmac(prk, cr.dh(sk, pk)) else prk
  {
  }

  // ----- authenticators -----

  /** The MAC of a party, under the key and IV of its step, over its Enc_structure and an empty plaintext. */
  function MacBytes(cr: EdhocCrypto, suite: Suite, b: Binding): bytes {
    cr.seal(Material(cr, b.prk, InfoBytes(suite.aead, b.th, if b.step.Message2? then K_2M else K_3M, 16), 16),
            Material(cr, b.prk, InfoBytes(suite.aead, b.th, if b.step.Message2? then IV_2M else IV_3M, 13), 13),
            MacInput(b.idCred, b.th, b.cred, b.ad), [], suite.macLen)
  }

  lemma InnerMacWritten(cr: EdhocCrypto, suite: Suite, b: Binding)
    ensures InnerMac(cr, suite, b)
         == if |MacInput(b.idCred, b.th, b.cred, b.ad)| > 512 then Err(CborEncodingBufferTooSmall)
            else Ok(MacBytes(cr, suite, b))
  {
    hide Okm, EncodeAll, MItems, MacInput, Material, InfoBytes, Ascii;
    MacInputWritten(b.idCred, b.th, b.cred, b.ad);
    OkmWritten(cr, suite, KeyLabel(b.step), b.prk, b.th, 16);
    OkmWritten(cr, suite, IvLabel(b.step), b.prk, b.th, 13);
    Labels();
  }

  /** The authenticator that is sent. */
  lemma SignOrMacWritten(cr: EdhocCrypto, suite: Suite, b: Binding, sk: bytes, pk: bytes)
    ensures var mac := MacBytes(cr, suite, b);
            var signed := SignatureInput(b.idCred, b.th, b.cred, b.ad, mac);
            SignOrMac(cr, suite, b, sk, pk)
            == if |MacInput(b.idCred, b.th, b.cred, b.ad)| > 512 then Err(CborEncodingBufferTooSmall)
               else if b.staticDh then Ok(mac)
               else if |signed| > 512 then Err(CborEncodingBufferTooSmall)
               else Ok(cr.sign(sk, pk, signed))
  {
    hide InnerMac, EncodeAll, MItems, MacInput, MacBytes, SignatureInput;
    InnerMacWritten(cr, suite, b);
    SignatureInputWritten(b.idCred, b.th, b.cred, b.ad, MacBytes(cr, suite, b));
  }

  /**
   * The check of a received authenticator: against a static DH key the MAC in front of it is
   * compared with the own one, otherwise it is verified as a signature.
   */
  lemma CheckWritten(cr: EdhocCrypto, suite: Suite, b: Binding, pk: bytes, signOrMac: bytes)
    ensures var mac := MacBytes(cr, suite, b);
            var signed := SignatureInput(b.idCred, b.th, b.cred, b.ad, mac);
            Check(cr, suite, b, pk, signOrMac)
            == if |MacInput(b.idCred, b.th, b.cred, b.ad)| > 512 then Err(CborEncodingBufferTooSmall)
               else if b.staticDh then
                 if |signOrMac| < suite.macLen then Err(Undefined) else Ok(signOrMac[..suite.macLen] == mac)
               else if |signed| > 512 then Err(CborEncodingBufferTooSmall)
               else Ok(cr.verify(pk, signed, signOrMac))
  {
    hide InnerMac, EncodeAll, MItems, MacInput, MacBytes, SignatureInput;
    InnerMacWritten(cr, suite, b);
    SignatureInputWritten(b.idCred, b.th, b.cred, b.ad, MacBytes(cr, suite, b));
  }

  /**
   * Against a static DH key, and with enough bytes received, exactly one MAC passes: the seal of
   * the empty plaintext under the key, IV and Enc_structure of the step.
   */
  lemma CheckStatic(cr: EdhocCrypto, suite: Suite, b: Binding, pk: bytes, signOrMac: bytes)
    requires b.staticDh && |signOrMac| >= suite.macLen && |MacInput(b.idCred, b.th, b.cred, b.ad)| <= 512
    ensures var k := InfoBytes(suite.aead, b.th, if b.step.Message2? then K_2M else K_3M, 16);
            var iv := InfoBytes(suite.aead, b.th, if b.step.Message2? then IV_2M else IV_3M, 13);
            && Check(cr, suite, b, pk, signOrMac).Ok?
            && (Check(cr, suite, b, pk, signOrMac) == Ok(true) <==>
                  signOrMac[..suite.macLen]
                  == cr.seal(cr.hmac(b.prk, k + [0x01])[..16], cr.hmac(b.prk, iv + [0x01])[..13],
                             MacInput(b.idCred, b.th, b.cred, b.ad), [], suite.macLen))
  {
    hide Check, InfoBytes, MacInput, SignatureInput;
    CheckWritten(cr, suite, b, pk, signOrMac);
  }

  // ----- the AEAD of message 3 -----

  lemma Aead3Written(cr: EdhocCrypto, suite: Suite, prk3e2m: Digest, th3: Digest)
    ensures Aead3Of(cr, suite, prk3e2m, th3)
         == Aead3(Material(cr, prk3e2m, InfoBytes(suite.aead, th3, K_3AE, 16), 16),
                  Material(cr, prk3e2m, InfoBytes(suite.aead, th3, IV_3AE, 13), 13),
                  [0x83, 0x68, 0x45, 0x6E, 0x63, 0x72, 0x79, 0x70, 0x74, 0x30, 0x40, 0x58, 0x20] + th3)
  {
    hide Okm, EncodeAll, AXaeItems, Material, InfoBytes, Ascii;
    OkmWritten(cr, suite, "K_3ae", prk3e2m, th3, 16);
    OkmWritten(cr, suite, "IV_3ae", prk3e2m, th3, 13);
    A3aeWritten(th3);
    Labels();
  }

  /** The keystream of message 2 is expanded from PRK_2e. */
  lemma KeystreamWritten(cr: EdhocCrypto, suite: Suite, prk2e: Digest, th2: Digest, data: bytes)
    requires |data| < 254 * 32
    ensures XorKeystream(cr, suite, prk2e, th2, data)
         == XorBytes(data, Expand(cr.hmac, prk2e, InfoBytes(suite.aead, th2, KEYSTREAM_2, |data|), |data|))
  {
    hide EncodeAll, InfoItems, InfoBytes, Ascii, XorBytes, Expand;
    InfoWritten(suite.aead, th2, "KEYSTREAM_2", |data|);
    Labels();
  }

  // ----- messages -----

  function Uints(b: bytes): bytes {
    if b == [] then [] else Uints(b[..|b| - 1]) + Uint(b[|b| - 1])
  }

  /** Message 1: METHOD_CORR, the suite or the array of suites, G_X, C_I. */
  lemma Msg1Written(o: Offer)
    requires o.methodCorr < 0x1_0000
    ensures var suites := if |o.suites| == 1 then Uint(o.suites[0]) else Arr(|o.suites|) + Uints(o.suites);
            var msg := Uint(o.methodCorr) + suites + Bstr(o.gX) + Identifier(o.cI);
            Msg1(o) == if |msg| > 256 then Err(CborEncodingError) else Ok(msg)
  {
    hide Encode, EncodeAll, BstrIdentifier, Bstr, Identifier, Uint, Arr, Uints, Ints;
    var m, c := Int(o.methodCorr), BstrIdentifier(o.cI);
    UintWritten(o.methodCorr);
    BstrWritten(o.gX);
    IdentifierWritten(o.cI);
    SuitesWritten(o.suites);
    EncodeOne(m);
    EncodeAllAppend([m], SuiteItems(o.suites));
    var front := [m] + SuiteItems(o.suites);
    Snoc(front, ByteString(o.gX));
    Snoc(front + [ByteString(o.gX)], c);
    assert Msg1Items(o) == front + [ByteString(o.gX)] + [c];
  }

  lemma SuitesWritten(suites: ShortString)
    ensures EncodeAll(SuiteItems(suites))
         == if |suites| == 1 then Uint(suites[0]) else Arr(|suites|) + Uints(suites)
  {
    hide Encode, EncodeAll, Uint, Arr, Uints, Ints;
    if |suites| == 1 {
      EncodeOne(Int(suites[0]));
      UintWritten(suites[0]);
    } else {
      EncodeAllAppend([ArrayHead(|suites|)], Ints(suites));
      EncodeOne(ArrayHead(|suites|));
      ArrayWritten(|suites|);
      IntsWritten(suites);
    }
  }

  lemma {:induction false} IntsWritten(b: bytes)
    ensures EncodeAll(Ints(b)) == Uints(b)
  {
    hide Encode, Uint;
    if b != [] {
      var front, last := b[..|b| - 1], b[|b| - 1];
      IntsWritten(front);
      Snoc(Ints(front), Int(last));
      UintWritten(last);
      assert Ints(b) == Ints(front) + [Int(last)];
    }
  }

  /** Message 2, for a C_R of one byte: C_I unless corr is 1 or 3, G_Y, C_R, ciphertext_2. */
  lemma Msg2Written(corr: byte, cI: ShortString, gY: ShortString, cR: byte, ciphertext2: ShortString)
    ensures var front := if corr == 1 || corr == 3 then [] else Identifier(cI);
            var msg := front + Bstr(Short(gY)) + Identifier([cR]) + Bstr(ciphertext2);
            Msg2(corr, cI, gY, [cR], ciphertext2)
            == if |msg| > 256 then Err(CborEncodingBufferTooSmall) else Ok(msg)
  {
    IdentifierWritten([cR]);
    BstrIdentifierOf(cR);
    hide Encode, EncodeAll, BstrIdentifier, Bstr, Identifier, Short, Trunc8;
    var g, c, d := ByteString(Trunc8(gY)), Int(cR as int - 24), ByteString(ciphertext2);
    ShortIs(gY);
    BstrWritten(Trunc8(gY));
    BstrWritten(ciphertext2);
    if corr == 1 || corr == 3 {
      assert Msg2Items(corr, cI, gY, c, ciphertext2) == [g, c, d];
      Three(g, c, d);
      assert [] + Bstr(Short(gY)) == Bstr(Short(gY));
    } else {
      assert Msg2Items(corr, cI, gY, c, ciphertext2) == [BstrIdentifier(cI), g, c, d];
      Four(BstrIdentifier(cI), g, c, d);
      IdentifierWritten(cI);
    }
  }

  /** A C_R of another length is cut, or read beyond its end, to the length of C_I. */
  lemma Msg2OtherWritten(corr: byte, cI: ShortString, gY: ShortString, cR: ShortString, ciphertext2: ShortString)
    requires |cR| % 0x100 != 1
    ensures var n := |cI| % 0x100;
            var front := if corr == 1 || corr == 3 then [] else Identifier(cI);
            Msg2(corr, cI, gY, cR, ciphertext2)
            == if n > |cR| then Err(Undefined)
               else
                 var msg := front + Bstr(Short(gY)) + Bstr(cR[..n]) + Bstr(ciphertext2);
                 if |msg| > 256 then Err(CborEncodingBufferTooSmall) else Ok(msg)
  {
    var n := |cI| % 0x100;
    if n <= |cR| {
      hide Encode, EncodeAll, BstrIdentifier, Bstr, Identifier, Short, Trunc8;
      var g, c, d := ByteString(Trunc8(gY)), ByteString(cR[..n]), ByteString(ciphertext2);
      ShortIs(gY);
      BstrWritten(Trunc8(gY));
      BstrWritten(cR[..n]);
      BstrWritten(ciphertext2);
      if corr == 1 || corr == 3 {
        assert Msg2Items(corr, cI, gY, c, ciphertext2) == [g, c, d];
        Three(g, c, d);
        assert [] + Bstr(Short(gY)) == Bstr(Short(gY));
      } else {
        assert Msg2Items(corr, cI, gY, c, ciphertext2) == [BstrIdentifier(cI), g, c, d];
        Four(BstrIdentifier(cI), g, c, d);
        IdentifierWritten(cI);
      }
    }
  }

  lemma BstrIdentifierOf(c: byte)
    ensures BstrIdentifier([c]) == Int(c as int - 24)
  {
  }

  /** Message 3: C_R, whose encoding must be a single byte, and ciphertext_3. */
  lemma Msg3Bytes(cR: bytes, ciphertext3: bytes)
    ensures Msg3(cR, ciphertext3)
         == if |cR| != 1 then Ok(cR + Bstr(Short(ciphertext3)))
            else if cR[0] >= 48 then Err(CborEncodingBufferTooSmall)
            else Ok(Identifier(cR) + Bstr(Short(ciphertext3)))
  {
    ShortIs(ciphertext3);
    BstrWritten(Trunc8(ciphertext3));
    if |cR| == 1 {
      EncodeOne(Int(cR[0] as int - 24));
      IdentifierWritten(cR);
      BstrIdentifierOf(cR[0]);
      assert cR == [cR[0]];
    }
    hide Encode, EncodeAll, Bstr, Short, Trunc8, BstrIdentifier;
  }

  /**
   * An error message: the identifier if it is to be sent, an empty byte string, and the suites if
   * there are any.
   */
  lemma ErrorWritten(role: Role, corr: byte, cX: bytes, suites: bytes)
    ensures var sends := if role == Responder then corr == 0 || corr == 2 else corr == 0 || corr == 1;
            var front := if sends && Short(cX) != [] then Bstr(Short(cX)) else [];
            var msg := front + [0x40] + if Short(suites) == [] then [] else Bstr(Short(suites));
            ErrorMessage(role, corr, cX, suites)
            == if |msg| > 64 then Err(CborEncodingBufferTooSmall) else Ok(msg)
  {
    ShortIs(cX);
    ShortIs(suites);
    BstrWritten([]);
    BstrWritten(Trunc8(cX));
    BstrWritten(Trunc8(suites));
    hide Encode, Short, Trunc8, Bstr;
    var id, e, s := ByteString(Trunc8(cX)), ByteString([]), ByteString(Trunc8(suites));
    ErrorItems(id, e, s);
    assert Bstr([]) == [0x40] by { EmptyString(); }
    assert [id] + [e] + [s] == [id, e, s] && [] + [e] + [s] == [e, s];
    assert [id] + [e] + [] == [id, e] && [] + [e] + [] == [e];
    hide EncodeAll;
    assert [] + [0x40] == [0x40];
    assert forall b: bytes :: b + [0x40] + [] == b + [0x40];
  }

  lemma ErrorItems(id: CborItem, e: CborItem, s: CborItem)
    ensures EncodeAll([id, e, s]) == Encode(id) + Encode(e) + Encode(s)
    ensures EncodeAll([id, e]) == Encode(id) + Encode(e) && EncodeAll([e, s]) == Encode(e) + Encode(s)
    ensures EncodeAll([e]) == Encode(e)
  {
    hide *;
    Three(id, e, s);
    Two(id, e);
    Two(e, s);
    EncodeOne(e);
  }

  // ----- credential identifiers -----

  /** The identifiers in use: { 4 : kid }, { 34 : [ alg, hash ] } and { 33 : certificate }. */
  lemma IdCredWritten(id: CredId)
    ensures IdCredBytes(id)
         == match id
            case Kid(k) => [0xA1, 0x04, 0x41, k]
            case X5t(alg, hash) => [0xA1, 0x18, 0x22, 0x82] + (Encode(Int(alg)) + Bstr(hash))
            case X5chain(cert) => [0xA1, 0x18, 0x21] + Bstr(cert)
  {
    hide Encode, EncodeAll, IdCredBytes, Bstr;
    match id
    case Kid(k) => KidWritten(k);
    case X5t(alg, hash) => HashWritten(alg, hash);
    case X5chain(cert) => ChainWritten(cert);
  }

  lemma KidWritten(k: byte)
    ensures IdCredBytes(Kid(k)) == [0xA1, 0x04, 0x41, k]
  {
    KidBytes(k);
    KidLayout(k);
    UintWritten(4);
    BstrWritten([k]);
    hide Encode, EncodeAll, IdCredBytes, KidIdCred;
    assert [0xA1] + ([0x04] + ([0x41] + [k])) == [0xA1, 0x04, 0x41, k];
  }

  lemma HashWritten(alg: int, hash: bytes)
    requires -0x8000_0000 <= alg < 0x8000_0000 && |hash| <= 32
    ensures IdCredBytes(X5t(alg, hash)) == [0xA1, 0x18, 0x22, 0x82] + (Encode(Int(alg)) + Bstr(hash))
  {
    HashLayout(alg, hash);
    UintWritten(34);
    ArrayWritten(2);
    BstrWritten(hash);
    hide Encode, EncodeAll, IdCredBytes, Bstr;
    assert [0xA1] + [0x18, 0x22] == [0xA1, 0x18, 0x22] && [0xA1, 0x18, 0x22] + [0x82] == [0xA1, 0x18, 0x22, 0x82];
    AppendAssoc([0xA1, 0x18, 0x22], [0x82], Encode(Int(alg)) + Bstr(hash));
  }

  lemma ChainWritten(cert: bytes)
    requires |cert| <= 200
    ensures IdCredBytes(X5chain(cert)) == [0xA1, 0x18, 0x21] + Bstr(cert)
  {
    ChainLayout(cert);
    UintWritten(33);
    BstrWritten(cert);
    hide Encode, EncodeAll, IdCredBytes, Bstr;
    assert [0xA1] + [0x18, 0x21] == [0xA1, 0x18, 0x21];
  }

  /** A plaintext: the identifier, or the first byte of its shortened kid, and the authenticator. */
  lemma PlaintextWritten(id: CredId, signOrMac: bytes)
    ensures var front := if id.Kid? then [Identifier([id.kid])[0]] else IdCredBytes(id);
            PlaintextEncode(IdCredBytes(id), signOrMac) == Ok(front + Bstr(Short(signOrMac)))
  {
    hide Encode, IdPart, IdCredBytes, Bstr, Short, Trunc8, KidIdCred, Identifier;
    IdCredLen(id);
    ShortIs(signOrMac);
    BstrWritten(Trunc8(signOrMac));
    if id.Kid? {
      KidBytes(id.kid);
      KidSent(id.kid);
      IdentifierWritten([id.kid]);
      BstrIdentifierOf(id.kid);
    } else {
      CertificateRoundTrip(id, [], 0);
    }
  }
}
