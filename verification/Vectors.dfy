/**
 * Instances on the test vectors of appendices C.1 and C.4 of RFC 8613, which the repository's own
 * tests use: the inputs of the cryptographic functions, and the request up to its ciphertext.
 */
module Vectors {
  import opened Bytes
  import opened OscoreErrors
  import opened Coap
  import opened Options
  import opened SplitMerge
  import opened Hkdf
  import opened Nonce
  import opened OscoreValue
  import opened Aad
  import opened Context
  import opened Protect
  import opened RoundTrip
  import opened Wire
  import opened OscoreWire

  // ----- inputs of HKDF and AEAD -----

  lemma SmallStrings()
    ensures Bstr([]) == [0x40] && Bstr([0x01]) == [0x41, 0x01] && ContextItem([]) == [0xF6]
    ensures Bstr([0x85, 0x01, 0x81, 0x0A, 0x40, 0x41, 0x14, 0x40])
         == [0x48, 0x85, 0x01, 0x81, 0x0A, 0x40, 0x41, 0x14, 0x40]
  {
  }

  /** Info structures without ID context for the ids none and 01, and for the Common IV. */
  lemma InfoVectors()
    ensures Info([], [], KeyType) == [0x85, 0x40, 0xF6, 0x0A, 0x63, 0x4B, 0x65, 0x79, 0x10]
    ensures Info([0x01], [], KeyType) == [0x85, 0x41, 0x01, 0xF6, 0x0A, 0x63, 0x4B, 0x65, 0x79, 0x10]
    ensures Info([], [], IvType) == [0x85, 0x40, 0xF6, 0x0A, 0x62, 0x49, 0x56, 0x0D]
  {
    hide *;
    SmallStrings();
    InfoWritten([], [], KeyType);
    InfoWritten([0x01], [], KeyType);
    InfoWritten([], [], IvType);
  }

  /** External_aad, Enc_structure and option value of the request with Partial IV 14. */
  lemma RequestVectors()
    ensures AadOf([], [0x14]) == [0x85, 0x01, 0x81, 0x0A, 0x40, 0x41, 0x14, 0x40]
    ensures EncStructure(AadOf([], [0x14]))
         == [0x83, 0x68, 0x45, 0x6E, 0x63, 0x72, 0x79, 0x70, 0x74, 0x30, 0x40,
             0x48, 0x85, 0x01, 0x81, 0x0A, 0x40, 0x41, 0x14, 0x40]
    ensures OscoreValue.Value([0x14], [], []) == [0x09, 0x14]
  {
    hide *;
    SmallStrings();
    AadWritten([], [0x14]);
    EncWritten(AadOf([], [0x14]));
    ValueWritten([0x14], [], []);
  }

  const VECTOR_IV: Iv := [0x46, 0x22, 0xD4, 0xDD, 0x6D, 0x94, 0x41, 0x68, 0xEE, 0xFB, 0x54, 0x98, 0x7C]

  /** Its nonce, and the one of the id 01 with Partial IV 0. */
  lemma NonceVectors()
    ensures NonceOf([], [0x14], VECTOR_IV)
         == [0x46, 0x22, 0xD4, 0xDD, 0x6D, 0x94, 0x41, 0x68, 0xEE, 0xFB, 0x54, 0x98, 0x68]
    ensures NonceOf([0x01], [0x00], VECTOR_IV)
         == [0x47, 0x22, 0xD4, 0xDD, 0x6D, 0x94, 0x41, 0x69, 0xEE, 0xFB, 0x54, 0x98, 0x7C]
  {
    hide Xor, NonceOf;
    XorVectors();
    forall j | 0 <= j < 13
      ensures NonceOf([], [0x14], VECTOR_IV)[j] == if j == 12 then 0x68 else VECTOR_IV[j]
      ensures NonceOf([0x01], [0x00], VECTOR_IV)[j] == if j == 0 then 0x47 else if j == 7 then 0x69 else VECTOR_IV[j]
    {
      NonceBytes([], [0x14], VECTOR_IV, j);
      NonceBytes([0x01], [0x00], VECTOR_IV, j);
      XorZero(VECTOR_IV[j]);
    }
  }

  lemma XorVectors()
    ensures Xor(0x14, 0x7C) == 0x68 && Xor(0x01, 0x46) == 0x47 && Xor(0x01, 0x68) == 0x69
  {
  }

  // ----- the request of appendix C.4 -----

  const LOCALHOST: Value := [0x6C, 0x6F, 0x63, 0x61, 0x6C, 0x68, 0x6F, 0x73, 0x74]
  const TV1: Value := [0x74, 0x76, 0x31]
  const TOKEN: Token := [0x00, 0x00, 0x39, 0x74]

  /** GET coap://localhost/tv1, as a packet and as bytes. */
  const REQUEST: Packet :=
    Packet(1, 0, 0x01, 0x5D1F, TOKEN, [CoapOption(3, LOCALHOST, 3), CoapOption(8, TV1, 11)], [])

  const REQUEST_BYTES: bytes :=
    [0x44, 0x01, 0x5D, 0x1F, 0x00, 0x00, 0x39, 0x74, 0x39, 0x6C, 0x6F, 0x63, 0x61, 0x6C, 0x68, 0x6F, 0x73, 0x74,
     0x83, 0x74, 0x76, 0x31]

  /** The bytes of one short option. */
  lemma ShortOption(o: CoapOption)
    requires o.delta < 13 && |o.value| < 13
    ensures EncodeOption(o) == [0x10 * o.delta + |o.value|] + o.value
  {
  }

  lemma TwoOptions(a: CoapOption, b: CoapOption)
    ensures EncodeOptions([a, b]) == EncodeOption(a) + EncodeOption(b)
  {
    hide *;
    EncodeOptionsAppend([a], [b]);
    EncodeOneOption(a);
    EncodeOneOption(b);
    assert [a, b] == [a] + [b];
  }

  lemma RequestOptions()
    ensures EncodeOptions(REQUEST.options)
         == [0x39, 0x6C, 0x6F, 0x63, 0x61, 0x6C, 0x68, 0x6F, 0x73, 0x74, 0x83, 0x74, 0x76, 0x31]
  {
    hide EncodeOptions, EncodeOption;
    TwoOptions(CoapOption(3, LOCALHOST, 3), CoapOption(8, TV1, 11));
    ShortOption(CoapOption(3, LOCALHOST, 3));
    ShortOption(CoapOption(8, TV1, 11));
  }

  lemma RequestReadable()
    ensures Readable(REQUEST) && Serialize(REQUEST) == REQUEST_BYTES
  {
    RequestOptions();
    hide EncodeOptions;
    var a, b := CoapOption(3, LOCALHOST, 3), CoapOption(8, TV1, 11);
    assert REQUEST.options == [a, b] && [a, b][1..] == [b] && [b][1..] == [];
    assert WellNumbered([b], 3);
    assert WellNumbered(REQUEST.options, 0);
  }

  lemma RequestRead()
    ensures Parse(REQUEST_BYTES) == Ok(REQUEST)
  {
    hide *;
    RequestReadable();
    ParseSerialized(REQUEST);
  }

  /** Uri-Host stays outside, Uri-Path is encrypted. */
  lemma RequestClasses()
    ensures Numbered(REQUEST.options, 0) && LengthsExact(REQUEST.options, 0)
    ensures EncryptedOf(REQUEST) == [CoapOption(11, TV1, 11)] && OuterOf(REQUEST) == [CoapOption(3, LOCALHOST, 3)]
  {
    var a, b := CoapOption(3, LOCALHOST, 3), CoapOption(8, TV1, 11);
    assert REQUEST.options == [a, b] && [a, b][1..] == [b] && [b][1..] == [];
    assert Numbered([b], 3) && LengthsExact([b], 0);
    ClassesOf(a, b);
  }

  lemma ClassesOf(a: CoapOption, b: CoapOption)
    requires !IsClassE(a.number) && IsClassE(b.number)
    ensures Rebase(OfClass([a, b], true), 0) == [b.(delta := b.number)]
    ensures Rebase(OfClass([a, b], false), 0) == [a.(delta := a.number)]
  {
    assert [a, b][1..] == [b] && [b][1..] == [];
    assert OfClass([], true) == [] && OfClass([], false) == [];
    assert OfClass([b], true) == [b] + [] == [b];
    assert OfClass([b], false) == [] + [] == [];
    assert OfClass([a, b], true) == [b] && OfClass([a, b], false) == [a];
  }

  lemma RequestPlaintext()
    ensures PlaintextOf(REQUEST) == Ok([0x01, 0xB3, 0x74, 0x76, 0x31])
    ensures Split(REQUEST.options, 0, 0, 0).u == [CoapOption(3, LOCALHOST, 3)]
  {
    hide *;
    RequestClasses();
    PlaintextSucceeds(REQUEST);
    EncryptedBytes();
    RequestFits();
  }

  lemma EncryptedBytes()
    ensures EncodeOptions([CoapOption(11, TV1, 11)]) == [0xB3, 0x74, 0x76, 0x31]
    ensures ScratchLen([CoapOption(11, TV1, 11)]) >= 4
  {
    var o := CoapOption(11, TV1, 11);
    EncodeOneOption(o);
    ShortOption(o);
    hide EncodeOptions, EncodeOption;
    assert [o][1..] == [];
    assert ScratchSum([]) == 0;
  }

  lemma RequestFits()
    requires EncryptedOf(REQUEST) == [CoapOption(11, TV1, 11)] && LengthsExact(REQUEST.options, 0)
    ensures PlaintextFits(REQUEST) && PlaintextFor(REQUEST) == [0x01, 0xB3, 0x74, 0x76, 0x31]
  {
    EncryptedBytes();
    hide EncodeOptions, EncryptedOf, LengthsExact, ScratchLen;
    assert [0x01] + [0xB3, 0x74, 0x76, 0x31] + [] == [0x01, 0xB3, 0x74, 0x76, 0x31];
  }

  /** The OSCORE option, number 9, comes behind Uri-Host, number 3. */
  lemma RequestOuter()
    ensures WithOscore([CoapOption(3, LOCALHOST, 3)], [0x09, 0x14])
         == [CoapOption(3, LOCALHOST, 3), CoapOption(6, [0x09, 0x14], 9)]
  {
    var a, o := CoapOption(3, LOCALHOST, 3), CoapOption(0, [0x09, 0x14], 9);
    assert [a][1..] == [];
    assert OscorePosition([a]) == 1;
    assert Inserted([a], [0x09, 0x14], 1) == [a, o];
    assert [a, o][1..] == [o] && [o][1..] == [];
    assert Rebase([o], 3) == [CoapOption(6, [0x09, 0x14], 9)];
  }

  /** The context of the client of appendix C.1.1 before its request number 20. */
  predicate IsClient(st: State) {
    && st.sc.senderSeqNum == 20 && st.rrc.kid == [] && st.rrc.kidContext == Some([]) && st.cc.commonIv == VECTOR_IV
  }

  lemma RequestDrawn(st: State)
    requires IsClient(st)
    ensures var (value, st') := NextRequest(st);
            && value == Ok([0x09, 0x14]) && st'.sc.senderKey == st.sc.senderKey
            && st'.rrc.nonce == Some([0x46, 0x22, 0xD4, 0xDD, 0x6D, 0x94, 0x41, 0x68, 0xEE, 0xFB, 0x54, 0x98, 0x68])
            && st'.rrc.aad == Some([0x85, 0x01, 0x81, 0x0A, 0x40, 0x41, 0x14, 0x40])
  {
    NextRequestIs(st);
    NonceVectors();
    RequestVectors();
    TwentyIs();
    hide NextRequest, NonceOf, AadOf, EncStructure, OscoreValue.Value, SeqNum2Piv;
  }

  lemma TwentyIs()
    ensures SeqNum2Piv(20) == Ok([0x14])
  {
    assert LittleEndian(20) == [20] + LittleEndian(0) == [0x14];
  }

  /**
   * The bytes of the protected request, up to the ciphertext, which is the seal of code GET and
   * Uri-Path under the nonce and Enc_structure above.
   */
  lemma RequestSent(cr: Crypto, st: State)
    requires AeadCorrect(cr) && IsClient(st)
    ensures var q := ProtectBytes(cr, st, REQUEST_BYTES).0;
            var ciphertext :=
              cr.seal(st.sc.senderKey, [0x46, 0x22, 0xD4, 0xDD, 0x6D, 0x94, 0x41, 0x68, 0xEE, 0xFB, 0x54, 0x98, 0x68],
                      [0x83, 0x68, 0x45, 0x6E, 0x63, 0x72, 0x79, 0x70, 0x74, 0x30, 0x40,
                       0x48, 0x85, 0x01, 0x81, 0x0A, 0x40, 0x41, 0x14, 0x40],
                      [0x01, 0xB3, 0x74, 0x76, 0x31]);
            && q.Ok?
            && Serialize(q.value)
               == [0x44, 0x02, 0x5D, 0x1F, 0x00, 0x00, 0x39, 0x74,
                   0x39, 0x6C, 0x6F, 0x63, 0x61, 0x6C, 0x68, 0x6F, 0x73, 0x74, 0x62, 0x09, 0x14, 0xFF] + ciphertext
  {
    hide *;
    RequestRead();
    RequestPlaintext();
    RequestDrawn(st);
    RequestOuter();
    RequestVectors();
    ManyFit();
    var st', us := NextRequest(st).1, [CoapOption(3, LOCALHOST, 3)];
    ProtectsRead(cr, st, REQUEST_BYTES, REQUEST);
    ProtectsGet(cr, st);
    FinishedPacket(cr, st', REQUEST, us, [0x09, 0x14], [0x01, 0xB3, 0x74, 0x76, 0x31]);
    var q := Finish(cr, st', REQUEST, us, [0x09, 0x14], [0x01, 0xB3, 0x74, 0x76, 0x31]).value;
    SealedIs(cr, st');
    SentBytes(q);
  }

  lemma ManyFit()
    ensures MAX_OPTION_COUNT == 20
  {
  }

  lemma ProtectsRead(cr: Crypto, st: State, buf: bytes, p: Packet)
    requires Parse(buf) == Ok(p)
    ensures ProtectBytes(cr, st, buf) == ProtectPacket(cr, st, p)
  {
    hide Parse, ProtectPacket;
  }

  lemma ProtectsGet(cr: Crypto, st: State)
    requires PlaintextOf(REQUEST).Ok? && NextRequest(st).0.Ok?
    ensures ProtectPacket(cr, st, REQUEST).0
         == Finish(cr, NextRequest(st).1, REQUEST, Split(REQUEST.options, 0, 0, 0).u, NextRequest(st).0.value,
                   PlaintextOf(REQUEST).value)
    ensures IsRequest(REQUEST.code)
  {
    ProtectsRequest(cr, st, REQUEST);
    hide PlaintextOf, NextRequest, Finish, Split, ProtectPacket;
  }

  lemma SealedIs(cr: Crypto, st: State)
    requires st.rrc.nonce.Some? && st.rrc.aad.Some?
    ensures Sealed(cr, st, [0x01, 0xB3, 0x74, 0x76, 0x31])
         == cr.seal(st.sc.senderKey, st.rrc.nonce.value, EncStructure(st.rrc.aad.value), [0x01, 0xB3, 0x74, 0x76, 0x31])
  {
    hide EncStructure;
  }

  lemma SentBytes(q: Packet)
    requires q == REQUEST.(code := q.code, options := q.options, payload := q.payload)
    requires q.options == [CoapOption(3, LOCALHOST, 3), CoapOption(6, [0x09, 0x14], 9)] && q.payload != []
    requires q.code == if IsRequest(REQUEST.code) then POST else CHANGED
    ensures Serialize(q)
         == [0x44, 0x02, 0x5D, 0x1F, 0x00, 0x00, 0x39, 0x74,
             0x39, 0x6C, 0x6F, 0x63, 0x61, 0x6C, 0x68, 0x6F, 0x73, 0x74, 0x62, 0x09, 0x14, 0xFF] + q.payload
  {
    SentOptions();
    SentHeader(q);
    hide EncodeOptions, HeaderPart;
    var front := [0x44, 0x02, 0x5D, 0x1F, 0x00, 0x00, 0x39, 0x74,
                  0x39, 0x6C, 0x6F, 0x63, 0x61, 0x6C, 0x68, 0x6F, 0x73, 0x74, 0x62, 0x09, 0x14];
    assert HeaderPart(q) + EncodeOptions(q.options) == front;
    AppendAssoc(front, [0xFF], q.payload);
  }

  lemma SentOptions()
    ensures EncodeOptions([CoapOption(3, LOCALHOST, 3), CoapOption(6, [0x09, 0x14], 9)])
         == [0x39, 0x6C, 0x6F, 0x63, 0x61, 0x6C, 0x68, 0x6F, 0x73, 0x74, 0x62, 0x09, 0x14]
  {
    hide EncodeOptions, EncodeOption;
    TwoOptions(CoapOption(3, LOCALHOST, 3), CoapOption(6, [0x09, 0x14], 9));
    ShortOption(CoapOption(3, LOCALHOST, 3));
    ShortOption(CoapOption(6, [0x09, 0x14], 9));
  }

  lemma SentHeader(q: Packet)
    requires q == REQUEST.(code := q.code, options := q.options, payload := q.payload)
    requires q.code == if IsRequest(REQUEST.code) then POST else CHANGED
    ensures HeaderPart(q) == [0x44, 0x02, 0x5D, 0x1F, 0x00, 0x00, 0x39, 0x74]
  {
  }
}
