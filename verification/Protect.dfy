/** From CoAP to OSCORE (modules/oscore/src/coap2oscore.c). */
module Protect {
  import opened Bytes
  import opened OscoreErrors
  import opened Coap
  import opened Options
  import opened Hkdf
  import opened Nonce
  import opened OscoreValue
  import opened Aad
  import opened Context

  const POST: byte := 0x02
  const CHANGED: byte := 0x44

  /** Codes of class 0 are requests. */
  predicate IsRequest(code: byte) { code / 0x20 == 0 }

  // ----- the plaintext -----

  /** Code, encrypted options, and the payload behind its marker. */
  function PlaintextBytes(code: byte, es: seq<CoapOption>, payload: bytes): bytes {
    [code] + EncodeOptions(es) + PayloadPart(payload)
  }

  /** The length reserved for the plaintext, from the predicted length of the options. */
  function PlaintextLen(eLen: uint16, payload: bytes): uint16 {
    U16(1 + eLen + if payload == [] then 0 else 1 + |payload|)
  }

  /**
   * What filling a buffer of `len` bytes gives; a plaintext shorter than the buffer would
   * leave bytes of it unwritten.
   */
  function Plaintext(code: byte, es: seq<CoapOption>, payload: bytes, len: uint16): (r: Result<bytes>)
    ensures r.Ok? <==> |EncodeOptions(es)| <= ScratchLen(es) && |PlaintextBytes(code, es, payload)| == len
    ensures r.Ok? ==> r.value == PlaintextBytes(code, es, payload)
  {
    var all := PlaintextBytes(code, es, payload);
    if len == 0 then Err(Undefined)
    else
      var encoded :- WriteOptions(es, ScratchLen(es));
      var pos := 1 + |encoded|;
      if len < pos then Err(DestBufferTooSmall)
      else if payload != [] && len == pos then Err(Undefined)
      else if len < |all| then Err(DestBufferTooSmall)
      else if |all| < len then Err(Undefined)
      else Ok(all)
  }

  /** Fills the plaintext buffer. */
  method SetupPlaintext(code: byte, es: seq<CoapOption>, payload: bytes, plaintext: array<byte>) returns (r: Result<()>)
    requires plaintext.Length < 0x1_0000
    modifies plaintext
    ensures r.Ok? <==> Plaintext(code, es, payload, plaintext.Length).Ok?
    ensures r.Ok? ==> plaintext[..] == PlaintextBytes(code, es, payload)
    ensures r.Err? ==> Plaintext(code, es, payload, plaintext.Length) == Err(r.error)
  {
    hide EncodeOptions, WriteOptions, ScratchLen, PayloadPart;
    if plaintext.Length == 0 {
      return Err(Undefined);
    }
    plaintext[0] := code;
    var scratchLen := ScratchLength(es);
    var scratch := new byte[scratchLen](_ => 0);
    var written := OptionsIntoByteString(es, scratch);
    if written.Err? {
      return Err(written.error);
    }
    if plaintext.Length - 1 < written.value {
      return Err(DestBufferTooSmall);
    }
    CopyInto(plaintext, 1, scratch[..written.value]);
    var pos := 1 + written.value;
    assert plaintext[..pos] == [code] + EncodeOptions(es);
    PayloadPartLen(payload);
    var end := WritePayload(payload, plaintext, pos);
    if end.Err? {
      return Err(end.error);
    }
    if end.value < plaintext.Length {
      return Err(Undefined);
    }
    assert plaintext[..] == plaintext[..end.value];
    r := Ok(());
  }

  lemma PayloadPartLen(payload: bytes)
    ensures |PayloadPart(payload)| == if payload == [] then 0 else 1 + |payload|
  {
  }

  // ----- the OSCORE option of a request -----

  /**
   * Takes the next sequence number, which is used up whatever follows, and renews Partial IV,
   * nonce and AAD; gives the value of the OSCORE option.
   */
  function NextRequest(st: State): (Result<Value>, State) {
    var st1 := st.(sc := st.sc.(senderSeqNum := U64(st.sc.senderSeqNum + 1)));
    match SeqNum2Piv(st.sc.senderSeqNum)
    case Err(e) => (Err(e), st1)
    case Ok(piv) =>
      var st2 := WithNonceAad(st1.(rrc := st1.rrc.(piv := Some(piv)))).1;
      if st.rrc.kidContext.None? then (Err(Undefined), st2)
      else
        ValueFits(piv, st.rrc.kid, st.rrc.kidContext.value);
        (Ok(OscoreValue.Value(piv, st.rrc.kid, st.rrc.kidContext.value)), st2)
  }

  // ----- the OSCORE packet -----

  /** The payload a packet takes: its length is stored in a uint16_t. */
  function PayloadOf(ciphertext: bytes): (r: bytes)
    ensures |r| == |ciphertext| % 0x1_0000
  {
    ciphertext[..U16(|ciphertext|)]
  }

  /** Header and token of `p`, a dummy code, the outer options with the OSCORE option, the ciphertext. */
  function OscorePacket(p: Packet, us: seq<CoapOption>, value: Value, ciphertext: bytes): Result<Packet> {
    if |us| + 1 > MAX_OPTION_COUNT then Err(Undefined)
    else Ok(Packet(p.ver, p.typ, if IsRequest(p.code) then POST else CHANGED, p.mid, p.token,
                   WithOscore(us, value), PayloadOf(ciphertext)))
  }

  function Encrypt(cr: Crypto, st: State, plaintext: bytes): Result<bytes> {
    if st.rrc.nonce.None? || st.rrc.aad.None? then Err(Undefined)
    else Ok(cr.seal(st.sc.senderKey, st.rrc.nonce.value, EncStructure(st.rrc.aad.value), plaintext))
  }

  /** Only a request draws a sequence number and has a value in its OSCORE option. */
  function Draw(st: State, code: byte): (Result<Value>, State) {
    if IsRequest(code) then NextRequest(st) else (Ok([]), st)
  }

  function PlaintextOf(p: Packet): Result<bytes> {
    var parts := Split(p.options, 0, 0, 0);
    Plaintext(p.code, parts.e, p.payload, PlaintextLen(parts.eLen, p.payload))
  }

  /** The OSCORE packet for a CoAP packet, and the context afterwards. */
  function ProtectPacket(cr: Crypto, st: State, p: Packet): (Result<Packet>, State) {
    var plaintext, drawn := PlaintextOf(p), Draw(st, p.code);
    if plaintext.Err? then (Err(plaintext.error), st)
    else if drawn.0.Err? then (Err(drawn.0.error), drawn.1)
    else (Finish(cr, drawn.1, p, Split(p.options, 0, 0, 0).u, drawn.0.value, plaintext.value), drawn.1)
  }

  function Finish(cr: Crypto, st: State, p: Packet, us: seq<CoapOption>, value: Value,
      plaintext: bytes): Result<Packet> {
    var ciphertext :- Encrypt(cr, st, plaintext);
    OscorePacket(p, us, value, ciphertext)
  }

  function ProtectBytes(cr: Crypto, st: State, buf: bytes): (Result<Packet>, State) {
    match Parse(buf)
    case Err(e) => (Err(e), st)
    case Ok(p) => ProtectPacket(cr, st, p)
  }

  /** Draws the sequence number, updates the context, and fills the option value. */
  method DrawRequest(cr: Crypto, c: SecurityContext, options: seq<CoapOption>) returns (r: Result<Value>)
    modifies c
    ensures (r, c.Current()) == NextRequest(old(c.Current()))
  {
    hide SeqNum2Piv, NonceOf, AadOf, OscoreValue.Value, U64;
    var ssn: int := c.sc.senderSeqNum;
    c.sc := c.sc.(senderSeqNum := U64(ssn + 1));
    var piv := SenderSeqNum2Piv(ssn);
    if piv.Err? {
      return Err(piv.error);
    }
    c.rrc := c.rrc.(piv := Some(piv.value));
    var updated := c.Update(cr.hmac, CLIENT, options, None, []);
    if c.rrc.kidContext.None? {
      return Err(Undefined);
    }
    var kidContext := c.rrc.kidContext.value;
    ValueFits(piv.value, c.rrc.kid, kidContext);
    var value := new byte[ValueLen(piv.value, c.rrc.kid, kidContext)](_ => 0);
    GenerateValue(piv.value, c.rrc.kid, kidContext, value);
    r := Ok(value[..]);
  }

  /** Converts the CoAP packet in `buf` into an OSCORE packet written to `out`; lengths are 16-bit. */
  method Coap2Oscore(cr: Crypto, c: SecurityContext, buf: bytes, out: array<byte>) returns (r: Result<nat>)
    requires |buf| < 0x1_0000 && out.Length < 0x1_0000
    modifies c, out
    ensures c.Current() == ProtectBytes(cr, old(c.Current()), buf).1
    ensures match ProtectBytes(cr, old(c.Current()), buf).0
            case Err(e) => r == Err(e) && out[..] == old(out[..])
            case Ok(p) => match WritePacket(p, out.Length) {
              case Err(e) => r == Err(e)
              case Ok(b) => r == Ok(|b|) && out[..|b|] == b
            }
  {
    hide Split, Plaintext, PlaintextLen, NextRequest, Finish, IsRequest, Parse, WritePacket;
    var parsed := Buf2Coap(buf);
    if parsed.Err? {
      return Err(parsed.error);
    }
    var p := parsed.value;
    var parts := ExtractEU(p.options);
    var plaintext := new byte[PlaintextLen(parts.eLen, p.payload)](_ => 0);
    var ready := SetupPlaintext(p.code, parts.e, p.payload, plaintext);
    if ready.Err? {
      return Err(ready.error);
    }
    var value := Ok([]);
    if IsRequest(p.code) {
      value := DrawRequest(cr, c, p.options);
      if value.Err? {
        return Err(value.error);
      }
    }
    r := SendPacket(cr, c, p, parts.u, value.value, plaintext[..], out);
  }

  /** Encrypts, builds the OSCORE packet, and writes it. */
  method SendPacket(cr: Crypto, c: SecurityContext, p: Packet, us: seq<CoapOption>, value: Value, plaintext: bytes,
      out: array<byte>)
      returns (r: Result<nat>)
    requires out.Length < 0x1_0000
    modifies out
    ensures match Finish(cr, c.Current(), p, us, value, plaintext)
            case Err(e) => r == Err(e) && out[..] == old(out[..])
            case Ok(q) => match WritePacket(q, out.Length) {
              case Err(e) => r == Err(e)
              case Ok(b) => r == Ok(|b|) && out[..|b|] == b
            }
  {
    hide EncStructure, WithOscore, WritePacket, IsRequest, Serialize;
    if c.rrc.nonce.None? || c.rrc.aad.None? {
      return Err(Undefined);
    }
    var ciphertext := cr.seal(c.sc.senderKey, c.rrc.nonce.value, EncStructure(c.rrc.aad.value), plaintext);
    if |us| + 1 > MAX_OPTION_COUNT {
      return Err(Undefined);
    }
    var options := InsertOscore(us, value);
    var code := if IsRequest(p.code) then POST else CHANGED;
    var payloadLen := U16(|ciphertext|);
    var q := Packet(p.ver, p.typ, code, p.mid, p.token, options, ciphertext[..payloadLen]);
    r := Coap2Buf(q, out);
  }
}
