/** From OSCORE back to CoAP (modules/oscore/src/oscore2coap.c). */
module Unprotect {
  import opened Bytes
  import opened OscoreErrors
  import opened Coap
  import opened Options
  import opened Hkdf
  import opened Nonce
  import opened OscoreValue
  import opened Aad
  import opened Context
  import opened Protect

  const MAX_E_OPTIONS: nat := 10
  const AUTH_TAG_LEN: nat := 8

  /** Code, encrypted options and payload found in a plaintext. */
  datatype Decrypted = Decrypted(code: byte, es: seq<CoapOption>, payload: bytes)

  function ParsePlaintext(plaintext: bytes): Result<Decrypted> {
    if plaintext == [] then Err(Undefined)
    else
      var rest := plaintext[1..];
      var n := MarkerIndex(rest);
      var es :- ParseOptions(SubtractLength, rest, n, 0, MAX_E_OPTIONS);
      Ok(Decrypted(plaintext[0], es, if n == |rest| then [] else rest[n + 1..]))
  }

  method SplitPlaintext(plaintext: bytes) returns (r: Result<Decrypted>)
    ensures r == ParsePlaintext(plaintext)
  {
    hide ParseOptions;
    if |plaintext| == 0 {
      return Err(Undefined);
    }
    var rest := plaintext[1..];
    var optionsLen := OptionsLength(rest);
    var es := Buf2Options(SubtractLength, rest, optionsLen, MAX_E_OPTIONS);
    if es.Err? {
      return Err(es.error);
    }
    var payload := if optionsLen == |rest| then [] else rest[optionsLen + 1..];
    r := Ok(Decrypted(plaintext[0], es.value, payload));
  }

  function Decrypt(cr: Crypto, st: State, ciphertext: bytes): Result<bytes> {
    if |ciphertext| < AUTH_TAG_LEN || st.rrc.nonce.None? || st.rrc.aad.None? then Err(Undefined)
    else
      match cr.open(st.rc.recipientKey, st.rrc.nonce.value, EncStructure(st.rrc.aad.value), ciphertext)
      case None => Err(AuthenticationError)
      case Some(plaintext) => Ok(plaintext)
  }

  /** A request must carry the recipient id as its KID; it then updates the context. */
  function AcceptRequest(hmac: Hmac, st: State, fields: Compressed): (Result<()>, State) {
    if fields.Unset? then (Err(Undefined), st)
    else if st.rc.recipientId != fields.kid then (Err(KidRecipientIdMismatch), st)
    else UpdateServer(hmac, st, fields.piv, fields.kidContext)
  }

  /** The CoAP packet for a decrypted OSCORE packet. */
  function Reassemble(p: Packet, plaintext: bytes): Result<Packet>
    requires exists o <- p.options :: o.number == OSCORE
  {
    var d :- ParsePlaintext(plaintext);
    var options :- Merge(p.options, d.es);
    Ok(p.(code := d.code, options := options, payload := d.payload))
  }

  /** Only a request is checked for its KID and updates the context. */
  function Accept(hmac: Hmac, st: State, code: byte, fields: Compressed): (Result<()>, State) {
    if IsRequest(code) then AcceptRequest(hmac, st, fields) else (Ok(()), st)
  }

  function Open(cr: Crypto, st: State, p: Packet): Result<Packet>
    requires exists o <- p.options :: o.number == OSCORE
  {
    var plaintext :- Decrypt(cr, st, p.payload);
    Reassemble(p, plaintext)
  }

  lemma {:induction false} FoundMeansPresent(os: seq<CoapOption>, found: Option<Compressed>)
    ensures var r := FindOscore(os, found);
            found.None? && r.Ok? && r.value.Some? ==> exists o <- os :: o.number == OSCORE
  {
    hide ParseValue;
    if os != [] {
      assert os[0] in os;
      if os[0].number != OSCORE {
        FoundMeansPresent(os[1..], found);
      }
    }
  }

  /** The CoAP packet for an OSCORE packet, None for a packet that is not one; and the context afterwards. */
  function UnprotectPacket(cr: Crypto, st: State, p: Packet): (Result<Option<Packet>>, State) {
    var found := FindOscore(p.options, None);
    if found.Err? then (Err(found.error), st)
    else if found.value.None? then (Ok(None), st)
    else
      var accepted := Accept(cr.hmac, st, p.code, found.value.value);
      FoundMeansPresent(p.options, None);
      if accepted.0.Err? then (Err(accepted.0.error), accepted.1)
      else
        match Open(cr, accepted.1, p)
        case Err(e) => (Err(e), accepted.1)
        case Ok(q) => (Ok(Some(q)), accepted.1)
  }

  function UnprotectBytes(cr: Crypto, st: State, buf: bytes): (Result<Option<Packet>>, State) {
    match Parse(buf)
    case Err(e) => (Err(e), st)
    case Ok(p) => UnprotectPacket(cr, st, p)
  }

  method OpenPacket(cr: Crypto, c: SecurityContext, p: Packet) returns (r: Result<Packet>)
    requires exists o <- p.options :: o.number == OSCORE
    ensures r == Open(cr, c.Current(), p)
  {
    hide EncStructure, ParsePlaintext, Merge;
    if |p.payload| < AUTH_TAG_LEN || c.rrc.nonce.None? || c.rrc.aad.None? {
      return Err(Undefined);
    }
    var plaintext := cr.open(c.rc.recipientKey, c.rrc.nonce.value, EncStructure(c.rrc.aad.value), p.payload);
    if plaintext.None? {
      return Err(AuthenticationError);
    }
    var d := SplitPlaintext(plaintext.value);
    if d.Err? {
      return Err(d.error);
    }
    var options := ReorderOptions(p.options, d.value.es);
    if options.Err? {
      return Err(options.error);
    }
    r := Ok(p.(code := d.value.code, options := options.value, payload := d.value.payload));
  }

  /** Compares two byte arrays. */
  method ArrayEquals(left: bytes, right: bytes) returns (equal: bool)
    ensures equal <==> left == right
  {
    if |left| != |right| {
      return false;
    }
    for i := 0 to |left|
      invariant left[..i] == right[..i]
    {
      if left[i] != right[i] {
        return false;
      }
    }
    assert left == left[..|left|] && right == right[..|right|];
    equal := true;
  }

  /** Converts the OSCORE packet in `buf` into a CoAP packet written to `out`; lengths are 16-bit. */
  method Oscore2Coap(cr: Crypto, c: SecurityContext, buf: bytes, out: array<byte>)
      returns (r: Result<nat>, oscore: bool)
    requires |buf| < 0x1_0000 && out.Length < 0x1_0000
    modifies c, out
    ensures c.Current() == UnprotectBytes(cr, old(c.Current()), buf).1
    ensures match UnprotectBytes(cr, old(c.Current()), buf).0
            case Err(e) => r == Err(e) && out[..] == old(out[..])
            case Ok(None) => r == Ok(0) && !oscore && out[..] == old(out[..])
            case Ok(Some(p)) => oscore && match WritePacket(p, out.Length) {
              case Err(e) => r == Err(e)
              case Ok(b) => r == Ok(|b|) && out[..|b|] == b
            }
  {
    hide FindOscore, UpdateServer, Open, IsRequest, Parse, WritePacket, Serialize;
    oscore := false;
    var parsed := Buf2Coap(buf);
    if parsed.Err? {
      return Err(parsed.error), oscore;
    }
    var p := parsed.value;
    var found := ParseOscoreOption(p.options);
    if found.Err? {
      return Err(found.error), oscore;
    }
    if found.value.None? {
      return Ok(0), oscore;
    }
    oscore := true;
    FoundMeansPresent(p.options, None);
    if IsRequest(p.code) {
      var fields := found.value.value;
      if fields.Unset? {
        return Err(Undefined), oscore;
      }
      var same := ArrayEquals(c.rc.recipientId, fields.kid);
      if !same {
        return Err(KidRecipientIdMismatch), oscore;
      }
      var updated := c.Update(cr.hmac, SERVER, p.options, fields.piv, fields.kidContext);
      if updated.Err? {
        return Err(updated.error), oscore;
      }
    }
    var q := OpenPacket(cr, c, p);
    if q.Err? {
      return Err(q.error), oscore;
    }
    r := Coap2Buf(q.value, out);
  }
}
