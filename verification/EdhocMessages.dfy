/**
 * The messages of EDHOC: msg1_encode and msg2_parse (initiator.c), msg1_parse, msg2_encode and
 * msg3_parse (responder.c), message 3 as initiator.c writes it, and error messages (err_msg.c).
 */
module EdhocMessages {
  import opened Bytes
  import opened Cbor
  import opened Wire
  import opened Edhoc
  import opened EdhocPlaintext

  const MSG_1_DEFAULT_SIZE: nat := 256
  const MSG_2_DEFAULT_SIZE: nat := 256
  const MSG_3_DEFAULT_SIZE: nat := 256
  const CIPHERTEXT2_DEFAULT_SIZE: nat := 256
  const CIPHERTEXT3_DEFAULT_SIZE: nat := 256
  const C_R_DEFAULT_SIZE: nat := 1
  const C_I_DEFAULT_SIZE: nat := 8
  const G_X_DEFAULT_SIZE: nat := 32
  const SUITES_I_SIZE: nat := 5
  const ERR_MSG_DEFAULT_SIZE: nat := 64

  /** Receiving into a buffer of `cap` bytes: a longer message does not fit. */
  function Rx(msg: bytes, cap: nat): Result<bytes> {
    if |msg| > cap then Err(MessageBufferTooSmall) else Ok(msg)
  }

  // ----- message 1 -----

  /** What message 1 carries, without auxiliary data. */
  datatype Offer = Offer(methodCorr: nat, suites: ShortString, gX: ShortString, cI: ShortString)

  /** One suite is sent as an integer, any other number of them as an array. */
  function SuiteItems(suites: ShortString): seq<CborItem> {
    if |suites| == 1 then [Int(suites[0])] else [ArrayHead(|suites|)] + Ints(suites)
  }

  function Ints(b: bytes): (items: seq<CborItem>)
    ensures |items| == |b|
  {
    seq(|b|, i requires 0 <= i < |b| => Int(b[i]))
  }

  function Msg1Items(o: Offer): seq<CborItem>
    requires o.methodCorr < 0x8000_0000
  {
    [Int(o.methodCorr)] + SuiteItems(o.suites) + [ByteString(o.gX), BstrIdentifier(o.cI)]
  }

  function Msg1(o: Offer): Result<bytes>
    requires o.methodCorr < 0x8000_0000
  {
    var msg := EncodeAll(Msg1Items(o));
    if |msg| > MSG_1_DEFAULT_SIZE then Err(CborEncodingError) else Ok(msg)
  }

  /** Puts item after item and stops at the first suite that does not fit. */
  method Msg1Encode(o: Offer) returns (r: Result<bytes>)
    requires o.methodCorr < 0x8000_0000
    ensures r == Msg1(o)
  {
    hide EncodeAll, Encode, BstrIdentifier, SuiteItems;
    var buffer := new byte[MSG_1_DEFAULT_SIZE](_ => 0);
    var enc := new Encoder(buffer);
    var fits := enc.Put(Int(o.methodCorr));
    assert enc.items == [Int(o.methodCorr)];
    fits := PutSuites(enc, o.suites);
    if !fits {
      PrefixTooLong([Int(o.methodCorr)] + SuiteItems(o.suites), [ByteString(o.gX), BstrIdentifier(o.cI)]);
      return Err(CborEncodingError);
    }
    fits := enc.Put(ByteString(o.gX));
    fits := enc.Put(BstrIdentifier(o.cI));
    assert enc.items == Msg1Items(o);
    if fits {
      r := Ok(buffer[..enc.needed]);
    } else {
      r := Err(CborEncodingError);
    }
  }

  /** The suites, as an integer or as an array written in a loop. */
  method PutSuites(enc: Encoder, suites: ShortString) returns (fits: bool)
    requires enc.Valid()
    modifies enc, enc.buffer
    ensures fits <==> |EncodeAll(old(enc.items) + SuiteItems(suites))| <= enc.buffer.Length
    ensures fits ==> enc.Valid() && enc.items == old(enc.items) + SuiteItems(suites)
  {
    hide EncodeAll, Encode;
    if |suites| == 1 {
      assert SuiteItems(suites) == [Int(suites[0])];
      fits := enc.Put(Int(suites[0]));
      return;
    }
    fits := enc.Put(ArrayHead(|suites|));
    ghost var before := enc.items;
    var i := 0;
    while i < |suites| && fits
      invariant 0 <= i <= |suites|
      invariant enc.Valid() && enc.items == before + Ints(suites)[..i]
      invariant fits <==> |EncodeAll(enc.items)| <= enc.buffer.Length
    {
      fits := enc.Put(Int(suites[i]));
      i := i + 1;
      assert before + Ints(suites)[..i] == before + Ints(suites)[..i - 1] + [Int(suites[i - 1])];
    }
    assert old(enc.items) + SuiteItems(suites) == before + Ints(suites);
    assert before + Ints(suites) == enc.items + Ints(suites)[i..];
    PrefixTooLong(enc.items, Ints(suites)[i..]);
    assert fits ==> Ints(suites)[..i] == Ints(suites);
  }

  /** What does not fit does not fit when more follows. */
  lemma PrefixTooLong(a: seq<CborItem>, b: seq<CborItem>)
    ensures |EncodeAll(a + b)| >= |EncodeAll(a)|
  {
    hide EncodeAll;
    EncodeAllAppend(a, b);
  }

  /** What the responder takes from message 1. */
  datatype Msg1Parts = Msg1Parts(methodCorr: byte, suites: bytes, gX: bytes, cI: ShortString, ad1: bytes)

  function Msg1Parse(msg1: bytes, adCap: nat): (r: Result<Msg1Parts>)
    ensures r.Ok? ==> |r.value.cI| <= C_I_DEFAULT_SIZE && r.value.suites != []
  {
    var methodCorr :- Decode(msg1, |msg1|);
    if methodCorr.kind != IntKind then Err(Undefined)
    else
      var rest1 := msg1[methodCorr.used..];
      var suites :- Decode(rest1, SUITES_I_SIZE);
      var rest2 := rest1[suites.used..];
      var gX :- Decode(rest2, G_X_DEFAULT_SIZE);
      var rest3 := rest2[gX.used..];
      var cI :- Decode(rest3, C_I_DEFAULT_SIZE);
      var rest4 := rest3[cI.used..];
      var ad1 :- if rest4 == [] then Ok([]) else Auxiliary(rest4, adCap);
      if suites.data == [] || cI.kind == MapKind then Err(Undefined)
      else Ok(Msg1Parts(U8(methodCorr.number), suites.data, gX.data, IdentifierValue(cI.data), ad1))
  }

  function Auxiliary(b: bytes, cap: nat): Result<bytes> {
    var ad :- Decode(b, cap);
    Ok(ad.data)
  }

  // ----- message 2 -----

  function Msg2Items(corr: byte, cI: ShortString, gY: ShortString, cR: CborItem,
      ciphertext2: ShortString): seq<CborItem> {
    (if corr == 1 || corr == 3 then [] else [BstrIdentifier(cI)])
        + [ByteString(Trunc8(gY)), cR, ByteString(ciphertext2)]
  }

  /** A C_R that is not one byte long is written with the length of C_I. */
  function Msg2(corr: byte, cI: ShortString, gY: ShortString, cR: ShortString,
      ciphertext2: ShortString): Result<bytes> {
    if |cR| % 0x100 == 1 then
      EncodeInto(Msg2Items(corr, cI, gY, Int(cR[0] as int - 24), ciphertext2), MSG_2_DEFAULT_SIZE)
    else if |cI| % 0x100 > |cR| then Err(Undefined)
    else
      EncodeInto(Msg2Items(corr, cI, gY, ByteString(cR[..|cI| % 0x100]), ciphertext2), MSG_2_DEFAULT_SIZE)
  }

  method Msg2Encode(corr: byte, cI: ShortString, gY: ShortString, cR: ShortString, ciphertext2: ShortString)
    returns (r: Result<bytes>)
    ensures r == Msg2(corr, cI, gY, cR, ciphertext2)
  {
    hide EncodeInto, Trunc8, BstrIdentifier;
    var items: seq<CborItem> := [];
    if corr != 1 && corr != 3 {
      items := [BstrIdentifier(cI)];
    }
    items := items + [ByteString(Trunc8(gY))];
    var identifier: CborItem;
    if |cR| % 0x100 == 1 {
      identifier := Int(cR[0] as int - 24);
    } else {
      if |cI| % 0x100 > |cR| {
        return Err(Undefined);
      }
      identifier := ByteString(cR[..|cI| % 0x100]);
    }
    items := items + [identifier, ByteString(ciphertext2)];
    assert items == Msg2Items(corr, cI, gY, identifier, ciphertext2);
    r := EncodeItems(items, MSG_2_DEFAULT_SIZE);
  }

  datatype Msg2Parts = Msg2Parts(cI: ShortString, gY: ShortString, cR: ShortString, ciphertext2: ShortString)

  /** C_I as the initiator finds it in message 2, and the rest; it is not sent when corr is 1 or 3. */
  function Msg2ParseCI(corr: byte, cILen: nat, msg2: bytes): (r: Result<(bytes, bytes)>)
    ensures r.Ok? ==> |r.value.0| <= if cILen == 0 then 1 else cILen
  {
    if corr == 1 || corr == 3 then Ok(([], msg2))
    else
      var cI :- Decode(msg2, cILen);
      if cI.kind == MapKind || (cI.kind == IntKind && cILen < 4) then Err(Undefined)
      else Ok((cI.data, msg2[cI.used..]))
  }

  function Msg2Parse(corr: byte, cILen: nat, gXLen: nat, msg2: bytes): (r: Result<Msg2Parts>)
    requires cILen < 0x1_0000_0000 && gXLen < 0x1_0000_0000
    ensures r.Ok? ==> |r.value.gY| == gXLen && |r.value.cR| <= 1 && |r.value.ciphertext2| <= CIPHERTEXT2_DEFAULT_SIZE
  {
    var (cI, rest1) :- Msg2ParseCI(corr, cILen, msg2);
    var gY :- Decode(rest1, gXLen);
    if gY.kind == TextKind then Err(ErrorMessageReceived)
    else
      var rest2 := rest1[gY.used..];
      var cR :- Decode(rest2, C_R_DEFAULT_SIZE);
      if cR.kind == MapKind && cR.number > 1 then Err(CRLengthTooSmall)
      else
        var rest3 := rest2[cR.used..];
        var ciphertext2 :- Decode(rest3, CIPHERTEXT2_DEFAULT_SIZE);
        if gY.kind != StringKind || |gY.data| != gXLen || cR.kind == MapKind then Err(Undefined)
        else Ok(Msg2Parts(cI, gY.data, IdentifierValue(cR.data), ciphertext2.data))
  }

  // ----- message 3 -----

  /** C_R, whose encoding must fit one byte, and the ciphertext. */
  function Msg3(cR: bytes, ciphertext3: bytes): Result<bytes> {
    var encoded := Encode(ByteString(Trunc8(ciphertext3)));
    if |cR| == 1 then
      var id :- EncodeInto([Int(cR[0] as int - 24)], 1);
      Ok(id + encoded)
    else Ok(cR + encoded)
  }

  method Msg3Create(cR: bytes, ciphertext3: bytes) returns (r: Result<bytes>)
    ensures r == Msg3(cR, ciphertext3)
  {
    hide EncodeInto, Encode, Trunc8;
    var encoded := Encode(ByteString(Trunc8(ciphertext3)));
    var id := cR;
    if |cR| == 1 {
      var byte0 := EncodeItems([Int(cR[0] as int - 24)], 1);
      if byte0.Err? { return Err(byte0.error); }
      id := byte0.value;
    }
    var msg3 := new byte[|id| + |encoded|](_ => 0);
    CopyInto(msg3, 0, id);
    assert msg3[..|id|] == id;
    CopyInto(msg3, |id|, encoded);
    assert msg3[..] == id + encoded;
    r := Ok(msg3[..]);
  }

  /** Behind C_R, which is not compared to the one sent, and is not expected when corr is 2 or 3. */
  function Msg3ParseCR(corr: byte, cRLen: nat, msg3: bytes): Result<bytes> {
    if corr == 2 || corr == 3 then Ok(msg3)
    else
      var cR :- Decode(msg3, cRLen);
      if cR.kind == IntKind && cRLen != 1 && cRLen < 4 then Err(Undefined) else Ok(msg3[cR.used..])
  }

  function Msg3Parse(corr: byte, cRLen: nat, msg3: bytes): (r: Result<ShortString>)
    ensures r.Ok? ==> |r.value| <= CIPHERTEXT3_DEFAULT_SIZE
  {
    var rest :- Msg3ParseCR(corr, cRLen, msg3);
    var ciphertext3 :- Decode(rest, CIPHERTEXT3_DEFAULT_SIZE);
    if ciphertext3.kind == TextKind then Err(ErrorMessageReceived) else Ok(ciphertext3.data)
  }

  // ----- error messages -----

  datatype Role = Initiator | Responder

  predicate SendsIdentifier(role: Role, corr: byte) {
    if role.Responder? then corr == 0 || corr == 2 else corr == 0 || corr == 1
  }

  /** An error message with empty diagnostics. */
  function ErrorMessage(role: Role, corr: byte, cX: bytes, suites: bytes): Result<bytes> {
    var identifier := if SendsIdentifier(role, corr) then Trunc8(cX) else [];
    EncodeInto((if identifier == [] then [] else [ByteString(identifier)]) + [ByteString([])]
               + (if Trunc8(suites) == [] then [] else [ByteString(Trunc8(suites))]), ERR_MSG_DEFAULT_SIZE)
  }

  /** A received error message is handed to the caller, if its buffer is large enough. */
  function Reported(msg: bytes, errCap: nat): EdhocError {
    if |msg| > errCap then DestBufferTooSmall else ErrorMessageReceived
  }

  // ----- parsing with a moving position -----

  method ParseMsg1(msg1: bytes, adCap: nat) returns (r: Result<Msg1Parts>)
    ensures r == Msg1Parse(msg1, adCap)
  {
    hide Decode;
    var pos := 0;
    var methodCorr := Decode(msg1[pos..], |msg1|);
    assert msg1[0..] == msg1;
    if methodCorr.Err? { return Err(methodCorr.error); }
    if methodCorr.value.kind != IntKind { return Err(Undefined); }
    pos := Advance(msg1, pos, methodCorr.value, |msg1|);
    var suites := Decode(msg1[pos..], SUITES_I_SIZE);
    if suites.Err? { return Err(suites.error); }
    pos := Advance(msg1, pos, suites.value, SUITES_I_SIZE);
    var gX := Decode(msg1[pos..], G_X_DEFAULT_SIZE);
    if gX.Err? { return Err(gX.error); }
    pos := Advance(msg1, pos, gX.value, G_X_DEFAULT_SIZE);
    var cI := Decode(msg1[pos..], C_I_DEFAULT_SIZE);
    if cI.Err? { return Err(cI.error); }
    pos := Advance(msg1, pos, cI.value, C_I_DEFAULT_SIZE);
    var ad1: bytes := [];
    if pos < |msg1| {
      var ad := Decode(msg1[pos..], adCap);
      if ad.Err? { return Err(ad.error); }
      ad1 := ad.value.data;
    }
    if suites.value.data == [] || cI.value.kind == MapKind { return Err(Undefined); }
    r := Ok(Msg1Parts(U8(methodCorr.value.number), suites.value.data, gX.value.data, IdentifierValue(cI.value.data),
        ad1));
  }

  method ParseMsg2(corr: byte, cILen: nat, gXLen: nat, msg2: bytes) returns (r: Result<Msg2Parts>)
    requires cILen < 0x1_0000_0000 && gXLen < 0x1_0000_0000
    ensures r == Msg2Parse(corr, cILen, gXLen, msg2)
  {
    hide Decode;
    var pos := 0;
    var cI: bytes := [];
    assert msg2[0..] == msg2;
    if !(corr == 1 || corr == 3) {
      var d := Decode(msg2[pos..], cILen);
      if d.Err? { return Err(d.error); }
      if d.value.kind == MapKind || (d.value.kind == IntKind && cILen < 4) { return Err(Undefined); }
      pos := Advance(msg2, pos, d.value, cILen);
      cI := d.value.data;
    }
    var gY := Decode(msg2[pos..], gXLen);
    if gY.Err? { return Err(gY.error); }
    if gY.value.kind == TextKind { return Err(ErrorMessageReceived); }
    pos := Advance(msg2, pos, gY.value, gXLen);
    var cR := Decode(msg2[pos..], C_R_DEFAULT_SIZE);
    if cR.Err? { return Err(cR.error); }
    if cR.value.kind == MapKind && cR.value.number > 1 { return Err(CRLengthTooSmall); }
    pos := Advance(msg2, pos, cR.value, C_R_DEFAULT_SIZE);
    var ciphertext2 := Decode(msg2[pos..], CIPHERTEXT2_DEFAULT_SIZE);
    if ciphertext2.Err? { return Err(ciphertext2.error); }
    if gY.value.kind != StringKind || |gY.value.data| != gXLen || cR.value.kind == MapKind { return Err(Undefined); }
    r := Ok(Msg2Parts(cI, gY.value.data, IdentifierValue(cR.value.data), ciphertext2.value.data));
  }

  method ParseMsg3(corr: byte, cRLen: nat, msg3: bytes) returns (r: Result<ShortString>)
    ensures r == Msg3Parse(corr, cRLen, msg3)
  {
    hide Decode;
    var pos := 0;
    assert msg3[0..] == msg3;
    if corr != 2 && corr != 3 {
      var cR := Decode(msg3[pos..], cRLen);
      if cR.Err? { return Err(cR.error); }
      if cR.value.kind == IntKind && cRLen != 1 && cRLen < 4 { return Err(Undefined); }
      pos := Advance(msg3, pos, cR.value, cRLen);
    }
    var ciphertext3 := Decode(msg3[pos..], CIPHERTEXT3_DEFAULT_SIZE);
    if ciphertext3.Err? { return Err(ciphertext3.error); }
    if ciphertext3.value.kind == TextKind { return Err(ErrorMessageReceived); }
    r := Ok(ciphertext3.value.data);
  }

  /** The position behind a decoded item. */
  method Advance(b: bytes, pos: nat, d: Decoded, ghost cap: nat) returns (next: nat)
    requires pos <= |b| && Decode(b[pos..], cap) == Ok(d)
    ensures pos < next <= |b| && b[next..] == b[pos..][d.used..]
  {
    next := pos + d.used;
  }

  // ----- reading undoes writing -----

  lemma FourConcatenated(a: CborItem, b: CborItem, c: CborItem, d: CborItem)
    ensures EncodeAll([a, b, c, d]) == Encode(a) + (Encode(b) + (Encode(c) + Encode(d)))
  {
    hide Encode;
    EncodeAllCons([a, b, c, d]);
    assert [a, b, c, d][1..] == [b, c, d];
    ThreeItems([b, c, d]);
    AppendAssoc(Encode(b), Encode(c), Encode(d));
  }

  /** Message 1 with several suites is refused. */
  lemma Msg1ArrayRefused(o: Offer, adCap: nat)
    requires o.methodCorr < 0x8000_0000 && |o.suites| != 1
    ensures Msg1Parse(EncodeAll(Msg1Items(o)), adCap) == Err(UnsupportedCborType)
  {
    hide Encode, EncodeAll, Decode, BstrIdentifier, Ints;
    var items := Msg1Items(o);
    var m, a, rest := Encode(items[0]), Encode(items[1]), EncodeAll(items[2..]);
    EncodeAllCons(items);
    EncodeAllCons(items[1..]);
    assert items[1..][1..] == items[2..];
    var msg := m + (a + rest);
    DecodeInt(o.methodCorr, |msg|, a + rest);
    DecodeArray(|o.suites|, SUITES_I_SIZE, rest);
    assert msg[|m|..] == a + rest;
  }

  /** How message 1 is read, when its first two items are as they should be. */
  lemma Msg1Reading(m: bytes, s: bytes, g: bytes, c: bytes, methodCorr: Decoded, suites: Decoded,
      gX: Result<Decoded>, cI: Result<Decoded>, adCap: nat)
    requires var msg := m + (s + (g + c));
             && Decode(msg, |msg|) == Ok(methodCorr) && methodCorr.used == |m| && methodCorr.kind == IntKind
    requires Decode(s + (g + c), SUITES_I_SIZE) == Ok(suites) && suites.used == |s| && suites.data != []
    requires Decode(g + c, G_X_DEFAULT_SIZE) == gX && (gX.Ok? ==> gX.value.used == |g|)
    requires Decode(c, C_I_DEFAULT_SIZE) == cI && (cI.Ok? ==> cI.value.used == |c| && cI.value.kind != MapKind)
    ensures Msg1Parse(m + (s + (g + c)), adCap)
         == if gX.Err? then Err(gX.error) else if cI.Err? then Err(cI.error)
            else Ok(Msg1Parts(U8(methodCorr.number), suites.data, gX.value.data, IdentifierValue(cI.value.data), []))
  {
    hide Decode, IdentifierValue;
    assert (m + (s + (g + c)))[|m|..] == s + (g + c);
    assert (s + (g + c))[|s|..] == g + c;
    assert (g + c)[|g|..] == c;
    assert c[|c|..] == [];
  }

  /**
   * The responder reads message 1 as the initiator wrote it, exactly when there is a single suite
   * and the buffers suffice.
   */
  lemma Msg1RoundTrip(o: Offer, adCap: nat)
    requires o.methodCorr < 0x8000_0000 && Msg1(o).Ok?
    ensures var r := Msg1Parse(Msg1(o).value, adCap);
            && (r.Ok? <==> |o.suites| == 1 && |o.gX| <= 32 && |o.cI| <= 8)
            && (r.Ok? ==> r.value == Msg1Parts(U8(o.methodCorr), o.suites, o.gX, o.cI, []))
  {
    hide Encode, EncodeAll, Decode, IdentifierValue, Msg1Parse;
    if |o.suites| != 1 {
      Msg1ArrayRefused(o, adCap);
      return;
    }
    var m, s, g, c := Encode(Int(o.methodCorr)), Encode(Int(o.suites[0])), Encode(ByteString(o.gX)),
        Encode(BstrIdentifier(o.cI));
    var msg := m + (s + (g + c));
    assert Msg1Items(o) == [Int(o.methodCorr), Int(o.suites[0]), ByteString(o.gX), BstrIdentifier(o.cI)];
    FourConcatenated(Int(o.methodCorr), Int(o.suites[0]), ByteString(o.gX), BstrIdentifier(o.cI));
    DecodeInt(o.methodCorr, |msg|, s + (g + c));
    DecodeInt(o.suites[0], SUITES_I_SIZE, g + c);
    if |o.gX| <= G_X_DEFAULT_SIZE {
      DecodeString(o.gX, G_X_DEFAULT_SIZE, c);
    } else {
      DecodeTooLong(o.gX, G_X_DEFAULT_SIZE, c);
    }
    assert c + [] == c;
    if |o.cI| <= C_I_DEFAULT_SIZE {
      IdentifierRead(o.cI, C_I_DEFAULT_SIZE, []);
    } else {
      DecodeTooLong(o.cI, C_I_DEFAULT_SIZE, []);
    }
    assert [o.suites[0]] == o.suites;
    Msg1Reading(m, s, g, c, Decode(msg, |msg|).value, Decode(s + (g + c), SUITES_I_SIZE).value,
                Decode(g + c, G_X_DEFAULT_SIZE), Decode(c, C_I_DEFAULT_SIZE), adCap);
  }

  /** Suites in a byte string, instead of an integer or an array, are read up to five of them. */
  lemma SuitesAsString(methodCorr: nat, suites: ShortString, gX: ShortString, cI: ShortString, adCap: nat)
    requires methodCorr < 0x8000_0000 && suites != [] && |gX| <= 32 && |cI| <= 8
    ensures Msg1Parse(Encode(Int(methodCorr)) + (Encode(ByteString(suites))
                      + (Encode(ByteString(gX)) + Encode(BstrIdentifier(cI)))), adCap)
         == if |suites| <= 5 then Ok(Msg1Parts(U8(methodCorr), suites, gX, cI, []))
            else Err(CborByteStringBufferTooSmall)
  {
    hide Encode, Decode, IdentifierValue, Msg1Parse, BstrIdentifier;
    var m, s, g, c := Encode(Int(methodCorr)), Encode(ByteString(suites)), Encode(ByteString(gX)),
        Encode(BstrIdentifier(cI));
    var msg := m + (s + (g + c));
    DecodeInt(methodCorr, |msg|, s + (g + c));
    DecodeString(gX, G_X_DEFAULT_SIZE, c);
    assert c + [] == c;
    IdentifierRead(cI, C_I_DEFAULT_SIZE, []);
    if |suites| <= 5 {
      DecodeString(suites, SUITES_I_SIZE, g + c);
      Msg1Reading(m, s, g, c, Decode(msg, |msg|).value, Decode(s + (g + c), SUITES_I_SIZE).value,
                  Decode(g + c, G_X_DEFAULT_SIZE), Decode(c, C_I_DEFAULT_SIZE), adCap);
    } else {
      DecodeTooLong(suites, SUITES_I_SIZE, g + c);
      Msg1Stops(m, s + (g + c), Decode(msg, |msg|).value, adCap);
    }
  }

  /** AD_1 behind message 1 is read if it fits its buffer. */
  lemma Msg1AdRead(o: Offer, ad: ShortString, adCap: nat)
    requires o.methodCorr < 0x8000_0000 && Msg1(o).Ok? && |o.suites| == 1 && |o.gX| <= 32 && |o.cI| <= 8
    ensures Msg1Parse(Msg1(o).value + Encode(ByteString(ad)), adCap)
         == if |ad| <= adCap then Ok(Msg1Parts(U8(o.methodCorr), o.suites, o.gX, o.cI, ad))
            else Err(CborByteStringBufferTooSmall)
  {
    hide Encode, EncodeAll, Decode, IdentifierValue, Msg1Parse, BstrIdentifier;
    var m, s, g, c := Encode(Int(o.methodCorr)), Encode(Int(o.suites[0])), Encode(ByteString(o.gX)),
        Encode(BstrIdentifier(o.cI));
    var a := Encode(ByteString(ad));
    assert Msg1Items(o) == [Int(o.methodCorr), Int(o.suites[0]), ByteString(o.gX), BstrIdentifier(o.cI)];
    FourConcatenated(Int(o.methodCorr), Int(o.suites[0]), ByteString(o.gX), BstrIdentifier(o.cI));
    Regroup(m, s, g, c, a);
    var msg := m + (s + (g + (c + a)));
    DecodeInt(o.methodCorr, |msg|, s + (g + (c + a)));
    DecodeInt(o.suites[0], SUITES_I_SIZE, g + (c + a));
    DecodeString(o.gX, G_X_DEFAULT_SIZE, c + a);
    IdentifierRead(o.cI, C_I_DEFAULT_SIZE, a);
    assert a + [] == a && [o.suites[0]] == o.suites;
    if |ad| <= adCap {
      DecodeString(ad, adCap, []);
    } else {
      DecodeTooLong(ad, adCap, []);
    }
    Msg1ReadingWithAd(m, s, g, c, a, Decode(msg, |msg|).value, Decode(s + (g + (c + a)), SUITES_I_SIZE).value,
                      Decode(g + (c + a), G_X_DEFAULT_SIZE).value, Decode(c + a, C_I_DEFAULT_SIZE).value, adCap);
  }

  lemma Regroup(m: bytes, s: bytes, g: bytes, c: bytes, a: bytes)
    ensures m + (s + (g + c)) + a == m + (s + (g + (c + a)))
  {
  }

  lemma Msg1ReadingWithAd(m: bytes, s: bytes, g: bytes, c: bytes, a: bytes, methodCorr: Decoded, suites: Decoded,
      gX: Decoded, cI: Decoded, adCap: nat)
    requires var msg := m + (s + (g + (c + a)));
             Decode(msg, |msg|) == Ok(methodCorr) && methodCorr.used == |m| && methodCorr.kind == IntKind
    requires Decode(s + (g + (c + a)), SUITES_I_SIZE) == Ok(suites) && suites.used == |s| && suites.data != []
    requires Decode(g + (c + a), G_X_DEFAULT_SIZE) == Ok(gX) && gX.used == |g|
    requires Decode(c + a, C_I_DEFAULT_SIZE) == Ok(cI) && cI.used == |c| && cI.kind != MapKind && a != []
    ensures Msg1Parse(m + (s + (g + (c + a))), adCap)
         == match Decode(a, adCap)
            case Err(e) => Err(e)
            case Ok(ad) => Ok(Msg1Parts(U8(methodCorr.number), suites.data, gX.data, IdentifierValue(cI.data), ad.data))
  {
    hide Decode, IdentifierValue;
    assert (m + (s + (g + (c + a))))[|m|..] == s + (g + (c + a));
    assert (s + (g + (c + a)))[|s|..] == g + (c + a);
    assert (g + (c + a))[|g|..] == c + a;
    assert (c + a)[|c|..] == a;
  }

  lemma Msg1Stops(m: bytes, rest: bytes, methodCorr: Decoded, adCap: nat)
    requires Decode(m + rest, |m + rest|) == Ok(methodCorr) && methodCorr.used == |m| && methodCorr.kind == IntKind
    requires Decode(rest, SUITES_I_SIZE) == Err(CborByteStringBufferTooSmall)
    ensures Msg1Parse(m + rest, adCap) == Err(CborByteStringBufferTooSmall)
  {
    hide Decode, IdentifierValue;
    assert (m + rest)[|m|..] == rest;
  }

  /** Message 2 fits the buffer it is received in. */
  lemma Msg2Received(corr: byte, cI: ShortString, gY: ShortString, cR: ShortString, ciphertext2: ShortString)
    ensures var r := Msg2(corr, cI, gY, cR, ciphertext2); r.Ok? ==> Rx(r.value, MSG_2_DEFAULT_SIZE) == r
  {
    hide EncodeAll, Msg2Items;
  }

  /** The bytes of message 2 when C_I is not sent and C_R is one byte. */
  lemma Msg2Layout(corr: byte, cI: ShortString, gY: ShortString, cR: byte, ciphertext2: ShortString)
    requires corr == 1 || corr == 3
    ensures var r := Msg2(corr, cI, gY, [cR], ciphertext2);
            var rest := Encode(BstrIdentifier([cR])) + Encode(ByteString(ciphertext2));
            r.Ok? ==> r.value == Encode(ByteString(Trunc8(gY))) + rest
  {
    hide Encode, EncodeAll, Trunc8;
    var a, b, c := ByteString(Trunc8(gY)), BstrIdentifier([cR]), ByteString(ciphertext2);
    assert Msg2Items(corr, cI, gY, b, ciphertext2) == [a, b, c];
    ThreeItems([a, b, c]);
    AppendAssoc(Encode(a), Encode(b), Encode(c));
  }

  /** How message 2 is read without C_I. */
  lemma Msg2Reading(corr: byte, cILen: nat, a: bytes, b: bytes, c: bytes, gY: Decoded, cR: Decoded,
      ciphertext2: Decoded)
    requires (corr == 1 || corr == 3) && cILen < 0x1_0000_0000
    requires Decode(a + (b + c), 32) == Ok(gY) && gY.used == |a| && gY.kind == StringKind && |gY.data| == 32
    requires Decode(b + c, C_R_DEFAULT_SIZE) == Ok(cR) && cR.used == |b| && cR.kind != MapKind
    requires Decode(c, CIPHERTEXT2_DEFAULT_SIZE) == Ok(ciphertext2)
    ensures Msg2Parse(corr, cILen, 32, a + (b + c))
             == Ok(Msg2Parts([], gY.data, IdentifierValue(cR.data), ciphertext2.data))
  {
    hide Decode, IdentifierValue;
    assert (a + (b + c))[|a|..] == b + c;
    assert (b + c)[|b|..] == c;
  }

  /** The initiator reads message 2 as the responder wrote it; C_I must not be expected. */
  lemma Msg2RoundTrip(corr: byte, cILen: nat, cI: ShortString, gY: Point, cR: byte, ciphertext2: ShortString)
    requires (corr == 1 || corr == 3) && cILen < 0x1_0000_0000 && |ciphertext2| <= CIPHERTEXT2_DEFAULT_SIZE
    requires Msg2(corr, cI, gY, [cR], ciphertext2).Ok?
    ensures Msg2Parse(corr, cILen, 32, Msg2(corr, cI, gY, [cR], ciphertext2).value)
         == Ok(Msg2Parts([], gY, [cR], ciphertext2))
  {
    Msg2Layout(corr, cI, gY, cR, ciphertext2);
    var a, b, c := Encode(ByteString(gY)), Encode(BstrIdentifier([cR])), Encode(ByteString(ciphertext2));
    hide Encode, Decode, Msg2, IdentifierValue, Msg2Parse, BstrIdentifier;
    DecodeString(gY, 32, b + c);
    IdentifierRead([cR], C_R_DEFAULT_SIZE, c);
    DecodeString(ciphertext2, CIPHERTEXT2_DEFAULT_SIZE, []);
    assert c + [] == c;
    Msg2Reading(corr, cILen, a, b, c, Decode(a + (b + c), 32).value, Decode(b + c, C_R_DEFAULT_SIZE).value,
                Decode(c, CIPHERTEXT2_DEFAULT_SIZE).value);
  }

  /** With another corr, C_I is sent and read back, if it has two bytes or more. */
  lemma Msg2WithIdentifier(corr: byte, cI: ShortString, gY: Point, cR: byte, ciphertext2: ShortString)
    requires corr != 1 && corr != 3 && |cI| >= 2 && |ciphertext2| <= CIPHERTEXT2_DEFAULT_SIZE
    requires Msg2(corr, cI, gY, [cR], ciphertext2).Ok?
    ensures Msg2Parse(corr, |cI|, 32, Msg2(corr, cI, gY, [cR], ciphertext2).value)
         == Ok(Msg2Parts(cI, gY, [cR], ciphertext2))
  {
    hide Encode, Decode, IdentifierValue, Msg2, Msg2Parse, BstrIdentifier;
    var front, a, b, c := Encode(ByteString(cI)), Encode(ByteString(gY)), Encode(BstrIdentifier([cR])),
        Encode(ByteString(ciphertext2));
    Msg2LayoutWithIdentifier(corr, cI, gY, cR, ciphertext2);
    DecodeString(cI, |cI|, a + (b + c));
    DecodeString(gY, 32, b + c);
    IdentifierRead([cR], C_R_DEFAULT_SIZE, c);
    DecodeString(ciphertext2, CIPHERTEXT2_DEFAULT_SIZE, []);
    assert c + [] == c;
    Msg2ReadingBehind(corr, |cI|, cI, front, a + (b + c));
    Msg2Reading(1, |cI|, a, b, c, Decode(a + (b + c), 32).value, Decode(b + c, C_R_DEFAULT_SIZE).value,
                Decode(c, CIPHERTEXT2_DEFAULT_SIZE).value);
  }

  lemma Msg2LayoutWithIdentifier(corr: byte, cI: ShortString, gY: Point, cR: byte, ciphertext2: ShortString)
    requires corr != 1 && corr != 3 && |cI| >= 2
    ensures var r := Msg2(corr, cI, gY, [cR], ciphertext2);
            var rest := Encode(BstrIdentifier([cR])) + Encode(ByteString(ciphertext2));
            r.Ok? ==> r.value == Encode(ByteString(cI)) + (Encode(ByteString(gY)) + rest)
  {
    hide Encode, EncodeAll, Trunc8;
    var a, b, c := ByteString(gY), BstrIdentifier([cR]), ByteString(ciphertext2);
    assert Msg2Items(corr, cI, gY, b, ciphertext2) == [ByteString(cI), a, b, c];
    FourConcatenated(ByteString(cI), a, b, c);
  }

  /** Behind C_I, message 2 is read as without it. */
  lemma Msg2ReadingBehind(corr: byte, cILen: nat, cI: ShortString, front: bytes, rest: bytes)
    requires corr != 1 && corr != 3 && cILen < 0x1_0000_0000
    requires var d := Decode(front + rest, cILen);
             d.Ok? && d.value.kind == StringKind && d.value.data == cI && d.value.used == |front|
    ensures Msg2Parse(corr, cILen, 32, front + rest)
         == match Msg2Parse(1, cILen, 32, rest)
            case Err(e) => Err(e)
            case Ok(m2) => Ok(m2.(cI := cI))
  {
    hide Decode, IdentifierValue;
    assert (front + rest)[|front|..] == rest;
  }

  /** A map of two entries or more in the place of C_R is refused. */
  lemma MapAsIdentifier(corr: byte, cILen: nat, gY: Point, entries: nat, rest: bytes)
    requires (corr == 1 || corr == 3) && cILen < 0x1_0000_0000 && 2 <= entries < 24
    ensures Msg2Parse(corr, cILen, 32, Encode(ByteString(gY)) + (Encode(MapHead(entries)) + rest))
         == Err(CRLengthTooSmall)
  {
    var a, b := Encode(ByteString(gY)), Encode(MapHead(entries)) + rest;
    DecodeString(gY, 32, b);
    ReadItemWritten(MapHead(entries), rest);
    hide Encode, ReadItem;
    assert (a + b)[|a|..] == b;
  }

  /** A text string in the place of G_Y is reported as an error message. */
  lemma TextIsError(corr: byte, cILen: nat, text: ShortString, rest: bytes)
    requires (corr == 1 || corr == 3) && cILen < 0x1_0000_0000 && |text| <= 32
    ensures Msg2Parse(corr, cILen, 32, Encode(TextString(text)) + rest) == Err(ErrorMessageReceived)
  {
    ReadItemWritten(TextString(text), rest);
    hide Encode, ReadItem;
  }

  /** A byte string there, as an error message that this code writes has it, is not. */
  lemma ErrorUnseen(corr: byte, cILen: nat, role: Role, suites: bytes)
    requires (corr == 1 || corr == 3) && cILen < 0x1_0000_0000 && ErrorMessage(role, 3, [], suites).Ok?
    ensures var r := Msg2Parse(corr, cILen, 32, ErrorMessage(role, 3, [], suites).value);
            r.Err? && r != Err(ErrorMessageReceived)
  {
    hide Encode, Decode, Trunc8, ErrorMessage, Msg2Parse;
    var s := Trunc8(suites);
    var a, b := Encode(ByteString([])), if s == [] then [] else Encode(ByteString(s));
    ErrorLayout(role, suites);
    NothingDecodes();
    ShortText([], 32, b);
    if s != [] {
      ShortText(s, 1, []);
    }
    ErrorReading(corr, cILen, a, b);
  }

  lemma ShortText(s: bytes, cap: nat, rest: bytes)
    requires |s| < 0x100
    ensures var d := Decode(Encode(ByteString(s)) + rest, cap);
            d == if |s| <= cap then Ok(Decoded(StringKind, s, 0, |Encode(ByteString(s))|))
                 else Err(CborByteStringBufferTooSmall)
    ensures Encode(ByteString(s)) + [] == Encode(ByteString(s))
  {
    hide Encode, Decode;
    if |s| <= cap {
      DecodeString(s, cap, rest);
    } else {
      DecodeTooLong(s, cap, rest);
    }
  }

  lemma ErrorLayout(role: Role, suites: bytes)
    ensures var s := Trunc8(suites);
            ErrorMessage(role, 3, [], suites).Ok? ==>
              ErrorMessage(role, 3, [], suites).value
              == Encode(ByteString([])) + if s == [] then [] else Encode(ByteString(s))
  {
    hide Encode, Trunc8;
    var e, s := ByteString([]), ByteString(Trunc8(suites));
    EncodeOne(e);
    Two(e, s);
    assert [] + [e] + [] == [e] && [] + [e] + [s] == [e, s];
    hide EncodeAll;
    assert Encode(e) + [] == Encode(e);
  }

  /** An empty string in the place of G_Y, followed by nothing or by one item. */
  lemma ErrorReading(corr: byte, cILen: nat, a: bytes, b: bytes)
    requires (corr == 1 || corr == 3) && cILen < 0x1_0000_0000
    requires Decode(a + b, 32) == Ok(Decoded(StringKind, [], 0, |a|))
    requires Decode([], 1).Err? && Decode([], 1).error != ErrorMessageReceived
    requires Decode([], 256).Err? && Decode([], 256).error != ErrorMessageReceived
    requires b != [] ==> Decode(b, 1) == Err(CborByteStringBufferTooSmall)
                         || (Decode(b, 1).Ok? && Decode(b, 1).value.kind == StringKind
                             && Decode(b, 1).value.used == |b|)
    ensures var r := Msg2Parse(corr, cILen, 32, a + b); r.Err? && r != Err(ErrorMessageReceived)
  {
    hide Decode, IdentifierValue;
    assert (a + b)[|a|..] == b && b[|b|..] == [];
  }

  lemma NothingDecodes()
    ensures Decode([], 1) == Err(ErrorDuringCborDecoding) && Decode([], 256) == Err(ErrorDuringCborDecoding)
  {
  }

  /** An initiator that expects C_I takes G_Y for it, which is too long. */
  lemma Msg2Unexpected(corr: byte, cILen: nat, corr': byte, cI: ShortString, gY: Point, cR: byte,
      ciphertext2: ShortString)
    requires corr' != 1 && corr' != 3 && (corr == 1 || corr == 3) && cILen < 32
    requires Msg2(corr, cI, gY, [cR], ciphertext2).Ok?
    ensures Msg2Parse(corr', cILen, 32, Msg2(corr, cI, gY, [cR], ciphertext2).value)
             == Err(CborByteStringBufferTooSmall)
  {
    Msg2Layout(corr, cI, gY, cR, ciphertext2);
    hide Encode, Decode, Msg2;
    DecodeTooLong(gY, cILen, Encode(BstrIdentifier([cR])) + Encode(ByteString(ciphertext2)));
  }

  /** The identifier of message 3 fits its byte exactly below 48. */
  lemma Msg3Written(cR: byte, ciphertext3: bytes)
    requires |ciphertext3| < 0x100
    ensures Msg3([cR], ciphertext3)
         == if cR < 48 then Ok(Encode(BstrIdentifier([cR])) + Encode(ByteString(ciphertext3)))
            else Err(CborEncodingBufferTooSmall)
  {
    if cR < 48 {
      SmallInt(cR as int - 24);
    } else {
      LargeInt(cR as int - 24);
    }
    EncodeOne(Int(cR as int - 24));
    hide Encode, EncodeAll;
  }

  /** The responder reads the ciphertext of message 3 when it expects C_R. */
  lemma Msg3RoundTrip(corr: byte, cR: byte, ciphertext3: ShortString)
    requires corr != 2 && corr != 3
    ensures Msg3Parse(corr, 1, Encode(BstrIdentifier([cR])) + Encode(ByteString(ciphertext3)))
         == if |ciphertext3| <= 256 then Ok(ciphertext3) else Err(CborByteStringBufferTooSmall)
  {
    var a, b := Encode(BstrIdentifier([cR])), Encode(ByteString(ciphertext3));
    hide Encode, Decode;
    IdentifierRead([cR], 1, b);
    if |ciphertext3| <= 256 {
      DecodeString(ciphertext3, CIPHERTEXT3_DEFAULT_SIZE, []);
    } else {
      DecodeTooLong(ciphertext3, CIPHERTEXT3_DEFAULT_SIZE, []);
    }
    assert (a + b)[|a|..] == b && b + [] == b;
  }

  /** A responder that does not expect C_R takes it for the ciphertext. */
  lemma Msg3Unexpected(corr: byte, cR: byte, ciphertext3: bytes)
    requires corr == 2 || corr == 3
    requires |ciphertext3| < 0x100
    ensures var r := Msg3Parse(corr, 1, Encode(BstrIdentifier([cR])) + Encode(ByteString(ciphertext3)));
            r.Ok? && |r.value| == 1
  {
    hide Encode, Decode, IdentifierValue;
    IdentifierRead([cR], CIPHERTEXT3_DEFAULT_SIZE, Encode(ByteString(ciphertext3)));
  }
}
