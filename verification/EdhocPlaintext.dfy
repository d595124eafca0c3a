/**
 * The plaintexts of messages 2 and 3 (modules/edhoc/src/plaintext.c): a credential identifier,
 * shortened when it is a key id, followed by a signature or MAC.
 */
module EdhocPlaintext {
  import opened Bytes
  import opened Cbor
  import opened Wire
  import opened Edhoc

  const KID: int := 4
  const X5BAG: int := 32
  const X5CHAIN: int := 33
  const X5T: int := 34
  const X5U: int := 35

  const ID_CRED_DEFAULT_SIZE: nat := 256
  const SGN_OR_MAC_DEFAULT_SIZE: nat := 128
  const KID_DEFAULT_SIZE: nat := 8
  const SHA_DEFAULT_SIZE: nat := 32

  // ----- writing -----

  /** ID_CRED for a key id of one byte: { 4 : h'kid' }. */
  function KidIdCred(kid: byte): bytes {
    EncodeAll([MapHead(1), Int(KID), ByteString([kid])])
  }

  /**
   * The kid of an ID_CRED as it is sent, None if it is no kid: the integer kid - 24, of which
   * one byte is kept.  A kid that is not one byte long leaves the buffer unwritten.
   */
  function IdCred2Kid(idCred: bytes): Result<Option<byte>> {
    if idCred == [] then Err(Undefined)
    else
      match Decode(idCred[1..], 0)
      case Err(_) => Err(Undefined)
      case Ok(name) =>
        if name.kind != IntKind then Err(Undefined)
        else if name.number != KID then Ok(None)
        else
          match Decode(idCred[1 + name.used..], KID_DEFAULT_SIZE)
          case Err(_) => Err(Undefined)
          case Ok(kid) => if |kid.data| != 1 then Err(Undefined) else Ok(Some(Encode(Int(kid.data[0] as int - 24))[0]))
  }

  /** The identifier as it is sent: the shortened kid, or the whole ID_CRED. */
  function IdPart(idCred: bytes): Result<bytes> {
    var kid :- IdCred2Kid(idCred);
    Ok(if kid.Some? then [kid.value] else idCred)
  }

  /** The plaintext of message 2, with empty auxiliary data. */
  function PlaintextEncode(idCred: bytes, signOrMac: bytes): Result<bytes> {
    var id :- IdPart(Trunc8(idCred));
    Ok(id + Encode(ByteString(Trunc8(signOrMac))))
  }

  // ----- reading -----

  datatype Parts = Parts(idCred: bytes, signOrMac: bytes, ad: bytes)

  /** The identifier at the front of a plaintext, as an ID_CRED, and the bytes it takes. */
  function SplitId(ptxt: bytes): (r: Result<(bytes, nat)>)
    ensures r.Ok? ==> r.value.1 <= |ptxt|
  {
    if ptxt == [] then Err(ErrorDuringCborDecoding)
    else if ptxt[0] / 0x20 == 5 then SplitMap(ptxt)
    else if ptxt[0] / 0x20 <= 1 then
      var kid :- Decode(ptxt, 4);
      Ok((KidIdCred(U8(kid.number + 24)), kid.used))
    else
      var kid :- Decode(ptxt, ID_CRED_DEFAULT_SIZE);
      if kid.data == [] then Err(Undefined) else Ok((KidIdCred(kid.data[0]), kid.used))
  }

  /** An ID_CRED carried whole: a certificate chain or a certificate hash. */
  function SplitMap(ptxt: bytes): (r: Result<(bytes, nat)>)
    requires ptxt != []
    ensures r.Ok? ==> r.value.1 <= |ptxt|
  {
    var name :- Decode(ptxt[1..], 0);
    var at := 1 + name.used;
    if name.kind != IntKind then Err(Undefined)
    else if name.number == X5CHAIN then
      var cert := Decode(ptxt[at..], ID_CRED_DEFAULT_SIZE);
      var end := if cert.Ok? then at + cert.value.used else at;
      if end > ID_CRED_DEFAULT_SIZE then Err(DestBufferTooSmall) else Ok((ptxt[..end], end))
    else if name.number == X5T then
      if |ptxt| == at then Err(Undefined)
      else
        var alg :- Decode(ptxt[at + 1..], 0);
        if alg.kind != IntKind then Err(Undefined)
        else
          var hash :- Decode(ptxt[at + 1 + alg.used..], SHA_DEFAULT_SIZE);
          var end := at + 1 + alg.used + hash.used;
          if end > ID_CRED_DEFAULT_SIZE then Err(Undefined) else Ok((ptxt[..end], end))
    else if name.number == KID || name.number == X5BAG || name.number == X5U then Err(Undefined)
    else Err(UnknownIdCredMapLabel)
  }

  /** Identifier, signature or MAC, and auxiliary data if there is any; `adCap` bounds the latter. */
  function PlaintextSplit(ptxt: bytes, adCap: nat): Result<Parts> {
    var (idCred, at) :- SplitId(ptxt);
    var signOrMac :- Decode(ptxt[at..], SGN_OR_MAC_DEFAULT_SIZE);
    var end := at + signOrMac.used;
    if end == |ptxt| then Ok(Parts(idCred, signOrMac.data, []))
    else
      var ad :- Decode(ptxt[end..], adCap);
      Ok(Parts(idCred, signOrMac.data, ad.data))
  }

  // ----- the imperative forms -----

  method PlaintextEncodeInto(idCred: bytes, signOrMac: bytes) returns (r: Result<bytes>)
    ensures r == PlaintextEncode(idCred, signOrMac)
  {
    hide Encode, IdCred2Kid, Trunc8;
    var shortId := Trunc8(idCred);
    var kid := IdCred2Kid(shortId);
    if kid.Err? {
      return Err(kid.error);
    }
    var enc := Encode(ByteString(Trunc8(signOrMac)));
    var id := if kid.value.Some? then [kid.value.value] else shortId;
    var plaintext := new byte[|id| + |enc|](_ => 0);
    CopyInto(plaintext, 0, id);
    assert plaintext[..|id|] == id;
    CopyInto(plaintext, |id|, enc);
    assert plaintext[..] == id + enc;
    r := Ok(plaintext[..]);
  }

  /** Moves over the identifier: a map with its label and value, or a shortened kid. */
  method SplitIdAt(ptxt: bytes) returns (r: Result<(bytes, nat)>)
    ensures r == SplitId(ptxt)
  {
    hide Decode, KidIdCred;
    if ptxt == [] { return Err(ErrorDuringCborDecoding); }
    if ptxt[0] / 0x20 == 5 {
      r := SplitMapAt(ptxt);
      return;
    }
    var isInt := ptxt[0] / 0x20 <= 1;
    var kid := Decode(ptxt, if isInt then 4 else ID_CRED_DEFAULT_SIZE);
    if kid.Err? { return Err(kid.error); }
    if isInt { return Ok((KidIdCred(U8(kid.value.number + 24)), kid.value.used)); }
    if kid.value.data == [] { return Err(Undefined); }
    r := Ok((KidIdCred(kid.value.data[0]), kid.value.used));
  }

  method SplitMapAt(ptxt: bytes) returns (r: Result<(bytes, nat)>)
    requires ptxt != []
    ensures r == SplitMap(ptxt)
  {
    hide Decode;
    var pos := 1;
    var name := Decode(ptxt[pos..], 0);
    if name.Err? { return Err(name.error); }
    DecodeUsed(ptxt[pos..], 0);
    pos := pos + name.value.used;
    if name.value.kind != IntKind { return Err(Undefined); }
    if name.value.number == X5CHAIN {
      var cert := Decode(ptxt[pos..], ID_CRED_DEFAULT_SIZE);
      if cert.Ok? {
        DecodeUsed(ptxt[pos..], ID_CRED_DEFAULT_SIZE);
        pos := pos + cert.value.used;
      }
      if pos > ID_CRED_DEFAULT_SIZE { return Err(DestBufferTooSmall); }
      return Ok((ptxt[..pos], pos));
    }
    if name.value.number == X5T {
      if pos == |ptxt| { return Err(Undefined); }
      pos := pos + 1;
      var alg := Decode(ptxt[pos..], 0);
      if alg.Err? { return Err(alg.error); }
      if alg.value.kind != IntKind { return Err(Undefined); }
      DecodeUsed(ptxt[pos..], 0);
      pos := pos + alg.value.used;
      var hash := Decode(ptxt[pos..], SHA_DEFAULT_SIZE);
      if hash.Err? { return Err(hash.error); }
      DecodeUsed(ptxt[pos..], SHA_DEFAULT_SIZE);
      pos := pos + hash.value.used;
      if pos > ID_CRED_DEFAULT_SIZE { return Err(Undefined); }
      return Ok((ptxt[..pos], pos));
    }
    if name.value.number == KID || name.value.number == X5BAG || name.value.number == X5U { return Err(Undefined); }
    r := Err(UnknownIdCredMapLabel);
  }

  /** Splits a plaintext with a moving position. */
  method PlaintextSplitAt(ptxt: bytes, adCap: nat) returns (r: Result<Parts>)
    ensures r == PlaintextSplit(ptxt, adCap)
  {
    hide SplitId, Decode;
    var id := SplitIdAt(ptxt);
    if id.Err? {
      return Err(id.error);
    }
    var pos := id.value.1;
    var signOrMac := Decode(ptxt[pos..], SGN_OR_MAC_DEFAULT_SIZE);
    if signOrMac.Err? {
      return Err(signOrMac.error);
    }
    DecodeUsed(ptxt[pos..], SGN_OR_MAC_DEFAULT_SIZE);
    pos := pos + signOrMac.value.used;
    var ad: bytes := [];
    if pos < |ptxt| {
      var more := Decode(ptxt[pos..], adCap);
      if more.Err? {
        return Err(more.error);
      }
      ad := more.value.data;
    }
    r := Ok(Parts(id.value.0, signOrMac.value.data, ad));
  }

  lemma DecodeUsed(b: bytes, cap: nat)
    ensures Decode(b, cap).Ok? ==> 0 < Decode(b, cap).value.used <= |b|
  {
  }

  // ----- reading undoes writing -----

  /** The credential identifiers in use. */
  datatype IdCred =
    | Kid(kid: byte)
    | X5t(alg: int, hash: bytes)
    | X5chain(cert: bytes)

  predicate ValidIdCred(id: IdCred) {
    match id
    case Kid(_) => true
    case X5t(alg, hash) => -0x8000_0000 <= alg < 0x8000_0000 && |hash| <= SHA_DEFAULT_SIZE
    case X5chain(cert) => |cert| <= 200
  }

  type CredId = i: IdCred | ValidIdCred(i) witness Kid(0)

  function Items(id: CredId): seq<CborItem> {
    match id
    case Kid(k) => [MapHead(1), Int(KID), ByteString([k])]
    case X5t(alg, hash) => [MapHead(1), Int(X5T), ArrayHead(2), Int(alg), ByteString(hash)]
    case X5chain(cert) => [MapHead(1), Int(X5CHAIN), ByteString(cert)]
  }

  function IdCredBytes(id: CredId): bytes { EncodeAll(Items(id)) }

  lemma MapByte()
    ensures Encode(MapHead(1)) == [0xA1] && |Encode(ArrayHead(2))| == 1
  {
  }

  /** A map starts with its byte; label and value follow. */
  lemma MapLayout(name: int, rest: seq<CborItem>)
    requires 0 <= name < 0x100
    ensures EncodeAll([MapHead(1), Int(name)] + rest) == [0xA1] + (Encode(Int(name)) + EncodeAll(rest))
  {
    hide Encode, EncodeAll;
    var items := [MapHead(1), Int(name)] + rest;
    MapByte();
    EncodeAllCons(items);
    assert items[1..] == [Int(name)] + rest;
    EncodeAllCons(items[1..]);
    assert items[1..][1..] == rest;
  }

  // ----- kid -----

  lemma KidLayout(k: byte)
    ensures KidIdCred(k) == [0xA1] + (Encode(Int(KID)) + Encode(ByteString([k])))
  {
    hide Encode, EncodeAll;
    assert [MapHead(1), Int(KID), ByteString([k])] == [MapHead(1), Int(KID)] + [ByteString([k])];
    MapLayout(KID, [ByteString([k])]);
    EncodeOne(ByteString([k]));
  }

  /** A kid is sent as the first byte of the integer kid - 24. */
  lemma KidSent(k: byte)
    ensures IdPart(KidIdCred(k)) == Ok([Encode(Int(k as int - 24))[0]])
  {
    hide Encode, Decode, KidIdCred;
    KidLayout(k);
    var id := KidIdCred(k);
    var tail := Encode(ByteString([k]));
    assert id[1..] == Encode(Int(KID)) + tail;
    DecodeInt(KID, 0, tail);
    assert id[1 + |Encode(Int(KID))|..] == tail + [];
    DecodeString([k], KID_DEFAULT_SIZE, []);
  }

  lemma SmallInt(v: int)
    requires -24 <= v < 24
    ensures Encode(Int(v)) == [if v >= 0 then v else 0x1F - v]
  {
  }

  lemma LargeInt(v: int)
    requires 24 <= v < 0x100
    ensures Encode(Int(v)) == [0x18, v]
  {
    assert BigEndian(v, 1) == [v] by {
      assert BigEndian(v / 0x100, 0) == [];
    }
  }

  /** The rest of a plaintext, behind the identifier. */
  lemma SplitTail(ptxt: bytes, idCred: bytes, at: nat, signOrMac: bytes, adCap: nat)
    requires SplitId(ptxt) == Ok((idCred, at)) && at <= |ptxt|
    requires |signOrMac| <= SGN_OR_MAC_DEFAULT_SIZE && ptxt[at..] == Encode(ByteString(signOrMac))
    ensures PlaintextSplit(ptxt, adCap) == Ok(Parts(idCred, signOrMac, []))
  {
    hide SplitId, Encode, Decode;
    DecodeString(signOrMac, SGN_OR_MAC_DEFAULT_SIZE, []);
    assert Encode(ByteString(signOrMac)) + [] == Encode(ByteString(signOrMac));
  }

  lemma SplitKid(k: byte, signOrMac: bytes, adCap: nat)
    requires k < 48 && |signOrMac| <= SGN_OR_MAC_DEFAULT_SIZE
    ensures PlaintextSplit([Encode(Int(k as int - 24))[0]] + Encode(ByteString(signOrMac)), adCap)
         == Ok(Parts(KidIdCred(k), signOrMac, []))
  {
    var v: int := k as int - 24;
    SmallInt(v);
    ByteMinus24(k);
    var tail := Encode(ByteString(signOrMac));
    var ptxt := Encode(Int(v)) + tail;
    DecodeInt(v, 4, tail);
    assert ptxt[0] / 0x20 <= 1;
    hide Encode, Decode, KidIdCred;
    assert SplitId(ptxt) == Ok((KidIdCred(k), 1));
    assert ptxt[1..] == tail;
    SplitTail(ptxt, KidIdCred(k), 1, signOrMac, adCap);
  }

  /** From 48 on the integer takes two bytes, of which only the first is sent. */
  lemma SplitLargeKid(k: byte, signOrMac: bytes, adCap: nat)
    requires k >= 48 && 2 <= |signOrMac| <= SGN_OR_MAC_DEFAULT_SIZE
    ensures var r := PlaintextSplit([Encode(Int(k as int - 24))[0]] + Encode(ByteString(signOrMac)), adCap);
            r.Ok? ==> r.value.signOrMac != signOrMac
  {
    hide SplitId, Encode, Decode;
    LargeInt(k as int - 24);
    var tail := Encode(ByteString(signOrMac));
    TakesTwoBytes(tail);
    ReadsShorter(signOrMac);
    DropTwo(0x18, tail);
  }

  lemma DropTwo(first: byte, tail: bytes)
    ensures tail != [] ==> ([first] + tail)[2..] == tail[1..]
  {
  }

  lemma TakesTwoBytes(tail: bytes)
    ensures var r := SplitId([0x18] + tail); r.Ok? ==> r.value.1 == 2 && |tail| > 0
  {
    hide KidIdCred, BigEndianValue;
    assert ([0x18] + tail)[0] == 0x18;
  }

  /** Without its first byte an encoded string can only be read as something shorter. */
  lemma ReadsShorter(s: bytes)
    requires 2 <= |s| <= SGN_OR_MAC_DEFAULT_SIZE
    ensures var r := Decode(Encode(ByteString(s))[1..], SGN_OR_MAC_DEFAULT_SIZE); r.Ok? ==> r.value.data != s
  {
    StringBytes(s);
    var rest := Encode(ByteString(s))[1..];
    hide Encode;
    StringsAreShorter(rest);
  }

  lemma StringBytes(s: bytes)
    requires 2 <= |s| <= SGN_OR_MAC_DEFAULT_SIZE
    ensures Encode(ByteString(s))[1..] == if |s| < 24 then s else [|s|] + s
  {
    if |s| >= 24 {
      LargeInt(|s|);
      assert Head(2, |s|) == [0x58, |s|];
    }
  }

  /** A string is shorter than the bytes it is read from, by two when its head says 24 or more. */
  lemma StringsAreShorter(b: bytes)
    ensures var r := Decode(b, SGN_OR_MAC_DEFAULT_SIZE);
            r.Ok? ==> |r.value.data| <= 1
                      || (|r.value.data| < |b| && (|r.value.data| == |b| - 1 ==> b[0] % 0x20 == |r.value.data|))
  {
    hide BigEndianValue;
  }

  // ----- certificates -----

  lemma ChainLayout(cert: bytes)
    requires |cert| <= 200
    ensures var head := [0xA1] + Encode(Int(X5CHAIN));
            IdCredBytes(X5chain(cert)) == head + Encode(ByteString(cert)) && |head| == 3
  {
    LargeInt(X5CHAIN);
    hide Encode, EncodeAll;
    assert Items(X5chain(cert)) == [MapHead(1), Int(X5CHAIN)] + [ByteString(cert)];
    MapLayout(X5CHAIN, [ByteString(cert)]);
    EncodeOne(ByteString(cert));
    AppendAssoc([0xA1], Encode(Int(X5CHAIN)), Encode(ByteString(cert)));
  }

  lemma HashLayout(alg: int, hash: bytes)
    requires -0x8000_0000 <= alg < 0x8000_0000 && |hash| <= SHA_DEFAULT_SIZE
    ensures var head := [0xA1] + Encode(Int(X5T));
            IdCredBytes(X5t(alg, hash)) == head + (Encode(ArrayHead(2)) + (Encode(Int(alg)) + Encode(ByteString(hash))))
            && |head| == 3
  {
    LargeInt(X5T);
    hide Encode, EncodeAll;
    var rest := [ArrayHead(2), Int(alg), ByteString(hash)];
    assert Items(X5t(alg, hash)) == [MapHead(1), Int(X5T)] + rest;
    MapLayout(X5T, rest);
    EncodeAllCons(rest);
    assert rest[1..] == [Int(alg), ByteString(hash)];
    Two(Int(alg), ByteString(hash));
    AppendAssoc([0xA1], Encode(Int(X5T)), EncodeAll(rest));
  }

  lemma LabelParts(e: bytes, rest: bytes)
    requires |e| == 2
    ensures var ptxt := [0xA1] + e + rest;
            ptxt[0] == 0xA1 && ptxt[1..] == e + rest && ptxt[3..] == rest
  {
  }

  /** What follows the label of a map is found behind it. */
  lemma LabelRead(name: int, rest: bytes)
    requires name == X5CHAIN || name == X5T
    ensures var ptxt := [0xA1] + Encode(Int(name)) + rest;
            && ptxt[0] == 0xA1 && Decode(ptxt[1..], 0).Ok?
            && Decode(ptxt[1..], 0).value.kind == IntKind && Decode(ptxt[1..], 0).value.number == name
            && Decode(ptxt[1..], 0).value.used == 2 && ptxt[3..] == rest
  {
    hide Encode, Decode;
    LargeInt(name);
    DecodeInt(name, 0, rest);
    LabelParts(Encode(Int(name)), rest);
  }

  lemma CertificateIdPart(name: int, rest: bytes)
    requires name == X5CHAIN || name == X5T
    ensures var id := [0xA1] + Encode(Int(name)) + rest; IdPart(id) == Ok(id)
  {
    LabelRead(name, rest);
    hide Encode, Decode;
  }

  lemma SplitChain(cert: bytes, tail: bytes)
    requires |cert| <= 200
    ensures SplitId(IdCredBytes(X5chain(cert)) + tail) == Ok((IdCredBytes(X5chain(cert)), |IdCredBytes(X5chain(cert))|))
  {
    var head, c := [0xA1] + Encode(Int(X5CHAIN)), Encode(ByteString(cert));
    ChainLayout(cert);
    LabelRead(X5CHAIN, c + tail);
    DecodeString(cert, ID_CRED_DEFAULT_SIZE, tail);
    StringSize(cert);
    hide Encode, Decode, IdCredBytes;
    AppendAssoc(head, c, tail);
    var ptxt := head + (c + tail);
    assert ptxt[..3 + |c|] == head + c;
  }

  lemma SplitHash(alg: int, hash: bytes, tail: bytes)
    requires -0x8000_0000 <= alg < 0x8000_0000 && |hash| <= SHA_DEFAULT_SIZE
    ensures SplitId(IdCredBytes(X5t(alg, hash)) + tail)
             == Ok((IdCredBytes(X5t(alg, hash)), |IdCredBytes(X5t(alg, hash))|))
  {
    hide Encode, EncodeAll, Decode, IdCredBytes, SplitId;
    var head, a := [0xA1] + Encode(Int(X5T)), Encode(ArrayHead(2));
    var i, h := Encode(Int(alg)), Encode(ByteString(hash));
    HashLayout(alg, hash);
    MapByte();
    LabelRead(X5T, a + (i + (h + tail)));
    DecodeInt(alg, 0, h + tail);
    DecodeString(hash, SHA_DEFAULT_SIZE, tail);
    StringSize(hash);
    EncodedLen(Int(alg));
    FourParts(head, a, i, h, tail);
    SplitHashParts(head, a, i, h, tail, Decode(i + (h + tail), 0).value, Decode(h + tail, SHA_DEFAULT_SIZE).value);
  }

  lemma FourParts(head: bytes, a: bytes, i: bytes, h: bytes, tail: bytes)
    requires |head| == 3 && |a| == 1
    ensures var ptxt := head + (a + (i + (h + tail)));
            && head + (a + (i + h)) + tail == ptxt
            && ptxt[3..] == a + (i + (h + tail)) && ptxt[4..] == i + (h + tail) && ptxt[4 + |i|..] == h + tail
            && ptxt[..4 + |i| + |h|] == head + (a + (i + h))
  {
  }

  lemma SplitHashParts(head: bytes, a: bytes, i: bytes, h: bytes, tail: bytes, alg: Decoded, hash: Decoded)
    requires |head| == 3 && |a| == 1 && |i| + |h| <= 200
    requires var ptxt := head + (a + (i + (h + tail)));
             && ptxt[0] == 0xA1 && ptxt[4..] == i + (h + tail) && ptxt[4 + |i|..] == h + tail
             && Decode(ptxt[1..], 0).Ok? && Decode(ptxt[1..], 0).value.kind == IntKind
             && Decode(ptxt[1..], 0).value.number == X5T && Decode(ptxt[1..], 0).value.used == 2
    requires Decode(i + (h + tail), 0) == Ok(alg) && alg.kind == IntKind && alg.used == |i|
    requires Decode(h + tail, SHA_DEFAULT_SIZE) == Ok(hash) && hash.used == |h|
    ensures var ptxt := head + (a + (i + (h + tail)));
            SplitId(ptxt) == Ok((ptxt[..4 + |i| + |h|], 4 + |i| + |h|))
  {
    hide Decode;
  }

  // ----- the round trip -----

  /** A certificate identifier is sent and read back whole. */
  lemma CertificateRoundTrip(id: CredId, signOrMac: bytes, adCap: nat)
    requires !id.Kid? && |signOrMac| <= SGN_OR_MAC_DEFAULT_SIZE
    ensures IdPart(IdCredBytes(id)) == Ok(IdCredBytes(id))
    ensures PlaintextSplit(IdCredBytes(id) + Encode(ByteString(signOrMac)), adCap)
             == Ok(Parts(IdCredBytes(id), signOrMac, []))
  {
    var tail := Encode(ByteString(signOrMac));
    match id
    case X5t(alg, hash) =>
      HashLayout(alg, hash);
      CertificateIdPart(X5T, Encode(ArrayHead(2)) + (Encode(Int(alg)) + Encode(ByteString(hash))));
      SplitHash(alg, hash, tail);
      hide *;
      assert (IdCredBytes(id) + tail)[|IdCredBytes(id)|..] == tail;
      SplitTail(IdCredBytes(id) + tail, IdCredBytes(id), |IdCredBytes(id)|, signOrMac, adCap);
    case X5chain(cert) =>
      ChainLayout(cert);
      CertificateIdPart(X5CHAIN, Encode(ByteString(cert)));
      SplitChain(cert, tail);
      hide *;
      assert (IdCredBytes(id) + tail)[|IdCredBytes(id)|..] == tail;
      SplitTail(IdCredBytes(id) + tail, IdCredBytes(id), |IdCredBytes(id)|, signOrMac, adCap);
  }

  /**
   * Splitting a plaintext gives back the credential identifier and the signature or MAC, exactly
   * when the identifier is a certificate's or a kid below 48, and the latter has at most 128 bytes.
   */
  lemma PlaintextRoundTrip(id: CredId, signOrMac: bytes, adCap: nat)
    requires 2 <= |signOrMac| < 0x100
    ensures var ptxt := PlaintextEncode(IdCredBytes(id), signOrMac);
            && ptxt.Ok?
            && (PlaintextSplit(ptxt.value, adCap) == Ok(Parts(IdCredBytes(id), signOrMac, []))
               <==> (id.Kid? ==> id.kid < 48) && |signOrMac| <= 128)
  {
    hide *;
    IdCredLen(id);
    EncodeIs(IdCredBytes(id), signOrMac);
    if |signOrMac| > 128 {
      CertificateIdAgain(id);
      SplitLengths(PlaintextEncode(IdCredBytes(id), signOrMac).value, adCap);
    } else if id.Kid? {
      KidBytes(id.kid);
      KidSent(id.kid);
      Capacity();
      if id.kid < 48 {
        SplitKid(id.kid, signOrMac, adCap);
      } else {
        SplitLargeKid(id.kid, signOrMac, adCap);
      }
    } else {
      Capacity();
      CertificateRoundTrip(id, signOrMac, adCap);
    }
  }

  // ----- other plaintexts -----

  /** Auxiliary data behind the signature or MAC is read if it fits its buffer. */
  lemma AdRead(id: CredId, signOrMac: bytes, ad: ShortString, adCap: nat)
    requires |signOrMac| <= 128 && (id.Kid? ==> id.kid < 48)
    ensures PlaintextEncode(IdCredBytes(id), signOrMac).Ok?
    ensures PlaintextSplit(PlaintextEncode(IdCredBytes(id), signOrMac).value + Encode(ByteString(ad)), adCap)
         == if |ad| <= adCap then Ok(Parts(IdCredBytes(id), signOrMac, ad)) else Err(CborByteStringBufferTooSmall)
  {
    hide Encode, Decode, SplitId, IdPart, IdCredBytes, PlaintextEncode, PlaintextSplit, KidIdCred;
    var s, a := Encode(ByteString(signOrMac)), Encode(ByteString(ad));
    IdCredLen(id);
    EncodeIs(IdCredBytes(id), signOrMac);
    if id.Kid? {
      KidBytes(id.kid);
      KidSent(id.kid);
      SplitKidId(id.kid, s + a);
      AppendAssoc([Encode(Int(id.kid as int - 24))[0]], s, a);
      SplitTailWithAd([Encode(Int(id.kid as int - 24))[0]], IdCredBytes(id), signOrMac, ad, adCap);
    } else {
      CertificateRoundTrip(id, signOrMac, adCap);
      if id.X5t? {
        SplitHash(id.alg, id.hash, s + a);
      } else {
        SplitChain(id.cert, s + a);
      }
      AppendAssoc(IdCredBytes(id), s, a);
      SplitTailWithAd(IdCredBytes(id), IdCredBytes(id), signOrMac, ad, adCap);
    }
  }

  lemma SplitKidId(k: byte, tail: bytes)
    requires k < 48
    ensures SplitId([Encode(Int(k as int - 24))[0]] + tail) == Ok((KidIdCred(k), 1))
  {
    var v: int := k as int - 24;
    SmallInt(v);
    ByteMinus24(k);
    DecodeInt(v, 4, tail);
    hide Encode, Decode, KidIdCred;
  }

  lemma SplitTailWithAd(front: bytes, idCred: bytes, signOrMac: bytes, ad: ShortString, adCap: nat)
    requires |signOrMac| <= 128
    requires SplitId(front + (Encode(ByteString(signOrMac)) + Encode(ByteString(ad)))) == Ok((idCred, |front|))
    ensures PlaintextSplit(front + (Encode(ByteString(signOrMac)) + Encode(ByteString(ad))), adCap)
         == if |ad| <= adCap then Ok(Parts(idCred, signOrMac, ad)) else Err(CborByteStringBufferTooSmall)
  {
    hide SplitId, Encode, Decode;
    var s, a := Encode(ByteString(signOrMac)), Encode(ByteString(ad));
    var ptxt := front + (s + a);
    assert ptxt[|front|..] == s + a && ptxt[|front| + |s|..] == a && a + [] == a;
    DecodeString(signOrMac, SGN_OR_MAC_DEFAULT_SIZE, a);
    if |ad| <= adCap {
      DecodeString(ad, adCap, []);
    } else {
      DecodeTooLong(ad, adCap, []);
    }
  }

  /** A key id sent as a byte string, of any length up to 256, is taken by its first byte. */
  lemma StringKid(kid: bytes, tail: bytes)
    requires 0 < |kid| <= 256
    ensures SplitId(Encode(ByteString(kid)) + tail) == Ok((KidIdCred(kid[0]), |Encode(ByteString(kid))|))
  {
    StringHead(kid);
    DecodeString(kid, ID_CRED_DEFAULT_SIZE, tail);
    hide Encode, Decode, KidIdCred;
  }

  lemma StringHead(s: bytes)
    requires |s| <= 256
    ensures Encode(ByteString(s)) != [] && Encode(ByteString(s))[0] / 0x20 == 2
  {
    hide BigEndian;
  }

  /** Of the labels of an identifier map 33 and 34 are read; 4, 32 and 35 leave the result unset. */
  lemma OtherLabels(name: int, rest: bytes)
    requires -0x8000_0000 <= name < 0x8000_0000 && name != 33 && name != 34
    ensures SplitId([0xA1] + (Encode(Int(name)) + rest))
         == if name == 4 || name == 32 || name == 35 then Err(Undefined) else Err(UnknownIdCredMapLabel)
  {
    hide Encode, Decode, SplitId;
    var e := Encode(Int(name)) + rest;
    DecodeInt(name, 0, rest);
    assert ([0xA1] + e)[1..] == e && ([0xA1] + e)[0] == 0xA1;
    LabelDecides([0xA1] + e, name);
  }

  lemma LabelDecides(ptxt: bytes, name: int)
    requires ptxt != [] && ptxt[0] == 0xA1 && name != 33 && name != 34
    requires var d := Decode(ptxt[1..], 0); d.Ok? && d.value.kind == IntKind && d.value.number == name
    ensures SplitId(ptxt)
         == if name == 4 || name == 32 || name == 35 then Err(Undefined) else Err(UnknownIdCredMapLabel)
  {
    hide Decode;
  }

  lemma Capacity()
    ensures SGN_OR_MAC_DEFAULT_SIZE == 128
  {
  }

  lemma CertificateIdAgain(id: CredId)
    ensures IdPart(IdCredBytes(id)).Ok?
  {
    hide *;
    if id.Kid? {
      KidBytes(id.kid);
      KidSent(id.kid);
    } else {
      CertificateRoundTrip(id, [], 0);
    }
  }

  /** Whatever is split, the signature or MAC found has at most 128 bytes. */
  lemma SplitLengths(ptxt: bytes, adCap: nat)
    ensures var r := PlaintextSplit(ptxt, adCap); r.Ok? ==> |r.value.signOrMac| <= 128
  {
    hide SplitId, Decode;
  }

  /**
   * How much of a certificate of any length is found behind its label: up to 251 bytes the whole
   * identifier, up to 256 bytes an error, and beyond that the label alone.
   */
  lemma ChainCapacity(cert: ShortString, tail: bytes)
    requires |cert| < 0x1_0000
    ensures var id := [0xA1, 0x18, 0x21] + Encode(ByteString(cert));
            SplitId(id + tail)
            == if |cert| <= 251 then Ok((id, |id|))
               else if |cert| <= 256 then Err(DestBufferTooSmall)
               else Ok(([0xA1, 0x18, 0x21], 3))
  {
    hide Encode, Decode;
    var head, c := [0xA1, 0x18, 0x21], Encode(ByteString(cert));
    LargeInt(X5CHAIN);
    assert [0xA1] + [0x18, 0x21] == head;
    LabelRead(X5CHAIN, c + tail);
    if |cert| <= 256 {
      DecodeString(cert, ID_CRED_DEFAULT_SIZE, tail);
    } else {
      DecodeTooLong(cert, ID_CRED_DEFAULT_SIZE, tail);
    }
    StringSize(cert);
    AppendAssoc(head, c, tail);
    var ptxt := head + (c + tail);
    assert ptxt[..3 + |c|] == head + c && ptxt[..3] == head;
  }

  lemma KidBytes(k: byte)
    ensures IdCredBytes(Kid(k)) == KidIdCred(k)
  {
    hide EncodeAll;
  }

  /** An ID_CRED fits a length of eight bits. */
  lemma IdCredLen(id: CredId)
    ensures |IdCredBytes(id)| <= 205
  {
    if id.Kid? {
      KidBytes(id.kid);
      KidLayout(id.kid);
      SmallInt(KID);
      StringSize([id.kid]);
    } else if id.X5t? {
      HashLayout(id.alg, id.hash);
      MapByte();
      EncodedLen(Int(id.alg));
      StringSize(id.hash);
    } else {
      ChainLayout(id.cert);
      StringSize(id.cert);
    }
    hide *;
  }

  lemma EncodeIs(idCred: bytes, signOrMac: bytes)
    requires |signOrMac| < 0x100 && |idCred| < 0x100
    ensures PlaintextEncode(idCred, signOrMac)
         == if IdPart(idCred).Err? then Err(IdPart(idCred).error)
            else Ok(IdPart(idCred).value + Encode(ByteString(signOrMac)))
  {
    hide IdPart, Encode;
  }
}
