/**
 * What the EDHOC modules share: error codes, the cryptographic functions, cipher suites,
 * methods, the decoder around the CBOR library, and connection identifiers.
 */
module Edhoc {
  import opened Bytes
  import opened Cbor
  import opened Hkdf

  /**
   * The error codes of EDHOC that the modelled functions return; `Undefined` marks executions
   * in which C reads or writes outside an object or reads a variable never written.
   */
  datatype EdhocError =
    | ErrorMessageReceived
    | ErrorMessageSent
    | UnsupportedCipherSuite
    | CredentialNotFound
    | ResponderAuthenticationFailed
    | AeadAuthenticationFailed
    | UnknownIdCredMapLabel
    | CRLengthTooSmall
    | MessageBufferTooSmall
    | DestBufferTooSmall
    | CborEncodingError
    | UnsupportedCborType
    | CborEncodingBufferTooSmall
    | CborByteStringBufferTooSmall
    | ErrorDuringCborDecoding
    | Undefined

  type Result<+T> = Outcome<T, EdhocError>

  // ----- cryptography -----

  type Point = p: bytes | |p| == 32 witness Zeros(32)
  type Signature = s: bytes | |s| == 64 witness Zeros(64)

  /** The ciphertext is as long as plaintext and tag. */
  type Seal = f: (bytes, bytes, bytes, bytes, byte) -> bytes
    | forall k, n, a, p, t :: |f(k, n, a, p, t)| == |p| + t
    witness (k: bytes, n: bytes, a: bytes, p: bytes, t: byte) => p + Zeros(t)

  /** DH on a secret and a point, signatures, and an AEAD whose last argument is the tag length. */
  datatype EdhocCrypto = EdhocCrypto(hash: bytes -> Digest,
                                     hmac: Hmac,
                                     pub: bytes -> Point,
                                     dh: (bytes, bytes) -> Point,
                                     verifyKey: bytes -> bytes,
                                     sign: (bytes, bytes, bytes) -> Signature,
                                     verify: (bytes, bytes, bytes) -> bool,
                                     seal: Seal,
                                     open: (bytes, bytes, bytes, bytes, byte) -> Option<bytes>)

  /** What is asked of them: commuting DH, verifying signatures, opening ciphertexts. */
  ghost predicate Laws(cr: EdhocCrypto) {
    && (forall x, y :: cr.dh(x, cr.pub(y)) == cr.dh(y, cr.pub(x)))
    && (forall sk, m :: cr.verify(cr.verifyKey(sk), m, cr.sign(sk, cr.verifyKey(sk), m)))
    && (forall k, n, a, p, t :: cr.open(k, n, a, cr.seal(k, n, a, p, t), t) == Some(p))
  }

  /** The laws can be met. */
  lemma LawsPossible()
    ensures exists cr: EdhocCrypto :: Laws(cr)
  {
    var seal: Seal := (k: bytes, n: bytes, a: bytes, p: bytes, t: byte) => p + Zeros(t);
    var cr := EdhocCrypto(b => Zeros(32), (k, m) => Zeros(32), b => Zeros(32), (x, y) => Zeros(32),
                          b => b, (sk, pk, m) => Zeros(64), (pk, m, s) => true, seal,
                          (k, n, a, c: bytes, t: byte) => if |c| < t then None else Some(c[..|c| - t]));
    forall k: bytes, n: bytes, a: bytes, p: bytes, t: byte
      ensures cr.open(k, n, a, cr.seal(k, n, a, p, t), t) == Some(p)
    {
      assert (p + Zeros(t))[..|p|] == p;
    }
    assert Laws(cr);
  }

  /** Cipher suites 0 to 3: the AEAD's COSE number and its tag length. */
  datatype Suite = Suite(aead: byte, macLen: byte)

  function GetSuite(selected: byte): Result<Suite> {
    if selected == 0 || selected == 2 then Ok(Suite(10, 8))
    else if selected == 1 || selected == 3 then Ok(Suite(30, 16))
    else Err(UnsupportedCipherSuite)
  }

  /** Methods 2 and 3 authenticate the initiator, 1 and 3 the responder, with a static DH key. */
  predicate StaticDhI(kind: nat) { kind == 2 || kind == 3 }
  predicate StaticDhR(kind: nat) { kind == 1 || kind == 3 }

  /** A credential of the other party: its bytes, its signature key and its static DH key. */
  datatype Peer = Peer(cred: bytes, pk: bytes, g: bytes)

  /** The credential that belongs to an ID_CRED (retrieve_cred.c). */
  type Lookup = bytes -> Result<Peer>

  /** What a successful run leaves behind; TH_4 and PRK_4x3m go to the caller. */
  datatype Session = Session(th2: Digest, th3: Digest, th4: Digest, prk2e: Digest, prk3e2m: Digest, prk4x3m: Digest)

  /** A run: the messages sent, in order, and its outcome. */
  datatype Run = Run(sent: seq<bytes>, result: Result<Session>)

  // ----- lengths passed as uint8_t -----

  /** The part of `b` that is seen when its length is passed as a uint8_t. */
  function Trunc8(b: bytes): (r: bytes)
    ensures |r| == |b| % 0x100
    ensures |b| < 0x100 ==> r == b
  {
    b[..|b| % 0x100]
  }

  type ShortString = b: bytes | |b| < 0x1_0000_0000

  // ----- the decoder around the CBOR library -----

  datatype Kind = IntKind | StringKind | TextKind | MapKind

  /** What the decoder writes: the bytes, the integer or map size, and how many input bytes it took. */
  datatype Decoded = Decoded(kind: Kind, data: bytes, number: int, used: nat)

  /** An integer as stored into a C int of 32 bits. */
  function Int32(v: int): int { (v + 0x8000_0000) % 0x1_0000_0000 - 0x8000_0000 }

  /** Decodes one item; strings must fit `cap` bytes, an integer leaves one byte of data. */
  function Decode(b: bytes, cap: nat): (r: Result<Decoded>)
    ensures r.Ok? ==> 0 < r.value.used <= |b|
    ensures r.Ok? ==> |r.value.data| <= if r.value.kind == IntKind then 1 else cap
  {
    match ReadItem(b)
    case Some((Int(v), used)) => Ok(Decoded(IntKind, [U8(v)], Int32(v), used))
    case Some((ByteString(s), used)) =>
      if |s| > cap then Err(CborByteStringBufferTooSmall) else Ok(Decoded(StringKind, s, 0, used))
    case Some((TextString(s), used)) =>
      if |s| > cap then Err(CborByteStringBufferTooSmall) else Ok(Decoded(TextKind, s, 0, used))
    case Some((MapHead(n), used)) => Ok(Decoded(MapKind, [], n, used))
    case Some(_) => Err(UnsupportedCborType)
    case None => Err(ErrorDuringCborDecoding)
  }

  lemma DecodeInt(v: int, cap: nat, rest: bytes)
    requires -0x8000_0000 <= v < 0x8000_0000
    ensures Decode(Encode(Int(v)) + rest, cap) == Ok(Decoded(IntKind, [U8(v)], v, |Encode(Int(v))|))
  {
    ReadItemWritten(Int(v), rest);
    hide Encode, ReadItem;
  }

  lemma DecodeString(s: ShortString, cap: nat, rest: bytes)
    requires |s| <= cap
    ensures Decode(Encode(ByteString(s)) + rest, cap) == Ok(Decoded(StringKind, s, 0, |Encode(ByteString(s))|))
  {
    ReadItemWritten(ByteString(s), rest);
    hide Encode, ReadItem;
  }

  lemma DecodeTooLong(s: ShortString, cap: nat, rest: bytes)
    requires |s| > cap
    ensures Decode(Encode(ByteString(s)) + rest, cap) == Err(CborByteStringBufferTooSmall)
  {
    ReadItemWritten(ByteString(s), rest);
    hide Encode, ReadItem;
  }

  lemma DecodeArray(n: nat, cap: nat, rest: bytes)
    requires n < 0x1_0000_0000
    ensures Decode(Encode(ArrayHead(n)) + rest, cap) == Err(UnsupportedCborType)
  {
    ReadItemWritten(ArrayHead(n), rest);
    hide Encode, ReadItem;
  }

  // ----- connection identifiers -----

  /** One byte travels as the integer 24 below it, anything else as a byte string. */
  function BstrIdentifier(c: ShortString): CborItem {
    if |c| == 1 then Int(c[0] as int - 24) else ByteString(c)
  }

  lemma BstrIdentifierUnique(c: ShortString, c': ShortString)
    requires BstrIdentifier(c) == BstrIdentifier(c')
    ensures c == c'
  {
    if |c| == 1 && |c'| == 1 {
      assert c == [c[0]] && c' == [c'[0]];
    }
  }

  /** One decoded byte, integer or string, is 24 below the identifier. */
  function IdentifierValue(data: bytes): (c: bytes)
    ensures |c| == |data|
  {
    if |data| == 1 then [U8(data[0] as int + 24)] else data
  }

  /** Reading a written identifier gives it back. */
  lemma IdentifierRead(c: ShortString, cap: nat, rest: bytes)
    requires |c| <= cap || |c| == 1
    ensures var r := Decode(Encode(BstrIdentifier(c)) + rest, cap);
            r.Ok? && !r.value.kind.MapKind? && IdentifierValue(r.value.data) == c
                && r.value.used == |Encode(BstrIdentifier(c))|
            && (r.value.kind.IntKind? <==> |c| == 1) && !r.value.kind.TextKind?
  {
    if |c| == 1 {
      ByteMinus24(c[0]);
      DecodeInt(c[0] as int - 24, cap, rest);
      assert [c[0]] == c;
    } else {
      DecodeString(c, cap, rest);
    }
    hide Decode, Encode;
  }

  lemma ByteMinus24(k: byte)
    ensures U8((k as int - 24) + 24) == k && U8(U8(k as int - 24) + 24) == k
  {
  }

  // ----- encoding into buffers -----

  function EncodeInto(items: seq<CborItem>, cap: nat): Result<bytes> {
    if |EncodeAll(items)| > cap then Err(CborEncodingBufferTooSmall) else Ok(EncodeAll(items))
  }

  /** Encodes items one after the other into a buffer of `cap` bytes. */
  method EncodeItems(items: seq<CborItem>, cap: nat) returns (r: Result<bytes>)
    ensures r == EncodeInto(items, cap)
  {
    hide EncodeAll, Encode;
    var buffer := new byte[cap](_ => 0);
    var enc := new Encoder(buffer);
    var fits := true;
    assert items[..0] == [];
    EncodeNone();
    for i := 0 to |items|
      invariant enc.Valid() && enc.buffer == buffer && enc.items == items[..i] && fresh(enc)
      invariant fits <==> |EncodeAll(items[..i])| <= cap
    {
      assert items[..i + 1] == items[..i] + [items[i]];
      fits := enc.Put(items[i]);
    }
    assert items[..|items|] == items;
    if fits {
      r := Ok(buffer[..enc.needed]);
    } else {
      r := Err(CborEncodingBufferTooSmall);
    }
  }

  lemma EncodeNone()
    ensures EncodeAll([]) == []
  {
  }

  // ----- sizes -----

  /** A head takes at most nine bytes. */
  lemma EncodedLen(item: CborItem)
    ensures |Encode(item)| <= 9 + if item.ByteString? || item.TextString? then |item.content| else 0
  {
  }

  lemma NumberSize(v: nat)
    requires v < 0x1_0000
    ensures |Encode(Int(v))| == if v < 24 then 1 else if v < 0x100 then 2 else 3
  {
  }

  lemma ArraySize(n: nat)
    requires n < 24
    ensures |Encode(ArrayHead(n))| == 1
  {
  }

  lemma StringSize(s: bytes)
    requires |s| < 0x1_0000
    ensures |Encode(ByteString(s))| == |s| + if |s| < 24 then 1 else if |s| < 0x100 then 2 else 3
  {
  }

  lemma TextSize(s: bytes)
    requires |s| < 24
    ensures |Encode(TextString(s))| == |s| + 1
  {
  }

  lemma {:induction false} ThreeItems(items: seq<CborItem>)
    requires |items| == 3
    ensures EncodeAll(items) == Encode(items[0]) + Encode(items[1]) + Encode(items[2])
  {
    hide Encode;
    EncodeOne(items[2]);
    assert items[1..][1..] == [items[2]];
    AppendAssoc(Encode(items[0]), Encode(items[1]), Encode(items[2]));
  }

  lemma FourItems(items: seq<CborItem>)
    requires |items| == 4
    ensures |EncodeAll(items)|
         == |Encode(items[0])| + |Encode(items[1])| + |Encode(items[2])| + |Encode(items[3])|
  {
    hide Encode;
    ThreeItems(items[1..]);
  }

  lemma FiveItems(items: seq<CborItem>)
    requires |items| == 5
    ensures |EncodeAll(items)|
         == |Encode(items[0])| + |Encode(items[1])| + |Encode(items[2])| + |Encode(items[3])| + |Encode(items[4])|
  {
    hide Encode;
    FourItems(items[1..]);
  }
}
