/**
 * The CBOR structures OSCORE feeds to its cryptography: the additional authenticated data
 * (section 5.4 of RFC 8613, modules/oscore/src/aad.c), the Enc_structure around it
 * (modules/oscore/src/oscore_cose.c), and the HKDF info (modules/oscore/src/hkdf_info.c).
 */
module Aad {
  import opened Bytes
  import opened OscoreErrors
  import opened Coap
  import opened Cbor
  import opened Nonce
  import opened Options

  /** A byte array whose length fits the 32-bit length field. */
  type ByteArray = b: bytes | |b| < 0x1_0000_0000
  /** What the AAD buffer of 30 bytes can hold. */
  type AadBytes = b: bytes | |b| <= 30

  const AES_CCM_16_64_128: int := 10
  const ENCRYPT0: bytes := [0x45, 0x6e, 0x63, 0x72, 0x79, 0x70, 0x74, 0x30]

  // ----- class I options -----

  datatype OptionClass = ClassI | ClassE {
    /** No class I options are defined. */
    predicate Contains(number: uint16) { ClassE? && IsClassE(number) }
  }

  function FieldLen(v: uint16): nat { if v < 13 then 0 else if v < 269 then 1 else 2 }

  function FullLen(o: CoapOption): nat { 1 + FieldLen(o.delta) + FieldLen(|o.value|) + |o.value| }

  /** The serialised length of the options of a class, from the running number `number` on. */
  function EncodedLen(class_: OptionClass, os: seq<CoapOption>, number: uint16): nat {
    if os == [] then 0
    else
      var nr := U16(number + os[0].delta);
      (if class_.Contains(nr) then FullLen(os[0]) else 0) + EncodedLen(class_, os[1..], nr)
  }

  /** Whatever the options, none of them enters the AAD. */
  lemma {:induction false} NoClassI(os: seq<CoapOption>, number: uint16)
    ensures EncodedLen(ClassI, os, number) == 0
  {
    if os != [] {
      NoClassI(os[1..], U16(number + os[0].delta));
    }
  }

  /** The loop that adds up the lengths of the options of a class. */
  method EncodedOptionLen(class_: OptionClass, options: seq<CoapOption>) returns (len: nat)
    ensures len == EncodedLen(class_, options, 0)
  {
    hide FullLen;
    len := 0;
    var total: uint16 := 0;
    assert options[0..] == options;
    for i := 0 to |options|
      invariant EncodedLen(class_, options, 0) == len + EncodedLen(class_, options[i..], total)
    {
      assert options[i..][0] == options[i] && options[i..][1..] == options[i + 1..];
      total := U16(total + options[i].delta);
      if !class_.Contains(total) {
        continue;
      }
      len := len + FullLen(options[i]);
    }
  }

  // ----- the AAD -----

  /** Version 1, one algorithm, the KID and Partial IV of the request, no class I options. */
  function AadItems(kid: Kid, piv: Piv): seq<CborItem> {
    [ArrayHead(5), Int(1), ArrayHead(1), Int(AES_CCM_16_64_128), ByteString(kid), ByteString(piv), ByteString([])]
  }

  function AadOf(kid: Kid, piv: Piv): (a: AadBytes)
    ensures |a| <= 19
  {
    AadLen(kid, piv);
    EncodeAll(AadItems(kid, piv))
  }

  lemma ShortItem(item: CborItem)
    ensures ((item.Int? && 0 <= item.value < 24) || (item.ArrayHead? && item.count < 24)) ==> |Encode(item)| == 1
    ensures item.ByteString? && |item.content| < 24 ==> |Encode(item)| == 1 + |item.content|
  {
  }

  lemma EncodeAllUnfold(items: seq<CborItem>)
    requires items != []
    ensures |EncodeAll(items)| == |Encode(items[0])| + |EncodeAll(items[1..])|
    ensures |EncodeAll([])| == 0
  {
    hide Encode;
  }

  lemma AadLen(kid: Kid, piv: Piv)
    ensures |EncodeAll(AadItems(kid, piv))| == 7 + |kid| + |piv|
  {
    hide Encode, EncodeAll;
    var items := AadItems(kid, piv);
    for k := 0 to 7
      invariant |EncodeAll(items)|
             == |EncodeAll(items[k..])| + k + (if k > 4 then |kid| else 0) + (if k > 5 then |piv| else 0)
    {
      ShortItem(items[k]);
      EncodeAllUnfold(items[k..]);
      assert items[k..][1..] == items[k + 1..];
    }
    assert items[7..] == [];
    EncodeAllUnfold(items);
  }

  /** Equal AADs come from equal KIDs and equal Partial IVs. */
  lemma AadUnique(kid: Kid, piv: Piv, kid': Kid, piv': Piv)
    requires AadOf(kid, piv) == AadOf(kid', piv')
    ensures kid == kid' && piv == piv'
  {
    hide EncodeAll;
    ItemsUnique(AadItems(kid, piv), AadItems(kid', piv'));
    assert AadItems(kid, piv)[4] == AadItems(kid', piv')[4];
    assert AadItems(kid, piv)[5] == AadItems(kid', piv')[5];
  }

  /** Encodes the AAD into a buffer; also used with an empty buffer to learn the length. */
  method EncodeAad(options: seq<CoapOption>, kid: Kid, piv: Piv, buffer: array<byte>) returns (needed: nat)
    modifies buffer
    ensures needed == |AadOf(kid, piv)|
    ensures needed <= buffer.Length ==> buffer[..needed] == AadOf(kid, piv)
  {
    hide EncodeAll, Encode;
    var enc := new Encoder(buffer);
    var fits := enc.Put(ArrayHead(5));
    fits := enc.Put(Int(1));
    fits := enc.Put(ArrayHead(1));
    fits := enc.Put(Int(AES_CCM_16_64_128));
    fits := enc.Put(ByteString(kid));
    fits := enc.Put(ByteString(piv));
    var classILen := EncodedOptionLen(ClassI, options);
    NoClassI(options, 0);
    var classI := new byte[classILen](_ => 0);
    assert classI[..] == [];
    fits := enc.Put(ByteString(classI[..]));
    assert enc.items == AadItems(kid, piv);
    needed := enc.needed;
  }

  /** First the length, then the bytes: the result does not depend on the options. */
  method CreateAad(options: seq<CoapOption>, kid: Kid, piv: Piv) returns (aad: AadBytes)
    ensures aad == AadOf(kid, piv)
  {
    var nothing := new byte[0];
    var len := EncodeAad(options, kid, piv, nothing);
    var buffer := new byte[len](_ => 0);
    len := EncodeAad(options, kid, piv, buffer);
    aad := buffer[..];
  }

  // ----- the Enc_structure -----

  function EncItems(aad: AadBytes): seq<CborItem> {
    [ArrayHead(3), TextString(ENCRYPT0), ByteString([]), ByteString(aad)]
  }

  function EncStructure(aad: AadBytes): bytes { EncodeAll(EncItems(aad)) }

  lemma EncStructureUnique(a: AadBytes, b: AadBytes)
    requires EncStructure(a) == EncStructure(b)
    ensures a == b
  {
    hide EncodeAll;
    ItemsUnique(EncItems(a), EncItems(b));
    assert EncItems(a)[3] == EncItems(b)[3];
  }

  // ----- the HKDF info -----

  datatype DeriveType = KeyType | IvType {
    function Name(): bytes { if KeyType? then [0x4b, 0x65, 0x79] else [0x49, 0x56] }
    function Len(): nat { if KeyType? then 16 else 13 }
  }

  function InfoItems(id: ByteArray, idContext: ByteArray, kind: DeriveType): seq<CborItem> {
    [ArrayHead(5), ByteString(id), if idContext == [] then Null else ByteString(idContext),
     Int(AES_CCM_16_64_128), TextString(kind.Name()), Int(kind.Len())]
  }

  function Info(id: ByteArray, idContext: ByteArray, kind: DeriveType): bytes {
    EncodeAll(InfoItems(id, idContext, kind))
  }

  /** Distinct ids, ID contexts or types have distinct infos. */
  lemma InfoUnique(id: ByteArray, context: ByteArray, kind: DeriveType, id': ByteArray, context': ByteArray,
      kind': DeriveType)
    requires Info(id, context, kind) == Info(id', context', kind')
    ensures id == id' && context == context' && kind == kind'
  {
    hide EncodeAll;
    var a, b := InfoItems(id, context, kind), InfoItems(id', context', kind');
    ItemsUnique(a, b);
    assert a[1] == b[1] && a[2] == b[2] && a[5] == b[5];
  }
}
