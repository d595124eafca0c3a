/**
 * The transcript hashes of EDHOC (modules/edhoc/src/th.c): how their inputs are encoded, and
 * what an equal TH_4 says about the messages.
 */
module EdhocTh {
  import opened Bytes
  import opened Cbor
  import opened Hkdf
  import opened Edhoc

  const TH_INPUT_DEFAULT_SIZE: nat := 256 + (8 + 32 + 1)

  // ----- inputs -----

  /** What follows message 1 in the input of TH_2; C_I only if its length is passed. */
  function Th2Items(cI: ShortString, gY: ShortString, cR: ShortString): seq<CborItem> {
    (if cI == [] then [] else [ByteString(cI)]) + [ByteString(gY), BstrIdentifier(cR)]
  }

  function Th2Input(msg1: bytes, cI: ShortString, gY: ShortString, cR: ShortString): Result<bytes> {
    if |msg1| > TH_INPUT_DEFAULT_SIZE then Err(DestBufferTooSmall)
    else
      var data :- EncodeInto(Th2Items(cI, gY, cR), TH_INPUT_DEFAULT_SIZE - |msg1|);
      Ok(msg1 + data)
  }

  function Th3Items(th2: Digest, ciphertext2: ShortString, data3: ShortString): seq<CborItem> {
    [ByteString(th2), ByteString(ciphertext2), BstrIdentifier(data3)]
  }

  function Th4Items(th3: Digest, ciphertext3: ShortString): seq<CborItem> {
    [ByteString(th3), ByteString(ciphertext3)]
  }

  // ----- hashes -----

  function Th2(cr: EdhocCrypto, msg1: bytes, cI: ShortString, gY: ShortString, cR: ShortString): Result<Digest> {
    var input :- Th2Input(msg1, cI, gY, cR);
    Ok(cr.hash(input))
  }

  function Th3(cr: EdhocCrypto, th2: Digest, ciphertext2: ShortString, data3: ShortString): Result<Digest> {
    var input :- EncodeInto(Th3Items(th2, ciphertext2, data3), |th2| + |ciphertext2| + |data3| + 6);
    Ok(cr.hash(input))
  }

  function Th4(cr: EdhocCrypto, th3: Digest, ciphertext3: ShortString): Result<Digest> {
    var input :- EncodeInto(Th4Items(th3, ciphertext3), |th3| + |ciphertext3| + 4);
    Ok(cr.hash(input))
  }

  /** Copies message 1 into the input buffer and encodes the rest behind it. */
  method Th2Calculate(cr: EdhocCrypto, msg1: bytes, cI: ShortString, gY: ShortString, cR: ShortString)
      returns (r: Result<Digest>)
    ensures r == Th2(cr, msg1, cI, gY, cR)
  {
    hide EncodeInto;
    if |msg1| > TH_INPUT_DEFAULT_SIZE {
      return Err(DestBufferTooSmall);
    }
    var buffer := new byte[TH_INPUT_DEFAULT_SIZE](_ => 0);
    CopyInto(buffer, 0, msg1);
    var data := EncodeItems(Th2Items(cI, gY, cR), TH_INPUT_DEFAULT_SIZE - |msg1|);
    if data.Err? {
      return Err(data.error);
    }
    EncodeIntoFits(Th2Items(cI, gY, cR), TH_INPUT_DEFAULT_SIZE - |msg1|);
    CopyInto(buffer, |msg1|, data.value);
    assert buffer[..|msg1| + |data.value|] == msg1 + data.value;
    r := Ok(cr.hash(buffer[..|msg1| + |data.value|]));
  }

  lemma EncodeIntoFits(items: seq<CborItem>, cap: nat)
    ensures EncodeInto(items, cap).Ok? ==> |EncodeInto(items, cap).value| <= cap
  {
  }

  method Th3Calculate(cr: EdhocCrypto, th2: Digest, ciphertext2: ShortString, data3: ShortString)
      returns (r: Result<Digest>)
    ensures r == Th3(cr, th2, ciphertext2, data3)
  {
    hide EncodeInto;
    var input := EncodeItems(Th3Items(th2, ciphertext2, data3), |th2| + |ciphertext2| + |data3| + 6);
    if input.Err? {
      return Err(input.error);
    }
    r := Ok(cr.hash(input.value));
  }

  method Th4Calculate(cr: EdhocCrypto, th3: Digest, ciphertext3: ShortString) returns (r: Result<Digest>)
    ensures r == Th4(cr, th3, ciphertext3)
  {
    hide EncodeInto;
    var input := EncodeItems(Th4Items(th3, ciphertext3), |th3| + |ciphertext3| + 4);
    if input.Err? {
      return Err(input.error);
    }
    r := Ok(cr.hash(input.value));
  }

  // ----- message 1 as a prefix -----

  /** The length of the first `k` items of `b`, None if there are not that many. */
  function ItemsLength(b: bytes, k: nat): (r: Option<nat>)
    ensures r.Some? ==> r.value <= |b|
  {
    if k == 0 then Some(0)
    else
      match ReadItem(b)
      case None => None
      case Some((_, used)) =>
        match ItemsLength(b[used..], k - 1)
        case None => None
        case Some(n) => Some(used + n)
  }

  /** `b` consists of exactly `k` items, in whatever encoding. */
  predicate IsItems(b: bytes, k: nat) { ItemsLength(b, k) == Some(|b|) }

  lemma ReadHeadPrefix(b: bytes, rest: bytes)
    requires ReadHead(b).Some?
    ensures ReadHead(b + rest) == ReadHead(b)
  {
    hide BigEndianValue;
    var k := ReadHead(b).value.2 - 1;
    assert (b + rest)[1..1 + k] == b[1..1 + k];
  }

  /** Reading an item does not look beyond it. */
  lemma ReadItemPrefix(b: bytes, rest: bytes)
    requires ReadItem(b).Some?
    ensures ReadItem(b + rest) == ReadItem(b)
  {
    ReadHeadPrefix(b, rest);
    var (major, arg, used) := ReadHead(b).value;
    hide ReadHead;
    if major == 2 || major == 3 {
      assert (b + rest)[used..used + arg] == b[used..used + arg];
    }
  }

  lemma {:induction false} ItemsLengthPrefix(b: bytes, k: nat, rest: bytes)
    requires ItemsLength(b, k).Some?
    ensures ItemsLength(b + rest, k) == ItemsLength(b, k)
    decreases k
  {
    hide ReadItem;
    if k > 0 {
      ReadItemPrefix(b, rest);
      var used := ReadItem(b).value.1;
      assert (b + rest)[used..] == b[used..] + rest;
      ItemsLengthPrefix(b[used..], k - 1, rest);
    }
  }

  /** `b` consists of items, however many. */
  ghost predicate IsSequence(b: bytes) { exists k: nat :: IsItems(b, k) }

  /** The items of two byte strings, one behind the other. */
  lemma {:induction false} ItemsJoin(a: bytes, k: nat, x: bytes, m: nat)
    requires IsItems(a, k) && IsItems(x, m)
    ensures IsItems(a + x, k + m)
    decreases k
  {
    hide ReadItem;
    if k == 0 {
      assert a + x == x;
    } else {
      ReadItemPrefix(a, x);
      var used := ReadItem(a).value.1;
      assert (a + x)[used..] == a[used..] + x;
      ItemsJoin(a[used..], k - 1, x, m);
    }
  }

  /** How many items there are is determined by the bytes. */
  lemma {:induction false} ItemsCount(b: bytes, k: nat, m: nat)
    requires IsItems(b, k) && IsItems(b, m)
    ensures k == m
    decreases k
  {
    hide ReadItem;
    if k > 0 && m > 0 {
      ItemsCount(b[ReadItem(b).value.1..], k - 1, m - 1);
    } else {
      assert b == [];
      NoItem();
    }
  }

  lemma NoItem()
    ensures ReadItem([]) == None
  {
  }

  lemma {:induction false} EncodedItems(items: seq<CborItem>)
    ensures IsItems(EncodeAll(items), |items|)
  {
    hide Encode, ReadItem;
    if items != [] {
      ReadItemWritten(items[0], EncodeAll(items[1..]));
      EncodedItems(items[1..]);
      assert EncodeAll(items)[|Encode(items[0])|..] == EncodeAll(items[1..]);
    }
  }

  /** A raw prefix of any number of items can be told from a known number of items behind it. */
  lemma PrefixUnique(a: bytes, x: bytes, b: bytes, y: bytes, m: nat)
    requires IsSequence(a) && IsSequence(b) && IsItems(x, m) && IsItems(y, m) && a + x == b + y
    ensures a == b && x == y
  {
    hide IsItems, ItemsLength;
    var k: nat :| IsItems(a, k);
    var n: nat :| IsItems(b, n);
    ItemsJoin(a, k, x, m);
    ItemsJoin(b, n, y, m);
    ItemsCount(a + x, k + m, n + m);
    SameLength(a, b, k, x, y);
    SplitAt(a, x, b, y);
  }

  lemma SameLength(a: bytes, b: bytes, k: nat, x: bytes, y: bytes)
    requires IsItems(a, k) && IsItems(b, k) && a + x == b + y
    ensures |a| == |b|
  {
    ItemsLengthPrefix(a, k, x);
    ItemsLengthPrefix(b, k, y);
    hide ItemsLength;
  }

  // ----- transcript binding -----

  /** Two different inputs with the same hash. */
  predicate Collision(cr: EdhocCrypto, x: bytes, y: bytes) { x != y && cr.hash(x) == cr.hash(y) }

  /** What the hash chain of a session with corr = 1 runs over. */
  datatype Transcript = Transcript(msg1: bytes, gY: ShortString, cR: ShortString, ciphertext2: ShortString,
      ciphertext3: ShortString)

  /** TH_2, TH_3 and TH_4 can be computed; message 1 is a sequence of items, with AD_1 or without. */
  ghost predicate Hashable(cr: EdhocCrypto, t: Transcript) {
    && IsSequence(t.msg1)
    && Th2(cr, t.msg1, [], t.gY, t.cR).Ok?
    && Th3(cr, Th2(cr, t.msg1, [], t.gY, t.cR).value, t.ciphertext2, t.cR).Ok?
    && Th4(cr, Th3(cr, Th2(cr, t.msg1, [], t.gY, t.cR).value, t.ciphertext2, t.cR).value, t.ciphertext3).Ok?
  }

  ghost function Th2Of(cr: EdhocCrypto, t: Transcript): Digest
    requires Hashable(cr, t)
  {
    Th2(cr, t.msg1, [], t.gY, t.cR).value
  }

  ghost function Th3Of(cr: EdhocCrypto, t: Transcript): Digest
    requires Hashable(cr, t)
  {
    Th3(cr, Th2Of(cr, t), t.ciphertext2, t.cR).value
  }

  ghost function Th4Of(cr: EdhocCrypto, t: Transcript): Digest
    requires Hashable(cr, t)
  {
    Th4(cr, Th3Of(cr, t), t.ciphertext3).value
  }

  function Th2Bytes(msg1: bytes, gY: ShortString, cR: ShortString): bytes { msg1 + EncodeAll(Th2Items([], gY, cR)) }

  lemma Th2InputUnique(msg1: bytes, gY: ShortString, cR: ShortString, msg1': bytes, gY': ShortString, cR': ShortString)
    requires IsSequence(msg1) && IsSequence(msg1') && Th2Bytes(msg1, gY, cR) == Th2Bytes(msg1', gY', cR')
    ensures msg1 == msg1' && gY == gY' && cR == cR'
  {
    hide EncodeAll, IsItems, IsSequence, BstrIdentifier;
    var a, b := Th2Items([], gY, cR), Th2Items([], gY', cR');
    EncodedItems(a);
    EncodedItems(b);
    PrefixUnique(msg1, EncodeAll(a), msg1', EncodeAll(b), 2);
    ItemsUnique(a, b);
    assert a[0] == b[0] && a[1] == b[1];
    BstrIdentifierUnique(cR, cR');
  }

  lemma Th3InputUnique(th2: Digest, c2: ShortString, d: ShortString, th2': Digest, c2': ShortString, d': ShortString)
    requires EncodeAll(Th3Items(th2, c2, d)) == EncodeAll(Th3Items(th2', c2', d'))
    ensures th2 == th2' && c2 == c2' && d == d'
  {
    hide EncodeAll, BstrIdentifier;
    var a, b := Th3Items(th2, c2, d), Th3Items(th2', c2', d');
    ItemsUnique(a, b);
    assert a[0] == b[0] && a[1] == b[1] && a[2] == b[2];
    BstrIdentifierUnique(d, d');
  }

  lemma Th4InputUnique(th3: Digest, c3: ShortString, th3': Digest, c3': ShortString)
    requires EncodeAll(Th4Items(th3, c3)) == EncodeAll(Th4Items(th3', c3'))
    ensures th3 == th3' && c3 == c3'
  {
    hide EncodeAll;
    var a, b := Th4Items(th3, c3), Th4Items(th3', c3');
    ItemsUnique(a, b);
    assert a[0] == b[0] && a[1] == b[1];
  }

  /**
   * Equal TH_4 means equal message 1, G_Y, C_R and both ciphertexts, unless two of the hashed
   * inputs collide.
   */
  lemma TranscriptBinding(cr: EdhocCrypto, t: Transcript, t': Transcript)
    requires Hashable(cr, t) && Hashable(cr, t') && Th4Of(cr, t) == Th4Of(cr, t')
    ensures
      || t == t'
      || Collision(cr, Th2Bytes(t.msg1, t.gY, t.cR), Th2Bytes(t'.msg1, t'.gY, t'.cR))
      || Collision(cr, EncodeAll(Th3Items(Th2Of(cr, t), t.ciphertext2, t.cR)),
         EncodeAll(Th3Items(Th2Of(cr, t'), t'.ciphertext2, t'.cR)))
      || Collision(cr, EncodeAll(Th4Items(Th3Of(cr, t), t.ciphertext3)),
         EncodeAll(Th4Items(Th3Of(cr, t'), t'.ciphertext3)))
  {
    hide EncodeAll, Th2Items, Th3Items, Th4Items, IsSequence;
    var a4, b4 := EncodeAll(Th4Items(Th3Of(cr, t), t.ciphertext3)), EncodeAll(Th4Items(Th3Of(cr, t'), t'.ciphertext3));
    var a3, b3 := EncodeAll(Th3Items(Th2Of(cr, t), t.ciphertext2, t.cR)),
        EncodeAll(Th3Items(Th2Of(cr, t'), t'.ciphertext2, t'.cR));
    if a4 == b4 {
      Th4InputUnique(Th3Of(cr, t), t.ciphertext3, Th3Of(cr, t'), t'.ciphertext3);
      if a3 == b3 {
        Th3InputUnique(Th2Of(cr, t), t.ciphertext2, t.cR, Th2Of(cr, t'), t'.ciphertext2, t'.cR);
        if Th2Bytes(t.msg1, t.gY, t.cR) == Th2Bytes(t'.msg1, t'.gY, t'.cR) {
          Th2InputUnique(t.msg1, t.gY, t.cR, t'.msg1, t'.gY, t'.cR);
        }
      }
    }
  }
}
