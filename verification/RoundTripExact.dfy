/**
 * When exactly the receiver recovers the packet: the conditions are necessary as well, unless
 * the receiver's AEAD opens something that the sender did not seal.
 */
module RoundTripExact {
  import opened Bytes
  import opened OscoreErrors
  import opened Coap
  import opened Options
  import opened SplitMerge
  import opened Hkdf
  import opened Nonce
  import opened OscoreValue
  import opened Aad
  import opened Context
  import opened Protect
  import opened Unprotect
  import opened RoundTrip

  // ----- the encrypted part -----

  /** More room in the output changes no result. */
  lemma {:induction false} MoreRoom(rule: LengthRule, data: bytes, n: nat, number: byte, room: nat, more: nat)
    requires ParseOptions(rule, data, n, number, room).Ok?
    ensures ParseOptions(rule, data, n, number, room + more) == ParseOptions(rule, data, n, number, room)
    decreases |data|
  {
    hide ParseOne;
    if n > 0 {
      var (o, used) := ParseOne(rule, data, number).value;
      MoreRoom(rule, data[used..], if used < n then n - used else 0, o.number, room - 1, more);
    }
  }

  /** If the payload comes back at all, then the options do. */
  lemma PayloadRight(code: byte, es: seq<CoapOption>, payload: bytes)
    requires WellNumbered(es, 0)
    requires var d := ParsePlaintext(PlaintextBytes(code, es, payload)); d.Ok? && d.value.payload == payload
    ensures ParsePlaintext(PlaintextBytes(code, es, payload)) == Ok(Decrypted(code, es, payload))
  {
    var plaintext, rest := PlaintextBytes(code, es, payload), EncodeOptions(es) + PayloadPart(payload);
    AppendAssoc([code], EncodeOptions(es), PayloadPart(payload));
    hide EncodeOptions, PayloadPart, ParseOptions, WellNumbered, OptionBytesMarkerFree, MarkerIndex;
    assert plaintext[1..] == rest && plaintext[0] == code;
    if !OptionBytesMarkerFree(EncodeOptions(es), payload) {
      MarkerInside(EncodeOptions(es), payload);
    }
    RestRead(SubtractLength, es, payload, MAX_E_OPTIONS + |es|);
    MoreRoom(SubtractLength, rest, MarkerIndex(rest), 0, MAX_E_OPTIONS, |es|);
  }

  // ----- the OSCORE option among others -----

  /** Within a class, too, the numbers ascend. */
  lemma {:induction false} ClassIsSorted(os: seq<CoapOption>, encrypted: bool, number: byte)
    requires Numbered(os, number)
    ensures var us := OfClass(os, encrypted);
            && (forall o <- us :: number <= o.number)
            && (forall i, j :: 0 <= i < j < |us| ==> us[i].number <= us[j].number)
  {
    if os != [] {
      ClassIsSorted(os[1..], encrypted, os[0].number);
      var rest := OfClass(os[1..], encrypted);
      assert forall j :: 0 <= j < |rest| ==> rest[j] in rest;
      hide IsClassE;
    }
  }

  /** Whatever comes before, the scan fails or goes on with some result so far. */
  lemma {:induction false} FindThrough(a: seq<CoapOption>, b: seq<CoapOption>, found: Option<Compressed>)
      returns (soFar: Option<Compressed>)
    ensures FindOscore(a + b, found).Err? || FindOscore(a + b, found) == FindOscore(b, soFar)
  {
    hide ParseValue;
    soFar := found;
    if a == [] {
      assert a + b == b;
    } else {
      assert (a + b)[1..] == a[1..] + b;
      if a[0].number != OSCORE {
        soFar := FindThrough(a[1..], b, found);
      } else if a[0].value == [] {
        soFar := FindThrough(a[1..], b, if found.Some? then found else Some(Unset));
      } else if ParseValue(a[0].value).Ok? {
        soFar := FindThrough(a[1..], b, Some(ParseValue(a[0].value).value));
      }
    }
  }

  /** The option list in three parts: up to OSCORE, OSCORE, and what is numbered above it. */
  lemma OscoreApart(os: seq<CoapOption>, value: Value)
    requires Numbered(os, 0)
    ensures var us := Rebase(OfClass(os, false), 0);
            var w, k := WithOscore(us, value), OscorePosition(us);
            && |w| == |us| + 1 && w[k].number == OSCORE && w[k].value == value
            && w == w[..k] + ([w[k]] + w[k + 1..])
            && (forall o <- w[k + 1..] :: o.number != OSCORE)
  {
    hide *;
    var c, us := OfClass(os, false), Rebase(OfClass(os, false), 0);
    var w, k := WithOscore(us, value), OscorePosition(us);
    ClassIsSorted(os, false, 0);
    RebaseContent(c, 0);
    OscoreIsAmong(us, value);
    PositionMeans(us);
    BehindIsAbove(c, us, w[..k], w[k + 1..]);
    Middle(w, k);
  }

  lemma PositionMeans(us: seq<CoapOption>)
    ensures OscorePosition(us) < |us| ==> us[OscorePosition(us)].number > OSCORE
  {
  }

  lemma BehindIsAbove(c: seq<CoapOption>, us: seq<CoapOption>, front: seq<CoapOption>, back: seq<CoapOption>)
    requires SameContent(us, c) && SameContent(front + back, us) && |front| <= |us|
    requires forall i, j :: 0 <= i < j < |c| ==> c[i].number <= c[j].number
    requires |front| < |us| ==> us[|front|].number > OSCORE
    ensures forall j :: 0 <= j < |back| ==> back[j].number > OSCORE
  {
    hide *;
    ContentLength(us, c);
    ContentLength(front + back, us);
    forall j | 0 <= j < |back|
      ensures back[j].number > OSCORE
    {
      assert c[|front|].number <= c[|front| + j].number;
      AboveAt(c, us, front, back, j);
    }
  }

  lemma Middle<T>(s: seq<T>, k: nat)
    requires k < |s|
    ensures s == s[..k] + ([s[k]] + s[k + 1..])
  {
  }

  lemma ContentLength(a: seq<CoapOption>, b: seq<CoapOption>)
    requires SameContent(a, b)
    ensures |a| == |b|
  {
  }

  lemma AboveAt(c: seq<CoapOption>, us: seq<CoapOption>, front: seq<CoapOption>, back: seq<CoapOption>, j: nat)
    requires j < |back| && SameContent(us, c) && SameContent(front + back, us)
    requires c[|front|].number <= c[|front| + j].number && us[|front|].number > OSCORE
    ensures back[j].number > OSCORE
  {
    assert (front + back)[|front| + j] == back[j];
    assert us[|front|].number == c[|front|].number;
  }

  /** The receiver's scan fails, or finds the value that the sender put in last. */
  lemma FoundOrFails(p: Packet, value: Value)
    requires Numbered(p.options, 0)
    ensures var r := FindOscore(WithOscore(OuterOf(p), value), None);
            r.Err? || (r.value.Some? && (value != [] && ParseValue(value).Ok?
                ==> r.value.value == ParseValue(value).value))
  {
    hide ParseValue, WithOscore, Numbered, OfClass, Rebase, OscorePosition;
    OscoreApart(p.options, value);
    var w, k := WithOscore(OuterOf(p), value), OscorePosition(OuterOf(p));
    var back := w[k + 1..];
    var soFar := FindThrough(w[..k], [w[k]] + back, None);
    assert ([w[k]] + back)[1..] == back && back + [] == back;
    FindOscoreAppend(back, [], soFar);
    FindOscoreAppend(back, [], Some(Unset));
    if value != [] && ParseValue(value).Ok? {
      FindOscoreAppend(back, [], Some(ParseValue(value).value));
    }
  }

  // ----- how the outer packet is read -----

  /** If the payload is read as it was, then the options before it contain no marker. */
  lemma OuterShape(q: Packet, q': Packet)
    requires WellNumbered(q.options, 0) && q.payload != []
    requires Parse(Serialize(q)) == Ok(q') && q'.payload == q.payload
    ensures PAYLOAD_MARKER !in EncodeOptions(q.options)
    ensures ParseOptions(AddLength, EncodeOptions(q.options) + PayloadPart(q.payload), |EncodeOptions(q.options)|, 0,
             MAX_OPTION_COUNT)
         == Ok(q'.options)
    ensures q' == q.(options := q'.options)
  {
    hide *;
    var e := EncodeOptions(q.options);
    ParseFront(q);
    WithRestMeans(q, e + PayloadPart(q.payload), q');
    if !OptionBytesMarkerFree(e, q.payload) {
      MarkerInside(e, q.payload);
    }
    if q.options != [] {
      EncodeOptionsStart(q.options);
    }
    EncodeNothing();
    MarkerAtEnd(e, q.payload);
    NoMarker(e, q.payload);
  }

  lemma WithRestMeans(q: Packet, rest: bytes, q': Packet)
    requires WithRest(q, rest) == Ok(q')
    ensures ParseOptions(AddLength, rest, MarkerIndex(rest), 0, MAX_OPTION_COUNT) == Ok(q'.options)
    ensures var n := MarkerIndex(rest); q'.payload == if n == |rest| then [] else rest[n + 1..]
    ensures q' == q.(options := q'.options, payload := q'.payload)
  {
    hide ParseOptions, MarkerIndex;
  }

  lemma NoMarker(e: bytes, payload: bytes)
    requires OptionBytesMarkerFree(e, payload) && payload != []
    ensures PAYLOAD_MARKER !in e
  {
    if e != [] {
      assert e == e[..|e| - 1] + [e[|e| - 1]];
    }
  }

  /** Conversely, without a marker the options end where the payload begins. */
  lemma ShapeWithoutMarker(q: Packet, q': Packet)
    requires PAYLOAD_MARKER !in EncodeOptions(q.options) && Parse(Serialize(q)) == Ok(q')
    ensures ParseOptions(AddLength, EncodeOptions(q.options) + PayloadPart(q.payload), |EncodeOptions(q.options)|, 0,
             MAX_OPTION_COUNT)
         == Ok(q'.options)
    ensures q'.code == q.code
  {
    hide *;
    var e := EncodeOptions(q.options);
    ParseFront(q);
    WithRestMeans(q, e + PayloadPart(q.payload), q');
    MarkerBehind(e, q.payload);
  }

  lemma MarkerBehind(e: bytes, payload: bytes)
    requires PAYLOAD_MARKER !in e
    ensures MarkerIndex(e + PayloadPart(payload)) == |e|
  {
    hide MarkerIndex;
    assert (e + PayloadPart(payload))[..|e|] == e;
    MarkerIndexUnique(e + PayloadPart(payload), |e|);
  }

  /** The index of the first option that is too long for the packet parser. */
  function FirstLong(os: seq<CoapOption>): (i: nat)
    ensures i <= |os|
    ensures forall j :: 0 <= j < i ==> |os[j].value| < 13
    ensures i < |os| ==> |os[i].value| >= 13
  {
    if os == [] || |os[0].value| >= 13 then 0 else 1 + FirstLong(os[1..])
  }

  /** The options of the OSCORE packet against the outer options of the packet it was made of. */
  lemma OuterLayout(p: Packet, value: Value)
    requires Numbered(p.options, 0)
    ensures var c, us := OfClass(p.options, false), OuterOf(p);
            var w, k := WithOscore(us, value), OscorePosition(us);
            && |c| == |us| && |w| == |us| + 1 && k <= |us|
            && w[k].number == OSCORE && w[k].value == value
            && forall j :: 0 <= j < k ==>
                 w[j].number == c[j].number && w[j].value == c[j].value && !IsClassE(c[j].number)
  {
    hide *;
    var c, us := OfClass(p.options, false), OuterOf(p);
    RebaseContent(c, 0);
    OscoreIsAmong(us, value);
    OfClassMembers(p.options, false);
    OuterIs(p);
    PositionBound(us);
    FrontIs(c, us, WithOscore(us, value), OscorePosition(us));
  }

  lemma OuterIs(p: Packet)
    ensures OuterOf(p) == Rebase(OfClass(p.options, false), 0)
  {
  }

  lemma PositionBound(us: seq<CoapOption>)
    ensures OscorePosition(us) <= |us|
  {
  }

  lemma FrontIs(c: seq<CoapOption>, us: seq<CoapOption>, w: seq<CoapOption>, k: nat)
    requires SameContent(us, c) && |w| == |us| + 1 && k <= |us| && SameContent(w[..k] + w[k + 1..], us)
    requires forall o <- c :: !IsClassE(o.number)
    ensures |c| == |us|
    ensures forall j :: 0 <= j < k ==> w[j].number == c[j].number && w[j].value == c[j].value && !IsClassE(c[j].number)
  {
    hide IsClassE;
    var rest := w[..k] + w[k + 1..];
    forall j | 0 <= j < k
      ensures w[j].number == c[j].number && w[j].value == c[j].value && !IsClassE(c[j].number)
    {
      assert rest[j] == w[j] && c[j] in c;
    }
  }

  lemma EncryptedAreE(p: Packet)
    ensures forall o <- EncryptedOf(p) :: IsClassE(o.number) && o.number != OSCORE
  {
    var e := OfClass(p.options, true);
    OfClassMembers(p.options, true);
    RebaseContent(e, 0);
    forall o <- EncryptedOf(p) ensures IsClassE(o.number) && o.number != OSCORE {
      var i :| 0 <= i < |e| && EncryptedOf(p)[i] == o;
      assert e[i] in e && e[i].number == o.number;
    }
  }

  /** The parts of the misread option list that the merge looks at. */
  lemma MisreadParts(w: seq<CoapOption>, rest: bytes, i: nat, xs: seq<CoapOption>)
    requires i < |w| && Misread(w, rest, i, xs)
    ensures i < |xs| && (forall j :: 0 <= j < i ==> xs[j] == w[j])
    ensures xs[i].number == w[i].number && |xs[i].value| != |w[i].value|
  {
    forall j | 0 <= j < i ensures xs[j] == w[j] {
      assert xs[..i][j] == w[..i][j];
    }
  }

  /**
   * If the packet is recovered although an outer option was misread, then that option is
   * OSCORE itself, and it comes last.
   */
  lemma MisreadIsOscore(p: Packet, value: Value, rest: bytes, i: nat, xs: seq<CoapOption>)
    requires Numbered(p.options, 0) && i <= |OuterOf(p)|
    requires i < |WithOscore(OuterOf(p), value)| && Misread(WithOscore(OuterOf(p), value), rest, i, xs)
    requires (exists o <- xs :: o.number == OSCORE) && Merge(xs, EncryptedOf(p)) == Ok(p.options)
    ensures i == |OuterOf(p)| == OscorePosition(OuterOf(p))
    ensures forall o <- OuterOf(p) :: o.number < OSCORE
  {
    hide *;
    var us, es, c := OuterOf(p), EncryptedOf(p), OfClass(p.options, false);
    var w, k, sorted := WithOscore(us, value), OscorePosition(us), Sort(NumbersToSort(xs, es));
    OuterLayout(p, value);
    MisreadParts(w, rest, i, xs);
    EncryptedAreE(p);
    NoOscoreToSort(xs, es);
    MergeIsWalk(xs, es);
    if i < k {
      WalkTakesFront(sorted, xs, es, 0, MAX_OPTION_COUNT, i + 1);
      TakenAt(c, xs, i + 1, i);
      assert false;
    }
    assert xs[k].number == OSCORE by { if k < i { assert xs[k] == w[k]; } }
    WalkTakesFew(sorted, xs, es, 0, MAX_OPTION_COUNT, k);
    forall j | 0 <= j < k ensures us[j].number < OSCORE {
      OuterNumbers(p, j);
      if us[j].number == OSCORE {
        assert xs[j] == w[j];
        WalkTakesFew(sorted, xs, es, 0, MAX_OPTION_COUNT, j);
      }
    }
    AllBelow(us);
  }

  lemma TakenAt(c: seq<CoapOption>, us: seq<CoapOption>, n: nat, j: nat)
    requires TakenFrom(c, us, n) && j < n && j < |c|
    ensures c[j].number == us[j].number && c[j].value == us[j].value
  {
  }

  lemma OuterNumbers(p: Packet, j: nat)
    requires j < OscorePosition(OuterOf(p))
    ensures j < |OuterOf(p)| == |OfClass(p.options, false)|
             && OuterOf(p)[j].number == OfClass(p.options, false)[j].number <= OSCORE
  {
    RebaseContent(OfClass(p.options, false), 0);
    hide OfClass, Rebase;
  }

  lemma AllBelow(us: seq<CoapOption>)
    requires forall j :: 0 <= j < |us| ==> us[j].number < OSCORE
    ensures forall o <- us :: o.number < OSCORE
  {
  }

  /** A value of 13 to 22 bytes is read 26 bytes too long, and all of them are taken for the KID. */
  lemma LongValueFound(us: seq<CoapOption>, piv: Piv, kid: Kid, kidContext: KidContext, rest: bytes,
      xs: seq<CoapOption>)
    requires forall o <- us :: o.number < OSCORE
    requires piv != [] && |OscoreValue.Value(piv, kid, kidContext)| >= 13
    requires var w := WithOscore(us, OscoreValue.Value(piv, kid, kidContext));
             |w| == |us| + 1 && Misread(w, rest, |us|, xs)
    ensures |rest| >= 26 && FindOscore(xs, None) == Ok(Some(Fields(Some(piv), kidContext, kid + rest[..26])))
  {
    ValueFits(piv, kid, kidContext);
    var value, n := OscoreValue.Value(piv, kid, kidContext), |us|;
    assert |value| <= 22;
    hide *;
    var w := WithOscore(us, value);
    OscoreComesLast(us, value);
    MisreadParts(w, rest, n, xs);
    LastLonger(w, rest, n, xs);
    assert xs[..n] == w[..n];
    LastApart(xs, n);
    FindOscoreLast(xs[..n], xs[n]);
    ParseValueLonger(piv, kid, kidContext, rest[..26]);
  }

  lemma LastLonger(w: seq<CoapOption>, rest: bytes, n: nat, xs: seq<CoapOption>)
    requires |w| == n + 1 && Misread(w, rest, n, xs) && |w[n].value| < 243
    ensures |xs| == n + 1 && |rest| >= 26 && xs[n].value == w[n].value + rest[..26]
  {
    var v := w[n].value;
    assert (v + rest)[..|v| + 26] == v + rest[..26];
  }

  // ----- what the receiver is given -----

  /** The context and the ciphertext with which the receiver's AEAD is called for the bytes `wire`. */
  function Presented(cr: Crypto, st: State, wire: bytes): Option<(State, bytes)> {
    match Parse(wire)
    case Err(_) => None
    case Ok(q) =>
      match FindOscore(q.options, None)
      case Ok(Some(fields)) =>
        var accepted := Accept(cr.hmac, st, q.code, fields);
        if accepted.0.Ok? then Some((accepted.1, q.payload)) else None
      case _ => None
  }

  /** The ciphertext and key, nonce and AAD are those under which the sender sealed `plaintext`. */
  predicate Genuine(cr: Crypto, sender: State, plaintext: bytes, st: State, ciphertext: bytes) {
    && st.rc.recipientKey == sender.sc.senderKey && st.rrc.nonce == sender.rrc.nonce && st.rrc.aad == sender.rrc.aad
    && sender.rrc.nonce.Some? && sender.rrc.aad.Some? && ciphertext == Sealed(cr, sender, plaintext)
  }

  /** The receiver's AEAD opens something, and it is not what the sender sealed. */
  predicate Forged(cr: Crypto, sender: State, plaintext: bytes, receiver: State, wire: bytes) {
    var given := Presented(cr, receiver, wire);
    && given.Some?
    && !Genuine(cr, sender, plaintext, given.value.0, given.value.1)
    && given.value.0.rrc.nonce.Some? && given.value.0.rrc.aad.Some?
    && cr.open(given.value.0.rc.recipientKey, given.value.0.rrc.nonce.value,
               EncStructure(given.value.0.rrc.aad.value), given.value.1).Some?
  }

  /** A packet recovered from the bytes `wire` was found to be protected, accepted, decrypted, read and merged. */
  lemma RecoveredMeans(cr: Crypto, receiver: State, wire: bytes, p: Packet)
      returns (q: Packet, st: State, plaintext: bytes)
    requires UnprotectBytes(cr, receiver, wire).0 == Ok(Some(p))
    ensures Parse(wire) == Ok(q) && Presented(cr, receiver, wire) == Some((st, q.payload))
    ensures st.rrc.nonce.Some? && st.rrc.aad.Some?
    ensures cr.open(st.rc.recipientKey, st.rrc.nonce.value, EncStructure(st.rrc.aad.value), q.payload)
             == Some(plaintext)
    ensures |q.payload| >= 8
    ensures exists o <- q.options :: o.number == OSCORE
    ensures var d := ParsePlaintext(plaintext);
            d.Ok? && d.value.payload == p.payload && Merge(q.options, d.value.es) == Ok(p.options)
  {
    hide FindOscore, Accept, Parse, EncStructure, ParsePlaintext, Merge;
    q := Parse(wire).value;
    FoundMeansPresent(q.options, None);
    st := Accept(cr.hmac, receiver, q.code, FindOscore(q.options, None).value.value).1;
    plaintext := cr.open(st.rc.recipientKey, st.rrc.nonce.value, EncStructure(st.rrc.aad.value), q.payload).value;
  }

  /** Whatever is received, the option numbers of a recovered packet are the exact sums of its deltas. */
  lemma RecoveredIsNumbered(cr: Crypto, receiver: State, wire: bytes, p: Packet)
    requires UnprotectBytes(cr, receiver, wire).0 == Ok(Some(p))
    ensures Numbered(p.options, 0)
  {
    hide *;
    var q, _, plaintext := RecoveredMeans(cr, receiver, wire, p);
    MergeIsNumbered(q.options, ParsePlaintext(plaintext).value.es);
  }

  lemma PayloadInside(wire: bytes, q: Packet)
    requires Parse(wire) == Ok(q)
    ensures |q.payload| <= |wire|
  {
    hide ParseOptions, Word, MarkerIndex;
  }

  /** What the AEAD does not open is refused; the context is the one the request has updated. */
  lemma NotOpened(cr: Crypto, receiver: State, wire: bytes, st: State, ciphertext: bytes)
    requires Presented(cr, receiver, wire) == Some((st, ciphertext)) && |ciphertext| >= 8
    requires st.rrc.nonce.Some? && st.rrc.aad.Some?
    requires cr.open(st.rc.recipientKey, st.rrc.nonce.value, EncStructure(st.rrc.aad.value), ciphertext).None?
    ensures UnprotectBytes(cr, receiver, wire) == (Err(AuthenticationError), st)
  {
    hide FindOscore, Accept, Parse, EncStructure, ParsePlaintext, Merge;
    FoundMeansPresent(Parse(wire).value.options, None);
  }

  /** Of a request with an empty OSCORE option the fields were never written; nothing is accepted. */
  lemma EmptyOptionNotAccepted(cr: Crypto, st: State, wire: bytes, q: Packet)
    requires Parse(wire) == Ok(q) && q.code < 0x20 && FindOscore(q.options, None) == Ok(Some(Unset))
    ensures UnprotectBytes(cr, st, wire) == (Err(Undefined), st)
  {
    hide Parse, FindOscore, Open, UpdateServer;
  }

  /** A packet without OSCORE option is left alone, and so is the context. */
  lemma PlainPacketPasses(cr: Crypto, st: State, wire: bytes, p: Packet)
    requires Parse(wire) == Ok(p) && forall o <- p.options :: o.number != 9
    ensures UnprotectBytes(cr, st, wire) == (Ok(None), st)
  {
    hide Parse, Accept, Open, FindOscore;
    FindOscoreAppend(p.options, [], None);
    assert p.options + [] == p.options;
    FindNothing();
  }

  lemma FindNothing()
    ensures FindOscore([], None) == Ok(None)
  {
  }

  // ----- necessary conditions -----

  /** What the sender made of the packet: the finished OSCORE packet and its bytes. */
  predicate SentAs(cr: Crypto, sender: State, p: Packet, value: Value, cap: uint16, q: Packet, wire: bytes) {
    && PlaintextOf(p).Ok?
    && Finish(cr, sender, p, Split(p.options, 0, 0, 0).u, value, PlaintextOf(p).value) == Ok(q)
    && WritePacket(q, cap) == Ok(wire)
    && sender.rrc.nonce.Some? && sender.rrc.aad.Some?
  }

  lemma SentAsMeans(cr: Crypto, sender: State, p: Packet, value: Value, cap: uint16, q: Packet, wire: bytes)
    requires AeadCorrect(cr) && SentAs(cr, sender, p, value, cap, q, wire)
    ensures PlaintextOf(p).Ok? && sender.rrc.nonce.Some? && sender.rrc.aad.Some?
    ensures wire == Serialize(q) && |wire| <= cap
    ensures q.options == WithOscore(Split(p.options, 0, 0, 0).u, value) && q.token == p.token
    ensures |Split(p.options, 0, 0, 0).u| < MAX_OPTION_COUNT
    ensures q.payload == PayloadOf(Sealed(cr, sender, PlaintextOf(p).value))
    ensures IsRequest(q.code) <==> IsRequest(p.code)
    ensures |Sealed(cr, sender, PlaintextOf(p).value)| == |PlaintextOf(p).value| + 8
    ensures cr.open(sender.sc.senderKey, sender.rrc.nonce.value, EncStructure(sender.rrc.aad.value),
                    Sealed(cr, sender, PlaintextOf(p).value)) == Some(PlaintextOf(p).value)
  {
    hide PlaintextOf, Split, WithOscore, Serialize, EncStructure, Finish, Sealed, IsRequest;
    FinishedPacket(cr, sender, p, Split(p.options, 0, 0, 0).u, value, PlaintextOf(p).value);
  }

  /** The encrypted part of a recovered packet was deliverable, and its payload arrived as it was sealed. */
  lemma InnerRecovered(cr: Crypto, sender: State, receiver: State, p: Packet, value: Value, cap: uint16, q: Packet,
      wire: bytes)
    returns (q': Packet)
    requires AeadCorrect(cr) && SentAs(cr, sender, p, value, cap, q, wire)
    requires UnprotectBytes(cr, receiver, wire).0 == Ok(Some(p))
    requires !Forged(cr, sender, PlaintextOf(p).value, receiver, wire)
    ensures Numbered(p.options, 0) && PlaintextFits(p) && |EncryptedOf(p)| <= 10
    ensures OptionBytesMarkerFree(EncodeOptions(EncryptedOf(p)), p.payload)
    ensures Parse(Serialize(q)) == Ok(q') && q'.payload == q.payload != [] && |q.payload| == |PlaintextFor(p)| + 8
    ensures q.options == WithOscore(OuterOf(p), value) && |OuterOf(p)| < MAX_OPTION_COUNT && SentLength(p, value) <= cap
    ensures (exists o <- q'.options :: o.number == OSCORE) && Merge(q'.options, EncryptedOf(p)) == Ok(p.options)
  {
    hide *;
    SentAsMeans(cr, sender, p, value, cap, q, wire);
    var q1, st, plaintext := RecoveredMeans(cr, receiver, wire, p);
    q' := q1;
    GenuineUnlessForged(cr, sender, PlaintextOf(p).value, receiver, wire, st, q'.payload);
    PayloadInside(wire, q');
    assert PayloadOf(q'.payload) == q'.payload by { NotCut(q'.payload); }
    MergeIsNumbered(q'.options, ParsePlaintext(plaintext).value.es);
    PlaintextSucceeds(p);
    EncryptedWellNumbered(p);
    PlaintextForIs(p);
    PayloadRight(p.code, EncryptedOf(p), p.payload);
    PlaintextRead(p.code, EncryptedOf(p), p.payload);
    SerializedLen(q);
    SentLengthIs(p, value);
  }

  lemma GenuineUnlessForged(cr: Crypto, sender: State, plaintext: bytes, receiver: State, wire: bytes, st: State,
      c: bytes)
    requires !Forged(cr, sender, plaintext, receiver, wire) && Presented(cr, receiver, wire) == Some((st, c))
    requires st.rrc.nonce.Some? && st.rrc.aad.Some? && sender.rrc.nonce.Some? && sender.rrc.aad.Some?
    requires cr.open(st.rc.recipientKey, st.rrc.nonce.value, EncStructure(st.rrc.aad.value), c).Some?
    ensures st.rc.recipientKey == sender.sc.senderKey && st.rrc.nonce == sender.rrc.nonce
             && st.rrc.aad == sender.rrc.aad
    ensures c == Sealed(cr, sender, plaintext)
  {
    hide Presented, EncStructure;
  }

  lemma NotCut(b: bytes)
    requires |b| < 0x1_0000
    ensures PayloadOf(b) == b
  {
  }

  lemma SentLengthIs(p: Packet, value: Value)
    ensures SentLength(p, value)
         == 4 + |p.token| + |EncodeOptions(WithOscore(OuterOf(p), value))| + 1 + |PlaintextFor(p)| + 8
  {
  }

  /** The outer part was readable, or only the OSCORE option itself, coming last, was too long. */
  lemma OuterRecovered(p: Packet, value: Value, q: Packet, q': Packet)
    requires Numbered(p.options, 0) && |p.options| <= MAX_OPTION_COUNT && |OuterOf(p)| < MAX_OPTION_COUNT
    requires q.options == WithOscore(OuterOf(p), value) && Parse(Serialize(q)) == Ok(q')
             && q'.payload == q.payload != []
    requires (exists o <- q'.options :: o.number == OSCORE) && Merge(q'.options, EncryptedOf(p)) == Ok(p.options)
    ensures Mergeable(p.options) && (|value| < 13 ==> OuterReadable(OuterOf(p), value))
    ensures |value| >= 13 ==>
              && (forall o <- OuterOf(p) :: o.number < OSCORE)
              && |q.options| == |OuterOf(p)| + 1 && Misread(q.options, PayloadPart(q.payload), |OuterOf(p)|, q'.options)
  {
    hide *;
    var us := OuterOf(p);
    var w, i := WithOscore(us, value), FirstLong(WithOscore(us, value));
    OuterWellNumbered(us, value);
    OuterShape(q, q');
    OuterLayout(p, value);
    FirstLongMeans(w);
    if i == |w| {
      assert w[OscorePosition(us)].value == value;
      ReadAsWritten(w, PayloadPart(q.payload), q'.options);
      MergedBack(p, value);
      ReadableUs(p, value);
    } else {
      FirstMisread(w, PayloadPart(q.payload), 0, MAX_OPTION_COUNT, i);
      MisreadIsOscore(p, value, PayloadPart(q.payload), i, q'.options);
      BelowMeansMergeable(p);
    }
  }

  lemma FirstLongMeans(os: seq<CoapOption>)
    ensures var i := FirstLong(os);
            && i <= |os| && (forall j :: 0 <= j < i ==> |os[j].value| < 13) && (i < |os| ==> |os[i].value| >= 13)
  {
  }

  lemma ReadAsWritten(w: seq<CoapOption>, rest: bytes, xs: seq<CoapOption>)
    requires WellNumbered(w, 0) && |w| <= MAX_OPTION_COUNT && forall j :: 0 <= j < |w| ==> |w[j].value| < 13
    requires ParseOptions(AddLength, EncodeOptions(w) + rest, |EncodeOptions(w)|, 0, MAX_OPTION_COUNT) == Ok(xs)
    ensures xs == w
  {
    hide WellNumbered, ParseOptions;
    if w != [] {
      assert w == w[..|w| - 1] + [w[|w| - 1]];
      EncodeOptionsAppend(w[..|w| - 1], [w[|w| - 1]]);
      EncodeOneOption(w[|w| - 1]);
    }
    hide EncodeOptions, EncodeOption;
    EncodeNothing();
    ParseEncoded(AddLength, w, rest, 0, MAX_OPTION_COUNT, |EncodeOptions(w)|);
  }

  lemma ReadableUs(p: Packet, value: Value)
    requires Numbered(p.options, 0) && |OuterOf(p)| < MAX_OPTION_COUNT
    requires var w := WithOscore(OuterOf(p), value);
             && PAYLOAD_MARKER !in EncodeOptions(w) && forall j :: 0 <= j < |w| ==> |w[j].value| < 13
    ensures OuterReadable(OuterOf(p), value)
  {
    var us := OuterOf(p);
    var w, k := WithOscore(us, value), OscorePosition(us);
    OscoreIsAmong(us, value);
    hide WithOscore, OscorePosition, OuterOf, Numbered, EncodeOptions;
    var rest := w[..k] + w[k + 1..];
    forall o <- us ensures |o.value| < 13 {
      var j :| 0 <= j < |us| && us[j] == o;
      assert rest[j].value == o.value;
      assert rest[j] == if j < k then w[j] else w[j + 1];
    }
  }

  lemma BelowMeansMergeable(p: Packet)
    requires forall o <- OuterOf(p) :: o.number < OSCORE
    ensures Mergeable(p.options)
  {
    hide Mergeable;
    LostIsOuter(p);
  }

  lemma LostIsOuter(p: Packet)
    ensures !Mergeable(p.options) ==> exists o <- OuterOf(p) :: o.number >= OSCORE
  {
    hide Mergeable, Rebase, OfClass;
    if !Mergeable(p.options) {
      var j := LostOption(p.options);
      assert OuterOf(p)[j] in OuterOf(p);
    }
  }

  // ----- requests -----

  /** A protected packet and its bytes, from a successful call. */
  lemma SentMeans(cr: Crypto, st: State, p: Packet, cap: uint16) returns (q: Packet)
    requires Send(cr, st, p, cap).0.Ok?
    ensures PlaintextOf(p).Ok? && Draw(st, p.code).0.Ok? && Send(cr, st, p, cap).1 == Draw(st, p.code).1
    ensures SentAs(cr, Draw(st, p.code).1, p, Draw(st, p.code).0.value, cap, q, Send(cr, st, p, cap).0.value)
  {
    hide Draw, PlaintextOf, Split, WithOscore, EncStructure, WritePacket;
    q := ProtectPacket(cr, st, p).0.value;
  }

  predicate RequestRecovered(cr: Crypto, client: State, server: State, p: Packet, cap: uint16) {
    var sent := Send(cr, client, p, cap).0;
    sent.Ok? && UnprotectBytes(cr, server, sent.value).0 == Ok(Some(p))
  }

  /** The receiver's AEAD was deceived about a packet that `sender` sent with its context `drawn`. */
  predicate Deceived(cr: Crypto, sender: State, drawn: State, receiver: State, p: Packet, cap: uint16) {
    && Send(cr, sender, p, cap).0.Ok? && PlaintextOf(p).Ok?
    && Forged(cr, drawn, PlaintextOf(p).value, receiver, Send(cr, sender, p, cap).0.value)
  }

  /**
   * A request is sent and recovered by the server exactly when it is deliverable: exact lengths,
   * numbers below 256 and none of 9, 35 and 39, at most ten encrypted options, no marker inside
   * the option bytes, outer options and OSCORE value shorter than 13, and room for it, and when
   * the client's ID context is the server's or no longer; unless the server's AEAD opens what the
   * client did not seal.
   */
  lemma RequestRecoveredExactly(cr: Crypto, client: State, server: State, p: Packet, cap: uint16)
    requires AeadCorrect(cr) && Related(cr.hmac, client, server) && IsRequest(p.code)
             && |p.options| <= MAX_OPTION_COUNT
    ensures RequestDeliverable(client, p, cap) && Adopts(cr.hmac, client, server) ==>
              RequestRecovered(cr, client, server, p, cap)
    ensures RequestRecovered(cr, client, server, p, cap) ==>
              || (RequestDeliverable(client, p, cap) && Adopts(cr.hmac, client, server))
              || Deceived(cr, client, NextRequest(client).1, server, p, cap)
  {
    hide *;
    RequestRecoveredIs(cr, client, server, p, cap);
    if RequestDeliverable(client, p, cap) && Adopts(cr.hmac, client, server) {
      RequestRoundTrip(cr, client, server, p, cap);
    } else if RequestRecovered(cr, client, server, p, cap)
        && !Deceived(cr, client, NextRequest(client).1, server, p, cap) {
      var q := SentMeans(cr, client, p, cap);
      DrawIs(client, p.code);
      var drawn, value, wire := NextRequest(client).1, NextRequest(client).0.value, Send(cr, client, p, cap).0.value;
      SentAsMeans(cr, drawn, p, value, cap, q, wire);
      NotDeceived(cr, client, drawn, server, p, cap);
      var q' := InnerRecovered(cr, drawn, server, p, value, cap, q, wire);
      OuterRecovered(p, value, q, q');
      ShortValue(cr, client, server, p, value, q, q', wire);
      IsDeliverable(client, p, cap);
      var _ := AcceptedAdopts(cr, client, server, p, value, q, wire);
    }
  }

  /** A readable request that is recovered was accepted, so the server could adopt the ID context. */
  lemma AcceptedAdopts(cr: Crypto, client: State, server: State, p: Packet, value: Value, q: Packet, wire: bytes)
      returns (st: State)
    requires Related(cr.hmac, client, server) && NextRequest(client).0 == Ok(value) && Numbered(p.options, 0)
    requires q.options == WithOscore(OuterOf(p), value) && OuterReadable(OuterOf(p), value) && wire == Serialize(q)
    requires IsRequest(q.code) && UnprotectBytes(cr, server, wire).0 == Ok(Some(p))
    ensures Adopts(cr.hmac, client, server) && Presented(cr, server, wire) == Some((st, q.payload))
    ensures Mirrored(cr.hmac, NextRequest(client).1, st) && Paired(NextRequest(client).1, st)
  {
    hide *;
    var q', accepted, _ := RecoveredMeans(cr, server, wire, p);
    st := accepted;
    OuterRead(q, OuterOf(p), value);
    ServerFollows(cr.hmac, client, server);
    FoundOrFails(p, value);
    PresentedIs(cr, server, wire, q, ParseValue(value).value, st);
    AcceptIs(cr.hmac, server, q.code, ParseValue(value).value);
  }

  lemma RequestRecoveredIs(cr: Crypto, client: State, server: State, p: Packet, cap: uint16)
    ensures RequestRecovered(cr, client, server, p, cap) <==>
              Send(cr, client, p, cap).0.Ok?
              && UnprotectBytes(cr, server, Send(cr, client, p, cap).0.value).0 == Ok(Some(p))
  {
    hide Send, UnprotectBytes;
  }

  lemma NotDeceived(cr: Crypto, sender: State, drawn: State, receiver: State, p: Packet, cap: uint16)
    requires !Deceived(cr, sender, drawn, receiver, p, cap) && Send(cr, sender, p, cap).0.Ok? && PlaintextOf(p).Ok?
    ensures !Forged(cr, drawn, PlaintextOf(p).value, receiver, Send(cr, sender, p, cap).0.value)
  {
    hide Forged, Send, PlaintextOf;
  }

  lemma DrawIs(st: State, code: byte)
    ensures Draw(st, code) == if IsRequest(code) then NextRequest(st) else (Ok([]), st)
  {
    hide NextRequest, IsRequest;
  }

  /** With a misread OSCORE value the KID is too long, and the request would have been refused. */
  lemma ShortValue(cr: Crypto, client: State, server: State, p: Packet, value: Value, q: Packet, q': Packet,
      wire: bytes)
    requires Related(cr.hmac, client, server) && NextRequest(client).0 == Ok(value) && wire == Serialize(q)
    requires Parse(wire) == Ok(q') && IsRequest(q.code) && q.options == WithOscore(OuterOf(p), value)
    requires |value| >= 13 ==>
               && (forall o <- OuterOf(p) :: o.number < OSCORE)
               && |q.options| == |OuterOf(p)| + 1
                  && Misread(q.options, PayloadPart(q.payload), |OuterOf(p)|, q'.options)
    ensures |value| >= 13 ==> UnprotectBytes(cr, server, wire).0 == Err(KidRecipientIdMismatch)
  {
    if |value| >= 13 {
      hide *;
      RelatedMeans(cr.hmac, client, server);
      NextRequestIs(client);
      SameCode(q, q');
      var piv, rest := SeqNum2Piv(client.sc.senderSeqNum).value, PayloadPart(q.payload);
      LongValueFound(OuterOf(p), piv, client.rrc.kid, client.rrc.kidContext.value, rest, q'.options);
      Refused(cr, server, wire, q', Fields(Some(piv), client.rrc.kidContext.value, client.rrc.kid + rest[..26]));
    }
  }

  lemma RelatedMeans(hmac: Hmac, client: State, server: State)
    requires Related(hmac, client, server)
    ensures client.rrc.kidContext.Some? && server.rc.recipientId == client.rrc.kid
  {
    hide KeysConsistent;
  }

  lemma SameCode(q: Packet, q': Packet)
    requires Parse(Serialize(q)) == Ok(q')
    ensures q'.code == q.code
  {
    ParseFront(q);
    hide Serialize, Parse, ParseOptions, EncodeOptions, MarkerIndex;
  }

  lemma Refused(cr: Crypto, server: State, wire: bytes, q: Packet, fields: Compressed)
    requires Parse(wire) == Ok(q) && IsRequest(q.code) && FindOscore(q.options, None) == Ok(Some(fields))
    requires fields.Fields? && fields.kid != server.rc.recipientId
    ensures UnprotectBytes(cr, server, wire).0 == Err(KidRecipientIdMismatch)
  {
    hide Parse, FindOscore, IsRequest, Open, UpdateServer;
  }

  lemma IsDeliverable(client: State, p: Packet, cap: uint16)
    requires IsRequest(p.code) && |p.options| <= MAX_OPTION_COUNT && NextRequest(client).0.Ok?
    requires Numbered(p.options, 0) && PlaintextFits(p) && |EncryptedOf(p)| <= 10 && Mergeable(p.options)
    requires OptionBytesMarkerFree(EncodeOptions(EncryptedOf(p)), p.payload)
    requires OuterReadable(OuterOf(p), NextRequest(client).0.value) && SentLength(p, NextRequest(client).0.value) <= cap
    ensures RequestDeliverable(client, p, cap)
  {
    hide IsRequest, NextRequest, Numbered, PlaintextFits, EncryptedOf, Mergeable, OptionBytesMarkerFree, OuterReadable,
         SentLength;
  }

  /** If the outer part is readable, the server's AEAD is called with what the client sealed. */
  lemma RequestRecoveredReadable(cr: Crypto, client: State, server: State, p: Packet, cap: uint16)
    requires AeadCorrect(cr) && Related(cr.hmac, client, server) && IsRequest(p.code)
             && |p.options| <= MAX_OPTION_COUNT
    requires NextRequest(client).0.Ok? && OuterReadable(OuterOf(p), NextRequest(client).0.value)
    ensures RequestRecovered(cr, client, server, p, cap)
       <==> RequestDeliverable(client, p, cap) && Adopts(cr.hmac, client, server)
  {
    hide *;
    RequestRecoveredExactly(cr, client, server, p, cap);
    RequestRecoveredIs(cr, client, server, p, cap);
    if RequestRecovered(cr, client, server, p, cap) {
      var value, drawn, wire := NextRequest(client).0.value, NextRequest(client).1, Send(cr, client, p, cap).0.value;
      var q := SentMeans(cr, client, p, cap);
      DrawIs(client, p.code);
      RecoveredIsNumbered(cr, server, wire, p);
      SentAsMeans(cr, drawn, p, value, cap, q, wire);
      SentShape(cr, drawn, p, value, cap, q, wire);
      var st := AcceptedAdopts(cr, client, server, p, value, q, wire);
      PayloadReceived(cr, server, wire, p, q, st);
      PairedMeans(drawn, st);
      MirroredKeys(cr.hmac, drawn, st);
      PlaintextShort(p);
      CutIsShort(Sealed(cr, drawn, PlaintextOf(p).value));
      NothingForged(cr, client, drawn, server, p, cap, st, q.payload);
    }
  }

  lemma PayloadReceived(cr: Crypto, receiver: State, wire: bytes, p: Packet, q: Packet, st: State)
    requires UnprotectBytes(cr, receiver, wire).0 == Ok(Some(p))
    requires Presented(cr, receiver, wire) == Some((st, q.payload))
    ensures |q.payload| >= 8
  {
    hide *;
    var _, _, _ := RecoveredMeans(cr, receiver, wire, p);
  }

  lemma AcceptIs(hmac: Hmac, st: State, code: byte, fields: Compressed)
    ensures Accept(hmac, st, code, fields) == if IsRequest(code) then AcceptRequest(hmac, st, fields) else (Ok(()), st)
  {
    hide AcceptRequest, IsRequest;
  }

  lemma PresentedIs(cr: Crypto, receiver: State, wire: bytes, q: Packet, fields: Compressed, st: State)
    requires Parse(wire) == Ok(q) && Presented(cr, receiver, wire) == Some((st, q.payload))
    requires var r := FindOscore(q.options, None); r.Err? || (r.value.Some? && r.value.value == fields)
    ensures FindOscore(q.options, None) == Ok(Some(fields))
    ensures var accepted := Accept(cr.hmac, receiver, q.code, fields); accepted.0.Ok? && accepted.1 == st
  {
    hide Parse, FindOscore, Accept;
  }

  lemma PresentedFound(cr: Crypto, receiver: State, wire: bytes, q: Packet)
    requires Parse(wire) == Ok(q) && Presented(cr, receiver, wire).Some?
    ensures FindOscore(q.options, None).Ok? && FindOscore(q.options, None).value.Some?
  {
    hide Parse, FindOscore, Accept;
  }

  lemma PlaintextShort(p: Packet)
    requires PlaintextOf(p).Ok?
    ensures |PlaintextOf(p).value| < 0x1_0000
  {
    hide Split, PlaintextBytes;
  }

  /** A ciphertext whose length is cut leaves less than a tag. */
  lemma CutIsShort(ciphertext: bytes)
    requires |ciphertext| < 0x1_0000 + 8 && |PayloadOf(ciphertext)| >= 8
    ensures PayloadOf(ciphertext) == ciphertext
  {
  }

  lemma NothingForged(cr: Crypto, sender: State, drawn: State, receiver: State, p: Packet, cap: uint16, st: State,
      c: bytes)
    requires Send(cr, sender, p, cap).0.Ok? && PlaintextOf(p).Ok? && drawn.rrc.nonce.Some? && drawn.rrc.aad.Some?
    requires Presented(cr, receiver, Send(cr, sender, p, cap).0.value) == Some((st, c))
    requires st.rc.recipientKey == drawn.sc.senderKey && st.rrc.nonce == drawn.rrc.nonce && st.rrc.aad == drawn.rrc.aad
    requires c == Sealed(cr, drawn, PlaintextOf(p).value)
    ensures !Deceived(cr, sender, drawn, receiver, p, cap)
  {
    hide Send, Presented, PlaintextOf, Sealed, EncStructure;
  }

  /**
   * No AEAD law is needed for this: with an OSCORE value of 13 bytes or more, as a KID context
   * of 8 bytes and a sender id of 2 give, and an outer part readable otherwise, the server
   * refuses every request before it decrypts.
   */
  lemma LongValueRefused(cr: Crypto, client: State, server: State, p: Packet, cap: uint16)
    requires Related(cr.hmac, client, server) && IsRequest(p.code) && Numbered(p.options, 0) && Mergeable(p.options)
    requires NextRequest(client).0.Ok? && |NextRequest(client).0.value| >= 13
    requires forall o <- OuterOf(p) :: |o.value| < 13
    requires PAYLOAD_MARKER !in EncodeOptions(WithOscore(OuterOf(p), NextRequest(client).0.value))
    requires Send(cr, client, p, cap).0.Ok?
    ensures UnprotectBytes(cr, server, Send(cr, client, p, cap).0.value).0.Err?
  {
    hide *;
    var us, value, wire := OuterOf(p), NextRequest(client).0.value, Send(cr, client, p, cap).0.value;
    var w := WithOscore(us, value);
    var q := SentMeans(cr, client, p, cap);
    DrawIs(client, p.code);
    SentShape(cr, NextRequest(client).1, p, value, cap, q, wire);
    if Parse(wire).Ok? {
      var q' := Parse(wire).value;
      OuterBelow(p);
      OscoreComesLast(us, value);
      OuterWellNumbered(us, value);
      ShapeWithoutMarker(q, q');
      FrontShort(us, w);
      FirstMisread(w, PayloadPart(q.payload), 0, MAX_OPTION_COUNT, |us|);
      ShortValue(cr, client, server, p, value, q, q', wire);
    } else {
      UnreadFails(cr, server, wire);
    }
  }

  lemma SentShape(cr: Crypto, sender: State, p: Packet, value: Value, cap: uint16, q: Packet, wire: bytes)
    requires SentAs(cr, sender, p, value, cap, q, wire) && Numbered(p.options, 0)
    ensures wire == Serialize(q) && q.options == WithOscore(OuterOf(p), value)
             && (IsRequest(q.code) <==> IsRequest(p.code))
  {
    PlaintextSucceeds(p);
    hide PlaintextOf, Split, WithOscore, Serialize, EncStructure, OuterOf, EncryptedOf, PlaintextFits;
  }

  lemma OuterBelow(p: Packet)
    requires Mergeable(p.options)
    ensures forall o <- OuterOf(p) :: o.number < OSCORE
  {
    OuterBelowOscore(p.options);
  }

  lemma FrontShort(us: seq<CoapOption>, w: seq<CoapOption>)
    requires |w| == |us| + 1 && SameContent(w[..|us|], us) && forall o <- us :: |o.value| < 13
    ensures forall j :: 0 <= j < |us| ==> |w[j].value| < 13
  {
    forall j | 0 <= j < |us| ensures |w[j].value| < 13 {
      assert w[..|us|][j] == w[j] && us[j] in us;
    }
  }

  lemma UnreadFails(cr: Crypto, st: State, wire: bytes)
    requires Parse(wire).Err?
    ensures UnprotectBytes(cr, st, wire).0.Err?
  {
    hide Parse;
  }

  // ----- responses -----

  predicate ResponseRecovered(cr: Crypto, client: State, server: State, p: Packet, cap: uint16) {
    var sent := Send(cr, server, p, cap).0;
    sent.Ok? && UnprotectBytes(cr, client, sent.value).0 == Ok(Some(p))
  }

  /** The same for a response, under the nonce and AAD both hold. */
  lemma ResponseRecoveredExactly(cr: Crypto, client: State, server: State, p: Packet, cap: uint16)
    requires AeadCorrect(cr) && Mirrored(cr.hmac, client, server) && Paired(client, server)
    requires !IsRequest(p.code) && |p.options| <= MAX_OPTION_COUNT
    ensures ResponseDeliverable(p, cap) ==> ResponseRecovered(cr, client, server, p, cap)
    ensures ResponseRecovered(cr, client, server, p, cap) ==>
              ResponseDeliverable(p, cap) || Deceived(cr, server, server, client, p, cap)
  {
    hide *;
    ResponseRecoveredIs(cr, client, server, p, cap);
    if ResponseDeliverable(p, cap) {
      ResponseRoundTrip(cr, client, server, p, cap);
    } else if ResponseRecovered(cr, client, server, p, cap) && !Deceived(cr, server, server, client, p, cap) {
      var q := SentMeans(cr, server, p, cap);
      DrawIs(server, p.code);
      var wire := Send(cr, server, p, cap).0.value;
      SentAsMeans(cr, server, p, [], cap, q, wire);
      NotDeceived(cr, server, server, client, p, cap);
      var q' := InnerRecovered(cr, server, client, p, [], cap, q, wire);
      OuterRecovered(p, [], q, q');
      IsDeliverableResponse(p, cap);
    }
  }

  lemma ResponseRecoveredIs(cr: Crypto, client: State, server: State, p: Packet, cap: uint16)
    ensures ResponseRecovered(cr, client, server, p, cap) <==>
              Send(cr, server, p, cap).0.Ok?
              && UnprotectBytes(cr, client, Send(cr, server, p, cap).0.value).0 == Ok(Some(p))
  {
    hide Send, UnprotectBytes;
  }

  lemma IsDeliverableResponse(p: Packet, cap: uint16)
    requires !IsRequest(p.code) && |p.options| <= MAX_OPTION_COUNT
    requires Numbered(p.options, 0) && PlaintextFits(p) && |EncryptedOf(p)| <= 10 && Mergeable(p.options)
    requires OptionBytesMarkerFree(EncodeOptions(EncryptedOf(p)), p.payload)
    requires OuterReadable(OuterOf(p), []) && SentLength(p, []) <= cap
    ensures ResponseDeliverable(p, cap)
  {
    hide IsRequest, Numbered, PlaintextFits, EncryptedOf, Mergeable, OptionBytesMarkerFree, OuterReadable, SentLength;
  }

  lemma ResponseRecoveredReadable(cr: Crypto, client: State, server: State, p: Packet, cap: uint16)
    requires AeadCorrect(cr) && Mirrored(cr.hmac, client, server) && Paired(client, server)
    requires !IsRequest(p.code) && |p.options| <= MAX_OPTION_COUNT && OuterReadable(OuterOf(p), [])
    ensures ResponseRecovered(cr, client, server, p, cap) <==> ResponseDeliverable(p, cap)
  {
    hide *;
    ResponseRecoveredExactly(cr, client, server, p, cap);
    ResponseRecoveredIs(cr, client, server, p, cap);
    if ResponseRecovered(cr, client, server, p, cap) {
      var wire := Send(cr, server, p, cap).0.value;
      var q := SentMeans(cr, server, p, cap);
      DrawIs(server, p.code);
      RecoveredIsNumbered(cr, client, wire, p);
      SentAsMeans(cr, server, p, [], cap, q, wire);
      SentShape(cr, server, p, [], cap, q, wire);
      var q', st, _ := RecoveredMeans(cr, client, wire, p);
      OuterRead(q, OuterOf(p), []);
      PresentedFound(cr, client, wire, q);
      PresentedIs(cr, client, wire, q, FindOscore(q.options, None).value.value, st);
      AcceptIs(cr.hmac, client, q.code, FindOscore(q.options, None).value.value);
      PairedMeans(client, server);
      MirroredKeys(cr.hmac, client, server);
      PlaintextShort(p);
      CutIsShort(Sealed(cr, server, PlaintextOf(p).value));
      NothingForged(cr, server, server, client, p, cap, st, q.payload);
    }
  }
}
