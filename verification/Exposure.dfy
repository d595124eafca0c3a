/**
 * What an OSCORE packet shows and what it encrypts: which options stay outside, which go into the
 * plaintext, and what the rest of the packet is.
 */
module Exposure {
  import opened Bytes
  import opened OscoreErrors
  import opened Coap
  import opened Options
  import opened SplitMerge
  import opened Hkdf
  import opened Nonce
  import opened OscoreValue
  import opened Aad
  import opened Context
  import opened Protect
  import opened Wire
  import opened OscoreWire

  // ----- the two classes by number -----

  /** Uri-Host, Uri-Port, OSCORE, Proxy-Uri and Proxy-Scheme stay outside; every other option is encrypted. */
  predicate Shown(number: int) {
    number == 3 || number == 7 || number == 9 || number == 35 || number == 39
  }

  lemma ClassByNumber(number: uint16)
    ensures IsClassE(number) <==> !Shown(number)
  {
  }

  /**
   * The options that stay outside, or those that do not, in their order: the 16-bit sum of the
   * deltas up to each of them, and its value.
   */
  function Chosen(os: seq<CoapOption>, number: uint16, outside: bool): seq<(uint16, Value)> {
    if os == [] then []
    else
      var n := (number + os[0].delta) % 0x1_0000;
      (if Shown(n) == outside then [(n, os[0].value)] else []) + Chosen(os[1..], n, outside)
  }

  /** The same options, each numbered by the low byte of the sum. */
  ghost predicate Holds(os: seq<CoapOption>, chosen: seq<(uint16, Value)>) {
    |os| == |chosen|
    && forall i :: 0 <= i < |os| ==> os[i].number == chosen[i].0 % 0x100 && os[i].value == chosen[i].1
  }

  lemma HoldsCons(o: CoapOption, os: seq<CoapOption>, c: (uint16, Value), cs: seq<(uint16, Value)>)
    requires Holds(os, cs) && o.number == c.0 % 0x100 && o.value == c.1
    ensures Holds([o] + os, [c] + cs)
  {
  }

  lemma HoldsNothing(os: seq<CoapOption>, cs: seq<(uint16, Value)>)
    requires Holds(os, cs)
    ensures Holds([] + os, [] + cs) && Holds([], [])
  {
    assert [] + os == os && [] + cs == cs;
  }

  lemma ChosenStep(os: seq<CoapOption>, number: uint16, outside: bool)
    requires os != []
    ensures var n := U16(number + os[0].delta);
            Chosen(os, number, outside)
            == (if Shown(n) == outside then [(n, os[0].value)] else []) + Chosen(os[1..], n, outside)
  {
  }

  /** For every option list the split gives the options of each class, in order and with their values. */
  lemma {:induction false} SplitHolds(os: seq<CoapOption>, number: uint16, eSum: byte, uSum: byte)
    ensures var parts := Split(os, number, eSum, uSum);
            Holds(parts.e, Chosen(os, number, false)) && Holds(parts.u, Chosen(os, number, true))
  {
    hide *;
    if os == [] {
      SplitEnds(number, eSum, uSum);
      ChosenNothing(number);
      return;
    }
    var n := U16(number + os[0].delta);
    SplitStep(os, number, eSum, uSum);
    ClassByNumber(n);
    ChosenStep(os, number, false);
    ChosenStep(os, number, true);
    U8Is(n);
    var o := if IsClassE(n) then CoapOption(U16(n - eSum), os[0].value, U8(n))
             else CoapOption(U16(n - uSum), os[0].value, U8(n));
    var len := if IsClassE(n) then PredictedLen(os[0]) else 0;
    var e', u' := if IsClassE(n) then U8(n) else eSum, if IsClassE(n) then uSum else U8(n);
    var more := Split(os[1..], n, e', u');
    SplitHolds(os[1..], n, e', u');
    JoinParts(o, IsClassE(n), len, more);
    if IsClassE(n) {
      HoldsCons(o, more.e, (n, os[0].value), Chosen(os[1..], n, false));
      HoldsNothing(more.u, Chosen(os[1..], n, true));
    } else {
      HoldsCons(o, more.u, (n, os[0].value), Chosen(os[1..], n, true));
      HoldsNothing(more.e, Chosen(os[1..], n, false));
    }
    assert [] + more.e == more.e && [] + more.u == more.u;
  }

  lemma U8Is(n: uint16)
    ensures U8(n) == n % 0x100
  {
  }

  lemma ChosenNothing(number: uint16)
    ensures Chosen([], number, true) == [] && Chosen([], number, false) == [] && Holds([], [])
  {
  }

  lemma {:induction false} ChosenAre(os: seq<CoapOption>, number: uint16, outside: bool)
    ensures forall c <- Chosen(os, number, outside) :: Shown(c.0) == outside
  {
    if os != [] {
      ChosenAre(os[1..], (number + os[0].delta) % 0x1_0000, outside);
      hide Shown;
    }
  }

  /** What stays outside is numbered below 256. */
  lemma OutsideAreShown(us: seq<CoapOption>, os: seq<CoapOption>, number: uint16)
    requires Holds(us, Chosen(os, number, true))
    ensures forall o <- us :: Shown(o.number)
  {
    ChosenAre(os, number, true);
    var cs := Chosen(os, number, true);
    hide Chosen;
    forall o <- us ensures Shown(o.number) {
      var i :| 0 <= i < |us| && us[i] == o;
      assert cs[i] in cs;
    }
  }

  /**
   * An option in the plaintext is recorded under one of the five numbers exactly when the low
   * byte of its number, which is then 256 or more, is one of them.
   */
  lemma InsideAreNotShown(es: seq<CoapOption>, os: seq<CoapOption>)
    requires Holds(es, Chosen(os, 0, false))
    ensures (forall e <- es :: !Shown(e.number)) <==> forall c <- Chosen(os, 0, false) :: !Shown(c.0 % 0x100)
  {
    var cs := Chosen(os, 0, false);
    hide Chosen, Shown;
    if forall e <- es :: !Shown(e.number) {
      forall c <- cs ensures !Shown(c.0 % 0x100) {
        var i :| 0 <= i < |cs| && cs[i] == c;
        assert es[i] in es;
      }
    }
    if forall c <- cs :: !Shown(c.0 % 0x100) {
      forall e <- es ensures !Shown(e.number) {
        var i :| 0 <= i < |es| && es[i] == e;
        assert cs[i] in cs;
      }
    }
  }

  /** Numbers that are the exact sums of the deltas are recorded whole. */
  lemma {:induction false} NumberedAreWhole(os: seq<CoapOption>, number: byte, outside: bool)
    requires Numbered(os, number)
    ensures forall c <- Chosen(os, number, outside) :: c.0 < 0x100
  {
    if os != [] {
      NumberedAreWhole(os[1..], os[0].number, outside);
    }
  }

  /** None of them is then recorded, in the plaintext, under a number that stays outside. */
  lemma NumberedAreHidden(es: seq<CoapOption>, os: seq<CoapOption>)
    requires Numbered(os, 0) && Holds(es, Chosen(os, 0, false))
    ensures forall e <- es :: !Shown(e.number)
  {
    NumberedAreWhole(os, 0, false);
    ChosenAre(os, 0, false);
    InsideAreNotShown(es, os);
    hide *;
  }

  /** Number 259 is encrypted, but recorded as 3. */
  lemma RecordedModulo256()
    ensures Split([CoapOption(259, [], 3)], 0, 0, 0).e == [CoapOption(259, [], 3)]
    ensures Shown(3) && !Shown(259)
  {
  }

  // ----- the packet that is sent -----

  /** The payload behind its marker. */
  function Marked(payload: bytes): bytes { if payload == [] then [] else [0xFF] + payload }

  /** What is sent of the plaintext sealed under sender key, nonce and AAD; the length is cut to 16 bits. */
  ghost predicate Encrypted(cr: Crypto, st: State, plaintext: bytes, sent: bytes) {
    && st.rrc.nonce.Some? && st.rrc.aad.Some?
    && var aad := [0x83, 0x68, 0x45, 0x6E, 0x63, 0x72, 0x79, 0x70, 0x74, 0x30, 0x40] + Bstr(st.rrc.aad.value);
       var ciphertext := cr.seal(st.sc.senderKey, st.rrc.nonce.value, aad, plaintext);
       sent == ciphertext[..|ciphertext| % 0x1_0000]
  }

  /** The plaintext: code, encrypted options, and the payload behind its marker. */
  lemma PlaintextIs(p: Packet) returns (es: seq<CoapOption>)
    requires PlaintextOf(p).Ok?
    ensures Holds(es, Chosen(p.options, 0, false))
    ensures PlaintextOf(p).value
         == [p.code] + EncodeOptions(es) + Marked(p.payload)
  {
    es := Split(p.options, 0, 0, 0).e;
    SplitHolds(p.options, 0, 0, 0);
    hide Split, Holds, Chosen, EncodeOptions, ScratchLen;
  }

  lemma FinishedIs(cr: Crypto, st: State, p: Packet, us: seq<CoapOption>, value: Value, plaintext: bytes)
    requires Finish(cr, st, p, us, value, plaintext).Ok?
    ensures var q := Finish(cr, st, p, us, value, plaintext).value;
            && q.ver == p.ver && q.typ == p.typ && q.mid == p.mid && q.token == p.token
            && q.code == (if p.code < 0x20 then 0x02 else 0x44)
            && q.options == WithOscore(us, value)
            && Encrypted(cr, st, plaintext, q.payload)
  {
    if st.rrc.aad.Some? {
      EncWritten(st.rrc.aad.value);
    }
    hide WithOscore, EncStructure, Bstr;
  }

  /**
   * Every packet that is emitted has the header and token of the CoAP packet, POST or Changed for
   * its code, the options that stay outside and the OSCORE option, none else, and as its payload
   * the ciphertext, cut to 16 bits of length, of code, encrypted options and payload.
   */
  lemma WhatIsSent(cr: Crypto, st: State, p: Packet)
      returns (q: Packet, us: seq<CoapOption>, es: seq<CoapOption>, k: nat)
    requires ProtectPacket(cr, st, p).0.Ok?
    ensures q == ProtectPacket(cr, st, p).0.value
    ensures q.ver == p.ver && q.typ == p.typ && q.mid == p.mid && q.token == p.token
    ensures q.code == if p.code < 0x20 then 0x02 else 0x44
    ensures Holds(us, Chosen(p.options, 0, true)) && Holds(es, Chosen(p.options, 0, false))
    ensures k < |q.options| && q.options[k].number == 9
             && SameContent(q.options[..k] + q.options[k + 1..], us)
    ensures p.code >= 0x20 ==> q.options[k].value == []
    ensures forall o <- q.options :: Shown(o.number)
    ensures Encrypted(cr, ProtectPacket(cr, st, p).1, [p.code] + EncodeOptions(es) + Marked(p.payload), q.payload)
  {
    var drawn := Sends(cr, st, p);
    hide *;
    q := ProtectPacket(cr, st, p).0.value;
    us := Split(p.options, 0, 0, 0).u;
    es := PlaintextIs(p);
    SplitHolds(p.options, 0, 0, 0);
    FinishedIs(cr, ProtectPacket(cr, st, p).1, p, us, drawn, PlaintextOf(p).value);
    OscoreIsAmong(us, drawn);
    k := OscorePosition(us);
    OutsideAreShown(us, p.options, 0);
    AllShown(q.options, us, k);
  }

  lemma Sends(cr: Crypto, st: State, p: Packet) returns (value: Value)
    requires ProtectPacket(cr, st, p).0.Ok?
    ensures PlaintextOf(p).Ok?
    ensures ProtectPacket(cr, st, p).0
         == Finish(cr, ProtectPacket(cr, st, p).1, p, Split(p.options, 0, 0, 0).u, value, PlaintextOf(p).value)
    ensures p.code >= 0x20 ==> value == []
  {
    hide PlaintextOf, NextRequest, Finish, Split;
    value := Draw(st, p.code).0.value;
  }

  lemma AllShown(os: seq<CoapOption>, us: seq<CoapOption>, k: nat)
    requires k < |os| && os[k].number == OSCORE && SameContent(os[..k] + os[k + 1..], us)
    requires forall o <- us :: Shown(o.number)
    ensures os[k].number == 9 && forall o <- os :: Shown(o.number)
  {
    var rest := os[..k] + os[k + 1..];
    forall o <- os ensures Shown(o.number) {
      var i :| 0 <= i < |os| && os[i] == o;
      if i != k {
        var j := if i < k then i else i - 1;
        assert rest[j] == o && us[j] in us;
      }
    }
  }
}
