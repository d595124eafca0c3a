/**
 * The value of the OSCORE option (section 6.1 of RFC 8613): its length, the writer in
 * modules/oscore/src/coap2oscore.c and the parser in modules/oscore/src/oscore2coap.c.
 */
module OscoreValue {
  import opened Bytes
  import opened OscoreErrors
  import opened Coap
  import opened Nonce
  import opened Options

  const MAX_KID_CONTEXT_LEN: nat := 8
  const OSCORE_OPT_VALUE_LEN: nat := 2 + MAX_PIV_LEN + MAX_KID_CONTEXT_LEN + MAX_KID_LEN
  const KID_FLAG: nat := 0x08
  const KID_CONTEXT_FLAG: nat := 0x10

  type KidContext = b: bytes | |b| <= 8

  // ----- the writer -----

  /** The length reserved for the value: a flag byte if there is anything, a length byte for the context. */
  function ValueLen(piv: Piv, kid: Kid, kidContext: KidContext): nat {
    var l := |piv| + |kidContext| + |kid|;
    l + (if l > 0 then 1 else 0) + (if |kidContext| > 0 then 1 else 0)
  }

  function Flags(piv: Piv, kidContext: KidContext): byte {
    |piv| + KID_FLAG + if kidContext == [] then 0 else KID_CONTEXT_FLAG
  }

  function ContextPart(kidContext: KidContext): bytes {
    if kidContext == [] then [] else [|kidContext|] + kidContext
  }

  /** Flags, Partial IV, KID context behind its length, KID; the KID flag is always set. */
  function Value(piv: Piv, kid: Kid, kidContext: KidContext): bytes {
    if ValueLen(piv, kid, kidContext) == 0 then []
    else [Flags(piv, kidContext)] + piv + ContextPart(kidContext) + kid
  }

  /** The value fills the reserved length exactly, and that never exceeds the buffer of 22 bytes. */
  lemma ValueFits(piv: Piv, kid: Kid, kidContext: KidContext)
    ensures |Value(piv, kid, kidContext)| == ValueLen(piv, kid, kidContext) <= OSCORE_OPT_VALUE_LEN == 22
  {
  }

  /** Copies `src` behind what is already there, leaving the flag byte alone. */
  method Append(value: array<byte>, pos: nat, src: bytes) returns (next: nat)
    requires 1 <= pos && pos + |src| <= value.Length
    modifies value
    ensures next == pos + |src| && value[1..next] == old(value[1..pos]) + src
  {
    if |src| != 0 {
      CopyInto(value, pos, src);
    }
    next := pos + |src|;
  }

  /** Writes the KID context behind its length, if there is one. */
  method AppendContext(value: array<byte>, pos: nat, kidContext: KidContext) returns (next: nat)
    requires 1 <= pos && pos + |ContextPart(kidContext)| <= value.Length
    modifies value
    ensures next == pos + |ContextPart(kidContext)| && value[1..next] == old(value[1..pos]) + ContextPart(kidContext)
  {
    next := pos;
    if |kidContext| != 0 {
      value[pos] := |kidContext|;
      assert value[1..pos + 1] == old(value[1..pos]) + [|kidContext|];
      next := Append(value, pos + 1, kidContext);
      AppendAssoc(old(value[1..pos]), [|kidContext|], kidContext);
    }
  }

  /** Fills a buffer of the reserved length with a moving position. */
  method GenerateValue(piv: Piv, kid: Kid, kidContext: KidContext, value: array<byte>)
    requires value.Length == ValueLen(piv, kid, kidContext)
    modifies value
    ensures value[..] == Value(piv, kid, kidContext)
  {
    if value.Length == 0 {
      return;
    }
    BodyLen(piv, kid, kidContext);
    hide *;
    var flags := WriteBody(piv, kid, kidContext, value);
    ghost var body := value[1..];
    ValueIs(piv, kid, kidContext, body);
    value[0] := flags;
    assert value[1..] == body;
  }

  /** Writes everything but the flag byte, which it returns. */
  method WriteBody(piv: Piv, kid: Kid, kidContext: KidContext, value: array<byte>) returns (flags: byte)
    requires value.Length == 1 + |piv| + |ContextPart(kidContext)| + |kid|
    modifies value
    ensures value[1..] == piv + ContextPart(kidContext) + kid && flags == Flags(piv, kidContext)
  {
    FlagsAre(piv, kidContext);
    hide ContextPart, Flags;
    flags := |piv|;
    var pos := Append(value, 1, piv);
    if |kidContext| != 0 {
      flags := flags + KID_CONTEXT_FLAG;
    }
    pos := AppendContext(value, pos, kidContext);
    flags := flags + KID_FLAG;
    pos := Append(value, pos, kid);
    assert value[1..pos] == value[1..];
  }

  lemma FlagsAre(piv: Piv, kidContext: KidContext)
    ensures Flags(piv, kidContext) == |piv| + 8 + if kidContext == [] then 0 else 16
    ensures KID_FLAG == 8 && KID_CONTEXT_FLAG == 16
  {
  }

  lemma BodyLen(piv: Piv, kid: Kid, kidContext: KidContext)
    ensures ValueLen(piv, kid, kidContext) > 0 ==>
              ValueLen(piv, kid, kidContext) == 1 + |piv| + |ContextPart(kidContext)| + |kid|
  {
  }

  lemma ValueIs(piv: Piv, kid: Kid, kidContext: KidContext, body: bytes)
    requires ValueLen(piv, kid, kidContext) > 0
    requires body == piv + ContextPart(kidContext) + kid
    ensures Value(piv, kid, kidContext) == [Flags(piv, kidContext)] + body
  {
    hide Flags, ContextPart;
    var f := [Flags(piv, kidContext)];
    AppendAssoc(f, piv, ContextPart(kidContext));
    AppendAssoc(f, piv + ContextPart(kidContext), kid);
  }

  // ----- the parser -----

  /**
   * What the parser has stored.  `Unset` after an option without value; a value without
   * Partial IV leaves the Partial IV unset.
   */
  datatype Compressed = Unset | Fields(piv: Option<Piv>, kidContext: WireContext, kid: bytes)

  /** A KID context on the wire has its length in one byte. */
  type WireContext = b: bytes | |b| < 0x100

  /** Reads a value that is not empty; the KID takes the bytes left, counted in a uint8_t. */
  function ParseValue(v: bytes): Result<Compressed>
    requires v != []
  {
    var n, hasKid, hasContext := v[0] % 8, v[0] / 8 % 2 == 1, v[0] / 0x10 % 2 == 1;
    if n > MAX_PIV_LEN then Err(InPktInvalidPiv)
    else if |v| < 1 + n || (hasContext && |v| < 2 + n) then Err(Undefined)
    else
      var piv := if n == 0 then None else Some(v[1..1 + n]);
      var from := if hasContext then 2 + n else 1 + n;
      var pos := if hasContext then from + v[1 + n] else from;
      if |v| < pos then Err(Undefined)
      else
        var kidLen := if hasKid then U8(|v| - pos) else 0;
        Ok(Fields(piv, v[from..pos], v[pos..pos + kidLen]))
  }

  /** The parser gives back what was written, for every Partial IV that is not empty. */
  lemma ParseValueWritten(piv: Piv, kid: Kid, kidContext: KidContext)
    requires piv != []
    ensures var v := Value(piv, kid, kidContext);
            v != [] && ParseValue(v) == Ok(Fields(Some(piv), kidContext, kid))
  {
    hide Value, ParseValue;
    assert Value(piv, kid, kidContext) + [] == Value(piv, kid, kidContext) && kid + [] == kid;
    ParseValueLonger(piv, kid, kidContext, []);
  }

  /** Bytes behind the value are taken for more of the KID. */
  lemma ParseValueLonger(piv: Piv, kid: Kid, kidContext: KidContext, more: bytes)
    requires piv != [] && |more| < 0x80
    ensures var v := Value(piv, kid, kidContext);
            v != [] && v + more != [] && ParseValue(v + more) == Ok(Fields(Some(piv), kidContext, kid + more))
  {
    hide ParseValue, Value;
    FlagsRead(piv, kidContext);
    var f := Flags(piv, kidContext);
    ValueWith(piv, kid, kidContext, more);
    if kidContext == [] {
      ParseWithoutContext(piv, kid + more, f);
    } else {
      ParseWithContext(piv, kid + more, kidContext, f);
    }
  }

  /** The parts of a value with more bytes behind it. */
  lemma ValueWith(piv: Piv, kid: Kid, kidContext: KidContext, more: bytes)
    requires piv != []
    ensures Value(piv, kid, kidContext) != []
    ensures Value(piv, kid, kidContext) + more
         == [Flags(piv, kidContext)]
            + (if kidContext == [] then piv + (kid + more) else piv + [|kidContext|] + kidContext + (kid + more))
  {
    hide Flags;
    if kidContext == [] {
      assert piv + ContextPart(kidContext) + kid == piv + kid;
      ValueIs(piv, kid, kidContext, piv + kid);
    } else {
      AppendAssoc(piv, [|kidContext|], kidContext);
      ValueIs(piv, kid, kidContext, piv + [|kidContext|] + kidContext + kid);
    }
    hide Value;
  }

  lemma ParseWithoutContext(piv: Piv, kid: bytes, f: byte)
    requires piv != [] && f % 8 == |piv| && f / 8 % 2 == 1 && f / 0x10 % 2 == 0 && |kid| < 0x100
    ensures ParseValue([f] + (piv + kid)) == Ok(Fields(Some(piv), [], kid))
  {
    var v, n := [f] + (piv + kid), |piv|;
    assert v[1..] == piv + kid;
    assert v[1..1 + n] == piv && v[1 + n..|v|] == kid && v[1 + n..1 + n] == [];
  }

  lemma ParseWithContext(piv: Piv, kid: bytes, kidContext: KidContext, f: byte)
    requires piv != [] && f % 8 == |piv| && f / 8 % 2 == 1 && f / 0x10 % 2 == 1 && |kid| < 0x100
    ensures ParseValue([f] + (piv + [|kidContext|] + kidContext + kid)) == Ok(Fields(Some(piv), kidContext, kid))
  {
    var v := [f] + (piv + [|kidContext|] + kidContext + kid);
    var n := |piv|;
    var pos := 2 + n + |kidContext|;
    assert v[1..1 + n] == piv && v[1 + n] == |kidContext| && v[2 + n..pos] == kidContext && v[pos..|v|] == kid by {
      ValueLayout(f, piv, kidContext, kid);
    }
  }

  lemma ValueLayout(f: byte, piv: Piv, kidContext: KidContext, kid: bytes)
    ensures var v, n := [f] + (piv + [|kidContext|] + kidContext + kid), |piv|;
            var pos := 2 + n + |kidContext|;
            && |v| == pos + |kid| && v[1..1 + n] == piv && v[1 + n] == |kidContext|
            && v[2 + n..pos] == kidContext && v[pos..|v|] == kid
  {
    var body, n := piv + [|kidContext|] + kidContext + kid, |piv|;
    var v := [f] + body;
    assert v[1..] == body && body[..n] == piv && body[n] == |kidContext|;
    assert body[n + 1..n + 1 + |kidContext|] == kidContext && body[n + 1 + |kidContext|..] == kid;
  }

  lemma FlagsRead(piv: Piv, kidContext: KidContext)
    ensures var f := Flags(piv, kidContext);
            f % 8 == |piv| && f / 8 % 2 == 1 && (f / 0x10 % 2 == 1 <==> kidContext != [])
  {
  }

  /**
   * Every value of section 6.1 of RFC 8613 is read as it is meant: Partial IV, KID context and KID
   * each there or not, by the three low bits, bit 4 and bit 3 of the flags; higher bits do not matter.
   */
  lemma ParseAnyValue(high: nat, piv: Piv, kidContext: Option<WireContext>, kid: Option<bytes>)
    requires high < 8 && (kid.Some? ==> |kid.value| < 0x100)
    ensures var flags := |piv| + (if kid.Some? then 8 else 0) + (if kidContext.Some? then 0x10 else 0) + 0x20 * high;
            var context := if kidContext.Some? then [|kidContext.value|] + kidContext.value else [];
            ParseValue([flags] + piv + context + if kid.Some? then kid.value else [])
            == Ok(Fields(if piv == [] then None else Some(piv), if kidContext.Some? then kidContext.value else [],
                         if kid.Some? then kid.value else []))
  {
    hide *;
    FlagBits(|piv|, kid.Some?, kidContext.Some?, high);
    var flags := |piv| + (if kid.Some? then 8 else 0) + (if kidContext.Some? then 0x10 else 0) + 0x20 * high;
    ParseFlagged(flags, piv, kidContext, kid);
  }

  lemma ParseFlagged(flags: byte, piv: Piv, kidContext: Option<WireContext>, kid: Option<bytes>)
    requires flags % 8 == |piv| && (kid.Some? ==> |kid.value| < 0x100)
    requires (flags / 8 % 2 == 1 <==> kid.Some?) && (flags / 0x10 % 2 == 1 <==> kidContext.Some?)
    ensures var context := if kidContext.Some? then [|kidContext.value|] + kidContext.value else [];
            ParseValue([flags] + piv + context + if kid.Some? then kid.value else [])
            == Ok(Fields(if piv == [] then None else Some(piv), if kidContext.Some? then kidContext.value else [],
                         if kid.Some? then kid.value else []))
  {
    hide *;
    var id := if kid.Some? then kid.value else [];
    if kidContext.Some? {
      AppendAssoc([flags] + piv, [|kidContext.value|], kidContext.value);
      PartsWithContext(flags, piv, kidContext.value, id);
      ParseParts([flags] + piv + [|kidContext.value|] + kidContext.value + id, piv, kidContext.value, id);
    } else {
      assert [flags] + piv + [] == [flags] + piv;
      PartsWithoutContext(flags, piv, id);
      ParseParts([flags] + piv + id, piv, [], id);
    }
  }

  /** A value whose parts lie where its flags say. */
  lemma ParseParts(v: bytes, piv: Piv, kidContext: WireContext, kid: bytes)
    requires v != [] && v[0] % 8 == |piv| && |kid| < 0x100
    requires v[0] / 8 % 2 != 1 ==> kid == []
    requires var c := if v[0] / 0x10 % 2 == 1 then 1 else 0;
             && |v| == 1 + |piv| + c + |kidContext| + |kid| && v[1..1 + |piv|] == piv
             && (if c == 1 then v[1 + |piv|] == |kidContext| else kidContext == [])
             && v[1 + |piv| + c..1 + |piv| + c + |kidContext|] == kidContext
             && v[1 + |piv| + c + |kidContext|..|v|] == kid
    ensures ParseValue(v) == Ok(Fields(if piv == [] then None else Some(piv), kidContext, kid))
  {
  }

  lemma PartsWithContext(flags: byte, piv: bytes, kidContext: WireContext, kid: bytes)
    ensures var v, n := [flags] + piv + [|kidContext|] + kidContext + kid, 1 + |piv|;
            && |v| == n + 1 + |kidContext| + |kid| && v[0] == flags && v[1..n] == piv && v[n] == |kidContext|
            && v[n + 1..n + 1 + |kidContext|] == kidContext && v[n + 1 + |kidContext|..|v|] == kid
  {
  }

  lemma PartsWithoutContext(flags: byte, piv: bytes, kid: bytes)
    ensures var v, n := [flags] + piv + kid, 1 + |piv|;
            |v| == n + |kid| && v[0] == flags && v[1..n] == piv && v[n..n] == [] && v[n..|v|] == kid
  {
  }

  lemma FlagBits(n: nat, hasKid: bool, hasContext: bool, high: nat)
    requires n < 8 && high < 8
    ensures var f := n + (if hasKid then 8 else 0) + (if hasContext then 0x10 else 0) + 0x20 * high;
            f < 0x100 && f % 8 == n && (f / 8 % 2 == 1 <==> hasKid) && (f / 0x10 % 2 == 1 <==> hasContext)
  {
  }

  /** A Partial IV of 6 or 7 bytes is refused. */
  lemma LongPivRefused(v: bytes)
    requires v != [] && v[0] % 8 > 5
    ensures ParseValue(v) == Err(InPktInvalidPiv)
  {
  }

  /** The scan over all options, the last OSCORE option prevailing; None means not an OSCORE packet. */
  function FindOscore(os: seq<CoapOption>, found: Option<Compressed>): Result<Option<Compressed>> {
    if os == [] then Ok(found)
    else if os[0].number != OSCORE then FindOscore(os[1..], found)
    else if os[0].value == [] then FindOscore(os[1..], if found.Some? then found else Some(Unset))
    else
      var fields :- ParseValue(os[0].value);
      FindOscore(os[1..], Some(fields))
  }

  /** The loop over the options of a received packet. */
  method ParseOscoreOption(options: seq<CoapOption>) returns (r: Result<Option<Compressed>>)
    ensures r == FindOscore(options, None)
  {
    hide ParseValue;
    var found: Option<Compressed> := None;
    assert options[0..] == options;
    for i := 0 to |options|
      invariant FindOscore(options, None) == FindOscore(options[i..], found)
    {
      assert options[i..][0] == options[i] && options[i..][1..] == options[i + 1..];
      if options[i].number == OSCORE {
        if |options[i].value| == 0 {
          found := if found.Some? then found else Some(Unset);
        } else {
          var fields := ParseValue(options[i].value);
          if fields.Err? {
            return Err(fields.error);
          }
          found := Some(fields.value);
        }
      }
    }
    r := Ok(found);
  }

  lemma {:induction false} FindOscoreAppend(a: seq<CoapOption>, b: seq<CoapOption>, found: Option<Compressed>)
    requires forall o <- a :: o.number != OSCORE
    ensures FindOscore(a + b, found) == FindOscore(b, found)
  {
    hide ParseValue;
    if a == [] {
      assert a + b == b;
    } else {
      assert a[0] in a && a == [a[0]] + a[1..] && (a + b)[1..] == a[1..] + b;
      FindOscoreAppend(a[1..], b, found);
    }
  }

  /** With a single OSCORE option at the end, the scan gives its value. */
  lemma FindOscoreLast(front: seq<CoapOption>, o: CoapOption)
    requires forall x <- front :: x.number != OSCORE
    requires o.number == OSCORE
    ensures FindOscore(front + [o], None)
         == if o.value == [] then Ok(Some(Unset))
            else match ParseValue(o.value) { case Ok(f) => Ok(Some(f)) case Err(e) => Err(e) }
  {
    FindOscoreAppend(front, [o], None);
    hide ParseValue;
  }
}
