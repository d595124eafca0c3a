/**
 * CoAP packets and their byte form: the option writer, the option parser in its two variants,
 * and the packet reader and writer of modules/oscore/src/coap.c.
 */
module Coap {
  import opened Bytes
  import opened OscoreErrors

  const MAX_OPTION_COUNT: nat := 20
  const PAYLOAD_MARKER: byte := 0xFF

  type uint2 = x: int | 0 <= x < 4
  type Value = v: bytes | |v| < 0x1_0000
  type Token = t: bytes | |t| <= 8

  /** An option; its `len` field is the length of `value`. */
  datatype CoapOption = CoapOption(delta: uint16, value: Value, number: byte)

  /** A packet; TKL is the length of `token` and payload_len the length of `payload`. */
  datatype Packet = Packet(ver: uint2, typ: uint2, code: byte, mid: uint16,
                           token: Token, options: seq<CoapOption>, payload: bytes)

  /** A two-byte number in network byte order. */
  function Word(high: byte, low: byte): uint16 {
    var h: int := high;
    0x100 * h + low
  }

  // ----- the option writer -----

  /** Number of extra bytes the writer spends on a delta or a length. */
  function ExtLen(v: uint16): (n: nat)
    ensures n <= 2
  {
    if v < 13 then 0 else if v < 243 then 1 else 2
  }

  /** The four bits a delta or a length takes in the first byte of an option. */
  function Nibble(v: uint16): (n: nat)
    ensures n <= 14
  {
    if v < 13 then v else if v < 243 then 13 else 14
  }

  /** The extra bytes themselves: the writer adds 13 or 269. */
  function Ext(v: uint16): (e: bytes)
    ensures |e| == ExtLen(v)
  {
    if v < 13 then []
    else if v < 243 then [v + 13]
    else var t := U16(v + 269); [t / 0x100, t % 0x100]
  }

  function OptionHeader(o: CoapOption): (h: bytes)
    ensures |h| == 1 + ExtLen(o.delta) + ExtLen(|o.value|)
  {
    [0x10 * Nibble(o.delta) + Nibble(|o.value|)] + Ext(o.delta) + Ext(|o.value|)
  }

  function EncodeOption(o: CoapOption): (b: bytes)
    ensures |b| == 1 + ExtLen(o.delta) + ExtLen(|o.value|) + |o.value|
  {
    OptionHeader(o) + o.value
  }

  /** The serialised options, one after the other. */
  function EncodeOptions(os: seq<CoapOption>): bytes {
    if os == [] then [] else EncodeOption(os[0]) + EncodeOptions(os[1..])
  }

  lemma EncodeOptionsUnfold(os: seq<CoapOption>)
    ensures EncodeOptions(os) == if os == [] then [] else EncodeOption(os[0]) + EncodeOptions(os[1..])
  {
  }

  lemma {:induction false} EncodeOptionsAppend(a: seq<CoapOption>, b: seq<CoapOption>)
    ensures EncodeOptions(a + b) == EncodeOptions(a) + EncodeOptions(b)
  {
    hide *;
    EncodeOptionsUnfold(a);
    if a == [] {
      assert a + b == b && [] + EncodeOptions(b) == EncodeOptions(b);
    } else {
      EncodeOptionsAppend(a[1..], b);
      EncodeOptionsUnfold(a + b);
      assert (a + b)[1..] == a[1..] + b;
      AppendAssoc(EncodeOption(a[0]), EncodeOptions(a[1..]), EncodeOptions(b));
    }
  }

  lemma NoMarkerFirst(o: CoapOption)
    ensures EncodeOption(o)[0] != PAYLOAD_MARKER
  {
  }

  lemma EncodeOneOption(o: CoapOption)
    ensures EncodeOptions([o]) == EncodeOption(o)
  {
    hide EncodeOption;
    assert EncodeOptions([o]) == EncodeOption(o) + [];
  }

  /**
   * What writing `os` into a buffer of `cap` bytes gives.  Only the copy of a value is checked
   * against the room left; the header bytes are written unchecked.
   */
  function WriteOptions(os: seq<CoapOption>, cap: nat): (r: Result<bytes>)
    ensures r.Ok? <==> |EncodeOptions(os)| <= cap
    ensures r.Ok? ==> r.value == EncodeOptions(os)
  {
    if os == [] then Ok([])
    else if |OptionHeader(os[0])| > cap then Err(Undefined)
    else if |EncodeOption(os[0])| > cap then Err(DestBufferTooSmall)
    else
      var tail :- WriteOptions(os[1..], cap - |EncodeOption(os[0])|);
      Ok(EncodeOption(os[0]) + tail)
  }

  /** `r` with `front` put before its value. */
  function Prepend<T>(front: seq<T>, r: Result<seq<T>>): Result<seq<T>> {
    match r
    case Ok(v) => Ok(front + v)
    case Err(e) => Err(e)
  }

  lemma PrependNothing<T>(r: Result<seq<T>>)
    ensures Prepend([], r) == r
  {
    if r.Ok? {
      assert [] + r.value == r.value;
    }
  }

  lemma PrependTwice<T>(a: seq<T>, b: seq<T>, r: Result<seq<T>>)
    ensures Prepend(a, Prepend(b, r)) == Prepend(a + b, r)
  {
    if r.Ok? {
      AppendAssoc(a, b, r.value);
    }
  }

  lemma WriteStep(os: seq<CoapOption>, cap: nat)
    requires os != []
    ensures WriteOptions(os, cap)
         == if |OptionHeader(os[0])| > cap then Err(Undefined)
            else if |EncodeOption(os[0])| > cap then Err(DestBufferTooSmall)
            else Prepend(EncodeOption(os[0]), WriteOptions(os[1..], cap - |EncodeOption(os[0])|))
  {
    hide EncodeOption, OptionHeader;
  }

  /** Writes one option from `pos` on: its header unchecked, its value checked. */
  method WriteOption(o: CoapOption, out: array<byte>, pos: nat) returns (r: Result<nat>)
    requires pos <= out.Length
    modifies out
    ensures r == if pos + |OptionHeader(o)| > out.Length then Err(Undefined)
                 else if pos + |EncodeOption(o)| > out.Length then Err(DestBufferTooSmall)
                 else Ok(pos + |EncodeOption(o)|)
    ensures r.Ok? ==> out[..r.value] == old(out[..pos]) + EncodeOption(o)
  {
    hide OptionHeader;
    var header := OptionHeader(o);
    if pos + |header| > out.Length {
      return Err(Undefined);
    }
    CopyInto(out, pos, header);
    ghost var before := out[..pos + |header|];
    assert before == old(out[..pos]) + header;
    if out.Length - (pos + |header|) < |o.value| {
      return Err(DestBufferTooSmall);
    }
    CopyInto(out, pos + |header|, o.value);
    r := Ok(pos + |header| + |o.value|);
    assert out[..r.value] == before + o.value;
    AppendAssoc(old(out[..pos]), header, o.value);
  }

  /** Writes the options into `out` with a moving position; returns the length written. */
  method OptionsIntoByteString(options: seq<CoapOption>, out: array<byte>) returns (r: Result<nat>)
    modifies out
    ensures r.Ok? <==> WriteOptions(options, out.Length).Ok?
    ensures r.Ok? ==> r.value == |EncodeOptions(options)| && out[..r.value] == EncodeOptions(options)
    ensures r.Err? ==> WriteOptions(options, out.Length) == Err(r.error)
  {
    hide *;
    var pos: nat := 0;
    assert options[..0] == [] && options[0..] == options;
    EncodeOptionsUnfold([]);
    PrependNothing(WriteOptions(options, out.Length));
    for i := 0 to |options|
      invariant pos <= out.Length
      invariant out[..pos] == EncodeOptions(options[..i])
      invariant WriteOptions(options, out.Length)
             == Prepend(EncodeOptions(options[..i]), WriteOptions(options[i..], out.Length - pos))
    {
      var o := options[i];
      assert options[..i + 1] == options[..i] + [o] && options[i..][1..] == options[i + 1..];
      EncodeOptionsAppend(options[..i], [o]);
      EncodeOneOption(o);
      WriteStep(options[i..], out.Length - pos);
      var one := WriteOption(o, out, pos);
      if one.Err? {
        PrependError(EncodeOptions(options[..i]), one.error);
        return Err(one.error);
      }
      pos := one.value;
      PrependTwice(EncodeOptions(options[..i]), EncodeOption(o), WriteOptions(options[i + 1..], out.Length - pos));
    }
    assert options[..|options|] == options;
    WriteNothing(out.Length - pos);
    PrependEnds(EncodeOptions(options));
    r := Ok(pos);
  }

  lemma WriteNothing(cap: nat)
    ensures WriteOptions([], cap) == Ok([])
  {
  }

  // ----- the option parser -----

  /** The two copies of the parser differ in how they read an extended length. */
  datatype LengthRule =
    | AddLength       // buf2options, on packets
    | SubtractLength  // oscore_packet_options_parser, on decrypted plaintexts

  /**
   * Reads a delta (`subtract`) or a length from its four bits and the bytes that follow; the
   * second component is the number of extra bytes read.
   */
  function ReadField(nibble: nat, subtract: bool, rest: bytes, reserved: OscoreError): (r: Result<(uint16, nat)>)
    requires nibble < 16
    ensures r.Ok? ==> r.value.1 <= |rest|
  {
    match nibble
    case 13 =>
      if |rest| < 1 then Err(Undefined)
      else
        var b: int := rest[0];
        Ok((U16(if subtract then b - 13 else b + 13), 1))
    case 14 =>
      if |rest| < 2 then Err(Undefined)
      else
        var w: int := Word(rest[0], rest[1]);
        Ok((U16(if subtract then w - 269 else w + 269), 2))
    case 15 => Err(reserved)
    case _ => Ok((nibble, 0))
  }

  /** Reads one option from the front of `data`; also gives the number of bytes it takes. */
  function ParseOne(rule: LengthRule, data: bytes, number: byte): (r: Result<(CoapOption, nat)>)
    ensures r.Ok? ==> 0 < r.value.1 <= |data|
    ensures r.Ok? ==> r.value.0.number == U8(number + r.value.0.delta)
  {
    if |data| == 0 then Err(Undefined) else
      var (delta, dx) :- ReadField(data[0] / 0x10, true, data[1..], InPktInvalidOptionDelta);
      var (len, lx) :- ReadField(data[0] % 0x10, rule.SubtractLength?, data[1 + dx..], InPktInvalidOptionLen);
      var at := 1 + dx + lx;
      if at + len > |data| then Err(Undefined)
      else Ok((CoapOption(delta, data[at..at + len], U8(number + delta)), at + len))
  }

  /**
   * Reads options while fewer than `n` bytes are consumed.  `data` runs to the end of the
   * packet, `number` is the number reached so far, `room` the free entries of the output.
   */
  function ParseOptions(rule: LengthRule, data: bytes, n: nat, number: byte, room: nat): Result<seq<CoapOption>>
    decreases |data|
  {
    if n == 0 then Ok([])
    else if room == 0 then Err(Undefined)
    else
      var (o, used) :- ParseOne(rule, data, number);
      Prepend([o], ParseOptions(rule, data[used..], if used < n then n - used else 0, o.number, room - 1))
  }

  lemma ParseEnds(rule: LengthRule, data: bytes, n: nat, number: byte, room: nat)
    ensures n == 0 ==> ParseOptions(rule, data, n, number, room) == Ok([])
    ensures n > 0 && (room == 0 || data == []) ==> ParseOptions(rule, data, n, number, room) == Err(Undefined)
  {
  }

  lemma ParseStep(rule: LengthRule, data: bytes, n: nat, number: byte, room: nat)
    requires n > 0 && room > 0
    ensures match ParseOne(rule, data, number)
            case Err(e) => ParseOptions(rule, data, n, number, room) == Err(e)
            case Ok((o, used)) =>
              ParseOptions(rule, data, n, number, room)
              == Prepend([o], ParseOptions(rule, data[used..], if used < n then n - used else 0, o.number, room - 1))
  {
    hide ParseOne, Prepend;
  }

  /** The body of the parser loop: one option read from position `i` on. */
  method Buf2Option(rule: LengthRule, data: bytes, i: nat, number: byte) returns (r: Result<(CoapOption, nat)>)
    requires i <= |data|
    ensures r == ParseOne(rule, data[i..], number)
  {
    hide ReadField;
    if i == |data| {
      return Err(Undefined);
    }
    var pos := i;
    var delta, len := data[pos] / 0x10, data[pos] % 0x10;
    pos := pos + 1;
    var field := ReadField(delta, true, data[pos..], InPktInvalidOptionDelta);
    assert data[i..][1..] == data[pos..];
    if field.Err? {
      return Err(field.error);
    }
    delta := field.value.0;
    pos := pos + field.value.1;
    assert data[i..][pos - i..] == data[pos..];
    field := ReadField(len, rule.SubtractLength?, data[pos..], InPktInvalidOptionLen);
    if field.Err? {
      return Err(field.error);
    }
    len := field.value.0;
    pos := pos + field.value.1;
    if pos + len > |data| {
      return Err(Undefined);
    }
    assert data[i..][pos - i..pos - i + len] == data[pos..pos + len];
    r := Ok((CoapOption(delta, data[pos..pos + len], U8(number + delta)), pos + len - i));
  }

  /** The parser loop, with its byte counter `i`. */
  method Buf2Options(rule: LengthRule, data: bytes, n: nat, capacity: nat) returns (r: Result<seq<CoapOption>>)
    ensures r == ParseOptions(rule, data, n, 0, capacity)
  {
    hide *;
    var i: nat, number: byte := 0, 0;
    var options: seq<CoapOption> := [];
    assert data[i..] == data;
    ghost var rest := ParseOptions(rule, data, n, 0, capacity);
    PrependNothing(rest);
    while i < n
      invariant i <= |data| && |options| <= capacity
      invariant rest == ParseOptions(rule, data[i..], if i < n then n - i else 0, number, capacity - |options|)
      invariant ParseOptions(rule, data, n, 0, capacity) == Prepend(options, rest)
      decreases |data| - i
    {
      ParseEnds(rule, data[i..], n - i, number, capacity - |options|);
      if |options| == capacity {
        PrependError(options, Undefined);
        return Err(Undefined);
      }
      ParseStep(rule, data[i..], n - i, number, capacity - |options|);
      var one := Buf2Option(rule, data, i, number);
      if one.Err? {
        PrependError(options, one.error);
        return Err(one.error);
      }
      var (o, used) := one.value;
      assert data[i..][used..] == data[i + used..];
      number := o.number;
      i := i + used;
      rest := ParseOptions(rule, data[i..], if i < n then n - i else 0, number, capacity - |options| - 1);
      PrependTwice(options, [o], rest);
      options := options + [o];
    }
    ParseEnds(rule, data[i..], 0, number, capacity - |options|);
    PrependEnds(options);
    r := Ok(options);
  }

  lemma PrependError<T>(front: seq<T>, e: OscoreError)
    ensures Prepend(front, Err(e)) == Err(e)
  {
  }

  lemma PrependEnds<T>(front: seq<T>)
    ensures Prepend(front, Ok([])) == Ok(front)
  {
    assert front + [] == front;
  }

  // ----- the writer and the parser undo each other -----

  /** Every number is the sum of the deltas up to it, modulo 256, starting from `number`. */
  predicate WellNumbered(os: seq<CoapOption>, number: byte) {
    os == [] || (os[0].number == U8(number + os[0].delta) && WellNumbered(os[1..], os[0].number))
  }

  predicate LengthReadable(rule: LengthRule, o: CoapOption) {
    rule.AddLength? ==> |o.value| < 13
  }

  predicate LengthsReadable(rule: LengthRule, os: seq<CoapOption>) {
    forall o <- os :: LengthReadable(rule, o)
  }

  lemma ReadOneByte(v: uint16, subtract: bool, rest: bytes, reserved: OscoreError)
    requires 13 <= v < 243
    ensures ReadField(13, subtract, [v + 13] + rest, reserved) == Ok((if subtract then v else v + 26, 1))
  {
    var x: int := v;
    assert x + 13 - 13 == x;
  }

  lemma ReadTwoBytes(w: uint16, field: bytes, subtract: bool, reserved: OscoreError)
    requires |field| >= 2 && Word(field[0], field[1]) == w
    ensures ReadField(14, subtract, field, reserved) == Ok((if subtract then U16(w - 269) else U16(w + 269), 2))
  {
    hide Word, U16;
  }

  lemma WordOfBytes(w: uint16)
    ensures Word(w / 0x100, w % 0x100) == w
  {
  }

  lemma WrapSixteen(v: uint16)
    ensures U16(U16(v + 269) - 269) == v && U16(U16(v + 269) + 269) != v
  {
  }

  /** Subtracting undoes the writer for every 16-bit value; adding does so below 13 only. */
  lemma ReadWritten(v: uint16, subtract: bool, rest: bytes, reserved: OscoreError)
    ensures var r := ReadField(Nibble(v), subtract, Ext(v) + rest, reserved);
            r.Ok? && r.value.1 == ExtLen(v) && (r.value.0 == v <==> subtract || v < 13)
  {
    if 13 <= v < 243 {
      hide ReadField;
      ReadOneByte(v, subtract, rest, reserved);
    } else if v >= 243 {
      hide ReadField, U16, Word;
      WordOfBytes(U16(v + 269));
      ReadTwoBytes(U16(v + 269), Ext(v) + rest, subtract, reserved);
      WrapSixteen(v);
    }
  }

  /** Where the parts of a written option lie. */
  lemma OptionLayout(o: CoapOption, rest: bytes)
    ensures var data, dx, lx := EncodeOption(o) + rest, ExtLen(o.delta), ExtLen(|o.value|);
            && data[0] / 0x10 == Nibble(o.delta) && data[0] % 0x10 == Nibble(|o.value|)
            && data[1..] == Ext(o.delta) + (Ext(|o.value|) + (o.value + rest))
            && data[1 + dx..] == Ext(|o.value|) + (o.value + rest)
            && data[1 + dx + lx..] == o.value + rest
            && data[|EncodeOption(o)|..] == rest
  {
    hide Nibble, Ext, ExtLen;
    var first := 0x10 * Nibble(o.delta) + Nibble(|o.value|);
    var dx, lx := Ext(o.delta), Ext(|o.value|);
    var data := EncodeOption(o) + rest;
    assert data == [first] + (dx + (lx + (o.value + rest)));
    assert data[1..] == dx + (lx + (o.value + rest));
    assert data[1 + |dx|..] == lx + (o.value + rest);
    assert data[1 + |dx| + |lx|..] == o.value + rest;
  }

  /** One option is read back exactly when its length is readable; otherwise the length differs. */
  lemma ParseOneEncoded(rule: LengthRule, o: CoapOption, rest: bytes, number: byte)
    ensures var r := ParseOne(rule, EncodeOption(o) + rest, number);
            if LengthReadable(rule, o)
            then r == Ok((CoapOption(o.delta, o.value, U8(number + o.delta)), |EncodeOption(o)|))
            else r.Err? || |r.value.0.value| != |o.value|
  {
    hide EncodeOption, ReadField, Ext, Nibble, ExtLen;
    var data := EncodeOption(o) + rest;
    OptionLayout(o, rest);
    ReadWritten(o.delta, true, Ext(|o.value|) + (o.value + rest), InPktInvalidOptionDelta);
    ReadWritten(|o.value|, rule.SubtractLength?, o.value + rest, InPktInvalidOptionLen);
    var at := 1 + ExtLen(o.delta) + ExtLen(|o.value|);
    assert data[at..at + |o.value|] == data[at..][..|o.value|] == o.value;
  }

  /**
   * The option codec inverse.  Read with the number of bytes written, or with any count that
   * still reaches into the last option, the options come back exactly when their numbers are
   * the running sums, there is room for them, and the parser can read their lengths.
   */
  lemma {:induction false} ParseEncoded(rule: LengthRule, os: seq<CoapOption>, rest: bytes, number: byte, room: nat,
      n: nat)
    requires if os == [] then n == 0
             else |EncodeOptions(os[..|os| - 1])| < n <= |EncodeOptions(os)|
    ensures ParseOptions(rule, EncodeOptions(os) + rest, n, number, room) == Ok(os)
       <==> WellNumbered(os, number) && |os| <= room && LengthsReadable(rule, os)
  {
    hide *;
    if os == [] {
      NothingEncoded(rule, rest, number, room);
      return;
    }
    var o, tail := os[0], os[1..];
    assert os == [o] + tail;
    EncodedFront(os, rest);
    WellNumberedStep(rule, os, number);
    var rest', used := EncodeOptions(tail) + rest, |EncodeOption(o)|;
    var n' := if used < n then n - used else 0;
    ParseOneEncoded(rule, o, rest', number);
    if room == 0 {
      ParseEnds(rule, EncodeOptions(os) + rest, n, number, room);
    } else {
      ParseStep(rule, EncodeOptions(os) + rest, n, number, room);
      if LengthReadable(rule, o) {
        LastReached(os, n);
        ParseEncoded(rule, tail, rest, U8(number + o.delta), room - 1, n');
        PrependIs(CoapOption(o.delta, o.value, U8(number + o.delta)),
                  ParseOptions(rule, rest', n', U8(number + o.delta), room - 1), os);
      } else {
        var first := ParseOne(rule, EncodeOption(o) + rest', number);
        if first.Ok? {
          var used' := first.value.1;
          PrependIs(first.value.0,
                    ParseOptions(rule, (EncodeOptions(os) + rest)[used'..], if used' < n then n - used' else 0,
                                 first.value.0.number, room - 1), os);
        }
      }
    }
  }

  /** What the packet parser makes of an option whose length it cannot read: up to 242 it reads 26 bytes too many. */
  lemma ParseOneLong(o: CoapOption, rest: bytes, number: byte)
    requires |o.value| >= 13
    ensures var r := ParseOne(AddLength, EncodeOption(o) + rest, number);
            r.Ok? ==>
              && r.value.0.number == U8(number + o.delta) && |r.value.0.value| != |o.value|
              && (|o.value| < 243 ==>
                    && |o.value| + 26 <= |o.value + rest| && r.value.0.value == (o.value + rest)[..|o.value| + 26]
                    && r.value.1 == |EncodeOption(o)| + 26)
  {
    hide EncodeOption, ReadField, Ext, U8;
    var data, tail := EncodeOption(o) + rest, o.value + rest;
    OptionLayout(o, rest);
    ReadWritten(o.delta, true, Ext(|o.value|) + tail, InPktInvalidOptionDelta);
    ReadWritten(|o.value|, false, tail, InPktInvalidOptionLen);
    if |o.value| < 243 {
      ReadLongLength(|o.value|, tail);
    }
    var at := 1 + ExtLen(o.delta) + ExtLen(|o.value|);
    assert data[at..] == tail;
    TakeFrom(data, at, tail, |o.value| + 26);
  }

  lemma ReadLongLength(v: uint16, tail: bytes)
    requires 13 <= v < 243
    ensures ReadField(Nibble(v), false, Ext(v) + tail, InPktInvalidOptionLen) == Ok((v + 26, 1)) && ExtLen(v) == 1
  {
    ReadOneByte(v, false, tail, InPktInvalidOptionLen);
    hide ReadField;
  }

  lemma TakeFrom(data: bytes, at: nat, tail: bytes, n: nat)
    requires at <= |data| && data[at..] == tail
    ensures at + n <= |data| ==> data[at..at + n] == tail[..n]
  {
  }

  /**
   * The first option that is too long for the packet parser: what precedes it is read as it
   * was written, itself it has its number and another length.
   */
  lemma {:induction false} FirstMisread(os: seq<CoapOption>, rest: bytes, number: byte, room: nat, i: nat)
    requires WellNumbered(os, number) && i < |os| && |os[i].value| >= 13
    requires forall j :: 0 <= j < i ==> |os[j].value| < 13
    ensures var r := ParseOptions(AddLength, EncodeOptions(os) + rest, |EncodeOptions(os)|, number, room);
            r.Ok? ==> Misread(os, rest, i, r.value)
    decreases i
  {
    hide ParseOne, ParseOptions, EncodeOptions, EncodeOption, U8;
    var o, tail := os[0], os[1..];
    var data, n := EncodeOptions(os) + rest, |EncodeOptions(os)|;
    var used, rest' := |EncodeOption(o)|, EncodeOptions(tail) + rest;
    EncodedFront(os, rest);
    WellNumberedStep(AddLength, os, number);
    if room == 0 {
      ParseEnds(AddLength, data, n, number, room);
      return;
    }
    ParseStep(AddLength, data, n, number, room);
    if i == 0 {
      ParseOneLong(o, rest', number);
      MisreadAtOnce(os, rest, number, room);
    } else {
      ParseOneEncoded(AddLength, o, rest', number);
      EncodeOptionsNonEmpty(tail);
      FirstMisread(tail, rest, o.number, room - 1, i - 1);
      MisreadLater(os, rest, i, ParseOptions(AddLength, rest', |EncodeOptions(tail)|, o.number, room - 1));
    }
  }

  ghost predicate Misread(os: seq<CoapOption>, rest: bytes, i: nat, xs: seq<CoapOption>)
    requires i < |os|
  {
    && i < |xs| && xs[..i] == os[..i]
    && xs[i].number == os[i].number && |xs[i].value| != |os[i].value|
    && (i == |os| - 1 && |os[i].value| < 243 ==>
          |xs| == |os| && |os[i].value| + 26 <= |os[i].value + rest|
              && xs[i].value == (os[i].value + rest)[..|os[i].value| + 26])
  }

  lemma MisreadAtOnce(os: seq<CoapOption>, rest: bytes, number: byte, room: nat)
    requires os != [] && room > 0 && |os[0].value| >= 13 && os[0].number == U8(number + os[0].delta)
    ensures var r := ParseOptions(AddLength, EncodeOptions(os) + rest, |EncodeOptions(os)|, number, room);
            r.Ok? ==> Misread(os, rest, 0, r.value)
  {
    hide ParseOne, EncodeOption, U8;
    var o, tail := os[0], os[1..];
    var data, n, rest' := EncodeOptions(os) + rest, |EncodeOptions(os)|, EncodeOptions(tail) + rest;
    EncodedFront(os, rest);
    ParseOneLong(o, rest', number);
    ParseStep(AddLength, data, n, number, room);
    if tail == [] {
      assert rest' == rest;
    }
    hide EncodeOptions;
  }

  lemma MisreadLater(os: seq<CoapOption>, rest: bytes, i: nat, r: Result<seq<CoapOption>>)
    requires 0 < i < |os| && (r.Ok? ==> Misread(os[1..], rest, i - 1, r.value))
    ensures var all := Prepend([os[0]], r); all.Ok? ==> Misread(os, rest, i, all.value)
  {
    if r.Ok? {
      var xs := [os[0]] + r.value;
      assert xs[..i] == [os[0]] + r.value[..i - 1];
      assert os[..i] == [os[0]] + os[1..][..i - 1];
    }
  }

  lemma NothingEncoded(rule: LengthRule, rest: bytes, number: byte, room: nat)
    ensures ParseOptions(rule, EncodeOptions([]) + rest, 0, number, room) == Ok([])
    ensures WellNumbered([], number) && LengthsReadable(rule, []) && |EncodeOptions([])| == 0
  {
  }

  lemma EncodedFront(os: seq<CoapOption>, rest: bytes)
    requires os != []
    ensures EncodeOptions(os) + rest == EncodeOption(os[0]) + (EncodeOptions(os[1..]) + rest)
    ensures var used := |EncodeOption(os[0])|;
            |EncodeOptions(os)| == used + |EncodeOptions(os[1..])|
            && (EncodeOptions(os) + rest)[used..] == EncodeOptions(os[1..]) + rest
  {
    hide EncodeOption;
    AppendAssoc(EncodeOption(os[0]), EncodeOptions(os[1..]), rest);
  }

  lemma WellNumberedStep(rule: LengthRule, os: seq<CoapOption>, number: byte)
    requires os != []
    ensures WellNumbered(os, number)
       <==> os[0].number == U8(number + os[0].delta) && WellNumbered(os[1..], os[0].number)
    ensures LengthsReadable(rule, os) <==> LengthReadable(rule, os[0]) && LengthsReadable(rule, os[1..])
  {
    assert os == [os[0]] + os[1..];
  }

  /** A count that reaches into the last option still does so after the first one is read. */
  lemma LastReached(os: seq<CoapOption>, n: nat)
    requires os != [] && |EncodeOptions(os[..|os| - 1])| < n <= |EncodeOptions(os)|
    ensures var tail, used := os[1..], |EncodeOption(os[0])|;
            var n' := if used < n then n - used else 0;
            if tail == [] then n' == 0 else |EncodeOptions(tail[..|tail| - 1])| < n' <= |EncodeOptions(tail)|
  {
    hide EncodeOption;
    var o, tail := os[0], os[1..];
    if tail != [] {
      var front := os[..|os| - 1];
      assert front[0] == o && front[1..] == tail[..|tail| - 1];
    }
  }

  lemma PrependIs(o: CoapOption, r: Result<seq<CoapOption>>, os: seq<CoapOption>)
    requires os != []
    ensures Prepend([o], r) == Ok(os) <==> o == os[0] && r == Ok(os[1..])
  {
    if r.Ok? {
      assert ([o] + r.value)[0] == o && ([o] + r.value)[1..] == r.value;
      assert os == [os[0]] + os[1..];
    }
  }

  // ----- packets -----

  /** Index of the first payload marker, or the length when there is none. */
  function MarkerIndex(data: bytes): (n: nat)
    ensures n <= |data|
    ensures PAYLOAD_MARKER !in data[..n]
    ensures n < |data| ==> data[n] == PAYLOAD_MARKER
  {
    if data == [] || data[0] == PAYLOAD_MARKER then 0
    else
      var n := 1 + MarkerIndex(data[1..]);
      assert data[..n] == [data[0]] + data[1..][..n - 1];
      n
  }

  lemma {:induction false} MarkerIndexUnique(data: bytes, n: nat)
    requires n <= |data| && PAYLOAD_MARKER !in data[..n]
    requires n < |data| ==> data[n] == PAYLOAD_MARKER
    ensures MarkerIndex(data) == n
  {
    if n > 0 {
      assert data[0] in data[..n] && data[..n][1..] == data[1..][..n - 1];
      MarkerIndexUnique(data[1..], n - 1);
    }
  }

  lemma {:induction false} MarkerIndexBound(data: bytes, k: nat)
    requires k < |data| && data[k] == PAYLOAD_MARKER
    ensures MarkerIndex(data) <= k
  {
    if k > 0 {
      MarkerIndexBound(data[1..], k - 1);
    }
  }

  function PayloadPart(payload: bytes): bytes {
    if payload == [] then [] else [PAYLOAD_MARKER] + payload
  }

  function HeaderPart(p: Packet): (h: bytes)
    ensures |h| == 4 + |p.token|
  {
    [0x40 * p.ver + 0x10 * p.typ + |p.token|, p.code, p.mid / 0x100, p.mid % 0x100] + p.token
  }

  /** The byte form of a packet: header, token, options, and the payload behind its marker. */
  function Serialize(p: Packet): bytes {
    HeaderPart(p) + EncodeOptions(p.options) + PayloadPart(p.payload)
  }

  /** What reading a packet gives; the payload starts behind the first marker after the token. */
  function Parse(buf: bytes): Result<Packet> {
    if |buf| < 4 then Err(Undefined)
    else if buf[0] % 0x10 > 8 then Err(InPktInvalidTKL)
    else
      var tkl := buf[0] % 0x10;
      if |buf| < 4 + tkl then Err(Undefined)
      else
        var rest := buf[4 + tkl..];
        var n := MarkerIndex(rest);
        var options :- ParseOptions(AddLength, rest, n, 0, MAX_OPTION_COUNT);
        Ok(Packet(buf[0] / 0x40, buf[0] / 0x10 % 4, buf[1], Word(buf[2], buf[3]),
                  buf[4..4 + tkl], options, if n == |rest| then [] else rest[n + 1..]))
  }

  /** Moves over the options to the payload marker, counting down the bytes left. */
  method OptionsLength(data: bytes) returns (optionsLen: nat)
    ensures optionsLen == MarkerIndex(data)
  {
    var left: nat := |data|;
    optionsLen := 0;
    while left != 0 && data[optionsLen] != PAYLOAD_MARKER
      invariant optionsLen + left == |data|
      invariant PAYLOAD_MARKER !in data[..optionsLen]
    {
      left, optionsLen := left - 1, optionsLen + 1;
    }
    MarkerIndexUnique(data, optionsLen);
  }

  /** Reads a packet: header, token, options, payload; its length is counted in a uint16_t. */
  method Buf2Coap(buf: bytes) returns (r: Result<Packet>)
    requires |buf| < 0x1_0000
    ensures r == Parse(buf)
  {
    hide ParseOptions;
    if |buf| < 4 {
      return Err(Undefined);
    }
    var ver, typ, tkl := buf[0] / 0x40, buf[0] / 0x10 % 4, buf[0] % 0x10;
    var code, mid := buf[1], Word(buf[2], buf[3]);
    if tkl > 8 {
      return Err(InPktInvalidTKL);
    }
    if |buf| < 4 + tkl {
      return Err(Undefined);
    }
    var token, rest := buf[4..4 + tkl], buf[4 + tkl..];
    var optionsLen := OptionsLength(rest);
    var options := Buf2Options(AddLength, rest, optionsLen, MAX_OPTION_COUNT);
    if options.Err? {
      return Err(options.error);
    }
    var payload := if optionsLen == |rest| then [] else rest[optionsLen + 1..];
    r := Ok(Packet(ver, typ, code, mid, token, options.value, payload));
  }

  /** The scratch buffer is sized for two extra bytes per delta and length, in a uint16_t. */
  function ScratchSum(os: seq<CoapOption>): nat {
    if os == [] then 0 else 5 + |os[0].value| + ScratchSum(os[1..])
  }

  function ScratchLen(os: seq<CoapOption>): nat { U16(ScratchSum(os)) }

  lemma ScratchEnough(os: seq<CoapOption>)
    ensures |EncodeOptions(os)| <= ScratchSum(os)
  {
  }

  lemma {:induction false} ScratchSumAppend(os: seq<CoapOption>, o: CoapOption)
    ensures ScratchSum(os + [o]) == ScratchSum(os) + 5 + |o.value|
  {
    if os != [] {
      ScratchSumAppend(os[1..], o);
      assert (os + [o])[1..] == os[1..] + [o];
    }
  }

  method ScratchLength(options: seq<CoapOption>) returns (len: uint16)
    ensures len == ScratchLen(options)
  {
    len := 0;
    for i := 0 to |options|
      invariant len == ScratchLen(options[..i])
    {
      ScratchSumAppend(options[..i], options[i]);
      assert options[..i + 1] == options[..i] + [options[i]];
      len := U16(len + 1 + 2 + 2 + |options[i].value|);
    }
    assert options[..|options|] == options;
  }

  /**
   * What writing `p` into a buffer of `cap` bytes gives.  Token, options and payload are
   * checked against the room left; the marker is written unchecked.
   */
  function WritePacket(p: Packet, cap: nat): (r: Result<bytes>)
    ensures r.Ok? <==> |EncodeOptions(p.options)| <= ScratchLen(p.options) && |Serialize(p)| <= cap
    ensures r.Ok? ==> r.value == Serialize(p)
  {
    if cap < 4 then Err(Undefined)
    else if cap < 4 + |p.token| then Err(DestBufferTooSmall)
    else
      var encoded :- WriteOptions(p.options, ScratchLen(p.options));
      var pos := 4 + |p.token| + |encoded|;
      if cap < pos then Err(DestBufferTooSmall)
      else if p.payload == [] then Ok(Serialize(p))
      else if cap == pos then Err(Undefined)
      else if cap < pos + 1 + |p.payload| then Err(DestBufferTooSmall)
      else Ok(Serialize(p))
  }

  /** Writes the four header bytes and the token. */
  method WriteHeader(p: Packet, out: array<byte>) returns (r: Result<nat>)
    modifies out
    ensures r == if out.Length < 4 then Err(Undefined)
                 else if out.Length < 4 + |p.token| then Err(DestBufferTooSmall)
                 else Ok(4 + |p.token|)
    ensures r.Ok? ==> out[..r.value] == HeaderPart(p)
  {
    if out.Length < 4 {
      return Err(Undefined);
    }
    out[0] := 0x40 * p.ver + 0x10 * p.typ + |p.token|;
    out[1] := p.code;
    out[2] := p.mid / 0x100;
    out[3] := p.mid % 0x100;
    var pos := 4;
    if |p.token| > 0 {
      if out.Length - pos < |p.token| {
        return Err(DestBufferTooSmall);
      }
      CopyInto(out, pos, p.token);
      pos := pos + |p.token|;
    }
    r := Ok(pos);
  }

  /** Writes the marker and the payload, if there is one, from `pos` on. */
  method WritePayload(payload: bytes, out: array<byte>, pos: nat) returns (r: Result<nat>)
    requires pos <= out.Length
    modifies out
    ensures r == if payload == [] then Ok(pos)
                 else if out.Length == pos then Err(Undefined)
                 else if out.Length < pos + 1 + |payload| then Err(DestBufferTooSmall)
                 else Ok(pos + 1 + |payload|)
    ensures r.Ok? ==> out[..r.value] == old(out[..pos]) + PayloadPart(payload)
  {
    if |payload| == 0 {
      return Ok(pos);
    }
    if pos == out.Length {
      return Err(Undefined);
    }
    out[pos] := PAYLOAD_MARKER;
    if out.Length - (pos + 1) < |payload| {
      return Err(DestBufferTooSmall);
    }
    ghost var marked := out[..pos + 1];
    assert marked == old(out[..pos]) + [PAYLOAD_MARKER];
    CopyInto(out, pos + 1, payload);
    AppendAssoc(old(out[..pos]), [PAYLOAD_MARKER], payload);
    assert out[..pos + 1 + |payload|] == marked + payload;
    r := Ok(pos + 1 + |payload|);
  }

  /** Writes a packet into `out`, whose size is a uint16_t; returns the length written. */
  method Coap2Buf(p: Packet, out: array<byte>) returns (r: Result<uint16>)
    requires out.Length < 0x1_0000
    modifies out
    ensures r.Ok? <==> WritePacket(p, out.Length).Ok?
    ensures r.Ok? ==> r.value == |Serialize(p)| && out[..r.value] == Serialize(p)
    ensures r.Err? ==> WritePacket(p, out.Length) == Err(r.error)
  {
    hide EncodeOptions, WriteOptions, ScratchLen, HeaderPart, PayloadPart;
    r := WriteHeader(p, out);
    if r.Err? {
      return;
    }
    var pos := r.value;
    var scratchLen := ScratchLength(p.options);
    var scratch := new byte[scratchLen](_ => 0);
    var written := OptionsIntoByteString(p.options, scratch);
    if written.Err? {
      return Err(written.error);
    }
    if out.Length - pos < written.value {
      return Err(DestBufferTooSmall);
    }
    CopyInto(out, pos, scratch[..written.value]);
    pos := pos + written.value;
    assert out[..pos] == HeaderPart(p) + EncodeOptions(p.options);
    r := WritePayload(p.payload, out, pos);
  }

  /** No marker among the option bytes, save one that ends a packet without payload. */
  predicate OptionBytesMarkerFree(e: bytes, payload: bytes) {
    e == [] || (PAYLOAD_MARKER !in e[..|e| - 1] && (e[|e| - 1] == PAYLOAD_MARKER ==> payload == []))
  }

  predicate MarkerFree(p: Packet) {
    OptionBytesMarkerFree(EncodeOptions(p.options), p.payload)
  }

  /** What a caller can check before writing a packet to know that it can be read back. */
  predicate Readable(p: Packet) {
    && WellNumbered(p.options, 0)
    && |p.options| <= 20
    && (forall o <- p.options :: |o.value| < 13)
    && MarkerFree(p)
  }

  lemma EncodeOptionsStart(os: seq<CoapOption>)
    requires os != []
    ensures EncodeOptions(os) != [] && EncodeOptions(os)[0] != PAYLOAD_MARKER
  {
    NoMarkerFirst(os[0]);
    hide EncodeOption;
  }

  /** The packet `p` with the options and the payload found in `rest`. */
  function WithRest(p: Packet, rest: bytes): Result<Packet> {
    var n := MarkerIndex(rest);
    var options :- ParseOptions(AddLength, rest, n, 0, MAX_OPTION_COUNT);
    Ok(p.(options := options, payload := if n == |rest| then [] else rest[n + 1..]))
  }

  /** Reading a written packet, once its header and token are read. */
  lemma ParseFront(p: Packet)
    ensures Parse(Serialize(p)) == WithRest(p, EncodeOptions(p.options) + PayloadPart(p.payload))
  {
    hide EncodeOptions, ParseOptions, PayloadPart, Word, HeaderPart, MarkerIndex;
    var e, tail := EncodeOptions(p.options), PayloadPart(p.payload);
    AppendAssoc(HeaderPart(p), e, tail);
    HeaderRead(p, e + tail);
  }

  lemma HeaderRead(p: Packet, rest: bytes)
    ensures var buf, tkl := HeaderPart(p) + rest, |p.token|;
            && buf[0] / 0x40 == p.ver && buf[0] / 0x10 % 4 == p.typ && buf[0] % 0x10 == tkl
            && buf[1] == p.code && Word(buf[2], buf[3]) == p.mid
            && buf[4..4 + tkl] == p.token && buf[4 + tkl..] == rest
  {
    WordOfBytes(p.mid);
    FirstHeaderByte(p.ver, p.typ, |p.token|);
    hide Word;
    var buf := HeaderPart(p) + rest;
    assert buf[0] == 0x40 * p.ver + 0x10 * p.typ + |p.token|;
    assert buf[2] == p.mid / 0x100 && buf[3] == p.mid % 0x100;
  }

  lemma FirstHeaderByte(ver: uint2, typ: uint2, tkl: nat)
    requires tkl <= 8
    ensures var b := 0x40 * ver + 0x10 * typ + tkl; b / 0x40 == ver && b / 0x10 % 4 == typ && b % 0x10 == tkl
  {
  }

  /** The packet comes back when its options do and its payload does. */
  lemma WithRestIs(p: Packet, rest: bytes)
    ensures var n := MarkerIndex(rest);
            (WithRest(p, rest) == Ok(p)
             <==> ParseOptions(AddLength, rest, n, 0, MAX_OPTION_COUNT) == Ok(p.options)
                  && (if n == |rest| then [] else rest[n + 1..]) == p.payload)
  {
    hide ParseOptions, MarkerIndex;
  }

  lemma EncodeOptionsNonEmpty(os: seq<CoapOption>)
    requires os != []
    ensures var start := |EncodeOptions(os[..|os| - 1])|;
            start < |EncodeOptions(os)| && EncodeOptions(os)[start] != PAYLOAD_MARKER
  {
    var front, last := os[..|os| - 1], os[|os| - 1];
    assert os == front + [last];
    EncodeOptionsAppend(front, [last]);
    EncodeOneOption(last);
    NoMarkerFirst(last);
    hide EncodeOption, EncodeOptions;
  }

  /** Free of markers, the marker is at the end of the option bytes or on their last byte. */
  lemma MarkerAtEnd(e: bytes, payload: bytes)
    requires e != [] ==> e[0] != PAYLOAD_MARKER
    requires OptionBytesMarkerFree(e, payload)
    ensures var rest := e + PayloadPart(payload);
            var n := MarkerIndex(rest);
            |e| - 1 <= n <= |e| && (n == |e| || e[n] == PAYLOAD_MARKER)
                && (if n == |rest| then [] else rest[n + 1..]) == payload
  {
    hide MarkerIndex, PayloadPart;
    var tail := PayloadPart(payload);
    PayloadPartIs(payload);
    if e == [] {
      assert e + tail == tail;
      MarkerIndexUnique(tail, 0);
    } else if e[|e| - 1] == PAYLOAD_MARKER {
      assert e + tail == e;
      MarkerIndexUnique(e, |e| - 1);
    } else {
      LastIsNone(e);
      assert (e + tail)[..|e|] == e && (e + tail)[|e|..] == tail;
      MarkerIndexUnique(e + tail, |e|);
    }
  }

  lemma PayloadPartIs(payload: bytes)
    ensures var tail := PayloadPart(payload);
            if payload == [] then tail == [] else |tail| > 0 && tail[0] == PAYLOAD_MARKER && tail[1..] == payload
  {
  }

  lemma LastIsNone(e: bytes)
    requires e != [] && PAYLOAD_MARKER !in e[..|e| - 1] && e[|e| - 1] != PAYLOAD_MARKER
    ensures PAYLOAD_MARKER !in e
  {
    assert e == e[..|e| - 1] + [e[|e| - 1]];
  }

  /** Otherwise more than the payload lies behind the first marker. */
  lemma MarkerInside(e: bytes, payload: bytes)
    requires !OptionBytesMarkerFree(e, payload)
    ensures var rest := e + PayloadPart(payload);
            var n := MarkerIndex(rest);
            n < |rest| && rest[n + 1..] != payload
  {
    var k :| 0 <= k < |e| && e[k] == PAYLOAD_MARKER && (k < |e| - 1 || payload != []);
    MarkerIndexBound(e + PayloadPart(payload), k);
  }

  /**
   * Options and payload behind them are read back, by either parser, exactly when the numbers
   * are running sums, there is room, the lengths are readable and no marker lies in between.
   */
  lemma RestRead(rule: LengthRule, os: seq<CoapOption>, payload: bytes, room: nat)
    ensures var rest := EncodeOptions(os) + PayloadPart(payload);
            var n := MarkerIndex(rest);
            ((ParseOptions(rule, rest, n, 0, room) == Ok(os) && (if n == |rest| then [] else rest[n + 1..]) == payload)
             <==> WellNumbered(os, 0) && |os| <= room && LengthsReadable(rule, os)
                  && OptionBytesMarkerFree(EncodeOptions(os), payload))
  {
    hide *;
    var e, tail := EncodeOptions(os), PayloadPart(payload);
    if OptionBytesMarkerFree(e, payload) {
      if os != [] {
        EncodeOptionsNonEmpty(os);
        EncodeOptionsStart(os);
      }
      EncodeNothing();
      MarkerAtEnd(e, payload);
      ParseEncoded(rule, os, tail, 0, room, MarkerIndex(e + tail));
    } else {
      MarkerInside(e, payload);
    }
  }

  lemma EncodeNothing()
    ensures EncodeOptions([]) == []
  {
  }

  lemma FreeOfMarkers(p: Packet)
    ensures MarkerFree(p) <==> OptionBytesMarkerFree(EncodeOptions(p.options), p.payload)
  {
  }

  lemma ReadableMeans(p: Packet)
    ensures Readable(p) <==> WellNumbered(p.options, 0) && |p.options| <= MAX_OPTION_COUNT
                             && LengthsReadable(AddLength, p.options) && MarkerFree(p)
  {
  }

  /**
   * With deltas below 256 and lengths below 13 the serialised options contain the marker byte
   * exactly when a delta is 242 or a value contains it.
   */
  lemma {:induction false} MarkerSources(os: seq<CoapOption>)
    requires forall o <- os :: o.delta < 0x100 && |o.value| < 13
    ensures PAYLOAD_MARKER in EncodeOptions(os) <==> exists o <- os :: o.delta == 242 || PAYLOAD_MARKER in o.value
  {
    hide EncodeOption;
    if os != [] {
      MarkerSource(os[0]);
      MarkerSources(os[1..]);
      assert forall o :: o in os <==> o == os[0] || o in os[1..];
    }
  }

  lemma MarkerSource(o: CoapOption)
    requires o.delta < 0x100 && |o.value| < 13
    ensures PAYLOAD_MARKER in EncodeOption(o) <==> o.delta == 242 || PAYLOAD_MARKER in o.value
  {
    var h := OptionHeader(o);
    assert h == [h[0]] + Ext(o.delta);
    assert h[0] != PAYLOAD_MARKER;
    if 13 <= o.delta < 243 {
      assert Ext(o.delta) == [o.delta + 13];
    }
  }

  // ----- the option format of section 3.1 of RFC 7252 -----

  /** The extra bytes as the RFC has them: 13 or 269 is subtracted. */
  function RfcExt(v: uint16): bytes {
    if v < 13 then [] else if v < 269 then [v - 13] else [(v - 269) / 0x100, (v - 269) % 0x100]
  }

  function RfcNibble(v: uint16): nat {
    if v < 13 then v else if v < 269 then 13 else 14
  }

  function RfcOption(o: CoapOption): bytes {
    [0x10 * RfcNibble(o.delta) + RfcNibble(|o.value|)] + RfcExt(o.delta) + RfcExt(|o.value|) + o.value
  }

  /** An option is written as the RFC has it exactly when its delta and its length need no extra bytes. */
  lemma WrittenAsInRfc(o: CoapOption)
    ensures EncodeOption(o) == RfcOption(o) <==> o.delta < 13 && |o.value| < 13
  {
    hide *;
    FirstNibbles(o);
    SameExt(o.delta);
    SameExt(|o.value|);
    if EncodeOption(o) == RfcOption(o) {
      BehindFirst(o);
      SplitAt(Ext(o.delta), Ext(|o.value|) + o.value, RfcExt(o.delta), RfcExt(|o.value|) + o.value);
      SplitAt(Ext(|o.value|), o.value, RfcExt(|o.value|), o.value);
    } else {
      WrittenShort(o);
    }
  }

  lemma FirstNibbles(o: CoapOption)
    ensures EncodeOption(o) == RfcOption(o) ==>
              Nibble(o.delta) == RfcNibble(o.delta) && Nibble(|o.value|) == RfcNibble(|o.value|)
  {
    hide Ext, RfcExt;
    var a, b := EncodeOption(o), RfcOption(o);
    assert a[0] == 0x10 * Nibble(o.delta) + Nibble(|o.value|);
    assert b[0] == 0x10 * RfcNibble(o.delta) + RfcNibble(|o.value|);
  }

  lemma BehindFirst(o: CoapOption)
    requires EncodeOption(o) == RfcOption(o)
    ensures Ext(o.delta) + (Ext(|o.value|) + o.value) == RfcExt(o.delta) + (RfcExt(|o.value|) + o.value)
  {
    var a, b := EncodeOption(o), RfcOption(o);
    hide Ext, RfcExt, Nibble, RfcNibble;
    assert a[1..] == Ext(o.delta) + (Ext(|o.value|) + o.value);
    assert b[1..] == RfcExt(o.delta) + (RfcExt(|o.value|) + o.value);
  }

  lemma WrittenShort(o: CoapOption)
    ensures o.delta < 13 && |o.value| < 13 ==> EncodeOption(o) == RfcOption(o)
  {
  }

  /** With the same nibble, the extra bytes have one length; from 13 on their contents differ. */
  lemma SameExt(v: uint16)
    ensures Nibble(v) == RfcNibble(v) ==> |Ext(v)| == |RfcExt(v)| && (Ext(v) == RfcExt(v) <==> v < 13)
  {
    if v >= 13 && Nibble(v) == RfcNibble(v) {
      ExtDiffers(v);
    }
  }

  /** Either the nibbles differ, or the extra bytes have one length and other contents. */
  lemma ExtDiffers(v: uint16)
    requires v >= 13 && Nibble(v) == RfcNibble(v)
    ensures |Ext(v)| == |RfcExt(v)| && Ext(v) != RfcExt(v)
  {
    if v < 243 {
      assert Ext(v)[0] == v + 13;
    } else {
      var t := U16(v + 269);
      assert Ext(v) == [t / 0x100, t % 0x100];
      assert t != v - 269;
    }
  }

  /** What a reader that follows the RFC takes a nibble and its extra bytes for: it adds 13 or 269. */
  function RfcValue(nibble: nat, ext: bytes): nat
    requires |ext| == if nibble < 13 then 0 else if nibble == 13 then 1 else 2
  {
    var first: int := if ext == [] then 0 else ext[0];
    if nibble < 13 then nibble
    else if nibble == 13 then first + 13
    else 0x100 * first + ext[1] + 269
  }

  /** Such a reader finds every delta or length from 13 on larger than it was, by 26 or 538 if nothing wraps. */
  lemma RfcPeerReads(v: uint16)
    ensures |Ext(v)| == (if Nibble(v) < 13 then 0 else if Nibble(v) == 13 then 1 else 2) && Nibble(v) <= 14
    ensures RfcValue(Nibble(v), Ext(v))
         == if v < 13 then v else if v < 243 then v + 26 else (v + 269) % 0x1_0000 + 269
  {
  }

  /** What the parser refuses: a token length above 8, and a nibble of 15. */
  lemma ParserRefuses(rule: LengthRule, buf: bytes, number: byte)
    ensures |buf| >= 4 && buf[0] % 0x10 > 8 ==> Parse(buf) == Err(InPktInvalidTKL)
    ensures |buf| >= 1 && buf[0] / 0x10 == 15 ==> ParseOne(rule, buf, number) == Err(InPktInvalidOptionDelta)
    ensures |buf| >= 1 && buf[0] / 0x10 < 13 && buf[0] % 0x10 == 15 ==>
              ParseOne(rule, buf, number) == Err(InPktInvalidOptionLen)
  {
    hide ParseOptions, MarkerIndex, Word;
  }

  /** The packet codec inverse: a written packet is read back exactly when it is `Readable`. */
  lemma ParseSerialized(p: Packet)
    ensures Parse(Serialize(p)) == Ok(p) <==> Readable(p)
  {
    hide *;
    ReadableMeans(p);
    FreeOfMarkers(p);
    ParseFront(p);
    RestRead(AddLength, p.options, p.payload, MAX_OPTION_COUNT);
    WithRestIs(p, EncodeOptions(p.options) + PayloadPart(p.payload));
  }
}
