/**
 * The CBOR data items the two protocols use (section 3 of RFC 8949): their encoding, a reader,
 * unique decodability of item sequences, and an encoder that fills a buffer from an advancing
 * position and goes on counting when the buffer is full.
 */
module Cbor {
  import opened Bytes

  // ----- numbers in network byte order -----

  function Pow256(k: nat): (p: nat)
    ensures p > 0
  {
    if k == 0 then 1 else 0x100 * Pow256(k - 1)
  }

  function BigEndian(n: nat, k: nat): (b: bytes)
    ensures |b| == k
  {
    if k == 0 then [] else BigEndian(n / 0x100, k - 1) + [n % 0x100]
  }

  function BigEndianValue(b: bytes): nat {
    if b == [] then 0 else 0x100 * BigEndianValue(b[..|b| - 1]) + b[|b| - 1]
  }

  lemma {:induction false} BigEndianRoundTrip(n: nat, k: nat)
    requires n < Pow256(k)
    ensures BigEndianValue(BigEndian(n, k)) == n
  {
    if k > 0 {
      BigEndianRoundTrip(n / 0x100, k - 1);
      var front := BigEndian(n / 0x100, k - 1);
      assert (front + [n % 0x100])[..k - 1] == front;
    }
  }

  lemma PowersOf256()
    ensures Pow256(1) == 0x100 && Pow256(2) == 0x1_0000 && Pow256(4) == 0x1_0000_0000
    ensures Pow256(8) == 0x1_0000_0000_0000_0000
  {
    assert Pow256(6) == 0x1_0000_0000_0000;
  }

  // ----- item heads -----

  type Major = m: nat | m < 8

  /** Number of argument bytes behind the initial byte. */
  function ArgumentLen(arg: uint64): (k: nat)
    ensures k in {0, 1, 2, 4, 8}
  {
    if arg < 24 then 0 else if arg < 0x100 then 1 else if arg < 0x1_0000 then 2
    else if arg < 0x1_0000_0000 then 4 else 8
  }

  /** The value the five low bits of the initial byte take for `k` argument bytes. */
  function ArgumentCode(k: nat): nat
    requires k in {1, 2, 4, 8}
  {
    if k == 1 then 24 else if k == 2 then 25 else if k == 4 then 26 else 27
  }

  function Head(major: Major, arg: uint64): (h: bytes)
    ensures |h| == 1 + ArgumentLen(arg)
  {
    var k := ArgumentLen(arg);
    if k == 0 then [0x20 * major + arg]
    else [0x20 * major + ArgumentCode(k)] + BigEndian(arg, k)
  }

  /** The head at the front of `b`: its major type, its argument, and its length. */
  function ReadHead(b: bytes): (r: Option<(Major, nat, nat)>)
    ensures r.Some? ==> 0 < r.value.2 <= |b|
  {
    if b == [] then None
    else
      var low := b[0] % 0x20;
      var k := if low < 24 then 0 else if low == 24 then 1 else if low == 25 then 2 else if low == 26 then 4 else 8;
      if low > 27 || |b| < 1 + k then None
      else Some((b[0] / 0x20, if k == 0 then low else BigEndianValue(b[1..1 + k]), 1 + k))
  }

  lemma ReadHeadWritten(major: Major, arg: uint64, rest: bytes)
    ensures ReadHead(Head(major, arg) + rest) == Some((major, arg, |Head(major, arg)|))
  {
    var k, b := ArgumentLen(arg), Head(major, arg) + rest;
    if k > 0 {
      ArgumentFits(arg);
      BigEndianRoundTrip(arg, k);
      hide BigEndian, BigEndianValue, Pow256;
      assert b[0] == 0x20 * major + ArgumentCode(k);
      assert b[1..1 + k] == BigEndian(arg, k);
      FirstByte(major, ArgumentCode(k));
    } else {
      assert b[0] == 0x20 * major + arg;
      FirstByte(major, arg);
    }
  }

  lemma FirstByte(major: Major, low: nat)
    requires low < 0x20
    ensures (0x20 * major + low) / 0x20 == major && (0x20 * major + low) % 0x20 == low
  {
  }

  lemma ArgumentFits(arg: uint64)
    ensures arg < Pow256(ArgumentLen(arg)) || ArgumentLen(arg) == 0
  {
    PowersOf256();
    hide Pow256;
  }

  // ----- items -----

  datatype Item =
    | Int(value: int)
    | ByteString(content: bytes)
    | TextString(content: bytes)
    | ArrayHead(count: nat)
    | MapHead(count: nat)
    | Null

  /** Arguments fit their heads; heads of maps are a single byte. */
  predicate WellFormed(item: Item) {
    match item
    case Int(v) => -0x1_0000_0000_0000_0000 <= v < 0x1_0000_0000_0000_0000
    case ByteString(b) => |b| < 0x1_0000_0000_0000_0000
    case TextString(b) => |b| < 0x1_0000_0000_0000_0000
    case ArrayHead(n) => n < 0x1_0000_0000_0000_0000
    case MapHead(n) => n < 24
    case Null => true
  }

  type CborItem = i: Item | WellFormed(i) witness Null

  function Encode(item: CborItem): (b: bytes)
    ensures |b| > 0
  {
    match item
    case Int(v) => if v >= 0 then Head(0, v) else Head(1, -1 - v)
    case ByteString(s) => Head(2, |s|) + s
    case TextString(s) => Head(3, |s|) + s
    case ArrayHead(n) => Head(4, n)
    case MapHead(n) => Head(5, n)
    case Null => Head(7, 22)
  }

  /** The item at the front of `b` and its length; of a map only the initial byte is taken. */
  function ReadItem(b: bytes): (r: Option<(Item, nat)>)
    ensures r.Some? ==> 0 < r.value.1 <= |b|
  {
    match ReadHead(b)
    case None => None
    case Some((major, arg, used)) =>
      match major
      case 0 => Some((Int(arg), used))
      case 1 => Some((Int(-1 - arg), used))
      case 2 => if |b| < used + arg then None else Some((ByteString(b[used..used + arg]), used + arg))
      case 3 => if |b| < used + arg then None else Some((TextString(b[used..used + arg]), used + arg))
      case 4 => Some((ArrayHead(arg), used))
      case 5 => Some((MapHead(arg), 1))
      case _ => if major == 7 && arg == 22 && used == 1 then Some((Null, 1)) else None
  }

  /** Reading a written item gives the item back, whatever follows it. */
  lemma ReadItemWritten(item: CborItem, rest: bytes)
    ensures ReadItem(Encode(item) + rest) == Some((item, |Encode(item)|))
  {
    hide Head, ReadHead;
    match item
    case Int(v) => ReadHeadWritten(if v >= 0 then 0 else 1, if v >= 0 then v else -1 - v, rest);
    case ByteString(s) => ReadString(2, s, rest);
    case TextString(s) => ReadString(3, s, rest);
    case ArrayHead(n) => ReadHeadWritten(4, n, rest);
    case MapHead(n) => ReadHeadWritten(5, n, rest);
    case Null => ReadHeadWritten(7, 22, rest);
  }

  lemma ReadString(major: Major, s: bytes, rest: bytes)
    requires |s| < 0x1_0000_0000_0000_0000 && (major == 2 || major == 3)
    ensures ReadItem(Head(major, |s|) + s + rest)
         == Some((if major == 2 then ByteString(s) else TextString(s), |Head(major, |s|) + s|))
  {
    hide Head, ReadHead;
    ReadHeadWritten(major, |s|, s + rest);
    StringLayout(major, s, rest);
  }

  lemma StringLayout(major: Major, s: bytes, rest: bytes)
    requires |s| < 0x1_0000_0000_0000_0000
    ensures var h := Head(major, |s|);
            h + s + rest == h + (s + rest) && (h + s + rest)[|h|..|h| + |s|] == s
  {
    hide *;
    AppendAssoc(Head(major, |s|), s, rest);
  }

  // ----- item sequences -----

  function EncodeAll(items: seq<CborItem>): bytes {
    if items == [] then [] else Encode(items[0]) + EncodeAll(items[1..])
  }

  lemma {:induction false} EncodeAllAppend(a: seq<CborItem>, b: seq<CborItem>)
    ensures EncodeAll(a + b) == EncodeAll(a) + EncodeAll(b)
  {
    hide Encode;
    if a == [] {
      assert a + b == b;
    } else {
      EncodeAllAppend(a[1..], b);
      assert (a + b)[1..] == a[1..] + b;
      AppendAssoc(Encode(a[0]), EncodeAll(a[1..]), EncodeAll(b));
    }
  }

  lemma EncodeOne(item: CborItem)
    ensures EncodeAll([item]) == Encode(item)
  {
    hide Encode;
    assert Encode(item) + [] == Encode(item);
  }

  lemma EncodeAllCons(items: seq<CborItem>)
    requires items != []
    ensures EncodeAll(items) == Encode(items[0]) + EncodeAll(items[1..])
  {
    hide Encode;
  }

  /** The first item and what follows it are determined by the bytes. */
  lemma FirstItemUnique(x: CborItem, a: bytes, y: CborItem, b: bytes)
    requires Encode(x) + a == Encode(y) + b
    ensures x == y && a == b
  {
    hide *;
    ReadItemWritten(x, a);
    ReadItemWritten(y, b);
    SplitAt(Encode(x), a, Encode(y), b);
  }

  /** Unique decodability: an item sequence is determined by its bytes. */
  lemma {:induction false} ItemsUnique(xs: seq<CborItem>, ys: seq<CborItem>)
    requires EncodeAll(xs) == EncodeAll(ys)
    ensures xs == ys
  {
    hide Encode;
    if xs != [] && ys != [] {
      FirstItemUnique(xs[0], EncodeAll(xs[1..]), ys[0], EncodeAll(ys[1..]));
      ItemsUnique(xs[1..], ys[1..]);
      assert xs == [xs[0]] + xs[1..] && ys == [ys[0]] + ys[1..];
    }
  }

  // ----- the encoder -----

  /** An encoder over a buffer: `needed` counts the bytes asked for, also beyond the buffer. */
  class Encoder {
    const buffer: array<byte>
    var needed: nat
    ghost var items: seq<CborItem>

    ghost predicate Valid()
      reads this, buffer
    {
      && needed == |EncodeAll(items)|
      && (needed <= buffer.Length ==> buffer[..needed] == EncodeAll(items))
    }

    constructor (buffer: array<byte>)
      ensures Valid() && this.buffer == buffer && items == []
    {
      this.buffer := buffer;
      needed := 0;
      items := [];
    }

    /** Appends an item; the result tells whether it still fitted. */
    method Put(item: CborItem) returns (fits: bool)
      requires Valid()
      modifies this, buffer
      ensures Valid() && items == old(items) + [item]
      ensures fits <==> |EncodeAll(items)| <= buffer.Length
    {
      EncodeAllAppend(items, [item]);
      EncodeOne(item);
      hide Encode, EncodeAll;
      var b := Encode(item);
      fits := needed + |b| <= buffer.Length;
      if fits {
        CopyInto(buffer, needed, b);
      }
      needed := needed + |b|;
      items := items + [item];
    }
  }
}
