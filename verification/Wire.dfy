/**
 * CBOR written out byte by byte, after the initial bytes of appendix B of RFC 8949: what the
 * items of `Cbor` look like on the wire.
 */
module Wire {
  import opened Bytes
  import opened Cbor

  type Long = b: bytes | |b| < 0x1_0000_0000

  // ----- items by their initial bytes -----

  /** An unsigned integer of up to two bytes. */
  function Uint(n: uint16): bytes {
    if n < 24 then [n] else if n < 0x100 then [0x18, n] else [0x19, n / 0x100, n % 0x100]
  }

  /** A byte string. */
  function Bstr(b: Long): bytes {
    if |b| < 24 then [0x40 + |b|] + b
    else if |b| < 0x100 then [0x58, |b|] + b
    else if |b| < 0x1_0000 then [0x59, |b| / 0x100, |b| % 0x100] + b
    else [0x5A, |b| / 0x100_0000, |b| / 0x1_0000 % 0x100, |b| / 0x100 % 0x100, |b| % 0x100] + b
  }

  /** A text string of fewer than 24 bytes. */
  function Tstr(b: bytes): bytes
    requires |b| < 24
  {
    [0x60 + |b|] + b
  }

  /** The head of an array. */
  function Arr(n: nat): bytes
    requires n < 0x1_0000_0000
  {
    if n < 24 then [0x80 + n]
    else if n < 0x100 then [0x98, n]
    else if n < 0x1_0000 then [0x99, n / 0x100, n % 0x100]
    else [0x9A, n / 0x100_0000, n / 0x1_0000 % 0x100, n / 0x100 % 0x100, n % 0x100]
  }

  // ----- they are what the encoder writes -----

  lemma Big4(n: nat)
    requires n < 0x1_0000_0000
    ensures BigEndian(n, 4) == [n / 0x100_0000, n / 0x1_0000 % 0x100, n / 0x100 % 0x100, n % 0x100]
  {
    var a, b, c := n / 0x100, n / 0x1_0000, n / 0x100_0000;
    assert a / 0x100 == b && b / 0x100 == c && c / 0x100 == 0;
    BigStep(n, 4);
    BigStep(a, 3);
    BigStep(b, 2);
    BigStep(c, 1);
    hide BigEndian;
  }

  lemma Big2(n: nat)
    requires n < 0x1_0000
    ensures BigEndian(n, 2) == [n / 0x100, n % 0x100]
  {
    BigStep(n, 2);
    BigStep(n / 0x100, 1);
    hide BigEndian;
  }

  lemma BigStep(n: nat, k: nat)
    requires k > 0
    ensures BigEndian(n, k) == BigEndian(n / 0x100, k - 1) + [n % 0x100]
    ensures BigEndian(n, 0) == []
  {
  }

  lemma HeadBytes(major: Major, n: nat)
    requires n < 0x1_0000_0000
    ensures var m: int := major;
            Head(major, n)
            == if n < 24 then [0x20 * m + n] else if n < 0x100 then [0x20 * m + 24, n]
               else if n < 0x1_0000 then [0x20 * m + 25, n / 0x100, n % 0x100]
               else [0x20 * m + 26, n / 0x100_0000, n / 0x1_0000 % 0x100, n / 0x100 % 0x100, n % 0x100]
  {
    BigStep(n, 1);
    if n >= 0x1_0000 {
      Big4(n);
    } else if n >= 0x100 {
      Big2(n);
    }
    hide BigEndian;
  }

  lemma UintWritten(n: uint16)
    ensures Encode(Int(n)) == Uint(n)
  {
    HeadBytes(0, n);
    hide Head;
  }

  lemma BstrWritten(b: Long)
    ensures Encode(ByteString(b)) == Bstr(b)
  {
    HeadBytes(2, |b|);
    hide Head;
  }

  lemma EmptyString()
    ensures Bstr([]) == [0x40]
  {
  }

  lemma TstrWritten(b: bytes)
    requires |b| < 24
    ensures Encode(TextString(b)) == Tstr(b)
  {
    HeadBytes(3, |b|);
    hide Head;
  }

  lemma ArrayWritten(n: nat)
    requires n < 0x1_0000_0000
    ensures Encode(ArrayHead(n)) == Arr(n)
  {
    HeadBytes(4, n);
    hide Head;
  }

  lemma NullWritten()
    ensures Encode(Null) == [0xF6]
  {
    HeadBytes(7, 22);
    hide Head;
  }

  // ----- sequences of items -----

  lemma Snoc(xs: seq<CborItem>, x: CborItem)
    ensures EncodeAll(xs + [x]) == EncodeAll(xs) + Encode(x)
  {
    hide *;
    EncodeAllAppend(xs, [x]);
    EncodeOne(x);
  }

  lemma Two(a: CborItem, b: CborItem)
    ensures EncodeAll([a, b]) == Encode(a) + Encode(b)
  {
    hide *;
    EncodeOne(a);
    Snoc([a], b);
    assert [a, b] == [a] + [b];
  }

  lemma Three(a: CborItem, b: CborItem, c: CborItem)
    ensures EncodeAll([a, b, c]) == Encode(a) + Encode(b) + Encode(c)
  {
    hide *;
    Two(a, b);
    Snoc([a, b], c);
    assert [a, b, c] == [a, b] + [c];
  }

  lemma Four(a: CborItem, b: CborItem, c: CborItem, d: CborItem)
    ensures EncodeAll([a, b, c, d]) == Encode(a) + Encode(b) + Encode(c) + Encode(d)
  {
    hide *;
    Three(a, b, c);
    Snoc([a, b, c], d);
    assert [a, b, c, d] == [a, b, c] + [d];
  }

  lemma Five(a: CborItem, b: CborItem, c: CborItem, d: CborItem, e: CborItem)
    ensures EncodeAll([a, b, c, d, e]) == Encode(a) + Encode(b) + Encode(c) + Encode(d) + Encode(e)
  {
    hide *;
    Four(a, b, c, d);
    Snoc([a, b, c, d], e);
    assert [a, b, c, d, e] == [a, b, c, d] + [e];
  }
}
