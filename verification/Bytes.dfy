/** Bytes, C integer widths, buffers, and exclusive or. */
module Bytes {

  type byte = x: int | 0 <= x < 0x100
  type uint16 = x: int | 0 <= x < 0x1_0000
  type uint64 = x: int | 0 <= x < 0x1_0000_0000_0000_0000
  type bytes = seq<byte>

  /** The conversions to uint8_t, uint16_t and uint64_t: reduction modulo the width. */
  function U8(x: int): byte { x % 0x100 }
  function U16(x: int): uint16 { x % 0x1_0000 }
  function U64(x: int): uint64 { x % 0x1_0000_0000_0000_0000 }

  datatype Option<+T> = None | Some(value: T)

  /** A value or an error code. */
  datatype Outcome<+T, +E> = Ok(value: T) | Err(error: E) {
    predicate IsFailure() { Err? }

    function PropagateFailure<U>(): Outcome<U, E>
      requires Err?
    {
      Err(error)
    }

    function Extract(): T
      requires Ok?
    {
      value
    }
  }

  function Zeros(n: nat): (z: bytes)
    ensures |z| == n
  {
    seq(n, _ => 0)
  }

  /** Copies `src` into `dst` from index `at`, as memcpy does. */
  method CopyInto(dst: array<byte>, at: nat, src: bytes)
    requires at + |src| <= dst.Length
    modifies dst
    ensures dst[..] == old(dst[..at]) + src + old(dst[at + |src|..])
  {
    for i := 0 to |src|
      invariant forall k :: 0 <= k < dst.Length ==> dst[k] == if at <= k < at + i then src[k - at] else old(dst[k])
    {
      dst[at + i] := src[i];
    }
  }

  // ----- exclusive or -----

  function Pow2(k: nat): (p: nat)
    ensures p > 0
  {
    if k == 0 then 1 else 2 * Pow2(k - 1)
  }

  /** `a ^ b` on the `k` low bits, bit by bit. */
  function XorLow(a: nat, b: nat, k: nat): (r: nat)
    ensures r < Pow2(k)
  {
    if k == 0 then 0 else (if a % 2 == b % 2 then 0 else 1) + 2 * XorLow(a / 2, b / 2, k - 1)
  }

  lemma {:induction false} XorLowTwice(a: nat, b: nat, k: nat)
    requires a < Pow2(k)
    ensures XorLow(XorLow(a, b, k), b, k) == a
  {
    if k > 0 {
      XorLowTwice(a / 2, b / 2, k - 1);
      assert XorLow(a, b, k) / 2 == XorLow(a / 2, b / 2, k - 1);
    }
  }

  lemma Pow2Of8()
    ensures Pow2(8) == 0x100
  {
    assert Pow2(4) == 0x10;
  }

  /** `a ^ b` on uint8_t. */
  function Xor(a: byte, b: byte): byte {
    Pow2Of8();
    XorLow(a, b, 8)
  }

  /** Xoring twice with the same byte gives the first byte back. */
  lemma XorTwice(a: byte, b: byte)
    ensures Xor(Xor(a, b), b) == a
  {
    Pow2Of8();
    XorLowTwice(a, b, 8);
  }

  /** Zero leaves a byte as it is. */
  lemma XorZero(b: byte)
    ensures Xor(0, b) == b
  {
    Pow2Of8();
    XorLowZero(b, 8);
  }

  lemma {:induction false} XorLowZero(b: nat, k: nat)
    requires b < Pow2(k)
    ensures XorLow(0, b, k) == b
  {
    if k > 0 {
      XorLowZero(b / 2, k - 1);
    }
  }

  /** Bit `k` of a number. */
  function Bit(v: nat, k: nat): bool {
    if k == 0 then v % 2 == 1 else Bit(v / 2, k - 1)
  }

  /** A bit is set exactly when it is set in one of the two bytes and not in the other. */
  lemma XorBits(a: byte, b: byte, k: nat)
    requires k < 8
    ensures Bit(Xor(a, b), k) <==> Bit(a, k) != Bit(b, k)
  {
    XorLowBits(a, b, 8, k);
  }

  lemma {:induction false} XorLowBits(a: nat, b: nat, n: nat, k: nat)
    requires k < n
    ensures Bit(XorLow(a, b, n), k) <==> Bit(a, k) != Bit(b, k)
  {
    if k > 0 {
      XorLowBits(a / 2, b / 2, n - 1, k - 1);
      assert XorLow(a, b, n) / 2 == XorLow(a / 2, b / 2, n - 1);
    }
  }

  /** Bytewise exclusive or of `a` with the front of `mask`. */
  function XorBytes(a: bytes, mask: bytes): (r: bytes)
    requires |a| <= |mask|
    ensures |r| == |a|
  {
    seq(|a|, i requires 0 <= i < |a| => Xor(a[i], mask[i]))
  }

  lemma XorBytesTwice(a: bytes, mask: bytes)
    requires |a| <= |mask|
    ensures XorBytes(XorBytes(a, mask), mask) == a
  {
    forall i | 0 <= i < |a|
      ensures XorBytes(XorBytes(a, mask), mask)[i] == a[i]
    {
      XorTwice(a[i], mask[i]);
    }
  }

  /** Mixes `mask` into the array in place. */
  method XorInPlace(a: array<byte>, mask: bytes)
    requires a.Length <= |mask|
    modifies a
    ensures a[..] == XorBytes(old(a[..]), mask)
  {
    hide Xor;
    for i := 0 to a.Length
      invariant forall k :: 0 <= k < i ==> a[k] == Xor(old(a[k]), mask[k])
      invariant forall k :: i <= k < a.Length ==> a[k] == old(a[k])
    {
      a[i] := Xor(a[i], mask[i]);
    }
  }

  // ----- concatenation -----

  lemma AppendAssoc<T>(a: seq<T>, b: seq<T>, c: seq<T>)
    ensures a + b + c == a + (b + c)
  {
  }

  /** Splitting a concatenation at a known length is unambiguous. */
  lemma SplitAt<T>(a: seq<T>, b: seq<T>, c: seq<T>, d: seq<T>)
    requires a + b == c + d && |a| == |c|
    ensures a == c && b == d
  {
    assert a == (a + b)[..|a|] == (c + d)[..|c|] == c;
    assert b == (a + b)[|a|..] == (c + d)[|c|..] == d;
  }
}
