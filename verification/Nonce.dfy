/**
 * The AEAD nonce (modules/oscore/src/nonce.c, section 5.2 of RFC 8613) and the Partial IV it
 * is built from (sender_seq_num2piv in modules/oscore/src/security_context.c).
 */
module Nonce {
  import opened Bytes
  import opened OscoreErrors
  import opened Cbor

  const MAX_PIV_LEN: nat := 5
  const MAX_KID_LEN: nat := 7
  const NONCE_LEN: nat := 13

  type Piv = b: bytes | |b| <= 5
  type Kid = b: bytes | |b| <= 7
  type Iv = b: bytes | |b| == 13 witness Zeros(13)

  // ----- the nonce -----

  function LeftPad(b: bytes, n: nat): (r: bytes)
    requires |b| <= n
    ensures |r| == n
  {
    Zeros(n - |b|) + b
  }

  /** Size of the id, padded id and padded Partial IV, before the Common IV is mixed in. */
  function NonceInput(id: Kid, piv: Piv): (r: Iv) {
    [|id|] + LeftPad(id, 7) + LeftPad(piv, 5)
  }

  function NonceOf(id: Kid, piv: Piv, iv: Iv): Iv {
    XorBytes(NonceInput(id, piv), iv)
  }

  /** A zeroed array of `n` bytes with `b` copied to its end. */
  method Padded(b: bytes, n: nat) returns (a: array<byte>)
    requires |b| <= n
    ensures fresh(a) && a[..] == LeftPad(b, n)
  {
    a := new byte[n](_ => 0);
    assert a[..n - |b|] == Zeros(n - |b|);
    CopyInto(a, n - |b|, b);
  }

  /** Copies into zeroed arrays, concatenates, then mixes in the Common IV in place. */
  method CreateNonce(id: Kid, piv: Piv, iv: Iv, nonce: array<byte>)
    requires nonce.Length == NONCE_LEN
    modifies nonce
    ensures nonce[..] == NonceOf(id, piv, iv)
  {
    hide LeftPad, XorBytes;
    var paddedPiv := Padded(piv, MAX_PIV_LEN);
    var paddedId := Padded(id, NONCE_LEN - MAX_PIV_LEN - 1);
    nonce[0] := |id|;
    CopyInto(nonce, 1, paddedId[..]);
    CopyInto(nonce, 1 + paddedId.Length, paddedPiv[..]);
    assert nonce[..] == NonceInput(id, piv);
    XorInPlace(nonce, iv);
  }

  /**
   * The nonce byte by byte, each mixed with the byte of the Common IV at its place: the size of
   * the id, the id at the end of seven bytes, and the Partial IV at the end of five.
   */
  lemma NonceBytes(id: Kid, piv: Piv, iv: Iv, j: nat)
    requires j < 13
    ensures NonceOf(id, piv, iv)[j]
         == Xor(if j == 0 then |id|
                else if j < 8 then (if j < 8 - |id| then 0 else id[j - (8 - |id|)])
                else (if j < 13 - |piv| then 0 else piv[j - (13 - |piv|)]),
                iv[j])
  {
  }

  lemma NonceInputUnique(id: Kid, piv: Piv, id': Kid, piv': Piv)
    requires NonceInput(id, piv) == NonceInput(id', piv')
    ensures id == id' && LeftPad(piv, 5) == LeftPad(piv', 5)
  {
    var a, b := NonceInput(id, piv), NonceInput(id', piv');
    assert |id| == a[0] == b[0] == |id'|;
    assert id == a[8 - |id|..8] == b[8 - |id|..8] == id';
    assert LeftPad(piv, 5) == a[8..] == b[8..] == LeftPad(piv', 5);
  }

  /** Two nonces of one Common IV agree exactly when the ids and the padded Partial IVs agree. */
  lemma NonceCharacterised(id: Kid, piv: Piv, id': Kid, piv': Piv, iv: Iv)
    ensures NonceOf(id, piv, iv) == NonceOf(id', piv', iv)
       <==> id == id' && LeftPad(piv, 5) == LeftPad(piv', 5)
  {
    if NonceOf(id, piv, iv) == NonceOf(id', piv', iv) {
      XorBytesTwice(NonceInput(id, piv), iv);
      XorBytesTwice(NonceInput(id', piv'), iv);
      NonceInputUnique(id, piv, id', piv');
    }
  }

  // ----- Partial IVs -----

  /** The bytes of `n` from the lowest up, as they lie in memory, without zero bytes at the end. */
  function LittleEndian(n: nat): (b: bytes)
    ensures n > 0 ==> |b| > 0 && b[|b| - 1] > 0
  {
    if n == 0 then [] else [n % 0x100] + LittleEndian(n / 0x100)
  }

  function LittleEndianValue(b: bytes): nat {
    if b == [] then 0 else b[0] + 0x100 * LittleEndianValue(b[1..])
  }

  lemma {:induction false} LittleEndianRoundTrip(n: nat)
    ensures LittleEndianValue(LittleEndian(n)) == n
  {
    if n > 0 {
      LittleEndianRoundTrip(n / 0x100);
    }
  }

  /** The number of bytes of a number is where the powers of 256 exceed it. */
  lemma {:induction false} LittleEndianLength(n: nat, k: nat)
    ensures |LittleEndian(n)| <= k <==> n < Pow256(k)
  {
    if n > 0 && k > 0 {
      LittleEndianLength(n / 0x100, k - 1);
    }
  }

  /** The Partial IV of a sequence number: its low bytes in host order; zero takes one byte. */
  function SeqNum2Piv(ssn: uint64): Result<Piv> {
    var b := LittleEndian(ssn);
    if ssn == 0 then Ok([0]) else if |b| > MAX_PIV_LEN then Err(DestBufferTooSmall) else Ok(b)
  }

  /** Byte `i` of a uint64_t in memory. */
  function MemoryByte(n: nat, i: nat): byte {
    if i == 0 then n % 0x100 else MemoryByte(n / 0x100, i - 1)
  }

  lemma {:induction false} MemoryBytes(n: nat, i: nat)
    ensures MemoryByte(n, i) == if i < |LittleEndian(n)| then LittleEndian(n)[i] else 0
  {
    if i > 0 {
      MemoryBytes(n / 0x100, i - 1);
      var rest := LittleEndian(n / 0x100);
      assert n > 0 ==> LittleEndian(n) == [n % 0x100] + rest;
      assert n == 0 ==> rest == [];
    }
  }

  /** Looks for the highest byte that is not zero and copies the bytes up to it. */
  method SenderSeqNum2Piv(ssn: uint64) returns (r: Result<Piv>)
    ensures r == SeqNum2Piv(ssn)
  {
    PowersOf256();
    LittleEndianLength(ssn, 8);
    var i := 7;
    while i >= 0
      invariant -1 <= i <= 7 && |LittleEndian(ssn)| <= i + 1
    {
      MemoryBytes(ssn, i);
      if MemoryByte(ssn, i) > 0 {
        if i + 1 > MAX_PIV_LEN {
          return Err(DestBufferTooSmall);
        }
        forall k | 0 <= k <= i
          ensures MemoryByte(ssn, k) == LittleEndian(ssn)[k]
        {
          MemoryBytes(ssn, k);
        }
        var piv := seq(i + 1, k requires 0 <= k <= i => MemoryByte(ssn, k));
        assert piv == LittleEndian(ssn);
        return Ok(piv);
      }
      i := i - 1;
    }
    r := Ok([0]);
  }

  /** Below 2^40, and only there, a number has a Partial IV: 1 to 5 bytes that spell it. */
  lemma SeqNum2PivCorrect(ssn: uint64)
    ensures SeqNum2Piv(ssn).Ok? <==> ssn < 0x100_0000_0000
    ensures var r := SeqNum2Piv(ssn);
            r.Ok? ==> 1 <= |r.value| && LittleEndianValue(r.value) == ssn
                      && (|r.value| > 1 ==> r.value[|r.value| - 1] > 0)
  {
    LittleEndianLength(ssn, 5);
    assert Pow256(3) == 0x100_0000;
    assert Pow256(5) == 0x100_0000_0000;
    LittleEndianRoundTrip(ssn);
    assert LittleEndianValue([0]) == 0;
  }

  // ----- which numbers share a nonce -----

  lemma {:induction false} LittleEndianPadded(b: bytes, k: nat)
    ensures LittleEndianValue(Zeros(k) + b) == Pow256(k) * LittleEndianValue(b)
  {
    if k == 0 {
      assert Zeros(0) + b == b;
    } else {
      LittleEndianPadded(b, k - 1);
      assert (Zeros(k) + b)[1..] == Zeros(k - 1) + b;
      var v := LittleEndianValue(b);
      assert 0x100 * (Pow256(k - 1) * v) == Pow256(k) * v;
    }
  }

  lemma {:induction false} LittleEndianValueUnique(a: bytes, b: bytes)
    requires |a| == |b| && LittleEndianValue(a) == LittleEndianValue(b)
    ensures a == b
  {
    if a != [] {
      LittleEndianValueUnique(a[1..], b[1..]);
      assert a == [a[0]] + a[1..] && b == [b[0]] + b[1..];
    }
  }

  lemma {:induction false} Pow256Sum(j: nat, k: nat)
    ensures Pow256(j + k) == Pow256(j) * Pow256(k)
  {
    if j > 0 {
      Pow256Sum(j - 1, k);
      assert 0x100 * (Pow256(j - 1) * Pow256(k)) == Pow256(j) * Pow256(k);
    }
  }

  /** Multiplying by a power of 256 puts zero bytes in front. */
  lemma {:induction false} LittleEndianShifted(n: nat, k: nat)
    requires n > 0
    ensures LittleEndian(n * Pow256(k)) == Zeros(k) + LittleEndian(n)
  {
    hide LittleEndian, Zeros;
    if k == 0 {
      assert Zeros(0) + LittleEndian(n) == LittleEndian(n);
    } else {
      LittleEndianShifted(n, k - 1);
      Pow256Step(n, k);
      LittleEndianTimes(n * Pow256(k - 1));
      OneZeroMore(k, LittleEndian(n));
    }
    hide *;
  }

  lemma OneZeroMore(k: nat, b: bytes)
    requires k > 0
    ensures [0] + (Zeros(k - 1) + b) == Zeros(k) + b
  {
  }

  lemma Pow256Step(n: nat, k: nat)
    requires k > 0 && n > 0
    ensures n * Pow256(k) == 0x100 * (n * Pow256(k - 1)) && n * Pow256(k - 1) > 0
  {
    var p := Pow256(k - 1);
    assert n * (0x100 * p) == 0x100 * (n * p);
  }

  lemma LittleEndianTimes(m: nat)
    requires m > 0
    ensures LittleEndian(0x100 * m) == [0] + LittleEndian(m)
  {
    assert (0x100 * m) / 0x100 == m && (0x100 * m) % 0x100 == 0;
  }

  /** `n` is `m` or `m` times a power of 256. */
  ghost predicate IsShiftOf(n: nat, m: nat) {
    exists k: nat :: n == m * Pow256(k)
  }

  lemma PadLonger(a: bytes, b: bytes)
    requires |b| <= |a| <= 5
    ensures LeftPad(a, 5) == LeftPad(b, 5) <==> a == Zeros(|a| - |b|) + b
  {
    var d, k := 5 - |a|, |a| - |b|;
    assert LeftPad(b, 5) == Zeros(d) + (Zeros(k) + b);
    if LeftPad(a, 5) == LeftPad(b, 5) {
      SplitAt(Zeros(d), a, Zeros(d), Zeros(k) + b);
    }
  }

  lemma PaddedEqual(n: nat, m: nat)
    requires 0 < n && 0 < m && |LittleEndian(m)| <= |LittleEndian(n)| <= 5
    ensures LeftPad(LittleEndian(n), 5) == LeftPad(LittleEndian(m), 5) <==> IsShiftOf(n, m)
  {
    hide *;
    var a, b := LittleEndian(n), LittleEndian(m);
    var k := |a| - |b|;
    PadLonger(a, b);
    if a == Zeros(k) + b {
      LittleEndianRoundTrip(n);
      LittleEndianRoundTrip(m);
      LittleEndianPadded(b, k);
      ShiftBy(n, m, k);
    }
    if IsShiftOf(n, m) {
      var j := ShiftAmount(n, m);
      LittleEndianShifted(m, j);
    }
  }

  lemma ShiftBy(n: nat, m: nat, k: nat)
    requires n == Pow256(k) * m
    ensures IsShiftOf(n, m)
  {
    hide Pow256;
    assert n == m * Pow256(k);
  }

  lemma ShiftAmount(n: nat, m: nat) returns (j: nat)
    requires IsShiftOf(n, m)
    ensures n == m * Pow256(j)
  {
    j :| n == m * Pow256(j);
  }

  lemma LongerShift(n: nat, m: nat)
    requires 0 < n && 0 < m && |LittleEndian(n)| < |LittleEndian(m)|
    ensures !IsShiftOf(n, m)
  {
    if IsShiftOf(n, m) {
      var j: nat :| n == m * Pow256(j);
      LittleEndianShifted(m, j);
    }
  }

  /**
   * With the Partial IV in host order, two positive numbers below 2^40 of one sender give the
   * same nonce exactly when one is the other times a power of 256.
   */
  lemma SharedNonce(n: uint64, m: uint64, id: Kid, iv: Iv)
    requires 0 < n < 0x100_0000_0000 && 0 < m < 0x100_0000_0000
    ensures SeqNum2Piv(n).Ok? && SeqNum2Piv(m).Ok?
    ensures NonceOf(id, SeqNum2Piv(n).value, iv) == NonceOf(id, SeqNum2Piv(m).value, iv)
       <==> IsShiftOf(n, m) || IsShiftOf(m, n)
  {
    hide *;
    SeqNum2PivCorrect(n);
    SeqNum2PivCorrect(m);
    PivIs(n);
    PivIs(m);
    NonceCharacterised(id, SeqNum2Piv(n).value, id, SeqNum2Piv(m).value, iv);
    if |LittleEndian(m)| <= |LittleEndian(n)| {
      PaddedEqual(n, m);
      if |LittleEndian(m)| < |LittleEndian(n)| {
        LongerShift(m, n);
      } else {
        PaddedEqual(m, n);
      }
    } else {
      PaddedEqual(m, n);
      LongerShift(n, m);
    }
  }

  lemma PivIs(n: uint64)
    requires n > 0 && SeqNum2Piv(n).Ok?
    ensures SeqNum2Piv(n).value == LittleEndian(n)
  {
  }

  /** The first pair: sequence numbers 1 and 256. */
  lemma SharedNonceExample(id: Kid, iv: Iv)
    ensures NonceOf(id, SeqNum2Piv(1).Extract(), iv) == NonceOf(id, SeqNum2Piv(256).Extract(), iv)
  {
    SeqNum2PivCorrect(1);
    SeqNum2PivCorrect(256);
    SharedNonce(1, 256, id, iv);
    assert 256 == 1 * Pow256(1);
  }

  /** Number zero shares its nonce with no other number. */
  lemma ZeroNonce(m: uint64, id: Kid, iv: Iv)
    requires 0 < m < 0x100_0000_0000
    ensures SeqNum2Piv(m).Ok? && NonceOf(id, [0], iv) != NonceOf(id, SeqNum2Piv(m).value, iv)
  {
    SeqNum2PivCorrect(m);
    var b := SeqNum2Piv(m).value;
    NonceCharacterised(id, [0], id, b, iv);
    assert LeftPad([0], 5)[4] == 0 && LeftPad(b, 5)[4] == b[|b| - 1];
  }

  // ----- network byte order, as section 5.2 of RFC 8613 asks for -----

  /** The shortest network-order form of a number; zero takes one byte. */
  function NetworkPiv(n: nat): (b: bytes)
    ensures |b| > 0
  {
    if n == 0 then [0] else BigEndian(n, |LittleEndian(n)|)
  }

  lemma {:induction false} BigEndianPadded(b: bytes, k: nat)
    ensures BigEndianValue(Zeros(k) + b) == BigEndianValue(b)
    decreases |b| + k
  {
    var all := Zeros(k) + b;
    if b != [] {
      BigEndianPadded(b[..|b| - 1], k);
      assert all[..|all| - 1] == Zeros(k) + b[..|b| - 1];
    } else if k > 0 {
      BigEndianPadded(b, k - 1);
      assert all[..|all| - 1] == Zeros(k - 1) + b && Zeros(k - 1) + b == Zeros(k - 1);
    }
  }

  lemma NetworkPivValue(n: nat)
    ensures BigEndianValue(NetworkPiv(n)) == n
    ensures n < 0x100_0000_0000 ==> |NetworkPiv(n)| <= 5
  {
    assert Pow256(3) == 0x100_0000;
    assert Pow256(5) == 0x100_0000_0000;
    LittleEndianLength(n, 5);
    LittleEndianLength(n, |LittleEndian(n)|);
    if n == 0 {
      assert [0][..0] == [];
    } else {
      BigEndianRoundTrip(n, |LittleEndian(n)|);
    }
  }

  /** In network order distinct numbers below 2^40 give distinct nonces. */
  lemma NetworkOrderNonces(n: nat, m: nat, id: Kid, iv: Iv)
    requires n < 0x100_0000_0000 && m < 0x100_0000_0000 && n != m
    ensures |NetworkPiv(n)| <= 5 && |NetworkPiv(m)| <= 5
    ensures NonceOf(id, NetworkPiv(n), iv) != NonceOf(id, NetworkPiv(m), iv)
  {
    hide BigEndian, LittleEndian, BigEndianValue, NetworkPiv;
    var a, b := NetworkPiv(n), NetworkPiv(m);
    NetworkPivValue(n);
    NetworkPivValue(m);
    BigEndianPadded(a, 5 - |a|);
    BigEndianPadded(b, 5 - |b|);
    NonceCharacterised(id, a, id, b, iv);
  }
}
