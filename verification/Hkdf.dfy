/**
 * The cryptographic functions as parameters, and HKDF-SHA-256 (RFC 5869) built from HMAC, as
 * in modules/oscore/src/crypto_wrapper.c.
 */
module Hkdf {
  import opened Bytes
  import opened OscoreErrors

  const HASH_LEN: nat := 32

  type Digest = d: bytes | |d| == 32 witness Zeros(32)
  type Hmac = (bytes, bytes) -> Digest

  /** The AEAD with its 8-byte tag: key, nonce, additional data, then plaintext or ciphertext. */
  datatype Crypto = Crypto(hmac: Hmac,
                           seal: (bytes, bytes, bytes, bytes) -> bytes,
                           open: (bytes, bytes, bytes, bytes) -> Option<bytes>)

  /** What is asked of the AEAD: ciphertexts open under the values they were sealed with. */
  ghost predicate AeadCorrect(cr: Crypto) {
    forall k, n, a, p :: |cr.seal(k, n, a, p)| == |p| + 8 && cr.open(k, n, a, cr.seal(k, n, a, p)) == Some(p)
  }

  /** The law can be met. */
  lemma AeadCorrectPossible()
    ensures exists cr :: AeadCorrect(cr)
  {
    var cr := Crypto((k, m) => Zeros(32),
                     (k, n, a, p) => p + Zeros(8),
                     (k, n, a, c: bytes) => if |c| < 8 then None else Some(c[..|c| - 8]));
    forall k: bytes, n: bytes, a: bytes, p: bytes
      ensures |cr.seal(k, n, a, p)| == |p| + 8 && cr.open(k, n, a, cr.seal(k, n, a, p)) == Some(p)
    {
      assert (p + Zeros(8))[..|p|] == p;
    }
    assert AeadCorrect(cr);
  }

  // ----- the specification: section 2.3 of RFC 5869 -----

  /** T(i); T(0) is empty. */
  function T(hmac: Hmac, prk: bytes, info: bytes, i: nat): (t: bytes)
    ensures |t| == if i == 0 then 0 else HASH_LEN
  {
    if i == 0 then [] else hmac(prk, T(hmac, prk, info, i - 1) + info + [U8(i)])
  }

  /** T(1) | T(2) | ... | T(n) */
  function Blocks(hmac: Hmac, prk: bytes, info: bytes, n: nat): (b: bytes)
    ensures |b| == HASH_LEN * n
  {
    if n == 0 then [] else Blocks(hmac, prk, info, n - 1) + T(hmac, prk, info, n)
  }

  function BlockCount(len: nat): nat { (len + 31) / 32 }

  /** The first `len` bytes of T(1) | T(2) | ... */
  function Expand(hmac: Hmac, prk: bytes, info: bytes, len: nat): (okm: bytes)
    ensures |okm| == len
  {
    Blocks(hmac, prk, info, BlockCount(len))[..len]
  }

  /** Up to 32 bytes are the front of a single HMAC. */
  lemma ExpandShort(hmac: Hmac, prk: bytes, info: bytes, len: nat)
    requires 0 < len <= 32
    ensures Expand(hmac, prk, info, len) == hmac(prk, info + [0x01])[..len]
  {
    BlocksAt(hmac, prk, info, 1, 1);
    TIs(hmac, prk, info, 1);
    hide T, Blocks;
    assert BlockCount(len) == 1;
  }

  /** The recurrence of T. */
  lemma TIs(hmac: Hmac, prk: bytes, info: bytes, i: nat)
    requires i > 0
    ensures T(hmac, prk, info, i)
         == if i == 1 then hmac(prk, info + [0x01])
            else hmac(prk, T(hmac, prk, info, i - 1) + info + [i % 0x100])
  {
    assert [] + info == info;
  }

  /** Block `i` of the output is T(i). */
  lemma {:induction false} BlocksAt(hmac: Hmac, prk: bytes, info: bytes, n: nat, i: nat)
    requires 1 <= i <= n
    ensures Blocks(hmac, prk, info, n)[32 * (i - 1)..32 * i] == T(hmac, prk, info, i)
  {
    hide T;
    if i < n {
      BlocksAt(hmac, prk, info, n - 1, i);
    }
  }

  /** The salt is replaced by a zero block when there is none. */
  function Extract(hmac: Hmac, salt: bytes, secret: bytes): Digest {
    hmac(if salt == [] then Zeros(HASH_LEN) else salt, secret)
  }

  // ----- the expand loop -----

  /** The loop counter, a uint8_t, after `n` rounds. */
  function Counter(n: nat): byte { U8(1 + n) }

  /**
   * The 8-bit counter passes the number of blocks, and the loop ends, exactly when there are
   * at most 254 of them; the limit of 255 that the code checks is one too high.
   */
  lemma ExpandTerminates(blocks: nat)
    requires blocks <= 255
    ensures (exists n: nat :: Counter(n) > blocks) <==> blocks <= 254
  {
    if blocks <= 254 {
      assert Counter(blocks) > blocks;
    }
  }

  /** What the expand loop reports: with 255 blocks its counter wraps and it writes in front of the output. */
  function ExpandStatus(len: nat): Result<()> {
    if BlockCount(len) > 255 then Err(OutTooLong)
    else if BlockCount(len) == 255 then Err(Undefined)
    else Ok(())
  }

  /** In bytes: up to 8128 are produced, up to 8160 let through, and more refused. */
  lemma ExpandLimits(len: nat)
    ensures ExpandStatus(len)
         == if len <= 8128 then Ok(()) else if len <= 8160 then Err(Undefined) else Err(OutTooLong)
  {
  }

  /** The expand loop: fills `out`, whose length is the length asked for. */
  method HkdfExpand(hmac: Hmac, prk: bytes, info: bytes, out: array<byte>) returns (r: Result<()>)
    modifies out
    ensures r == ExpandStatus(out.Length)
    ensures r.Ok? ==> out[..] == Expand(hmac, prk, info, out.Length)
    ensures r == Err(OutTooLong) ==> out[..] == old(out[..])
  {
    hide T, Expand, Blocks;
    BlocksStart(hmac, prk, info);
    var iterations := (out.Length + 31) / 32;
    if iterations > 255 {
      return Err(OutTooLong);
    }
    var t: bytes := [];
    var i: byte := 1;
    ghost var blocks: bytes := [];
    while i <= iterations
      invariant 1 <= i <= iterations + 1 && iterations == BlockCount(out.Length)
      invariant t == T(hmac, prk, info, i - 1)
      invariant blocks == Blocks(hmac, prk, info, i - 1)
      invariant i <= iterations ==> 32 * (i - 1) <= out.Length && out[..32 * (i - 1)] == blocks
      invariant i > iterations ==> out[..] == blocks[..out.Length]
      decreases iterations - i
    {
      var from := 32 * (i - 1);
      BlocksStep(hmac, prk, info, i);
      t := hmac(prk, (if i > 1 then t else []) + info + [i]);
      ghost var before := out[..from];
      if out.Length < i * 32 {
        CopyInto(out, from, t[..out.Length % 32]);
        assert out[..] == before + t[..out.Length % 32];
      } else {
        CopyInto(out, from, t);
        assert out[..i * 32] == before + t;
      }
      blocks := blocks + t;
      i := U8(i as int + 1);
      if i == 0 {
        return Err(Undefined);
      }
    }
    ExpandIs(hmac, prk, info, out.Length);
    r := Ok(());
  }

  /** Extract, then expand. */
  method HkdfSha256(hmac: Hmac, secret: bytes, salt: bytes, info: bytes, out: array<byte>) returns (r: Result<()>)
    modifies out
    ensures r == ExpandStatus(out.Length)
    ensures r.Ok? ==> out[..] == Expand(hmac, Extract(hmac, salt, secret), info, out.Length)
    ensures r == Err(OutTooLong) ==> out[..] == old(out[..])
  {
    hide Expand;
    var theSalt := if salt == [] then Zeros(HASH_LEN) else salt;
    var prk := hmac(theSalt, secret);
    r := HkdfExpand(hmac, prk, info, out);
  }

  lemma BlocksStart(hmac: Hmac, prk: bytes, info: bytes)
    ensures T(hmac, prk, info, 0) == [] && Blocks(hmac, prk, info, 0) == []
  {
  }

  lemma BlocksStep(hmac: Hmac, prk: bytes, info: bytes, i: byte)
    requires i > 0
    ensures T(hmac, prk, info, i) == hmac(prk, (if i > 1 then T(hmac, prk, info, i - 1) else []) + info + [i])
    ensures Blocks(hmac, prk, info, i) == Blocks(hmac, prk, info, i - 1) + T(hmac, prk, info, i)
    ensures T(hmac, prk, info, 0) == []
  {
  }

  lemma ExpandIs(hmac: Hmac, prk: bytes, info: bytes, len: nat)
    ensures Expand(hmac, prk, info, len) == Blocks(hmac, prk, info, BlockCount(len))[..len]
  {
  }
}
