/** HMAC over BLAKE2s, and the key derivation built on it. */
module Kdf {
  import opened Words
  import opened Bits
  import opened Blake2s

  // ---- RFC 2104 ----

  /** A long key is hashed; any key is then padded to a block. */
  function BlockKey(f: Compress, key: bytes): (r: bytes)
    ensures |r| == BLOCK
  {
    var k := if |key| > BLOCK then Hash(f, HASH_LEN, [], key) else key;
    k + Zeros(BLOCK - |k|)
  }

  function Masked(k: bytes, mask: u8): bytes {
    seq(|k|, i requires 0 <= i < |k| => XorByte(k[i], mask))
  }

  function H(f: Compress, msg: bytes): (r: bytes)
    ensures |r| == HASH_LEN
  {
    Hash(f, HASH_LEN, [], msg)
  }

  function Hmac(f: Compress, key: bytes, msg: bytes): (r: bytes)
    ensures |r| == HASH_LEN
  {
    var k := BlockKey(f, key);
    H(f, Masked(k, 0x5c) + H(f, Masked(k, 0x36) + msg))
  }

  // ---- RFC 5869 ----

  /** T(n) of section 2.3: T(0) is empty, T(n) covers T(n - 1), the info and the octet n. */
  function Block(f: Compress, prk: bytes, info: bytes, n: nat): bytes
    requires n < 0x100
  {
    if n == 0 then [] else Hmac(f, prk, Block(f, prk, info, n - 1) + info + [n])
  }

  /** T(1), T(2), ... T(n) one after the other. */
  function Stream(f: Compress, prk: bytes, info: bytes, n: nat): (r: bytes)
    requires n < 0x100
    ensures |r| == HASH_LEN * n
  {
    if n == 0 then [] else Stream(f, prk, info, n - 1) + Block(f, prk, info, n)
  }

  /** HKDF-Expand to `size` octets. */
  function Expand(f: Compress, prk: bytes, info: bytes, size: nat): bytes
    requires size <= 255 * HASH_LEN
  {
    Stream(f, prk, info, (size + HASH_LEN - 1) / HASH_LEN)[..size]
  }

  /** A longer output begins with the shorter one. */
  lemma {:induction false} StreamPrefix(f: Compress, prk: bytes, info: bytes, m: nat, n: nat)
    requires m <= n < 0x100
    ensures Stream(f, prk, info, m) <= Stream(f, prk, info, n)
  {
    hide Block;
    if m < n {
      StreamPrefix(f, prk, info, m, n - 1);
    }
  }

  lemma ExpandPrefix(f: Compress, prk: bytes, info: bytes, a: nat, b: nat)
    requires a <= b <= 255 * HASH_LEN
    ensures Expand(f, prk, info, a) <= Expand(f, prk, info, b)
  {
    hide Stream;
    var m, n := (a + HASH_LEN - 1) / HASH_LEN, (b + HASH_LEN - 1) / HASH_LEN;
    StreamPrefix(f, prk, info, m, n);
    assert Stream(f, prk, info, m) == Stream(f, prk, info, n)[..|Stream(f, prk, info, m)|];
  }

  // ---- the code ----

  /** One of the pad loops. */
  method Pad(k: bytes, mask: u8) returns (pad: bytes)
    ensures pad == Masked(k, mask)
  {
    pad := [];
    var i := 0;
    while i < |k|
      invariant 0 <= i <= |k| && pad == Masked(k, mask)[..i]
    {
      pad := pad + [XorByte(k[i], mask)];
      i := i + 1;
    }
  }

  /** `tc_hmac_blake2s`: the two pieces are authenticated as their concatenation. */
  method HmacBlake2s(f: Compress, key: bytes, in0: bytes, in1: bytes) returns (out: bytes)
    ensures out == Hmac(f, key, in0 + in1)
  {
    hide Digest, Initial, XorByte, Masked;
    var k: bytes;
    if |key| > BLOCK {
      k := HashOnce(f, HASH_LEN, key, []);
      k := k + Zeros(BLOCK - |k|);
    } else {
      k := key + Zeros(BLOCK - |key|);
    }
    var inner := HashPadded(f, k, 0x36, in0, in1);
    out := HashPadded(f, k, 0x5c, inner, []);
    assert inner + [] == inner;
  }

  /** Either half of HMAC: a masked key block and then two pieces. */
  method HashPadded(f: Compress, k: bytes, mask: u8, in0: bytes, in1: bytes) returns (out: bytes)
    ensures out == H(f, Masked(k, mask) + (in0 + in1))
  {
    hide Digest, Initial, Masked, Pending;
    var pad := Pad(k, mask);
    var ctx := InitKey(f, HASH_LEN, []);
    ctx.Update(pad);
    if |in0| > 0 {
      ctx.Update(in0);
    }
    if |in1| > 0 {
      ctx.Update(in1);
    }
    assert ctx.data == [] + (Masked(k, mask) + (in0 + in1));
    out := ctx.Final();
  }

  /** `tc_kdf1` */
  method Kdf1(f: Compress, key: bytes, input: bytes) returns (t0: bytes)
    ensures t0 == Expand(f, Hmac(f, key, input), [], 32)
  {
    hide Hmac;
    var prk := HmacBlake2s(f, key, input, []);
    t0 := HmacBlake2s(f, prk, [1], []);
    assert input + [] == input && [1] + [] == [1];
    Three(f, prk, t0, [], []);
  }

  /** `tc_kdf2` */
  method Kdf2(f: Compress, key: bytes, input: bytes) returns (t0: bytes, t1: bytes)
    ensures t0 + t1 == Expand(f, Hmac(f, key, input), [], 64) && |t0| == |t1| == HASH_LEN
  {
    hide Hmac;
    var prk := HmacBlake2s(f, key, input, []);
    t0 := HmacBlake2s(f, prk, [1], []);
    t1 := HmacBlake2s(f, prk, t0, [2]);
    assert input + [] == input && [1] + [] == [1];
    Three(f, prk, t0, t1, []);
  }

  /** `tc_kdf3` */
  method Kdf3(f: Compress, key: bytes, input: bytes) returns (t0: bytes, t1: bytes, t2: bytes)
    ensures t0 + t1 + t2 == Expand(f, Hmac(f, key, input), [], 96) && |t0| == |t1| == |t2| == HASH_LEN
  {
    hide Hmac;
    var prk := HmacBlake2s(f, key, input, []);
    t0 := HmacBlake2s(f, prk, [1], []);
    t1 := HmacBlake2s(f, prk, t0, [2]);
    t2 := HmacBlake2s(f, prk, t1, [3]);
    assert input + [] == input && [1] + [] == [1];
    Three(f, prk, t0, t1, t2);
  }

  /** The chained outputs are the blocks of the expansion with no info. */
  lemma Three(f: Compress, prk: bytes, t0: bytes, t1: bytes, t2: bytes)
    requires t0 == Hmac(f, prk, [1])
    ensures Expand(f, prk, [], 32) == t0
    ensures t1 == Hmac(f, prk, t0 + [2]) ==> Expand(f, prk, [], 64) == t0 + t1
    ensures t1 == Hmac(f, prk, t0 + [2]) && t2 == Hmac(f, prk, t1 + [3]) ==> Expand(f, prk, [], 96) == t0 + t1 + t2
  {
    hide Hmac;
    var e: bytes := [];
    assert e + e + [1] == [1] && t0 + e + [2] == t0 + [2] && t1 + e + [3] == t1 + [3];
    assert Block(f, prk, e, 1) == t0;
    assert Stream(f, prk, e, 1) == e + t0 == t0;
    assert t0[..32] == t0;
    if t1 == Hmac(f, prk, t0 + [2]) {
      assert Block(f, prk, e, 2) == t1;
      assert Stream(f, prk, e, 2) == t0 + t1;
      assert (t0 + t1)[..64] == t0 + t1;
      if t2 == Hmac(f, prk, t1 + [3]) {
        assert Block(f, prk, e, 3) == t2;
        assert Stream(f, prk, e, 3) == t0 + t1 + t2;
        assert (t0 + t1 + t2)[..96] == t0 + t1 + t2;
      }
    }
  }
}
