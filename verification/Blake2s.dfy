/** Incremental BLAKE2s with its delayed last block, for any compression function. */
module Blake2s {
  import opened Words
  import opened Bits

  const BLOCK: nat := 64
  const HASH_LEN: nat := 32
  const KEY_MAX: nat := 32

  type Chain = h: seq<u32> | |h| == 8 witness [0, 0, 0, 0, 0, 0, 0, 0]

  /** Chaining value, 64-byte block, byte counter, last-block flag. */
  type Compress = (Chain, bytes, u64, bool) -> Chain

  const IV: Chain := [0x6a09e667, 0xbb67ae85, 0x3c6ef372, 0xa54ff53a, 0x510e527f, 0x9b05688c, 0x1f83d9ab, 0x5be0cd19]

  // ---- section 3.3 of RFC 7693 ----

  /** Digest length, key length, fanout 1, depth 1. */
  function ParameterWord(outlen: nat, keylen: nat): u32
    requires outlen <= HASH_LEN && keylen <= KEY_MAX
  {
    0x01010000 + keylen * 0x100 + outlen
  }

  function Initial(outlen: nat, keylen: nat): Chain
    requires outlen <= HASH_LEN && keylen <= KEY_MAX
  {
    Xor32(IV[0], ParameterWord(outlen, keylen));
    IV[0 := Xor(IV[0], ParameterWord(outlen, keylen))]
  }

  lemma Xor32(a: u32, b: u32)
    ensures Xor(a, b) < 0x1_0000_0000
  {
    hide Xor;
    assert Pow2(8) == 0x100;
    hide Pow2;
    Pow2Product(8, 8, 0x100, 0x100);
    Pow2Product(16, 16, 0x1_0000, 0x1_0000);
    XorBound(a, b, 32);
  }

  function Counter(n: nat): u64 {
    n % 0x1_0000_0000_0000_0000
  }

  /** The block that starts at byte 64 i, padded with zeros. */
  function BlockAt(data: bytes, i: nat): bytes
    requires BLOCK * i <= |data|
  {
    var rest := data[BLOCK * i..];
    if |rest| >= BLOCK then rest[..BLOCK] else rest + Zeros(BLOCK - |rest|)
  }

  /** The chaining value after the first k blocks, none of them the last. */
  function Absorbed(f: Compress, h: Chain, data: bytes, k: nat): Chain
    requires BLOCK * k <= |data|
  {
    if k == 0 then h
    else f(Absorbed(f, h, data, k - 1), BlockAt(data, k - 1), Counter(BLOCK * k), false)
  }

  /** Blocks before the last one; the last holds 1 to 64 bytes, or none if there is no data at all. */
  function Earlier(n: nat): nat {
    if n == 0 then 0 else (n - 1) / BLOCK
  }

  lemma EarlierFits(n: nat)
    ensures BLOCK * Earlier(n) <= n <= BLOCK * Earlier(n) + BLOCK
    ensures n > 0 ==> BLOCK * Earlier(n) < n
  {
  }

  function Le32(v: u32): bytes {
    [v % 0x100, v / 0x100 % 0x100, v / 0x1_0000 % 0x100, v / 0x100_0000]
  }

  function ChainBytes(h: seq<u32>): (r: bytes)
    ensures |r| == 4 * |h|
  {
    if h == [] then [] else ChainBytes(h[..|h| - 1]) + Le32(h[|h| - 1])
  }

  /** The hash of the key block, if any, and the message together. */
  function Digest(f: Compress, h: Chain, data: bytes, outlen: nat): (r: bytes)
    requires outlen <= HASH_LEN
    ensures |r| == outlen
  {
    EarlierFits(|data|);
    var k := Earlier(|data|);
    ChainBytes(f(Absorbed(f, h, data, k), BlockAt(data, k), Counter(|data|), true))[..outlen]
  }

  function Clamp(outlen: nat): nat {
    if outlen == 0 || outlen > HASH_LEN then HASH_LEN else outlen
  }

  function KeyBytes(key: bytes): bytes {
    if |key| > KEY_MAX then key[..KEY_MAX] else key
  }

  /** A key is a block of its own before the message. */
  function KeyBlock(key: bytes): bytes {
    var k := KeyBytes(key);
    if k == [] then [] else k + Zeros(BLOCK - |k|)
  }

  /** BLAKE2s of a message under a key, which may be empty. */
  function Hash(f: Compress, outlen: nat, key: bytes, msg: bytes): (r: bytes)
    ensures |r| == Clamp(outlen)
  {
    Digest(f, Initial(Clamp(outlen), |KeyBytes(key)|), KeyBlock(key) + msg, Clamp(outlen))
  }

  /** Only the blocks already absorbed matter. */
  lemma {:induction false} AbsorbedPrefix(f: Compress, h: Chain, a: bytes, b: bytes, k: nat)
    requires BLOCK * k <= |a| && BLOCK * k <= |b| && a[..BLOCK * k] == b[..BLOCK * k]
    ensures Absorbed(f, h, a, k) == Absorbed(f, h, b, k)
  {
    if k > 0 {
      assert a[..BLOCK * (k - 1)] == a[..BLOCK * k][..BLOCK * (k - 1)] == b[..BLOCK * (k - 1)];
      AbsorbedPrefix(f, h, a, b, k - 1);
      assert BlockAt(a, k - 1) == a[..BLOCK * k][BLOCK * (k - 1)..] == BlockAt(b, k - 1);
    }
  }

  /** The three fields of the parameter word do not overlap. */
  lemma ParameterXor(outlen: nat, keylen: nat)
    requires outlen <= HASH_LEN && keylen <= KEY_MAX
    ensures Xor(Xor(0x01010000, keylen * 0x100), outlen) == ParameterWord(outlen, keylen)
  {
    hide Xor;
    assert Pow2(8) == 0x100;
    hide Pow2;
    Pow2Product(8, 8, 0x100, 0x100);
    XorCommutes(0x01010000, keylen * 0x100);
    XorDisjoint(keylen * 0x100, 0x0101, 16);
    XorCommutes(0x01010000 + keylen * 0x100, outlen);
    XorDisjoint(outlen, 0x010100 + keylen, 8);
  }

  /** The exclusive-ors that start `tc_blake2s_init_key`. */
  function FirstChain(outlen: nat, keylen: nat): (r: Chain)
    requires outlen <= HASH_LEN && keylen <= KEY_MAX
    ensures r == Initial(outlen, keylen)
  {
    ParameterXor(outlen, keylen);
    Xor32(IV[0], ParameterWord(outlen, keylen));
    IV[0 := Xor(IV[0], Xor(Xor(0x01010000, keylen * 0x100), outlen))]
  }

  // ---- the context ----

  class Ctx {
    const f: Compress
    ghost var h0: Chain
    /** Everything absorbed so far, key block included. */
    ghost var data: bytes
    var h: Chain
    var t: u64
    const buf: array<u8>
    var buflen: nat
    var outlen: nat

    /** All but the last block has been compressed; the last, never empty once there is data, is pending. */
    ghost predicate Valid()
      reads this, buf
    {
      && buf.Length == BLOCK && outlen <= HASH_LEN
      && Pending(f, h0, data, h, t, buf[..], buflen)
    }

    /** The start of `tc_blake2s_init_key`, before a key is absorbed. */
    constructor (compress: Compress, size: nat, keylen: nat)
      requires size <= HASH_LEN && keylen <= KEY_MAX
      ensures Valid() && fresh(buf) && f == compress && outlen == size
      ensures h0 == Initial(size, keylen) && data == []
    {
      hide Initial, Pending;
      f := compress;
      h := FirstChain(size, keylen);
      h0 := Initial(size, keylen);
      data := [];
      t, buflen, outlen := 0, 0, size;
      buf := new u8[BLOCK](_ => 0);
      new;
      NothingPending(f, h0, buf[..]);
    }

    /** `compress` on a block that is not the last, with the counter moved past it. */
    method Absorb(block: bytes)
      requires |block| == BLOCK
      modifies this`h, this`t
      ensures t == Counter(old(t) + BLOCK) && h == f(old(h), block, t, false)
    {
      t := Counter(t + BLOCK);
      h := f(h, block, t, false);
    }

    /** The loop of `tc_blake2s_update`: every block that is followed by more. */
    method AbsorbBlocks(p: bytes, ghost all: bytes, ghost k: nat) returns (rest: bytes, ghost k': nat)
      requires |p| > 0 && Blocks(f, h0, all, k, h, t, p)
      modifies this`h, this`t
      ensures 0 < |rest| <= BLOCK && Blocks(f, h0, all, k', h, t, rest)
    {
      hide Blocks, Counter;
      rest, k' := p, k;
      while |rest| > BLOCK
        invariant |rest| > 0 && Blocks(f, h0, all, k', h, t, rest)
      {
        BlocksStep(f, h0, all, k', h, t, rest);
        Absorb(rest[..BLOCK]);
        rest := rest[BLOCK..];
        k' := k' + 1;
      }
    }

    /** `tc_blake2s_update` */
    method Update(p: bytes)
      requires Valid()
      modifies this, buf
      ensures Valid() && data == old(data) + p && h0 == old(h0) && outlen == old(outlen)
    {
      if |p| == 0 {
        assert data + p == data;
        return;
      }
      ghost var all := data + p;
      var fill := BLOCK - buflen;
      if |p| > fill {
        UpdateLong(p, fill);
      } else {
        BlocksStart(f, h0, data, p, h, t, buf[..], buflen);
        ghost var k := Earlier(|data|);
        hide Pending, Blocks, Earlier, Counter;
        ghost var head := buf[..buflen];
        Store(p);
        assert buf[..][..buflen] == head + p;
        BlocksEnd(f, h0, all, k, h, t, buf[..], head + p);
      }
      data := all;
    }

    /** `memcpy` to the end of what the buffer holds. */
    method Store(p: bytes)
      requires buf.Length == BLOCK && buflen + |p| <= BLOCK
      modifies this`buflen, buf
      ensures buflen == old(buflen) + |p| && buf[..buflen] == old(buf[..buflen]) + p
    {
      forall i | 0 <= i < |p| {
        buf[buflen + i] := p[i];
      }
      buflen := buflen + |p|;
    }

    /** `tc_blake2s_update` when the buffer overflows. */
    method UpdateLong(p: bytes, fill: nat)
      requires Valid() && fill == BLOCK - buflen && |p| > fill
      modifies this`h, this`t, this`buflen, buf
      ensures Pending(f, h0, data + p, h, t, buf[..], buflen)
    {
      ghost var all, k, head := data + p, Earlier(|data|), buf[..buflen];
      BlocksStart(f, h0, data, p, h, t, buf[..], buflen);
      hide Pending, Blocks, Earlier, Counter;
      Store(p[..fill]);
      assert buf[..] == head + p[..fill];
      assert (head + p)[..BLOCK] == head + p[..fill] && (head + p)[BLOCK..] == p[fill..];
      BlocksStep(f, h0, all, k, h, t, head + p);
      Absorb(buf[..]);
      buflen := 0;
      var rest, k' := AbsorbBlocks(p[fill..], all, k + 1);
      Store(rest);
      assert buf[..][..|rest|] == rest;
      BlocksEnd(f, h0, all, k', h, t, buf[..], rest);
    }

    /** `tc_blake2s_final` */
    method Final() returns (out: bytes)
      requires Valid()
      modifies this, buf
      ensures out == Digest(f, old(h0), old(data), old(outlen))
    {
      LastBlock(f, h0, data, h, t, buf[..], buflen);
      hide Pending, Digest, Counter, BlockAt;
      ghost var pending := buf[..buflen];
      t := Counter(t + buflen);
      forall i | buflen <= i < BLOCK {
        buf[i] := 0;
      }
      assert buf[..] == pending + Zeros(BLOCK - buflen);
      h := f(h, buf[..], t, true);
      var full := StoreChain(h);
      out := full[..outlen];
    }

    /** The loop of `store32`. */
    static method StoreChain(h: Chain) returns (full: bytes)
      ensures full == ChainBytes(h)
    {
      full := [];
      var i := 0;
      while i < 8
        invariant 0 <= i <= 8 && full == ChainBytes(h[..i])
      {
        assert h[..i + 1][..i] == h[..i];
        full := full + Le32(h[i]);
        i := i + 1;
      }
      assert h[..8] == h;
    }
  }

  /** The pending bytes, padded, are the last block. */
  lemma LastBlock(f: Compress, h0: Chain, data: bytes, h: Chain, t: u64, buf: bytes, buflen: nat)
    requires Pending(f, h0, data, h, t, buf, buflen)
    ensures var last := buf[..buflen] + Zeros(BLOCK - buflen);
            forall n: nat :: n <= HASH_LEN ==>
              ChainBytes(f(h, last, Counter(t + buflen), true))[..n] == Digest(f, h0, data, n)
  {
    var k := Earlier(|data|);
    CounterTail(BLOCK * k, buflen);
    hide Counter;
    assert BlockAt(data, k) == buf[..buflen] + Zeros(BLOCK - buflen);
  }

  lemma CounterTail(n: nat, r: nat)
    ensures Counter(Counter(n) + r) == Counter(n + r)
  {
    var m := 0x1_0000_0000_0000_0000;
    var q, x := n / m, n % m;
    DivModUnique(n + r, m, q + (x + r) / m, (x + r) % m);
  }

  lemma NothingPending(f: Compress, h0: Chain, buf: bytes)
    requires |buf| == BLOCK
    ensures Pending(f, h0, [], h0, 0, buf, 0)
  {
  }

  /** `tc_blake2s_init_key`; with no key it is `tc_blake2s_init` */
  method InitKey(f: Compress, size: nat, key: bytes) returns (ctx: Ctx)
    ensures fresh(ctx) && fresh(ctx.buf) && ctx.Valid() && ctx.f == f && ctx.outlen == Clamp(size)
    ensures ctx.h0 == Initial(Clamp(size), |KeyBytes(key)|) && ctx.data == KeyBlock(key)
  {
    hide Initial, Ctx.Valid;
    var out := if size == 0 || size > HASH_LEN then HASH_LEN else size;
    var k := if |key| > KEY_MAX then key[..KEY_MAX] else key;
    ctx := new Ctx(f, out, |k|);
    if |k| > 0 {
      var block := k + Zeros(BLOCK - |k|);
      assert [] + block == block;
      ctx.Update(block);
    }
  }

  /** `tc_blake2s` */
  method HashOnce(f: Compress, outlen: nat, msg: bytes, key: bytes) returns (out: bytes)
    ensures out == Hash(f, outlen, key, msg)
  {
    hide Digest, Initial, KeyBlock, Pending;
    var ctx := InitKey(f, outlen, key);
    ctx.Update(msg);
    out := ctx.Final();
  }

  function Concat(pieces: seq<bytes>): bytes {
    if pieces == [] then [] else Concat(pieces[..|pieces| - 1]) + pieces[|pieces| - 1]
  }

  /** However a message is cut into calls of `tc_blake2s_update`, the digest is that of the whole. */
  method HashPieces(f: Compress, outlen: nat, pieces: seq<bytes>, key: bytes) returns (out: bytes)
    ensures out == Hash(f, outlen, key, Concat(pieces))
  {
    hide Digest, Initial, KeyBlock, Ctx.Valid;
    var ctx := InitKey(f, outlen, key);
    for i := 0 to |pieces|
      invariant fresh(ctx) && fresh(ctx.buf) && ctx.Valid() && ctx.outlen == Clamp(outlen)
      invariant ctx.h0 == Initial(Clamp(outlen), |KeyBytes(key)|) && ctx.data == KeyBlock(key) + Concat(pieces[..i])
    {
      ctx.Update(pieces[i]);
      assert pieces[..i + 1][..i] == pieces[..i];
      assert KeyBlock(key) + (Concat(pieces[..i]) + pieces[i]) == KeyBlock(key) + Concat(pieces[..i]) + pieces[i];
    }
    assert pieces[..|pieces|] == pieces;
    out := ctx.Final();
  }

  // ---- what the loop keeps ----

  /** k blocks of `all` have been compressed, and `rest` is what follows them. */
  ghost predicate Blocks(f: Compress, h0: Chain, all: bytes, k: nat, h: Chain, t: u64, rest: bytes) {
    && BLOCK * k <= |all| && rest == all[BLOCK * k..]
    && t == Counter(BLOCK * k) && h == Absorbed(f, h0, all, k)
  }

  lemma BlocksStart(f: Compress, h0: Chain, data: bytes, p: bytes, h: Chain, t: u64, buf: bytes, buflen: nat)
    requires Pending(f, h0, data, h, t, buf, buflen)
    ensures buflen <= |buf| == BLOCK
    ensures Blocks(f, h0, data + p, Earlier(|data|), h, t, buf[..buflen] + p)
  {
    hide Counter;
    var k := Earlier(|data|);
    EarlierFits(|data|);
    assert (data + p)[..BLOCK * k] == data[..BLOCK * k];
    AbsorbedPrefix(f, h0, data, data + p, k);
    assert (data + p)[BLOCK * k..] == data[BLOCK * k..] + p;
  }

  lemma CounterStep(k: nat)
    ensures Counter(Counter(BLOCK * k) + BLOCK) == Counter(BLOCK * (k + 1))
  {
    CounterTail(BLOCK * k, BLOCK);
  }

  lemma BlocksStep(f: Compress, h0: Chain, all: bytes, k: nat, h: Chain, t: u64, rest: bytes)
    requires Blocks(f, h0, all, k, h, t, rest) && |rest| >= BLOCK
    ensures var t' := Counter(t + BLOCK);
            Blocks(f, h0, all, k + 1, f(h, rest[..BLOCK], t', false), t', rest[BLOCK..])
  {
    CounterStep(k);
    hide Counter;
    assert BlockAt(all, k) == rest[..BLOCK];
    assert rest[BLOCK..] == all[BLOCK * (k + 1)..];
  }

  lemma BlocksEnd(f: Compress, h0: Chain, all: bytes, k: nat, h: Chain, t: u64, buf: bytes, rest: bytes)
    requires Blocks(f, h0, all, k, h, t, rest) && 0 < |rest| <= BLOCK == |buf| && buf[..|rest|] == rest
    ensures Pending(f, h0, all, h, t, buf, |rest|)
  {
    hide Counter;
    assert Earlier(|all|) == k by {
      DivModUnique(|all| - 1, BLOCK, k, |rest| - 1);
    }
  }

  ghost predicate Pending(f: Compress, h0: Chain, data: bytes, h: Chain, t: u64, buf: bytes, buflen: nat) {
    var k := Earlier(|data|);
    && buflen <= |buf| == BLOCK && |data| == BLOCK * k + buflen
    && buf[..buflen] == data[BLOCK * k..]
    && t == Counter(BLOCK * k) && h == Absorbed(f, h0, data, k)
  }
}
