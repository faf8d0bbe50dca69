/** XSalsa20 as a byte-addressed keystream, and secretbox on top of it. */
module Salsa20 {
  import opened Words
  import opened Errors
  import opened Bits

  const BLOCK: nat := 64
  const KEY_LEN: nat := 32
  const NONCE_LEN: nat := 24
  const TAG_LEN: nat := 16
  const SIZE_MAX: nat := 0xffff_ffff_ffff_ffff

  type Key = k: bytes | |k| == KEY_LEN witness Zeros(KEY_LEN)
  type Nonce = n: bytes | |n| == NONCE_LEN witness Zeros(NONCE_LEN)
  type Tag = t: bytes | |t| == TAG_LEN witness Zeros(TAG_LEN)
  type Half = i: bytes | |i| == 16 witness Zeros(16)
  type Stream = b: bytes | |b| == BLOCK witness Zeros(BLOCK)

  /** HSalsa20, the Salsa20 core with feed-forward, and Poly1305: any functions of these shapes. */
  datatype Cipher = Cipher(hsalsa: (Key, Half) -> Key, core: (Key, Half) -> Stream, poly: (Key, bytes) -> Tag)

  function HSalsa(c: Cipher, key: Key, input: Half): Key {
    (c.hsalsa)(key, input)
  }

  function Core(c: Cipher, key: Key, input: Half): Stream {
    (c.core)(key, input)
  }

  function Mac(c: Cipher, key: Key, m: bytes): Tag {
    (c.poly)(key, m)
  }

  // ---- the keystream ----

  /** A counter as eight bytes, least significant first. */
  function CounterBytes(v: nat, n: nat): (r: bytes)
    ensures |r| == n
  {
    if n == 0 then [] else [v % 0x100] + CounterBytes(v / 0x100, n - 1)
  }

  function Subkey(c: Cipher, key: Key, nonce: Nonce): Key {
    HSalsa(c, key, nonce[..16])
  }

  /** Block number ctr of the keystream. */
  function BlockOf(c: Cipher, key: Key, nonce: Nonce, ctr: nat): Stream {
    Core(c, Subkey(c, key, nonce), nonce[16..] + CounterBytes(ctr, 8))
  }

  /** Byte number i of the keystream. */
  function KeyByte(c: Cipher, key: Key, nonce: Nonce, i: nat): u8 {
    BlockOf(c, key, nonce, i / BLOCK)[i % BLOCK]
  }

  /** Byte by byte. */
  function XorSeq(a: bytes, b: bytes): (r: bytes)
    requires |a| == |b|
    ensures |r| == |a|
  {
    seq(|a|, i requires 0 <= i < |a| => XorByte(a[i], b[i]))
  }

  /** A message under the keystream from byte `offset` on. */
  function Crypt(c: Cipher, key: Key, nonce: Nonce, offset: nat, m: bytes): (r: bytes)
    ensures |r| == |m|
  {
    seq(|m|, i requires 0 <= i < |m| => XorByte(m[i], KeyByte(c, key, nonce, offset + i)))
  }

  /** Doing it twice gives the message back. */
  lemma CryptTwice(c: Cipher, key: Key, nonce: Nonce, offset: nat, m: bytes)
    ensures Crypt(c, key, nonce, offset, Crypt(c, key, nonce, offset, m)) == m
  {
    hide KeyByte, Xor;
    forall i | 0 <= i < |m| ensures Crypt(c, key, nonce, offset, Crypt(c, key, nonce, offset, m))[i] == m[i] {
      XorCancel(m[i], KeyByte(c, key, nonce, offset + i));
    }
  }

  /** A message may be cut anywhere, as long as the offset moves along. */
  lemma CryptSplit(c: Cipher, key: Key, nonce: Nonce, offset: nat, a: bytes, b: bytes)
    ensures Crypt(c, key, nonce, offset, a + b)
         == Crypt(c, key, nonce, offset, a) + Crypt(c, key, nonce, offset + |a|, b)
  {
    hide KeyByte, XorByte;
    var whole := Crypt(c, key, nonce, offset, a + b);
    var right := Crypt(c, key, nonce, offset + |a|, b);
    forall i | |a| <= i < |a| + |b| ensures whole[i] == right[i - |a|] {
      assert (a + b)[i] == b[i - |a|] && offset + i == (offset + |a|) + (i - |a|);
    }
  }

  // ---- the code ----

  /** `salsa20_block`: the counter goes into the last eight bytes of the input. */
  method SalsaBlock(c: Cipher, subkey: Key, nonce8: bytes, counter: u64) returns (block: Stream)
    requires |nonce8| == 8
    ensures block == Core(c, subkey, nonce8 + CounterBytes(counter, 8))
  {
    var input: bytes := nonce8;
    var i := 0;
    while i < 8
      invariant 0 <= i <= 8 && input == nonce8 + CounterBytes(counter, 8)[..i]
    {
      ByteOfCounter(counter, 8, i);
      input := input + [Shift8Right(counter, i) % 0x100];
      i := i + 1;
    }
    assert CounterBytes(counter, 8)[..8] == CounterBytes(counter, 8);
    block := Core(c, subkey, input);
  }

  /** `v >> 8 * k` */
  function Shift8Right(v: nat, k: nat): nat
    decreases k
  {
    if k == 0 then v else Shift8Right(v / 0x100, k - 1)
  }

  lemma {:induction false} ByteOfCounter(v: nat, n: nat, i: nat)
    requires i < n
    ensures CounterBytes(v, n)[i] == Shift8Right(v, i) % 0x100
    decreases i
  {
    if i > 0 {
      ByteOfCounter(v / 0x100, n - 1, i - 1);
    }
  }

  /**
   * `tc_xsalsa20_xor` from src[from..from + n] to out[to..to + n]; the two may be the same bytes of one array.
   */
  method XSalsa20Xor(c: Cipher, out: array<u8>, to: nat, src: array<u8>, from: nat, n: nat, nonce: Nonce, key: Key,
                     offset: u64)
    requires to + n <= out.Length && from + n <= src.Length && n <= SIZE_MAX
    requires out == src ==> to == from
    modifies out
    ensures out[to..to + n] == Crypt(c, key, nonce, offset, old(src[from..from + n]))
    ensures out[..to] == old(out[..to]) && out[to + n..] == old(out[to + n..])
  {
    ghost var m, was := src[from..from + n], out[..];
    ghost var whole := Crypt(c, key, nonce, offset, m);
    assert out == src ==> m == was[to..to + n];
    hide Crypt, Done;
    XorLoop(c, out, to, src, from, n, nonce, key, offset, was, m, whole);
    DoneEnd(was, out[..], to, whole);
    assert out[..][to..to + n] == out[to..to + n];
  }

  /** Its outer loop. */
  method XorLoop(c: Cipher, out: array<u8>, to: nat, src: array<u8>, from: nat, n: nat, nonce: Nonce, key: Key,
                 offset: u64, ghost was: bytes, ghost m: bytes, ghost whole: bytes)
    requires n <= SIZE_MAX && |m| == n && whole == Crypt(c, key, nonce, offset, m)
    requires Sources(out, to, src, from, was, m) && out[..] == was
    modifies out
    ensures Done(was, out[..], to, n, whole)
  {
    hide Crypt, BlockOf, Done, XorSeq, Wrap64, CounterBytes, HSalsa, Core, At;
    var subkey := HSalsa(c, key, nonce[..16]);
    var ctr: nat, skip: nat := offset / BLOCK, offset % BLOCK;
    var off := 0;
    AtStart(offset);
    DoneStart(was, to, whole);
    while off < n
      invariant 0 <= off <= n && skip < BLOCK
      invariant off < n ==> At(offset + off, ctr, skip)
      invariant Sources(out, to, src, from, was, m) && Done(was, out[..], to, off, whole)
    {
      var avail := BLOCK - skip;
      var take := n - off;
      if take > avail {
        take := avail;
      }
      var block := SalsaBlock(c, subkey, nonce[16..], Wrap64(ctr));
      ChunkIs(c, key, nonce, offset, m, off, ctr, skip, take);
      XorChunk(out, to, src, from, block, skip, off, take, was, m, whole);
      AtNext(offset + off, ctr, skip, take);
      off := off + take;
      skip := 0;
      ctr := ctr + 1;
    }
  }

  /** The message m is what src holds at `from`, or held when out was `was` if the two are one array. */
  ghost predicate Sources(out: array<u8>, to: nat, src: array<u8>, from: nat, was: bytes, m: bytes)
    reads src
  {
    && to + |m| <= out.Length == |was| && from + |m| <= src.Length
    && if out == src then to == from && m == was[to..to + |m|] else m == src[from..from + |m|]
  }

  /** Byte number i of the keystream is byte number skip of block number ctr. */
  ghost predicate At(i: nat, ctr: nat, skip: nat) {
    i == BLOCK * ctr + skip
  }

  lemma AtStart(i: nat)
    ensures At(i, i / BLOCK, i % BLOCK)
  {
  }

  lemma AtNext(i: nat, ctr: nat, skip: nat, take: nat)
    requires At(i, ctr, skip) && skip + take <= BLOCK
    ensures skip + take == BLOCK ==> At(i + take, ctr + 1, 0)
  {
  }

  /** The block counter never wraps, so the block is the one the keystream calls for. */
  lemma BlockIs(c: Cipher, key: Key, nonce: Nonce, offset: u64, off: nat, ctr: nat, skip: nat)
    requires off <= SIZE_MAX && offset + off as int == BLOCK * ctr + skip
    ensures Wrap64(ctr) == ctr
    ensures BlockOf(c, key, nonce, ctr) == Core(c, HSalsa(c, key, nonce[..16]), nonce[16..] + CounterBytes(ctr, 8))
  {
  }

  /** The next piece of the result is the next piece of the message under the block of the counter as it wraps. */
  lemma ChunkIs(c: Cipher, key: Key, nonce: Nonce, offset: u64, m: bytes, off: nat, ctr: nat, skip: nat, take: nat)
    requires off + take <= |m| <= SIZE_MAX && At(offset + off, ctr, skip) && skip + take <= BLOCK
    ensures var block := Core(c, HSalsa(c, key, nonce[..16]), nonce[16..] + CounterBytes(Wrap64(ctr), 8));
            Crypt(c, key, nonce, offset, m)[off..off + take] == XorSeq(m[off..off + take], block[skip..skip + take])
  {
    hide Crypt, BlockOf, XorSeq, Wrap64, CounterBytes, HSalsa, Core;
    BlockIs(c, key, nonce, offset, off, ctr, skip);
    CryptChunk(c, key, nonce, offset, m, off, ctr, skip, take);
  }

  /** One turn of the loop of `tc_xsalsa20_xor`, with the block at hand. */
  method XorChunk(out: array<u8>, to: nat, src: array<u8>, from: nat, block: Stream, skip: nat, off: nat, take: nat,
                  ghost was: bytes, ghost m: bytes, ghost whole: bytes)
    requires skip + take <= BLOCK
    requires off + take <= |m| == |whole| && Sources(out, to, src, from, was, m)
    requires Done(was, out[..], to, off, whole)
    requires whole[off..off + take] == XorSeq(m[off..off + take], block[skip..skip + take])
    modifies out
    ensures Done(was, out[..], to, off + take, whole)
  {
    hide XorSeq, Done, Sources;
    ghost var before := out[..];
    StillThere(out, to, src, from, off, take, was, m, whole);
    XorInto(out, to + off, src, from + off, block, skip, take);
    DoneStep(was, before, out[..], to, off, take, whole);
  }

  /** The bytes about to be read are those of the message, even in place. */
  lemma StillThere(out: array<u8>, to: nat, src: array<u8>, from: nat, off: nat, take: nat, was: bytes, m: bytes,
                   whole: bytes)
    requires off + take <= |m| == |whole| && Sources(out, to, src, from, was, m)
    requires Done(was, out[..], to, off, whole)
    ensures to + |m| <= out.Length && from + |m| <= src.Length && (out == src ==> to == from)
    ensures src[from + off..from + off + take] == m[off..off + take]
  {
    hide Done;
    var now := src[..];
    assert now[from + off..from + off + take] == src[from + off..from + off + take];
    if out == src {
      UnreadSame(was, now, to, off, take, m, whole);
    } else {
      assert now[from..from + |m|] == m;
      Slice(now, from, |m|, off, take);
    }
  }

  // ---- what the loop keeps ----

  /** The first `off` bytes are written, and nothing else has changed. */
  ghost predicate Done(was: bytes, now: bytes, to: nat, off: nat, whole: bytes) {
    && |was| == |now| && to + |whole| <= |was| && off <= |whole|
    && now == was[..to] + whole[..off] + was[to + off..]
  }

  lemma DoneStart(was: bytes, to: nat, whole: bytes)
    requires to + |whole| <= |was|
    ensures Done(was, was, to, 0, whole)
  {
  }

  lemma DoneStep(was: bytes, before: bytes, now: bytes, to: nat, off: nat, take: nat, whole: bytes)
    requires Done(was, before, to, off, whole) && off + take <= |whole| && to + off + take <= |before|
    requires now == before[..to + off] + whole[off..off + take] + before[to + off + take..]
    ensures Done(was, now, to, off + take, whole)
  {
    assert before[..to + off] == was[..to] + whole[..off];
    assert before[to + off + take..] == was[to + off + take..];
    assert whole[..off] + whole[off..off + take] == whole[..off + take];
  }

  lemma DoneEnd(was: bytes, now: bytes, to: nat, whole: bytes)
    requires Done(was, now, to, |whole|, whole)
    ensures now[..to] == was[..to] && now[to..to + |whole|] == whole && now[to + |whole|..] == was[to + |whole|..]
  {
    assert whole[..|whole|] == whole;
  }

  /** What is still to be read has not been overwritten, even in place. */
  lemma UnreadSame(was: bytes, now: bytes, to: nat, off: nat, take: nat, m: bytes, whole: bytes)
    requires Done(was, now, to, off, whole) && |m| == |whole| && off + take <= |m| && m == was[to..to + |m|]
    ensures to + off + take <= |now| && now[to + off..to + off + take] == m[off..off + take]
  {
    var x, y := now[to + off..to + off + take], m[off..off + take];
    forall i | 0 <= i < take ensures x[i] == y[i] {
      assert x[i] == now[to + off..][i] == was[to + off..][i];
      assert y[i] == m[off + i] == was[to + (off + i)];
    }
  }

  lemma Slice(s: bytes, a: nat, n: nat, i: nat, k: nat)
    requires a + n <= |s| && i + k <= n
    ensures s[a..a + n][i..i + k] == s[a + i..a + i + k]
  {
    var x, y := s[a..a + n][i..i + k], s[a + i..a + i + k];
    assert |x| == |y| == k;
    forall j | 0 <= j < k ensures x[j] == y[j] {
      assert x[j] == s[a..a + n][i + j] == s[a + (i + j)];
    }
  }

  /** Within a block the keystream is consecutive bytes of that block. */
  lemma CryptChunk(c: Cipher, key: Key, nonce: Nonce, offset: nat, m: bytes, off: nat, ctr: nat, skip: nat, take: nat)
    requires off + take <= |m| && offset + off == BLOCK * ctr + skip && skip + take <= BLOCK
    ensures Crypt(c, key, nonce, offset, m)[off..off + take]
         == XorSeq(m[off..off + take], BlockOf(c, key, nonce, ctr)[skip..skip + take])
  {
    hide XorByte, BlockOf;
    var whole := Crypt(c, key, nonce, offset, m);
    var part := XorSeq(m[off..off + take], BlockOf(c, key, nonce, ctr)[skip..skip + take]);
    forall i | 0 <= i < take ensures whole[off..off + take][i] == part[i] {
      DivModUnique(offset + (off + i), BLOCK, ctr, skip + i);
      assert KeyByte(c, key, nonce, offset + (off + i)) == BlockOf(c, key, nonce, ctr)[skip + i];
    }
  }

  /** The inner loop of `tc_xsalsa20_xor`. */
  method XorInto(out: array<u8>, to: nat, src: array<u8>, from: nat, block: Stream, skip: nat, take: nat)
    requires to + take <= out.Length && from + take <= src.Length && skip + take <= BLOCK
    requires out == src ==> to == from
    modifies out
    ensures out[..]
         == old(out[..to]) + XorSeq(old(src[from..from + take]), block[skip..skip + take]) + old(out[to + take..])
  {
    hide XorByte;
    ghost var s := src[from..from + take];
    ghost var x := XorSeq(s, block[skip..skip + take]);
    var i := 0;
    while i < take
      invariant 0 <= i <= take
      invariant out[to..to + i] == x[..i]
      invariant out[..to] == old(out[..to]) && out[to + i..] == old(out[to + i..])
    {
      assert src[from + i] == s[i] by {
        if src == out {
          assert out[to + i..][0] == old(out[to + i..])[0];
        }
      }
      out[to + i] := XorByte(src[from + i], block[skip + i]);
      assert out[to..to + i + 1] == out[to..to + i] + [x[i]];
      i := i + 1;
    }
    assert out[..] == out[..to] + out[to..to + take] + out[to + take..];
  }

  // ---- secretbox ----

  /** The first 32 bytes of the keystream. */
  function PolyKey(c: Cipher, key: Key, nonce: Nonce): Key {
    seq(32, i requires 0 <= i < 32 => KeyByte(c, key, nonce, i))
  }

  /** The authenticator, and then the message under the keystream from byte 32 on. */
  function Sealed(c: Cipher, key: Key, nonce: Nonce, m: bytes): (r: bytes)
    ensures |r| == TAG_LEN + |m|
  {
    var ct := Crypt(c, key, nonce, 32, m);
    Mac(c, PolyKey(c, key, nonce), ct) + ct
  }

  /**
   * The NaCl definition of a box: one pass of the cipher over 32 zero bytes and the message gives the
   * authenticator's key and the ciphertext, so the two share no keystream byte.
   */
  lemma OnePass(c: Cipher, key: Key, nonce: Nonce, m: bytes)
    ensures var pass := Crypt(c, key, nonce, 0, Zeros(32) + m);
            && PolyKey(c, key, nonce) == pass[..32]
            && Sealed(c, key, nonce, m) == Mac(c, pass[..32], pass[32..]) + pass[32..]
  {
    hide KeyByte, Crypt, PolyKey;
    CryptSplit(c, key, nonce, 0, Zeros(32), m);
    var pass := Crypt(c, key, nonce, 0, Zeros(32) + m);
    assert pass[..32] == Crypt(c, key, nonce, 0, Zeros(32)) && pass[32..] == Crypt(c, key, nonce, 32, m);
    PolyKeyPass(c, key, nonce);
  }

  lemma PolyKeyPass(c: Cipher, key: Key, nonce: Nonce)
    ensures PolyKey(c, key, nonce) == Crypt(c, key, nonce, 0, Zeros(32))
  {
    hide KeyByte, Xor;
    var zeros := Zeros(32);
    forall i | 0 <= i < 32 ensures XorByte(zeros[i], KeyByte(c, key, nonce, i)) == KeyByte(c, key, nonce, i) {
      XorZeroLeft(KeyByte(c, key, nonce, i));
    }
  }

  /** `poly_key` */
  method DerivePolyKey(c: Cipher, key: Key, nonce: Nonce) returns (pk: Key)
    ensures pk == PolyKey(c, key, nonce)
  {
    var subkey := HSalsa(c, key, nonce[..16]);
    var block := SalsaBlock(c, subkey, nonce[16..], 0);
    pk := block[..32];
    assert block == BlockOf(c, key, nonce, 0);
    hide BlockOf;
    forall i | 0 <= i < 32 ensures pk[i] == KeyByte(c, key, nonce, i) {
      assert i / BLOCK == 0 && i % BLOCK == i;
    }
  }

  /** `tc_secretbox_seal` */
  method SecretboxSeal(c: Cipher, out: array<u8>, key: Key, nonce: Nonce, pt: array<u8>) returns (rc: Result<()>)
    requires pt != out && pt.Length <= SIZE_MAX
    requires pt.Length <= SIZE_MAX - TAG_LEN ==> out.Length == TAG_LEN + pt.Length
    modifies out
    ensures rc == if pt.Length > SIZE_MAX - TAG_LEN then Err(Range) else Ok(())
    ensures rc.Ok? ==> out[..] == Sealed(c, key, nonce, pt[..])
  {
    if pt.Length > SIZE_MAX - TAG_LEN {
      return Err(Range);
    }
    hide Crypt, PolyKey, Sealed, Mac;
    var n := pt.Length;
    ghost var msg := pt[..];
    var pk := DerivePolyKey(c, key, nonce);
    if n != 0 {
      XSalsa20Xor(c, out, TAG_LEN, pt, 0, n, nonce, key, 32);
    }
    ghost var ct := Crypt(c, key, nonce, 32, msg);
    assert pt[0..n] == pt[..] == msg;
    assert out[TAG_LEN..] == ct;
    var tag := Mac(c, pk, out[TAG_LEN..]);
    assert tag == Mac(c, PolyKey(c, key, nonce), ct);
    forall i | 0 <= i < TAG_LEN {
      out[i] := tag[i];
    }
    assert out[TAG_LEN..] == ct && out[..TAG_LEN] == tag;
    assert out[..] == out[..TAG_LEN] + out[TAG_LEN..] == tag + ct;
    assert pt[..] == msg;
    SealedParts(c, key, nonce, msg);
    return Ok(());
  }

  lemma SealedParts(c: Cipher, key: Key, nonce: Nonce, m: bytes)
    ensures var ct := Crypt(c, key, nonce, 32, m); Sealed(c, key, nonce, m) == Mac(c, PolyKey(c, key, nonce), ct) + ct
  {
  }

  /** `tc_secretbox_open`: the authenticator is checked before anything is decrypted. */
  method SecretboxOpen(c: Cipher, out: array<u8>, key: Key, nonce: Nonce, ct: array<u8>) returns (rc: Result<()>)
    requires out != ct && ct.Length <= SIZE_MAX && (ct.Length >= TAG_LEN ==> out.Length == ct.Length - TAG_LEN)
    modifies out
    ensures rc.Ok? ==> ct[..] == Sealed(c, key, nonce, out[..])
    ensures rc.Err? ==> rc.error == Inval && out[..] == old(out[..])
    ensures rc.Err? ==> forall m :: ct[..] != Sealed(c, key, nonce, m)
  {
    if ct.Length < TAG_LEN {
      return Err(Inval);
    }
    hide Crypt, PolyKey;
    var n := ct.Length - TAG_LEN;
    var pk := DerivePolyKey(c, key, nonce);
    ghost var body := ct[TAG_LEN..];
    var tag := Mac(c, pk, ct[TAG_LEN..]);
    if tag != ct[..TAG_LEN] {
      forall m ensures ct[..] != Sealed(c, key, nonce, m) {
        NotSealed(c, key, nonce, ct[..], m);
      }
      return Err(Inval);
    }
    if n != 0 {
      XSalsa20Xor(c, out, 0, ct, TAG_LEN, n, nonce, key, 32);
    }
    assert ct[TAG_LEN..TAG_LEN + n] == body && out[0..n] == out[..];
    assert out[..] == Crypt(c, key, nonce, 32, body);
    CryptTwice(c, key, nonce, 32, body);
    assert ct[..] == ct[..TAG_LEN] + ct[TAG_LEN..];
    return Ok(());
  }

  /** What is sealed carries the authenticator of its own body. */
  lemma NotSealed(c: Cipher, key: Key, nonce: Nonce, ct: bytes, m: bytes)
    requires |ct| >= TAG_LEN && Mac(c, PolyKey(c, key, nonce), ct[TAG_LEN..]) != ct[..TAG_LEN]
    ensures ct != Sealed(c, key, nonce, m)
  {
    hide Crypt, PolyKey;
    var s := Sealed(c, key, nonce, m);
    assert s[TAG_LEN..] == Crypt(c, key, nonce, 32, m) && s[..TAG_LEN] == Mac(c, PolyKey(c, key, nonce), s[TAG_LEN..]);
  }

  /** Sealing loses nothing. */
  lemma SealedInjective(c: Cipher, key: Key, nonce: Nonce, a: bytes, b: bytes)
    requires Sealed(c, key, nonce, a) == Sealed(c, key, nonce, b)
    ensures a == b
  {
    hide PolyKey, Crypt;
    CryptTwice(c, key, nonce, 32, a);
    CryptTwice(c, key, nonce, 32, b);
    assert Sealed(c, key, nonce, a)[TAG_LEN..] == Crypt(c, key, nonce, 32, a);
    assert Sealed(c, key, nonce, b)[TAG_LEN..] == Crypt(c, key, nonce, 32, b);
  }
}
