/** Little-endian strings of 32-bit limbs, and their four-byte encodings. */
module Limbs32 {
  import opened Words

  const TWO32 := 0x1_0000_0000

  function Value(s: seq<nat>): (r: nat) {
    if s == [] then 0 else s[0] + TWO32 * Value(s[1..])
  }

  /** 2^(32 n) */
  function Place(n: nat): (r: nat)
    ensures r >= 1
  {
    if n == 0 then 1 else TWO32 * Place(n - 1)
  }

  lemma {:induction false} ValueAppend(s: seq<nat>, x: nat)
    ensures Value(s + [x]) == Value(s) + Place(|s|) * x
  {
    if s == [] {
      assert s + [x] == [x];
    } else {
      ValueAppend(s[1..], x);
      assert (s + [x])[1..] == s[1..] + [x];
      ScaleProduct(TWO32, Place(|s| - 1), x);
    }
  }

  lemma {:induction false} ValueBound(s: seq<nat>)
    requires forall i :: 0 <= i < |s| ==> s[i] < TWO32
    ensures Value(s) < Place(|s|)
  {
    if s != [] {
      ValueBound(s[1..]);
    }
  }

  lemma {:induction false} ValueZeros(s: seq<nat>)
    requires forall i :: 0 <= i < |s| ==> s[i] == 0
    ensures Value(s) == 0
  {
    if s != [] {
      ValueZeros(s[1..]);
    }
  }

  lemma {:induction false} ValueConcat(s: seq<nat>, t: seq<nat>)
    ensures Value(s + t) == Value(s) + Place(|s|) * Value(t)
  {
    if s == [] {
      assert s + t == t;
    } else {
      ValueConcat(s[1..], t);
      assert (s + t)[1..] == s[1..] + t;
      ScaleProduct(TWO32, Place(|s| - 1), Value(t));
    }
  }

  function Join(a: int, b: int, c: int, d: int): int {
    a + 0x100 * b + 0x1_0000 * c + 0x100_0000 * d
  }

  /** The limb that four bytes spell. */
  function LimbAt(s: bytes, i: nat): u32
    requires 4 * i + 4 <= |s|
  {
    Join(s[4 * i], s[4 * i + 1], s[4 * i + 2], s[4 * i + 3])
  }

  lemma JoinBytes(w: u32)
    ensures Join(w % 0x100, w / 0x100 % 0x100, w / 0x1_0000 % 0x100, w / 0x100_0000 % 0x100) == w
  {
    assert w / 0x1_0000 == w / 0x100 / 0x100 && w / 0x100_0000 == w / 0x100 / 0x100 / 0x100;
  }

  ghost predicate Spells(s: bytes, w: seq<u32>) {
    |s| == 4 * |w| && forall i :: 0 <= i < |w| ==> LimbAt(s, i) == w[i]
  }

  lemma {:induction false} SpelledValue(s: bytes, w: seq<u32>)
    requires Spells(s, w)
    ensures LittleEndian(s) == Value(w)
  {
    if w != [] {
      var s' := s[4..];
      assert Spells(s', w[1..]) by {
        forall i | 0 <= i < |w| - 1 ensures LimbAt(s', i) == w[1..][i] {
          assert LimbAt(s, i + 1) == w[i + 1];
        }
      }
      SpelledValue(s', w[1..]);
      FourBytes(s);
      assert LimbAt(s, 0) == w[0];
    }
  }

  lemma FourBytes(s: bytes)
    requires |s| >= 4
    ensures LittleEndian(s) == LimbAt(s, 0) + TWO32 * LittleEndian(s[4..])
  {
    var a, b, c := s[1..], s[2..], s[3..];
    assert a[1..] == b && b[1..] == c && c[1..] == s[4..];
    assert LittleEndian(s) == s[0] + 0x100 * LittleEndian(a);
    assert LittleEndian(a) == a[0] + 0x100 * LittleEndian(b);
    assert LittleEndian(b) == b[0] + 0x100 * LittleEndian(c);
    assert LittleEndian(c) == c[0] + 0x100 * LittleEndian(s[4..]);
  }

  method Load32(s: array<u8>, i: nat) returns (w: u32)
    requires 4 * i + 4 <= s.Length
    ensures w == LimbAt(s[..], i)
  {
    w := Join(s[4 * i], s[4 * i + 1], s[4 * i + 2], s[4 * i + 3]);
  }

  method Store32(s: array<u8>, i: nat, w: u32)
    requires 4 * i + 4 <= s.Length
    modifies s
    ensures LimbAt(s[..], i) == w
    ensures forall k :: 0 <= k < s.Length && !(4 * i <= k < 4 * i + 4) ==> s[k] == old(s[k])
  {
    JoinBytes(w);
    hide Join;
    s[4 * i] := w % 0x100;
    s[4 * i + 1] := w / 0x100 % 0x100;
    s[4 * i + 2] := w / 0x1_0000 % 0x100;
    s[4 * i + 3] := w / 0x100_0000 % 0x100;
  }

  lemma SpellsStored(s: bytes, t: bytes, w: seq<u32>, i: nat, x: u32)
    requires Spells(s, w) && i < |w| && |t| == |s| && 4 * i + 4 <= |t| && LimbAt(t, i) == x
    requires forall k :: 0 <= k < |s| && !(4 * i <= k < 4 * i + 4) ==> t[k] == s[k]
    ensures Spells(t, w[i := x])
  {
    forall j | 0 <= j < |w| ensures LimbAt(t, j) == w[i := x][j] {
      if j != i {
        assert LimbAt(s, j) == w[j];
      }
    }
  }
}
