/** The set of served ports: a bitmap with a count, a parser and a printer for it. */
module PortSet {
  import opened Words
  import opened Bits

  const BYTES: nat := 8192
  const MAX: nat := 65535

  // ---- the bitmap ----

  /** Bit p of the bitmap. */
  predicate Bit(bits: bytes, p: int)
    requires |bits| == BYTES
  {
    0 <= p <= MAX && BitOf(bits[p / 8], p % 8)
  }

  function Ports(bits: bytes): set<int>
    requires |bits| == BYTES
  {
    set p | 1 <= p <= MAX && Bit(bits, p)
  }

  lemma MaskFits(a: u8, k: nat)
    requires k < 8
    ensures Pow2(k) <= 128 && Or(a, Pow2(k)) < 0x100
  {
    assert Pow2(7) == 128 && Pow2(8) == 0x100;
    hide Or, Pow2;
    Pow2Monotone(k, 7);
    OrBound(a, Pow2(k), 8);
  }

  function Marked(bits: bytes, port: nat): bytes
    requires |bits| == BYTES && port <= MAX
  {
    MaskFits(bits[port / 8], port % 8);
    bits[port / 8 := Or(bits[port / 8], Pow2(port % 8))]
  }

  /** Setting one bit sets that bit and no other. */
  lemma MarkedBit(bits: bytes, port: nat, p: int)
    requires |bits| == BYTES && port <= MAX
    ensures Bit(Marked(bits, port), p) <==> p == port || Bit(bits, p)
  {
    hide Or, Pow2, BitOf;
    if 0 <= p <= MAX && p / 8 == port / 8 {
      OrBit(bits[p / 8], Pow2(port % 8), p % 8);
      MaskBit(port % 8, p % 8);
    }
  }

  lemma MarkedPorts(bits: bytes, port: nat)
    requires |bits| == BYTES && 1 <= port <= MAX
    ensures Ports(Marked(bits, port)) == Ports(bits) + {port}
    ensures Bit(Marked(bits, port), 0) <==> Bit(bits, 0)
  {
    var after := Marked(bits, port);
    hide Bit;
    MarkedBit(bits, port, 0);
    forall p ensures p in Ports(after) <==> p in Ports(bits) + {port} {
      MarkedBit(bits, port, p);
    }
  }

  predicate Inside(p: int, lo: int, hi: int) {
    lo <= p <= hi
  }

  function Span(lo: int, hi: int): set<int> {
    set p | lo <= p <= hi && Inside(p, lo, hi)
  }

  /** A set with one more port, unless that is port 0. */
  function With(s: set<int>, p: int): set<int> {
    s + (if p == 0 then {} else {p})
  }

  /** A set with all the ports of a range, except port 0. */
  function WithSpan(s: set<int>, lo: int, hi: int): set<int> {
    s + (Span(lo, hi) - {0})
  }

  lemma SpanStep(s: set<int>, lo: int, p: int)
    requires lo <= p
    ensures With(WithSpan(s, lo, p - 1), p) == WithSpan(s, lo, p)
  {
    forall q ensures q in Span(lo, p) <==> q in Span(lo, p - 1) || q == p {
      assert Inside(q, lo, p) <==> Inside(q, lo, p - 1) || q == p;
    }
  }

  lemma NoSpan(s: set<int>, lo: int)
    ensures WithSpan(s, lo, lo - 1) == s
  {
  }

  class Set {
    const bits: array<u8>
    var count: nat

    /** The count is the number of ports in the set, and port 0 is never one of them. */
    ghost predicate Valid()
      reads this, bits
    {
      bits.Length == BYTES && !Bit(bits[..], 0) && count == |Ports(bits[..])|
    }

    ghost function Members(): set<int>
      reads this, bits
      requires bits.Length == BYTES
    {
      Ports(bits[..])
    }

    constructor ()
      ensures Valid() && fresh(bits) && Members() == {}
    {
      bits := new u8[BYTES](_ => 0);
      count := 0;
      new;
      Cleared(bits[..]);
    }

    /** `tc_portset_clear` */
    method Clear()
      requires bits.Length == BYTES
      modifies this, bits
      ensures Valid() && Members() == {}
    {
      forall i | 0 <= i < BYTES {
        bits[i] := 0;
      }
      count := 0;
      Cleared(bits[..]);
    }

    /** `tc_portset_add` */
    method Add(port: u16)
      requires Valid()
      modifies this, bits
      ensures Valid() && Members() == With(old(Members()), port)
    {
      hide Bit, Or, And, Pow2, Ports;
      if port == 0 {
        return;
      }
      ghost var was := bits[..];
      var i, k := port / 8, port % 8;
      MaskFits(bits[i], k);
      MaskTest(was, port);
      MarkedPorts(was, port);
      if And(bits[i], Pow2(k)) == 0 {
        bits[i] := Or(bits[i], Pow2(k));
        count := count + 1;
        assert bits[..] == Marked(was, port);
      } else {
        assert Ports(was) + {port} == Ports(was);
      }
    }

    /** `tc_portset_has` */
    method Has(port: u16) returns (found: bool)
      requires Valid()
      ensures found <==> port in Members()
    {
      if port == 0 {
        return false;
      }
      MaskTest(bits[..], port);
      return And(bits[port / 8], Pow2(port % 8)) != 0;
    }

    /** `tc_portset_add_range` */
    method AddRange(a: u16, b: u16)
      requires Valid()
      modifies this, bits
      ensures Valid() && Members() == WithSpan(old(Members()), if a < b then a else b, if a < b then b else a)
    {
      hide With, WithSpan, Valid, Members;
      if a > b {
        AddSpan(b, a);
      } else {
        AddSpan(a, b);
      }
    }

    /** The loop of `tc_portset_add_range`. */
    method AddSpan(lo: u16, hi: u16)
      requires Valid() && lo <= hi
      modifies this, bits
      ensures Valid() && Members() == WithSpan(old(Members()), lo, hi)
    {
      assert bits.Length == BYTES;
      hide With, WithSpan, Valid, Members;
      NoSpan(Members(), lo);
      var p: nat := lo;
      while p <= hi
        invariant lo <= p <= hi as nat + 1 && Valid()
        invariant Members() == WithSpan(old(Members()), lo, p - 1)
      {
        SpanStep(old(Members()), lo, p);
        Add(p);
        p := p + 1;
      }
    }
  }

  lemma Cleared(bits: bytes)
    requires |bits| == BYTES && forall i :: 0 <= i < BYTES ==> bits[i] == 0
    ensures Ports(bits) == {} && !Bit(bits, 0)
  {
    hide BitOf;
    forall p | 0 <= p <= MAX ensures !Bit(bits, p) {
      NoBits(p % 8);
    }
  }

  lemma MaskTest(bits: bytes, port: nat)
    requires |bits| == BYTES && 1 <= port <= MAX
    ensures And(bits[port / 8], Pow2(port % 8)) != 0 <==> port in Ports(bits)
  {
    hide And, Pow2, BitOf;
    AndMask(bits[port / 8], port % 8);
  }
}
