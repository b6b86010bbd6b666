/** The bit-level view of the input (RFC 1951 section 3.1.1) and the
    `Reader` class of gunzip/deflate.cpp that walks it. */
module Bits {
  import opened Errors

  type Byte = bv8
  type Bit = b: int | 0 <= b <= 1

  function Pow2(n: nat): (r: nat)
    ensures r >= 1
  {
    if n == 0 then 1 else 2 * Pow2(n - 1)
  }

  /** Bit `k` of byte `b`, counting from the least significant bit. */
  function ByteBit(b: Byte, k: nat): Bit
    requires k < 8
  {
    if (b >> k) & 1 == 1 then 1 else 0
  }

  /** The bit at stream position `p`: the bytes in order, each one least
      significant bit first. */
  function BitAt(bytes: seq<Byte>, p: nat): (r: Bit)
    requires p < 8 * |bytes|
    ensures r == 1 <==> bytes[p / 8] & (1 << (p % 8)) != 0
  {
    ByteBit(bytes[p / 8], p % 8)
  }

  /** The `n` bits from position `p` read as a number whose least significant
      bit is the first one read: the sum of BitAt(p + i) * 2^i for i < n. */
  function BitsValue(bytes: seq<Byte>, p: nat, n: nat): nat
    requires p + n <= 8 * |bytes|
  {
    if n == 0 then 0 else BitsValue(bytes, p, n - 1) + (if BitAt(bytes, p + n - 1) == 1 then Pow2(n - 1) else 0)
  }

  /** The `n` bits from position `p`, in reading order. */
  function StreamBits(bytes: seq<Byte>, p: nat, n: nat): (r: seq<Bit>)
    requires p + n <= 8 * |bytes|
    ensures |r| == n
    decreases n
  {
    if n == 0 then [] else [BitAt(bytes, p)] + StreamBits(bytes, p + 1, n - 1)
  }

  lemma {:induction false} BitsValueBound(bytes: seq<Byte>, p: nat, n: nat)
    requires p + n <= 8 * |bytes|
    ensures BitsValue(bytes, p, n) < Pow2(n)
  {
    if n > 0 {
      BitsValueBound(bytes, p, n - 1);
    }
  }

  /** A bit times `m` is 0 or `m`. */
  lemma BitTimes(b: Bit, m: int)
    ensures b * m == if b == 1 then m else 0
  {
  }

  /** Reading `k` bits and then `n - k` more bits: the second group sits
      above the first. */
  lemma {:induction false} BitsValueSplit(bytes: seq<Byte>, p: nat, k: nat, n: nat)
    requires k <= n && p + n <= 8 * |bytes|
    ensures BitsValue(bytes, p, n) == BitsValue(bytes, p, k) + Pow2(k) * BitsValue(bytes, p + k, n - k)
    decreases n - k
  {
    if n > k {
      BitsValueSplit(bytes, p, k, n - 1);
      var lo: int, pk: int := BitsValue(bytes, p, k), Pow2(k);
      var hi: int, hi1: int := BitsValue(bytes, p + k, n - k), BitsValue(bytes, p + k, n - k - 1);
      var top: int := if BitAt(bytes, p + n - 1) == 1 then Pow2(n - 1) else 0;
      var topHi: int := if BitAt(bytes, p + n - 1) == 1 then Pow2(n - k - 1) else 0;
      assert p + k + (n - k) - 1 == p + n - 1;
      assert hi == hi1 + topHi;
      assert BitsValue(bytes, p, n) == BitsValue(bytes, p, n - 1) + top;
      Pow2Add(k, n - k - 1);
      assert k + (n - k - 1) == n - 1;
      Recombine2(BitsValue(bytes, p, n), BitsValue(bytes, p, n - 1), lo, pk, hi, hi1, top, topHi);
    }
  }

  lemma Recombine2(vn: int, vn1: int, lo: int, pk: int, hi: int, hi1: int, top: int, topHi: int)
    requires vn == vn1 + top && vn1 == lo + pk * hi1 && hi == hi1 + topHi && top == pk * topHi
    ensures vn == lo + pk * hi
  {
    MulAdd(pk, hi1, topHi);
  }

  lemma MulAdd(x: int, b: int, c: int)
    ensures x * (b + c) == x * b + x * c
  {
  }

  lemma Distribute(x: int, b: int, c: int, d: int)
    ensures x * (b + c * d) == x * b + c * (x * d)
  {
  }

  lemma {:induction false} Pow2Add(a: nat, b: nat)
    ensures Pow2(a + b) == Pow2(a) * Pow2(b)
  {
    if a > 0 {
      Pow2Add(a - 1, b);
    }
  }

  lemma MulAtLeast(m: nat, d: int)
    requires d >= 1
    ensures m * d >= m
  {
    var e: nat := d - 1;
    assert m * d == m * e + m;
  }

  /** Division has one answer: a quotient and a remainder in [0, m) fix `a / m`. */
  lemma DivModUnique(a: int, m: int, q: int, r: int)
    requires 0 < m && 0 <= r < m && a == m * q + r
    ensures a / m == q && a % m == r
  {
    var q0, r0 := a / m, a % m;
    assert a == m * q0 + r0;
    if q > q0 {
      assert m * (q - q0) == m * q - m * q0;
      MulAtLeast(m, q - q0);
    } else if q < q0 {
      assert m * (q0 - q) == m * q0 - m * q;
      MulAtLeast(m, q0 - q);
    }
  }

  lemma DivAbove(x: nat, m: nat, y: nat)
    requires 0 < m && x < m
    ensures (x + m * y) / m == y
  {
    DivModUnique(x + m * y, m, y, x);
  }

  /** Bit `k` of the value BitsValue(p, n) is the bit read (k+1)-th. */
  lemma BitsValueBit(bytes: seq<Byte>, p: nat, n: nat, k: nat)
    requires k < n && p + n <= 8 * |bytes|
    ensures (BitsValue(bytes, p, n) / Pow2(k)) % 2 == BitAt(bytes, p + k)
  {
    var lo: int, m: int, hi: int := BitsValue(bytes, p, k), Pow2(k), BitsValue(bytes, p + k, n - k);
    BitsValueSplit(bytes, p, k, n);
    assert BitsValue(bytes, p, n) == lo + m * hi;
    BitsValueBound(bytes, p, k);
    DivAbove(lo, m, hi);
    var bit: int, rest: int := BitAt(bytes, p + k), BitsValue(bytes, p + k + 1, n - k - 1);
    BitsValueHead(bytes, p + k, n - k);
    DivModUnique(hi, 2, rest, bit);
  }

  /** The first bit read is the lowest bit of the value. */
  lemma {:induction false} BitsValueHead(bytes: seq<Byte>, p: nat, n: nat)
    requires 0 < n && p + n <= 8 * |bytes|
    ensures BitsValue(bytes, p, n) == BitAt(bytes, p) + 2 * BitsValue(bytes, p + 1, n - 1)
    decreases n
  {
    if n == 1 {
      BitsValueOne(bytes, p);
    } else {
      BitsValueHead(bytes, p, n - 1);
      assert Pow2(n - 1) == 2 * Pow2(n - 2);
    }
  }

  lemma BitsValueOne(bytes: seq<Byte>, p: nat)
    requires p < 8 * |bytes|
    ensures BitsValue(bytes, p, 1) == BitAt(bytes, p)
  {
    assert BitsValue(bytes, p, 1) == BitsValue(bytes, p, 0) + (if BitAt(bytes, p) == 1 then Pow2(0) else 0);
  }

  /** The one-bit mask that selects bit `k` of a byte. */
  function Mask(k: nat): (m: Byte)
    requires k < 8
    ensures m != 0
  {
    1 << k
  }

  lemma MaskTest(b: Byte, k: nat)
    requires k < 8
    ensures (b & Mask(k) != 0) <==> ByteBit(b, k) == 1
  {
  }

  /** Among the eight masks only the one of bit 7 is 128. */
  lemma MaskTop(k: nat)
    requires k < 8
    ensures Mask(k) == 128 <==> k == 7
  {
  }

  lemma MaskShift(k: nat)
    requires k < 7
    ensures Mask(k) << 1 == Mask(k + 1)
  {
  }

  /** `Reader` (gunzip/deflate.cpp:9-45): a byte buffer and a cursor made of
      a byte index and a one-bit mask within that byte. */
  class Reader {
    const bytes: seq<Byte>
    var bytePos: nat
    var bitMask: Byte
    /** The index of the bit `bitMask` selects. */
    ghost var bitIndex: nat

    ghost predicate Valid()
      reads this
    {
      bitIndex < 8 && bitMask == Mask(bitIndex) && bytePos * 8 + bitIndex <= 8 * |bytes|
    }

    /** The number of bits consumed so far. */
    ghost function Pos(): nat
      reads this
    {
      bytePos * 8 + bitIndex
    }

    constructor (input: seq<Byte>)
      ensures Valid() && bytes == input && Pos() == 0
      ensures bytePos == 0 && bitMask == 1
    {
      bytes := input;
      bytePos := 0;
      bitMask := 1;
      bitIndex := 0;
    }

    /** `read_bit`: the bit under the cursor, then one step forward; the
        cursor is the byte index and mask both, so after eight bits the byte
        index has grown by one and the mask is back where it was. */
    method ReadBit() returns (r: Result<Bit>)
      requires Valid()
      modifies this
      ensures Valid()
      ensures old(Pos()) < 8 * |bytes| ==> r == Ok(BitAt(bytes, old(Pos()))) && Pos() == old(Pos()) + 1
      ensures old(Pos()) == 8 * |bytes| ==> r == Err(EndOfStream) && bytePos == old(bytePos) && bitMask == old(bitMask)
    {
      if bytePos >= |bytes| {
        return Err(EndOfStream);
      }
      DivModUnique(Pos(), 8, bytePos, bitIndex);
      MaskTest(bytes[bytePos], bitIndex);
      MaskTop(bitIndex);
      var bit: Bit := if bytes[bytePos] & bitMask != 0 then 1 else 0;
      if bitMask == 128 {
        bitMask := 1;
        bytePos := bytePos + 1;
        bitIndex := 0;
      } else {
        MaskShift(bitIndex);
        bitMask := bitMask << 1;
        bitIndex := bitIndex + 1;
      }
      r := Ok(bit);
    }

    /** `read_bits_inv`: `count` bits, the first one read as bit 0. The C++
        ors bit `i` in at its place; since the value so far is below `2^i`,
        that is the addition written here. */
    method ReadBitsInv(count: nat) returns (r: Result<nat>)
      requires Valid()
      modifies this
      ensures Valid()
      ensures old(Pos()) + count <= 8 * |bytes| ==> r == Ok(BitsValue(bytes, old(Pos()), count)) && Pos() == old(Pos()) + count
      ensures old(Pos()) + count > 8 * |bytes| ==> r == Err(EndOfStream)
    {
      var value := 0;
      var i := 0;
      while i < count
        invariant Valid() && 0 <= i <= count
        invariant Pos() == old(Pos()) + i
        invariant value == BitsValue(bytes, old(Pos()), i)
      {
        var bit := ReadBit();
        if bit.Err? {
          return Err(EndOfStream);
        }
        BitTimes(bit.value, Pow2(i));
        value := value + bit.value * Pow2(i);
        i := i + 1;
      }
      r := Ok(value);
    }

    /** `is_eof`: the cursor is on the last byte with the mask at its top
        bit, i.e. exactly one bit is left. */
    method IsEof() returns (eof: bool)
      requires Valid()
      ensures eof <==> Pos() + 1 == 8 * |bytes|
    {
      MaskTop(bitIndex);
      eof := |bytes| > 0 && bytePos == |bytes| - 1 && bitMask == 128;
    }
  }
}
