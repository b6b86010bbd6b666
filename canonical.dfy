/** Why the trie `build_huffman_tree` makes decodes every code it holds:
    when the code lengths satisfy Kraft's inequality (as the lengths of any
    Huffman code do), the canonical codes of RFC 1951 section 3.2.2 fit in
    their lengths, are consecutive within a length, and no code is a prefix
    of another. */
module Canonical {
  import opened Errors
  import opened Bits
  import opened Huffman
  import opened Trie

  /** `Used(b)` is the number of the `2^b` bit strings of length `b` that
      the codes of length at most `b` occupy: `sum_{j=1..b} count(j) * 2^(b-j)`. */
  ghost function Used(lengths: seq<nat>, b: nat): nat
  {
    if b == 0 then 0 else 2 * Used(lengths, b - 1) + Count(lengths, b)
  }

  /** Kraft's inequality `sum 2^-len <= 1` over the symbols that have a code,
      scaled by `2^15`. */
  ghost predicate Kraft(lengths: seq<nat>)
  {
    (forall i :: 0 <= i < |lengths| ==> lengths[i] <= MaxBits) &&
    Used(lengths, MaxBits) <= Pow2(MaxBits)
  }

  // ----- arithmetic -----

  lemma MulLe(a: nat, b: nat, c: nat)
    requires b <= c
    ensures a * b <= a * c
  {
    var e: nat := c - b;
    assert a * c == a * b + a * e;
  }

  lemma MulCancelLe(u: nat, v: nat, k: nat)
    requires k > 0 && u * k <= v * k
    ensures u <= v
  {
    if u > v {
      var e: nat := u - v;
      assert u * k == v * k + e * k;
      MulAtLeast(e, k);
    }
  }

  lemma DivDiv(y: nat, d: nat, k: nat)
    ensures y / Pow2(d) / Pow2(k) == y / Pow2(d + k)
  {
    var p, q := Pow2(d), Pow2(k);
    Pow2Add(d, k);
    var q1, r1 := y / p, y % p;
    DivMod(y, p);
    var q2, r2 := q1 / q, q1 % q;
    DivMod(q1, q);
    Recombine(p, q, q1, q2, r1, r2);
    InnerBound(p, q, r1, r2);
    var m := p * q;
    assert y == m * q2 + (p * r2 + r1);
    DivModUnique(y, m, q2, p * r2 + r1);
  }

  lemma DivMod(a: int, m: int)
    requires m > 0
    ensures a == m * (a / m) + a % m && 0 <= a % m < m
  {
  }

  lemma Recombine(p: int, q: int, q1: int, q2: int, r1: int, r2: int)
    requires q1 == q * q2 + r2
    ensures p * q1 + r1 == (p * q) * q2 + (p * r2 + r1)
  {
    Distribute(p, r2, q, q2);
    Rotate(p, q, q2);
  }

  lemma InnerBound(p: nat, q: nat, r1: nat, r2: nat)
    requires r1 < p && r2 < q
    ensures p * r2 + r1 < p * q
  {
    MulLe(p, r2, q - 1);
    assert p * (q - 1) == p * q - p;
  }

  /** A number below `m * k` has a quotient by `k` below `m`. */
  lemma DivBelow(y: nat, m: nat, k: nat)
    requires k > 0 && y < m * k
    ensures y / k < m
  {
    var q, r := y / k, y % k;
    assert y == k * q + r;
    if q >= m {
      MulLe(k, m, q);
      assert false;
    }
  }

  /** A number at least `m * k` has a quotient by `k` of at least `m`. */
  lemma DivAtLeast(y: nat, m: nat, k: nat)
    requires k > 0 && y >= m * k
    ensures y / k >= m
  {
    var q, r := y / k, y % k;
    assert y == k * q + r;
    assert k * (q + 1) == k * q + k;
    if q < m {
      MulLe(k, q + 1, m);
      assert false;
    }
  }

  // ----- code bits -----

  /** `y` shifted right by `d` bits. */
  function Shr(y: nat, d: nat): nat
  {
    var p := Pow2(d);
    DivNat(y, p);
    y / p
  }

  lemma DivNat(y: nat, k: int)
    requires k > 0
    ensures y / k >= 0
  {
  }

  /** The first `a` of the `c` bits of `y` are the `a` bits of `y >> (c - a)`. */
  lemma CodeBitsPrefix(y: nat, c: nat, a: nat)
    requires a <= c
    ensures CodeBits(y, c)[..a] == CodeBits(Shr(y, c - a), a)
  {
    var u, w := CodeBits(y, c), CodeBits(Shr(y, c - a), a);
    forall i | 0 <= i < a
      ensures u[i] == w[i]
    {
      CodeBitsPrefixAt(y, c, a, i);
    }
    assert u[..a] == w;
  }

  lemma CodeBitsPrefixAt(y: nat, c: nat, a: nat, i: nat)
    requires i < a <= c
    ensures CodeBits(y, c)[i] == CodeBits(Shr(y, c - a), a)[i]
  {
    CodeBitsAt(y, c, i);
    CodeBitsAt(Shr(y, c - a), a, i);
    DivDiv(y, c - a, a - 1 - i);
    assert c - a + (a - 1 - i) == c - 1 - i;
  }

  /** Two numbers below `2^a` with the same `a` bits are equal. */
  lemma {:induction false} CodeBitsInjective(x: nat, y: nat, a: nat)
    requires x < Pow2(a) && y < Pow2(a) && CodeBits(x, a) == CodeBits(y, a)
    ensures x == y
    decreases a
  {
    if a > 0 {
      var h := Pow2(a - 1);
      TopBit(x, a);
      TopBit(y, a);
      assert CodeBits(x, a)[0] == CodeBit(x, a - 1);
      assert CodeBits(x, a)[1..] == CodeBits(x, a - 1);
      assert CodeBits(y, a)[1..] == CodeBits(y, a - 1);
      CodeBitsLow(x % h, x / h, a - 1);
      CodeBitsLow(y % h, y / h, a - 1);
      CodeBitsInjective(x % h, y % h, a - 1);
    }
  }

  /** Below `2^a`, bit `a - 1` is the quotient by `2^(a-1)`. */
  lemma TopBit(x: nat, a: nat)
    requires a > 0 && x < Pow2(a)
    ensures x / Pow2(a - 1) == CodeBit(x, a - 1)
    ensures x == x % Pow2(a - 1) + (x / Pow2(a - 1)) * Pow2(a - 1)
    ensures x % Pow2(a - 1) < Pow2(a - 1)
  {
    var h := Pow2(a - 1);
    if x < h {
      DivModUnique(x, h, 0, x);
    } else {
      DivModUnique(x, h, 1, x - h);
    }
    DivModUnique(x / h, 2, 0, x / h);
  }

  // ----- counting -----

  lemma {:induction false} CountBeforeAll(lengths: seq<nat>, n: nat, b: nat)
    requires n <= |lengths|
    ensures CountBefore(lengths, n, b) == Count(lengths[..n], b)
    decreases n
  {
    if n > 0 {
      CountBeforeAll(lengths, n - 1, b);
      assert lengths[..n][..n - 1] == lengths[..n - 1];
    }
  }

  lemma {:induction false} CountBeforeMono(lengths: seq<nat>, m: nat, n: nat, b: nat)
    requires m <= n <= |lengths|
    ensures CountBefore(lengths, m, b) <= CountBefore(lengths, n, b)
    decreases n
  {
    if m < n {
      CountBeforeMono(lengths, m, n - 1, b);
    }
  }

  /** No symbol of length `b` lies in `[m, n)`. */
  lemma {:induction false} CountBeforeGap(lengths: seq<nat>, m: nat, n: nat, b: nat)
    requires m <= n <= |lengths|
    requires forall u :: m <= u < n ==> lengths[u] != b
    ensures CountBefore(lengths, m, b) == CountBefore(lengths, n, b)
    decreases n
  {
    if m < n {
      CountBeforeGap(lengths, m, n - 1, b);
    }
  }

  // ----- the canonical code -----

  /** The first code of length `b` follows all the codes up to length `b - 1`. */
  lemma {:induction false} NextCodeUsed(lengths: seq<nat>, b: nat)
    requires b >= 1
    ensures NextCode(lengths, b) == 2 * Used(lengths, b - 1)
    decreases b
  {
    if b > 1 {
      NextCodeUsed(lengths, b - 1);
    }
  }

  lemma {:induction false} UsedGrows(lengths: seq<nat>, a: nat, b: nat)
    requires a <= b
    ensures Used(lengths, a) * Pow2(b - a) <= Used(lengths, b)
    decreases b
  {
    if a < b {
      UsedGrows(lengths, a, b - 1);
      Rotate(Used(lengths, a), 2, Pow2(b - 1 - a));
    }
  }

  /** Under Kraft's inequality the codes up to length `a` fit in `a` bits. */
  lemma UsedBound(lengths: seq<nat>, a: nat)
    requires Kraft(lengths) && a <= MaxBits
    ensures Used(lengths, a) <= Pow2(a)
  {
    UsedGrows(lengths, a, MaxBits);
    Pow2Add(a, MaxBits - a);
    MulCancelLe(Used(lengths, a), Pow2(a), Pow2(MaxBits - a));
  }

  /** Symbol `s`'s code lies between the first code of its length and the
      end of the codes of that length. */
  lemma CodeRange(lengths: seq<nat>, s: nat)
    requires s < |lengths| && lengths[s] > 0
    ensures NextCode(lengths, lengths[s]) <= RfcCode(lengths, s) < Used(lengths, lengths[s])
  {
    var a := lengths[s];
    CountBeforeMono(lengths, s + 1, |lengths|, a);
    CountBeforeAll(lengths, |lengths|, a);
    assert lengths[..|lengths|] == lengths;
    NextCodeUsed(lengths, a);
  }

  /** Under Kraft's inequality every code fits in its length. */
  lemma CodeFits(lengths: seq<nat>, s: nat)
    requires Kraft(lengths) && s < |lengths| && lengths[s] > 0
    ensures RfcCode(lengths, s) < Pow2(lengths[s])
  {
    CodeRange(lengths, s);
    UsedBound(lengths, lengths[s]);
  }

  /** Codes of one length ascend with the symbol. */
  lemma CodesAscend(lengths: seq<nat>, s: nat, t: nat)
    requires s < t < |lengths| && lengths[s] == lengths[t] > 0
    ensures RfcCode(lengths, s) < RfcCode(lengths, t)
  {
    CountBeforeMono(lengths, s + 1, t, lengths[s]);
  }

  /** The next symbol of the same length gets the next code. */
  lemma CodesConsecutive(lengths: seq<nat>, s: nat, t: nat)
    requires s < t < |lengths| && lengths[s] == lengths[t] > 0
    requires forall u :: s < u < t ==> lengths[u] != lengths[s]
    ensures RfcCode(lengths, t) == RfcCode(lengths, s) + 1
  {
    CountBeforeGap(lengths, s + 1, t, lengths[s]);
  }

  /** A longer code, cut to a shorter length, lies past all codes of that
      shorter length. */
  lemma LongerCodesAbove(lengths: seq<nat>, s: nat, t: nat)
    requires s < |lengths| && t < |lengths| && 0 < lengths[s] < lengths[t]
    ensures Shr(RfcCode(lengths, t), lengths[t] - lengths[s]) >= Used(lengths, lengths[s])
  {
    var a, c := lengths[s], lengths[t];
    CodeRange(lengths, t);
    NextCodeUsed(lengths, c);
    UsedGrows(lengths, a, c - 1);
    var u := Used(lengths, a);
    Pow2Add(1, c - 1 - a);
    Rotate(u, 2, Pow2(c - 1 - a));
    DivAtLeast(RfcCode(lengths, t), u, Pow2(c - a));
  }

  lemma PrefixPair(lengths: seq<nat>, s: nat, t: nat)
    requires Kraft(lengths) && s < |lengths| && t < |lengths| && s != t
    requires lengths[s] > 0 && lengths[t] > 0
    ensures !IsPrefix(CanonicalBits(lengths, s), CanonicalBits(lengths, t))
  {
    var a, c := lengths[s], lengths[t];
    if a <= c && IsPrefix(CanonicalBits(lengths, s), CanonicalBits(lengths, t)) {
      CodeFits(lengths, s);
      CodeFits(lengths, t);
      PrefixCode(lengths, s, t);
      if a == c {
        SameLengthDistinct(lengths, s, t);
      } else {
        CodeRange(lengths, s);
        LongerCodesAbove(lengths, s, t);
      }
    }
  }

  /** Two symbols of the same length have different codes. */
  lemma SameLengthDistinct(lengths: seq<nat>, s: nat, t: nat)
    requires s < |lengths| && t < |lengths| && s != t && lengths[s] == lengths[t] > 0
    ensures Shr(RfcCode(lengths, t), 0) != RfcCode(lengths, s)
  {
    assert Pow2(0) == 1;
    if s < t {
      CodesAscend(lengths, s, t);
    } else {
      CodesAscend(lengths, t, s);
    }
  }

  /** When one code's bits begin another's, the longer code cut to the
      shorter length is the shorter code. */
  lemma PrefixCode(lengths: seq<nat>, s: nat, t: nat)
    requires s < |lengths| && t < |lengths| && 0 < lengths[s] <= lengths[t]
    requires RfcCode(lengths, s) < Pow2(lengths[s]) && RfcCode(lengths, t) < Pow2(lengths[t])
    requires IsPrefix(CanonicalBits(lengths, s), CanonicalBits(lengths, t))
    ensures Shr(RfcCode(lengths, t), lengths[t] - lengths[s]) == RfcCode(lengths, s)
  {
    PrefixShr(RfcCode(lengths, s), lengths[s], RfcCode(lengths, t), lengths[t]);
  }

  /** A `c`-bit code whose first `a` bits are the `a`-bit code `x` is `x`
      followed by `c - a` more bits. */
  lemma PrefixShr(x: nat, a: nat, y: nat, c: nat)
    requires a <= c && x < Pow2(a) && y < Pow2(c)
    requires IsPrefix(CodeBits(x, a), CodeBits(y, c))
    ensures Shr(y, c - a) == x
  {
    CodeBitsPrefix(y, c, a);
    ShrBelow(y, a, c);
    CodeBitsInjective(Shr(y, c - a), x, a);
  }

  lemma ShrBelow(y: nat, a: nat, c: nat)
    requires a <= c && y < Pow2(c)
    ensures Shr(y, c - a) < Pow2(a)
  {
    var d := c - a;
    var pa: int, pd: int := Pow2(a), Pow2(d);
    Pow2Add(a, d);
    assert y < pa * pd;
    DivBelow(y, pa, pd);
  }

  /** Under Kraft's inequality no canonical code is a prefix of another. */
  lemma CanonicalPrefixFree(lengths: seq<nat>)
    requires Kraft(lengths)
    ensures PrefixFree(CanonicalTable(lengths))
  {
    var table := CanonicalTable(lengths);
    forall s, t | 0 <= s < |table| && 0 <= t < |table| && s != t && table[s].len > 0 && table[t].len > 0
      ensures !IsPrefix(TableBits(table, s), TableBits(table, t))
    {
      PrefixPair(lengths, s, t);
    }
  }

  /** The build/decode round trip: in the trie of a list of lengths that
      satisfies Kraft's inequality, the bits of symbol `s`'s code decode to
      `s` and consume exactly `len(s)` bits. */
  lemma CanonicalRoundTrip(arena: seq<Node>, lengths: seq<nat>, bytes: seq<Byte>, pos: nat, s: nat)
    requires TrieOf(arena, CanonicalTable(lengths)) && Kraft(lengths)
    requires s < |lengths| && lengths[s] > 0 && pos + lengths[s] <= 8 * |bytes|
    requires StreamBits(bytes, pos, lengths[s]) == CanonicalBits(lengths, s)
    ensures Walk(arena, 0, bytes, pos) == Ok((s, pos + lengths[s]))
  {
    CanonicalPrefixFree(lengths);
    DecodeCanonical(arena, lengths, bytes, pos, s);
  }

  /** The round trip once the canonical codes are known to be prefix-free. */
  lemma DecodeCanonical(arena: seq<Node>, lengths: seq<nat>, bytes: seq<Byte>, pos: nat, s: nat)
    requires TrieOf(arena, CanonicalTable(lengths)) && PrefixFree(CanonicalTable(lengths))
    requires s < |lengths| && lengths[s] > 0 && pos + lengths[s] <= 8 * |bytes|
    requires StreamBits(bytes, pos, lengths[s]) == CanonicalBits(lengths, s)
    ensures Walk(arena, 0, bytes, pos) == Ok((s, pos + lengths[s]))
  {
    var table := CanonicalTable(lengths);
    CanonicalEntry(lengths, s);
    DecodeComplete(arena, table, bytes, pos, s);
    assert pos + table[s].len == pos + lengths[s];
  }

  /** Symbol `s`'s entry of the RFC 1951 table: its length and its code. */
  lemma CanonicalEntry(lengths: seq<nat>, s: nat)
    requires s < |lengths| && lengths[s] > 0
    ensures CanonicalTable(lengths)[s].len == lengths[s]
    ensures TableBits(CanonicalTable(lengths), s) == CanonicalBits(lengths, s)
  {
    assert CanonicalTable(lengths)[s] == CodeEntry(lengths[s], RfcCode(lengths, s));
  }
}
