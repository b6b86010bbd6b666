/** Canonical Huffman codes (RFC 1951 section 3.2.2) as gunzip/deflate.cpp
    builds and decodes them: a run-length list of code lengths, a code table,
    and a binary trie kept in an arena of nodes with the root at index 0. */
module Huffman {
  import opened Errors
  import opened Bits

  /** The longest code length any caller passes (code-length symbols 0..15). */
  const MaxBits := 15

  /** `HuffmanRange`: the symbols after the previous range's `end` up to and
      including this `end` all have code length `bitLength`. */
  datatype Range = Range(end: int, bitLength: int)

  /** `TreeNode`: the length and the code assigned to one symbol. */
  datatype CodeEntry = CodeEntry(len: nat, code: nat)

  /** `HuffmanNode` in the arena: `code` is a symbol, or -1 for an internal
      node; `zero` and `one` are node indices, or -1 for a null child. */
  datatype Node = Node(code: int, zero: int, one: int)

  const Internal := -1
  const Null := -1

  /** Range lists as every caller builds them: ends strictly increasing from
      a first end of at least 0, lengths between 0 and 15. */
  ghost predicate ValidRanges(ranges: seq<Range>)
  {
    (forall k :: 0 <= k < |ranges| ==> 0 <= ranges[k].bitLength <= MaxBits) &&
    (|ranges| > 0 ==> ranges[0].end >= 0) &&
    (forall k :: 0 < k < |ranges| ==> ranges[k - 1].end < ranges[k].end)
  }

  function RangeStart(ranges: seq<Range>, k: nat): int
    requires k < |ranges|
  {
    if k == 0 then -1 else ranges[k - 1].end
  }

  function Repeat(v: nat, n: nat): (r: seq<nat>)
    ensures |r| == n && forall i :: 0 <= i < n ==> r[i] == v
  {
    seq(n, _ => v)
  }

  /** The code length of every symbol, as the range list describes them. */
  ghost function Expand(ranges: seq<Range>): (lengths: seq<nat>)
    requires ValidRanges(ranges)
    ensures |lengths| == if ranges == [] then 0 else ranges[|ranges| - 1].end + 1
    ensures forall i :: 0 <= i < |lengths| ==> lengths[i] <= MaxBits
    decreases |ranges|
  {
    if ranges == [] then []
    else
      var k := |ranges| - 1;
      assert ValidRanges(ranges[..k]);
      Expand(ranges[..k]) + Repeat(ranges[k].bitLength, ranges[k].end - RangeStart(ranges, k))
  }

  lemma {:induction false} ExpandAt(ranges: seq<Range>, k: nat, n: int)
    requires ValidRanges(ranges) && k < |ranges|
    requires RangeStart(ranges, k) < n <= ranges[k].end
    ensures 0 <= n < |Expand(ranges)| && Expand(ranges)[n] == ranges[k].bitLength
    decreases |ranges|
  {
    var last := |ranges| - 1;
    assert ValidRanges(ranges[..last]);
    var init := Expand(ranges[..last]);
    var tail := Repeat(ranges[last].bitLength, ranges[last].end - RangeStart(ranges, last));
    assert Expand(ranges) == init + tail;
    assert |init| == RangeStart(ranges, last) + 1;
    if k < last {
      ExpandAt(ranges[..last], k, n);
      assert Expand(ranges)[n] == init[n];
    } else {
      assert Expand(ranges)[n] == tail[n - |init|];
    }
  }

  /** How many of `lengths` are equal to `b`. */
  function Count(lengths: seq<nat>, b: nat): nat
    decreases |lengths|
  {
    if lengths == [] then 0
    else Count(lengths[..|lengths| - 1], b) + (if lengths[|lengths| - 1] == b then 1 else 0)
  }

  lemma {:induction false} CountConcat(x: seq<nat>, y: seq<nat>, b: nat)
    ensures Count(x + y, b) == Count(x, b) + Count(y, b)
    decreases |y|
  {
    if y != [] {
      assert (x + y)[..|x + y| - 1] == x + y[..|y| - 1];
      CountConcat(x, y[..|y| - 1], b);
    } else {
      assert x + y == x;
    }
  }

  lemma {:induction false} CountRepeat(v: nat, n: nat, b: nat)
    ensures Count(Repeat(v, n), b) == if v == b then n else 0
  {
    if n > 0 {
      assert Repeat(v, n)[..n - 1] == Repeat(v, n - 1);
      CountRepeat(v, n - 1, b);
    }
  }

  /** How many of the first `n` of `lengths` are equal to `b`. */
  function CountBefore(lengths: seq<nat>, n: nat, b: nat): nat
    requires n <= |lengths|
  {
    if n == 0 then 0 else CountBefore(lengths, n - 1, b) + (if lengths[n - 1] == b then 1 else 0)
  }

  lemma {:induction false} CountPositive(lengths: seq<nat>, s: nat)
    requires s < |lengths|
    ensures Count(lengths, lengths[s]) > 0
    decreases |lengths|
  {
    if s < |lengths| - 1 {
      CountPositive(lengths[..|lengths| - 1], s);
    }
  }

  lemma {:induction false} ExpandSnoc(ranges: seq<Range>, n: nat)
    requires ValidRanges(ranges) && n < |ranges|
    ensures ValidRanges(ranges[..n]) && ValidRanges(ranges[..n + 1])
    ensures Expand(ranges[..n + 1]) ==
      Expand(ranges[..n]) + Repeat(ranges[n].bitLength, ranges[n].end - RangeStart(ranges, n))
  {
    assert ValidRanges(ranges[..n + 1]);
    assert ranges[..n + 1][..n] == ranges[..n];
  }

  /** RFC 1951 section 3.2.2, step 2: the first code of each length, with
      the count of length-0 symbols taken as 0. */
  ghost function NextCode(lengths: seq<nat>, bits: nat): nat
  {
    if bits == 0 then 0
    else 2 * (NextCode(lengths, bits - 1) + (if bits == 1 then 0 else Count(lengths, bits - 1)))
  }

  /** RFC 1951 section 3.2.2, step 3: symbol `s` gets the first code of its
      length plus the number of earlier symbols of that length. */
  ghost function RfcCode(lengths: seq<nat>, s: nat): nat
    requires s < |lengths|
  {
    NextCode(lengths, lengths[s]) + CountBefore(lengths, s, lengths[s])
  }

  /** The first code of length `bits` as gunzip/deflate.cpp:114-119 computes
      it: `bl_count[0]` takes part in the sum, which adds it at every doubling. */
  ghost function SourceFirstCode(lengths: seq<nat>, bits: nat): nat
  {
    NextCode(lengths, bits) + Count(lengths, 0) * Pow2(bits)
  }

  /** The code gunzip/deflate.cpp:131 stores for symbol `s`. */
  ghost function SourceCode(lengths: seq<nat>, s: nat): nat
    requires s < |lengths|
  {
    RfcCode(lengths, s) + Count(lengths, 0) * Pow2(lengths[s])
  }

  /** The entry gunzip/deflate.cpp:127-133 leaves for symbol `s`. */
  ghost function Entry(lengths: seq<nat>, s: nat): CodeEntry
    requires s < |lengths|
  {
    if lengths[s] == 0 then CodeEntry(0, 0) else CodeEntry(lengths[s], SourceCode(lengths, s))
  }

  /** The table gunzip/deflate.cpp:122-135 fills. */
  ghost function SourceTable(lengths: seq<nat>): (table: seq<CodeEntry>)
    ensures |table| == |lengths|
  {
    seq(|lengths|, s requires 0 <= s < |lengths| => Entry(lengths, s))
  }

  lemma FirstCodeStep(lengths: seq<nat>, bits: nat, code: nat)
    requires bits >= 1
    requires code == if bits == 1 then 0 else SourceFirstCode(lengths, bits - 1)
    ensures (code + Count(lengths, bits - 1)) * 2 == SourceFirstCode(lengths, bits)
  {
    var c0 := Count(lengths, 0);
    if bits > 1 {
      var p := Pow2(bits - 1);
      var nc := NextCode(lengths, bits - 1);
      var cb := Count(lengths, bits - 1);
      assert NextCode(lengths, bits) == 2 * (nc + cb);
      assert Pow2(bits) == 2 * p;
      assert c0 * Pow2(bits) == 2 * (c0 * p);
      assert (nc + c0 * p + cb) * 2 == 2 * (nc + cb) + 2 * (c0 * p);
    } else {
      assert Pow2(1) == 2;
      assert NextCode(lengths, 1) == 0;
    }
  }

  /** Bit `k` of a code, counting from the least significant bit. */
  function CodeBit(code: nat, k: nat): Bit
  {
    (code / Pow2(k)) % 2
  }

  /** The low `len` bits of `code`, most significant first: the order in
      which gunzip/deflate.cpp:143-155 inserts them and the stream holds them. */
  function CodeBits(code: nat, len: nat): (r: seq<Bit>)
    ensures |r| == len
    decreases len
  {
    if len == 0 then [] else [CodeBit(code, len - 1)] + CodeBits(code, len - 1)
  }

  /** Adding a multiple of `2^len` leaves the bits below `len` alone. */
  lemma CodeBitLow(c: nat, m: nat, len: nat, k: nat)
    requires k < len
    ensures CodeBit(c + m * Pow2(len), k) == CodeBit(c, k)
  {
    var d, j := Pow2(k), len - k;
    var e := m * Pow2(j);
    assert m * Pow2(len) == d * e by { Pow2Add(k, j); Rotate(m, d, Pow2(j)); }
    var q := c / d;
    assert (c + d * e) / d == q + e by { QuotientShift(c, d, e); }
    var h := m * Pow2(j - 1);
    assert e == 2 * h by { Pow2Add(1, j - 1); Rotate(m, 2, Pow2(j - 1)); }
    DivModUnique(q + 2 * h, 2, q / 2 + h, q % 2);
    DivModUnique(q, 2, q / 2, q % 2);
  }

  lemma Rotate(a: int, b: int, c: int)
    ensures a * (b * c) == b * (a * c)
  {
  }

  lemma QuotientShift(c: nat, d: nat, e: nat)
    requires d > 0
    ensures (c + d * e) / d == c / d + e
  {
    var q, r := c / d, c % d;
    assert c + d * e == d * (q + e) + r;
    DivModUnique(c + d * e, d, q + e, r);
  }

  /** Only the low `len` bits of a code are inserted, so adding a multiple
      of `2^len` changes nothing. */
  lemma {:induction false} CodeBitsLow(c: nat, m: nat, len: nat)
    ensures CodeBits(c + m * Pow2(len), len) == CodeBits(c, len)
    decreases len
  {
    if len > 0 {
      CodeBitLow(c, m, len, len - 1);
      CodeBitTail(m, len);
      CodeBitsLow(c, m * 2, len - 1);
    }
  }

  lemma CodeBitTail(m: nat, len: nat)
    requires len > 0
    ensures m * Pow2(len) == (m * 2) * Pow2(len - 1)
  {
    Pow2Add(1, len - 1);
    Rotate(m, 2, Pow2(len - 1));
  }

  /** The code stored for a symbol agrees with the RFC 1951 code modulo
      `2^len`, and has the same bits. */
  lemma SourceCodeAgrees(lengths: seq<nat>, s: nat)
    requires s < |lengths|
    ensures SourceCode(lengths, s) % Pow2(lengths[s]) == RfcCode(lengths, s) % Pow2(lengths[s])
    ensures CodeBits(SourceCode(lengths, s), lengths[s]) == CanonicalBits(lengths, s)
  {
    var m, c := Pow2(lengths[s]), RfcCode(lengths, s);
    DivModUnique(c, m, c / m, c % m);
    DivModUnique(c + Count(lengths, 0) * m, m, c / m + Count(lengths, 0), c % m);
    CodeBitsLow(c, Count(lengths, 0), lengths[s]);
  }

  /** The RFC code of symbol `s` as a bit string. */
  ghost function CanonicalBits(lengths: seq<nat>, s: nat): seq<Bit>
    requires s < |lengths|
  {
    CodeBits(RfcCode(lengths, s), lengths[s])
  }

  /** Step 1 of `build_huffman_tree` (gunzip/deflate.cpp:97-111): the
      longest length and `bl_count`, the number of symbols of each length,
      length 0 included. */
  method CountLengths(ranges: seq<Range>) returns (maxLen: nat, blCount: seq<nat>)
    requires ValidRanges(ranges)
    ensures maxLen <= MaxBits && |blCount| == maxLen + 1
    ensures forall i :: 0 <= i < |Expand(ranges)| ==> Expand(ranges)[i] <= maxLen
    ensures forall b :: 0 <= b <= maxLen ==> blCount[b] == Count(Expand(ranges), b)
    ensures maxLen == 0 || exists k :: 0 <= k < |ranges| && ranges[k].bitLength == maxLen
  {
    maxLen := 0;
    for n := 0 to |ranges|
      invariant 0 <= maxLen <= MaxBits
      invariant forall k :: 0 <= k < n ==> ranges[k].bitLength <= maxLen
      invariant maxLen == 0 || exists k :: 0 <= k < n && ranges[k].bitLength == maxLen
    {
      if ranges[n].bitLength > maxLen {
        maxLen := ranges[n].bitLength;
      }
    }
    LengthsBelow(ranges, maxLen);
    blCount := CountSymbols(ranges, maxLen);
  }

  /** The `bl_count` loop of gunzip/deflate.cpp:108-111: range `n` adds its
      width to the count of its length. */
  method CountSymbols(ranges: seq<Range>, maxLen: nat) returns (blCount: seq<nat>)
    requires ValidRanges(ranges) && forall k :: 0 <= k < |ranges| ==> ranges[k].bitLength <= maxLen
    ensures |blCount| == maxLen + 1
    ensures forall b :: 0 <= b <= maxLen ==> blCount[b] == Count(Expand(ranges), b)
  {
    blCount := seq(maxLen + 1, _ => 0);
    for n := 0 to |ranges|
      invariant |blCount| == maxLen + 1
      invariant ValidRanges(ranges[..n])
      invariant forall b :: 0 <= b <= maxLen ==> blCount[b] == Count(Expand(ranges[..n]), b)
    {
      var prev := RangeStart(ranges, n);
      CountStep(ranges, n, maxLen, blCount);
      blCount := blCount[ranges[n].bitLength := blCount[ranges[n].bitLength] + ranges[n].end - prev];
    }
    assert ranges[..|ranges|] == ranges;
  }

  /** A bound on the lengths of the ranges bounds every expanded length. */
  lemma LengthsBelow(ranges: seq<Range>, maxLen: nat)
    requires ValidRanges(ranges) && forall k :: 0 <= k < |ranges| ==> ranges[k].bitLength <= maxLen
    ensures forall i :: 0 <= i < |Expand(ranges)| ==> Expand(ranges)[i] <= maxLen
  {
    forall i | 0 <= i < |Expand(ranges)| ensures Expand(ranges)[i] <= maxLen {
      var k := RangeOf(ranges, i);
      ExpandAt(ranges, k, i);
    }
  }

  /** Adding range `n`'s symbols to `bl_count` counts the first `n + 1`
      ranges. */
  lemma CountStep(ranges: seq<Range>, n: nat, maxLen: nat, blCount: seq<nat>)
    requires ValidRanges(ranges) && n < |ranges| && ranges[n].bitLength <= maxLen && |blCount| == maxLen + 1
    requires forall b :: 0 <= b <= maxLen ==> blCount[b] == Count(Expand(ranges[..n]), b)
    ensures ValidRanges(ranges[..n + 1]) && ranges[n].end - RangeStart(ranges, n) > 0
    ensures var len := ranges[n].bitLength;
      var next := blCount[len := blCount[len] + ranges[n].end - RangeStart(ranges, n)];
      forall b :: 0 <= b <= maxLen ==> next[b] == Count(Expand(ranges[..n + 1]), b)
  {
    var width := ranges[n].end - RangeStart(ranges, n);
    ExpandSnoc(ranges, n);
    forall b | 0 <= b <= maxLen
      ensures Count(Expand(ranges[..n + 1]), b) ==
        Count(Expand(ranges[..n]), b) + (if ranges[n].bitLength == b then width else 0)
    {
      CountConcat(Expand(ranges[..n]), Repeat(ranges[n].bitLength, width), b);
      CountRepeat(ranges[n].bitLength, width, b);
    }
  }

  /** Step 2 of `build_huffman_tree` (gunzip/deflate.cpp:113-120): the first
      code of every length in use. Because `bl_count[0]` still holds the
      number of unused symbols, each first code is the RFC one plus
      `bl_count[0] * 2^bits`. */
  method FirstCodes(ghost lengths: seq<nat>, maxLen: nat, blCount: seq<nat>) returns (nextCode: seq<nat>)
    requires |blCount| == maxLen + 1
    requires forall b :: 0 <= b <= maxLen ==> blCount[b] == Count(lengths, b)
    ensures |nextCode| == maxLen + 1
    ensures forall b :: 1 <= b <= maxLen && Count(lengths, b) != 0 ==>
      nextCode[b] == SourceFirstCode(lengths, b)
  {
    nextCode := seq(maxLen + 1, _ => 0);
    var code := 0;
    for bits := 1 to maxLen + 1
      invariant |nextCode| == maxLen + 1
      invariant code == if bits == 1 then 0 else SourceFirstCode(lengths, bits - 1)
      invariant forall b :: 1 <= b < bits && Count(lengths, b) != 0 ==>
        nextCode[b] == SourceFirstCode(lengths, b)
    {
      FirstCodeStep(lengths, bits, code);
      code := (code + blCount[bits - 1]) * 2;
      if blCount[bits] != 0 {
        nextCode := nextCode[bits := code];
      }
    }
  }

  /** Steps 1 to 3 of `build_huffman_tree` (gunzip/deflate.cpp:97-135):
      after counting and computing the first codes, each symbol with a
      non-zero length in turn takes the next code of its length. The codes
      differ from RFC 1951's only above bit `len`. */
  method AssignCodes(ranges: seq<Range>) returns (table: seq<CodeEntry>)
    requires ValidRanges(ranges) && |ranges| > 0
    ensures |table| == |Expand(ranges)|
    ensures forall s :: 0 <= s < |table| ==> table[s].len == Expand(ranges)[s]
    ensures forall s :: 0 <= s < |table| && table[s].len == 0 ==> table[s].code == 0
    ensures forall s :: 0 <= s < |table| && table[s].len != 0 ==>
      table[s].code == SourceCode(Expand(ranges), s)
    ensures table == SourceTable(Expand(ranges))
  {
    ghost var lengths := Expand(ranges);
    var maxLen, blCount := CountLengths(ranges);
    var nextCode := FirstCodes(lengths, maxLen, blCount);
    var last := ranges[|ranges| - 1].end;
    table := seq(last + 1, _ => CodeEntry(0, 0));

    var active := 0;
    for n := 0 to last + 1
      invariant Assigning(ranges, lengths, maxLen, n, active, table, nextCode)
    {
      active, table, nextCode := AssignEntry(ranges, lengths, maxLen, n, active, table, nextCode);
    }
    assert table == SourceTable(lengths);
  }

  /** The state of the loop of gunzip/deflate.cpp:122-135 before symbol
      `n`: `active` is the range holding `n`, the symbols before `n` have
      their entries, the rest are still zero, and the next code of each
      length has moved past the symbols before `n` of that length. */
  ghost predicate Assigning(ranges: seq<Range>, lengths: seq<nat>, maxLen: nat, n: nat, active: nat,
                            table: seq<CodeEntry>, nextCode: seq<nat>)
  {
    active < |ranges| && n <= ranges[active].end + 1 && RangeStart(ranges, active) < n &&
    n <= |lengths| && NextCodes(lengths, maxLen, n, nextCode) && Filled(lengths, n, table)
  }

  /** The next code of each length in use, once the symbols before `n`
      have taken theirs. */
  ghost predicate NextCodes(lengths: seq<nat>, maxLen: nat, n: nat, nextCode: seq<nat>)
    requires n <= |lengths|
  {
    |nextCode| == maxLen + 1 &&
    forall b :: 1 <= b <= maxLen && Count(lengths, b) != 0 ==>
      nextCode[b] == SourceFirstCode(lengths, b) + CountBefore(lengths, n, b)
  }

  /** The symbols before `n` have their entries and the others are zero. */
  ghost predicate Filled(lengths: seq<nat>, n: nat, table: seq<CodeEntry>)
    requires n <= |lengths|
  {
    |table| == |lengths| &&
    (forall s :: 0 <= s < n ==> table[s] == Entry(lengths, s)) &&
    (forall s :: n <= s < |table| ==> table[s] == CodeEntry(0, 0))
  }

  /** One pass of the loop of gunzip/deflate.cpp:122-135: symbol `n` gets
      its length and, when that is not zero, the next code of that length. */
  method AssignEntry(ranges: seq<Range>, ghost lengths: seq<nat>, maxLen: nat, n: nat, active: nat,
                     table: seq<CodeEntry>, nextCode: seq<nat>)
    returns (active2: nat, table2: seq<CodeEntry>, nextCode2: seq<nat>)
    requires ValidRanges(ranges) && lengths == Expand(ranges) && n < |lengths|
    requires forall i :: 0 <= i < |lengths| ==> lengths[i] <= maxLen
    requires Assigning(ranges, lengths, maxLen, n, active, table, nextCode)
    ensures Assigning(ranges, lengths, maxLen, n + 1, active2, table2, nextCode2)
  {
    active2, table2, nextCode2 := active, table, nextCode;
    if n > ranges[active].end {
      active2 := active + 1;
    }
    ExpandAt(ranges, active2, n);
    if ranges[active2].bitLength != 0 {
      var len := ranges[active2].bitLength;
      table2 := table2[n := CodeEntry(len, table2[n].code)];
      if table2[n].len != 0 {
        CodeStep(lengths, maxLen, n, nextCode);
        table2 := table2[n := CodeEntry(len, nextCode2[len])];
        nextCode2 := nextCode2[len := nextCode2[len] + 1];
      }
    } else {
      ZeroStep(lengths, maxLen, n, nextCode);
    }
    FilledStep(lengths, n, table, table2);
  }

  /** A symbol with a non-zero length takes the next code of its length,
      which is its code. */
  lemma CodeStep(lengths: seq<nat>, maxLen: nat, n: nat, nextCode: seq<nat>)
    requires n < |lengths| && 0 < lengths[n] <= maxLen && NextCodes(lengths, maxLen, n, nextCode)
    ensures nextCode[lengths[n]] == SourceCode(lengths, n)
    ensures NextCodes(lengths, maxLen, n + 1, nextCode[lengths[n] := nextCode[lengths[n]] + 1])
  {
    CountPositive(lengths, n);
  }

  /** A symbol of length zero takes no code. */
  lemma ZeroStep(lengths: seq<nat>, maxLen: nat, n: nat, nextCode: seq<nat>)
    requires n < |lengths| && lengths[n] == 0 && NextCodes(lengths, maxLen, n, nextCode)
    ensures NextCodes(lengths, maxLen, n + 1, nextCode)
  {
  }

  /** Entry `n` set to its value extends the filled part by one. */
  lemma FilledStep(lengths: seq<nat>, n: nat, table: seq<CodeEntry>, table2: seq<CodeEntry>)
    requires n < |lengths| && Filled(lengths, n, table) && table2 == table[n := Entry(lengths, n)]
    ensures Filled(lengths, n + 1, table2)
  {
  }

  /** The range holding symbol `i`. */
  lemma RangeOf(ranges: seq<Range>, i: nat) returns (k: nat)
    requires ValidRanges(ranges) && |ranges| > 0 && i <= ranges[|ranges| - 1].end
    ensures k < |ranges| && RangeStart(ranges, k) < i <= ranges[k].end
  {
    k := 0;
    while ranges[k].end < i
      invariant k < |ranges| && RangeStart(ranges, k) < i
      decreases |ranges| - k
    {
      k := k + 1;
    }
  }
}
