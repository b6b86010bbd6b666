/** The header of a dynamic Huffman block (RFC 1951 section 3.2.7) as
    `dynamic_huffman` (gunzip/deflate.cpp:229-343) reads it: the three
    counts, the code lengths of the code-length alphabet in their permuted
    order, the run-length coded code lengths of the literal/length and
    distance alphabets, and the range lists the two trees are built from. */
module Header {
  import opened Errors
  import opened Bits
  import opened Huffman
  import opened Trie
  import opened Seqs

  // ----- runs of equal lengths -----

  /** The maximal runs of equal values of `xs`, as a range list: each range
      ends where the value changes (or at the end). */
  function Runs(xs: seq<nat>): seq<Range>
    decreases |xs|
  {
    if xs == [] then []
    else
      var init := Runs(xs[..|xs| - 1]);
      var x := xs[|xs| - 1];
      if init != [] && init[|init| - 1].bitLength == x then init[..|init| - 1] + [Range(|xs| - 1, x)]
      else init + [Range(|xs| - 1, x)]
  }

  ghost predicate AtMost(xs: seq<nat>, bound: nat)
  {
    forall i :: 0 <= i < |xs| ==> xs[i] <= bound
  }

  /** Neighbouring ranges have different lengths. */
  ghost predicate Maximal(ranges: seq<Range>)
  {
    forall k :: 0 < k < |ranges| ==> ranges[k - 1].bitLength != ranges[k].bitLength
  }

  /** Appending a range that ends at `e` extends the expansion by `b`s up
      to index `e`. */
  lemma ExpandSnocRange(ranges: seq<Range>, e: int, b: nat, n: nat)
    requires ValidRanges(ranges) && b <= MaxBits && e >= |Expand(ranges)| && n == e + 1 - |Expand(ranges)|
    ensures ValidRanges(ranges + [Range(e, b)])
    ensures Expand(ranges + [Range(e, b)]) == Expand(ranges) + Repeat(b, n)
  {
    var r := ranges + [Range(e, b)];
    var k := |ranges|;
    SnocValid(ranges, e, b);
    assert r[..k] == ranges;
    assert r[k] == Range(e, b);
    if k > 0 {
      assert r[k - 1] == ranges[k - 1];
    }
    assert r[k].end - RangeStart(r, k) == n;
    assert Expand(r) == Expand(r[..k]) + Repeat(b, n);
  }

  lemma SnocValid(ranges: seq<Range>, e: int, b: nat)
    requires ValidRanges(ranges) && b <= MaxBits && e >= |Expand(ranges)|
    ensures ValidRanges(ranges + [Range(e, b)])
  {
    var r := ranges + [Range(e, b)];
    assert r[..|ranges|] == ranges;
  }

  /** What `RunsExpand` states about the runs of `xs`. */
  ghost predicate RunsOf(xs: seq<nat>, runs: seq<Range>)
  {
    ValidRanges(runs) && Maximal(runs) && Expand(runs) == xs &&
    (|runs| > 0) == (|xs| > 0) &&
    (xs != [] ==> runs[|runs| - 1] == Range(|xs| - 1, xs[|xs| - 1]))
  }

  lemma RunsMerge(pre: seq<nat>, runs: seq<Range>, x: nat)
    requires RunsOf(pre, runs) && x <= MaxBits
    requires pre != [] && pre[|pre| - 1] == x
    ensures RunsOf(pre + [x], runs[..|runs| - 1] + [Range(|pre|, x)])
  {
    var front := runs[..|runs| - 1];
    assert runs == front + [Range(|pre| - 1, x)];
    MergeExpand(pre, front, x);
    MergeMaximal(runs, front, |pre|, x);
  }

  lemma MergeExpand(pre: seq<nat>, front: seq<Range>, x: nat)
    requires ValidRanges(front + [Range(|pre| - 1, x)]) && Expand(front + [Range(|pre| - 1, x)]) == pre
    requires pre != [] && x <= MaxBits
    ensures ValidRanges(front + [Range(|pre|, x)]) && Expand(front + [Range(|pre|, x)]) == pre + [x]
  {
    var k := |front|;
    var r1 := front + [Range(|pre| - 1, x)];
    assert r1[..k] == front;
    ValidRangesPrefix(r1, k);
    if k > 0 {
      assert r1[k - 1] == front[k - 1] && r1[k] == Range(|pre| - 1, x);
    }
    GrowLast(front, |pre| - 1, x);
  }

  /** Moving the end of the last range one further describes one more
      entry of its length. */
  lemma GrowLast(front: seq<Range>, e: int, x: nat)
    requires ValidRanges(front) && x <= MaxBits && e >= |Expand(front)|
    ensures ValidRanges(front + [Range(e, x)]) && ValidRanges(front + [Range(e + 1, x)])
    ensures Expand(front + [Range(e + 1, x)]) == Expand(front + [Range(e, x)]) + [x]
  {
    var n: nat := e + 1 - |Expand(front)|;
    ExpandSnocRange(front, e, x, n);
    ExpandSnocRange(front, e + 1, x, n + 1);
    RepeatSnoc(Expand(front + [Range(e, x)]), Expand(front + [Range(e + 1, x)]), Expand(front), x, n);
  }

  lemma RepeatSnoc(shorter: seq<nat>, longer: seq<nat>, a: seq<nat>, x: nat, n: nat)
    requires shorter == a + Repeat(x, n) && longer == a + Repeat(x, n + 1)
    ensures longer == shorter + [x]
  {
    var r := Repeat(x, n);
    assert Repeat(x, n + 1) == r + [x];
    assert a + (r + [x]) == a + r + [x];
  }

  lemma MergeMaximal(runs: seq<Range>, front: seq<Range>, e: int, x: nat)
    requires Maximal(runs) && runs == front + [Range(e - 1, x)]
    ensures Maximal(front + [Range(e, x)])
  {
    var merged := front + [Range(e, x)];
    forall k | 0 < k < |merged|
      ensures merged[k - 1].bitLength != merged[k].bitLength
    {
      assert merged[k - 1] == runs[k - 1];
      assert merged[k].bitLength == runs[k].bitLength;
    }
  }

  lemma RunsFresh(pre: seq<nat>, runs: seq<Range>, x: nat)
    requires RunsOf(pre, runs) && x <= MaxBits
    requires pre == [] || pre[|pre| - 1] != x
    ensures RunsOf(pre + [x], runs + [Range(|pre|, x)])
  {
    ExpandSnocRange(runs, |pre|, x, 1);
    assert Repeat(x, 1) == [x];
    FreshMaximal(runs, Range(|pre|, x));
  }

  lemma FreshMaximal(runs: seq<Range>, r: Range)
    requires Maximal(runs) && (runs == [] || runs[|runs| - 1].bitLength != r.bitLength)
    ensures Maximal(runs + [r])
  {
    var next := runs + [r];
    forall k | 0 < k < |next|
      ensures next[k - 1].bitLength != next[k].bitLength
    {
      if k < |runs| {
        assert next[k - 1] == runs[k - 1] && next[k] == runs[k];
      }
    }
  }

  /** `Runs` is undone by `Expand`: the runs of a list of code lengths are a
      valid range list, neighbouring runs differ, the last run ends at the
      last index and holds the last value, and expanding them gives the list
      back. */
  lemma {:induction false} RunsExpand(xs: seq<nat>)
    requires AtMost(xs, MaxBits)
    ensures RunsOf(xs, Runs(xs))
    decreases |xs|
  {
    if xs != [] {
      var pre := xs[..|xs| - 1];
      assert AtMost(pre, MaxBits) by {
        forall i | 0 <= i < |pre| ensures pre[i] <= MaxBits {
          assert pre[i] == xs[i];
        }
      }
      RunsExpand(pre);
      RunsStep(xs);
    }
  }

  /** The step of `RunsExpand`: the runs of `xs` from the runs of all but
      its last element. */
  lemma RunsStep(xs: seq<nat>)
    requires xs != [] && xs[|xs| - 1] <= MaxBits && RunsOf(xs[..|xs| - 1], Runs(xs[..|xs| - 1]))
    ensures RunsOf(xs, Runs(xs))
  {
    var pre := xs[..|xs| - 1];
    var x := xs[|xs| - 1];
    SnocLast(xs);
    var init := Runs(pre);
    if pre != [] && pre[|pre| - 1] == x {
      RunsMerge(pre, init, x);
      assert Runs(xs) == init[..|init| - 1] + [Range(|pre|, x)];
    } else {
      RunsFresh(pre, init, x);
      assert Runs(xs) == init + [Range(|pre|, x)];
    }
  }

  /** The coalescing loop of gunzip/deflate.cpp:255-262 (and of the
      literal and distance splits): a new range starts whenever the value
      differs from the one before, and the current range's end and length
      are rewritten for every index. */
  method CoalesceRuns(xs: seq<nat>) returns (runs: seq<Range>)
    requires |xs| > 0
    ensures runs == Runs(xs)
  {
    var ranges := seq(|xs|, _ => Range(0, 0));
    var j := 0;
    for i := 0 to |xs|
      invariant j <= i && j < |xs| && |ranges| == |xs|
      invariant i > 0 ==> j < i && ranges[..j + 1] == Runs(xs[..i])
      invariant i > 0 ==> ranges[j] == Range(i - 1, xs[i - 1])
    {
      if i > 0 && xs[i] != xs[i - 1] {
        OpenRun(xs, i, ranges, j);
        j := j + 1;
      } else if i == 0 {
        FirstRun(xs, ranges);
      } else {
        ExtendRun(xs, i, ranges, j);
      }
      ranges := ranges[j := Range(i, xs[i])];
    }
    assert xs[..|xs|] == xs;
    runs := ranges[..j + 1];
  }

  /** One pass of the coalescing loop keeps its prefix the runs so far:
      the first index opens the first range, ... */
  lemma FirstRun(xs: seq<nat>, ranges: seq<Range>)
    requires 0 < |xs| && |ranges| == |xs|
    ensures ranges[0 := Range(0, xs[0])][..1] == Runs(xs[..1])
  {
    var r := Range(0, xs[0]);
    assert xs[..1][..0] == [];
    assert Runs(xs[..1]) == [r];
    assert ranges[0 := r][..1] == [r];
  }

  /** ... a changed value opens the next range ... */
  lemma OpenRun(xs: seq<nat>, i: nat, ranges: seq<Range>, j: nat)
    requires 0 < i < |xs| && j < i && |ranges| == |xs| && xs[i] != xs[i - 1]
    requires ranges[..j + 1] == Runs(xs[..i]) && ranges[j] == Range(i - 1, xs[i - 1])
    ensures ranges[j + 1 := Range(i, xs[i])][..j + 2] == Runs(xs[..i + 1])
  {
    var ys, r := xs[..i + 1], Range(i, xs[i]);
    assert ys[..|ys| - 1] == xs[..i] && ys[|ys| - 1] == xs[i];
    var init := ranges[..j + 1];
    assert init[|init| - 1].bitLength == xs[i - 1];
    assert Runs(ys) == init + [r];
    assert ranges[j + 1 := r][..j + 2] == init + [r];
  }

  /** ... and an equal value moves the end of the current one. */
  lemma ExtendRun(xs: seq<nat>, i: nat, ranges: seq<Range>, j: nat)
    requires 0 < i < |xs| && j < i && |ranges| == |xs| && xs[i] == xs[i - 1]
    requires ranges[..j + 1] == Runs(xs[..i]) && ranges[j] == Range(i - 1, xs[i - 1])
    ensures ranges[j := Range(i, xs[i])][..j + 1] == Runs(xs[..i + 1])
  {
    var ys, r := xs[..i + 1], Range(i, xs[i]);
    assert ys[..|ys| - 1] == xs[..i] && ys[|ys| - 1] == xs[i];
    var init := ranges[..j + 1];
    assert init[|init| - 1].bitLength == xs[i - 1];
    assert init[..|init| - 1] == ranges[..j];
    assert ranges[j := r][..j + 1] == ranges[..j] + [r];
  }

  // ----- the code-length alphabet -----

  /** The order in which the code lengths of the code-length alphabet are
      stored (`code_length_offsets`, RFC 1951 section 3.2.7). */
  const CodeLengthOrder: seq<nat> := [16, 17, 18, 0, 8, 7, 9, 6, 10, 5, 11, 4, 12, 3, 13, 2, 14, 1, 15]

  /** Where each code-length symbol's length sits in the stored order. */
  const OrderPosition: seq<nat> := [3, 17, 15, 13, 11, 9, 7, 5, 4, 6, 8, 10, 12, 14, 16, 18, 0, 1, 2]

  /** The stored order is a permutation of 0..18: `OrderPosition` is its
      inverse on both sides. */
  lemma OrderIsPermutation()
    ensures |CodeLengthOrder| == 19 && |OrderPosition| == 19
    ensures forall i :: 0 <= i < 19 ==> CodeLengthOrder[i] < 19 && OrderPosition[CodeLengthOrder[i]] == i
    ensures forall k :: 0 <= k < 19 ==> OrderPosition[k] < 19 && CodeLengthOrder[OrderPosition[k]] == k
  {
  }

  /** The width of each stored code length of the code-length alphabet. */
  const MetaBits: nat := 3

  /** The code lengths after the first `n` three-bit fields at `pos` were
      stored in the permuted order into 19 zeros. */
  ghost function MetaLengths(bytes: seq<Byte>, pos: nat, n: nat): (r: seq<nat>)
    requires n <= 19 && pos + 3 * n <= 8 * |bytes|
    ensures |r| == 19
  {
    if n == 0 then seq(19, _ => 0)
    else
      OrderInverse(n - 1, 0);
      MetaLengths(bytes, pos, n - 1)[CodeLengthOrder[n - 1] := BitsValue(bytes, pos + 3 * (n - 1), MetaBits)]
  }

  /** Every code-length symbol gets the field stored at its place in the
      order when that place is among the first `n`, and length 0 otherwise;
      no length is above 7. */
  lemma {:induction false} MetaLengthsPlaced(bytes: seq<Byte>, pos: nat, n: nat)
    requires n <= 19 && pos + 3 * n <= 8 * |bytes|
    ensures forall k :: 0 <= k < 19 ==>
      MetaLengths(bytes, pos, n)[k] == if OrderPosition[k] < n then BitsValue(bytes, pos + 3 * OrderPosition[k], MetaBits) else 0
    ensures AtMost(MetaLengths(bytes, pos, n), 7)
  {
    if n > 0 {
      MetaLengthsPlaced(bytes, pos, n - 1);
      forall k | 0 <= k < 19
        ensures MetaLengths(bytes, pos, n)[k] ==
          if OrderPosition[k] < n then BitsValue(bytes, pos + 3 * OrderPosition[k], MetaBits) else 0
        ensures MetaLengths(bytes, pos, n)[k] <= 7
      {
        PlacedStep(bytes, pos, n, k);
      }
    }
  }

  /** The field stored last lands at symbol `k` exactly when `k` is the
      symbol of its place; every other symbol keeps its length. */
  lemma PlacedStep(bytes: seq<Byte>, pos: nat, n: nat, k: nat)
    requires 0 < n <= 19 && pos + 3 * n <= 8 * |bytes| && k < 19
    requires var prev := MetaLengths(bytes, pos, n - 1)[k];
      prev == (if OrderPosition[k] < n - 1 then BitsValue(bytes, pos + 3 * OrderPosition[k], MetaBits) else 0) &&
      prev <= 7
    ensures var next := MetaLengths(bytes, pos, n)[k];
      next == (if OrderPosition[k] < n then BitsValue(bytes, pos + 3 * OrderPosition[k], MetaBits) else 0) &&
      next <= 7
  {
    OrderInverse(n - 1, k);
    var v := BitsValue(bytes, pos + 3 * (n - 1), MetaBits);
    BitsValueBound(bytes, pos + 3 * (n - 1), MetaBits);
    assert Pow2(MetaBits) == 8;
    var prev := MetaLengths(bytes, pos, n - 1);
    assert MetaLengths(bytes, pos, n) == prev[CodeLengthOrder[n - 1] := v];
    if CodeLengthOrder[n - 1] == k {
      assert MetaLengths(bytes, pos, n)[k] == v;
    } else {
      assert MetaLengths(bytes, pos, n)[k] == prev[k];
    }
  }

  lemma OrderInverse(i: nat, k: nat)
    requires i < 19 && k < 19
    ensures CodeLengthOrder[i] < 19 && OrderPosition[k] < 19
    ensures CodeLengthOrder[i] == k <==> OrderPosition[k] == i
  {
    OrderIsPermutation();
  }

  lemma MetaStep(bytes: seq<Byte>, pos: nat, i: nat, lengths: seq<nat>, v: nat)
    requires i < 19 && pos + 3 * (i + 1) <= 8 * |bytes|
    requires lengths == MetaLengths(bytes, pos, i) && v == BitsValue(bytes, pos + 3 * i, MetaBits)
    ensures CodeLengthOrder[i] < 19 && lengths[CodeLengthOrder[i] := v] == MetaLengths(bytes, pos, i + 1)
  {
    OrderInverse(i, 0);
  }

  /** The 19 code lengths at `pos`, `n` fields of three bits, with the
      position after them. */
  ghost function MetaLengthsAt(bytes: seq<Byte>, pos: nat, n: nat): (r: Result<(seq<nat>, nat)>)
    requires n <= 19
    ensures r.Err? <==> pos + 3 * n > 8 * |bytes|
    ensures r.Err? ==> r.error == EndOfStream
    ensures r.Ok? ==> r.value.1 == pos + 3 * n && |r.value.0| == 19 && AtMost(r.value.0, 7)
  {
    if pos + 3 * n > 8 * |bytes| then Err(EndOfStream)
    else
      MetaLengthsPlaced(bytes, pos, n);
      Ok((MetaLengths(bytes, pos, n), pos + 3 * n))
  }

  /** One pass of the loop of gunzip/deflate.cpp:244-251: the `i`-th
      three-bit field, stored at its place in the permuted order. */
  method ReadMetaLength(reader: Reader, ghost pos: nat, i: nat, lengths: seq<nat>) returns (r: Result<seq<nat>>)
    requires reader.Valid() && i < 19 && reader.Pos() == pos + 3 * i
    requires lengths == MetaLengths(reader.bytes, pos, i)
    modifies reader
    ensures reader.Valid()
    ensures r.Err? ==> r == Err(EndOfStream) && pos + 3 * (i + 1) > 8 * |reader.bytes|
    ensures r.Ok? ==> reader.Pos() == pos + 3 * (i + 1) && r.value == MetaLengths(reader.bytes, pos, i + 1)
  {
    var a := reader.ReadBitsInv(MetaBits);
    if a.Err? {
      return Err(a.error);
    }
    MetaStep(reader.bytes, pos, i, lengths, a.value);
    r := Ok(lengths[CodeLengthOrder[i] := a.value]);
  }

  /** The loop of gunzip/deflate.cpp:244-251. */
  method ReadMetaLengths(reader: Reader, n: nat) returns (r: Result<seq<nat>>)
    requires reader.Valid() && n <= 19
    modifies reader
    ensures reader.Valid()
    ensures Agrees(r, MetaLengthsAt(reader.bytes, old(reader.Pos()), n), reader.Pos())
  {
    ghost var pos := reader.Pos();
    var lengths: seq<nat> := seq(19, _ => 0);
    for i := 0 to n
      invariant reader.Valid() && reader.Pos() == pos + 3 * i
      invariant lengths == MetaLengths(reader.bytes, pos, i)
    {
      var next := ReadMetaLength(reader, pos, i, lengths);
      if next.Err? {
        return Err(next.error);
      }
      lengths := next.value;
    }
    return Ok(lengths);
  }

  // ----- the literal/length and distance code lengths -----

  /** The `count` entries a repeat symbol writes after `out`: copies of the
      previous entry for 16, zeros for 17 and 18. Symbol 16 with no previous
      entry, and a run that does not fit in `total` entries, are errors. */
  function RunEntries(sym: int, out: seq<nat>, count: nat, total: nat): (r: Result<seq<nat>>)
    requires 16 <= sym <= 18 && count > 0
    ensures r.Ok? ==> |r.value| == |out| + count <= total && r.value[..|out|] == out
    ensures r.Ok? ==> forall i :: |out| <= i < |r.value| ==> r.value[i] == if sym == 16 && out != [] then out[|out| - 1] else 0
    ensures r == Err(RepeatAtStart) <==> sym == 16 && out == []
    ensures r == Err(RepeatOverflow) <==> !(sym == 16 && out == []) && |out| + count > total
  {
    if sym == 16 && out == [] then Err(RepeatAtStart)
    else if |out| + count > total then Err(RepeatOverflow)
    else
      var v := if sym == 16 then out[|out| - 1] else 0;
      assert (out + Repeat(v, count))[..|out|] == out;
      Ok(out + Repeat(v, count))
  }

  /** One code-length symbol `sym` read at bit `p` into the alphabet built
      so far, `out`: 0..15 is the next length itself; 16 repeats the
      previous length 3..6 times (2 extra bits); 17 writes 3..10 zeros
      (3 extra bits); 18 writes 11..138 zeros (7 extra bits). */
  function EntryAt(sym: int, out: seq<nat>, total: nat, bytes: seq<Byte>, p: nat): (r: Result<(seq<nat>, nat)>)
    requires 0 <= sym <= 18 && |out| < total && p <= 8 * |bytes|
    ensures r.Ok? ==> p <= r.value.1 <= 8 * |bytes| && |out| < |r.value.0| <= total
    ensures r.Ok? ==> r.value.0[..|out|] == out
    ensures r.Err? ==> r.error in {EndOfStream, RepeatAtStart, RepeatOverflow}
  {
    if sym <= 15 then
      assert (out + [sym])[..|out|] == out;
      Ok((out + [sym], p))
    else
      var n := if sym == 16 then 2 else if sym == 17 then 3 else 7;
      if p + n > 8 * |bytes| then Err(EndOfStream)
      else
        match RunEntries(sym, out, BitsValue(bytes, p, n) + (if sym == 18 then 11 else 3), total)
        case Err(e) => Err(e)
        case Ok(next) => Ok((next, p + n))
  }

  /** The alphabet of `total` code lengths decoded with the code-length
      tree from bit `pos` on, continuing the entries `out`. */
  ghost function AlphabetFrom(tree: seq<Node>, bytes: seq<Byte>, pos: nat, out: seq<nat>, total: nat)
    : (r: Result<(seq<nat>, nat)>)
    requires ValidArena(tree) && tree[0].code == Internal && CodesBelow(tree, 19)
    requires pos <= 8 * |bytes| && |out| <= total
    ensures r.Err? ==> r.error in {EndOfStream, NullChild, RepeatAtStart, RepeatOverflow}
    decreases 8 * |bytes| - pos
  {
    if |out| == total then Ok((out, pos))
    else
      match Walk(tree, 0, bytes, pos)
      case Err(e) => Err(e)
      case Ok((sym, q)) =>
        WalkAdvances(tree, bytes, pos);
        WalkCodeBelow(tree, bytes, pos, 19);
        match EntryAt(sym, out, total, bytes, q)
        case Err(e) => Err(e)
        case Ok((next, q')) => AlphabetFrom(tree, bytes, q', next, total)
  }

  /** One step of `AlphabetFrom`: the symbol the walk reads, then its
      entries. */
  lemma AlphabetStep(tree: seq<Node>, bytes: seq<Byte>, pos: nat, out: seq<nat>, total: nat)
    requires ValidArena(tree) && tree[0].code == Internal && CodesBelow(tree, 19)
    requires pos <= 8 * |bytes| && |out| < total && Walk(tree, 0, bytes, pos).Ok?
    ensures var (sym, q) := Walk(tree, 0, bytes, pos).value;
      0 <= sym <= 18 && pos < q <= 8 * |bytes| &&
      AlphabetFrom(tree, bytes, pos, out, total) ==
        match EntryAt(sym, out, total, bytes, q)
        case Err(e) => Err(e)
        case Ok((next, q')) => AlphabetFrom(tree, bytes, q', next, total)
  {
    WalkAdvances(tree, bytes, pos);
    WalkCodeBelow(tree, bytes, pos, 19);
  }

  /** The handling of one decoded code-length symbol in
      gunzip/deflate.cpp:281-303: a length, or a repeat symbol and its run. */
  method ReadEntry(reader: Reader, code: int, alphabet: seq<nat>, total: nat) returns (r: Result<seq<nat>>)
    requires reader.Valid() && 0 <= code <= 18 && |alphabet| < total
    modifies reader
    ensures reader.Valid()
    ensures Agrees(r, EntryAt(code, alphabet, total, reader.bytes, old(reader.Pos())), reader.Pos())
  {
    if code > 15 {
      r := ReadRepeat(reader, code, alphabet, total);
    } else {
      r := Ok(alphabet + [code]);
    }
  }

  /** A repeat symbol (gunzip/deflate.cpp:282-298): its extra bits give the
      run length, then the run is written. */
  method ReadRepeat(reader: Reader, code: int, alphabet: seq<nat>, total: nat) returns (r: Result<seq<nat>>)
    requires reader.Valid() && 16 <= code <= 18 && |alphabet| < total
    modifies reader
    ensures reader.Valid()
    ensures Agrees(r, EntryAt(code, alphabet, total, reader.bytes, old(reader.Pos())), reader.Pos())
  {
    ghost var p := reader.Pos();
    ghost var n: nat := if code == 16 then 2 else if code == 17 then 3 else 7;
    var extra: Result<nat>;
    var repeatLength: nat;
    if code == 16 {
      extra := reader.ReadBitsInv(2);
      repeatLength := if extra.Ok? then extra.value + 3 else 0;
    } else if code == 17 {
      extra := reader.ReadBitsInv(3);
      repeatLength := if extra.Ok? then extra.value + 3 else 0;
    } else {
      extra := reader.ReadBitsInv(7);
      repeatLength := if extra.Ok? then extra.value + 11 else 0;
    }
    if extra.Err? {
      return Err(extra.error);
    }
    assert reader.Pos() == p + n && repeatLength == BitsValue(reader.bytes, p, n) + (if code == 18 then 11 else 3);
    r := WriteRun(alphabet, code, repeatLength, total);
  }

  /** The alphabet loop of gunzip/deflate.cpp:270-305: walk the code-length
      tree one symbol at a time and run-length decode until `total` entries
      are written. */
  method ReadAlphabet(reader: Reader, tree: seq<Node>, total: nat) returns (r: Result<seq<nat>>)
    requires reader.Valid() && ValidArena(tree) && tree[0].code == Internal && CodesBelow(tree, 19)
    modifies reader
    ensures reader.Valid()
    ensures Agrees(r, AlphabetFrom(tree, reader.bytes, old(reader.Pos()), [], total), reader.Pos())
    ensures r.Ok? ==> |r.value| == total
  {
    var alphabet: seq<nat> := [];
    while |alphabet| < total
      invariant reader.Valid() && |alphabet| <= total
      invariant AlphabetFrom(tree, reader.bytes, old(reader.Pos()), [], total) ==
        AlphabetFrom(tree, reader.bytes, reader.Pos(), alphabet, total)
      decreases 8 * |reader.bytes| - reader.Pos()
    {
      ghost var p := reader.Pos();
      var sym := ReadSymbol(tree, reader);
      if sym.Err? {
        return Err(sym.error);
      }
      AlphabetStep(tree, reader.bytes, p, alphabet, total);
      var next := ReadEntry(reader, sym.value, alphabet, total);
      if next.Err? {
        return Err(next.error);
      }
      alphabet := next.value;
    }
    return Ok(alphabet);
  }

  /** The repeat loop of gunzip/deflate.cpp:293-300: `count` writes, each
      of the previous entry (16) or of zero (17, 18). */
  method WriteRun(alphabet: seq<nat>, sym: int, count: nat, total: nat) returns (r: Result<seq<nat>>)
    requires 16 <= sym <= 18 && count > 0
    ensures r == RunEntries(sym, alphabet, count, total)
  {
    var out := alphabet;
    ghost var v := if sym == 16 && alphabet != [] then alphabet[|alphabet| - 1] else 0;
    var k := 0;
    while k < count
      invariant k <= count && out == alphabet + Repeat(v, k)
      invariant k > 0 ==> |alphabet| + k <= total && !(sym == 16 && alphabet == [])
    {
      var value: nat;
      if sym == 16 {
        if |out| == 0 {
          return Err(RepeatAtStart);
        }
        value := out[|out| - 1];
      } else {
        value := 0;
      }
      if |out| >= total {
        return Err(RepeatOverflow);
      }
      out := out + [value];
      k := k + 1;
    }
    return Ok(out);
  }

  lemma EntryBounded(sym: int, out: seq<nat>, total: nat, bytes: seq<Byte>, p: nat)
    requires 0 <= sym <= 18 && |out| < total && p <= 8 * |bytes| && AtMost(out, MaxBits)
    requires EntryAt(sym, out, total, bytes, p).Ok?
    ensures AtMost(EntryAt(sym, out, total, bytes, p).value.0, MaxBits)
  {
  }

  /** A decoded alphabet has exactly `total` entries, extends the entries
      it started from, and holds code lengths 0..15 only. */
  lemma {:induction false} AlphabetFacts(tree: seq<Node>, bytes: seq<Byte>, pos: nat, out: seq<nat>, total: nat)
    requires ValidArena(tree) && tree[0].code == Internal && CodesBelow(tree, 19)
    requires pos <= 8 * |bytes| && |out| <= total && AtMost(out, MaxBits)
    requires AlphabetFrom(tree, bytes, pos, out, total).Ok?
    ensures var (alphabet, q) := AlphabetFrom(tree, bytes, pos, out, total).value;
      |alphabet| == total && alphabet[..|out|] == out && AtMost(alphabet, MaxBits) && pos <= q <= 8 * |bytes|
    decreases 8 * |bytes| - pos
  {
    if |out| < total {
      AlphabetStep(tree, bytes, pos, out, total);
      var (sym, q) := Walk(tree, 0, bytes, pos).value;
      EntryBounded(sym, out, total, bytes, q);
      var (next, q') := EntryAt(sym, out, total, bytes, q).value;
      AlphabetFacts(tree, bytes, q', next, total);
      var alphabet := AlphabetFrom(tree, bytes, q', next, total).value.0;
      assert alphabet[..|out|] == alphabet[..|next|][..|out|];
    } else {
      assert out[..|out|] == out;
    }
  }

  // ----- the split into the literal/length and the distance alphabet -----

  /** The range lists of the literal/length alphabet (the first `litCount`
      entries) and of the distance alphabet (the rest): both non-empty and
      each expanding to exactly its part of the alphabet. */
  function SplitAlphabet(alphabet: seq<nat>, litCount: nat): (r: (seq<Range>, seq<Range>))
    requires AtMost(alphabet, MaxBits) && 0 < litCount < |alphabet|
    ensures ValidRanges(r.0) && ValidRanges(r.1) && r.0 != [] && r.1 != []
    ensures Expand(r.0) == alphabet[..litCount] && Expand(r.1) == alphabet[litCount..]
  {
    RunsExpand(alphabet[..litCount]);
    RunsExpand(alphabet[litCount..]);
    (Runs(alphabet[..litCount]), Runs(alphabet[litCount..]))
  }

  /** gunzip/deflate.cpp:310-338 with the splits corrected: the runs of the
      first `litCount` entries, and the runs of the rest. */
  method SplitRuns(alphabet: seq<nat>, litCount: nat) returns (lit: seq<Range>, dist: seq<Range>)
    requires AtMost(alphabet, MaxBits) && 0 < litCount < |alphabet|
    ensures (lit, dist) == SplitAlphabet(alphabet, litCount)
  {
    lit := CoalesceRuns(alphabet[..litCount]);
    dist := CoalesceRuns(alphabet[litCount..]);
  }

  lemma ValidRangesPrefix(ranges: seq<Range>, k: nat)
    requires ValidRanges(ranges) && k <= |ranges|
    ensures ValidRanges(ranges[..k])
  {
  }

  /** The literal split as gunzip/deflate.cpp:312-322 writes it: the runs of
      entries 0..litCount (one entry too many) without the last run. */
  function LiteralRangesAsWritten(alphabet: seq<nat>, litCount: nat): (r: seq<Range>)
    requires AtMost(alphabet, MaxBits) && litCount < |alphabet|
    ensures ValidRanges(r)
  {
    var xs := alphabet[..litCount + 1];
    assert AtMost(xs, MaxBits);
    RunsExpand(xs);
    ValidRangesPrefix(Runs(xs), |Runs(xs)| - 1);
    Runs(xs)[..|Runs(xs)| - 1]
  }

  /** gunzip/deflate.cpp:312-325: the loop runs over entries 0..litCount
      and the range list handed on stops before range `j2`. */
  method SplitLiteralsAsWritten(alphabet: seq<nat>, litCount: nat) returns (ranges: seq<Range>)
    requires AtMost(alphabet, MaxBits) && litCount < |alphabet|
    ensures ranges == LiteralRangesAsWritten(alphabet, litCount)
  {
    var full := CoalesceRuns(alphabet[..litCount + 1]);
    ranges := full[..|full| - 1];
  }

  /** The as-written literal ranges describe a prefix of the literal/length
      code lengths that stops exactly before the last run of equal lengths
      in entries 0..litCount. */
  lemma LiteralSplitPrefix(alphabet: seq<nat>, litCount: nat)
    requires AtMost(alphabet, MaxBits) && 0 < litCount < |alphabet|
    ensures var e := Expand(LiteralRangesAsWritten(alphabet, litCount));
      |e| <= litCount && e == alphabet[..|e|] &&
      (forall i :: |e| <= i <= litCount ==> alphabet[i] == alphabet[litCount]) &&
      (|e| > 0 ==> alphabet[|e| - 1] != alphabet[litCount])
  {
    var xs := alphabet[..litCount + 1];
    assert AtMost(xs, MaxBits);
    RunsDropLast(xs);
    var full := Runs(xs);
    assert LiteralRangesAsWritten(alphabet, litCount) == full[..|full| - 1];
    TransferPrefix(alphabet, litCount, full[..|full| - 1]);
  }

  /** Facts about the first `n + 1` entries, read on the whole list. */
  lemma TransferPrefix(alphabet: seq<nat>, n: nat, front: seq<Range>)
    requires n < |alphabet| && BeforeLastRun(alphabet[..n + 1], front)
    ensures var e := Expand(front);
      |e| <= n && e == alphabet[..|e|] &&
      (forall i :: |e| <= i <= n ==> alphabet[i] == alphabet[n]) &&
      (|e| > 0 ==> alphabet[|e| - 1] != alphabet[n])
  {
    var xs := alphabet[..n + 1];
    var e := Expand(front);
    TakeTake(alphabet, n + 1, |e|);
    forall i | |e| <= i <= n
      ensures alphabet[i] == alphabet[n]
    {
      assert xs[i] == alphabet[i];
    }
  }

  /** `front` describes `xs` up to the start of its last run of equal
      entries: the entry just before that run differs from the last one. */
  ghost predicate BeforeLastRun(xs: seq<nat>, front: seq<Range>)
  {
    xs != [] && ValidRanges(front) &&
    var L := |Expand(front)|;
    L < |xs| && Expand(front) == xs[..L] &&
    (forall i :: L <= i < |xs| ==> xs[i] == xs[|xs| - 1]) &&
    (L > 0 ==> xs[L - 1] != xs[|xs| - 1])
  }

  /** All runs of `xs` but the last one describe the part of `xs` before
      its last run. */
  lemma RunsDropLast(xs: seq<nat>)
    requires AtMost(xs, MaxBits) && xs != []
    ensures |Runs(xs)| > 0 && BeforeLastRun(xs, Runs(xs)[..|Runs(xs)| - 1])
  {
    RunsExpand(xs);
    LastRunFront(xs, Runs(xs));
  }

  /** The same, for any maximal runs of `xs`. */
  lemma LastRunFront(xs: seq<nat>, full: seq<Range>)
    requires RunsOf(xs, full) && xs != []
    ensures |full| > 0 && BeforeLastRun(xs, full[..|full| - 1])
  {
    FrontOfRuns(xs, full);
    var front := full[..|full| - 1];
    var L := |Expand(front)|;
    PrefixOfRuns(xs, full, front, L);
    if L > 0 {
      RunBoundary(full, front, L);
    }
  }

  /** Maximal runs of `xs` are the runs before the last one, then a run of
      the last entry that ends at the end of `xs`. */
  lemma FrontOfRuns(xs: seq<nat>, full: seq<Range>)
    requires RunsOf(xs, full) && xs != []
    ensures |full| > 0 && ValidRanges(full[..|full| - 1])
    ensures full == full[..|full| - 1] + [Range(|xs| - 1, xs[|xs| - 1])]
    ensures var L := |Expand(full[..|full| - 1])|;
      L < |xs| && Expand(full) == Expand(full[..|full| - 1]) + Repeat(xs[|xs| - 1], |xs| - L)
  {
    var m := |full| - 1;
    var front := full[..m];
    var x := xs[|xs| - 1];
    SnocLast(full);
    assert ValidRanges(front);
    assert m > 0 ==> front[m - 1].end < |xs| - 1;
    ExpandSnocRange(front, |xs| - 1, x, |xs| - |Expand(front)|);
  }

  lemma PrefixOfRuns(xs: seq<nat>, full: seq<Range>, front: seq<Range>, L: nat)
    requires ValidRanges(front) && xs != [] && L == |Expand(front)| && L < |xs|
    requires full == front + [Range(|xs| - 1, xs[|xs| - 1])] && ValidRanges(full) && Expand(full) == xs
    requires Expand(full) == Expand(front) + Repeat(xs[|xs| - 1], |xs| - L)
    ensures Expand(front) == xs[..L]
    ensures forall i :: L <= i < |xs| ==> xs[i] == xs[|xs| - 1]
  {
  }

  /** The entry before a maximal list's last run differs from it. */
  lemma RunBoundary(full: seq<Range>, front: seq<Range>, L: nat)
    requires ValidRanges(full) && Maximal(full) && |full| > 0 && front == full[..|full| - 1]
    requires ValidRanges(front) && L == |Expand(front)| > 0
    ensures Expand(front)[L - 1] != full[|full| - 1].bitLength
  {
    var m := |full| - 1;
    ExpandAt(front, m - 1, L - 1);
    assert full[m - 1] == front[m - 1];
  }

  /** So the as-written ranges describe all literal/length lengths exactly
      when the last literal/length length differs from the first distance
      length; otherwise the whole last run of literal/length symbols is left
      without a code. */
  lemma LiteralSplitDropsLastRun(alphabet: seq<nat>, litCount: nat)
    requires AtMost(alphabet, MaxBits) && 0 < litCount < |alphabet|
    ensures Expand(LiteralRangesAsWritten(alphabet, litCount)) == alphabet[..litCount]
      <==> alphabet[litCount - 1] != alphabet[litCount]
  {
    LiteralSplitPrefix(alphabet, litCount);
    var e := Expand(LiteralRangesAsWritten(alphabet, litCount));
    if alphabet[litCount - 1] != alphabet[litCount] {
      assert |e| == litCount;
    }
  }

  /** A concrete header on which the as-written literal split loses the
      end-of-block symbol: 254 literals of length 8, literals 254, 255 and
      the end-of-block symbol 256 of length 9, and one distance code of
      length 9. The as-written ranges cover fewer than 257 symbols, so symbol
      256 gets no code. */
  lemma LiteralSplitCounterexample()
    ensures var alphabet := Repeat(8, 254) + Repeat(9, 4);
      |alphabet| == 258 && AtMost(alphabet, MaxBits) &&
      Expand(LiteralRangesAsWritten(alphabet, 257)) == Repeat(8, 254)
  {
    var alphabet := Repeat(8, 254) + Repeat(9, 4);
    assert AtMost(alphabet, MaxBits);
    LiteralSplitPrefix(alphabet, 257);
    var e := Expand(LiteralRangesAsWritten(alphabet, 257));
    assert alphabet[253] == 8 && alphabet[257] == 9;
    assert alphabet[..254] == Repeat(8, 254);
  }

  /** gunzip/deflate.cpp:327-338 as written: the loop runs from entry
      `litCount - 1` up to and including entry `|alphabet|`, and compares
      that last entry, which lies one past the alphabet, with the one
      before it. Every call reaches that read. */
  method SplitDistancesAsWritten(alphabet: seq<nat>, litCount: nat) returns (r: Result<seq<Range>>)
    requires 0 < litCount < |alphabet|
    ensures r == Err(ReadPastAlphabet)
  {
    var ranges := seq(|alphabet|, _ => Range(0, 0));
    var j3 := 0;
    var i := litCount - 1;
    while true
      invariant litCount - 1 <= i <= |alphabet| && |ranges| == |alphabet|
      invariant j3 <= if i > litCount then i - litCount - 1 else 0
      decreases |alphabet| - i
    {
      if i > litCount {
        if i == |alphabet| {
          return Err(ReadPastAlphabet);
        }
        if alphabet[i] != alphabet[i - 1] {
          j3 := j3 + 1;
        }
      }
      ranges := ranges[j3 := Range(i - litCount, alphabet[i])];
      i := i + 1;
    }
  }

  // ----- the whole header -----

  /** The code lengths a dynamic block header gives, as `dynamic_huffman`
      keeps them: one list holding the literal/length code lengths followed
      by the distance code lengths, and how many of them are literal/length
      ones (HLIT + 257). */
  datatype CodeLengths = CodeLengths(alphabet: seq<nat>, litCount: nat)

  /** The header's two decoding trees, each built from its part of the
      alphabet as `SplitAlphabet` cuts it. */
  ghost function HeaderTrees(lengths: CodeLengths): (trees: (seq<Node>, seq<Node>))
    requires AtMost(lengths.alphabet, MaxBits) && 0 < lengths.litCount < |lengths.alphabet|
    ensures ValidArena(trees.0) && trees.0[0].code == Internal && CodesBelow(trees.0, lengths.litCount)
    ensures ValidArena(trees.1) && trees.1[0].code == Internal && CodesBelow(trees.1, |lengths.alphabet| - lengths.litCount)
  {
    var (lit, dist) := SplitAlphabet(lengths.alphabet, lengths.litCount);
    (HuffmanTree(lit), HuffmanTree(dist))
  }

  /** The decoding tree `build_huffman_tree` builds for a list of code
      lengths, from the list's runs. */
  ghost function CodeTree(lengths: seq<nat>): (arena: seq<Node>)
    requires AtMost(lengths, MaxBits) && lengths != []
    ensures ValidArena(arena) && arena[0].code == Internal && CodesBelow(arena, |lengths|)
  {
    RunsExpand(lengths);
    HuffmanTree(Runs(lengths))
  }

  /** The widths of HLIT, HDIST and HCLEN. */
  const HlitBits: nat := 5
  const HdistBits: nat := 5
  const HclenBits: nat := 4

  lemma HeaderCounts(bytes: seq<Byte>, pos: nat)
    requires pos + HlitBits + HdistBits + HclenBits <= 8 * |bytes|
    ensures BitsValue(bytes, pos, HlitBits) < 32
    ensures BitsValue(bytes, pos + HlitBits, HdistBits) < 32
    ensures BitsValue(bytes, pos + HlitBits + HdistBits, HclenBits) < 16
  {
    BitsValueBound(bytes, pos, HlitBits);
    BitsValueBound(bytes, pos + HlitBits, HdistBits);
    BitsValueBound(bytes, pos + HlitBits + HdistBits, HclenBits);
    assert Pow2(4) == 16 && Pow2(5) == 32;
  }

  lemma MetaBounded(bytes: seq<Byte>, pos: nat, n: nat)
    requires n <= 19 && pos + 3 * n <= 8 * |bytes|
    ensures AtMost(MetaLengths(bytes, pos, n), MaxBits)
  {
    MetaLengthsPlaced(bytes, pos, n);
  }

  /** HLIT + 257, HDIST + 1 and HCLEN + 4 at bit `pos`: how many
      literal/length, distance and code-length code lengths follow. */
  function CountsAt(bytes: seq<Byte>, pos: nat): (r: Result<((nat, nat, nat), nat)>)
    ensures r.Ok? ==> r.value.1 == pos + HlitBits + HdistBits + HclenBits <= 8 * |bytes|
    ensures r.Ok? ==> 257 <= r.value.0.0 <= 288 && 1 <= r.value.0.1 <= 32 && 4 <= r.value.0.2 <= 19
    ensures r.Err? <==> pos + HlitBits + HdistBits + HclenBits > 8 * |bytes|
  {
    if pos + HlitBits + HdistBits + HclenBits > 8 * |bytes| then Err(EndOfStream)
    else
      HeaderCounts(bytes, pos);
      Ok(((BitsValue(bytes, pos, HlitBits) + 257,
           BitsValue(bytes, pos + HlitBits, HdistBits) + 1,
           BitsValue(bytes, pos + HlitBits + HdistBits, HclenBits) + 4),
          pos + HlitBits + HdistBits + HclenBits))
  }

  /** The counts and the code-length tree at bit `pos`: the literal/length
      and distance code lengths that follow are coded with the tree of the
      HCLEN + 4 three-bit code lengths. */
  ghost function PreambleAt(bytes: seq<Byte>, pos: nat): (r: Result<((nat, nat, seq<Node>), nat)>)
    ensures r.Ok? ==> pos < r.value.1 <= 8 * |bytes|
    ensures r.Ok? ==> 257 <= r.value.0.0 <= 288 && 1 <= r.value.0.1 <= 32
    ensures r.Ok? ==> var tree := r.value.0.2; ValidArena(tree) && tree[0].code == Internal && CodesBelow(tree, 19)
  {
    match CountsAt(bytes, pos)
    case Err(e) => Err(e)
    case Ok(((litCount, distCount, metaCount), p)) =>
      match MetaLengthsAt(bytes, p, metaCount)
      case Err(e) => Err(e)
      case Ok((meta, p1)) =>
        MetaBounded(bytes, p, metaCount);
        Ok(((litCount, distCount, CodeTree(meta)), p1))
  }

  /** The rest of the dynamic block header once the counts and the
      code-length tree have been read up to bit `pos`: `litCount + distCount`
      run-length coded code lengths, the first `litCount` of them for the
      literal/length alphabet. */
  ghost function LengthsAfter(litCount: nat, distCount: nat, tree: seq<Node>, bytes: seq<Byte>, pos: nat)
    : (r: Result<(CodeLengths, nat)>)
    requires ValidArena(tree) && tree[0].code == Internal && CodesBelow(tree, 19) && pos <= 8 * |bytes|
    ensures r.Ok? ==> pos <= r.value.1 <= 8 * |bytes|
    ensures r.Ok? ==> r.value.0.litCount == litCount && |r.value.0.alphabet| == litCount + distCount
    ensures r.Ok? ==> AtMost(r.value.0.alphabet, MaxBits)
  {
    match AlphabetFrom(tree, bytes, pos, [], litCount + distCount)
    case Err(e) => Err(e)
    case Ok((alphabet, p2)) =>
      AlphabetFacts(tree, bytes, pos, [], litCount + distCount);
      Ok((CodeLengths(alphabet, litCount), p2))
  }

  /** The dynamic block header at bit `pos` (gunzip/deflate.cpp:229-338 with
      the splits corrected): HLIT, HDIST and HCLEN, then HCLEN + 4 three-bit
      code lengths, then HLIT + 257 + HDIST + 1 run-length coded code
      lengths, the first HLIT + 257 of them for the literal/length alphabet. */
  ghost function HeaderAt(bytes: seq<Byte>, pos: nat): (r: Result<(CodeLengths, nat)>)
    ensures r.Ok? ==> pos < r.value.1 <= 8 * |bytes|
    ensures r.Ok? ==> var lengths := r.value.0;
      257 <= lengths.litCount <= 288 && 1 <= |lengths.alphabet| - lengths.litCount <= 32
    ensures r.Ok? ==> AtMost(r.value.0.alphabet, MaxBits)
  {
    match PreambleAt(bytes, pos)
    case Err(e) => Err(e)
    case Ok(((litCount, distCount, tree), p1)) => LengthsAfter(litCount, distCount, tree, bytes, p1)
  }

  /** gunzip/deflate.cpp:230-265: the three counts, the code lengths of the
      code-length alphabet, and its tree. */
  method ReadPreamble(reader: Reader) returns (r: Result<(nat, nat, seq<Node>)>)
    requires reader.Valid()
    modifies reader
    ensures reader.Valid()
    ensures Agrees(r, PreambleAt(reader.bytes, old(reader.Pos())), reader.Pos())
    ensures r.Ok? ==> ValidArena(r.value.2) && r.value.2[0].code == Internal && CodesBelow(r.value.2, 19)
  {
    ghost var pos := reader.Pos();
    var counts := ReadCounts(reader);
    if counts.Err? {
      return Err(counts.error);
    }
    var (litCount, distCount, metaCount) := counts.value;
    ghost var p := reader.Pos();
    var meta := ReadMetaLengths(reader, metaCount);
    if meta.Err? {
      return Err(meta.error);
    }
    MetaBounded(reader.bytes, p, metaCount);
    RunsExpand(meta.value);
    var metaRanges := CoalesceRuns(meta.value);
    var metaTree := BuildHuffmanTree(metaRanges);
    return Ok((litCount, distCount, metaTree.value));
  }

  /** The three fields read one after the other are what `CountsAt` reads. */
  lemma CountsFields(bytes: seq<Byte>, pos: nat, hlit: nat, hdist: nat, hclen: nat)
    requires pos + HlitBits + HdistBits + HclenBits <= 8 * |bytes|
    requires hlit == BitsValue(bytes, pos, HlitBits)
    requires hdist == BitsValue(bytes, pos + HlitBits, HdistBits)
    requires hclen == BitsValue(bytes, pos + HlitBits + HdistBits, HclenBits)
    ensures CountsAt(bytes, pos) == Ok(((hlit + 257, hdist + 1, hclen + 4), pos + HlitBits + HdistBits + HclenBits))
  {
  }

  /** gunzip/deflate.cpp:230-235: HLIT, HDIST and HCLEN. */
  method ReadCounts(reader: Reader) returns (r: Result<(nat, nat, nat)>)
    requires reader.Valid()
    modifies reader
    ensures reader.Valid()
    ensures Agrees(r, CountsAt(reader.bytes, old(reader.Pos())), reader.Pos())
  {
    ghost var pos := reader.Pos();
    var hlit := reader.ReadBitsInv(HlitBits);
    if hlit.Err? {
      return Err(hlit.error);
    }
    ghost var p1 := reader.Pos();
    assert p1 == pos + HlitBits && hlit.value == BitsValue(reader.bytes, pos, HlitBits);
    var hdist := reader.ReadBitsInv(HdistBits);
    if hdist.Err? {
      return Err(hdist.error);
    }
    ghost var p2 := reader.Pos();
    assert p2 == p1 + HdistBits && hdist.value == BitsValue(reader.bytes, p1, HdistBits);
    var hclen := reader.ReadBitsInv(HclenBits);
    if hclen.Err? {
      return Err(hclen.error);
    }
    assert hclen.value == BitsValue(reader.bytes, p2, HclenBits);
    CountsFields(reader.bytes, pos, hlit.value, hdist.value, hclen.value);
    return Ok((hlit.value + 257, hdist.value + 1, hclen.value + 4));
  }

  /** The reads of gunzip/deflate.cpp:229-305. */
  method ReadCodeLengths(reader: Reader) returns (r: Result<CodeLengths>)
    requires reader.Valid()
    modifies reader
    ensures reader.Valid()
    ensures Agrees(r, HeaderAt(reader.bytes, old(reader.Pos())), reader.Pos())
  {
    ghost var pos := reader.Pos();
    var preamble := ReadPreamble(reader);
    if preamble.Err? {
      return Err(preamble.error);
    }
    var (litCount, distCount, tree) := preamble.value;
    ghost var spec := LengthsAfter(litCount, distCount, tree, reader.bytes, reader.Pos());
    assert HeaderAt(reader.bytes, pos) == spec;
    var alphabet := ReadAlphabet(reader, tree, litCount + distCount);
    if alphabet.Err? {
      return Err(alphabet.error);
    }
    return Ok(CodeLengths(alphabet.value, litCount));
  }

  /** `dynamic_huffman` up to the call of `inflate` (gunzip/deflate.cpp:
      229-338), with the splits corrected: the header's two decoding trees,
      built from the range lists `SplitAlphabet` gives, each the trie of the
      canonical code of its part of the alphabet. */
  method ReadHeader(reader: Reader) returns (r: Result<(seq<Node>, seq<Node>)>)
    requires reader.Valid()
    modifies reader
    ensures reader.Valid()
    ensures HeaderAt(reader.bytes, old(reader.Pos())).Err? ==> r == Err(HeaderAt(reader.bytes, old(reader.Pos())).error)
    ensures HeaderAt(reader.bytes, old(reader.Pos())).Ok? ==>
      var (lengths, q) := HeaderAt(reader.bytes, old(reader.Pos())).value;
      var (alphabet, litCount) := (lengths.alphabet, lengths.litCount);
      reader.Pos() == q && r == Ok(HeaderTrees(lengths)) &&
      TrieOf(r.value.0, CanonicalTable(alphabet[..litCount])) && TrieOf(r.value.1, CanonicalTable(alphabet[litCount..]))
  {
    var lengths := ReadCodeLengths(reader);
    if lengths.Err? {
      return Err(lengths.error);
    }
    var litRanges, distRanges := SplitRuns(lengths.value.alphabet, lengths.value.litCount);
    var lit := BuildHuffmanTree(litRanges);
    var dist := BuildHuffmanTree(distRanges);
    return Ok((lit.value, dist.value));
  }
}
