/** The body of a compressed block (RFC 1951 section 3.2.5) as `inflate`
    (gunzip/deflate.cpp:165-227) decodes it: literal/length symbols from
    one trie, distance symbols from another, extra bits from the stream,
    and a buffer that starts empty and only ever grows. */
module Inflate {
  import opened Errors
  import opened Bits
  import opened Huffman
  import opened Trie

  /** `extra_length_addend` (gunzip/deflate.cpp:167-168): the base length of
      length symbols 265..284. */
  const LengthAddend: seq<nat> :=
    [11, 13, 15, 17, 19, 23, 27, 31, 35, 43, 51, 59, 67, 83, 99, 115, 131, 163, 195, 227]

  /** `extra_dist_addend` (gunzip/deflate.cpp:169-172): one less than the
      base distance of distance symbols 4..29. */
  const DistanceAddend: seq<nat> :=
    [4, 6, 8, 12, 16, 24, 32, 48, 64, 96, 128, 192, 256, 384, 512, 768, 1024, 1536, 2048, 3072,
     4096, 6144, 8192, 12288, 16384, 24576]

  /** The length table of RFC 1951 section 3.2.5, for symbols 257..285:
      extra bits and base length. */
  const RfcLengthExtra: seq<nat> :=
    [0, 0, 0, 0, 0, 0, 0, 0, 1, 1, 1, 1, 2, 2, 2, 2, 3, 3, 3, 3, 4, 4, 4, 4, 5, 5, 5, 5, 0]
  const RfcLengthBase: seq<nat> :=
    [3, 4, 5, 6, 7, 8, 9, 10, 11, 13, 15, 17, 19, 23, 27, 31, 35, 43, 51, 59, 67, 83, 99, 115,
     131, 163, 195, 227, 258]

  /** The distance table of RFC 1951 section 3.2.5, for symbols 0..29. */
  const RfcDistanceExtra: seq<nat> :=
    [0, 0, 0, 0, 1, 1, 2, 2, 3, 3, 4, 4, 5, 5, 6, 6, 7, 7, 8, 8, 9, 9, 10, 10, 11, 11, 12, 12, 13, 13]
  const RfcDistanceBase: seq<nat> :=
    [1, 2, 3, 4, 5, 7, 9, 13, 17, 25, 33, 49, 65, 97, 129, 193, 257, 385, 513, 769, 1025, 1537,
     2049, 3073, 4097, 6145, 8193, 12289, 16385, 24577]

  /** The number of extra bits a length symbol reads (gunzip/deflate.cpp:192-206). */
  function LengthExtraBits(code: int): nat
  {
    if 265 <= code < 285 then (code - 261) / 4 else 0
  }

  /** The match length of a length symbol and its extra bits
      (gunzip/deflate.cpp:192-206); every symbol from 285 up gives 258. */
  function MatchLength(code: int, extra: nat): (r: nat)
    requires code > 256
    ensures 3 <= r
    ensures extra < Pow2(LengthExtraBits(code)) ==> r <= 258
  {
    assert Pow2(1) == 2 && Pow2(2) == 4 && Pow2(3) == 8 && Pow2(4) == 16 && Pow2(5) == 32;
    if code < 265 then code - 254
    else if code < 285 then extra + LengthAddend[code - 265]
    else 258
  }

  /** The number of extra bits a distance symbol reads (gunzip/deflate.cpp:208-209). */
  function DistanceExtraBits(sym: int): nat
  {
    if sym > 3 then (sym - 2) / 2 else 0
  }

  /** How far back the copy starts (gunzip/deflate.cpp:218): the back
      pointer is set one byte further back than the `dist` the C++ computes. */
  function BackDistance(sym: int, extra: nat): (r: int)
    requires sym <= 3 || sym - 4 < |DistanceAddend|
    ensures 0 <= sym ==> 1 <= r
    ensures 0 <= sym && extra < Pow2(DistanceExtraBits(sym)) ==> r <= 32768
  {
    assert Pow2(11) == 2048 && Pow2(12) == 4096 && Pow2(13) == 8192;
    if sym <= 3 then sym + 1 else DistanceAddend[sym - 4] + extra + 1
  }

  /** The source's length decoding is the RFC 1951 length table: each
      symbol 257..285 reads the table's number of extra bits ... */
  lemma LengthExtraMatchesRfc(code: int)
    requires 257 <= code <= 285
    ensures LengthExtraBits(code) == RfcLengthExtra[code - 257]
  {
  }

  /** ... and, with no extra bits, gives the table's base length ... */
  lemma LengthBaseMatchesRfc(code: int)
    requires 257 <= code <= 285
    ensures MatchLength(code, 0) == RfcLengthBase[code - 257]
  {
  }

  /** ... to which the value of the extra bits is added, when there are any. */
  lemma LengthAddsExtra(code: int, extra: nat)
    requires code > 256
    ensures MatchLength(code, extra) == MatchLength(code, 0) + if LengthExtraBits(code) == 0 then 0 else extra
  {
  }

  /** Likewise the source's distance decoding is the RFC 1951 distance
      table, once the `- 1` of the back pointer is counted: the extra bits
      ... */
  lemma DistanceExtraMatchesRfc(sym: int)
    requires 0 <= sym <= 29
    ensures DistanceExtraBits(sym) == RfcDistanceExtra[sym]
  {
  }

  /** ... the base distance ... */
  lemma DistanceBaseMatchesRfc(sym: int)
    requires 0 <= sym <= 29
    ensures BackDistance(sym, 0) == RfcDistanceBase[sym]
  {
  }

  /** ... and the value of the extra bits added to it, when there are any. */
  lemma DistanceAddsExtra(sym: int, extra: nat)
    requires sym <= 3 || sym - 4 < |DistanceAddend|
    ensures BackDistance(sym, extra) == BackDistance(sym, 0) + if DistanceExtraBits(sym) == 0 then 0 else extra
  {
  }

  // ----- the back-reference copy -----

  /** `out` after `n` bytes have been copied from `distance` bytes back, one
      at a time, each copy able to read a byte an earlier one appended
      (gunzip/deflate.cpp:218-222). */
  function CopyBack(out: seq<Byte>, distance: nat, n: nat): (r: seq<Byte>)
    requires 0 < distance <= |out|
    ensures |r| == |out| + n
  {
    if n == 0 then out
    else
      var b := CopyBack(out, distance, n - 1);
      b + [b[|b| - distance]]
  }

  /** A longer copy extends a shorter one: what is already in the buffer
      never changes. */
  lemma {:induction false} CopyBackGrows(out: seq<Byte>, distance: nat, m: nat, n: nat)
    requires 0 < distance <= |out| && m <= n
    ensures CopyBack(out, distance, n)[..|out| + m] == CopyBack(out, distance, m)
    decreases n
  {
    if m < n {
      CopyBackGrows(out, distance, m, n - 1);
      var b := CopyBack(out, distance, n - 1);
      assert CopyBack(out, distance, n)[..|b|] == b;
      assert CopyBack(out, distance, n)[..|out| + m] == b[..|out| + m];
    }
  }

  /** Each copied byte is the one `distance` bytes before it in the
      growing buffer (overlap allowed). */
  lemma CopyBackAt(out: seq<Byte>, distance: nat, n: nat, k: nat)
    requires 0 < distance <= |out| && |out| <= k < |out| + n
    ensures CopyBack(out, distance, n)[k] == CopyBack(out, distance, n)[k - distance]
  {
    var m := k - |out| + 1;
    var c := CopyBack(out, distance, n);
    var step := CopyBack(out, distance, m);
    CopyBackGrows(out, distance, m, n);
    CopyBackGrows(out, distance, m - 1, n);
    assert c[k] == step[k];
    assert step[k] == CopyBack(out, distance, m - 1)[k - distance];
    assert c[k - distance] == c[..|out| + m - 1][k - distance];
  }

  /** The copy is the `distance`-periodic continuation of the last
      `distance` bytes of `out`. */
  lemma {:induction false} CopyBackPeriodic(out: seq<Byte>, distance: nat, n: nat, k: nat)
    requires 0 < distance <= |out| && |out| <= k < |out| + n
    ensures CopyBack(out, distance, n)[k] == out[|out| - distance + (k - |out|) % distance]
    decreases k
  {
    var c := CopyBack(out, distance, n);
    CopyBackAt(out, distance, n, k);
    var j := k - |out|;
    if j >= distance {
      CopyBackPeriodic(out, distance, n, k - distance);
      ModShift(j, distance);
    } else {
      CopyBackGrows(out, distance, 0, n);
      assert c[k - distance] == c[..|out|][k - distance];
      DivModUnique(j, distance, 0, j);
    }
  }

  lemma ModShift(j: nat, d: nat)
    requires 0 < d <= j
    ensures (j - d) % d == j % d
  {
    DivModUnique(j, d, (j - d) / d + 1, (j - d) % d);
  }

  // ----- one token -----

  /** What a literal/length symbol and what follows it stand for. */
  datatype Token = Literal(byte: Byte) | EndOfBlock | Copy(length: nat, distance: int)

  /** The match length after length symbol `code`, read from bit `pos`. */
  function LengthAt(code: int, bytes: seq<Byte>, pos: nat): (r: Result<(nat, nat)>)
    requires code > 256 && pos <= 8 * |bytes|
    ensures r.Err? <==> pos + LengthExtraBits(code) > 8 * |bytes|
    ensures r.Err? ==> r.error == EndOfStream
    ensures r.Ok? ==> r.value.1 == pos + LengthExtraBits(code) && 3 <= r.value.0 <= 258
  {
    var n := LengthExtraBits(code);
    if pos + n > 8 * |bytes| then Err(EndOfStream)
    else
      BitsValueBound(bytes, pos, n);
      Ok((MatchLength(code, BitsValue(bytes, pos, n)), pos + n))
  }

  /** The back distance after distance symbol `sym`, its extra bits read
      from bit `pos`; symbols 30 and 31 index past `extra_dist_addend` once
      their extra bits are read. */
  function DistanceExtraAt(sym: int, bytes: seq<Byte>, pos: nat): (r: Result<(int, nat)>)
    requires pos <= 8 * |bytes|
    ensures r == Err(EndOfStream) <==> sym > 3 && pos + DistanceExtraBits(sym) > 8 * |bytes|
    ensures r == Err(DistanceSymbolTooLarge) <==> sym >= 30 && pos + DistanceExtraBits(sym) <= 8 * |bytes|
    ensures r.Err? ==> r.error == EndOfStream || r.error == DistanceSymbolTooLarge
    ensures r.Ok? ==> r.value.1 == pos + DistanceExtraBits(sym)
    ensures r.Ok? && 0 <= sym ==> 1 <= r.value.0 <= 32768
  {
    if sym <= 3 then Ok((BackDistance(sym, 0), pos))
    else
      var n := DistanceExtraBits(sym);
      if pos + n > 8 * |bytes| then Err(EndOfStream)
      else if sym - 4 >= |DistanceAddend| then Err(DistanceSymbolTooLarge)
      else
        BitsValueBound(bytes, pos, n);
        Ok((BackDistance(sym, BitsValue(bytes, pos, n)), pos + n))
  }

  /** The back distance coded from bit `pos`: a distance symbol, then its
      extra bits. */
  ghost function DistanceAt(dist: seq<Node>, bytes: seq<Byte>, pos: nat): (r: Result<(int, nat)>)
    requires ValidArena(dist) && pos <= 8 * |bytes|
    ensures r.Ok? ==> pos <= r.value.1 <= 8 * |bytes|
    ensures r.Err? ==> r.error in {EndOfStream, NullChild, DistanceSymbolTooLarge}
  {
    match Walk(dist, 0, bytes, pos)
    case Err(e) => Err(e)
    case Ok((sym, p)) =>
      WalkReadsPath(dist, 0, bytes, pos);
      DistanceExtraAt(sym, bytes, p)
  }

  /** The token coded from bit `pos` and the position after it
      (gunzip/deflate.cpp:177-216). */
  ghost function TokenAt(lit: seq<Node>, dist: seq<Node>, bytes: seq<Byte>, pos: nat): (r: Result<(Token, nat)>)
    requires ValidArena(lit) && lit[0].code == Internal && ValidArena(dist) && pos <= 8 * |bytes|
    ensures r.Ok? ==> pos < r.value.1 <= 8 * |bytes|
    ensures r.Ok? && r.value.0.Copy? ==> 3 <= r.value.0.length <= 258
    ensures r.Err? ==> r.error in {EndOfStream, NullChild, DistanceSymbolTooLarge}
  {
    match Walk(lit, 0, bytes, pos)
    case Err(e) => Err(e)
    case Ok((code, p1)) =>
      WalkAdvances(lit, bytes, pos);
      if code == 256 then Ok((EndOfBlock, p1))
      else if code < 256 then Ok((Literal((code % 256) as Byte), p1))
      else
        match LengthAt(code, bytes, p1)
        case Err(e) => Err(e)
        case Ok((length, p2)) =>
          match DistanceAt(dist, bytes, p2)
          case Err(e) => Err(e)
          case Ok((distance, p3)) =>
            WalkReadsPath(dist, 0, bytes, p2);
            Ok((Copy(length, distance), p3))
  }

  // ----- the block body -----

  /** The buffer after one token other than the end of the block: a
      literal appends its byte, a match copies `length` bytes from
      `distance` back, which must lie inside the buffer (the C++ reads before
      `buffer.begin()` otherwise). */
  function Apply(out: seq<Byte>, token: Token): (r: Result<seq<Byte>>)
    requires !token.EndOfBlock?
    ensures r.Err? <==> token.Copy? && (token.distance < 1 || token.distance > |out|)
    ensures r.Err? ==> r.error == DistanceTooFar
    ensures r.Ok? ==> |r.value| == |out| + if token.Literal? then 1 else token.length
  {
    match token
    case Literal(b) => Ok(out + [b])
    case Copy(length, distance) =>
      if distance < 1 || distance > |out| then Err(DistanceTooFar)
      else Ok(CopyBack(out, distance, length))
  }

  /** What one token does to the buffer: a literal appends exactly its
      byte; a match appends exactly `length` bytes, each new byte being the
      byte `distance` places before it in the growing buffer; bytes already
      there never change; and the match fails exactly when its distance
      reaches outside the buffer. */
  lemma ApplyEffect(out: seq<Byte>, token: Token)
    requires !token.EndOfBlock?
    ensures Apply(out, token).Err? <==> token.Copy? && (token.distance < 1 || token.distance > |out|)
    ensures Apply(out, token).Ok? ==> var r := Apply(out, token).value;
      |r| == |out| + (if token.Literal? then 1 else token.length) && r[..|out|] == out &&
      (token.Literal? ==> r[|out|] == token.byte) &&
      (token.Copy? ==> forall k :: |out| <= k < |r| ==> r[k] == r[k - token.distance])
  {
    if Apply(out, token).Ok? {
      if token.Copy? {
        CopyEffect(out, token.distance, token.length);
      } else {
        assert Apply(out, token).value[..|out|] == out;
      }
    }
  }

  lemma CopyEffect(out: seq<Byte>, distance: nat, n: nat)
    requires 0 < distance <= |out|
    ensures CopyBack(out, distance, n)[..|out|] == out
    ensures forall k :: |out| <= k < |out| + n ==> CopyBack(out, distance, n)[k] == CopyBack(out, distance, n)[k - distance]
  {
    CopyBackGrows(out, distance, 0, n);
    forall k | |out| <= k < |out| + n
      ensures CopyBack(out, distance, n)[k] == CopyBack(out, distance, n)[k - distance]
    {
      CopyBackAt(out, distance, n, k);
    }
  }

  /** Decoding tokens from bit `pos` onto `out` up to the end-of-block
      symbol: the final buffer and the position after that symbol. */
  ghost function InflateFrom(lit: seq<Node>, dist: seq<Node>, bytes: seq<Byte>, pos: nat, out: seq<Byte>)
    : (r: Result<(seq<Byte>, nat)>)
    requires ValidArena(lit) && lit[0].code == Internal && ValidArena(dist) && pos <= 8 * |bytes|
    ensures r.Err? ==> r.error in {EndOfStream, NullChild, DistanceSymbolTooLarge, DistanceTooFar}
    decreases 8 * |bytes| - pos
  {
    match TokenAt(lit, dist, bytes, pos)
    case Err(e) => Err(e)
    case Ok((token, q)) =>
      if token.EndOfBlock? then Ok((out, q))
      else
        match Apply(out, token)
        case Err(e) => Err(e)
        case Ok(next) => InflateFrom(lit, dist, bytes, q, next)
  }

  /** Bytes already in the buffer never change: a block's output extends
      whatever the buffer held. */
  lemma {:induction false} InflateExtends(lit: seq<Node>, dist: seq<Node>, bytes: seq<Byte>, pos: nat, out: seq<Byte>)
    requires ValidArena(lit) && lit[0].code == Internal && ValidArena(dist) && pos <= 8 * |bytes|
    requires InflateFrom(lit, dist, bytes, pos, out).Ok?
    ensures |out| <= |InflateFrom(lit, dist, bytes, pos, out).value.0|
    ensures InflateFrom(lit, dist, bytes, pos, out).value.0[..|out|] == out
    decreases 8 * |bytes| - pos
  {
    var (token, q) := TokenAt(lit, dist, bytes, pos).value;
    if !token.EndOfBlock? {
      var next := Apply(out, token).value;
      assert next[..|out|] == out by {
        if token.Copy? {
          CopyBackGrows(out, token.distance, 0, token.length);
        }
      }
      InflateExtends(lit, dist, bytes, q, next);
      var res := InflateFrom(lit, dist, bytes, q, next).value.0;
      assert res[..|out|] == res[..|next|][..|out|];
    }
  }

  /** A block's data ends after at least one bit (its end-of-block code),
      and within the input. */
  lemma {:induction false} InflateAdvances(lit: seq<Node>, dist: seq<Node>, bytes: seq<Byte>, pos: nat, out: seq<Byte>)
    requires ValidArena(lit) && lit[0].code == Internal && ValidArena(dist) && pos <= 8 * |bytes|
    requires InflateFrom(lit, dist, bytes, pos, out).Ok?
    ensures pos < InflateFrom(lit, dist, bytes, pos, out).value.1 <= 8 * |bytes|
    decreases 8 * |bytes| - pos
  {
    var (token, q) := TokenAt(lit, dist, bytes, pos).value;
    if !token.EndOfBlock? {
      InflateAdvances(lit, dist, bytes, q, Apply(out, token).value);
    }
  }

  /** The copy loop of gunzip/deflate.cpp:218-222: `length` times, the byte
      under the back pointer is appended and the pointer moves one on; it
      starts `distance` bytes before the end. */
  method CopyMatch(buffer: seq<Byte>, distance: nat, length: nat) returns (result: seq<Byte>)
    requires 0 < distance <= |buffer|
    ensures result == CopyBack(buffer, distance, length)
  {
    result := buffer;
    var back := |buffer| - distance;
    var k := 0;
    while k < length
      invariant 0 <= k <= length && result == CopyBack(buffer, distance, k)
      invariant back == |result| - distance
    {
      result := result + [result[back]];
      back := back + 1;
      k := k + 1;
    }
  }

  /** The length part of gunzip/deflate.cpp:192-206. */
  method ReadLength(reader: Reader, code: int) returns (r: Result<nat>)
    requires reader.Valid() && code > 256
    modifies reader
    ensures reader.Valid() && Agrees(r, LengthAt(code, reader.bytes, old(reader.Pos())), reader.Pos())
  {
    if code < 265 {
      return Ok(code - 254);
    }
    if code < 285 {
      var extra := reader.ReadBitsInv((code - 261) / 4);
      if extra.Err? {
        return Err(extra.error);
      }
      return Ok(MatchLength(code, extra.value));
    }
    return Ok(258);
  }

  /** The extra bits of a distance symbol (gunzip/deflate.cpp:208-213). */
  method ReadDistanceExtra(reader: Reader, sym: int) returns (r: Result<int>)
    requires reader.Valid()
    modifies reader
    ensures reader.Valid() && Agrees(r, DistanceExtraAt(sym, reader.bytes, old(reader.Pos())), reader.Pos())
  {
    if sym <= 3 {
      return Ok(BackDistance(sym, 0));
    }
    var extra := reader.ReadBitsInv((sym - 2) / 2);
    if extra.Err? {
      return Err(extra.error);
    }
    if sym - 4 >= |DistanceAddend| {
      return Err(DistanceSymbolTooLarge);
    }
    r := Ok(BackDistance(sym, extra.value));
  }

  /** The distance part of gunzip/deflate.cpp:207-218, returning the back
      distance `dist + 1` the copy uses. */
  method ReadDistance(reader: Reader, dist: seq<Node>) returns (r: Result<int>)
    requires reader.Valid() && ValidArena(dist)
    modifies reader
    ensures reader.Valid() && Agrees(r, DistanceAt(dist, reader.bytes, old(reader.Pos())), reader.Pos())
  {
    var sym := ReadSymbol(dist, reader);
    if sym.Err? {
      return Err(sym.error);
    }
    r := ReadDistanceExtra(reader, sym.value);
  }

  /** `inflate` (gunzip/deflate.cpp:165-227): tokens until the end-of-block
      symbol, into a buffer that starts empty; the buffer is returned. */
  method Inflate(reader: Reader, lit: seq<Node>, dist: seq<Node>) returns (r: Result<seq<Byte>>)
    requires reader.Valid() && ValidArena(lit) && lit[0].code == Internal && ValidArena(dist)
    modifies reader
    ensures reader.Valid()
    ensures Agrees(r, InflateFrom(lit, dist, reader.bytes, old(reader.Pos()), []), reader.Pos())
  {
    var buffer: seq<Byte> := [];
    while true
      invariant reader.Valid()
      invariant InflateFrom(lit, dist, reader.bytes, old(reader.Pos()), []) ==
        InflateFrom(lit, dist, reader.bytes, reader.Pos(), buffer)
      decreases 8 * |reader.bytes| - reader.Pos()
    {
      ghost var pos := reader.Pos();
      var code := ReadSymbol(lit, reader);
      if code.Err? {
        return Err(code.error);
      }
      WalkAdvances(lit, reader.bytes, pos);
      if code.value == 256 {
        return Ok(buffer);
      }
      if code.value < 256 {
        buffer := buffer + [(code.value % 256) as Byte];
      } else {
        var length := ReadLength(reader, code.value);
        if length.Err? {
          return Err(length.error);
        }
        var distance := ReadDistance(reader, dist);
        if distance.Err? {
          return Err(distance.error);
        }
        if distance.value < 1 || distance.value > |buffer| {
          return Err(DistanceTooFar);
        }
        buffer := CopyMatch(buffer, distance.value, length.value);
      }
    }
  }
}
