/** The block structure of a DEFLATE stream (RFC 1951 section 3.2.3) as
    `dynamic_huffman`, `read_block` and `deflate` (gunzip/deflate.cpp:
    229-379) walk it: a three-bit block header, then a dynamic Huffman
    block, until the block marked final. */
module Blocks {
  import opened Errors
  import opened Bits
  import opened Huffman
  import opened Trie
  import opened Inflate
  import opened Header
  import opened Seqs

  /** The dynamic Huffman block whose header starts at bit `pos`: its header,
      then its data decoded with the header's two trees into a buffer that
      starts empty. */
  ghost function DynamicBlockAt(bytes: seq<Byte>, pos: nat): (r: Result<(seq<Byte>, nat)>)
    ensures r.Ok? ==> pos < r.value.1 <= 8 * |bytes|
  {
    match HeaderAt(bytes, pos)
    case Err(e) => Err(e)
    case Ok((lengths, p)) =>
      var (lit, dist) := HeaderTrees(lengths);
      match InflateFrom(lit, dist, bytes, p, [])
      case Err(e) => Err(e)
      case Ok((data, q)) =>
        InflateAdvances(lit, dist, bytes, p, []);
        Ok((data, q))
  }

  /** `dynamic_huffman` (gunzip/deflate.cpp:229-343), with the literal/length
      and distance splits corrected: header, trees, then `inflate`. */
  method DynamicHuffman(reader: Reader) returns (r: Result<seq<Byte>>)
    requires reader.Valid()
    modifies reader
    ensures reader.Valid()
    ensures Agrees(r, DynamicBlockAt(reader.bytes, old(reader.Pos())), reader.Pos())
  {
    var trees := ReadHeader(reader);
    if trees.Err? {
      return Err(trees.error);
    }
    r := Inflate.Inflate(reader, trees.value.0, trees.value.1);
  }

  /** BTYPE of a block coded with dynamic Huffman codes. */
  const DynamicHuffmanType: nat := 2

  /** The widths of BFINAL and BTYPE. */
  const FinalBits: nat := 1
  const TypeBits: nat := 2

  /** `ReadBlockResult`: a block's decoded bytes and its BFINAL flag. */
  datatype Block = Block(data: seq<Byte>, final: bool)

  /** BFINAL and BTYPE at bit `pos`. */
  function BlockHeaderAt(bytes: seq<Byte>, pos: nat): (r: Result<((nat, nat), nat)>)
    ensures r.Ok? ==> r.value.1 == pos + FinalBits + TypeBits <= 8 * |bytes|
    ensures r.Ok? ==> r.value.0.0 < 2 && r.value.0.1 < 4
    ensures r.Err? <==> pos + FinalBits + TypeBits > 8 * |bytes|
  {
    if pos + FinalBits + TypeBits > 8 * |bytes| then Err(EndOfStream)
    else
      BitsValueBound(bytes, pos, FinalBits);
      BitsValueBound(bytes, pos + FinalBits, TypeBits);
      assert Pow2(1) == 2 && Pow2(2) == 4;
      Ok(((BitsValue(bytes, pos, FinalBits), BitsValue(bytes, pos + FinalBits, TypeBits)), pos + FinalBits + TypeBits))
  }

  /** The block whose BFINAL and BTYPE are `final` and `btype` and whose
      body starts at bit `p`. Only BTYPE 2 is decoded; stored (0), fixed
      Huffman (1) and reserved (3) blocks are errors. */
  ghost function BlockBody(bytes: seq<Byte>, final: nat, btype: nat, p: nat): (r: Result<(Block, nat)>)
    ensures r.Ok? ==> p < r.value.1 <= 8 * |bytes|
  {
    if btype != DynamicHuffmanType then Err(UnsupportedBlockType(btype))
    else
      match DynamicBlockAt(bytes, p)
      case Err(e) => Err(e)
      case Ok((data, q)) => Ok((Block(data, final != 0), q))
  }

  /** The block at bit `pos` and the position after it. */
  ghost function BlockAt(bytes: seq<Byte>, pos: nat): (r: Result<(Block, nat)>)
    ensures r.Ok? ==> pos + FinalBits + TypeBits < r.value.1 <= 8 * |bytes|
  {
    match BlockHeaderAt(bytes, pos)
    case Err(e) => Err(e)
    case Ok(((final, btype), p)) => BlockBody(bytes, final, btype, p)
  }

  /** The bits of a block's data lie after its header. */
  lemma BlockIsDynamic(bytes: seq<Byte>, pos: nat)
    requires BlockAt(bytes, pos).Ok?
    ensures var ((final, btype), p) := BlockHeaderAt(bytes, pos).value;
      btype == DynamicHuffmanType && (final == 1) == BlockAt(bytes, pos).value.0.final &&
      DynamicBlockAt(bytes, p) == Ok((BlockAt(bytes, pos).value.0.data, BlockAt(bytes, pos).value.1))
  {
  }

  /** `read_block` (gunzip/deflate.cpp:350-368). */
  method ReadBlock(reader: Reader) returns (r: Result<Block>)
    requires reader.Valid()
    modifies reader
    ensures reader.Valid()
    ensures Agrees(r, BlockAt(reader.bytes, old(reader.Pos())), reader.Pos())
  {
    ghost var pos := reader.Pos();
    var final := reader.ReadBitsInv(FinalBits);
    if final.Err? {
      return Err(final.error);
    }
    var btype := reader.ReadBitsInv(TypeBits);
    if btype.Err? {
      return Err(btype.error);
    }
    assert BlockHeaderAt(reader.bytes, pos) == Ok(((final.value, btype.value), reader.Pos()));
    assert BlockAt(reader.bytes, pos) == BlockBody(reader.bytes, final.value, btype.value, reader.Pos());
    if btype.value != DynamicHuffmanType {
      return Err(UnsupportedBlockType(btype.value));
    }
    var data := DynamicHuffman(reader);
    if data.Err? {
      return Err(data.error);
    }
    return Ok(Block(data.value, final.value != 0));
  }

  /** The blocks from bit `pos` up to and including the first final one,
      their data appended to `out`. */
  ghost function DeflateFrom(bytes: seq<Byte>, pos: nat, out: seq<Byte>): Result<seq<Byte>>
    decreases 8 * |bytes| - pos
  {
    match BlockAt(bytes, pos)
    case Err(e) => Err(e)
    case Ok((block, q)) =>
      if block.final then Ok(out + block.data) else DeflateFrom(bytes, q, out + block.data)
  }

  /** Bytes of earlier blocks never change: the stream's output extends
      whatever was decoded before bit `pos`. */
  lemma {:induction false} DeflateExtends(bytes: seq<Byte>, pos: nat, out: seq<Byte>)
    requires DeflateFrom(bytes, pos, out).Ok?
    ensures |out| <= |DeflateFrom(bytes, pos, out).value|
    ensures DeflateFrom(bytes, pos, out).value[..|out|] == out
    decreases 8 * |bytes| - pos
  {
    var (block, q) := BlockAt(bytes, pos).value;
    if block.final {
      AppendPrefix(out, block.data);
    } else {
      DeflateExtends(bytes, q, out + block.data);
      PrefixOfPrefix(out, block.data, DeflateFrom(bytes, q, out + block.data).value);
    }
  }

  /** `deflate` (gunzip/deflate.cpp:370-379): blocks until BFINAL is set;
      the bytes of all blocks in order. */
  method Deflate(bytes: seq<Byte>) returns (r: Result<seq<Byte>>)
    ensures r == DeflateFrom(bytes, 0, [])
  {
    var reader := new Reader(bytes);
    var out: seq<Byte> := [];
    var final := false;
    while !final
      invariant reader.Valid() && reader.bytes == bytes
      invariant !final ==> DeflateFrom(bytes, 0, []) == DeflateFrom(bytes, reader.Pos(), out)
      invariant final ==> DeflateFrom(bytes, 0, []) == Ok(out)
      decreases 8 * |bytes| - reader.Pos()
    {
      var block := ReadBlock(reader);
      if block.Err? {
        return Err(block.error);
      }
      out := out + block.value.data;
      final := block.value.final;
    }
    return Ok(out);
  }
}
