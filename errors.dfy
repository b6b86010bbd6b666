/** The ways a decode can fail. Each one stands for an exception or for
    undefined behaviour in the C++ decoder, made into a value here. */
module Errors {

  datatype Error =
    | EndOfStream             // a bit read past the last byte (`std::vector::at` throws)
    | NullChild               // a Huffman walk followed a child pointer that is null
    | EmptyRanges             // a tree built from an empty range list (`ranges.back()`)
    | RepeatAtStart           // code-length symbol 16 as the very first entry (`alphabet[-1]`)
    | RepeatOverflow          // a repeat run writes past the end of the alphabet
    | ReadPastAlphabet        // the distance split reads the entry one past the alphabet
    | DistanceSymbolTooLarge  // distance symbol 30 or 31 indexes past the base table
    | DistanceTooFar          // a back-reference starts before the block's first byte
    | UnsupportedBlockType(btype: int)  // BTYPE other than 2 (`throw "oh no "`)

  datatype Result<T> = Ok(value: T) | Err(error: Error)

  /** A method's result `r`, with its reader left at bit position `pos`,
      is what the specification `spec` computes: the same value and the same
      end position, or the same error. */
  ghost predicate Agrees<T>(r: Result<T>, spec: Result<(T, nat)>, pos: nat)
  {
    (spec.Ok? ==> r == Ok(spec.value.0) && pos == spec.value.1) &&
    (spec.Err? ==> r == Err(spec.error))
  }
}
