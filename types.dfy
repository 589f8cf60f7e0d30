/** Value types shared by the query path of the term-search driver. */
module SearchTypes {

  /** 2^32: one past the largest value of a 32-bit unsigned integer. */
  const Pow32: nat := 0x1_0000_0000
  /** 2^64: one past the largest value of a 64-bit unsigned integer. */
  const Pow64: nat := 0x1_0000_0000_0000_0000
  /** UINT_MAX of the C platform the engine targets (32-bit `unsigned int`). */
  const UintMax: nat := 0xFFFF_FFFF

  /** `uint32_t`, and `doc_id_t` / `position_t`, which are 32-bit unsigned. */
  type U32 = x: nat | x < Pow32
  /** `uint64_t`, the id width the merge engine works in. */
  type U64 = x: nat | x < Pow64
  type DocId = U32
  type Position = U32

  /**
   * The relevance score of a hit. The engine computes it in floating point;
   * here it is an opaque value that is only compared.
   */
  type Score = real

  /**
   * `struct term_posting_item` with its position array: a document id and
   * the ascending intra-document positions of the term. The term frequency
   * `tf` is the number of positions.
   */
  datatype PostingItem = PostingItem(docId: DocId, positions: seq<Position>)
  {
    function Tf(): nat { |positions| }

    /** `tf` is a `uint32_t` field, so an item holds fewer than 2^32 positions. */
    predicate Valid() { |positions| < Pow32 }
  }

  /** `enum postmerge_op`. */
  datatype MergeOp = OpAnd | OpOr | OpUndef

  /** `x++` on a `uint32_t`: wraps from the largest value to zero. */
  function Inc32(x: U32): (y: U32)
  {
    if x + 1 == Pow32 then 0 else x + 1
  }

  function Min(a: nat, b: nat): (m: nat)
  {
    if a < b then a else b
  }
}
