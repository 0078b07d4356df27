/**
 * Value types shared by the spatial block layer of the ADΔER codec:
 * fixed-width integers, events with and without coordinates, the block
 * side length and the error a block reports.
 */
module Types {

  type U8 = x: int | 0 <= x < 0x100
  type U16 = x: int | 0 <= x < 0x1_0000
  type U32 = x: int | 0 <= x < 0x1_0000_0000

  /** Admissible block side lengths: at least one pixel, and N * N must fit a u16. */
  type Side = n: nat | 1 <= n <= 255 witness 1

  /**
   * BLOCK_SIZE_BIG. Its definition lives outside blocks.rs, so the model leaves
   * the value open: every result below holds for each admissible side length.
   */
  const BlockSizeBig: Side

  /** Number of pixel slots in one block, BLOCK_SIZE_BIG * BLOCK_SIZE_BIG. */
  const Slots: nat := BlockSizeBig * BlockSizeBig

  datatype Option<T> = None | Some(value: T)

  datatype Result<T, E> = Ok(value: T) | Err(error: E)

  /** A pixel address; an absent channel means channel 0. */
  datatype Coord = Coord(x: U16, y: U16, c: Option<U8>)

  datatype Event = Event(coord: Coord, d: U8, deltaT: U32)

  /** An event stripped of its coordinate: its slot in a block says where it is. */
  datatype EventCoordless = EventCoordless(d: U8, deltaT: U32)

  datatype BlockError = AlreadyExists(idx: nat)

  /** EventCoordless::from keeps the intensity exponent and the time delta. */
  function FromEvent(e: Event): (r: EventCoordless)
    ensures r.d == e.d && r.deltaT == e.deltaT
  {
    EventCoordless(e.d, e.deltaT)
  }

  /** Multiplying both sides of a <= b by the same natural number keeps the order. */
  lemma MulLeft(a: nat, b: nat, n: nat)
    requires a <= b
    ensures a * n <= b * n
  {
  }

  /** A block has at least one slot, and its slot count and fill count fit a u16. */
  lemma SlotsBounds()
    ensures 1 <= Slots <= 65025
  {
    MulLeft(1, BlockSizeBig, BlockSizeBig);
    MulLeft(BlockSizeBig, 255, BlockSizeBig);
  }
}
