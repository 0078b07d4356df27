/**
 * Cube: one spatial tile across the three colour channels, each held by a
 * ChannelBlocks, and the routing of an event to its channel and slot.
 */
module Cubes {
  import opened Types
  import opened Blocks
  import opened Channels
  import ZigzagOrder

  /**
   * One channel of a Cube: its vector of blocks and its per-slot index map,
   * the pair that set_event_for_channel receives.
   */
  class ChannelBlocks {
    var blocks: seq<Block>
    /** Per slot, the index in blocks of the block that takes the slot's next event. */
    const idxMap: array<nat>
    /** The channel value that the blocks and the index map hold. */
    ghost var value: Channel
    /** The blocks and their slot arrays. */
    ghost var footprint: set<object>

    ghost function Repr(): set<object>
      reads this
    {
      {this, idxMap} + footprint
    }

    /** The blocks and the index map hold value, which keeps the channel invariant. */
    ghost predicate Valid()
      reads this, Repr()
    {
      Holds(blocks, idxMap, value, footprint) && this !in footprint
    }

    /** The state Cube::new gives a channel: one new block and every index 0. */
    constructor ()
      ensures Valid() && fresh(Repr())
      ensures value == NewChannel()
    {
      var bs, m, fp := NewChannelBlocks();
      blocks, idxMap, value, footprint := bs, m, NewChannel(), fp;
    }

    /**
     * set_event_for_channel on this channel. Under the channel invariant it
     * always succeeds; the channel value changes as ChannelSetEvent says and
     * the blocks already present stay in place.
     */
    method SetEvent(event: Event, idx: nat) returns (r: Result<(), BlockError>)
      requires Valid() && idx < Slots
      modifies Repr()
      ensures Valid() && fresh(Repr() - old(Repr()))
      ensures r == Ok(())
      ensures (value, r) == ChannelSetEvent(old(value), idx, FromEvent(event))
      ensures |blocks| >= |old(blocks)| && blocks[..|old(blocks)|] == old(blocks)
    {
      ChannelSetEventKeepsInv(value, idx, FromEvent(event));
      blocks, r, value, footprint := SetEventForChannel(blocks, idxMap, event, idx, value, footprint);
    }
  }

  /** Three footprints that share no object. */
  ghost predicate Apart(a: set<object>, b: set<object>, c: set<object>)
  {
    a !! b && a !! c && b !! c
  }

  /**
   * set_event_for_channel on channel target of a cube whose other channels
   * are other1 and other2: those two keep their blocks and value, all three
   * keep their invariant and they still share no object.
   */
  method SetEventBeside(target: ChannelBlocks, other1: ChannelBlocks, other2: ChannelBlocks, event: Event, idx: nat)
    returns (r: Result<(), BlockError>)
    requires target.Valid() && other1.Valid() && other2.Valid() && Apart(target.Repr(), other1.Repr(), other2.Repr())
    requires idx < Slots
    modifies target.Repr()
    ensures target.Valid() && other1.Valid() && other2.Valid() && Apart(target.Repr(), other1.Repr(), other2.Repr())
    ensures fresh(target.Repr() - old(target.Repr()))
    ensures r == Ok(())
    ensures (target.value, r) == ChannelSetEvent(old(target.value), idx, FromEvent(event))
    ensures |target.blocks| >= |old(target.blocks)| && target.blocks[..|old(target.blocks)|] == old(target.blocks)
    ensures other1.blocks == old(other1.blocks) && other1.value == old(other1.value)
    ensures other2.blocks == old(other2.blocks) && other2.value == old(other2.value)
  {
    r := target.SetEvent(event, idx);
  }

  /** Three new channels, apart from each other. */
  method NewChannels() returns (r: ChannelBlocks, g: ChannelBlocks, b: ChannelBlocks)
    ensures r.Valid() && r.value == NewChannel() && fresh(r.Repr())
    ensures g.Valid() && g.value == NewChannel() && fresh(g.Repr())
    ensures b.Valid() && b.value == NewChannel() && fresh(b.Repr())
    ensures Apart(r.Repr(), g.Repr(), b.Repr())
  {
    r := NewChannelAvoiding({});
    g := NewChannelAvoiding(r.Repr());
    b := NewChannelAvoiding(r.Repr() + g.Repr());
  }

  /** A new channel, sharing no object with the given ones. */
  method NewChannelAvoiding(ghost avoid: set<object>) returns (c: ChannelBlocks)
    ensures c.Valid() && c.value == NewChannel() && fresh(c.Repr())
    ensures c.Repr() !! avoid
  {
    c := new ChannelBlocks();
  }

  /** A valid channel keeps the channel invariant, and its block k is a valid block holding generation k. */
  lemma HoldsGeneration(cb: ChannelBlocks, k: nat)
    requires cb.Valid() && k < |cb.value.gens|
    ensures ChannelInv(cb.value) && k < |cb.blocks|
    ensures cb.blocks[k].Valid() && cb.blocks[k].events[..] == cb.value.gens[k]
  {
  }

  // ---------------------------------------------------------------------
  // The cube

  class Cube {
    /** blocks_r and block_idx_map_r; likewise green and blue. */
    const red: ChannelBlocks
    const green: ChannelBlocks
    const blue: ChannelBlocks
    const cubeIdxY: nat
    const cubeIdxX: nat
    const cubeIdxC: nat

    ghost function Repr(): set<object>
      reads this, red, green, blue
    {
      red.Repr() + green.Repr() + blue.Repr()
    }

    /** Each channel keeps its invariant and no two channels share an object. */
    ghost predicate Valid()
      reads this, red, green, blue, Repr()
    {
      red.Valid() && green.Valid() && blue.Valid() && Apart(red.Repr(), green.Repr(), blue.Repr())
    }

    /** The channel numbered c: 0 red, 1 green, 2 blue. */
    function ChannelAt(c: nat): ChannelBlocks
      requires c < 3
      reads this
    {
      if c == 0 then red else if c == 1 then green else blue
    }

    /** Cube::new: each channel starts with one empty block and all indices 0. */
    constructor (cubeIdxY: nat, cubeIdxX: nat, cubeIdxC: nat)
      ensures Valid() && fresh(Repr())
      ensures this.cubeIdxY == cubeIdxY && this.cubeIdxX == cubeIdxX && this.cubeIdxC == cubeIdxC
      ensures red.value == NewChannel() && green.value == NewChannel() && blue.value == NewChannel()
    {
      var r, g, b := NewChannels();
      red, green, blue := r, g, b;
      this.cubeIdxY, this.cubeIdxX, this.cubeIdxC := cubeIdxY, cubeIdxX, cubeIdxC;
    }

    /**
     * Cube::event_coord_to_block_idx: the slot is the row-major index of the
     * event's position relative to the tile origin, taken as cube_idx / N for
     * each axis, and the channel is the event's, 0 when it has none. The u16
     * coordinate must not lie before that origin. When the local column is
     * inside the block, the slot decodes back to the local row and column, and
     * it names a slot of the block exactly when the local row is inside too.
     */
    function EventCoordToBlockIdx(event: Event): (r: (nat, nat))
      requires event.coord.y >= cubeIdxY / BlockSizeBig && event.coord.x >= cubeIdxX / BlockSizeBig
      ensures var localY := event.coord.y - cubeIdxY / BlockSizeBig;
        var localX := event.coord.x - cubeIdxX / BlockSizeBig;
        localX < BlockSizeBig ==>
          r.0 / BlockSizeBig == localY && r.0 % BlockSizeBig == localX && (r.0 < Slots <==> localY < BlockSizeBig)
      ensures event.coord.c.None? ==> r.1 == 0
      ensures event.coord.c.Some? ==> r.1 == event.coord.c.value
    {
      var idxY: nat := event.coord.y - cubeIdxY / BlockSizeBig;
      var idxX: nat := event.coord.x - cubeIdxX / BlockSizeBig;
      SlotDecodes(idxY, idxX);
      (idxY * BlockSizeBig + idxX, match event.coord.c case Some(c) => c case None => 0)
    }

    /**
     * Cube::set_event: routes the event to its channel and slot. Under the
     * cube invariant the call always succeeds; the routed channel changes as
     * ChannelSetEvent says and keeps its blocks in place, and the other two
     * channels keep their blocks and value.
     */
    method SetEvent(event: Event) returns (r: Result<(), BlockError>)
      requires Valid()
      requires event.coord.y >= cubeIdxY / BlockSizeBig && event.coord.x >= cubeIdxX / BlockSizeBig
      requires EventCoordToBlockIdx(event).0 < Slots
      requires EventCoordToBlockIdx(event).1 < 3
      modifies Repr()
      ensures Valid() && fresh(Repr() - old(Repr()))
      ensures r == Ok(())
      ensures var (idx, c) := EventCoordToBlockIdx(event);
        && (ChannelAt(c).value, r) == ChannelSetEvent(old(ChannelAt(c).value), idx, FromEvent(event))
        && |ChannelAt(c).blocks| >= |old(ChannelAt(c).blocks)|
        && ChannelAt(c).blocks[..|old(ChannelAt(c).blocks)|] == old(ChannelAt(c).blocks)
        && (forall c' :: 0 <= c' < 3 && c' != c ==>
              ChannelAt(c').blocks == old(ChannelAt(c').blocks) && ChannelAt(c').value == old(ChannelAt(c').value))
    {
      var (idx, c) := EventCoordToBlockIdx(event);
      if c == 0 {
        r := SetEventBeside(red, green, blue, event, idx);
      } else if c == 1 {
        r := SetEventBeside(green, red, blue, event, idx);
      } else {
        r := SetEventBeside(blue, red, green, event, idx);
      }
    }
  }

  /** The slot index of a pixel inside the block decodes back to it, and is a slot exactly when the row is inside. */
  lemma SlotDecodes(y: nat, x: nat)
    ensures 0 <= y * BlockSizeBig
    ensures x < BlockSizeBig ==>
      (y * BlockSizeBig + x) / BlockSizeBig == y && (y * BlockSizeBig + x) % BlockSizeBig == x &&
      (y * BlockSizeBig + x < Slots <==> y < BlockSizeBig)
  {
    var n: nat := BlockSizeBig;
    MulLeft(0, y, n);
    if x < n {
      ZigzagOrder.CellDivMod(n, y, x);
      if y < n {
        ZigzagOrder.CellBound(n, y, x);
      } else {
        MulLeft(n, y, n);
      }
    }
  }
}
