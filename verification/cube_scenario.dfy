/**
 * The cube unit tests as client code: one event into a new cube, and one
 * channel after another filled in raster order followed by one more event at
 * the origin, which opens a second red block and leaves green and blue alone.
 */
module CubeScenario {
  import opened Types
  import opened Blocks
  import opened Channels
  import opened Cubes
  import ZigzagOrder

  /** In a cube at the origin, an event at pixel (y, x) of channel c goes to the row-major slot y * N + x of channel c. */
  lemma PixelRoutes(cube: Cube, ev: Event, y: nat, x: nat)
    requires cube.cubeIdxY == 0 && cube.cubeIdxX == 0
    requires y < BlockSizeBig && x < BlockSizeBig && ev.coord.y == y && ev.coord.x == x && ev.coord.c.Some?
    ensures ev.coord.y >= cube.cubeIdxY / BlockSizeBig && ev.coord.x >= cube.cubeIdxX / BlockSizeBig
    ensures cube.EventCoordToBlockIdx(ev) == (ZigzagOrder.Cell(BlockSizeBig, y, x), ev.coord.c.value as nat)
  {
    assert cube.cubeIdxY / BlockSizeBig == 0 && cube.cubeIdxX / BlockSizeBig == 0;
    var idx := cube.EventCoordToBlockIdx(ev).0;
    ZigzagOrder.DivBelow(BlockSizeBig, idx);
  }

  /**
   * test_set_event: one event at the origin of a new cube is accepted and goes
   * to slot 0 of the first red block, whose fill count becomes 1; the block is full only
   * when it has a single slot.
   */
  method SetOneEvent() returns (cube: Cube, r: Result<(), BlockError>)
    ensures r == Ok(())
    ensures cube.Valid()
    ensures cube.red.value.idxMap[0] == 1 && |cube.red.blocks| == 1
    ensures cube.red.blocks[0].Valid() && cube.red.blocks[0].fillCount == 1
    ensures cube.red.blocks[0].IsFilled() <==> Slots == 1
  {
    SlotsBounds();
    cube := new Cube(0, 0, 0);
    var ev := Event(Coord(0, 0, Some(0)), 7, 100);
    PixelRoutes(cube, ev, 0, 0);
    FirstEvent(FromEvent(ev));
    r := cube.SetEvent(ev);
    HoldsGeneration(cube.red, 0);
  }

  /** A channel holding one event per slot has a single block, and it is full. */
  lemma FullChannel(cb: ChannelBlocks, e: EventCoordless)
    requires cb.Valid() && cb.value == FeedRaster(NewChannel(), Slots, e)
    ensures |cb.blocks| == 1 && cb.blocks[0].Valid() && cb.blocks[0].IsFilled()
  {
    FillThenOverflow(e, e);
    HoldsGeneration(cb, 0);
  }

  /**
   * The end of test_set_many_events: in a cube at the origin whose three
   * channels each hold one event per slot, every first block is full; one
   * more event at the red origin is accepted and pushes a second red block
   * holding just that event, while green and blue keep one block each.
   */
  method OverflowAtOrigin(cube: Cube, e: EventCoordless) returns (r: Result<(), BlockError>)
    requires cube.Valid() && cube.cubeIdxY == 0 && cube.cubeIdxX == 0
    requires cube.red.value == FeedRaster(NewChannel(), Slots, e)
    requires cube.green.value == FeedRaster(NewChannel(), Slots, e)
    requires cube.blue.value == FeedRaster(NewChannel(), Slots, e)
    modifies cube.Repr()
    ensures cube.Valid() && r == Ok(())
    ensures |cube.red.blocks| == 2 && |cube.green.blocks| == 1 && |cube.blue.blocks| == 1
    ensures cube.red.blocks[0].Valid() && cube.red.blocks[0].IsFilled()
    ensures cube.green.blocks[0].Valid() && cube.green.blocks[0].IsFilled()
    ensures cube.blue.blocks[0].Valid() && cube.blue.blocks[0].IsFilled()
    ensures cube.red.blocks[1].Valid() && cube.red.blocks[1].fillCount == 1
  {
    var ev := Event(Coord(0, 0, Some(0)), 7, 100);
    PixelRoutes(cube, ev, 0, 0);
    FillThenOverflow(e, FromEvent(ev));
    r := cube.SetEvent(ev);
    assert cube.ChannelAt(1).value == old(cube.ChannelAt(1).value);
    assert cube.ChannelAt(2).value == old(cube.ChannelAt(2).value);
    HoldsGeneration(cube.red, 0);
    HoldsGeneration(cube.red, 1);
    FullChannel(cube.green, e);
    FullChannel(cube.blue, e);
  }
}
