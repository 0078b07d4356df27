# ADΔER spatial blocks in Dafny

A Dafny model of the spatial block layer of the ADΔER event codec
(`adder-codec-rs/src/codec/compressed/blocks.rs`). The layer groups the events
of one spatial tile into fixed N × N blocks, where N is `BLOCK_SIZE_BIG`.

- **The zig-zag scan table.** `gen_zigzag_order` is modelled as
  `ZigzagOrder.GenZigzagOrder`. This is the cursor walk over an array, with
  its loop invariants. It is proved equal to `ZigzagSpec`, a reference
  definition of the JPEG zig-zag order (ITU-T T.81, section A.3.6,
  Figure A.6). `ZigzagSpec` lists the anti-diagonals one after another,
  alternating direction. The model then proves that the order is a
  permutation of the slots, starts at 0, ends at N² − 1 and has an inverse,
  `RankOf`.
- **Blocks.** `Block` is a class with a slot array and a `u16` fill count.
  - Its invariant is that the fill count equals the number of filled slots.
  - `SetEvent` writes an empty slot once. On an occupied slot it reports
    `AlreadyExists(idx)` and changes nothing.
  - `ZigZag` is the iterator that reads a block's slots in table order, and
    `ScanBlock` drains it.
- **Channels.** A cube channel is a growing vector of blocks (its
  "generations") plus a per-slot index of the block that takes that pixel's
  next event. It is given twice.
  - On values: `Channel` and `ChannelSetEvent`, with the channel invariant.
    The invariant says each index is at most the number of blocks, and
    block k holds an event for slot i exactly when k is below i's index.
  - On the heap: `SetEventForChannel` over `Block` objects and an index
    array, proved to follow the value version.
- **Cube.** `Cube` holds three channels (red, green, blue) and routes an
  event to the slot `(y − cube_idx_y / N)·N + (x − cube_idx_x / N)` of
  channel `c.unwrap_or(0)`. The other two channels are left untouched.
- **The cube unit tests.** `test_set_event` and `test_set_many_events` are
  stated as lemmas about channel values and as client methods on a heap
  cube.

`BLOCK_SIZE_BIG` is defined outside this file. The model keeps it as an open
constant between 1 and 255, so N² fits the `u16` fill count and table
entries. Every result holds for each such N.

## Model

| member | source | states |
|---|---|---|
| ZigzagOrder.GenZigzagOrder | adder-codec-rs/src/codec/compressed/blocks.rs:29-68 | the table written by the cursor loop is exactly the zig-zag order ZigzagSpec(N); every entry fits a u16 |
| ZigzagOrder.Advance | adder-codec-rs/src/codec/compressed/blocks.rs:43-65 | one cursor move (turning at the right, top, bottom or left edge, else moving diagonally) lands on the next pixel of the zig-zag order, inside the block |
| ZigzagOrder.CellBound | adder-codec-rs/src/codec/compressed/blocks.rs:36 | a cursor inside the block writes a row-major index below N² |
| ZigzagOrder.ZigzagIsPermutation | adder-codec-rs/src/codec/compressed/blocks.rs:76-87 | the order has N² entries, all below N² and pairwise distinct, so every slot appears once; it starts at 0 and ends at N² − 1 |
| ZigzagOrder.ZigzagCovers | adder-codec-rs/src/codec/compressed/blocks.rs:76-81 | every slot below N² occurs in the order |
| ZigzagOrder.ZigzagFirst | adder-codec-rs/src/codec/compressed/blocks.rs:31-36 | the first entry is slot 0, where the cursor starts |
| ZigzagOrder.ZigzagLast | adder-codec-rs/src/codec/compressed/blocks.rs:83-86 | the last entry is slot N² − 1, the bottom-right pixel |
| ZigzagOrder.RankOf | adder-codec-rs/src/codec/compressed/blocks.rs:28-29 | the position of slot v in the order, at which the order holds v |
| ZigzagOrder.ZigzagRoundTrip | adder-codec-rs/src/codec/compressed/blocks.rs:28-29 | slot index and zig-zag position convert into each other both ways |
| Blocks.FilledCount | adder-codec-rs/src/codec/compressed/blocks.rs:20 | the number of filled slots is at most the slot count, and equals it exactly when every slot is filled |
| Blocks.FilledCountFill | adder-codec-rs/src/codec/compressed/blocks.rs:148-151 | filling an empty slot raises the number of filled slots by exactly one |
| Blocks.FilledCountNone | adder-codec-rs/src/codec/compressed/blocks.rs:129-137 | slots that are all empty count zero filled |
| Blocks.PlaceEvent | adder-codec-rs/src/codec/compressed/blocks.rs:145-154 | Block::set_event on the slot array: it succeeds exactly on an empty slot, which then holds the event; otherwise it returns AlreadyExists with the same index and nothing changes; other slots never change |
| Blocks.PlaceEventFacts | adder-codec-rs/src/codec/compressed/blocks.rs:148-151 | the number of filled slots rises by one exactly when the event is accepted and stays the same on AlreadyExists |
| Blocks.Block.constructor | adder-codec-rs/src/codec/compressed/blocks.rs:129-137 | every slot is empty, the fill count is 0, and the fill count invariant holds |
| Blocks.Block.IsFilled | adder-codec-rs/src/codec/compressed/blocks.rs:139-142 | true exactly when every slot holds an event |
| Blocks.Block.SetEvent | adder-codec-rs/src/codec/compressed/blocks.rs:144-154 | the slots and result are those of PlaceEvent on the old slots; the fill count rises by one on success only, never overflows the u16, and keeps the invariant |
| Blocks.ZigZag.constructor | adder-codec-rs/src/codec/compressed/blocks.rs:102-108 | the iterator starts at position 0 over the given block and table |
| Blocks.ZigZag.Next | adder-codec-rs/src/codec/compressed/blocks.rs:114-125 | the k-th call returns Some of the slot that table entry k − 1 names, never None; only the position moves |
| Blocks.ScanBlock | adder-codec-rs/src/codec/compressed/blocks.rs:111-126 | draining N² items yields item k = slot order[k]; with the zig-zag table, slot v comes out at its zig-zag position RankOf(N, v) |
| Channels.NewChannel | adder-codec-rs/src/codec/compressed/blocks.rs:173-185 | a new channel has one empty block and all indices 0, and it satisfies the channel invariant |
| Channels.ChannelSetEvent | adder-codec-rs/src/codec/compressed/blocks.rs:213-229 | set_event_for_channel on values, for any well-shaped channel: a block is pushed exactly when the slot's index equals the vector length; it fails exactly when that block's slot is filled, with AlreadyExists(idx) and nothing changed; on success the index rises by one and the slot holds the event |
| Channels.ChannelSetEventPointwise | adder-codec-rs/src/codec/compressed/blocks.rs:213-229 | under the channel invariant the call succeeds, exactly one slot of one block changes from empty to the event, a pushed block is otherwise empty, and only that slot's index moves |
| Channels.ChannelSetEventKeepsInv | adder-codec-rs/src/codec/compressed/blocks.rs:166-167 | set_event_for_channel keeps the invariant (indices at most the length; block k filled at slot i iff k < index of i), so it always succeeds under it |
| Channels.GenerationFilled | adder-codec-rs/src/codec/compressed/blocks.rs:139-142 | under the invariant, block k is full exactly when every slot's index has moved past k |
| Channels.FirstEvent | adder-codec-rs/src/codec/compressed/blocks.rs:318-328 | the first event at slot 0 of a new channel succeeds, fills one slot of the only block and sets that slot's index to 1 |
| Channels.FeedRaster | adder-codec-rs/src/codec/compressed/blocks.rs:336-338 | a channel fed one event per slot in raster order keeps the channel invariant |
| Channels.FeedRasterNew | adder-codec-rs/src/codec/compressed/blocks.rs:330-339 | feeding a new channel the slots below n in order accepts every event, keeps one block and sets exactly those indices to 1 |
| Channels.FillThenOverflow | adder-codec-rs/src/codec/compressed/blocks.rs:330-377 | after one event per slot, the only block is full; one more event at slot 0 succeeds and pushes a second block holding just that event; the first block is unchanged |
| Channels.SetEventForChannel | adder-codec-rs/src/codec/compressed/blocks.rs:213-229 | the heap vector and index array move exactly as ChannelSetEvent says, the existing blocks stay in place, and new objects are fresh |
| Channels.PushIfNeeded | adder-codec-rs/src/codec/compressed/blocks.rs:219-221 | a new empty block is appended exactly when the index has reached the vector's length, so the indexed block exists |
| Channels.SetEventInBlock | adder-codec-rs/src/codec/compressed/blocks.rs:222 | Block::set_event on the indexed block; no other block changes |
| Channels.AppendBlock | adder-codec-rs/src/codec/compressed/blocks.rs:220 | pushing a new empty block extends the stored generations by one empty generation |
| Channels.NewChannelBlocks | adder-codec-rs/src/codec/compressed/blocks.rs:175-183 | one new block and an index array of zeros hold the new channel value |
| Cubes.ChannelBlocks.constructor | adder-codec-rs/src/codec/compressed/blocks.rs:175-183 | a channel object holding the new channel value |
| Cubes.ChannelBlocks.SetEvent | adder-codec-rs/src/codec/compressed/blocks.rs:213-229 | set_event_for_channel on one channel: the value changes as ChannelSetEvent says, always Ok under the invariant, and existing blocks stay in place |
| Cubes.SetEventBeside | adder-codec-rs/src/codec/compressed/blocks.rs:190-195 | updating one channel leaves the other two channels' blocks and values unchanged and keeps the three apart |
| Cubes.NewChannels | adder-codec-rs/src/codec/compressed/blocks.rs:173-185 | three new channels, each valid and new, sharing no object |
| Cubes.Cube.constructor | adder-codec-rs/src/codec/compressed/blocks.rs:173-185 | each channel has one empty block and zero indices, and the cube indices are stored |
| Cubes.Cube.EventCoordToBlockIdx | adder-codec-rs/src/codec/compressed/blocks.rs:198-210 | the channel is c, or 0 when absent; the slot decodes to (y − cube_idx_y / N, x − cube_idx_x / N) and is below N² exactly when the local row is inside the block |
| Cubes.SlotDecodes | adder-codec-rs/src/codec/compressed/blocks.rs:207 | a row-major index y·N + x with x < N decodes back to (y, x) and is below N² exactly when y < N |
| Cubes.Cube.SetEvent | adder-codec-rs/src/codec/compressed/blocks.rs:187-196 | the event goes to the channel and slot EventCoordToBlockIdx names, which changes as ChannelSetEvent says; the other two channels keep their blocks and values |
| CubeScenario.PixelRoutes | adder-codec-rs/src/codec/compressed/blocks.rs:198-210 | in a cube at the origin, pixel (y, x) of channel c goes to slot y·N + x of channel c |
| CubeScenario.SetOneEvent | adder-codec-rs/src/codec/compressed/blocks.rs:318-328 | one event at the origin of a new cube is accepted (Ok), sets red index 0 to 1 and the fill count of the first red block to 1; that block is full only if N = 1 |
| CubeScenario.FullChannel | adder-codec-rs/src/codec/compressed/blocks.rs:336-347 | a channel holding one event per slot has a single block, and it is full |
| CubeScenario.OverflowAtOrigin | adder-codec-rs/src/codec/compressed/blocks.rs:364-377 | with all three channels full, one more event at the red origin succeeds; red then has 2 blocks (the second holding one event) and green and blue keep 1, all first blocks full |
| Types.FromEvent | adder-codec-rs/src/framer/scale_intensity.rs:30-33 | the stored event keeps the event's intensity exponent d and time delta, and drops its coordinate |
| Types.SlotsBounds | adder-codec-rs/src/codec/compressed/blocks.rs:141 | N² is between 1 and 65025, so it and the fill count fit a u16 |

## Left out

- The static `ZIGZAG_ORDER` (blocks.rs:26) is `gen_zigzag_order()` evaluated once. Only the function is modelled, as `GenZigzagOrder`.
- `BLOCK_SIZE_BIG` is defined outside blocks.rs. Its value is left open between 1 and 255.
- `EventCoordless::from` is modelled as `FromEvent`, which copies `d` and `delta_t`. The rest of `scale_intensity` is floating-point conversion and is not part of this model.
- The `thiserror` derive and the message of `BlockError` are not modelled. Only the variant and its index are.
- The three tile indices of `Block::new` and the cube's `cube_idx_c` are stored or accepted but never read by the source. They have no effect in the model.
- Panics become preconditions:
  - a channel outside 0..2;
  - a coordinate before the tile origin. `idx_y` or `idx_x` underflows `usize` (blocks.rs:201-202). This panics with overflow checks on. Without them it wraps, and `idx_y * N + idx_x` (blocks.rs:207) can wrap back into range: one row before the origin with a local column in N..2N−1 lands on slot `idx_x − N`. The model excludes this case;
  - a slot index more than one past the last block (`ch.idxMap[idx] <= |ch.gens|` in `ChannelSetEvent` and `SetEventForChannel`). The source pushes one block and then panics indexing the vector (blocks.rs:222). The channel invariant rules this out;
  - a slot at or beyond N²;
  - a `ZigZag::next` call past the end of the table, which reads unchecked.
- `usize` arithmetic is unbounded in the model. The index-map increment and `idx_y * N + idx_x` cannot wrap for any reachable cube.
- The cube's six per-channel fields are grouped as three `ChannelBlocks` objects, each holding one vector and its index map. The index maps are arrays of unbounded naturals. A vector is a sequence of `Block` references whose blocks are updated in place.
- The N² raster-order `Cube::set_event` calls of `test_set_many_events` are modelled on channel values (`FeedRaster`, `FillThenOverflow`), not as a loop over a heap cube. The heap cube covers the single events: `SetOneEvent`, and `OverflowAtOrigin` from the filled state.
- The performance advice about a stack-local versus a static table (blocks.rs:96-100) and the commented-out code are not modelled.
- The stale tests are not modelled:
  - `test_zig_zag` calls a `zigzag_order()` that does not exist;
  - `zig_zag_iter` calls `ZigZag::new` with one argument;
  - `test_zigzag_iter` uses events that are all equal, so it cannot observe the scan order.

  Their intent is covered by `ZigzagIsPermutation` and `ScanBlock`.
- Cubes.Cube.EventCoordToBlockIdx: when the local column is N or more, the contract states no decoding. The index is then the row-major sum, which can alias a pixel of a later row, and the source does not guard it.
- Cubes.Cube.SetEvent: the cube invariant is required. Under it the call always succeeds. The `AlreadyExists` path of `set_event_for_channel` is stated by `Channels.ChannelSetEvent` and `Channels.SetEventForChannel`, which do not require the invariant.
