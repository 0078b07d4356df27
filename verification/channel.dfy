/**
 * One colour channel of a Cube: a growing sequence of blocks (generations)
 * and a per-slot index of the block that takes that pixel's next event. The
 * channel logic is given twice: on values (Channel, ChannelSetEvent) and on
 * the heap (SetEventForChannel, on a vector of Block objects and an index
 * array), and the heap version is proved to follow the value version.
 */
module Channels {
  import opened Types
  import opened Blocks

  // ---------------------------------------------------------------------
  // One channel, on values

  /** A channel as values: the slots of each generation and the per-slot generation index. */
  datatype Channel = Channel(gens: seq<seq<Slot>>, idxMap: seq<nat>)

  /** Every generation and the index map have one entry per slot. */
  predicate Shaped(ch: Channel)
  {
    |ch.idxMap| == Slots && forall k :: 0 <= k < |ch.gens| ==> |ch.gens[k]| == Slots
  }

  /**
   * The channel invariant a Cube keeps: there is at least one generation, no
   * slot's index runs more than one past the last generation, and generation k
   * holds an event for slot i exactly when k is below the index of slot i.
   */
  predicate ChannelInv(ch: Channel)
  {
    && Shaped(ch)
    && |ch.gens| >= 1
    && (forall i :: 0 <= i < Slots ==> ch.idxMap[i] <= |ch.gens|)
    && (forall k, i :: 0 <= k < |ch.gens| && 0 <= i < Slots ==> (ch.gens[k][i].Some? <==> k < ch.idxMap[i]))
  }

  /** A channel as Cube::new leaves it: one empty block, every index 0. */
  function NewChannel(): (ch: Channel)
    ensures ChannelInv(ch)
    ensures |ch.gens| == 1 && FilledCount(ch.gens[0]) == 0
  {
    var ch := Channel([EmptySlots()], seq(Slots, _ => 0));
    FilledCountNone(ch.gens[0]);
    ch
  }

  /**
   * set_event_for_channel on values: a new empty generation is appended when
   * the slot's index has reached the end, the event goes into the slot of the
   * generation the index names, and the index advances only on success.
   * For any well-shaped channel: one generation is appended exactly when the
   * slot's index equals the number of generations, and the call fails exactly
   * when the slot of the indexed generation is already filled, with
   * AlreadyExists(idx), leaving the generations and the index map as they were.
   */
  function ChannelSetEvent(ch: Channel, idx: nat, e: EventCoordless): (r: (Channel, Result<(), BlockError>))
    requires Shaped(ch) && idx < Slots && ch.idxMap[idx] <= |ch.gens|
    ensures Shaped(r.0)
    ensures |r.0.gens| == (if ch.idxMap[idx] == |ch.gens| then |ch.gens| + 1 else |ch.gens|)
    ensures r.1.Err? <==> ch.idxMap[idx] < |ch.gens| && ch.gens[ch.idxMap[idx]][idx].Some?
    ensures r.1.Err? ==> r.1.error == AlreadyExists(idx) && r.0 == ch
    ensures r.1.Ok? ==> r.0.idxMap == ch.idxMap[idx := ch.idxMap[idx] + 1] && r.0.gens[ch.idxMap[idx]][idx] == Some(e)
  {
    var k := ch.idxMap[idx];
    var gens: seq<seq<Slot>> := if k >= |ch.gens| then ch.gens + [EmptySlots()] else ch.gens;
    var (slots, r) := PlaceEvent(gens[k], idx, e);
    (Channel(gens[k := slots], if r.Ok? then ch.idxMap[idx := k + 1] else ch.idxMap), r)
  }

  /** ChannelSetEvent, step by step: the vector after the push, then the block update. */
  lemma ChannelSetEventUnfold(ch: Channel, idx: nat, e: EventCoordless, gens: seq<seq<Slot>>, slots: seq<Slot>, r: Result<(), BlockError>)
    requires Shaped(ch) && idx < Slots && ch.idxMap[idx] <= |ch.gens|
    requires gens == if ch.idxMap[idx] >= |ch.gens| then ch.gens + [EmptySlots()] else ch.gens
    requires (slots, r) == PlaceEvent(gens[ch.idxMap[idx]], idx, e)
    ensures ChannelSetEvent(ch, idx, e) ==
      (Channel(gens[ch.idxMap[idx] := slots], if r.Ok? then ch.idxMap[idx := ch.idxMap[idx] + 1] else ch.idxMap), r)
  {
  }

  /**
   * Under the channel invariant set_event_for_channel always succeeds:
   * exactly one slot of one generation changes, from empty to the event, a
   * pushed generation is otherwise empty, and only that slot's index moves,
   * by one.
   */
  lemma ChannelSetEventPointwise(ch: Channel, idx: nat, e: EventCoordless)
    requires ChannelInv(ch) && idx < Slots
    ensures var (ch', r) := ChannelSetEvent(ch, idx, e);
      var k := ch.idxMap[idx];
      && r == Ok(())
      && Shaped(ch')
      && |ch'.gens| == (if k == |ch.gens| then |ch.gens| + 1 else |ch.gens|)
      && ch'.idxMap == ch.idxMap[idx := k + 1]
      && (forall j, i :: 0 <= j < |ch'.gens| && 0 <= i < Slots ==>
            ch'.gens[j][i] == (if j == k && i == idx then Some(e) else if j < |ch.gens| then ch.gens[j][i] else None))
  {
    var k := ch.idxMap[idx];
    var gens: seq<seq<Slot>> := if k >= |ch.gens| then ch.gens + [EmptySlots()] else ch.gens;
    assert gens[k][idx].None?;
    var slots := gens[k][idx := Some(e)];
    ChannelSetEventUnfold(ch, idx, e, gens, slots, Ok(()));
    var ch' := Channel(gens[k := slots], ch.idxMap[idx := k + 1]);
    forall j, i | 0 <= j < |ch'.gens| && 0 <= i < Slots
      ensures ch'.gens[j][i] == (if j == k && i == idx then Some(e) else if j < |ch.gens| then ch.gens[j][i] else None)
    {
      if j < |ch.gens| {
        assert gens[j] == ch.gens[j];
      }
    }
  }

  /** set_event_for_channel keeps the channel invariant, and so always succeeds under it. */
  lemma ChannelSetEventKeepsInv(ch: Channel, idx: nat, e: EventCoordless)
    requires ChannelInv(ch) && idx < Slots
    ensures var (ch', r) := ChannelSetEvent(ch, idx, e);
      r == Ok(()) && ChannelInv(ch')
  {
    ChannelSetEventPointwise(ch, idx, e);
    var (ch', r) := ChannelSetEvent(ch, idx, e);
    var k := ch.idxMap[idx];
    forall j, i | 0 <= j < |ch'.gens| && 0 <= i < Slots
      ensures ch'.gens[j][i].Some? <==> j < ch'.idxMap[i]
    {
      if j == k && i == idx {
      } else if j < |ch.gens| {
        assert ch'.gens[j][i] == ch.gens[j][i];
      } else {
        assert ch'.gens[j][i] == None;
      }
    }
  }

  /** Generation k is complete exactly when every slot's index has moved past it. */
  lemma GenerationFilled(ch: Channel, k: nat)
    requires ChannelInv(ch) && k < |ch.gens|
    ensures FilledCount(ch.gens[k]) == Slots <==> forall i :: 0 <= i < Slots ==> k < ch.idxMap[i]
  {
    var s := ch.gens[k];
    if FilledCount(s) == Slots {
      forall i | 0 <= i < Slots
        ensures k < ch.idxMap[i]
      {
        assert s[i].Some?;
      }
    }
    if forall i :: 0 <= i < Slots ==> k < ch.idxMap[i] {
      forall i | 0 <= i < |s|
        ensures s[i].Some?
      {
        assert k < ch.idxMap[i];
      }
    }
  }

  /**
   * test_set_event, on one channel: the first event for slot 0 of a new
   * channel is accepted, lands in the first generation, which then holds just
   * that event, and moves slot 0's index to 1.
   */
  lemma FirstEvent(e: EventCoordless)
    ensures 1 <= Slots
    ensures var (ch, r) := ChannelSetEvent(NewChannel(), 0, e);
      && r == Ok(()) && |ch.gens| == 1 && ch.idxMap[0] == 1
      && ch.gens[0] == EmptySlots()[0 := Some(e)] && FilledCount(ch.gens[0]) == 1
  {
    SlotsBounds();
    ChannelSetEventPointwise(NewChannel(), 0, e);
    FilledCountNone(EmptySlots());
    FilledCountFill(EmptySlots(), 0, e);
  }

  /**
   * The channel after one event for each of the slots 0 .. n - 1, in that
   * order, as the cube tests feed a channel in raster order. An event loses
   * its coordinate when stored, so every one of them stores as e.
   */
  function FeedRaster(ch: Channel, n: nat, e: EventCoordless): (r: Channel)
    requires ChannelInv(ch) && n <= Slots
    ensures ChannelInv(r)
  {
    if n == 0 then ch else Accept(FeedRaster(ch, n - 1, e), n - 1, e)
  }

  /** The channel after set_event_for_channel, which under the channel invariant accepts the event. */
  function Accept(ch: Channel, idx: nat, e: EventCoordless): (r: Channel)
    requires ChannelInv(ch) && idx < Slots
    ensures ChannelInv(r)
  {
    ChannelSetEventKeepsInv(ch, idx, e);
    ChannelSetEvent(ch, idx, e).0
  }

  /**
   * Feeding a new channel one event per slot for the slots below n keeps a
   * single generation and moves exactly those slots' indices to 1; every one
   * of those events is accepted.
   */
  lemma {:induction false} FeedRasterNew(n: nat, e: EventCoordless)
    requires n <= Slots
    ensures var ch := FeedRaster(NewChannel(), n, e);
      && |ch.gens| == 1
      && (forall j :: 0 <= j < Slots ==> ch.idxMap[j] == if j < n then 1 else 0)
      && (n > 0 ==> ChannelSetEvent(FeedRaster(NewChannel(), n - 1, e), n - 1, e).1 == Ok(()))
  {
    if n > 0 {
      FeedRasterNew(n - 1, e);
      ChannelSetEventPointwise(FeedRaster(NewChannel(), n - 1, e), n - 1, e);
    }
  }

  /**
   * test_set_many_events, on one channel: after one event per slot the first
   * generation is full and still the only one; one more event at slot 0 is
   * accepted, appends a second generation holding just that event, and leaves
   * the first as it was.
   */
  lemma FillThenOverflow(e: EventCoordless, e': EventCoordless)
    ensures var full := FeedRaster(NewChannel(), Slots, e);
      && |full.gens| == 1 && FilledCount(full.gens[0]) == Slots
      && var (ch', r) := ChannelSetEvent(full, 0, e');
      && r == Ok(())
      && |ch'.gens| == 2 && ch'.gens[0] == full.gens[0]
      && ch'.gens[1] == EmptySlots()[0 := Some(e')] && FilledCount(ch'.gens[1]) == 1
  {
    SlotsBounds();
    var full := FeedRaster(NewChannel(), Slots, e);
    FeedRasterNew(Slots, e);
    GenerationFilled(full, 0);
    ChannelSetEventPointwise(full, 0, e');
    var ch' := ChannelSetEvent(full, 0, e').0;
    assert ch'.gens[1] == EmptySlots()[0 := Some(e')];
    FilledCountNone(EmptySlots());
    FilledCountFill(EmptySlots(), 0, e');
  }

  // ---------------------------------------------------------------------
  // One channel, on the heap

  /**
   * The blocks hold the generations gens: block k is valid and its slots are
   * gens[k]. The blocks and their slot arrays lie in the footprint repr, and
   * no two blocks share a slot array.
   */
  ghost predicate Stores(blocks: seq<Block>, gens: seq<seq<Slot>>, repr: set<object>)
    reads repr
  {
    && |blocks| == |gens|
    && (forall k :: 0 <= k < |blocks| ==> blocks[k] in repr && blocks[k].events in repr)
    && (forall k :: 0 <= k < |blocks| ==> blocks[k].Valid() && blocks[k].events[..] == gens[k])
    && (forall j, k :: 0 <= j < k < |blocks| ==> blocks[j].events != blocks[k].events)
  }

  /**
   * set_event_for_channel: pushes a new block when the slot's index has run
   * past the end of the vector, writes the event into the indexed block and
   * advances the slot's index only on success. Blocks already present stay in
   * place, and the new state is the channel value ChannelSetEvent computes.
   */
  method SetEventForChannel(blocks: seq<Block>, idxMap: array<nat>, event: Event, idx: nat,
                            ghost ch: Channel, ghost repr: set<object>)
    returns (blocks': seq<Block>, r: Result<(), BlockError>, ghost ch': Channel, ghost repr': set<object>)
    requires Shaped(ch) && idx < Slots && ch.idxMap[idx] <= |ch.gens|
    requires Stores(blocks, ch.gens, repr) && idxMap[..] == ch.idxMap && idxMap !in repr
    modifies idxMap, repr
    ensures Stores(blocks', ch'.gens, repr') && idxMap[..] == ch'.idxMap && idxMap !in repr'
    ensures |blocks'| >= |blocks| && blocks'[..|blocks|] == blocks
    ensures repr <= repr' && fresh(repr' - repr)
    ensures (ch', r) == ChannelSetEvent(ch, idx, FromEvent(event))
  {
    var k := idxMap[idx];
    ghost var gens;
    blocks', gens, repr' := PushIfNeeded(blocks, k, ch.gens, repr);
    r := SetEventInBlock(blocks', k, event, idx, gens, repr');
    ghost var slots := blocks'[k].events[..];
    if r.Ok? {
      idxMap[idx] := k + 1;
      assert idxMap[..] == ch.idxMap[idx := (k + 1) as nat];
    }
    ChannelSetEventUnfold(ch, idx, FromEvent(event), gens, slots, r);
    ch' := Channel(gens[k := slots], idxMap[..]);
  }

  /**
   * The first step of set_event_for_channel: a new empty block is pushed when
   * index k has reached the end of the vector, so that block k exists.
   */
  method PushIfNeeded(blocks: seq<Block>, k: nat, ghost gens: seq<seq<Slot>>, ghost repr: set<object>)
    returns (blocks': seq<Block>, ghost gens': seq<seq<Slot>>, ghost repr': set<object>)
    requires Stores(blocks, gens, repr) && k <= |blocks|
    ensures Stores(blocks', gens', repr') && k < |blocks'|
    ensures gens' == if k >= |gens| then gens + [EmptySlots()] else gens
    ensures |blocks'| >= |blocks| && blocks'[..|blocks|] == blocks
    ensures repr <= repr' && fresh(repr' - repr)
  {
    blocks', gens', repr' := blocks, gens, repr;
    if k >= |blocks| {
      var b := new Block(0, 0, 0);
      AppendBlock(blocks, gens, repr, b);
      blocks', gens', repr' := blocks + [b], gens + [EmptySlots()], repr + {b, b.events};
    }
  }

  /**
   * Block::set_event on block k of a channel's vector: block k's slots change
   * as PlaceEvent says and every other block keeps its slots.
   */
  method SetEventInBlock(blocks: seq<Block>, k: nat, event: Event, idx: nat, ghost gens: seq<seq<Slot>>, ghost repr: set<object>)
    returns (r: Result<(), BlockError>)
    requires Stores(blocks, gens, repr) && k < |blocks| && idx < Slots
    modifies blocks[k], blocks[k].events
    ensures (blocks[k].events[..], r) == PlaceEvent(gens[k], idx, FromEvent(event))
    ensures Stores(blocks, gens[k := blocks[k].events[..]], repr)
  {
    assert forall j :: 0 <= j < |blocks| && j != k ==> blocks[j] != blocks[k] && blocks[j].events != blocks[k].events;
    assert blocks[k].Valid();
    r := blocks[k].SetEvent(event, idx);
    forall j | 0 <= j < |blocks| && j != k
      ensures blocks[j].Valid() && blocks[j].events[..] == gens[j]
    {
    }
  }

  /** Appending a new empty block to the vector appends an empty generation. */
  lemma AppendBlock(blocks: seq<Block>, gens: seq<seq<Slot>>, repr: set<object>, b: Block)
    requires Stores(blocks, gens, repr) && b.Valid() && b.events[..] == EmptySlots()
    requires b.events !in repr
    ensures Stores(blocks + [b], gens + [EmptySlots()], repr + {b, b.events})
  {
    var bs, gs, r := blocks + [b], gens + [EmptySlots()], repr + {b, b.events};
    forall k | 0 <= k < |bs|
      ensures bs[k] in r && bs[k].events in r && bs[k].Valid() && bs[k].events[..] == gs[k]
    {
      if k < |blocks| {
        assert bs[k] == blocks[k] && gs[k] == gens[k];
      }
    }
    forall j, k | 0 <= j < k < |bs|
      ensures bs[j].events != bs[k].events
    {
      assert bs[j] == blocks[j] && bs[j].events in repr;
      if k < |blocks| {
        assert bs[k] == blocks[k];
      }
    }
  }

  /** An index map of zeros is the one a new channel starts with. */
  lemma ZeroIndices(m: seq<nat>)
    requires |m| == Slots && forall i :: 0 <= i < |m| ==> m[i] == 0
    ensures m == NewChannel().idxMap
  {
  }

  /**
   * A channel's blocks and index map hold the channel value ch, which keeps
   * the channel invariant; the index map lies outside the blocks' footprint.
   */
  ghost predicate Holds(blocks: seq<Block>, idxMap: array<nat>, ch: Channel, repr: set<object>)
    reads repr, idxMap
  {
    Stores(blocks, ch.gens, repr) && idxMap[..] == ch.idxMap && idxMap !in repr && ChannelInv(ch)
  }

  /** A vector of one new block and an index map of zeros, holding a new channel. */
  method NewChannelBlocks() returns (blocks: seq<Block>, idxMap: array<nat>, ghost repr: set<object>)
    ensures fresh(repr) && fresh(idxMap)
    ensures Holds(blocks, idxMap, NewChannel(), repr)
  {
    var b := new Block(0, 0, 0);
    idxMap := new nat[Slots](_ => 0);
    AppendBlock([], [], {}, b);
    blocks, repr := [b], {b, b.events};
    assert [] + [b] == blocks;
    ZeroIndices(idxMap[..]);
  }
}
