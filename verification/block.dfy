/**
 * Block: one BLOCK_SIZE_BIG x BLOCK_SIZE_BIG tile of one colour channel, a
 * row-major array of optional coordinate-less events plus a count of the
 * filled slots; and ZigZag, the iterator that reads a block's slots in the
 * order of a scan table.
 */
module Blocks {
  import opened Types
  import ZigzagOrder

  type Slot = Option<EventCoordless>

  /** Number of filled slots. */
  function FilledCount(s: seq<Slot>): (r: nat)
    ensures r <= |s|
    ensures r == |s| <==> forall i :: 0 <= i < |s| ==> s[i].Some?
  {
    if s == [] then 0 else (if s[0].Some? then 1 else 0) + FilledCount(s[1..])
  }

  /** The slots of a new block: all empty. */
  function EmptySlots(): (s: seq<Slot>)
    ensures |s| == Slots
  {
    seq(Slots, _ => None)
  }

  /**
   * Value-level effect of Block::set_event on the slot array: an empty slot
   * takes the event, an occupied one is an error that changes nothing.
   */
  function PlaceEvent(s: seq<Slot>, idx: nat, e: EventCoordless): (r: (seq<Slot>, Result<(), BlockError>))
    requires idx < |s|
    ensures |r.0| == |s|
    ensures r.1.Ok? <==> s[idx].None?
    ensures r.1.Err? ==> r.1.error == AlreadyExists(idx) && r.0 == s
    ensures r.1.Ok? ==> r.0[idx] == Some(e)
    ensures forall i :: 0 <= i < |s| && i != idx ==> r.0[i] == s[i]
  {
    if s[idx].Some? then (s, Err(AlreadyExists(idx))) else (s[idx := Some(e)], Ok(()))
  }

  /** Filling an empty slot raises the count of filled slots by exactly one. */
  lemma {:induction false} FilledCountFill(s: seq<Slot>, idx: nat, e: EventCoordless)
    requires idx < |s| && s[idx].None?
    ensures FilledCount(s[idx := Some(e)]) == FilledCount(s) + 1
  {
    var t := s[idx := Some(e)];
    if idx == 0 {
      assert t[1..] == s[1..];
    } else {
      assert t[1..] == s[1..][idx - 1 := Some(e)];
      FilledCountFill(s[1..], idx - 1, e);
    }
  }

  /** A sequence of empty slots has no filled slot. */
  lemma {:induction false} FilledCountNone(s: seq<Slot>)
    requires forall i :: 0 <= i < |s| ==> s[i].None?
    ensures FilledCount(s) == 0
  {
    if s != [] {
      FilledCountNone(s[1..]);
    }
  }

  /**
   * Block::set_event, on values, counted: the number of filled slots rises by
   * one exactly when the event is accepted, and stays put on AlreadyExists.
   */
  lemma PlaceEventFacts(s: seq<Slot>, idx: nat, e: EventCoordless)
    requires idx < |s|
    ensures var (t, r) := PlaceEvent(s, idx, e);
      FilledCount(t) == if r.Ok? then FilledCount(s) + 1 else FilledCount(s)
  {
    if s[idx].None? {
      FilledCountFill(s, idx, e);
    }
  }

  class Block {
    /** The slots, row-major. */
    const events: array<Slot>
    var fillCount: U16

    /** fill_count is the number of filled slots. */
    ghost predicate Valid()
      reads this, events
    {
      events.Length == Slots && fillCount == FilledCount(events[..])
    }

    /** Block::new: every slot empty. The three tile indices are unused by the source. */
    constructor (blockIdxY: nat, blockIdxX: nat, blockIdxC: nat)
      ensures Valid() && fresh(events)
      ensures events[..] == EmptySlots() && fillCount == 0
    {
      events := new Slot[Slots](_ => None);
      fillCount := 0;
      new;
      FilledCountNone(events[..]);
    }

    /** Block::is_filled: true exactly when every slot holds an event. */
    function IsFilled(): (r: bool)
      reads this, events
      requires Valid()
      ensures r <==> forall i :: 0 <= i < Slots ==> events[i].Some?
    {
      assert events[..] == events[..Slots];
      fillCount == Slots
    }

    /**
     * Block::set_event: writes the event into slot idx if it is empty, else
     * reports AlreadyExists(idx) and changes nothing. The increment of the u16
     * fill count never overflows.
     */
    method SetEvent(event: Event, idx: nat) returns (r: Result<(), BlockError>)
      requires Valid()
      requires idx < Slots
      modifies this, events
      ensures Valid()
      ensures (events[..], r) == PlaceEvent(old(events[..]), idx, FromEvent(event))
      ensures fillCount == if r.Ok? then old(fillCount) + 1 else old(fillCount)
    {
      PlaceEventFacts(events[..], idx, FromEvent(event));
      match events[idx] {
        case Some(_) =>
          return Err(AlreadyExists(idx));
        case None =>
          SlotsBounds();
          events[idx] := Some(FromEvent(event));
          fillCount := fillCount + 1;
      }
      return Ok(());
    }
  }

  /** Iterator over a block's slots in the order of a scan table. */
  class ZigZag {
    const block: Block
    const order: seq<U16>
    var idx: nat

    /** ZigZag::new: starts before the first table entry. */
    constructor (block: Block, order: seq<U16>)
      requires |order| == Slots
      ensures this.block == block && this.order == order && idx == 0
    {
      this.block := block;
      this.order := order;
      idx := 0;
    }

    /**
     * ZigZag::next: the k-th call yields the slot named by table entry k - 1,
     * never None. The source reads without bounds checks, so at most Slots
     * calls are allowed and the entry read must name a slot. The block is
     * only read.
     */
    method Next() returns (item: Option<Slot>)
      requires idx < |order| && order[idx] < block.events.Length
      modifies this
      ensures idx == old(idx) + 1
      ensures item == Some(block.events[order[old(idx)]])
    {
      idx := idx + 1;
      item := Some(block.events[order[idx - 1]]);
    }
  }

  /**
   * Drains a fresh ZigZag over a block: Slots calls to Next, one per table
   * entry. Item k is the slot the table names at k; with the zig-zag table,
   * every slot v comes out at its zig-zag position RankOf(N, v).
   */
  method ScanBlock(block: Block, order: seq<U16>) returns (items: seq<Slot>)
    requires block.Valid()
    requires |order| == Slots && forall k :: 0 <= k < Slots ==> order[k] < Slots
    ensures |items| == Slots
    ensures forall k :: 0 <= k < Slots ==> items[k] == block.events[order[k]]
    ensures order == ZigzagOrder.ZigzagSpec(BlockSizeBig) ==>
      forall v :: 0 <= v < Slots ==> items[ZigzagOrder.RankOf(BlockSizeBig, v)] == block.events[v]
  {
    var zz := new ZigZag(block, order);
    items := [];
    while |items| < Slots
      invariant zz.block == block && zz.order == order && zz.idx == |items| <= Slots
      invariant forall k :: 0 <= k < |items| ==> items[k] == block.events[order[k]]
    {
      var item := zz.Next();
      items := items + [item.value];
    }
    if order == ZigzagOrder.ZigzagSpec(BlockSizeBig) {
      ZigzagOrder.ZigzagRoundTrip(BlockSizeBig);
    }
  }
}
