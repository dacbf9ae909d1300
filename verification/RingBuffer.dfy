/**
 ringbuffer.c as it is written: an object whose calls update the shared fields
 and a flat byte area in place.  Each method is proved equal to the function on
 the stored fields that RingProgress derives from the interleaved machine.
 */
module RingBuffer {
  import opened Arith
  import opened RingMachine
  import opened RingProgress

  const RB_SIZE: nat := 2000
  const RB_BATCH: nat := 50

  /** With the sizes of ringbuffer.h and whole flushes, the two threads never wait for each other. */
  lemma ShippedSizesNeverBlock(width: nat, run: seq<Action>)
    requires FlushCall !in run
    ensures var p := Params(RB_SIZE, RB_BATCH, width); !BothBlocked(p, Exec(p, Init(p), run))
  {
    NeverBothBlocked(Params(RB_SIZE, RB_BATCH, width), run);
  }

  lemma SlotBounds(j: nat, size: nat, width: nat)
    requires j < size
    ensures 0 <= j * width <= (j + 1) * width <= size * width
  {
    Distribute(size, j + 1, width);
    ProductNonNegative(size - (j + 1), width);
    ProductNonNegative(j, width);
    Distribute(j + 1, j, width);
  }

  lemma SlotsApart(i: nat, j: nat, width: nat)
    requires i < j
    ensures (i + 1) * width <= j * width
  {
    Distribute(j, i + 1, width);
    ProductNonNegative(j - (i + 1), width);
  }

  /** The flat data area seen as slots of `width` bytes. */
  function Slots(bytes: seq<bv8>, size: nat, width: nat): (r: seq<Tuple>)
    requires |bytes| == size * width
    ensures |r| == size
  {
    seq(size, j requires 0 <= j < size => SlotBounds(j, size, width); bytes[j * width..(j + 1) * width])
  }

  /** Overwriting the bytes of one slot changes that slot and no other. */
  lemma PutChangesOneSlot(before: seq<bv8>, after: seq<bv8>, size: nat, width: nat, slot: nat, x: Tuple)
    requires |before| == |after| == size * width && slot < size && |x| == width
    requires slot * width + width <= size * width
    requires forall b :: 0 <= b < |before| && !(slot * width <= b < slot * width + width) ==> after[b] == before[b]
    requires after[slot * width..slot * width + width] == x
    ensures Slots(after, size, width) == PutSlot(Slots(before, size, width), slot, x)
  {
    forall j | 0 <= j < size
      ensures Slots(after, size, width)[j] == PutSlot(Slots(before, size, width), slot, x)[j]
    {
      SlotBounds(j, size, width);
      if j < slot {
        SlotsApart(j, slot, width);
      } else if slot < j {
        SlotsApart(slot, j, width);
      }
    }
  }

  class RingBuffer {
    const p: Params
    const data: array<bv8>
    var readIndex: int
    var writeIndex: int
    var localWriteIndex: int
    var nextReadIndex: int
    var rBatchCount: int
    var localReadIndex: int
    var nextWriteIndex: int
    var wBatchCount: int

    ghost predicate Valid()
      reads this
    {
      && p.Ok() && data.Length == p.size * p.width
      && 0 <= nextReadIndex < p.size && 0 <= nextWriteIndex < p.size
    }

    ghost function View(): Meta
      requires Valid()
      reads this, data
    {
      Meta(readIndex, writeIndex, localWriteIndex, nextReadIndex, rBatchCount,
           localReadIndex, nextWriteIndex, wBatchCount, Slots(data[..], p.size, p.width))
    }

    constructor (p: Params)
      requires p.Ok()
      ensures this.p == p && Valid() && fresh(data)
      ensures View() == Init(p).m
    {
      this.p := p;
      data := new bv8[p.size * p.width](_ => 0);
      readIndex, writeIndex, localWriteIndex, nextReadIndex, rBatchCount := 0, 0, 0, 0, 0;
      localReadIndex, nextWriteIndex, wBatchCount := 0, 0, 0;
      new;
      forall j | 0 <= j < p.size
        ensures Slots(data[..], p.size, p.width)[j] == Init(p).m.data[j]
      {
        SlotBounds(j, p.size, p.width);
      }
    }

    method Next(x: int) returns (r: int)
      ensures r == NextVal(p, x)
    {
      if x + 1 >= p.size {
        r := 0;
      } else {
        r := x + 1;
      }
    }

    /** memcpy into the data area. */
    method CopyIn(at: nat, x: Tuple)
      requires at + |x| <= data.Length
      modifies data
      ensures data[at..at + |x|] == x
      ensures forall b :: 0 <= b < data.Length && !(at <= b < at + |x|) ==> data[b] == old(data[b])
    {
      for k := 0 to |x|
        invariant data[at..at + k] == x[..k]
        invariant forall b :: 0 <= b < data.Length && !(at <= b < at + k) ==> data[b] == old(data[b])
      {
        data[at + k] := x[k];
        assert data[at..at + k + 1] == data[at..at + k] + [x[k]];
      }
    }

    /** write_ringbuffer: 0 on success, -1 when full. */
    method Write(x: Tuple) returns (ret: int)
      requires Valid() && |x| == p.width
      modifies this, data
      ensures Valid() && (ret == 0 || ret == -1)
      ensures (View(), ret == 0) == WriteMeta(p, old(View()), x)
    {
      ghost var before := View();
      ghost var bytes := data[..];
      var after := Next(nextWriteIndex);
      if after == localReadIndex {
        if after == readIndex {
          return -1;
        }
        localReadIndex := readIndex;
      }
      SlotBounds(nextWriteIndex, p.size, p.width);
      CopyIn(nextWriteIndex * p.width, x);
      PutChangesOneSlot(bytes, data[..], p.size, p.width, nextWriteIndex, x);
      nextWriteIndex := after;
      wBatchCount := wBatchCount + 1;
      if wBatchCount >= p.batch {
        writeIndex := nextWriteIndex;
        wBatchCount := 0;
      }
      ret := 0;
    }

    /** memcpy out of slot `index`. */
    method CopyOut(index: nat, out: array<bv8>)
      requires Valid() && index < p.size && out.Length == p.width && out != data
      modifies out
      ensures out[..] == Slots(data[..], p.size, p.width)[index]
    {
      SlotBounds(index, p.size, p.width);
      var at := index * p.width;
      for k := 0 to p.width
        invariant out[..k] == data[at..at + k]
      {
        out[k] := data[at + k];
        assert data[at..at + k + 1] == data[at..at + k] + [data[at + k]];
      }
    }

    /** read_ringbuffer: 0 and a filled buffer on success, -1 and an untouched one when empty. */
    method Read(out: array<bv8>) returns (ret: int)
      requires Valid() && out.Length == p.width && out != data
      modifies this, out
      ensures Valid() && (ret == 0 || ret == -1)
      ensures (View(), out[..], ret == 0) == ReadMeta(p, old(View()), old(out[..]))
    {
      if nextReadIndex == localWriteIndex {
        if nextReadIndex == writeIndex {
          return -1;
        }
        localWriteIndex := writeIndex;
      }
      CopyOut(nextReadIndex, out);
      nextReadIndex := Next(nextReadIndex);
      rBatchCount := rBatchCount + 1;
      if rBatchCount >= p.batch {
        readIndex := nextReadIndex;
        rBatchCount := 0;
      }
      ret := 0;
    }

    /** flush_ringbuffer. */
    method Flush()
      requires Valid()
      modifies this
      ensures Valid() && View() == FlushMeta(old(View()))
    {
      writeIndex := nextWriteIndex;
      readIndex := nextReadIndex;
    }

    /** ringbuffer_size. */
    method Size() returns (n: int)
      requires Valid()
      ensures n == SizeMeta(p, View())
    {
      if nextWriteIndex < localReadIndex {
        return nextWriteIndex - localReadIndex + p.size;
      } else {
        return nextWriteIndex - localReadIndex;
      }
    }
  }
}
