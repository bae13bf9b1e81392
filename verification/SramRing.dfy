/** The 256-slot packet ring in SRAM, as a bounded FIFO that evicts its oldest packet when full. */
module SramRing {
  import opened Bytes
  import opened Wire

  const CAPACITY := 256

  /** Held packets, oldest first, and the drop counter. */
  datatype Ring = Ring(items: seq<MeshPacket>, dropped: U32)

  const EMPTY := Ring([], 0)

  function Push(r: Ring, p: MeshPacket): (Ring, Option<MeshPacket>) {
    if |r.items| < CAPACITY then (r.(items := r.items + [p]), None)
    else (Ring(r.items[1..] + [p], SaturatingAdd(r.dropped, 1, U32_MAX)), Some(r.items[0]))
  }

  function Pop(r: Ring): Ring
    requires r.items != []
  {
    r.(items := r.items[1..])
  }

  lemma Wrap(t: nat, n: nat)
    requires t < CAPACITY && n <= CAPACITY
    ensures (t + n) % CAPACITY == if t + n < CAPACITY then t + n else t + n - CAPACITY
  {
  }

  class SramRingBuffer {
    const buffer: array<Option<MeshPacket>>
    var head: nat
    var tail: nat
    var count: nat
    var droppedOverflow: U32
    ghost var contents: seq<MeshPacket>

    ghost predicate Valid()
      reads this, buffer
    {
      && buffer.Length == CAPACITY
      && tail < CAPACITY && count == |contents| <= CAPACITY && head == (tail + count) % CAPACITY
      && (forall i | 0 <= i < count :: Slot(i) == Some(contents[i]))
      && (forall i | count <= i < CAPACITY :: Slot(i) == None)
    }

    /** The slot `i` places after the oldest packet. */
    ghost function Slot(i: int): Option<MeshPacket>
      requires buffer.Length == CAPACITY && tail < CAPACITY && 0 <= i < CAPACITY
      reads `tail, buffer
    {
      buffer[if tail + i < CAPACITY then tail + i else tail + i - CAPACITY]
    }

    ghost function Abstract(): Ring
      reads this
    {
      Ring(contents, droppedOverflow)
    }

    constructor ()
      ensures Valid() && fresh(buffer) && Abstract() == EMPTY
    {
      buffer := new Option<MeshPacket>[CAPACITY](_ => None);
      head, tail, count, droppedOverflow, contents := 0, 0, 0, 0, [];
    }

    method PushPacket(p: MeshPacket) returns (evicted: Option<MeshPacket>)
      requires Valid()
      modifies this, buffer
      ensures Valid() && (Abstract(), evicted) == Push(old(Abstract()), p)
    {
      evicted := None;
      if count == CAPACITY {
        evicted := PopPacket();
        droppedOverflow := SaturatingAdd(droppedOverflow, 1, U32_MAX);
      }
      assert count == |contents| < CAPACITY;
      Append(p);
    }

    /** Stores `p` at the head of a ring that has room. */
    method Append(p: MeshPacket)
      requires Valid() && count < CAPACITY
      modifies this, buffer
      ensures Valid() && contents == old(contents) + [p] && droppedOverflow == old(droppedOverflow)
    {
      ghost var n, t := count, tail;
      assert head == if t + n < CAPACITY then t + n else t + n - CAPACITY;
      buffer[head] := Some(p);
      head := (head + 1) % CAPACITY;
      count := count + 1;
      contents := contents + [p];
      assert Slot(n) == Some(p);
      assert forall i | 0 <= i < CAPACITY && i != n :: Slot(i) == old(Slot(i));
    }

    method PopPacket() returns (r: Option<MeshPacket>)
      requires Valid()
      modifies this, buffer
      ensures Valid()
      ensures old(contents) == [] ==> r == None && Abstract() == old(Abstract())
      ensures old(contents) != [] ==> r == Some(old(contents)[0]) && Abstract() == Pop(old(Abstract()))
    {
      if count == 0 {
        return None;
      }
      assert Slot(0) == Some(contents[0]);
      Wrap(tail, count);
      Wrap(tail, 1);
      r := buffer[tail];
      buffer[tail] := None;
      tail := (tail + 1) % CAPACITY;
      Wrap(tail, count - 1);
      count := count - 1;
      contents := contents[1..];
      forall i | 0 <= i < CAPACITY ensures Slot(i) == if i < count then Some(contents[i]) else None {
        if i < CAPACITY - 1 {
          assert Slot(i) == old(Slot(i + 1));
        }
      }
    }

    method Peek() returns (r: Option<MeshPacket>)
      requires Valid()
      ensures r == if contents == [] then None else Some(contents[0])
    {
      if count == 0 {
        return None;
      }
      assert Slot(0) == Some(contents[0]);
      r := buffer[tail];
    }

    method Clear()
      requires Valid()
      modifies this, buffer
      ensures Valid() && Abstract() == Ring([], old(droppedOverflow))
    {
      for i := 0 to CAPACITY
        invariant forall j | 0 <= j < i :: buffer[j] == None
        invariant droppedOverflow == old(droppedOverflow)
      {
        buffer[i] := None;
      }
      head, tail, count, contents := 0, 0, 0, [];
    }
  }
}
