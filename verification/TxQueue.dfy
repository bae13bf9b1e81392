/** The transmit queue with contention backoff: eight slots, holes left by cancelled packets, one timer. */
module TxQueue {
  import opened Bytes
  import opened Wire

  const CAPACITY := 8
  const MIN_JITTER := 15
  const MAX_JITTER := 90
  const SPACING := 20

  /** Slots from the head, `None` where a packet was cancelled, and the backoff time left in milliseconds. */
  datatype Queue<+T> = Queue(slots: seq<Option<T>>, remaining: U16)

  const EMPTY: Queue<MeshPacket> := Queue([], 0)

  function Clamp(jitter: U16): U16 {
    Max(MIN_JITTER, Min(jitter, MAX_JITTER))
  }

  function Schedule<T>(q: Queue<T>, x: T, jitter: U16): Queue<T>
    requires |q.slots| <= CAPACITY
  {
    if |q.slots| < CAPACITY then Queue(q.slots + [Some(x)], if q.slots == [] then Clamp(jitter) else q.remaining)
    else Queue(q.slots[1..] + [Some(x)], q.remaining)
  }

  /** Whether a live packet that is not telemetry waits. */
  predicate UserPending<T>(slots: seq<Option<T>>, isTelemetry: T -> bool) {
    exists i :: 0 <= i < |slots| && slots[i].Some? && !isTelemetry(slots[i].value)
  }

  function ScheduleTelemetry<T>(q: Queue<T>, x: T, jitter: U16, isTelemetry: T -> bool): (Queue<T>, bool)
    requires |q.slots| <= CAPACITY
  {
    if UserPending(q.slots, isTelemetry) then (q, false) else (Schedule(q, x, jitter), true)
  }

  function Tick<T>(q: Queue<T>, elapsed: U16): (Queue<T>, bool) {
    if q.slots == [] then (q, false)
    else if elapsed >= q.remaining then (q.(remaining := 0), true)
    else (q.(remaining := q.remaining - elapsed), false)
  }

  /** Position of the first live slot that satisfies `matches`, or |slots|. */
  function FirstMatch<T>(slots: seq<Option<T>>, matches: T -> bool): (i: nat)
    ensures i <= |slots|
    ensures i < |slots| ==> slots[i].Some? && matches(slots[i].value)
    ensures forall j | 0 <= j < i :: slots[j].Some? ==> !matches(slots[j].value)
  {
    if slots == [] || (slots[0].Some? && matches(slots[0].value)) then 0 else 1 + FirstMatch(slots[1..], matches)
  }

  function Overhear<T>(q: Queue<T>, matches: T -> bool): (Queue<T>, bool) {
    var i := FirstMatch(q.slots, matches);
    if i == |q.slots| then (q, false) else (q.(slots := q.slots[i := None]), true)
  }

  function TakePending<T>(q: Queue<T>): (Queue<T>, Option<T>)
    decreases |q.slots|
  {
    if q.slots == [] then (q, None)
    else
      var rest := Queue(q.slots[1..], if |q.slots| > 1 then SPACING else q.remaining);
      if q.slots[0].Some? then (rest, q.slots[0]) else TakePending(rest)
  }

  /** The slot-gated transmit step: let `elapsed` pass and take a packet once the backoff expires. */
  function Service<T>(q: Queue<T>, elapsed: U16): (Queue<T>, Option<T>) {
    var (q', ready) := Tick(q, elapsed);
    if ready then TakePending(q') else (q', None)
  }

  function HasKey(k: PacketKey): MeshPacket -> bool {
    (p: MeshPacket) => p.Key() == k
  }

  function TelemetryTest(): MeshPacket -> bool {
    (p: MeshPacket) => p.IsTelemetry()
  }

  lemma Wrap(h: nat, n: nat)
    requires h < CAPACITY && n <= CAPACITY
    ensures (h + n) % CAPACITY == if h + n < CAPACITY then h + n else h + n - CAPACITY
  {
  }

  class BackoffController {
    const queue: array<Option<MeshPacket>>
    var head: nat
    var tail: nat
    var count: nat
    var backoffRemainingMs: U16
    ghost var contents: seq<Option<MeshPacket>>

    ghost predicate Valid()
      reads this, queue
    {
      && queue.Length == CAPACITY && head < CAPACITY
      && count == |contents| <= CAPACITY && tail == (head + count) % CAPACITY
      && forall i | 0 <= i < count :: Slot(i) == contents[i]
    }

    /** The slot `i` places after the head. */
    ghost function Slot(i: int): Option<MeshPacket>
      requires queue.Length == CAPACITY && head < CAPACITY && 0 <= i < CAPACITY
      reads `head, queue
    {
      queue[if head + i < CAPACITY then head + i else head + i - CAPACITY]
    }

    ghost function Abstract(): Queue<MeshPacket>
      reads this
    {
      Queue(contents, backoffRemainingMs)
    }

    constructor ()
      ensures Valid() && fresh(queue) && Abstract() == EMPTY
    {
      queue := new Option<MeshPacket>[CAPACITY](_ => None);
      head, tail, count, backoffRemainingMs, contents := 0, 0, 0, 0, [];
    }

    method ScheduleTx(p: MeshPacket, jitterMs: U16)
      requires Valid()
      modifies this, queue
      ensures Valid() && Abstract() == Schedule(old(Abstract()), p, jitterMs)
    {
      if count < CAPACITY {
        Append(p);
        if count == 1 {
          backoffRemainingMs := Clamp(jitterMs);
        }
      } else {
        var evicted := DropHead();
        Append(p);
      }
    }

    method Append(p: MeshPacket)
      requires Valid() && count < CAPACITY
      modifies `tail, `count, `contents, queue
      ensures Valid() && contents == old(contents) + [Some(p)]
    {
      ghost var n, h := count, head;
      assert tail == if h + n < CAPACITY then h + n else h + n - CAPACITY;
      queue[tail] := Some(p);
      tail := (tail + 1) % CAPACITY;
      count := count + 1;
      contents := contents + [Some(p)];
      assert forall i | 0 <= i < n :: Slot(i) == old(Slot(i));
      assert Slot(n) == Some(p);
    }

    /** Removes the head slot, live or not. */
    method DropHead() returns (r: Option<MeshPacket>)
      requires Valid() && count > 0
      modifies `head, `count, `contents, queue
      ensures Valid() && contents == old(contents)[1..] && r == old(contents)[0]
    {
      assert Slot(0) == contents[0];
      r := queue[head];
      queue[head] := None;
      head := (head + 1) % CAPACITY;
      count := count - 1;
      contents := contents[1..];
      assert forall i | 0 <= i < count :: Slot(i) == old(Slot(i + 1));
    }

    method ScheduleTelemetryTx(p: MeshPacket, jitterMs: U16) returns (accepted: bool)
      requires Valid()
      modifies this, queue
      ensures Valid() && (Abstract(), accepted) == ScheduleTelemetry(old(Abstract()), p, jitterMs, TelemetryTest())
    {
      for i := 0 to count
        invariant !UserPending(contents[..i], TelemetryTest())
      {
        var idx := (head + i) % CAPACITY;
        assert queue[idx] == Slot(i) == contents[i];
        if queue[idx].Some? && !queue[idx].value.IsTelemetry() {
          assert UserPending(contents, TelemetryTest());
          return false;
        }
        assert forall j | 0 <= j < i :: contents[..i][j] == contents[j];
      }
      assert contents[..count] == contents;
      ScheduleTx(p, jitterMs);
      accepted := true;
    }

    method TickBackoff(elapsedMs: U16) returns (ready: bool)
      requires Valid()
      modifies `backoffRemainingMs
      ensures Valid() && (Abstract(), ready) == Tick(old(Abstract()), elapsedMs)
    {
      if count == 0 {
        return false;
      }
      if elapsedMs >= backoffRemainingMs {
        backoffRemainingMs := 0;
        ready := true;
      } else {
        backoffRemainingMs := backoffRemainingMs - elapsedMs;
        ready := false;
      }
    }

    method OnOverhear(msgId: U32, chunkIdx: U8) returns (cancelled: bool)
      requires Valid()
      modifies this, queue
      ensures Valid() && (Abstract(), cancelled) == Overhear(old(Abstract()), HasKey(PacketKey(msgId, chunkIdx)))
    {
      hide FirstMatch;
      ghost var matches := HasKey(PacketKey(msgId, chunkIdx));
      for i := 0 to count
        invariant Valid() && Abstract() == old(Abstract())
        invariant i <= FirstMatch(contents, matches)
      {
        var idx := (head + i) % CAPACITY;
        assert queue[idx] == Slot(i) == contents[i];
        if queue[idx].Some? && queue[idx].value.header.msgId == msgId && queue[idx].value.header.chunkIdx == chunkIdx {
          Cancel(i);
          return true;
        }
      }
      cancelled := false;
    }

    /** Leaves a hole `i` places after the head. */
    method Cancel(i: nat)
      requires Valid() && i < count
      modifies `contents, queue
      ensures Valid() && contents == old(contents)[i := None]
    {
      var idx := (head + i) % CAPACITY;
      Wrap(head, i);
      queue[idx] := None;
      contents := contents[i := None];
      forall j | 0 <= j < count ensures Slot(j) == contents[j] {
        assert j != i ==> Slot(j) == old(Slot(j));
      }
    }

    method Take() returns (r: Option<MeshPacket>)
      requires Valid()
      modifies this, queue
      ensures Valid() && (Abstract(), r) == TakePending(old(Abstract()))
    {
      while count > 0
        invariant Valid() && TakePending(Abstract()) == TakePending(old(Abstract()))
        decreases count
      {
        var p := DropHead();
        if count > 0 {
          backoffRemainingMs := SPACING;
        }
        if p.Some? {
          return p;
        }
      }
      r := None;
    }
  }
}
