/** Durable message counters: write-ahead reservation of blocks of 1000 across restarts. */
module Nonce {
  import opened Bytes

  const BLOCK_SIZE := 1000

  datatype DiskState = DiskState(lastPersistedEpoch: U32, nextAllocatedBlock: nat)

  datatype Manager = Manager(epoch: U32, counter: nat, limit: nat)

  /** A state file, if one was ever written, and the running manager, if any. */
  datatype Node = Node(file: Option<DiskState>, mgr: Option<Manager>)

  /** What becomes of one atomic replacement of the state file: done; an I/O error that leaves the old file and
      returns to the caller; or done, with the process lost before the call returns. */
  datatype Persist = Saved | Failed | SavedThenLost

  datatype Event = Open(now: U32, persist: Persist) | Allocate(persist: Persist) | Crash

  datatype Issue = Issue(epoch: U32, counter: nat)

  // ---------------------------------------------------------------- operations

  function OnDisk(file: Option<DiskState>): DiskState {
    file.GetOr(DiskState(0, 0))
  }

  function SafeEpoch(now: U32, last: U32): U32 {
    if now <= last then SaturatingAdd(last, 1, U32_MAX) else now
  }

  function Fresh(file: Option<DiskState>, now: U32): Manager {
    var start := OnDisk(file).nextAllocatedBlock;
    Manager(SafeEpoch(now, OnDisk(file).lastPersistedEpoch), start, start + BLOCK_SIZE)
  }

  function Reservation(m: Manager): DiskState {
    DiskState(m.epoch, m.limit)
  }

  function OpenNode(n: Node, now: U32, persist: Persist): Node {
    var m := Fresh(n.file, now);
    match persist
    case Saved => Node(Some(Reservation(m)), Some(m))
    case Failed => Node(n.file, None)
    case SavedThenLost => Node(Some(Reservation(m)), None)
  }

  predicate NeedsBlock(m: Manager) {
    m.counter >= m.limit
  }

  /** The limit is raised before the write that may fail, and stays raised when it does. */
  function AllocateMsg(file: Option<DiskState>, m: Manager, persist: Persist): (Node, Option<Issue>) {
    if !NeedsBlock(m) then (Node(file, Some(m.(counter := m.counter + 1))), Some(Issue(m.epoch, m.counter)))
    else
      var raised := m.(limit := m.limit + BLOCK_SIZE);
      match persist
      case Saved =>
        (Node(Some(Reservation(raised)), Some(raised.(counter := m.counter + 1))), Some(Issue(m.epoch, m.counter)))
      case Failed => (Node(file, Some(raised)), None)
      case SavedThenLost => (Node(Some(Reservation(raised)), None), None)
  }

  class StateFile {
    var content: Option<DiskState>
  }

  class NonceManager {
    const file: StateFile
    var currentEpoch: U32
    var currentCounter: nat
    var blockLimit: nat

    ghost function Abstract(): Manager
      reads this
    {
      Manager(currentEpoch, currentCounter, blockLimit)
    }

    constructor (file: StateFile, epoch: U32, counter: nat)
      ensures this.file == file && Abstract() == Manager(epoch, counter, counter + BLOCK_SIZE)
    {
      this.file := file;
      currentEpoch, currentCounter, blockLimit := epoch, counter, counter + BLOCK_SIZE;
    }

    /** `saved` tells whether the atomic rename took place. */
    method PersistBlockReservation(saved: bool) returns (ok: bool)
      modifies file
      ensures ok == saved
      ensures file.content == if saved then Some(Reservation(Abstract())) else old(file.content)
    {
      if saved {
        file.content := Some(DiskState(currentEpoch, blockLimit));
      }
      ok := saved;
    }

    static method New(file: StateFile, now: U32, saved: bool) returns (mgr: NonceManager?)
      modifies file
      ensures mgr != null <==> saved
      ensures mgr != null ==> fresh(mgr) && mgr.file == file
      ensures Node(file.content, if mgr == null then None else Some(mgr.Abstract()))
           == OpenNode(Node(old(file.content), None), now, if saved then Saved else Failed)
    {
      var disk := file.content.GetOr(DiskState(0, 0));
      var epoch: U32 := if now <= disk.lastPersistedEpoch
                        then SaturatingAdd(disk.lastPersistedEpoch, 1, U32_MAX) else now;
      mgr := new NonceManager(file, epoch, disk.nextAllocatedBlock);
      var ok := mgr.PersistBlockReservation(saved);
      if !ok {
        mgr := null;
      }
    }

    method Allocate(saved: bool) returns (r: Option<Issue>)
      modifies this, file
      ensures (Node(file.content, Some(Abstract())), r)
           == AllocateMsg(old(file.content), old(Abstract()), if saved then Saved else Failed)
    {
      if currentCounter >= blockLimit {
        blockLimit := blockLimit + BLOCK_SIZE;
        var ok := PersistBlockReservation(saved);
        if !ok {
          return None;
        }
      }
      r := Some(Issue(currentEpoch, currentCounter));
      currentCounter := currentCounter + 1;
    }
  }

  // ---------------------------------------------------------------- runs

  /** Everything one node did so far: its state, the coordinates issued and the epochs opened, oldest first. */
  datatype History = History(node: Node, issued: seq<Issue>, epochs: seq<U32>)

  const EMPTY := History(Node(None, None), [], [])

  function Apply(h: History, ev: Event): History {
    match ev
    case Crash => h.(node := h.node.(mgr := None))
    case Open(now, persist) =>
      var n := OpenNode(h.node, now, persist);
      h.(node := n, epochs := h.epochs + if n.mgr.Some? then [n.mgr.value.epoch] else [])
    case Allocate(persist) =>
      match h.node.mgr
      case None => h
      case Some(m) =>
        var (n, r) := AllocateMsg(h.node.file, m, persist);
        h.(node := n, issued := h.issued + if r.Some? then [r.value] else [])
  }

  function Exec(evs: seq<Event>): History {
    if evs == [] then EMPTY else Apply(Exec(evs[..|evs| - 1]), evs[|evs| - 1])
  }

  predicate WasIssued(issued: seq<Issue>, c: nat) {
    exists i | 0 <= i < |issued| :: issued[i].counter == c
  }

  ghost predicate Increasing(issued: seq<Issue>) {
    forall i, j | 0 <= i < j < |issued| :: issued[i].counter < issued[j].counter
  }

  ghost predicate Below(issued: seq<Issue>, bound: nat) {
    forall i | 0 <= i < |issued| :: issued[i].counter < bound
  }

  /** The running manager has not issued beyond what the state file reserves. */
  predicate Covered(n: Node) {
    n.mgr.Some? ==> n.mgr.value.counter <= OnDisk(n.file).nextAllocatedBlock
  }

  /** Every process of the run ended (by crash or by being reopened) while covered. */
  predicate CoveredEnds(evs: seq<Event>) {
    evs == [] ||
    var before := evs[..|evs| - 1];
    CoveredEnds(before) && (evs[|evs| - 1].Allocate? || Covered(Exec(before).node))
  }

  /** Facts that hold on every run, whatever fails. */
  ghost predicate Consistent(h: History) {
    var next := OnDisk(h.node.file).nextAllocatedBlock;
    match h.node.mgr
    case None => true
    case Some(m) =>
      && h.node.file.Some? && next <= m.limit && m.counter <= m.limit
      && (m.counter > next ==> WasIssued(h.issued, next))
      && m.epoch == h.node.file.value.lastPersistedEpoch
  }

  lemma {:induction false} RunConsistent(evs: seq<Event>)
    ensures Consistent(Exec(evs))
  {
    if evs != [] {
      var n := |evs| - 1;
      RunConsistent(evs[..n]);
      var h, h' := Exec(evs[..n]), Exec(evs);
      if h'.node.mgr.Some? && evs[n].Allocate? {
        var next, m := OnDisk(h.node.file).nextAllocatedBlock, h.node.mgr.value;
        if m.counter > next {
          var i :| 0 <= i < |h.issued| && h.issued[i].counter == next;
          assert h'.issued[i].counter == next;
        } else if |h'.issued| > |h.issued| {
          assert h'.issued[|h.issued|].counter == m.counter;
        }
      }
    }
  }

  /** Counters never repeat and strictly increase across all runs of a node whose processes all end covered. */
  lemma {:induction false} CountersIncrease(evs: seq<Event>)
    requires CoveredEnds(evs)
    ensures var h := Exec(evs);
      && Increasing(h.issued)
      && Below(h.issued, match h.node.mgr
                         case Some(m) => m.counter
                         case None => OnDisk(h.node.file).nextAllocatedBlock)
  {
    if evs != [] {
      var n := |evs| - 1;
      CountersIncrease(evs[..n]);
      RunConsistent(evs[..n]);
    }
  }

  /** The allocations of the run that had to write the state file. */
  function Reservations(evs: seq<Event>): nat {
    if evs == [] then 0
    else
      var before, ev := evs[..|evs| - 1], evs[|evs| - 1];
      var m := Exec(before).node.mgr;
      Reservations(before) + if ev.Allocate? && m.Some? && NeedsBlock(m.value) then 1 else 0
  }

  function Opens(evs: seq<Event>): nat {
    if evs == [] then 0 else Opens(evs[..|evs| - 1]) + if evs[|evs| - 1].Open? then 1 else 0
  }

  lemma {:induction false} BlockAccounting(evs: seq<Event>)
    ensures var h, opens := Exec(evs), Opens(evs);
      && 1000 * Reservations(evs) <= |h.issued|
      && OnDisk(h.node.file).nextAllocatedBlock <= |h.issued| + 1000 * opens
      && match h.node.mgr
         case None => true
         case Some(m) =>
           && m.counter <= m.limit <= m.counter + 1000 && m.counter + 1000 <= |h.issued| + 1000 * opens
           && 1000 * Reservations(evs) + 1000 - (m.limit - m.counter) <= |h.issued|
  {
    if evs != [] {
      BlockAccounting(evs[..|evs| - 1]);
    }
  }

  /** What reserving in blocks costs, over every run and whatever fails: an allocation writes the state file at most
      once per thousand counters issued, and every start skips at most a thousand. */
  lemma ReservationCost(evs: seq<Event>)
    ensures 1000 * Reservations(evs) <= |Exec(evs).issued|
    ensures OnDisk(Exec(evs).node.file).nextAllocatedBlock <= |Exec(evs).issued| + 1000 * Opens(evs)
  {
    BlockAccounting(evs);
  }

  /** The exact failing family: in any reachable state, the first counter a restart issues repeats an earlier one if
      and only if the process ended with its counter beyond the persisted reservation. */
  lemma RestartRepeats(evs: seq<Event>, now: U32)
    requires CoveredEnds(evs) && Exec(evs).node.mgr.Some?
    ensures var h, h' := Exec(evs), Exec(evs + [Crash, Open(now, Saved), Allocate(Saved)]);
      && |h'.issued| == |h.issued| + 1
      && (WasIssued(h.issued, h'.issued[|h.issued|].counter) <==> !Covered(h.node))
  {
    var h := Exec(evs);
    var e1, e2, e3 := evs + [Crash], evs + [Crash, Open(now, Saved)], evs + [Crash, Open(now, Saved), Allocate(Saved)];
    assert e1[..|e1| - 1] == evs && e2[..|e2| - 1] == e1 && e3[..|e3| - 1] == e2;
    RunConsistent(evs);
    CountersIncrease(evs);
    var next := OnDisk(h.node.file).nextAllocatedBlock;
    var f := Some(DiskState(SafeEpoch(now, OnDisk(h.node.file).lastPersistedEpoch), next + BLOCK_SIZE));
    assert Exec(e1) == h.(node := Node(h.node.file, None));
    assert Exec(e2).node == Node(f, Some(Manager(f.value.lastPersistedEpoch, next, next + BLOCK_SIZE)));
    assert Exec(e2).issued == h.issued;
    assert Exec(e3).issued == h.issued + [Issue(f.value.lastPersistedEpoch, next)];
  }

  /** A first process that allocates `n` counters. */
  function Allocations(now: U32, n: nat): seq<Event> {
    if n == 0 then [Open(now, Saved)] else Allocations(now, n - 1) + [Allocate(Saved)]
  }

  lemma ExecSnoc(evs: seq<Event>, ev: Event)
    ensures Exec(evs + [ev]) == Apply(Exec(evs), ev)
    ensures CoveredEnds(evs + [ev]) <==> CoveredEnds(evs) && (ev.Allocate? || Covered(Exec(evs).node))
  {
    assert (evs + [ev])[..|evs|] == evs;
  }

  lemma AllocateInBlock(h: History)
    requires h.node.mgr.Some? && !NeedsBlock(h.node.mgr.value)
    ensures var m, h' := h.node.mgr.value, Apply(h, Allocate(Saved));
      h'.node == Node(h.node.file, Some(m.(counter := m.counter + 1))) && |h'.issued| == |h.issued| + 1
  {
  }

  lemma FirstOpen(now: U32)
    ensures var evs, e := [Open(now, Saved)], SafeEpoch(now, 0);
      && CoveredEnds(evs) && Exec(evs).issued == []
      && Exec(evs).node == Node(Some(DiskState(e, BLOCK_SIZE)), Some(Manager(e, 0, BLOCK_SIZE)))
  {
    assert [Open(now, Saved)] == [] + [Open(now, Saved)];
    ExecSnoc([], Open(now, Saved));
  }

  /** The process has issued `c` counters of its first block, in epoch `e`. */
  ghost predicate InFirstBlock(evs: seq<Event>, e: U32, c: nat) {
    && CoveredEnds(evs) && |Exec(evs).issued| == c
    && Exec(evs).node == Node(Some(DiskState(e, BLOCK_SIZE)), Some(Manager(e, c, BLOCK_SIZE)))
  }

  lemma BlockStep(evs: seq<Event>, e: U32, c: nat)
    requires InFirstBlock(evs, e, c) && c < BLOCK_SIZE
    ensures InFirstBlock(evs + [Allocate(Saved)], e, c + 1)
  {
    ExecSnoc(evs, Allocate(Saved));
    AllocateInBlock(Exec(evs));
    hide Exec;
    hide CoveredEnds;
    hide Apply;
  }

  lemma {:induction false} FirstBlock(now: U32, n: nat)
    requires n <= BLOCK_SIZE
    ensures InFirstBlock(Allocations(now, n), SafeEpoch(now, 0), n)
  {
    hide SafeEpoch;
    if n == 0 {
      FirstOpen(now);
    } else {
      FirstBlock(now, n - 1);
      BlockStep(Allocations(now, n - 1), SafeEpoch(now, 0), n - 1);
      hide InFirstBlock;
    }
  }

  /** A failed reservation followed by an allocation. */
  lemma GoesUncovered(h: History)
    requires h.node.mgr.Some? && h.node.mgr.value.counter == h.node.mgr.value.limit
    ensures var m, h' := h.node.mgr.value, Apply(Apply(h, Allocate(Failed)), Allocate(Saved));
      && h'.node.file == h.node.file && h'.node.mgr.Some? && h'.node.mgr.value.counter == m.counter + 1
      && h'.issued == h.issued + [Issue(m.epoch, m.counter)]
  {
  }

  /** A restart issues the first counter that the state file has not reserved. */
  lemma Reissues(h: History, now: U32)
    ensures var h', next := Apply(Apply(Apply(h, Crash), Open(now, Saved)), Allocate(Saved)),
        OnDisk(h.node.file).nextAllocatedBlock;
      |h'.issued| == |h.issued| + 1 && h'.issued[..|h.issued|] == h.issued && h'.issued[|h.issued|].counter == next
  {
  }

  /** A run that repeats a counter: the first block is used up, the next reservation fails, the process goes on, and
      after a restart the counter it then issued is issued again. */
  lemma CounterIssuedTwice(now: U32, later: U32)
    ensures var evs := Allocations(now, BLOCK_SIZE) + [Allocate(Failed)] + [Allocate(Saved)];
      var h := Exec(evs + [Crash] + [Open(later, Saved)] + [Allocate(Saved)]);
      && CoveredEnds(evs) && !Covered(Exec(evs).node)
      && |h.issued| == BLOCK_SIZE + 2 && h.issued[BLOCK_SIZE].counter == h.issued[BLOCK_SIZE + 1].counter == BLOCK_SIZE
  {
    var block := Allocations(now, BLOCK_SIZE);
    var evs := block + [Allocate(Failed)] + [Allocate(Saved)];
    FirstBlock(now, BLOCK_SIZE);
    hide Allocations;
    hide Exec;
    hide CoveredEnds;
    hide Apply;
    hide SafeEpoch;
    ExecSnoc(block, Allocate(Failed));
    ExecSnoc(block + [Allocate(Failed)], Allocate(Saved));
    GoesUncovered(Exec(block));
    ExecSnoc(evs, Crash);
    ExecSnoc(evs + [Crash], Open(later, Saved));
    ExecSnoc(evs + [Crash] + [Open(later, Saved)], Allocate(Saved));
    Reissues(Exec(evs), later);
  }

  /** A reservation was attempted and reported an I/O error. */
  predicate Fails(n: Node, ev: Event) {
    ev == Allocate(Failed) && n.mgr.Some? && NeedsBlock(n.mgr.value)
  }

  /** A failed reservation ends the process: an assumption, as the daemon only logs the error and goes on allocating. */
  predicate StopsOnError(evs: seq<Event>) {
    forall i | 0 <= i < |evs| - 1 :: Fails(Exec(evs[..i]).node, evs[i]) ==> evs[i + 1] == Crash
  }

  /** The running manager may use exactly what the state file reserves. */
  predicate Reserved(n: Node) {
    n.mgr.Some? ==> n.mgr.value.limit == OnDisk(n.file).nextAllocatedBlock
  }

  lemma ReservedStep(h: History, ev: Event)
    requires Consistent(h) && Reserved(h.node)
    ensures Covered(Apply(h, ev).node)
    ensures Reserved(Apply(h, ev).node) || Fails(h.node, ev)
  {
  }

  lemma {:induction false} StoppingIsCovered(evs: seq<Event>)
    requires StopsOnError(evs)
    ensures CoveredEnds(evs) && Covered(Exec(evs).node)
    ensures Reserved(Exec(evs).node) || (evs != [] && Fails(Exec(evs[..|evs| - 1]).node, evs[|evs| - 1]))
  {
    if evs != [] {
      var n := |evs| - 1;
      var before := evs[..n];
      assert forall i | 0 <= i < n :: evs[..i] == before[..i];
      StoppingIsCovered(before);
      RunConsistent(before);
      if Reserved(Exec(before).node) {
        ReservedStep(Exec(before), evs[n]);
      } else {
        assert before[..n - 1] == evs[..n - 1];
        assert evs[n] == Crash;
      }
    }
  }

  /** Over any sequence of crashes and restarts in which a failed reservation ends the process, every counter ever
      issued lies below the persisted reservation and counters strictly increase across all processes. */
  lemma DurableCounters(evs: seq<Event>)
    requires StopsOnError(evs)
    ensures var h := Exec(evs);
      Increasing(h.issued) && Below(h.issued, OnDisk(h.node.file).nextAllocatedBlock)
  {
    StoppingIsCovered(evs);
    CountersIncrease(evs);
  }

  ghost predicate EpochsOrdered(h: History) {
    && (forall i | 0 <= i < |h.epochs| :: h.epochs[i] <= OnDisk(h.node.file).lastPersistedEpoch)
    && (forall i, j | 0 <= i < j < |h.epochs| :: h.epochs[i] < h.epochs[j] || h.epochs[i] == U32_MAX)
  }

  lemma EpochStep(h: History, ev: Event)
    requires EpochsOrdered(h) && Consistent(h)
    ensures EpochsOrdered(Apply(h, ev))
  {
    var h', last := Apply(h, ev), OnDisk(h.node.file).lastPersistedEpoch;
    assert last <= OnDisk(h'.node.file).lastPersistedEpoch;
    if |h'.epochs| > |h.epochs| {
      var e := h'.epochs[|h.epochs|];
      assert e > last || last == U32_MAX;
      assert e == OnDisk(h'.node.file).lastPersistedEpoch;
    } else {
      assert h'.epochs == h.epochs;
    }
  }

  /** Successive restarts open strictly increasing epochs until the 32-bit epoch saturates. */
  lemma {:induction false} EpochsIncrease(evs: seq<Event>)
    ensures EpochsOrdered(Exec(evs))
  {
    if evs != [] {
      var n := |evs| - 1;
      EpochsIncrease(evs[..n]);
      RunConsistent(evs[..n]);
      EpochStep(Exec(evs[..n]), evs[n]);
    }
  }

  // ---------------------------------------------------------------- message identifiers

  /** Upper half of the node identifier over the low 16 bits of the counter. */
  function MsgId(nodeId: U32, counter: nat): U32 {
    nodeId - nodeId % 0x1_0000 + counter % 0x1_0000
  }

  /** Two messages share an identifier exactly when the upper halves of their nodes' ids and the lower halves of their
      counters agree. */
  lemma MsgIdCollision(nodeId: U32, c: nat, other: U32, d: nat)
    ensures MsgId(nodeId, c) == MsgId(other, d) <==>
      nodeId / 0x1_0000 == other / 0x1_0000 && (c - d) % 0x1_0000 == 0
  {
    assert MsgId(nodeId, c) / 0x1_0000 == nodeId / 0x1_0000 && MsgId(nodeId, c) % 0x1_0000 == c % 0x1_0000;
    assert MsgId(other, d) / 0x1_0000 == other / 0x1_0000 && MsgId(other, d) % 0x1_0000 == d % 0x1_0000;
    assert MsgId(nodeId, c) == MsgId(other, d) <==>
      MsgId(nodeId, c) / 0x1_0000 == MsgId(other, d) / 0x1_0000 &&
      MsgId(nodeId, c) % 0x1_0000 == MsgId(other, d) % 0x1_0000;
  }

  lemma SmallMultiple(k: int)
    requires 0 < k < 0x1_0000
    ensures (-k) % 0x1_0000 != 0
  {
  }

  /** Messages issued by one node, over any such run, have distinct identifiers whenever their counters are less than
      65536 apart. */
  lemma MessageIdsDistinct(evs: seq<Event>, nodeId: U32, i: nat, j: nat)
    requires StopsOnError(evs)
    requires i < j < |Exec(evs).issued|
    requires Exec(evs).issued[j].counter - Exec(evs).issued[i].counter < 0x1_0000
    ensures MsgId(nodeId, Exec(evs).issued[i].counter) != MsgId(nodeId, Exec(evs).issued[j].counter)
  {
    DurableCounters(evs);
    var c, d := Exec(evs).issued[i].counter, Exec(evs).issued[j].counter;
    hide *;
    MsgIdCollision(nodeId, c, nodeId, d);
    SmallMultiple(d - c);
  }
}
