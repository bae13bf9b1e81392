/** How confirmed records are forgotten: checkpoint writes that fail, and checkpoints that go unread. */
module CheckpointLosses {
  import opened Bytes
  import opened Wire
  import opened Records
  import opened Storage
  import opened Checkpoints
  import opened Recovery
  import SramRing

  // ---------------------------------------------------------------- when checkpoint writes fail

  /** A running node in card mode whose counters agree with the log. */
  predicate Ready(h: History) {
    && h.power.On? && !h.power.mgr.ramOnly
    && h.power.mgr.sequence == h.count && h.power.mgr.lba == FIRST_LBA + h.count
  }

  /** What a confirmed record does to the machine; it stays out of the checkpoint slots. */
  lemma RecordedFrames(s: Live, crc: Crc32)
    requires s.ring.items != [] && s.mgr.sequence < U64_MAX && FIRST_LBA <= s.mgr.lba < U32_MAX
    ensures var s' := Recorded(s, crc);
      && s'.powered == s.powered && s'.mgr == s.mgr.(sequence := s.mgr.sequence + 1, lba := s.mgr.lba + 1)
      && s'.ring.items == s.ring.items[1..] && s'.faults == RestFaults(s.faults) && |s'.written| == |s.written| + 1
      && ReadBlock(s'.disk, 1) == ReadBlock(s.disk, 1) && ReadBlock(s'.disk, 2) == ReadBlock(s.disk, 2)
  {
    hide RecordSector;
  }

  /** A turn that confirms a record and comes to no checkpoint. */
  lemma PlainTurn(s: Live, crc: Crc32)
    requires Writing(s) && NextFault(s.faults).Done?
    requires s.mgr.lba == FIRST_LBA + s.mgr.sequence < U32_MAX && (s.mgr.sequence + 1) % CHECKPOINT_INTERVAL != 0
    ensures var s' := FlushOne(s, crc);
      && s'.powered && s'.mgr == s.mgr.(sequence := s.mgr.sequence + 1, lba := s.mgr.lba + 1)
      && s'.ring.items == s.ring.items[1..] && |s'.written| == |s.written| + 1 && s'.faults == RestFaults(s.faults)
      && ReadBlock(s'.disk, 1) == ReadBlock(s.disk, 1) && ReadBlock(s'.disk, 2) == ReadBlock(s.disk, 2)
      && CheckpointFault(s) == None
  {
    hide RecordSector;
    hide EncodeCheckpoint;
    TurnWrites(s, crc);
    RecordedFrames(s, crc);
    hide FlushOne;
    hide Recorded;
  }

  lemma DropTwice<T>(s: seq<T>)
    requires |s| >= 2
    ensures s[1..][1..] == s[2..]
  {
  }

  lemma DueInTwo(n: nat)
    requires n % CHECKPOINT_INTERVAL == CHECKPOINT_INTERVAL - 2
    ensures (n + 1) % CHECKPOINT_INTERVAL != 0 && (n + 1 + 1) % CHECKPOINT_INTERVAL == 0
  {
  }

  /** A turn that confirms a record and comes to the checkpoint due after it: only that checkpoint's slot is touched. */
  lemma DueTurn(s: Live, crc: Crc32)
    requires Writing(s) && NextFault(s.faults).Done?
    requires s.mgr.lba == FIRST_LBA + s.mgr.sequence < U32_MAX && (s.mgr.sequence + 1) % CHECKPOINT_INTERVAL == 0
    ensures var s', f := FlushOne(s, crc), NextFault(RestFaults(s.faults));
      && s'.mgr == s.mgr.(sequence := s.mgr.sequence + 1, lba := s.mgr.lba + 1)
      && s'.ring.items == s.ring.items[1..] && |s'.written| == |s.written| + 1
      && s'.powered == !f.PowerLoss? && s'.faults == RestFaults(RestFaults(s.faults)) && CheckpointFault(s) == Some(f)
      && (!f.Done? && f.left.Garbage? ==> ReadBlock(s'.disk, CheckpointLba(s.mgr.sequence + 1)) == f.left.sector)
      && ReadBlock(s'.disk, 3 - CheckpointLba(s.mgr.sequence + 1))
         == ReadBlock(s.disk, 3 - CheckpointLba(s.mgr.sequence + 1))
  {
    hide RecordSector;
    hide EncodeCheckpoint;
    TurnWrites(s, crc);
    RecordedFrames(s, crc);
    hide FlushOne;
    hide Recorded;
  }

  /** The two turns of a flush whose first record makes a checkpoint due that is not cut off by power loss. */
  lemma DueTurns(s0: Live, f: Fault, crc: Crc32)
    requires s0.powered && !s0.mgr.ramOnly && |s0.ring.items| >= 2 && s0.faults == [Done, f, Done] && !f.PowerLoss?
    requires s0.mgr.lba == FIRST_LBA + s0.mgr.sequence && s0.mgr.lba + 2 <= U32_MAX
    requires s0.mgr.sequence % CHECKPOINT_INTERVAL == CHECKPOINT_INTERVAL - 1
    ensures var s1 := FlushOne(s0, crc); var s2 := FlushOne(s1, crc);
      && CheckpointFault(s0) == Some(f) && CheckpointFault(s1) == None
      && s2.powered && s2.mgr.sequence == s0.mgr.sequence + 2
  {
    hide CheckpointFault;
    hide FlushOne;
    hide RecordSector;
    hide ReadBlock;
    assert s0.faults[1..] == [f, Done] && [f, Done][1..] == [Done];
    DueTurn(s0, crc);
    PlainTurn(FlushOne(s0, crc), crc);
  }

  lemma TurnMissed(b: Book, s: Live)
    ensures Turn(b, s).missed == Missed(CheckpointFault(s), b.missed)
  {
    hide WriteCell;
    hide AheadAfter;
  }

  lemma DurableRecovers(h: History, crc: Crc32)
    requires Durable(h, crc)
    ensures h.count <= Recover(h.disk, crc).sequence + CHECKPOINT_INTERVAL
       <==> Near(h.count, h.book.missed) || h.count <= h.book.ahead + CHECKPOINT_INTERVAL
  {
    KeptRecovers(h.disk, h.count, h.book, h.power.On? ==> h.power.mgr.ramOnly, crc);
  }

  /** A flush whose first record makes a checkpoint due that is not cut off by power loss. */
  lemma DueFlush(h: History, f: Fault, crc: Crc32)
    requires Ready(h) && |h.power.ring.items| >= 2 && !f.PowerLoss? && FairFault(f, crc)
    requires h.count % CHECKPOINT_INTERVAL == CHECKPOINT_INTERVAL - 1 && FIRST_LBA + h.count + 2 <= U32_MAX
    ensures var h' := Apply(h, Flush([Done, f, Done]), crc);
      FairEvent(h, Flush([Done, f, Done]), crc) && h'.power.On? && h'.count == h.count + 2
      && h'.book.missed == if Takes(f) then 0 else h.book.missed + 1
  {
    hide FlushOne;
    hide CheckpointFault;
    hide FairFault;
    hide Apply;
    hide Turn;
    var s0 := Waking(h, [Done, f, Done]);
    DueTurns(s0, f, crc);
    FlushResult(h, [Done, f, Done], crc);
    TurnMissed(h.book, s0);
    TurnMissed(Turn(h.book, s0), FlushOne(s0, crc));
  }

  /** Exactly which outcomes of the checkpoint write due at a multiple of 16 keep the 16-record bound when one more
      record follows and the node then goes down: the write completed, or reported an error although its data had
      arrived (or an unread checkpoint is close enough). */
  lemma CheckpointErrorExactly(h: History, f: Fault, crc: Crc32)
    requires Durable(h, crc) && Ready(h) && |h.power.ring.items| >= 2 && FairFault(f, crc) && !f.PowerLoss?
    requires h.count % CHECKPOINT_INTERVAL == CHECKPOINT_INTERVAL - 1 && FIRST_LBA + |h.book.cells| + 2 <= U32_MAX
    ensures var h' := Apply(Apply(h, Flush([Done, f, Done]), crc), PowerOff, crc);
      && h'.power.Off? && h'.count == h.count + 2
      && (h'.count <= Recover(h'.disk, crc).sequence + CHECKPOINT_INTERVAL <==>
            f.Done? || f == Error(New) || h'.count <= h'.book.ahead + CHECKPOINT_INTERVAL)
  {
    hide Apply;
    hide Recover;
    hide Durable;
    hide FairFault;
    hide FairEvent;
    hide FlushTick;
    var h1 := Apply(h, Flush([Done, f, Done]), crc);
    CountBounded(h, crc);
    DueFlush(h, f, crc);
    FlushDurable(h, [Done, f, Done], crc);
    DurableRecovers(h1, crc);
    PowerOffResult(h1, crc);
  }

  // ---------------------------------------------------------------- losing both checkpoints

  /** Two turns of a flush without faults that come to no checkpoint. */
  lemma PlainTurns(s0: Live, crc: Crc32)
    requires s0.powered && !s0.mgr.ramOnly && |s0.ring.items| >= 2 && s0.faults == []
    requires s0.mgr.lba == FIRST_LBA + s0.mgr.sequence && s0.mgr.lba + 2 <= U32_MAX
    requires s0.mgr.sequence % CHECKPOINT_INTERVAL < CHECKPOINT_INTERVAL - 2
    ensures var s2 := FlushOne(FlushOne(s0, crc), crc);
      && s2.powered
      && s2.mgr == s0.mgr.(sequence := s0.mgr.sequence + 2, lba := s0.mgr.lba + 2)
      && s2.ring.items == s0.ring.items[2..]
      && ReadBlock(s2.disk, 1) == ReadBlock(s0.disk, 1) && ReadBlock(s2.disk, 2) == ReadBlock(s0.disk, 2)
  {
    hide CheckpointFault;
    hide FlushOne;
    hide RecordSector;
    hide ReadBlock;
    DropTwice(s0.ring.items);
    PlainTurn(s0, crc);
    PlainTurn(FlushOne(s0, crc), crc);
  }

  lemma PlainFlush(h: History, crc: Crc32)
    requires Ready(h) && |h.power.ring.items| >= 2 && FIRST_LBA + h.count + 2 <= U32_MAX
    requires h.count % CHECKPOINT_INTERVAL < CHECKPOINT_INTERVAL - 2
    ensures var h' := Apply(h, Flush([]), crc);
      && Ready(h') && h'.count == h.count + 2 && |h'.power.ring.items| == |h.power.ring.items| - 2
      && ReadBlock(h'.disk, 1) == ReadBlock(h.disk, 1) && ReadBlock(h'.disk, 2) == ReadBlock(h.disk, 2)
  {
    hide FlushOne;
    hide Apply;
    hide CheckpointFault;
    hide ReadBlock;
    hide Missed;
    hide Reports;
    PlainTurns(Waking(h, []), crc);
    FlushResult(h, [], crc);
  }

  /** Flushes without faults between two checkpoints write two records each and leave the slots alone. */
  lemma {:induction false} FlushesBetween(h: History, k: nat, crc: Crc32)
    requires Ready(h) && |h.power.ring.items| >= 2 * k && FIRST_LBA + h.count + 2 * k <= U32_MAX
    requires h.count % CHECKPOINT_INTERVAL + 2 * k < CHECKPOINT_INTERVAL
    ensures var h' := Flushes(h, k, crc);
      && Ready(h') && h'.count == h.count + 2 * k && |h'.power.ring.items| == |h.power.ring.items| - 2 * k
      && ReadBlock(h'.disk, 1) == ReadBlock(h.disk, 1) && ReadBlock(h'.disk, 2) == ReadBlock(h.disk, 2)
  {
    hide Apply;
    hide ReadBlock;
    if k > 0 {
      FlushesBetween(h, k - 1, crc);
      PlainFlush(Flushes(h, k - 1, crc), crc);
    }
  }

  /** A flush whose second record makes a checkpoint due that meets `f`. */
  lemma DueSecondTurns(s0: Live, f: Fault, crc: Crc32)
    requires s0.powered && !s0.mgr.ramOnly && |s0.ring.items| >= 2 && NextFault(s0.faults).Done?
    requires var rest := RestFaults(s0.faults); NextFault(rest).Done? && NextFault(RestFaults(rest)) == f
    requires s0.mgr.lba == FIRST_LBA + s0.mgr.sequence && s0.mgr.lba + 2 <= U32_MAX
    requires s0.mgr.sequence % CHECKPOINT_INTERVAL == CHECKPOINT_INTERVAL - 2
    ensures var s2 := FlushOne(FlushOne(s0, crc), crc); var slot := CheckpointLba(s0.mgr.sequence + 2);
      && s2.powered == !f.PowerLoss?
      && s2.mgr == s0.mgr.(sequence := s0.mgr.sequence + 2, lba := s0.mgr.lba + 2)
      && s2.ring.items == s0.ring.items[2..]
      && (!f.Done? && f.left.Garbage? ==> ReadBlock(s2.disk, slot) == f.left.sector)
      && ReadBlock(s2.disk, 3 - slot) == ReadBlock(s0.disk, 3 - slot)
  {
    SlotIsOneOfTwo(s0.mgr.sequence + 2);
    hide CheckpointFault;
    hide FlushOne;
    hide RecordSector;
    hide CheckpointLba;
    hide NextFault;
    hide RestFaults;
    hide ReadBlock;
    DueInTwo(s0.mgr.sequence);
    DropTwice(s0.ring.items);
    PlainTurn(s0, crc);
    DueTurn(FlushOne(s0, crc), crc);
  }

  lemma DueSecondFlush(h: History, f: Fault, crc: Crc32)
    requires Ready(h) && |h.power.ring.items| >= 2 && FIRST_LBA + h.count + 2 <= U32_MAX
    requires h.count % CHECKPOINT_INTERVAL == CHECKPOINT_INTERVAL - 2
    ensures var h' := Apply(h, Flush([Done, Done, f]), crc); var slot := CheckpointLba(h'.count);
      && h'.count == h.count + 2
      && (if f.PowerLoss? then h'.power.Off? else Ready(h') && |h'.power.ring.items| == |h.power.ring.items| - 2)
      && (!f.Done? && f.left.Garbage? ==> ReadBlock(h'.disk, slot) == f.left.sector)
      && ReadBlock(h'.disk, 3 - slot) == ReadBlock(h.disk, 3 - slot)
  {
    hide FlushOne;
    hide Apply;
    hide CheckpointFault;
    hide ReadBlock;
    hide CheckpointLba;
    hide Missed;
    hide Reports;
    assert [Done, Done, f][1..] == [Done, f] && [Done, f][1..] == [f];
    DueSecondTurns(Waking(h, [Done, Done, f]), f, crc);
    FlushResult(h, [Done, Done, f], crc);
  }

  /** From a running node to the power loss: a checkpoint write reports an error and leaves garbage, fourteen records
      later the next checkpoint write is cut off by power loss and leaves garbage too. */
  function Garbled(h: History, g1: Sector, g2: Sector, crc: Crc32): History {
    Apply(Flushes(Apply(h, Flush([Done, Done, Error(Garbage(g1))]), crc), 7, crc),
          Flush([Done, Done, PowerLoss(Garbage(g2))]), crc)
  }

  /** Eighteen records past the one before a checkpoint, the next checkpoint is due, in the other slot. */
  lemma DueAgain(n: nat)
    requires n % CHECKPOINT_INTERVAL == CHECKPOINT_INTERVAL - 2
    ensures (n + 2) % CHECKPOINT_INTERVAL == 0 && (n + 16) % CHECKPOINT_INTERVAL == CHECKPOINT_INTERVAL - 2
    ensures CheckpointLba(n + 18) == 3 - CheckpointLba(n + 2) && 1 <= CheckpointLba(n + 2) <= 2
  {
    hide CheckpointLba;
    SlotIsOneOfTwo(n + 2);
    SlotsAlternate(n + 18);
  }

  lemma NoSlotsLeft(d: Disk, g1: Sector, g2: Sector, crc: Crc32)
    requires DecodeCheckpoint(g1, crc).Err? && DecodeCheckpoint(g2, crc).Err?
    requires (ReadBlock(d, 1) == g1 && ReadBlock(d, 2) == g2) || (ReadBlock(d, 1) == g2 && ReadBlock(d, 2) == g1)
    ensures Recover(d, crc) == Manager(false, 0, FIRST_LBA, 0)
  {
    hide DecodeCheckpoint;
    hide ReadBlock;
  }

  /** One reported error followed by one power loss can destroy both checkpoints: recovery then starts from nothing,
      however many records were confirmed. */
  lemma BothSlotsLost(h: History, g1: Sector, g2: Sector, crc: Crc32)
    requires Ready(h) && h.count % CHECKPOINT_INTERVAL == CHECKPOINT_INTERVAL - 2 && FIRST_LBA + h.count + 18 <= U32_MAX
    requires |h.power.ring.items| >= 18 && DecodeCheckpoint(g1, crc).Err? && DecodeCheckpoint(g2, crc).Err?
    ensures var h' := Garbled(h, g1, g2, crc);
      h'.power.Off? && h'.count == h.count + 18 && Recover(h'.disk, crc) == Manager(false, 0, FIRST_LBA, 0)
  {
    hide Apply;
    hide Flushes;
    hide DecodeCheckpoint;
    hide ReadBlock;
    hide Recover;
    hide Ready;
    hide LastCheckpoint;
    DueAgain(h.count);
    var h1 := Apply(h, Flush([Done, Done, Error(Garbage(g1))]), crc);
    DueSecondFlush(h, Error(Garbage(g1)), crc);
    var h2 := Flushes(h1, 7, crc);
    FlushesBetween(h1, 7, crc);
    DueSecondFlush(h2, PowerLoss(Garbage(g2)), crc);
    NoSlotsLeft(Garbled(h, g1, g2, crc).disk, g1, g2, crc);
  }

  function Pushes(h: History, p: MeshPacket, k: nat, crc: Crc32): History {
    if k == 0 then h else Apply(Pushes(h, p, k - 1, crc), Push(p), crc)
  }

  lemma {:induction false} PushesHeld(h: History, p: MeshPacket, k: nat, crc: Crc32)
    requires Ready(h) && |h.power.ring.items| + k <= SramRing.CAPACITY
    ensures var h' := Pushes(h, p, k, crc);
      Ready(h') && h'.count == h.count && |h'.power.ring.items| == |h.power.ring.items| + k && h'.disk == h.disk
  {
    if k > 0 {
      PushesHeld(h, p, k - 1, crc);
    }
  }

  lemma FreshOn(card: Disk, crc: Crc32)
    requires Unused(card, crc)
    ensures var h := Apply(Start(card), PowerOn(true, true), crc); Ready(h) && h.count == 0 && h.power.ring.items == []
  {
    hide CheckpointAt;
  }

  /** A run from a fresh card in which 48 records are confirmed and none is recovered. */
  lemma AllForgotten(card: Disk, p: MeshPacket, g1: Sector, g2: Sector, crc: Crc32)
    requires Unused(card, crc) && DecodeCheckpoint(g1, crc).Err? && DecodeCheckpoint(g2, crc).Err?
    ensures var h := Flushes(Pushes(Apply(Start(card), PowerOn(true, true), crc), p, 48, crc), 7, crc);
      var h' := Garbled(Flushes(Apply(h, Flush([Done, Done, Done]), crc), 7, crc), g1, g2, crc);
      h'.power.Off? && h'.count == 48 && Recover(h'.disk, crc) == Manager(false, 0, FIRST_LBA, 0)
  {
    hide DecodeCheckpoint;
    hide Unused;
    hide Apply;
    hide Pushes;
    hide Flushes;
    hide Garbled;
    hide Recover;
    var on := Apply(Start(card), PowerOn(true, true), crc);
    FreshOn(card, crc);
    PushesHeld(on, p, 48, crc);
    var full := Pushes(on, p, 48, crc);
    FlushesBetween(full, 7, crc);
    var h := Flushes(full, 7, crc);
    DueSecondFlush(h, Done, crc);
    var h1 := Apply(h, Flush([Done, Done, Done]), crc);
    FlushesBetween(h1, 7, crc);
    BothSlotsLost(Flushes(h1, 7, crc), g1, g2, crc);
  }

  // ---------------------------------------------------------------- when the newest checkpoint goes unread

  /** Sector L holds some valid record with sequence L - 9. */
  predicate ValidAt(d: Disk, i: nat, crc: Crc32) {
    RecordAt(d, i, crc).Ok? && RecordAt(d, i, crc).value.sequence == i + 1
  }

  lemma WholeIsValid(d: Disk, cells: seq<Cell>, n: nat, crc: Crc32)
    requires CellsOnCard(d, cells, crc) && Whole(cells, n)
    ensures forall i: nat | i < n :: ValidAt(d, i, crc)
  {
    hide RecordAt;
    forall i: nat | i < n ensures ValidAt(d, i, crc) {
      assert HoldsRecord(d, i, cells[i].value, crc);
    }
  }

  /** The turn of a flush whose record write is cut off by power loss. */
  lemma TornTurn(s: Live, left: Left, crc: Crc32)
    requires Writing(s) && NextFault(s.faults) == PowerLoss(left) && s.mgr.lba == FIRST_LBA + s.mgr.sequence
    ensures var s' := FlushOne(s, crc);
      && !s'.powered && s'.mgr == s.mgr && CheckpointFault(s) == None && FlushOne(s', crc) == s' && !Writing(s')
      && (left.Garbage? ==> ReadBlock(s'.disk, FIRST_LBA + s.mgr.sequence) == left.sector)
  {
    hide RecordSector;
  }

  lemma TornFlush(h: History, left: Left, crc: Crc32)
    requires Durable(h, crc) && Ready(h) && h.power.ring.items != [] && FIRST_LBA + |h.book.cells| + 2 <= U32_MAX
    ensures var h' := Apply(h, Flush([PowerLoss(left)]), crc);
      && h'.power.Off? && h'.count == h.count && Durable(h', crc) && h'.book.ahead == h.book.ahead
      && h'.book.holed == (h.book.holed || (left.Garbage? && h.count < h.book.ahead))
      && (left.Garbage? ==> ReadBlock(h'.disk, FIRST_LBA + h.count) == left.sector)
  {
    var faults := [PowerLoss(left)];
    var s0 := Waking(h, faults);
    TornTurn(s0, left, crc);
    hide FlushOne;
    hide ReadBlock;
    assert FairEvent(h, Flush(faults), crc);
    FlushDurable(h, faults, crc);
    FlushResult(h, faults, crc);
    hide Apply;
    hide Durable;
    hide WriteCell;
  }

  /** Exactly when a record write cut off by power loss leaves a hole in what the next recovery takes for its log: it
      left garbage while a checkpoint past the manager's count went unread. */
  lemma HoleExactly(h: History, left: Left, crc: Crc32)
    requires Durable(h, crc) && Ready(h) && h.power.ring.items != [] && FIRST_LBA + |h.book.cells| + 2 <= U32_MAX
    requires !h.book.holed && (left.Garbage? ==> DecodeRecord(left.sector[..RECORD_SIZE], crc).Err?)
    ensures var h' := Apply(h, Flush([PowerLoss(left)]), crc);
      (forall i: nat | i < Recover(h'.disk, crc).sequence :: ValidAt(h'.disk, i, crc))
        <==> !(left.Garbage? && h.count < h.book.ahead)
  {
    hide Apply;
    hide Recover;
    hide SlotsSound;
    hide Owned;
    hide Newest;
    hide Near;
    hide CellsOnCard;
    hide Whole;
    hide DecodeRecord;
    var h' := Apply(h, Flush([PowerLoss(left)]), crc);
    TornFlush(h, left, crc);
    KeptRecovers(h'.disk, h'.count, h'.book, true, crc);
    if left.Garbage? && h.count < h.book.ahead {
      assert !ValidAt(h'.disk, h.count, crc);
    } else {
      hide ValidAt;
      WholeIsValid(h'.disk, h'.book.cells, Recover(h'.disk, crc).sequence, crc);
    }
  }

  lemma StaleOn(h: History, read1: bool, read2: bool, crc: Crc32)
    requires Durable(h, crc) && h.power.Off? && (read1 || read2)
    requires Boot(h.disk, read1, read2, crc).sequence != Newest(h.disk, crc)
    ensures var on := Apply(h, PowerOn(read1, read2), crc);
      && Ready(on) && on.power.ring == SramRing.EMPTY && on.book.cells == h.book.cells && on.count < on.book.ahead
  {
    BootOwned(h.disk, |h.book.cells|, read1, read2, crc);
    BootTakes(h.disk, |h.book.cells|, read1, read2, crc);
    hide Boot;
    hide Owned;
    hide SlotsSound;
    hide CellsOnCard;
  }

  lemma PushedOne(h: History, p: MeshPacket, crc: Crc32)
    requires Durable(h, crc) && Ready(h) && h.power.ring == SramRing.EMPTY
    ensures var h' := Apply(h, Push(p), crc);
      && Durable(h', crc) && Ready(h') && h'.power.ring.items != [] && h'.book == h.book && h'.count == h.count
  {
    hide Kept;
  }

  /** From any reachable card with a checkpoint: a start-up that reads only the other slot counts from an older one; if
      its first record write is cut off and leaves garbage, the next recovery yields the newest checkpoint after all, a
      sequence past the manager's count, over a sector that holds no valid record. */
  lemma StaleStart(h: History, read1: bool, read2: bool, p: MeshPacket, g: Sector, crc: Crc32)
    requires Durable(h, crc) && h.power.Off? && FIRST_LBA + |h.book.cells| + 2 <= U32_MAX
    requires (read1 || read2) && Boot(h.disk, read1, read2, crc).sequence != Newest(h.disk, crc)
    requires DecodeRecord(g[..RECORD_SIZE], crc).Err?
    ensures var on := Apply(h, PowerOn(read1, read2), crc);
      var h' := Apply(Apply(on, Push(p), crc), Flush([PowerLoss(Garbage(g))]), crc);
      h'.power.Off? && Recover(h'.disk, crc).sequence > h'.count && !ValidAt(h'.disk, h'.count, crc)
  {
    hide Apply;
    hide Recover;
    hide Boot;
    hide SlotsSound;
    hide Owned;
    hide Newest;
    hide Near;
    hide CellsOnCard;
    hide Whole;
    hide DecodeRecord;
    var on := Apply(h, PowerOn(read1, read2), crc);
    PowerOnDurable(h, read1, read2, crc);
    StaleOn(h, read1, read2, crc);
    var full := Apply(on, Push(p), crc);
    PushedOne(on, p, crc);
    TornFlush(full, Garbage(g), crc);
    var h' := Apply(full, Flush([PowerLoss(Garbage(g))]), crc);
    KeptRecovers(h'.disk, h'.count, h'.book, true, crc);
  }
}
