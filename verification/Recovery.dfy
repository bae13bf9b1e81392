/** Runs of a node's storage over flushes, power losses and restarts, and what recovery finds on the card. */
module Recovery {
  import opened Bytes
  import opened Wire
  import opened Records
  import opened Storage
  import opened Checkpoints
  import SramRing

  // ---------------------------------------------------------------- runs

  /** At start-up the device may fail to read either checkpoint slot. */
  datatype Event =
    | PowerOn(read1: bool, read2: bool)
    | PowerOff
    | Push(packet: MeshPacket)
    | Flush(faults: seq<Fault>)

  datatype Power = Off | On(mgr: Manager, ring: SramRing.Ring)

  type Cell = Option<Payload>

  /** The books of a card. `cells` are the payloads that the log's sectors are known to hold, None where a write left
      garbage; the last `missed` checkpoints due did not reach the card; `ahead` is the checkpoint that the last
      start-up could not read although it was the newest, as long as it is on the card, else 0; `reported` tells that
      the device ever reported a checkpoint write as failed, and `holed` that a record write ever left garbage in a
      sector below an unread checkpoint. */
  datatype Book = Book(cells: seq<Cell>, missed: nat, ahead: nat, reported: bool, holed: bool)

  /** The card and the node, with what happened so far: `count` is the manager's sequence (at power loss if it is down);
      since the last power-on, `written` were confirmed to the card, `pushed` entered the ring and `evicted` left it
      unwritten. */
  datatype History = History(disk: Disk, power: Power, book: Book, count: nat, written: seq<Payload>,
                             pushed: seq<Payload>, evicted: seq<Payload>)

  function Start(card: Disk): History {
    History(card, Off, Book([], 0, 0, false, false), 0, [], [], [])
  }

  function Payloads(items: seq<MeshPacket>): (r: seq<Payload>)
    ensures |r| == |items|
  {
    seq(|items|, i requires 0 <= i < |items| => items[i].payload)
  }

  /** The next flush turn writes a record. */
  predicate Writing(s: Live) {
    s.powered && !s.mgr.ramOnly && s.ring.items != []
  }

  /** What befalls the checkpoint write that follows record number `sequence`, if one is due. */
  function DueFault(sequence: nat, faults: seq<Fault>): Option<Fault> {
    if sequence % CHECKPOINT_INTERVAL == 0 then Some(NextFault(faults)) else None
  }

  /** What befalls the checkpoint write of the next flush turn, if the turn comes to one. */
  function CheckpointFault(s: Live): Option<Fault> {
    if Writing(s) && NextFault(s.faults).Done?
    then DueFault(SaturatingAdd(s.mgr.sequence, 1, U64_MAX), RestFaults(s.faults))
    else None
  }

  predicate Reports(s: Live) {
    CheckpointFault(s).Some? && CheckpointFault(s).value.Error?
  }

  /** The cells after the record write of `p` to cell `at`. */
  function WriteCell(cells: seq<Cell>, at: nat, p: Payload, f: Fault): seq<Cell> {
    if at < |cells| then
      if Spares(f) then cells else cells[at := if Spoils(f) then None else Some(p)]
    else if at == |cells| && f.Done? then cells + [Some(p)]
    else cells
  }

  /** The books after the next flush turn. */
  function Turn(b: Book, s: Live): Book {
    if !Writing(s) then b
    else
      var c, f, due := s.mgr.sequence, NextFault(s.faults), CheckpointFault(s);
      Book(WriteCell(b.cells, c, s.ring.items[0].payload, f), Missed(due, b.missed), AheadAfter(b.ahead, c + 1, due),
           b.reported || Reports(s), b.holed || (Spoils(f) && c < b.ahead))
  }

  /** The machine at the start of a flush. */
  function Waking(h: History, faults: seq<Fault>): Live
    requires h.power.On?
  {
    Live(h.disk, h.power.mgr, h.power.ring, true, faults, [])
  }

  function Apply(h: History, ev: Event, crc: Crc32): History {
    match (h.power, ev)
    case (Off, PowerOn(read1, read2)) =>
      var m, newest := Boot(h.disk, read1, read2, crc), Newest(h.disk, crc);
      var book := h.book.(missed := 0, ahead := if m.sequence == newest then 0 else newest);
      History(h.disk, On(m, SramRing.EMPTY), book, m.sequence, [], [], [])
    case (On(_, _), PowerOff) => h.(power := Off)
    case (On(m, r), Push(p)) =>
      var (r', evicted) := SramRing.Push(r, p);
      h.(power := On(m, r'), pushed := h.pushed + [p.payload],
         evicted := if evicted.Some? then h.evicted + [evicted.value.payload] else h.evicted)
    case (On(m, r), Flush(faults)) =>
      var s0 := Waking(h, faults);
      var s := FlushTick(h.disk, m, r, faults, crc);
      h.(disk := s.disk, power := if s.powered then On(s.mgr, s.ring) else Off,
         book := Turn(Turn(h.book, s0), FlushOne(s0, crc)), count := s.mgr.sequence, written := h.written + s.written)
    case _ => h
  }

  function Exec(card: Disk, evs: seq<Event>, crc: Crc32): History {
    if evs == [] then Start(card) else Apply(Exec(card, evs[..|evs| - 1], crc), evs[|evs| - 1], crc)
  }

  /** `k` flushes in a row whose writes all succeed. */
  function Flushes(h: History, k: nat, crc: Crc32): History {
    if k == 0 then h else Apply(Flushes(h, k - 1, crc), Flush([]), crc)
  }

  predicate FairTurn(s: Live, crc: Crc32) {
    CheckpointFault(s).Some? ==> FairFault(CheckpointFault(s).value, crc)
  }

  predicate FairEvent(h: History, ev: Event, crc: Crc32) {
    h.power.On? && ev.Flush? ==>
      var s0 := Waking(h, ev.faults);
      FairTurn(s0, crc) && FairTurn(FlushOne(s0, crc), crc)
  }

  predicate Fair(card: Disk, evs: seq<Event>, crc: Crc32) {
    evs == [] ||
    (Fair(card, evs[..|evs| - 1], crc) && FairEvent(Exec(card, evs[..|evs| - 1], crc), evs[|evs| - 1], crc))
  }

  /** The log never comes within two sectors of the last addressable one. */
  predicate BelowSaturation(card: Disk, evs: seq<Event>, crc: Crc32) {
    FIRST_LBA + |Exec(card, evs, crc).book.cells| + 2 <= U32_MAX &&
    (evs == [] || BelowSaturation(card, evs[..|evs| - 1], crc))
  }

  // ---------------------------------------------------------------- the log on the card

  /** What the log's `i`-th sector holds. */
  function RecordAt(d: Disk, i: nat, crc: Crc32): Result<ChunkRecord, StorageError> {
    DecodeRecord(ReadBlock(d, FIRST_LBA + i)[..RECORD_SIZE], crc)
  }

  /** Sector L of the log holds a record with sequence L - 9. */
  predicate HoldsRecord(d: Disk, i: nat, p: Payload, crc: Crc32) {
    i + 1 <= U64_MAX && RecordAt(d, i, crc) == Ok(ChunkRecord(i + 1, p))
  }

  ghost predicate CellsOnCard(d: Disk, cells: seq<Cell>, crc: Crc32) {
    forall i: nat | i < |cells| && cells[i].Some? :: HoldsRecord(d, i, cells[i].value, crc)
  }

  /** The first `n` cells are all known. */
  ghost predicate Whole(cells: seq<Cell>, n: nat) {
    n <= |cells| && forall i | 0 <= i < n :: cells[i].Some?
  }

  lemma CellsFramed(d: Disk, d': Disk, cells: seq<Cell>, crc: Crc32)
    requires CellsOnCard(d, cells, crc)
    requires forall lba: nat | FIRST_LBA <= lba :: ReadBlock(d', lba) == ReadBlock(d, lba)
    ensures CellsOnCard(d', cells, crc)
  {
    hide DecodeRecord;
    forall i: nat | i < |cells| && cells[i].Some? ensures HoldsRecord(d', i, cells[i].value, crc) {
      assert HoldsRecord(d, i, cells[i].value, crc);
    }
  }

  lemma RecordReads(d: Disk, at: nat, p: Payload, crc: Crc32)
    requires at + 1 <= U64_MAX
    ensures HoldsRecord(d[FIRST_LBA + at := RecordSector(ChunkRecord(at + 1, p), crc)], at, p, crc)
  {
    hide DecodeRecord;
    var r := ChunkRecord(at + 1, p);
    RecordDecodes(r, crc);
    assert RecordSector(r, crc)[..RECORD_SIZE] == EncodeRecord(r, crc);
  }

  /** A record write under any fault keeps the cells up to date. */
  lemma CellWritten(d: Disk, cells: seq<Cell>, at: nat, p: Payload, f: Fault, crc: Crc32)
    requires CellsOnCard(d, cells, crc) && at <= |cells| && at + 1 <= U64_MAX
    ensures var d' := Settle(d, FIRST_LBA + at, RecordSector(ChunkRecord(at + 1, p), crc), f);
      CellsOnCard(d', WriteCell(cells, at, p, f), crc)
  {
    hide DecodeRecord;
    hide RecordSector;
    var d' := Settle(d, FIRST_LBA + at, RecordSector(ChunkRecord(at + 1, p), crc), f);
    var cells' := WriteCell(cells, at, p, f);
    RecordReads(d, at, p, crc);
    forall i: nat | i < |cells'| && cells'[i].Some? ensures HoldsRecord(d', i, cells'[i].value, crc) {
      if i != at {
        assert HoldsRecord(d, i, cells[i].value, crc);
      } else if Spares(f) {
        assert HoldsRecord(d, i, cells[i].value, crc);
      }
    }
  }

  // ---------------------------------------------------------------- one flush turn

  /** What a card keeps under a manager that counts `c` records. A manager that started in RAM-only mode because neither
      slot could be read owns no checkpoint. */
  ghost predicate Kept(d: Disk, c: nat, b: Book, ramOnly: bool, crc: Crc32) {
    && CellsOnCard(d, b.cells, crc) && c <= |b.cells| && SlotsSound(d, |b.cells|, crc)
    && (b.holed || Whole(b.cells, Max(c, Newest(d, crc))))
    && (Owned(SlotsOf(d, crc), c, b.missed, b.ahead)
        || (ramOnly && c == 0 && b.missed == 0 && b.ahead == Newest(d, crc) > 0))
  }

  /** The state between device writes. */
  ghost predicate Sound(s: Live, b: Book, crc: Crc32) {
    Kept(s.disk, s.mgr.sequence, b, s.mgr.ramOnly, crc) && s.mgr.lba == FIRST_LBA + s.mgr.sequence
  }

  /** The machine after a confirmed record write, before the checkpoint it may be due. */
  function Recorded(s: Live, crc: Crc32): Live
    requires s.ring.items != [] && s.mgr.sequence < U64_MAX && s.mgr.lba < U32_MAX
  {
    var p := s.ring.items[0].payload;
    s.(disk := s.disk[s.mgr.lba := RecordSector(ChunkRecord(s.mgr.sequence + 1, p), crc)],
       mgr := s.mgr.(sequence := s.mgr.sequence + 1, lba := s.mgr.lba + 1), ring := SramRing.Pop(s.ring),
       faults := RestFaults(s.faults), written := s.written + [p])
  }

  lemma TurnWrites(s: Live, crc: Crc32)
    requires Writing(s) && NextFault(s.faults).Done? && s.mgr.sequence < U64_MAX && s.mgr.lba < U32_MAX
    ensures FlushOne(s, crc) == WriteCheckpoint(Recorded(s, crc), crc)
  {
    hide RecordSector;
    hide WriteCheckpoint;
  }

  lemma FiledSlots(d: Disk, limit: nat, crc: Crc32)
    requires SlotsSound(d, limit, crc)
    ensures Filed(SlotsOf(d, crc)) && Newest(d, crc) <= limit
  {
    hide CheckpointAt;
  }

  lemma SlotsWiden(d: Disk, limit: nat, limit': nat, crc: Crc32)
    requires SlotsSound(d, limit, crc) && limit <= limit'
    ensures SlotsSound(d, limit', crc)
  {
    hide CheckpointAt;
  }

  lemma WholeGrows(cells: seq<Cell>, n: nat, at: nat, p: Payload, f: Fault)
    requires Whole(cells, n) && at <= |cells| && (f.Done? || f.left.New? || Spares(f) || n <= at)
    ensures Whole(WriteCell(cells, at, p, f), n)
    ensures f.Done? && n >= at ==> Whole(WriteCell(cells, at, p, f), Max(n, at + 1))
  {
  }

  /** The disk after the record write of a turn. */
  function RecordDisk(s: Live, crc: Crc32): Disk
    requires s.ring.items != [] && s.mgr.sequence < U64_MAX
  {
    var r := ChunkRecord(s.mgr.sequence + 1, s.ring.items[0].payload);
    Settle(s.disk, s.mgr.lba, RecordSector(r, crc), NextFault(s.faults))
  }

  /** The record write of a turn, under any fault, leaves the slots alone and keeps the cells up to date. */
  lemma RecordStep(s: Live, b: Book, crc: Crc32)
    requires Sound(s, b, crc) && Writing(s) && s.mgr.sequence < U64_MAX
    ensures var d, cells := RecordDisk(s, crc), Turn(b, s).cells;
      && CellsOnCard(d, cells, crc) && SlotsOf(d, crc) == SlotsOf(s.disk, crc)
      && |b.cells| <= |cells| <= |b.cells| + 1 && (NextFault(s.faults).Done? ==> s.mgr.sequence < |cells|)
      && SlotsSound(d, |cells|, crc)
  {
    hide CellsOnCard;
    hide RecordSector;
    hide SlotsSound;
    hide Whole;
    hide Owned;
    hide CheckpointFault;
    CellWritten(s.disk, b.cells, s.mgr.sequence, s.ring.items[0].payload, NextFault(s.faults), crc);
    SlotsFramed(s.disk, RecordDisk(s, crc), |b.cells|, crc);
    SlotsWiden(RecordDisk(s, crc), |b.cells|, |Turn(b, s).cells|, crc);
  }

  lemma NewestWithin(q: Slots, c: nat, missed: nat, ahead: nat)
    requires Owned(q, c, missed, ahead) && ahead <= c
    ensures q.Newest() <= c
  {
    SlotIsOneOfTwo(ahead);
    hide CheckpointLba;
  }

  lemma TearKeepsWhole(s: Live, b: Book, crc: Crc32)
    requires Sound(s, b, crc) && Writing(s) && !NextFault(s.faults).Done?
    ensures Turn(b, s).holed || Whole(Turn(b, s).cells, Max(s.mgr.sequence, Newest(s.disk, crc)))
  {
    var c, f := s.mgr.sequence, NextFault(s.faults);
    hide CellsOnCard;
    hide SlotsSound;
    hide SlotsOf;
    hide Owned;
    hide Whole;
    hide WriteCell;
    if !Turn(b, s).holed {
      if Spoils(f) {
        NewestWithin(SlotsOf(s.disk, crc), c, b.missed, b.ahead);
      }
      WholeGrows(b.cells, Max(c, Newest(s.disk, crc)), c, s.ring.items[0].payload, f);
    }
  }

  lemma TurnTears(s: Live, crc: Crc32)
    requires Writing(s) && !NextFault(s.faults).Done? && s.mgr.sequence < U64_MAX
    ensures var s' := FlushOne(s, crc);
      && s'.disk == RecordDisk(s, crc) && s'.mgr.sequence == s.mgr.sequence && s'.mgr.lba == s.mgr.lba
      && (s.mgr.ramOnly ==> s'.mgr.ramOnly)
  {
    hide RecordSector;
    hide WriteCheckpoint;
  }

  lemma TearBook(s: Live, b: Book)
    requires Writing(s) && !NextFault(s.faults).Done?
    ensures Turn(b, s).missed == b.missed && Turn(b, s).ahead == b.ahead
  {
    hide WriteCell;
  }

  /** A failed or interrupted record write. Unless an unread checkpoint is ahead, only a sector past both the manager's
      count and the newest checkpoint can be spoilt. */
  lemma TearStep(s: Live, b: Book, crc: Crc32)
    requires Sound(s, b, crc) && Writing(s) && s.mgr.sequence < U64_MAX && !NextFault(s.faults).Done?
    ensures Sound(FlushOne(s, crc), Turn(b, s), crc)
  {
    RecordStep(s, b, crc);
    TearKeepsWhole(s, b, crc);
    TurnTears(s, crc);
    TearBook(s, b);
    hide FlushOne;
    hide Turn;
    hide CellsOnCard;
    hide RecordDisk;
    hide SlotsOf;
    hide SlotsSound;
    hide Whole;
    hide Owned;
  }

  lemma CheckpointKeepsRest(s: Live, cells: seq<Cell>, crc: Crc32)
    requires CellsOnCard(s.disk, cells, crc)
    ensures var s' := WriteCheckpoint(s, crc);
      && CellsOnCard(s'.disk, cells, crc) && s'.mgr == s.mgr && s'.written == s.written && s'.ring == s.ring
  {
    hide CellsOnCard;
    hide EncodeCheckpoint;
    CellsFramed(s.disk, WriteCheckpoint(s, crc).disk, cells, crc);
  }

  /** The checkpoint that may be due after a confirmed record. */
  lemma CheckpointStep(s: Live, b: Book, limit: nat, crc: Crc32)
    requires 0 < s.mgr.sequence <= limit && s.mgr.lba == FIRST_LBA + s.mgr.sequence && SlotsSound(s.disk, limit, crc)
    requires Owned(SlotsOf(s.disk, crc), s.mgr.sequence - 1, b.missed, b.ahead)
    requires var due := DueFault(s.mgr.sequence, s.faults); due.Some? ==> FairFault(due.value, crc)
    ensures var d, due, n := WriteCheckpoint(s, crc).disk, DueFault(s.mgr.sequence, s.faults), s.mgr.sequence;
      && SlotsSound(d, limit, crc) && Newest(d, crc) <= Max(n, Newest(s.disk, crc))
      && Owned(SlotsOf(d, crc), n, Missed(due, b.missed), AheadAfter(b.ahead, n, due))
  {
    var n := s.mgr.sequence;
    LastCheckpointStep(n);
    if n % CHECKPOINT_INTERVAL == 0 {
      FiledSlots(s.disk, limit, crc);
      SlotsAfterWrite(s.disk, NextFault(s.faults), s.mgr, limit, crc);
      OwnedStep(SlotsOf(s.disk, crc), n, NextFault(s.faults), b.missed, b.ahead);
    }
    hide LastCheckpoint;
    hide EncodeCheckpoint;
    hide SlotsSound;
    hide Settle;
    hide SlotSequence;
    hide Rewritten;
    hide Behind;
    hide CheckpointLba;
  }

  lemma WholeShrinks(cells: seq<Cell>, n: nat, n': nat)
    requires Whole(cells, n) && n' <= n
    ensures Whole(cells, n')
  {
  }

  /** A turn whose record is confirmed. */
  lemma ConfirmStep(s: Live, b: Book, crc: Crc32)
    requires Sound(s, b, crc) && FIRST_LBA + s.mgr.sequence < U32_MAX && FairTurn(s, crc)
    requires Writing(s) && NextFault(s.faults).Done?
    ensures Sound(FlushOne(s, crc), Turn(b, s), crc) && FlushOne(s, crc).mgr.sequence == s.mgr.sequence + 1
  {
    var mid, cells := Recorded(s, crc), Turn(b, s).cells;
    RecordStep(s, b, crc);
    TurnWrites(s, crc);
    if !b.holed {
      WholeGrows(b.cells, Max(s.mgr.sequence, Newest(s.disk, crc)), s.mgr.sequence, s.ring.items[0].payload, Done);
    }
    hide FlushOne;
    hide CellsOnCard;
    hide RecordSector;
    hide FairFault;
    hide WriteCell;
    hide SlotsSound;
    hide Owned;
    hide WriteCheckpoint;
    hide SlotsOf;
    CheckpointKeepsRest(mid, cells, crc);
    CheckpointStep(mid, b, |cells|, crc);
    if !b.holed {
      WholeShrinks(cells, Max(s.mgr.sequence + 1, Newest(s.disk, crc)),
                   Max(s.mgr.sequence + 1, Newest(FlushOne(s, crc).disk, crc)));
    }
    hide Whole;
  }

  lemma SoundTurn(s: Live, b: Book, crc: Crc32)
    requires Sound(s, b, crc) && FIRST_LBA + s.mgr.sequence < U32_MAX && FairTurn(s, crc)
    ensures Sound(FlushOne(s, crc), Turn(b, s), crc)
    ensures |Turn(b, s).cells| <= |b.cells| + 1 && FlushOne(s, crc).mgr.sequence <= s.mgr.sequence + 1
  {
    if Writing(s) {
      RecordStep(s, b, crc);
      if NextFault(s.faults).Done? {
        ConfirmStep(s, b, crc);
      } else {
        TearStep(s, b, crc);
        hide Sound;
        hide RecordSector;
      }
    }
  }

  // ---------------------------------------------------------------- whole runs

  ghost predicate Durable(h: History, crc: Crc32) {
    match h.power
    case On(m, _) =>
      Kept(h.disk, h.count, h.book, m.ramOnly, crc) && m.sequence == h.count && m.lba == FIRST_LBA + h.count
    case Off => Kept(h.disk, h.count, h.book, true, crc)
  }

  /** What a flush does, turn by turn. */
  lemma FlushResult(h: History, faults: seq<Fault>, crc: Crc32)
    requires h.power.On?
    ensures var s0 := Waking(h, faults); var s1 := FlushOne(s0, crc); var s2 := FlushOne(s1, crc);
      Apply(h, Flush(faults), crc) == h.(
        disk := s2.disk, power := if s2.powered then On(s2.mgr, s2.ring) else Off,
        book := Turn(Turn(h.book, s0), s1), count := s2.mgr.sequence, written := h.written + s2.written)
  {
    hide FlushOne;
    hide Turn;
  }

  lemma PowerOffResult(h: History, crc: Crc32)
    ensures Apply(h, PowerOff, crc) == h.(power := Off)
  {
  }

  lemma FlushDurable(h: History, faults: seq<Fault>, crc: Crc32)
    requires Durable(h, crc) && h.power.On? && FIRST_LBA + |h.book.cells| + 2 <= U32_MAX
    requires FairEvent(h, Flush(faults), crc)
    ensures Durable(Apply(h, Flush(faults), crc), crc)
  {
    hide FlushOne;
    hide Turn;
    hide FairTurn;
    var s0 := Waking(h, faults);
    assert Sound(s0, h.book, crc);
    SoundTurn(s0, h.book, crc);
    SoundTurn(FlushOne(s0, crc), Turn(h.book, s0), crc);
    FlushResult(h, faults, crc);
    hide Apply;
    hide CellsOnCard;
    hide SlotsSound;
    hide Whole;
    hide Owned;
  }

  lemma AheadSlot(q: Slots)
    requires Filed(q) && q.Newest() > 0
    ensures q.At(CheckpointLba(q.Newest())) == q.Newest()
    ensures CheckpointLba(q.Newest()) == if q.one == q.Newest() then 1 else 2
  {
  }

  lemma LastOfMultiple(n: nat)
    requires n % CHECKPOINT_INTERVAL == 0
    ensures LastCheckpoint(n) == n
  {
  }

  lemma OwnedAtBoot(q: Slots, read1: bool, read2: bool)
    requires Filed(q) && (read1 || read2)
    ensures var c, newest := Max(if read1 then q.one else 0, if read2 then q.two else 0), q.Newest();
      c <= newest && Owned(q, c, 0, if c == newest then 0 else newest)
  {
    LastOfMultiple(q.one);
    LastOfMultiple(q.two);
    LastOfMultiple(0);
    if q.Newest() > 0 {
      AheadSlot(q);
    }
    hide LastCheckpoint;
    hide CheckpointLba;
    hide Filed;
  }

  /** After start-up the manager counts what it read; if that is not the newest checkpoint, the newest is ahead. */
  lemma BootOwned(d: Disk, limit: nat, read1: bool, read2: bool, crc: Crc32)
    requires SlotsSound(d, limit, crc)
    ensures var m, newest := Boot(d, read1, read2, crc), Newest(d, crc);
      var ahead := if m.sequence == newest then 0 else newest;
      && m.sequence <= newest && m.lba == FIRST_LBA + m.sequence
      && (Owned(SlotsOf(d, crc), m.sequence, 0, ahead) || (m.ramOnly && m.sequence == 0 && ahead == newest > 0))
  {
    hide Boot;
    hide Owned;
    hide SlotsSound;
    hide SlotSequence;
    BootTakes(d, limit, read1, read2, crc);
    FiledSlots(d, limit, crc);
    if read1 || read2 {
      OwnedAtBoot(SlotsOf(d, crc), read1, read2);
    } else if Newest(d, crc) == 0 {
      hide Filed;
      OwnedAtBoot(SlotsOf(d, crc), true, true);
    }
  }

  lemma PowerOnDurable(h: History, read1: bool, read2: bool, crc: Crc32)
    requires Durable(h, crc) && h.power.Off?
    ensures Durable(Apply(h, PowerOn(read1, read2), crc), crc)
  {
    BootOwned(h.disk, |h.book.cells|, read1, read2, crc);
    FiledSlots(h.disk, |h.book.cells|, crc);
    if !h.book.holed {
      WholeShrinks(h.book.cells, Max(h.count, Newest(h.disk, crc)), Newest(h.disk, crc));
    }
    hide CellsOnCard;
    hide SlotsSound;
    hide SlotsOf;
    hide Owned;
    hide Whole;
    hide Boot;
  }

  lemma StartDurable(card: Disk, crc: Crc32)
    requires Unused(card, crc)
    ensures Durable(Start(card), crc)
  {
    hide CheckpointAt;
  }

  lemma RestingKept(h: History, crc: Crc32)
    requires Durable(h, crc)
    ensures Kept(h.disk, h.count, h.book, true, crc)
  {
    hide CellsOnCard;
    hide SlotsSound;
    hide SlotsOf;
    hide Owned;
    hide Whole;
  }

  lemma {:induction false} RunDurable(card: Disk, evs: seq<Event>, crc: Crc32)
    requires Unused(card, crc) && Fair(card, evs, crc) && BelowSaturation(card, evs, crc)
    ensures Durable(Exec(card, evs, crc), crc)
  {
    if evs == [] {
      StartDurable(card, crc);
    } else {
      var n := |evs| - 1;
      var h, ev := Exec(card, evs[..n], crc), evs[n];
      RunDurable(card, evs[..n], crc);
      hide FlushTick;
      hide Turn;
      hide Kept;
      hide Boot;
      match ev
      case Flush(faults) =>
        if h.power.On? {
          FlushDurable(h, faults, crc);
        }
      case PowerOn(read1, read2) =>
        if h.power.Off? {
          PowerOnDurable(h, read1, read2, crc);
        }
      case PowerOff =>
        if h.power.On? {
          RestingKept(h, crc);
        }
      case Push(_) =>
    }
  }

  // ---------------------------------------------------------------- without reported checkpoint errors

  /** The records confirmed are at most 16 past the newest checkpoint of their own. */
  predicate Near(c: nat, missed: nat) {
    CHECKPOINT_INTERVAL * missed + c % CHECKPOINT_INTERVAL <= CHECKPOINT_INTERVAL
  }

  predicate Unreported(h: History) {
    h.book.reported || if h.power.On? then h.book.missed == 0 else Near(h.count, h.book.missed)
  }

  /** Without a reported error a checkpoint can be missed only by losing power, just after a multiple of 16. */
  lemma UnreportedTurn(s: Live, b: Book, crc: Crc32)
    requires !Turn(b, s).reported && (s.powered ==> b.missed == 0 && s.mgr.sequence < U64_MAX)
    ensures var s', missed := FlushOne(s, crc), Turn(b, s).missed;
      if !s.powered then missed == b.missed && s' == s
      else missed == 0 || (missed == 1 && !s'.powered && s'.mgr.sequence % CHECKPOINT_INTERVAL == 0)
  {
    hide RecordSector;
    hide EncodeCheckpoint;
    hide Settle;
    hide WriteCell;
    hide AheadAfter;
  }

  lemma TurnSequence(s: Live, crc: Crc32)
    requires s.mgr.sequence < U64_MAX
    ensures FlushOne(s, crc).mgr.sequence <= s.mgr.sequence + 1
  {
  }

  lemma ReportSticks(b: Book, s: Live)
    ensures b.reported ==> Turn(b, s).reported
  {
  }

  lemma FlushUnreported(h: History, faults: seq<Fault>, crc: Crc32)
    requires Unreported(h) && h.power.On? && h.power.mgr.sequence + 1 < U64_MAX
    ensures Unreported(Apply(h, Flush(faults), crc))
  {
    var s0 := Waking(h, faults);
    var s1, b1 := FlushOne(s0, crc), Turn(h.book, s0);
    FlushResult(h, faults, crc);
    if !Turn(b1, s1).reported {
      ReportSticks(h.book, s0);
      ReportSticks(b1, s1);
      TurnSequence(s0, crc);
      hide FlushOne;
      hide Turn;
      hide Apply;
      UnreportedTurn(s0, h.book, crc);
      UnreportedTurn(s1, b1, crc);
    }
  }

  lemma StepUnreported(h: History, ev: Event, crc: Crc32)
    requires Unreported(h) && (h.power.On? ==> h.power.mgr.sequence + 1 < U64_MAX)
    ensures Unreported(Apply(h, ev, crc))
  {
    hide FlushTick;
    hide Turn;
    hide Boot;
    if ev.Flush? && h.power.On? {
      FlushUnreported(h, ev.faults, crc);
    }
  }

  lemma CountBounded(h: History, crc: Crc32)
    requires Durable(h, crc)
    ensures h.count <= |h.book.cells| && (h.power.On? ==> h.power.mgr.sequence == h.count)
  {
  }

  lemma {:induction false} RunUnreported(card: Disk, evs: seq<Event>, crc: Crc32)
    requires Unused(card, crc) && Fair(card, evs, crc) && BelowSaturation(card, evs, crc)
    ensures Unreported(Exec(card, evs, crc))
  {
    if evs != [] {
      var n := |evs| - 1;
      RunUnreported(card, evs[..n], crc);
      RunDurable(card, evs[..n], crc);
      CountBounded(Exec(card, evs[..n], crc), crc);
      hide Durable;
      hide Apply;
      hide Unreported;
      hide FairEvent;
      StepUnreported(Exec(card, evs[..n], crc), evs[n], crc);
    }
  }

  // ---------------------------------------------------------------- the recovery theorem

  lemma NearExactly(own: nat, c: nat, missed: nat)
    requires Behind(own, LastCheckpoint(c), missed)
    ensures own <= c && (c <= own + CHECKPOINT_INTERVAL <==> Near(c, missed))
  {
  }

  /** How the newest checkpoint compares with the manager's count. */
  lemma NewestExactly(q: Slots, c: nat, missed: nat, ahead: nat)
    requires Owned(q, c, missed, ahead) || (c == 0 && missed == 0 && ahead == q.Newest() > 0)
    ensures q.Newest() <= c <==> ahead <= c
    ensures c <= q.Newest() + CHECKPOINT_INTERVAL <==> Near(c, missed) || c <= ahead + CHECKPOINT_INTERVAL
  {
    if Owned(q, c, missed, ahead) {
      SlotIsOneOfTwo(ahead);
      NearExactly(if ahead == 0 then q.Newest() else q.At(3 - CheckpointLba(ahead)), c, missed);
      hide Near;
      hide LastCheckpoint;
      hide CheckpointLba;
    }
  }

  /** What recovery finds on a card that holds together. */
  lemma KeptRecovers(d: Disk, c: nat, b: Book, ramOnly: bool, crc: Crc32)
    requires Kept(d, c, b, ramOnly, crc)
    ensures var m := Recover(d, crc);
      && !m.ramOnly && m.lba == FIRST_LBA + m.sequence && m.sequence == Newest(d, crc) <= |b.cells|
      && (b.holed || Whole(b.cells, m.sequence))
      && (m.sequence <= c <==> b.ahead <= c)
      && (c <= m.sequence + CHECKPOINT_INTERVAL <==> Near(c, b.missed) || c <= b.ahead + CHECKPOINT_INTERVAL)
  {
    RecoversNewest(d, |b.cells|, crc);
    NewestExactly(SlotsOf(d, crc), c, b.missed, b.ahead);
    if !b.holed {
      WholeShrinks(b.cells, Max(c, Newest(d, crc)), Newest(d, crc));
    }
    hide Recover;
    hide CellsOnCard;
    hide SlotsSound;
    hide SlotsOf;
    hide Owned;
    hide Whole;
    hide Near;
  }

  /** The recovery theorem, over every run of pushes, flushes, write errors, power losses (between or inside device
      writes) and start-ups whose checkpoint reads may fail, from a card without checkpoints. Every payload the books
      name is on the card in its sector under its sequence number, and a manager always has LBA = 10 + sequence over
      sectors all of which hold a valid record, unless garbage was ever written below an unread checkpoint. Whenever the
      node is down with `count` = c, recovery yields a sequence s and LBA 10 + s with the same guarantee; s <= c if and
      only if no checkpoint past c went unread; and c <= s + 16 if and only if the last checkpoint due reached the card,
      or only that one is missing and no record followed it, or an unread one is that close; in particular as long as no
      checkpoint write was reported as failed. */
  lemma RecoveryTheorem(card: Disk, evs: seq<Event>, crc: Crc32)
    requires Unused(card, crc) && Fair(card, evs, crc) && BelowSaturation(card, evs, crc)
    ensures var h := Exec(card, evs, crc);
      CellsOnCard(h.disk, h.book.cells, crc) &&
      match h.power
      case On(m, _) =>
        && m.sequence == h.count <= |h.book.cells| && m.lba == FIRST_LBA + m.sequence
        && (h.book.holed || Whole(h.book.cells, m.sequence))
      case Off =>
        var m := Recover(h.disk, crc);
        && !m.ramOnly && m.lba == FIRST_LBA + m.sequence && Max(m.sequence, h.count) <= |h.book.cells|
        && (h.book.holed || Whole(h.book.cells, m.sequence))
        && (m.sequence <= h.count <==> h.book.ahead <= h.count)
        && (h.count <= m.sequence + CHECKPOINT_INTERVAL <==>
              CHECKPOINT_INTERVAL * h.book.missed + h.count % CHECKPOINT_INTERVAL <= CHECKPOINT_INTERVAL
              || h.count <= h.book.ahead + CHECKPOINT_INTERVAL)
        && (!h.book.reported ==> h.count <= m.sequence + CHECKPOINT_INTERVAL)
  {
    var h := Exec(card, evs, crc);
    RunDurable(card, evs, crc);
    RunUnreported(card, evs, crc);
    hide Exec;
    match h.power
    case On(m, _) =>
      if !h.book.holed {
        WholeShrinks(h.book.cells, Max(h.count, Newest(h.disk, crc)), h.count);
      }
    case Off =>
      KeptRecovers(h.disk, h.count, h.book, true, crc);
  }

  /** Every start-up of the run reads both slots. */
  predicate ReadsSucceed(evs: seq<Event>) {
    forall ev <- evs :: ev.PowerOn? ==> ev.read1 && ev.read2
  }

  lemma NothingAheadStays(b: Book, s: Live)
    requires b.ahead == 0 && !b.holed
    ensures Turn(b, s).ahead == 0 && !Turn(b, s).holed
  {
  }

  lemma {:induction false} NothingUnread(card: Disk, evs: seq<Event>, crc: Crc32)
    requires ReadsSucceed(evs) && Unused(card, crc) && Fair(card, evs, crc) && BelowSaturation(card, evs, crc)
    ensures Exec(card, evs, crc).book.ahead == 0 && !Exec(card, evs, crc).book.holed
  {
    if evs != [] {
      var n := |evs| - 1;
      assert evs[n] in evs;
      NothingUnread(card, evs[..n], crc);
      var h := Exec(card, evs[..n], crc);
      hide FlushTick;
      match evs[n]
      case PowerOn(_, _) =>
        if h.power.Off? {
          RunDurable(card, evs[..n], crc);
          RecoversNewest(h.disk, |h.book.cells|, crc);
        }
      case Flush(faults) =>
        if h.power.On? {
          NothingAheadStays(h.book, Waking(h, faults));
          NothingAheadStays(Turn(h.book, Waking(h, faults)), FlushOne(Waking(h, faults), crc));
        }
      case PowerOff =>
      case Push(_) =>
    }
  }

  /** With successful start-up reads and no reported checkpoint error: recovery yields a sequence s with
      s <= c <= s + 16, and every sector L with 10 <= L < 10 + c holds a valid record with sequence L - 9. */
  lemma RecoveryBound(card: Disk, evs: seq<Event>, crc: Crc32)
    requires Unused(card, crc) && Fair(card, evs, crc) && BelowSaturation(card, evs, crc)
    requires ReadsSucceed(evs) && Exec(card, evs, crc).power.Off? && !Exec(card, evs, crc).book.reported
    ensures var h := Exec(card, evs, crc); var m := Recover(h.disk, crc);
      && m.sequence <= h.count <= m.sequence + CHECKPOINT_INTERVAL && m.lba == FIRST_LBA + m.sequence
      && h.count <= |h.book.cells|
      && forall i: nat | i < h.count :: h.book.cells[i].Some? && HoldsRecord(h.disk, i, h.book.cells[i].value, crc)
  {
    RecoveryTheorem(card, evs, crc);
    NothingUnread(card, evs, crc);
    RunDurable(card, evs, crc);
    hide Exec;
    hide Recover;
    hide HoldsRecord;
  }

  /** The LBA stays ten past the sequence exactly until the last addressable sector is reached. */
  lemma LbaSaturation(s: Live, crc: Crc32)
    requires Writing(s) && NextFault(s.faults).Done? && s.mgr.lba == FIRST_LBA + s.mgr.sequence
    ensures var m := FlushOne(s, crc).mgr;
      m.lba == FIRST_LBA + m.sequence <==> s.mgr.lba < U32_MAX
  {
  }
}
