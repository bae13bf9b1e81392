/** The two checkpoint slots of a card: which checkpoint they hold, and what a due write does to them. */
module Checkpoints {
  import opened Bytes
  import opened Records
  import opened Storage

  // ---------------------------------------------------------------- checkpoint slots

  /** A card that holds no readable checkpoint. */
  predicate Unused(card: Disk, crc: Crc32) {
    CheckpointAt(card, 1, crc) == None && CheckpointAt(card, 2, crc) == None
  }

  /** The sequence numbers of the checkpoints in the two slots, 0 where there is none. */
  datatype Slots = Slots(one: nat, two: nat) {
    function At(lba: nat): nat {
      if lba == 1 then one else two
    }

    function Newest(): nat {
      Max(one, two)
    }

    function With(lba: nat, sequence: nat): Slots {
      if lba == 1 then this.(one := sequence) else this.(two := sequence)
    }
  }

  function SlotSequence(d: Disk, lba: nat, crc: Crc32): nat {
    match CheckpointAt(d, lba, crc)
    case None => 0
    case Some(c) => c.sequence
  }

  function SlotsOf(d: Disk, crc: Crc32): Slots {
    Slots(SlotSequence(d, 1, crc), SlotSequence(d, 2, crc))
  }

  /** The sequence of the newest checkpoint on the card, 0 if there is none. */
  function Newest(d: Disk, crc: Crc32): nat {
    SlotsOf(d, crc).Newest()
  }

  /** A slot holds nothing, or one of the checkpoints due in it up to sequence `limit`. */
  predicate SlotSound(d: Disk, lba: nat, limit: nat, crc: Crc32) {
    match CheckpointAt(d, lba, crc)
    case None => true
    case Some(c) =>
      && 0 < c.sequence <= limit && c.sequence % CHECKPOINT_INTERVAL == 0 && CheckpointLba(c.sequence) == lba
      && FIRST_LBA + c.sequence <= U32_MAX
      && c == CheckpointSector(c.sequence, 512 * (FIRST_LBA + c.sequence), 512 * FIRST_LBA, c.sequence)
  }

  predicate SlotsSound(d: Disk, limit: nat, crc: Crc32) {
    SlotSound(d, 1, limit, crc) && SlotSound(d, 2, limit, crc)
  }

  function LastCheckpoint(c: nat): nat {
    c - c % CHECKPOINT_INTERVAL
  }

  /** Recovery takes the newest checkpoint, and reports one torn write if exactly one slot holds none. */
  lemma RecoversNewest(d: Disk, limit: nat, crc: Crc32)
    requires SlotsSound(d, limit, crc)
    ensures var m := Recover(d, crc);
      && !m.ramOnly && m.sequence == Newest(d, crc) <= limit && m.lba == FIRST_LBA + m.sequence
      && m.sequence == LastCheckpoint(m.sequence)
      && m.tornRecovered == if (SlotsOf(d, crc).one == 0) != (SlotsOf(d, crc).two == 0) then 1 else 0
  {
    hide DecodeCheckpoint;
  }

  /** What start-up takes, given which slots can be read. */
  lemma BootTakes(d: Disk, limit: nat, read1: bool, read2: bool, crc: Crc32)
    requires SlotsSound(d, limit, crc)
    ensures var m, q := Boot(d, read1, read2, crc), SlotsOf(d, crc);
      && m.sequence == Max(if read1 then q.one else 0, if read2 then q.two else 0) && m.lba == FIRST_LBA + m.sequence
      && (m.ramOnly <==> !read1 && !read2)
  {
    hide DecodeCheckpoint;
  }

  /** Start-up finds the newest checkpoint exactly when its slot can be read. */
  lemma BootNeedsNewest(d: Disk, limit: nat, read1: bool, read2: bool, crc: Crc32)
    requires SlotsSound(d, limit, crc) && Newest(d, crc) > 0
    ensures Boot(d, read1, read2, crc).sequence == Newest(d, crc)
      <==> if CheckpointLba(Newest(d, crc)) == 1 then read1 else read2
  {
    hide DecodeCheckpoint;
    BootTakes(d, limit, read1, read2, crc);
  }

  /** An interrupted checkpoint sector reads back as old, as new, or not as a checkpoint at all. */
  predicate FairFault(f: Fault, crc: Crc32) {
    !f.Done? && f.left.Garbage? ==> DecodeCheckpoint(f.left.sector, crc).Err?
  }

  /** The write leaves its data on the card. */
  predicate Takes(f: Fault) {
    f.Done? || f.left.New?
  }

  /** The write leaves its sector as it was. */
  predicate Spares(f: Fault) {
    !f.Done? && f.left.Old?
  }

  /** The write leaves its sector unreadable. */
  predicate Spoils(f: Fault) {
    !f.Done? && f.left.Garbage?
  }

  /** The slots after the write of checkpoint `n` under `f`. */
  function Rewritten(q: Slots, n: nat, f: Fault): Slots {
    if Spares(f) then q else q.With(CheckpointLba(n), if Takes(f) then n else 0)
  }

  /** Writing outside the two checkpoint slots leaves them alone. */
  lemma SlotsFramed(d: Disk, d': Disk, limit: nat, crc: Crc32)
    requires ReadBlock(d', 1) == ReadBlock(d, 1) && ReadBlock(d', 2) == ReadBlock(d, 2)
    ensures SlotsOf(d', crc) == SlotsOf(d, crc) && (SlotsSound(d', limit, crc) <==> SlotsSound(d, limit, crc))
  {
    hide DecodeCheckpoint;
  }

  /** A checkpoint write changes only its own slot. */
  lemma SlotAfterWrite(d: Disk, f: Fault, m: Manager, crc: Crc32)
    requires FairFault(f, crc)
    ensures var lba := CheckpointLba(m.sequence);
      var d' := Settle(d, lba, EncodeCheckpoint(CheckpointOf(m), crc), f);
      && CheckpointAt(d', 3 - lba, crc) == CheckpointAt(d, 3 - lba, crc)
      && CheckpointAt(d', lba, crc) == if Takes(f) then Some(CheckpointOf(m))
                                       else if Spares(f) then CheckpointAt(d, lba, crc) else None
  {
    hide DecodeCheckpoint;
    hide EncodeCheckpoint;
    CheckpointDecodes(CheckpointOf(m), crc);
  }

  lemma SlotStaysSound(d: Disk, d': Disk, lba: nat, limit: nat, crc: Crc32)
    requires SlotSound(d, lba, limit, crc) && CheckpointAt(d', lba, crc) == CheckpointAt(d, lba, crc)
    ensures SlotSound(d', lba, limit, crc) && SlotSequence(d', lba, crc) == SlotSequence(d, lba, crc)
  {
    hide CheckpointAt;
  }

  lemma SlotIsOneOfTwo(sequence: nat)
    ensures CheckpointLba(sequence) == 1 || CheckpointLba(sequence) == 2
  {
  }

  /** What a due checkpoint write does to the slots. */
  lemma SlotsAfterWrite(d: Disk, f: Fault, m: Manager, limit: nat, crc: Crc32)
    requires FairFault(f, crc) && SlotsSound(d, limit, crc) && 0 < m.sequence <= limit
    requires m.sequence % CHECKPOINT_INTERVAL == 0 && m.lba == FIRST_LBA + m.sequence
    ensures var d' := Settle(d, CheckpointLba(m.sequence), EncodeCheckpoint(CheckpointOf(m), crc), f);
      SlotsSound(d', limit, crc) && SlotsOf(d', crc) == Rewritten(SlotsOf(d, crc), m.sequence, f)
  {
    var lba := CheckpointLba(m.sequence);
    var d' := Settle(d, lba, EncodeCheckpoint(CheckpointOf(m), crc), f);
    hide CheckpointAt;
    hide Settle;
    hide FairFault;
    SlotIsOneOfTwo(m.sequence);
    SlotAfterWrite(d, f, m, crc);
    SlotStaysSound(d, d', 3 - lba, limit, crc);
    if Spares(f) {
      SlotStaysSound(d, d', lba, limit, crc);
    }
  }

  // ---------------------------------------------------------------- whose checkpoint is the newest

  /** Each checkpoint lies in the slot in which it is due. */
  predicate Filed(q: Slots) {
    && (q.one > 0 ==> q.one % CHECKPOINT_INTERVAL == 0 && CheckpointLba(q.one) == 1)
    && (q.two > 0 ==> q.two % CHECKPOINT_INTERVAL == 0 && CheckpointLba(q.two) == 2)
  }

  /** How far a checkpoint is behind the last one due when the last `missed` of them did not arrive: a second miss in a
      row may destroy it, so from then on there is only a lower bound. */
  predicate Behind(newest: nat, last: nat, missed: nat) {
    if missed == 0 then newest == last
    else if missed == 1 then newest + CHECKPOINT_INTERVAL == last
    else newest + 2 * CHECKPOINT_INTERVAL <= last
  }

  /** The slots under a manager that counts `c` records and has missed its last `missed` checkpoints. If its start-up
      could not read the newest checkpoint, that one, `ahead`, still fills its slot. */
  predicate Owned(q: Slots, c: nat, missed: nat, ahead: nat) {
    var last := LastCheckpoint(c);
    if ahead == 0 then q.one <= last && q.two <= last && Behind(q.Newest(), last, missed)
    else
      var lba := CheckpointLba(ahead);
      q.At(lba) == ahead && q.At(3 - lba) <= last && Behind(q.At(3 - lba), last, missed)
  }

  /** What becomes of the count of missed checkpoints when one is due. */
  function Missed(due: Option<Fault>, missed: nat): nat {
    match due
    case None => missed
    case Some(f) => if Takes(f) then 0 else missed + 1
  }

  /** The unread checkpoint is gone once a write to its slot has taken or spoilt it. */
  function AheadAfter(ahead: nat, n: nat, due: Option<Fault>): nat {
    if due.Some? && !Spares(due.value) && CheckpointLba(n) == CheckpointLba(ahead) then 0 else ahead
  }

  /** The `j`-th checkpoint goes to slot 1 if `j` is even and to slot 2 otherwise. */
  lemma CheckpointSlot(j: nat)
    ensures CheckpointLba(CHECKPOINT_INTERVAL * j) == if j % 2 == 0 then 1 else 2
  {
    assert CHECKPOINT_INTERVAL * j == 32 * (j / 2) + CHECKPOINT_INTERVAL * (j % 2);
  }

  lemma SlotsAlternate(n: nat)
    requires n >= CHECKPOINT_INTERVAL && n % CHECKPOINT_INTERVAL == 0
    ensures CheckpointLba(n - CHECKPOINT_INTERVAL) == 3 - CheckpointLba(n)
  {
    var j := n / CHECKPOINT_INTERVAL;
    assert n == CHECKPOINT_INTERVAL * j && n - CHECKPOINT_INTERVAL == CHECKPOINT_INTERVAL * (j - 1);
    hide CheckpointLba;
    CheckpointSlot(j);
    CheckpointSlot(j - 1);
  }

  lemma LastCheckpointStep(n: nat)
    requires n > 0
    ensures n % CHECKPOINT_INTERVAL != 0 ==> LastCheckpoint(n) == LastCheckpoint(n - 1)
    ensures n % CHECKPOINT_INTERVAL == 0 ==>
      LastCheckpoint(n) == n >= CHECKPOINT_INTERVAL && LastCheckpoint(n - 1) == n - CHECKPOINT_INTERVAL
  {
  }

  /** The next checkpoint goes to the slot that does not hold the previous one, so a write that does not take leaves
      the previous checkpoint the newest; with an older newest one it may be lost, but nothing newer appears. */
  lemma NextCheckpoint(q: Slots, n: nat, f: Fault)
    requires Filed(q) && n >= CHECKPOINT_INTERVAL && n % CHECKPOINT_INTERVAL == 0
    requires q.Newest() <= n - CHECKPOINT_INTERVAL
    ensures var q' := Rewritten(q, n, f);
      if Takes(f) then q'.Newest() == n
      else if q.Newest() == n - CHECKPOINT_INTERVAL then q'.Newest() == q.Newest()
      else q'.Newest() <= q.Newest()
  {
    SlotsAlternate(n);
    SlotIsOneOfTwo(n);
    hide CheckpointLba;
  }

  /** The same among the manager's own checkpoints, whether or not an unread newer one fills a slot. */
  lemma OwnedStep(q: Slots, n: nat, f: Fault, missed: nat, ahead: nat)
    requires Filed(q) && n > 0 && n % CHECKPOINT_INTERVAL == 0 && Owned(q, n - 1, missed, ahead)
    ensures Owned(Rewritten(q, n, f), n, Missed(Some(f), missed), AheadAfter(ahead, n, Some(f)))
    ensures Rewritten(q, n, f).Newest() <= Max(n, q.Newest())
  {
    LastCheckpointStep(n);
    SlotsAlternate(n);
    SlotIsOneOfTwo(n);
    SlotIsOneOfTwo(ahead);
    if ahead == 0 {
      NextCheckpoint(q, n, f);
    }
    hide LastCheckpoint;
    hide CheckpointLba;
  }
}
