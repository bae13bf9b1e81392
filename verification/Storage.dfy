/** The dual-mode storage manager: draining the SRAM ring to the card log, ping-pong checkpoints, and recovery. */
module Storage {
  import opened Bytes
  import opened Wire
  import opened Records
  import SramRing

  const FIRST_LBA := 10
  const CHECKPOINT_INTERVAL := 16

  type Disk = map<nat, Sector>

  function ReadBlock(d: Disk, lba: nat): Sector {
    if lba in d then d[lba] else Blank()
  }

  /** What an interrupted or failed write leaves in its sector. */
  datatype Left = Old | New | Garbage(sector: Sector)

  /** The outcome of one device write: completed, reported as failed, or cut off by power loss. */
  datatype Fault = Done | Error(left: Left) | PowerLoss(left: Left)

  function Leave(d: Disk, lba: nat, data: Sector, left: Left): Disk {
    match left
    case Old => d
    case New => d[lba := data]
    case Garbage(g) => d[lba := g]
  }

  function Settle(d: Disk, lba: nat, data: Sector, f: Fault): Disk {
    match f
    case Done => d[lba := data]
    case Error(left) => Leave(d, lba, data, left)
    case PowerLoss(left) => Leave(d, lba, data, left)
  }

  function NextFault(fs: seq<Fault>): Fault {
    if fs == [] then Done else fs[0]
  }

  function RestFaults(fs: seq<Fault>): seq<Fault> {
    if fs == [] then [] else fs[1..]
  }

  // ---------------------------------------------------------------- the manager

  datatype Manager = Manager(ramOnly: bool, sequence: U64, lba: U32, tornRecovered: U32)

  const RAM_ONLY := Manager(true, 0, FIRST_LBA, 0)

  function LbaOf(c: CheckpointSector): U32 {
    (c.headOffset / SECTOR_SIZE) % 0x1_0000_0000
  }

  function Active(c: CheckpointSector, torn: U32): Manager {
    Manager(false, c.sequence, Max(LbaOf(c), FIRST_LBA), torn)
  }

  function RecoverFrom(ckpt1: Option<CheckpointSector>, ckpt2: Option<CheckpointSector>): Manager {
    match (ckpt1, ckpt2)
    case (Some(c1), Some(c2)) => Active(if c1.sequence >= c2.sequence then c1 else c2, 0)
    case (Some(c1), None) => Active(c1, 1)
    case (None, Some(c2)) => Active(c2, 1)
    case (None, None) => Manager(false, 0, FIRST_LBA, 0)
  }

  /** The checkpoint a readable sector holds, if it holds one. */
  function CheckpointAt(d: Disk, lba: nat, crc: Crc32): Option<CheckpointSector> {
    match DecodeCheckpoint(ReadBlock(d, lba), crc)
    case Ok(c) => Some(c)
    case Err(_) => None
  }

  /** Start-up with a device; `read1` and `read2` tell whether the two checkpoint reads succeed. */
  function Boot(d: Disk, read1: bool, read2: bool, crc: Crc32): Manager {
    if !read1 && !read2 then RAM_ONLY
    else RecoverFrom(if read1 then CheckpointAt(d, 1, crc) else None, if read2 then CheckpointAt(d, 2, crc) else None)
  }

  /** The checkpoint slots that start-up can read. */
  function Readable(read1: bool, read2: bool): set<nat> {
    (if read1 then {1} else {}) + (if read2 then {2} else {})
  }

  function Recover(d: Disk, crc: Crc32): Manager {
    Boot(d, true, true, crc)
  }

  function RecordSector(r: ChunkRecord, crc: Crc32): Sector {
    EncodeRecord(r, crc) + Blank()[RECORD_SIZE..]
  }

  function CheckpointLba(sequence: nat): nat {
    if sequence % 32 == 0 then 1 else 2
  }

  function CheckpointOf(m: Manager): CheckpointSector {
    CheckpointSector(m.sequence, m.lba * SECTOR_SIZE, FIRST_LBA * SECTOR_SIZE, m.sequence)
  }

  /** The machine during a flush: `written` are the payloads confirmed so far. */
  datatype Live = Live(disk: Disk, mgr: Manager, ring: SramRing.Ring, powered: bool, faults: seq<Fault>,
                       written: seq<Payload>)

  /** The checkpoint due after every 16 records. Its outcome is ignored unless power is lost. */
  function WriteCheckpoint(s: Live, crc: Crc32): Live {
    if s.mgr.sequence % CHECKPOINT_INTERVAL != 0 then s
    else
      var f := NextFault(s.faults);
      s.(disk := Settle(s.disk, CheckpointLba(s.mgr.sequence), EncodeCheckpoint(CheckpointOf(s.mgr), crc), f),
         powered := !f.PowerLoss?,
         faults := RestFaults(s.faults))
  }

  /** One turn of the flush loop. */
  function FlushOne(s: Live, crc: Crc32): Live {
    if s.mgr.ramOnly || !s.powered || s.ring.items == [] then s
    else
      var packet := s.ring.items[0];
      var next := SaturatingAdd(s.mgr.sequence, 1, U64_MAX);
      var f := NextFault(s.faults);
      var s' := s.(disk := Settle(s.disk, s.mgr.lba, RecordSector(ChunkRecord(next, packet.payload), crc), f),
                   faults := RestFaults(s.faults));
      match f
      case PowerLoss(_) => s'.(powered := false)
      case Error(_) => s'.(mgr := s.mgr.(ramOnly := true))
      case Done =>
        WriteCheckpoint(
          s'.(mgr := s.mgr.(sequence := next, lba := SaturatingAdd(s.mgr.lba, 1, U32_MAX)),
              ring := SramRing.Pop(s.ring),
              written := s.written + [packet.payload]),
          crc)
  }

  function FlushTick(d: Disk, m: Manager, r: SramRing.Ring, faults: seq<Fault>, crc: Crc32): Live {
    FlushOne(FlushOne(Live(d, m, r, true, faults, []), crc), crc)
  }

  // ---------------------------------------------------------------- the objects

  /** A card with its future: the faults its next writes will meet. */
  class BlockDevice {
    var sectors: Disk
    var faults: seq<Fault>

    method WriteBlock(lba: nat, data: array<U8>) returns (f: Fault)
      requires data.Length == SECTOR_SIZE
      modifies this
      ensures f == NextFault(old(faults)) && faults == RestFaults(old(faults))
      ensures sectors == Settle(old(sectors), lba, data[..], f)
    {
      f := NextFault(faults);
      faults := RestFaults(faults);
      sectors := Settle(sectors, lba, data[..], f);
    }
  }

  lemma RamOnlyStands(crc: Crc32)
    ensures forall s: Live | s.mgr.ramOnly :: FlushOne(s, crc) == s
  {
  }

  class DynamicStorageManager {
    const device: BlockDevice?
    const crc: Crc32
    var ramOnly: bool
    var currentSequence: U64
    var currentLba: U32
    var tornWritesRecovered: U32

    ghost predicate Valid()
      reads this
    {
      device == null ==> ramOnly
    }

    ghost function Abstract(): Manager
      reads this
    {
      Manager(ramOnly, currentSequence, currentLba, tornWritesRecovered)
    }

    constructor RamOnly(crc: Crc32)
      ensures Valid() && device == null && Abstract() == RAM_ONLY
    {
      device, this.crc := null, crc;
      ramOnly, currentSequence, currentLba, tornWritesRecovered := true, 0, FIRST_LBA, 0;
    }

    /** Start-up takes the newest checkpoint among the slots that can be read. */
    constructor WithDevice(dev: BlockDevice, read1: bool, read2: bool, crc: Crc32)
      ensures Valid() && device == dev && this.crc == crc
      ensures ramOnly <==> !read1 && !read2
      ensures forall lba <- Readable(read1, read2) :: CheckpointAt(dev.sectors, lba, crc).Some? ==>
        CheckpointAt(dev.sectors, lba, crc).value.sequence <= currentSequence
      ensures (currentSequence == 0 && currentLba == FIRST_LBA) || exists lba <- Readable(read1, read2) ::
        && CheckpointAt(dev.sectors, lba, crc).Some?
        && CheckpointAt(dev.sectors, lba, crc).value.sequence == currentSequence
        && Max(LbaOf(CheckpointAt(dev.sectors, lba, crc).value), FIRST_LBA) == currentLba
      ensures Abstract() == Boot(dev.sectors, read1, read2, crc)
    {
      hide CheckpointAt;
      var torn, newest := 0, None;
      if read1 {
        newest := CheckpointAt(dev.sectors, 1, crc);
      }
      if read2 {
        var ckpt2 := CheckpointAt(dev.sectors, 2, crc);
        torn := if newest.Some? != ckpt2.Some? then 1 else 0;
        if ckpt2.Some? && (newest.None? || newest.value.sequence < ckpt2.value.sequence) {
          newest := ckpt2;
        }
      } else if newest.Some? {
        torn := 1;
      }
      device, this.crc, ramOnly, tornWritesRecovered := dev, crc, !read1 && !read2, torn;
      currentSequence := if newest.Some? then newest.value.sequence else 0;
      currentLba := if newest.Some? then Max(LbaOf(newest.value), FIRST_LBA) else FIRST_LBA;
      assert 1 in Readable(read1, read2) <==> read1;
    }

    /** The machine as the specification sees it. */
    ghost function State(ring: SramRing.SramRingBuffer, powered: bool, written: seq<Payload>): Live
      requires device != null
      reads this, device, ring
    {
      Live(device.sectors, Abstract(), ring.Abstract(), powered, device.faults, written)
    }

    /** The periodic checkpoint after a confirmed record. */
    method Checkpoint(ring: SramRing.SramRingBuffer, ghost written: seq<Payload>) returns (powered: bool)
      requires Valid() && device != null
      modifies device
      ensures State(ring, powered, written) == WriteCheckpoint(old(State(ring, true, written)), crc)
    {
      powered := true;
      if currentSequence % CHECKPOINT_INTERVAL == 0 {
        var lba := if currentSequence % 32 == 0 then 1 else 2;
        var buf := new U8[SECTOR_SIZE];
        var head, tail := currentLba * SECTOR_SIZE, FIRST_LBA * SECTOR_SIZE;
        SerializeCheckpoint(CheckpointSector(currentSequence, head, tail, currentSequence), crc, buf);
        var f := device.WriteBlock(lba, buf);
        powered := !f.PowerLoss?;
      }
    }

    /** One turn of the loop; `more` tells whether the loop goes on. */
    method FlushTurn(ring: SramRing.SramRingBuffer, ghost written: seq<Payload>)
      returns (powered: bool, moved: seq<Payload>, more: bool)
      requires Valid() && device != null && ring.Valid() && !ramOnly
      modifies this, ring, ring.buffer, device
      ensures Valid() && ring.Valid()
      ensures State(ring, powered, written + moved) == FlushOne(old(State(ring, true, written)), crc)
      ensures more <==> powered && !ramOnly && moved != []
      ensures !more ==> var s := State(ring, powered, written + moved); FlushOne(s, crc) == s
    {
      hide EncodeRecord;
      powered, moved, more := true, [], false;
      assert written + [] == written;
      var packet := ring.Peek();
      if packet.None? {
        return;
      }
      var next := SaturatingAdd(currentSequence, 1, U64_MAX);
      var buf := new U8[SECTOR_SIZE](_ => 0);
      var record := ChunkRecord(next, packet.value.payload);
      assert buf[RECORD_SIZE..] == Blank()[RECORD_SIZE..];
      SerializeRecord(record, crc, buf);
      assert buf[..] == RecordSector(record, crc);
      var f := device.WriteBlock(currentLba, buf);
      match f {
        case PowerLoss(_) =>
          powered := false;
        case Error(_) =>
          ramOnly := true;
        case Done =>
          ghost var s := old(State(ring, true, written));
          ghost var d := device.sectors;
          currentSequence := next;
          currentLba := SaturatingAdd(currentLba, 1, U32_MAX);
          var popped := ring.PopPacket();
          moved := [packet.value.payload];
          assert State(ring, true, written + moved)
              == Live(d, s.mgr.(sequence := next, lba := SaturatingAdd(s.mgr.lba, 1, U32_MAX)), SramRing.Pop(s.ring),
                      true, RestFaults(s.faults), s.written + [packet.value.payload]);
          powered := Checkpoint(ring, written + moved);
          more := powered;
      }
    }

    /** Moves at most two packets. Returns false when power is lost during a device write. */
    method FlushFromSram(ring: SramRing.SramRingBuffer) returns (powered: bool, written: seq<Payload>)
      requires Valid() && ring.Valid()
      modifies this, ring, ring.buffer, device
      ensures Valid() && ring.Valid()
      ensures device == null ==>
        powered && written == [] && Abstract() == old(Abstract()) && ring.Abstract() == old(ring.Abstract())
      ensures device != null ==>
        State(ring, powered, written)
          == FlushTick(old(device.sectors), old(Abstract()), old(ring.Abstract()), old(device.faults), crc)
    {
      hide FlushOne;
      powered, written := true, [];
      if ramOnly || device == null {
        RamOnlyStands(crc);
        return;
      }
      ghost var s0 := State(ring, true, []);
      var turn := 0;
      while turn < 2
        invariant Valid() && ring.Valid() && turn <= 2
        invariant turn < 2 ==> powered && !ramOnly
        invariant State(ring, powered, written)
               == if turn == 0 then s0 else if turn == 1 then FlushOne(s0, crc) else FlushOne(FlushOne(s0, crc), crc)
      {
        var moved, more;
        powered, moved, more := FlushTurn(ring, written);
        written := written + moved;
        turn := turn + 1;
        if !more {
          break;
        }
      }
    }
  }
}
