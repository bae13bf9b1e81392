/** Power-loss atomic framing: chunk records and checkpoint sectors. The CRC-32 is an arbitrary function. */
module Records {
  import opened Bytes
  import opened Wire

  const SECTOR_SIZE := 512
  const RECORD_SIZE := 116

  type Sector = s: seq<U8> | |s| == SECTOR_SIZE witness seq(SECTOR_SIZE, _ => 0)
  type Crc32 = seq<U8> -> U32

  const RECORD_MAGIC: seq<U8> := [0x47, 0x49, 0x42, 0x42] // "GIBB"
  const CHECKPOINT_MAGIC: seq<U8> := [0x47, 0x43, 0x50, 0x54] // "GCPT"
  const COMMIT_MARKER: seq<U8> := [0xAA, 0x55]

  datatype StorageError = TornWriteDetected | InvalidMagic | CrcMismatch

  datatype ChunkRecord = ChunkRecord(sequence: U64, ciphertext: Payload)

  datatype CheckpointSector = CheckpointSector(sequence: U64, headOffset: U64, tailOffset: U64, totalRecords: U64)

  /** A sector that was never written. */
  function Blank(): Sector {
    Zeros(SECTOR_SIZE)
  }

  // ---------------------------------------------------------------- chunk records

  type LengthField = s: seq<U8> | |s| == 2 witness [0, 0]

  function StandardLength(): LengthField {
    BigEndian(CIPHERTEXT_LEN, 2)
  }

  /** The checksummed part of a record with the given bytes in its length field. */
  function RecordBody(r: ChunkRecord, length: LengthField): (b: seq<U8>)
    ensures |b| == 110
  {
    RECORD_MAGIC + BigEndian(r.sequence, 8) + length + r.ciphertext
  }

  function EncodeRecordAs(r: ChunkRecord, length: LengthField, crc: Crc32): (b: seq<U8>)
    ensures |b| == RECORD_SIZE
  {
    RecordBody(r, length) + BigEndian(crc(RecordBody(r, length)), 4) + COMMIT_MARKER
  }

  /** What the program writes: the length field is always that of a whole payload. */
  function EncodeRecord(r: ChunkRecord, crc: Crc32): (b: seq<U8>)
    ensures |b| == RECORD_SIZE
  {
    EncodeRecordAs(r, StandardLength(), crc)
  }

  function DecodeRecord(b: seq<U8>, crc: Crc32): Result<ChunkRecord, StorageError>
    requires |b| == RECORD_SIZE
  {
    if b[0..4] != RECORD_MAGIC then Err(InvalidMagic)
    else if b[114..116] != COMMIT_MARKER then Err(TornWriteDetected)
    else if crc(b[0..110]) != FromBigEndian(b[110..114]) then Err(CrcMismatch)
    else
      BigEndianEncodes(b[4..12]);
      Pow256Values();
      Ok(ChunkRecord(FromBigEndian(b[4..12]), b[14..110]))
  }

  /** The fields up to the checksum. */
  method SerializeBody(r: ChunkRecord, out: array<U8>)
    requires out.Length == SECTOR_SIZE
    modifies out
    ensures out[..110] == RecordBody(r, StandardLength()) && out[110..] == old(out[110..])
  {
    var header, length := BigEndian(r.sequence, 8), StandardLength();
    hide BigEndian;
    hide StandardLength;
    CopyInto(out, 0, RECORD_MAGIC);
    CopyInto(out, 4, header);
    CopyInto(out, 12, length);
    assert out[..14] == RECORD_MAGIC + header + length;
    CopyInto(out, 14, r.ciphertext);
    assert out[..110] == RECORD_MAGIC + header + length + r.ciphertext;
  }

  method SerializeRecord(r: ChunkRecord, crc: Crc32, out: array<U8>)
    requires out.Length == SECTOR_SIZE
    modifies out
    ensures out[..] == EncodeRecord(r, crc) + old(out[RECORD_SIZE..])
  {
    hide BigEndian;
    hide RecordBody;
    SerializeBody(r, out);
    var body := RecordBody(r, StandardLength());
    hide StandardLength;
    assert out[0..110] == body && out[116..] == old(out[116..]);
    var sum := BigEndian(crc(out[0..110]), 4);
    CopyInto(out, 110, sum);
    assert out[..114] == body + sum;
    CopyInto(out, 114, COMMIT_MARKER);
    assert out[..116] == body + sum + COMMIT_MARKER;
    assert out[..] == out[..116] + out[116..];
  }

  lemma RecordParts(r: ChunkRecord, length: LengthField, crc: Crc32)
    ensures var b, body := EncodeRecordAs(r, length, crc), RecordBody(r, length);
      && b[0..4] == RECORD_MAGIC && b[4..12] == BigEndian(r.sequence, 8) && b[12..14] == length
      && b[14..110] == r.ciphertext && b[0..110] == body && b[110..114] == BigEndian(crc(body), 4)
      && b[114..116] == COMMIT_MARKER
  {
    hide BigEndian;
    var b, body := EncodeRecordAs(r, length, crc), RecordBody(r, length);
    assert b[0..110] == body;
    assert body[0..4] == RECORD_MAGIC && body[4..12] == BigEndian(r.sequence, 8);
    assert body[12..14] == length && body[14..110] == r.ciphertext;
    assert b[0..4] == b[0..110][0..4] && b[4..12] == b[0..110][4..12];
    assert b[12..14] == b[0..110][12..14] && b[14..110] == b[0..110][14..110];
  }

  lemma RecordDecodesAs(r: ChunkRecord, length: LengthField, crc: Crc32)
    ensures DecodeRecord(EncodeRecordAs(r, length, crc), crc) == Ok(r)
  {
    RecordParts(r, length, crc);
    Pow256Values();
    BigEndianDecodes(r.sequence, 8);
    BigEndianDecodes(crc(RecordBody(r, length)), 4);
    hide EncodeRecordAs;
    hide RecordBody;
  }

  /** A committed record reads back, whatever the checksum function. */
  lemma RecordDecodes(r: ChunkRecord, crc: Crc32)
    ensures DecodeRecord(EncodeRecord(r, crc), crc) == Ok(r)
  {
    RecordDecodesAs(r, StandardLength(), crc);
    hide DecodeRecord;
  }

  /** Exactly which bytes are accepted as record `r`: its encoding, with anything in the length field, which is
      checksummed but never checked. */
  lemma RecordAcceptance(b: seq<U8>, crc: Crc32, r: ChunkRecord)
    requires |b| == RECORD_SIZE
    ensures DecodeRecord(b, crc) == Ok(r) <==> b == EncodeRecordAs(r, b[12..14], crc)
  {
    if DecodeRecord(b, crc) == Ok(r) {
      BigEndianEncodes(b[4..12]);
      BigEndianEncodes(b[110..114]);
      hide BigEndian;
      assert b[0..110] == RECORD_MAGIC + b[4..12] + b[12..14] + b[14..110];
      assert b == b[0..110] + b[110..114] + b[114..116];
    }
    RecordDecodesAs(r, b[12..14], crc);
  }

  // ---------------------------------------------------------------- checkpoints

  const CHECKPOINT_WIDTHS: seq<nat> := [8, 8, 8, 8]

  lemma CheckpointLength()
    ensures Sum(CHECKPOINT_WIDTHS) == 32
  {
    assert Sum([8]) == 8 && Sum([8, 8]) == 16 && Sum([8, 8, 8]) == 24;
  }

  function CheckpointBody(c: CheckpointSector): (b: seq<U8>)
    ensures |b| == 36
  {
    CheckpointLength();
    CHECKPOINT_MAGIC + EncodeFields([c.sequence, c.headOffset, c.tailOffset, c.totalRecords], CHECKPOINT_WIDTHS)
  }

  function EncodeCheckpoint(c: CheckpointSector, crc: Crc32): (b: Sector) {
    CheckpointBody(c) + BigEndian(crc(CheckpointBody(c)), 4) + Zeros(470) + COMMIT_MARKER
  }

  function DecodeCheckpoint(b: Sector, crc: Crc32): Result<CheckpointSector, StorageError> {
    if b[0..4] != CHECKPOINT_MAGIC then Err(InvalidMagic)
    else if b[510..512] != COMMIT_MARKER then Err(TornWriteDetected)
    else if crc(b[0..36]) != FromBigEndian(b[36..40]) then Err(CrcMismatch)
    else
      CheckpointLength();
      Pow256Values();
      var v := DecodeFields(b[4..36], CHECKPOINT_WIDTHS);
      Ok(CheckpointSector(v[0], v[1], v[2], v[3]))
  }

  method SerializeCheckpoint(c: CheckpointSector, crc: Crc32, out: array<U8>)
    requires out.Length == SECTOR_SIZE
    modifies out
    ensures out[..] == EncodeCheckpoint(c, crc)
  {
    forall i | 0 <= i < SECTOR_SIZE {
      out[i] := 0;
    }
    CopyInto(out, 0, CheckpointBody(c));
    var body := CheckpointBody(c);
    hide CheckpointBody;
    assert out[0..36] == body && forall i | 36 <= i < 510 :: out[i] == 0;
    var sum := BigEndian(crc(out[0..36]), 4);
    hide BigEndian;
    CopyInto(out, 36, sum);
    assert out[..40] == body + sum;
    assert out[40..510] == Zeros(470);
    assert out[..510] == body + sum + Zeros(470);
    CopyInto(out, 510, COMMIT_MARKER);
  }

  lemma CheckpointParts(c: CheckpointSector, crc: Crc32)
    ensures var b, body := EncodeCheckpoint(c, crc), CheckpointBody(c);
      && b[0..4] == CHECKPOINT_MAGIC && b[0..36] == body && b[4..36] == body[4..]
      && b[36..40] == BigEndian(crc(body), 4) && b[510..512] == COMMIT_MARKER
  {
    hide BigEndian;
    hide EncodeFields;
    var b, body := EncodeCheckpoint(c, crc), CheckpointBody(c);
    assert b[0..36] == body;
    assert b[0..4] == b[0..36][0..4] && b[4..36] == b[0..36][4..36];
    assert body[0..4] == CHECKPOINT_MAGIC;
  }

  /** Where each field lies, all big-endian. */
  lemma CheckpointLayout(c: CheckpointSector, crc: Crc32)
    ensures var b := EncodeCheckpoint(c, crc);
      && b[0..4] == CHECKPOINT_MAGIC && b[4..12] == BigEndian(c.sequence, 8) && b[12..20] == BigEndian(c.headOffset, 8)
      && b[20..28] == BigEndian(c.tailOffset, 8) && b[28..36] == BigEndian(c.totalRecords, 8)
      && b[36..40] == BigEndian(crc(b[0..36]), 4) && b[510..512] == COMMIT_MARKER
  {
    CheckpointParts(c, crc);
    NoFields();
    FieldsCons(c.totalRecords, 8, [], []);
    FieldsCons(c.tailOffset, 8, [c.totalRecords], [8]);
    FieldsCons(c.headOffset, 8, [c.tailOffset, c.totalRecords], [8, 8]);
    FieldsCons(c.sequence, 8, [c.headOffset, c.tailOffset, c.totalRecords], [8, 8, 8]);
    hide EncodeCheckpoint;
    hide EncodeFields;
    hide BigEndian;
    var b, body := EncodeCheckpoint(c, crc), CheckpointBody(c);
    var s, h, t, n := BigEndian(c.sequence, 8), BigEndian(c.headOffset, 8), BigEndian(c.tailOffset, 8),
                      BigEndian(c.totalRecords, 8);
    assert body == CHECKPOINT_MAGIC + (s + (h + (t + n)));
    assert b[4..12] == body[4..12] && b[12..20] == body[12..20] && b[20..28] == body[20..28];
    assert b[28..36] == body[28..36];
  }

  /** A completed checkpoint reads back. */
  lemma CheckpointDecodes(c: CheckpointSector, crc: Crc32)
    ensures DecodeCheckpoint(EncodeCheckpoint(c, crc), crc) == Ok(c)
  {
    CheckpointParts(c, crc);
    Pow256Values();
    CheckpointLength();
    var v: seq<nat> := [c.sequence, c.headOffset, c.tailOffset, c.totalRecords];
    BigEndianDecodes(crc(CheckpointBody(c)), 4);
    FieldsDecode(v, CHECKPOINT_WIDTHS);
    assert CheckpointBody(c)[4..] == EncodeFields(v, CHECKPOINT_WIDTHS);
  }

  lemma AcceptedParts(b: Sector, crc: Crc32, c: CheckpointSector)
    requires DecodeCheckpoint(b, crc) == Ok(c)
    ensures b[0..36] == CheckpointBody(c) && b[36..40] == BigEndian(crc(CheckpointBody(c)), 4)
    ensures b[510..512] == COMMIT_MARKER
  {
    CheckpointLength();
    FieldsEncode(b[4..36], CHECKPOINT_WIDTHS);
    BigEndianEncodes(b[36..40]);
    var v := DecodeFields(b[4..36], CHECKPOINT_WIDTHS);
    assert v == [c.sequence, c.headOffset, c.tailOffset, c.totalRecords];
    hide EncodeFields;
    hide BigEndian;
    assert b[0..36] == b[0..4] + b[4..36];
  }

  lemma EqualParts(b: Sector, e: Sector)
    requires b[..40] == e[..40]
    ensures b[0..4] == e[0..4] && b[4..36] == e[4..36] && b[36..40] == e[36..40] && b[0..36] == e[0..36]
  {
    assert b[0..4] == b[..40][0..4] && b[4..36] == b[..40][4..36] && b[36..40] == b[..40][36..40];
    assert b[0..36] == b[..40][0..36];
    assert e[0..4] == e[..40][0..4] && e[4..36] == e[..40][4..36] && e[36..40] == e[..40][36..40];
    assert e[0..36] == e[..40][0..36];
  }

  /** Exactly which sectors are accepted as checkpoint `c`: those that start with its encoding and end with the commit
      marker, whatever lies between. */
  lemma CheckpointAcceptance(b: Sector, crc: Crc32, c: CheckpointSector)
    ensures DecodeCheckpoint(b, crc) == Ok(c)
       <==> b[..40] == EncodeCheckpoint(c, crc)[..40] && b[510..512] == COMMIT_MARKER
  {
    var e := EncodeCheckpoint(c, crc);
    CheckpointParts(c, crc);
    CheckpointDecodes(c, crc);
    hide CheckpointBody;
    hide EncodeCheckpoint;
    hide BigEndian;
    hide FromBigEndian;
    hide DecodeFields;
    if DecodeCheckpoint(b, crc) == Ok(c) {
      AcceptedParts(b, crc, c);
      assert b[..40] == b[0..36] + b[36..40] && e[..40] == e[0..36] + e[36..40];
    }
    if b[..40] == e[..40] {
      EqualParts(b, e);
    }
  }
}
