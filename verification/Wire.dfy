/** Mesh packets on the wire: the 114-byte codec, the 802.15.4 PHY frame and TTL handling. */
module Wire {
  import opened Bytes

  const MHR_LEN := 11
  const MESH_HEADER_LEN := 18
  const CIPHERTEXT_LEN := 96
  const WIRE_LEN := 114
  const PHY_MTU := 127

  const FLAG_CLIPBOARD: U16 := 0x0004
  const FLAG_TELEMETRY: U16 := 0x0020
  const FLAG_SACK: U16 := 0x0040

  const DEFAULT_NETWORK_TAG: U64 := 0x4749424245524953
  const SWARM_NETWORK_TAG: U64 := 0xD75118D87E4159D2

  type Payload = s: seq<U8> | |s| == CIPHERTEXT_LEN witness seq(CIPHERTEXT_LEN, _ => 0)
  type WireBytes = s: seq<U8> | |s| == WIRE_LEN witness seq(WIRE_LEN, _ => 0)

  /** The deduplication key of a packet. */
  datatype PacketKey = PacketKey(msgId: U32, chunkIdx: U8)

  datatype MeshHeader = MeshHeader(
    networkTag: U64, msgId: U32, chunkIdx: U8, totalChunks: U8, ttl: U8, hopCount: U8, flags: U16)

  datatype MeshPacket = MeshPacket(header: MeshHeader, payload: Payload) {
    function Key(): PacketKey {
      PacketKey(header.msgId, header.chunkIdx)
    }

    /** Whether the single-bit `flag` is set. */
    predicate HasFlag(flag: U16)
      requires flag > 0
    {
      (header.flags / flag) % 2 == 1
    }

    predicate IsTelemetry() {
      HasFlag(FLAG_TELEMETRY)
    }
  }

  predicate IsValidNetworkTag(tag: U64) {
    tag == DEFAULT_NETWORK_TAG || tag == SWARM_NETWORK_TAG
  }

  // ---------------------------------------------------------------- codec

  const HEADER_WIDTHS: seq<nat> := [8, 4, 1, 1, 1, 1, 2]

  lemma HeaderLength()
    ensures Sum(HEADER_WIDTHS) == MESH_HEADER_LEN
  {
    assert Sum([2]) == 2 && Sum([1, 2]) == 3 && Sum([1, 1, 2]) == 4 && Sum([1, 1, 1, 2]) == 5;
    assert Sum([1, 1, 1, 1, 2]) == 6 && Sum([4, 1, 1, 1, 1, 2]) == 10;
  }

  function EncodeHeader(h: MeshHeader): (r: seq<U8>)
    ensures |r| == MESH_HEADER_LEN
  {
    HeaderLength();
    EncodeFields([h.networkTag, h.msgId, h.chunkIdx, h.totalChunks, h.ttl, h.hopCount, h.flags], HEADER_WIDTHS)
  }

  function DecodeHeader(b: seq<U8>): MeshHeader
    requires |b| == MESH_HEADER_LEN
  {
    HeaderLength();
    Pow256Values();
    var v := DecodeFields(b, HEADER_WIDTHS);
    MeshHeader(v[0], v[1], v[2], v[3], v[4], v[5], v[6])
  }

  function EncodePacket(p: MeshPacket): WireBytes {
    EncodeHeader(p.header) + p.payload
  }

  function DecodePacket(b: WireBytes): MeshPacket {
    MeshPacket(DecodeHeader(b[..MESH_HEADER_LEN]), b[MESH_HEADER_LEN..])
  }

  lemma HeaderDecodes(h: MeshHeader)
    ensures DecodeHeader(EncodeHeader(h)) == h
  {
    Pow256Values();
    FieldsDecode([h.networkTag, h.msgId, h.chunkIdx, h.totalChunks, h.ttl, h.hopCount, h.flags], HEADER_WIDTHS);
  }

  lemma HeaderEncodes(b: seq<U8>)
    requires |b| == MESH_HEADER_LEN
    ensures EncodeHeader(DecodeHeader(b)) == b
  {
    HeaderLength();
    var v := DecodeFields(b, HEADER_WIDTHS);
    assert v == [v[0], v[1], v[2], v[3], v[4], v[5], v[6]];
    FieldsEncode(b, HEADER_WIDTHS);
  }

  /** The 114-byte codec is a bijection: decoding undoes encoding on every packet ... */
  lemma PacketDecodes(p: MeshPacket)
    ensures DecodePacket(EncodePacket(p)) == p
  {
    HeaderDecodes(p.header);
    assert EncodePacket(p)[..MESH_HEADER_LEN] == EncodeHeader(p.header);
  }

  /** ... and encoding undoes decoding on every buffer. */
  lemma PacketEncodes(b: WireBytes)
    ensures EncodePacket(DecodePacket(b)) == b
  {
    HeaderEncodes(b[..MESH_HEADER_LEN]);
  }

  lemma HeaderForm(h: MeshHeader)
    ensures EncodeHeader(h) == BigEndian(h.networkTag, 8)
      + (BigEndian(h.msgId, 4) + ([h.chunkIdx, h.totalChunks, h.ttl, h.hopCount] + BigEndian(h.flags, 2)))
  {
    OneByte(h.chunkIdx);
    OneByte(h.totalChunks);
    OneByte(h.ttl);
    OneByte(h.hopCount);
    NoFields();
    FieldsCons(h.flags, 2, [], []);
    FieldsCons(h.hopCount, 1, [h.flags], [2]);
    FieldsCons(h.ttl, 1, [h.hopCount, h.flags], [1, 2]);
    FieldsCons(h.totalChunks, 1, [h.ttl, h.hopCount, h.flags], [1, 1, 2]);
    FieldsCons(h.chunkIdx, 1, [h.totalChunks, h.ttl, h.hopCount, h.flags], [1, 1, 1, 2]);
    FieldsCons(h.msgId, 4, [h.chunkIdx, h.totalChunks, h.ttl, h.hopCount, h.flags], [1, 1, 1, 1, 2]);
    FieldsCons(h.networkTag, 8, [h.msgId, h.chunkIdx, h.totalChunks, h.ttl, h.hopCount, h.flags], [4, 1, 1, 1, 1, 2]);
    hide EncodeFields;
    hide BigEndian;
    var tail := BigEndian(h.flags, 2);
    assert [h.chunkIdx] + ([h.totalChunks] + ([h.ttl] + ([h.hopCount] + (tail + []))))
        == [h.chunkIdx, h.totalChunks, h.ttl, h.hopCount] + tail;
  }

  lemma {:induction false} Middle(x: seq<U8>, y: seq<U8>, z: seq<U8>)
    ensures (x + y + z)[|x|..|x| + |y|] == y
    ensures forall i | 0 <= i < |y| :: (x + y + z)[|x| + i] == y[i]
  {
  }

  lemma {:induction false} Slices(a: seq<U8>, b: seq<U8>, c: seq<U8>, d: seq<U8>, e: seq<U8>)
    requires |a| == 8 && |b| == 4 && |c| == 4 && |d| == 2 && |e| == 96
    ensures var s := (a + (b + (c + d))) + e;
      && s[0..8] == a && s[8..12] == b && s[16..18] == d && s[18..114] == e
      && forall i | 0 <= i < 4 :: s[12 + i] == c[i]
  {
    var s := (a + (b + (c + d))) + e;
    Middle([], a, b + c + d + e);
    assert s == [] + a + (b + c + d + e);
    Middle(a, b, c + d + e);
    assert s == a + b + (c + d + e);
    Middle(a + b, c, d + e);
    assert s == (a + b) + c + (d + e);
    Middle(a + b + c, d, e);
    assert s == (a + b + c) + d + e;
    Middle(a + b + c + d, e, []);
    assert s == (a + b + c + d) + e + [];
  }

  /** Where each field lies: tag, message id, chunk index, chunk count, TTL, hop count, flags, payload, all big-endian.
      */
  lemma WireLayout(p: MeshPacket)
    ensures var b, h := EncodePacket(p), p.header;
      && b[0..8] == BigEndian(h.networkTag, 8) && b[8..12] == BigEndian(h.msgId, 4)
      && b[12] == h.chunkIdx && b[13] == h.totalChunks && b[14] == h.ttl && b[15] == h.hopCount
      && b[16..18] == BigEndian(h.flags, 2) && b[18..114] == p.payload
  {
    var h := p.header;
    HeaderForm(h);
    hide EncodeHeader;
    hide BigEndian;
    var small := [h.chunkIdx, h.totalChunks, h.ttl, h.hopCount];
    Slices(BigEndian(h.networkTag, 8), BigEndian(h.msgId, 4), small, BigEndian(h.flags, 2), p.payload);
    var b := EncodePacket(p);
    assert b[12 + 0] == small[0] && b[12 + 1] == small[1] && b[12 + 2] == small[2] && b[12 + 3] == small[3];
  }

  method SerializePayload(p: MeshPacket, out: array<U8>)
    requires out.Length == WIRE_LEN
    modifies out
    ensures out[..] == EncodePacket(p)
  {
    CopyInto(out, 0, EncodeHeader(p.header));
    CopyInto(out, MESH_HEADER_LEN, p.payload);
  }

  // ---------------------------------------------------------------- TTL

  /** One hop: `None` when the packet has no hops left. */
  function DecrementTtl(p: MeshPacket): Option<MeshPacket> {
    if p.header.ttl > 0 then
      Some(p.(header := p.header.(ttl := p.header.ttl - 1, hopCount := SaturatingAdd(p.header.hopCount, 1, 255))))
    else
      None
  }

  /** Everything a relay must not touch. */
  predicate SameContent(p: MeshPacket, q: MeshPacket) {
    && p.payload == q.payload
    && p.header == q.header.(ttl := p.header.ttl, hopCount := p.header.hopCount)
  }

  /** The hop budget ttl + hopCount survives a hop exactly when the hop counter is not saturated. */
  lemma TtlBudget(p: MeshPacket)
    requires p.header.ttl > 0
    ensures DecrementTtl(p).Some? && SameContent(DecrementTtl(p).value, p)
    ensures var q := DecrementTtl(p).value.header;
            q.ttl + q.hopCount == p.header.ttl + p.header.hopCount <==> p.header.hopCount < 255
  {
  }

  /** The packet after `n` hops, if its TTL lasts. */
  function Hops(p: MeshPacket, n: nat): (r: Option<MeshPacket>)
    ensures r.Some? <==> n <= p.header.ttl
    ensures r.Some? ==> r.value.header.ttl == p.header.ttl - n
  {
    if n == 0 then Some(p)
    else
      match Hops(p, n - 1)
      case None => None
      case Some(q) => DecrementTtl(q)
  }

  /** A packet travels exactly as many hops as its TTL says, with its content untouched, counting them. */
  lemma {:induction false} HopsExactly(p: MeshPacket, n: nat)
    ensures Hops(p, n).Some? <==> n <= p.header.ttl
    ensures n <= p.header.ttl ==>
      var q := Hops(p, n).value;
      && SameContent(q, p) && q.header.ttl == p.header.ttl - n
      && q.header.hopCount == SaturatingAdd(p.header.hopCount, n, 255)
  {
    if n > 0 {
      HopsExactly(p, n - 1);
    }
  }

  // ---------------------------------------------------------------- PHY frame

  type Mac = s: seq<U8> | |s| == 8 witness [0, 0, 0, 0, 0, 0, 0, 0]

  /** The station's node identifier: the last four MAC bytes. */
  function NodeId(mac: Mac): nat {
    FromBigEndian(mac[4..8])
  }

  function MacHeader(mac: Mac, frameSeq: U8): (r: seq<U8>)
    ensures |r| == MHR_LEN && r[7..11] == mac[4..8]
  {
    [0x41, 0x08, frameSeq, 0xFF, 0xFF, 0xFF, 0xFF] + mac[4..8]
  }

  function PhyFrame(mac: Mac, p: MeshPacket, frameSeq: U8): (r: seq<U8>)
    ensures |r| == PHY_MTU
  {
    MacHeader(mac, frameSeq) + EncodePacket(p) + [0, 0]
  }

  method WriteMacHeader(mac: Mac, frameSeq: U8, out: array<U8>)
    requires out.Length == PHY_MTU
    modifies out
    ensures out[..MHR_LEN] == MacHeader(mac, frameSeq)
  {
    out[0], out[1], out[2] := 0x41, 0x08, frameSeq;
    out[3], out[4], out[5], out[6] := 0xFF, 0xFF, 0xFF, 0xFF;
    out[7], out[8], out[9], out[10] := mac[4], mac[5], mac[6], mac[7];
  }

  method AssemblePhyFrame(mac: Mac, p: MeshPacket, frameSeq: U8, out: array<U8>)
    requires out.Length == PHY_MTU
    modifies out
    ensures out[..] == PhyFrame(mac, p, frameSeq)
  {
    hide EncodeHeader;
    WriteMacHeader(mac, frameSeq, out);
    CopyInto(out, MHR_LEN, EncodeHeader(p.header));
    CopyInto(out, MHR_LEN + MESH_HEADER_LEN, p.payload);
    CopyInto(out, 125, [0, 0]);
  }

  function ParsePhyFrame(frame: seq<U8>, tagValidator: U64 -> bool): Option<MeshPacket> {
    if |frame| < MHR_LEN + WIRE_LEN then None
    else
      var header := DecodeHeader(frame[MHR_LEN..MHR_LEN + MESH_HEADER_LEN]);
      if !tagValidator(header.networkTag) then None
      else Some(MeshPacket(header, frame[MHR_LEN + MESH_HEADER_LEN..MHR_LEN + WIRE_LEN]))
  }

  /** What a station hands to the mesh loop for one frame: nothing for its own echo or a foreign tag. */
  function Receive(localMac: Mac, frame: seq<U8>): Option<(nat, MeshPacket)> {
    match ParsePhyFrame(frame, IsValidNetworkTag)
    case None => None
    case Some(p) =>
      if frame[7..11] == localMac[4..8] then None
      else Some((FromBigEndian(frame[7..11]), p))
  }

  /** What a receiver sees of a transmitted frame. */
  lemma PhyFrameParts(mac: Mac, p: MeshPacket, frameSeq: U8, fcs: seq<U8>)
    requires |fcs| == 2
    ensures PhyFrame(mac, p, frameSeq)[..125] + fcs
         == MacHeader(mac, frameSeq) + EncodeHeader(p.header) + p.payload + fcs
  {
    hide MacHeader;
    hide EncodeHeader;
    assert PhyFrame(mac, p, frameSeq)[..125] == MacHeader(mac, frameSeq) + (EncodeHeader(p.header) + p.payload);
  }

  /** The MAC header: an IEEE 802.15.4 data frame with PAN id compression and a short destination address, to everybody
      in every PAN, numbered, and followed by the last four bytes of the sender's MAC. */
  lemma FrameLayout(mac: Mac, p: MeshPacket, frameSeq: U8)
    ensures var b := PhyFrame(mac, p, frameSeq); var control := b[0] as int + 256 * (b[1] as int);
      && control % 8 == 1 && (control / 64) % 2 == 1 && (control / 1024) % 4 == 2
      && b[2] == frameSeq && b[3..7] == [0xFF, 0xFF, 0xFF, 0xFF] && b[7..11] == mac[4..8]
      && b[11..125] == EncodePacket(p)
  {
    hide EncodePacket;
    var b, header := PhyFrame(mac, p, frameSeq), MacHeader(mac, frameSeq);
    assert header[3..7] == [0xFF, 0xFF, 0xFF, 0xFF];
    assert b[..11] == header;
    assert b[3..7] == b[..11][3..7] && b[7..11] == b[..11][7..11];
  }

  /** A transmitted frame parses back whatever the hardware writes over the two FCS bytes. */
  lemma PhyFrameParses(mac: Mac, p: MeshPacket, frameSeq: U8, fcs: seq<U8>, tagValidator: U64 -> bool)
    requires |fcs| == 2
    ensures ParsePhyFrame(PhyFrame(mac, p, frameSeq)[..125] + fcs, tagValidator)
         == if tagValidator(p.header.networkTag) then Some(p) else None
  {
    hide MacHeader;
    hide EncodeHeader;
    hide PhyFrame;
    PhyFrameParts(mac, p, frameSeq, fcs);
    var frame := PhyFrame(mac, p, frameSeq)[..125] + fcs;
    assert frame[MHR_LEN..MHR_LEN + MESH_HEADER_LEN] == EncodeHeader(p.header);
    assert frame[MHR_LEN + MESH_HEADER_LEN..MHR_LEN + WIRE_LEN] == p.payload;
    HeaderDecodes(p.header);
  }

  /** The source address carries the low four bytes of the sender's MAC. */
  lemma FrameSource(mac: Mac, p: MeshPacket, frameSeq: U8, fcs: seq<U8>)
    requires |fcs| == 2
    ensures (PhyFrame(mac, p, frameSeq)[..125] + fcs)[7..11] == mac[4..8]
  {
    PhyFrameParts(mac, p, frameSeq, fcs);
    hide EncodeHeader;
    hide PhyFrame;
    var header := MacHeader(mac, frameSeq);
    assert header[7..11] == mac[4..8];
    hide MacHeader;
    assert (header + EncodeHeader(p.header) + p.payload + fcs)[7..11] == header[7..11];
  }

  /** Every other station receives exactly the sender's packet under the sender's node identifier, if it carries one of
      the two network tags; the sender's own station (same MAC tail) receives nothing. */
  lemma FrameReception(mac: Mac, localMac: Mac, p: MeshPacket, frameSeq: U8, fcs: seq<U8>)
    requires |fcs| == 2
    ensures var tag := p.header.networkTag;
      Receive(localMac, PhyFrame(mac, p, frameSeq)[..125] + fcs)
        == if NodeId(mac) != NodeId(localMac) && (tag == 0x4749424245524953 || tag == 0xD75118D87E4159D2)
           then Some((NodeId(mac), p)) else None
  {
    PhyFrameParses(mac, p, frameSeq, fcs, IsValidNetworkTag);
    hide ParsePhyFrame;
    hide PhyFrame;
    FrameSource(mac, p, frameSeq, fcs);
    BigEndianEncodes(mac[4..8]);
    BigEndianEncodes(localMac[4..8]);
  }
}
