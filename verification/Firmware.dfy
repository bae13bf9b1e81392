/** The dongle's main-loop steps over its live objects: filter, transmit queue, SRAM ring and peer table. */
module Firmware {
  import opened Bytes
  import opened Wire
  import Dedup
  import Mesh
  import PeerTable
  import PktLine
  import SramRing
  import Tdm
  import TxQueue

  const DEBUG_TIER: U8 := 0xDB

  /** Who sent a frame: the station in its PHY header, or else the node that a debug telemetry payload names. */
  function EffectiveSource(src: U32, p: MeshPacket): U32 {
    if src != 0 then src
    else if p.IsTelemetry() && p.payload[20] == DEBUG_TIER then
      BigEndianEncodes(p.payload[28..32]);
      Pow256Values();
      FromBigEndian(p.payload[28..32])
    else 0
  }

  /** The peer table after a frame with a valid tag: every frame counts, also telemetry and duplicates, except the
      node's own. */
  function Heard(l: seq<PeerTable.PeerMetric>, local: U32, src: U32, p: MeshPacket, rssi: int, lqi: U8):
    seq<PeerTable.PeerMetric>
    requires |l| <= PeerTable.CAPACITY
  {
    var source := EffectiveSource(src, p);
    if source == local then l else PeerTable.Record(l, PeerTable.Contact(source, rssi, lqi))
  }

  lemma NoSource(l: seq<PeerTable.PeerMetric>, rssi: int, lqi: U8)
    requires |l| <= PeerTable.CAPACITY
    ensures PeerTable.Record(l, PeerTable.Contact(0, rssi, lqi)) == l
  {
  }

  // ---------------------------------------------------------------- the peer table over a run

  /** A frame as the radio reports it. */
  datatype Frame = Frame(src: U32, packet: MeshPacket, rssi: int, lqi: U8)

  function PeersAfter(local: U32, frames: seq<Frame>): (l: seq<PeerTable.PeerMetric>)
    ensures |l| <= PeerTable.CAPACITY
  {
    if frames == [] then []
    else
      var n := |frames| - 1;
      var l, f := PeersAfter(local, frames[..n]), frames[n];
      if IsValidNetworkTag(f.packet.header.networkTag) then Heard(l, local, f.src, f.packet, f.rssi, f.lqi) else l
  }

  /** The frames that count as contacts with another node, with the node each is attributed to. */
  function Contacts(local: U32, frames: seq<Frame>): seq<PeerTable.Contact> {
    if frames == [] then []
    else
      var n := |frames| - 1;
      var f := frames[n];
      var source := EffectiveSource(f.src, f.packet);
      Contacts(local, frames[..n]) +
      if IsValidNetworkTag(f.packet.header.networkTag) && source != local
      then [PeerTable.Contact(source, f.rssi, f.lqi)] else []
  }

  lemma AfterSnoc(contacts: seq<PeerTable.Contact>, c: PeerTable.Contact)
    ensures PeerTable.After(contacts + [c]) == PeerTable.Record(PeerTable.After(contacts), c)
  {
    assert (contacts + [c])[..|contacts|] == contacts;
  }

  /** After any frames, the dongle's table is the least-recently-contacted table of the contacts among them. */
  lemma {:induction false} PeersAreContacts(local: U32, frames: seq<Frame>)
    ensures PeersAfter(local, frames) == PeerTable.After(Contacts(local, frames))
  {
    hide PeerTable.Record;
    hide EffectiveSource;
    if frames != [] {
      var n := |frames| - 1;
      var f := frames[n];
      PeersAreContacts(local, frames[..n]);
      assert Contacts(local, frames[..n]) + [] == Contacts(local, frames[..n]);
      AfterSnoc(Contacts(local, frames[..n]), PeerTable.Contact(EffectiveSource(f.src, f.packet), f.rssi, f.lqi));
    }
  }

  /** The frame names node `id`: in its PHY header, or, if that names nobody, in a debug telemetry payload. */
  predicate Names(f: Frame, id: U32) {
    && IsValidNetworkTag(f.packet.header.networkTag)
    && if f.src != 0 then f.src == id
       else f.packet.IsTelemetry() && f.packet.payload[20] == 0xDB && FromBigEndian(f.packet.payload[28..32]) == id
  }

  /** Every peer was heard: whatever frames arrive, the table lists neither the node itself nor an unknown source, only
      nodes that some frame with a valid tag names. */
  lemma {:induction false} PeersWereHeard(local: U32, frames: seq<Frame>)
    ensures forall m <- PeersAfter(local, frames) ::
      m.nodeId != 0 && m.nodeId != local && exists f <- frames :: Names(f, m.nodeId)
  {
    if frames != [] {
      var n := |frames| - 1;
      var l, f := PeersAfter(local, frames[..n]), frames[n];
      PeersWereHeard(local, frames[..n]);
      forall m <- PeersAfter(local, frames)
        ensures m.nodeId != 0 && m.nodeId != local && exists f <- frames :: Names(f, m.nodeId)
      {
        if m.nodeId == EffectiveSource(f.src, f.packet) && m !in l {
          assert Names(f, m.nodeId);
        } else {
          assert m in l;
          var g :| g in frames[..n] && Names(g, m.nodeId);
          assert g in frames;
        }
      }
    }
  }

  class FirmwareNode {
    const localNodeId: U32
    const peers: PeerTable.Table
    const filter: Dedup.SlidingBloomFilter
    const backoff: TxQueue.BackoffController
    const ring: SramRing.SramRingBuffer
    ghost var sent: seq<MeshPacket>
    ghost var injected: seq<MeshPacket>
    ghost var relayed: seq<MeshPacket>

    ghost predicate Valid()
      reads this, filter, filter.activeEpoch, filter.previousEpoch, filter.recentLru
      reads backoff, backoff.queue, ring, ring.buffer, peers, peers.peers
    {
      peers.Valid() && filter.Valid() && backoff.Valid() && ring.Valid() && backoff.queue != ring.buffer
    }

    /** The node as the mesh model sees it. */
    ghost function Abstract(): Mesh.Node
      reads this, filter, backoff
    {
      Mesh.Node(filter.history, backoff.Abstract(), sent, injected, relayed)
    }

    constructor (localNodeId: U32)
      ensures Valid() && Abstract() == Mesh.FRESH && ring.Abstract() == SramRing.EMPTY
      ensures this.localNodeId == localNodeId && peers.contents == PeerTable.After([])
    {
      this.localNodeId := localNodeId;
      peers := new PeerTable.Table();
      filter := new Dedup.SlidingBloomFilter();
      backoff := new TxQueue.BackoffController();
      ring := new SramRing.SramRingBuffer();
      sent, injected, relayed := [], [], [];
    }

    /** A received 802.15.4 frame. A packet that is new goes to the ring and, as the line returned, to the host. */
    method OnMeshFrame(src: U32, p: MeshPacket, rssi: int, lqi: U8, random: U16) returns (line: Option<string>)
      requires Valid()
      modifies this, filter, filter.activeEpoch, filter.previousEpoch, filter.recentLru
      modifies backoff, backoff.queue, ring, ring.buffer, peers, peers.peers
      ensures Valid() && Abstract() == Mesh.Hear(old(Abstract()), p, lqi, random)
      ensures line == if IsValidNetworkTag(p.header.networkTag) && !p.IsTelemetry()
                         && !Dedup.Contains(old(filter.history), p.Key())
                      then Some(PktLine.PrintPktLine(src, p)) else None
      ensures ring.Abstract() == if line.Some? then SramRing.Push(old(ring.Abstract()), p).0 else old(ring.Abstract())
      ensures peers.contents == if IsValidNetworkTag(p.header.networkTag)
                                then Heard(old(peers.contents), localNodeId, src, p, rssi, lqi)
                                else old(peers.contents)
    {
      hide Mesh.HearNew;
      hide Mesh.Cancel;
      hide Dedup.Contains;
      hide SramRing.Push;
      hide PktLine.PrintPktLine;
      hide Heard;
      hide Dedup.SlidingBloomFilter.Valid;
      hide TxQueue.BackoffController.Valid;
      hide SramRing.SramRingBuffer.Valid;
      hide PeerTable.Table.Valid;
      line := None;
      if !IsValidNetworkTag(p.header.networkTag) {
        return;
      }
      NotePeer(src, p, rssi, lqi);
      if p.IsTelemetry() {
        return;
      }
      var isNew := OnDataFrame(p, lqi, random);
      if isNew {
        var text := PktLine.FormatPktLine(src, p);
        line := Some(text);
      }
    }

    /** Records the sender of a frame. */
    method NotePeer(src: U32, p: MeshPacket, rssi: int, lqi: U8)
      requires Valid()
      modifies peers, peers.peers
      ensures Valid() && peers.contents == Heard(old(peers.contents), localNodeId, src, p, rssi, lqi)
    {
      hide Dedup.SlidingBloomFilter.Valid;
      hide TxQueue.BackoffController.Valid;
      hide SramRing.SramRingBuffer.Valid;
      hide PeerTable.Record;
      var source := src;
      if source == 0 && p.IsTelemetry() && p.payload[20] == DEBUG_TIER {
        source := EffectiveSource(src, p);
      }
      NoSource(peers.contents, rssi, lqi);
      if source != 0 && source != localNodeId {
        peers.RecordPeer(source, rssi, lqi);
      }
    }

    /** The deduplication step. */
    method OnDataFrame(p: MeshPacket, lqi: U8, random: U16) returns (isNew: bool)
      requires Valid()
      modifies this, filter, filter.activeEpoch, filter.previousEpoch, filter.recentLru
      modifies backoff, backoff.queue, ring, ring.buffer
      ensures Valid() && isNew == !Dedup.Contains(old(filter.history), p.Key())
      ensures isNew ==> Abstract() == Mesh.HearNew(old(Abstract()), p, lqi, random)
      ensures isNew ==> ring.Abstract() == SramRing.Push(old(ring.Abstract()), p).0
      ensures !isNew ==> Abstract() == Mesh.Cancel(old(Abstract()), p) && ring.Abstract() == old(ring.Abstract())
    {
      hide Mesh.HearNew;
      hide Mesh.Cancel;
      hide Dedup.Contains;
      hide SramRing.Push;
      hide Dedup.SlidingBloomFilter.Valid;
      hide TxQueue.BackoffController.Valid;
      hide SramRing.SramRingBuffer.Valid;
      var seen := filter.Lookup(p.Key());
      isNew := !seen;
      if seen {
        CancelPending(p);
      } else {
        OnNewFrame(p, lqi, random);
      }
    }

    method CancelPending(p: MeshPacket)
      requires Valid()
      modifies backoff, backoff.queue
      ensures Valid() && Abstract() == Mesh.Cancel(old(Abstract()), p)
    {
      hide TxQueue.Overhear;
      var cancelled := backoff.OnOverhear(p.header.msgId, p.header.chunkIdx);
    }

    method OnNewFrame(p: MeshPacket, lqi: U8, random: U16)
      requires Valid()
      modifies this, filter, filter.activeEpoch, filter.previousEpoch, filter.recentLru
      modifies backoff, backoff.queue, ring, ring.buffer
      ensures Valid() && Abstract() == Mesh.HearNew(old(Abstract()), p, lqi, random)
      ensures ring.Abstract() == SramRing.Push(old(ring.Abstract()), p).0
    {
      hide TxQueue.Overhear;
      hide TxQueue.Schedule;
      hide SramRing.Push;
      hide Dedup.SlidingBloomFilter.Valid;
      hide TxQueue.BackoffController.Valid;
      hide SramRing.SramRingBuffer.Valid;
      AcceptNew(p);
      Relay(p, lqi, random);
    }

    /** First sight of a packet: remember it, drop our own pending copy, and keep it for the host and the card. */
    method AcceptNew(p: MeshPacket)
      requires Valid()
      modifies filter, filter.activeEpoch, filter.previousEpoch, filter.recentLru
      modifies backoff, backoff.queue, ring, ring.buffer
      ensures Valid() && ring.Abstract() == SramRing.Push(old(ring.Abstract()), p).0
      ensures filter.history == old(filter.history) + [p.Key()]
      ensures backoff.Abstract() == TxQueue.Overhear(old(backoff.Abstract()), TxQueue.HasKey(p.Key())).0
    {
      hide TxQueue.Overhear;
      hide Dedup.SlidingBloomFilter.Valid;
      hide TxQueue.BackoffController.Valid;
      hide SramRing.SramRingBuffer.Valid;
      filter.Insert(p.Key());
      var cancelled := backoff.OnOverhear(p.header.msgId, p.header.chunkIdx);
      var evicted := ring.PushPacket(p);
    }

    /** Forwards a packet heard well enough while it has hops left. */
    method Relay(p: MeshPacket, lqi: U8, random: U16)
      requires Valid()
      modifies `relayed, backoff, backoff.queue
      ensures Valid()
      ensures var next := DecrementTtl(p);
        if lqi >= Mesh.MIN_RELAY_LQI && next.Some? then
          && backoff.Abstract() == TxQueue.Schedule(old(backoff.Abstract()), next.value, Mesh.RelayJitter(lqi, random))
          && relayed == old(relayed) + [next.value]
        else backoff.Abstract() == old(backoff.Abstract()) && relayed == old(relayed)
    {
      hide TxQueue.Schedule;
      hide Dedup.SlidingBloomFilter.Valid;
      hide TxQueue.BackoffController.Valid;
      hide SramRing.SramRingBuffer.Valid;
      var forward := DecrementTtl(p);
      if lqi >= Mesh.MIN_RELAY_LQI && forward.Some? {
        backoff.ScheduleTx(forward.value, Mesh.RelayJitter(lqi, random));
        relayed := relayed + [forward.value];
      }
    }

    /** A packet framed by the host. */
    method OnHostFrame(p: MeshPacket)
      requires Valid()
      modifies this, filter, filter.activeEpoch, filter.previousEpoch, filter.recentLru
      modifies backoff, backoff.queue, ring, ring.buffer
      ensures Valid() && Abstract() == Mesh.Inject(old(Abstract()), p)
      ensures ring.Abstract() == if IsValidNetworkTag(p.header.networkTag) then SramRing.Push(old(ring.Abstract()), p).0
                                 else old(ring.Abstract())
    {
      hide TxQueue.Schedule;
      hide Dedup.SlidingBloomFilter.Valid;
      hide TxQueue.BackoffController.Valid;
      hide SramRing.SramRingBuffer.Valid;
      if IsValidNetworkTag(p.header.networkTag) {
        filter.Insert(p.Key());
        var evicted := ring.PushPacket(p);
        backoff.ScheduleTx(p, Mesh.INJECT_JITTER);
        injected := injected + [p];
      }
    }

    /** The transmit step of a mesh slot; `ok` is the radio's answer. */
    method OnMeshSlot(ok: bool) returns (transmitted: Option<MeshPacket>)
      requires Valid()
      modifies `sent, backoff, backoff.queue
      ensures Valid() && Abstract() == Mesh.Serve(old(Abstract()), ok)
      ensures sent == old(sent) + if transmitted.Some? then [transmitted.value] else []
    {
      hide TxQueue.TakePending;
      hide Dedup.SlidingBloomFilter.Valid;
      hide TxQueue.BackoffController.Valid;
      hide SramRing.SramRingBuffer.Valid;
      transmitted := None;
      var ready := backoff.TickBackoff(Tdm.LOOP_MS);
      if ready {
        var p := backoff.Take();
        if p.Some? && ok {
          transmitted := p;
          sent := sent + [p.value];
        }
      }
    }

    method OnTelemetryDue(p: MeshPacket, jitter: U16)
      requires Valid() && p.IsTelemetry()
      modifies backoff, backoff.queue
      ensures Valid() && Abstract() == Mesh.EmitTelemetry(old(Abstract()), p, jitter)
    {
      var accepted := backoff.ScheduleTelemetryTx(p, jitter);
    }
  }
}
