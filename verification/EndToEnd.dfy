/** Hosts and dongles together: what becomes of fragments and SACKs that travel more than one hop. */
module EndToEnd {
  import opened Bytes
  import opened Wire
  import opened Chunks
  import opened ChunkEngine
  import opened EngineRuns
  import Dedup
  import Mesh
  import PktLine
  import Reassembly

  // ---------------------------------------------------------------- relayed fragments

  lemma NodeIdFits(mac: Mac)
    ensures NodeId(mac) < 0x1_0000_0000
  {
    BigEndianEncodes(mac[4..8]);
    Pow256Values();
  }

  /** A sealed chunk opens under the sender's identifier and no other. */
  lemma OpensForSender(env: Env, tag: U64, node: U32, msgId: U32, text: Text, i: nat, n: nat, src: U32)
    requires env.crypto.Correct() && env.crypto.Exclusive() && Separates(env.crypto, env.master)
    requires i < |MessagePackets(env.crypto, env.master, tag, node, msgId, text)| && n <= 7
    ensures Hops(MessagePackets(env.crypto, env.master, tag, node, msgId, text)[i], n).Some?
    ensures Opened(env, src, Hops(MessagePackets(env.crypto, env.master, tag, node, msgId, text)[i], n).value)
         == if src == node then Some(Piece(text, i)) else None
  {
    FragmentTravels(env.crypto, env.master, tag, node, msgId, text, i, n);
    CoordinatesInjective(env.crypto, env.master, src, msgId, i, node, msgId, i);
    hide MessagePackets;
    hide Hops;
    hide Piece;
    hide At;
  }

  /** A fragment after up to seven hops, as station `mac` transmits it: another station hears it under the identifier of
      `mac`, prints it for its host, and the host reads exactly that; but the chunk opens there if and only if `mac` is
      the originator's own station. A relay puts its own address into the frame, so a fragment can be opened by the
      originator's direct neighbours only. */
  lemma RelayedFragment(env: Env, tag: U64, node: U32, msgId: U32, text: Text, i: nat, n: nat, mac: Mac, localMac: Mac,
                        frameSeq: U8, fcs: seq<U8>)
    requires env.crypto.Correct() && env.crypto.Exclusive() && Separates(env.crypto, env.master)
    requires i < |MessagePackets(env.crypto, env.master, tag, node, msgId, text)| && n <= 7
    requires IsValidNetworkTag(tag) && |fcs| == 2 && NodeId(mac) != NodeId(localMac)
    ensures NodeId(mac) < 0x1_0000_0000
    ensures Hops(MessagePackets(env.crypto, env.master, tag, node, msgId, text)[i], n).Some?
    ensures var q, src := Hops(MessagePackets(env.crypto, env.master, tag, node, msgId, text)[i], n).value, NodeId(mac);
      && Wire.Receive(localMac, PhyFrame(mac, q, frameSeq)[..125] + fcs) == Some((src, q))
      && PktLine.ParsePktLineSpec(PktLine.PrintPktLine(src, q)) == Some(PktLine.ReceivedWirePacket(src, q))
      && Opened(env, src, q) == if src == node then Some(Piece(text, i)) else None
  {
    NodeIdFits(mac);
    OpensForSender(env, tag, node, msgId, text, i, n, NodeId(mac));
    FragmentTravels(env.crypto, env.master, tag, node, msgId, text, i, n);
    hide *;
    var q := Hops(MessagePackets(env.crypto, env.master, tag, node, msgId, text)[i], n).value;
    FrameReception(mac, localMac, q, frameSeq, fcs);
    PktLine.PktLineParses(NodeId(mac), q);
  }

  /** The payload is a chunk sealed by `node`. */
  ghost predicate SealedBy(env: Env, node: U32, payload: Payload) {
    exists id: U32, i: U8, plain: Plain :: payload == env.crypto.seal(At(env.crypto, env.master, node, id, i), plain)
  }

  lemma ForeignOutcome(s: Engine, env: Env, ev: Event, node: U32, k: MsgKey)
    requires env.crypto.Exclusive() && Separates(env.crypto, env.master) && k.src != node
    requires ev.Receive? && MsgKey(ev.src, ev.packet.header.msgId) == k && SealedBy(env, node, ev.packet.payload)
    ensures !Outcome(s, env, ev, k).Delivered?
  {
    var h := ev.packet.header;
    var id: U32, i: U8, plain: Plain :|
      ev.packet.payload == env.crypto.seal(At(env.crypto, env.master, node, id, i), plain);
    CoordinatesInjective(env.crypto, env.master, ev.src, h.msgId, h.chunkIdx, node, id, i);
    hide Purge;
    hide MakeRoom;
    hide Accept;
    hide At;
  }

  /** So a host that hears a sender through relays only never gets a text of that sender: whatever else its engine sees,
      chunks sealed by `node` and filed under another identifier deliver nothing. */
  lemma {:induction false} RelaysDeliverNothing(s: Engine, env: Env, node: U32, k: MsgKey, evs: seq<Event>)
    requires env.crypto.Exclusive() && Separates(env.crypto, env.master) && k.src != node
    requires forall ev <- evs | ev.Receive? && MsgKey(ev.src, ev.packet.header.msgId) == k ::
               SealedBy(env, node, ev.packet.payload)
    ensures Reassembly.Texts(s, env, evs, k) == []
    decreases |evs|
  {
    hide Step;
    hide SealedBy;
    if evs != [] {
      assert evs[0] in evs;
      if evs[0].Receive? && MsgKey(evs[0].src, evs[0].packet.header.msgId) == k {
        ForeignOutcome(s, env, evs[0], node, k);
      }
      RelaysDeliverNothing(Step(s, env, evs[0]), env, node, k, evs[1..]);
    }
  }

  // ---------------------------------------------------------------- SACKs in the mesh

  /** A SACK, after any of its hops, is new to a dongle, which then hands it to its host, if and only if the filter does
      not report chunk 0 of the message it asks for. */
  lemma SackIsNew(n: Mesh.Node, k: MsgKey, e: InFlight, local: U32, tag: U64, hops: nat, lqi: U8, random: U16)
    requires n.Valid() && IsValidNetworkTag(tag) && hops <= 5
    ensures Hops(SackPacket(k, e, local, tag), hops).Some?
    ensures var n' := Mesh.Hear(n, Hops(SackPacket(k, e, local, tag), hops).value, lqi, random);
      n'.inserted == if Dedup.Contains(n.inserted, PacketKey(k.msgId, 0)) then n.inserted
                     else n.inserted + [PacketKey(k.msgId, 0)]
  {
    Reassembly.SackTravels(k, e, local, tag, hops);
    var p, q := SackPacket(k, e, local, tag), Hops(SackPacket(k, e, local, tag), hops).value;
    assert !q.IsTelemetry() && q.Key() == PacketKey(k.msgId, 0) by {
      Mesh.SameFlags(q, p);
    }
    hide Dedup.Contains;
    hide SackPacket;
    hide Hops;
    hide MeshPacket.IsTelemetry;
  }

  /** In any run of a network, the dongle that was given a message to originate, up to 1024 inserted keys, swallows
      every SACK for that message: the SACK carries the deduplication key of chunk 0, so the caching host never sees it.
      */
  lemma SackSwallowed(nodes: nat, evs: seq<Mesh.Event>, j: nat, env: Env, text: Text, k: MsgKey, e: InFlight,
                      local: U32, tag: U64, hops: nat, lqi: U8, random: U16)
    requires j < nodes && IsValidNetworkTag(tag) && hops <= 5
    requires MessagePackets(env.crypto, env.master, tag, k.src, k.msgId, text) != []
    requires MessagePackets(env.crypto, env.master, tag, k.src, k.msgId, text)[0] in Mesh.Exec(nodes, evs)[j].injected
    requires |Mesh.Exec(nodes, evs)[j].inserted| < Mesh.SAFE_INSERTS
    ensures Hops(SackPacket(k, e, local, tag), hops).Some?
    ensures var n := Mesh.Exec(nodes, evs)[j];
      Mesh.Hear(n, Hops(SackPacket(k, e, local, tag), hops).value, lqi, random).inserted == n.inserted
  {
    var n := Mesh.Exec(nodes, evs)[j];
    var p := MessagePackets(env.crypto, env.master, tag, k.src, k.msgId, text)[0];
    assert p.Key() == PacketKey(k.msgId, 0);
    Mesh.OriginatedIsKnown(nodes, evs, j);
    assert p.Key() in n.inserted;
    hide *;
    Dedup.NothingForgotten(n.inserted, PacketKey(k.msgId, 0));
    SackIsNew(n, k, e, local, tag, hops, lqi, random);
  }
}
