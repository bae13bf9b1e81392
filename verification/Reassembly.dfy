/** One message followed through a run of the engine: reassembly in any order, and recovery by SACK. */
module Reassembly {
  import opened Bytes
  import opened Wire
  import opened Sack
  import opened Chunks
  import opened ChunkEngine
  import opened EngineRuns

  function Below(n: nat): (r: set<nat>)
    ensures forall i: nat :: i in r <==> i < n
  {
    if n == 0 then {} else Below(n - 1) + {n - 1}
  }

  /** A message by its key and its padded chunks. */
  datatype Message = Message(key: MsgKey, chunks: seq<Plain>) {
    predicate Valid() {
      0 < |chunks| <= 255
    }

    function All(): set<nat> {
      Below(|chunks|)
    }

    function ContentText(): Text {
      Assemble(chunks)
    }
  }

  /** `p` is chunk `i` of the message, sealed by its sender. The chunk count in its header is not authenticated: it may
      be any that the index is below. */
  predicate Genuine(env: Env, m: Message, p: MeshPacket, i: nat) {
    && i < |m.chunks| && i <= 255
    && p.header.msgId == m.key.msgId && p.header.chunkIdx == i < p.header.totalChunks
    && env.crypto.unseal(At(env.crypto, env.master, m.key.src, m.key.msgId, i), p.payload) == Some(m.chunks[i])
  }

  predicate ForMessage(m: Message, ev: Event) {
    ev.Receive? && MsgKey(ev.src, ev.packet.header.msgId) == m.key
  }

  predicate Supplies(env: Env, m: Message, ev: Event) {
    ForMessage(m, ev) && Genuine(env, m, ev.packet, ev.packet.header.chunkIdx)
  }

  /** The chunks gathered once the event is over. */
  function Gather(env: Env, m: Message, got: set<nat>, ev: Event): set<nat> {
    if Supplies(env, m, ev) then got + {ev.packet.header.chunkIdx as nat} else got
  }

  /** A packet under the message's key that the engine turns away. */
  predicate Bogus(env: Env, p: MeshPacket, src: U32) {
    || p.header.chunkIdx >= p.header.totalChunks
    || env.crypto.unseal(At(env.crypto, env.master, src, p.header.msgId, p.header.chunkIdx), p.payload) == None
  }

  /** The header's chunk count counts: it is the true one, or the packet is not the first of its message. */
  predicate CountFits(s: Engine, m: Message, p: MeshPacket) {
    p.header.totalChunks == |m.chunks| || m.key in s.inFlight || m.key in s.completed
  }

  /** The event neither times the message out nor evicts it nor forgets its completion, and if it carries the message's
      key it carries one of its packets, announcing the true chunk count if it is the first to arrive, or one that does
      not authenticate. */
  ghost predicate Tame(s: Engine, env: Env, m: Message, ev: Event) {
    && (ForMessage(m, ev) ==>
          (Supplies(env, m, ev) && CountFits(s, m, ev.packet)) || Bogus(env, ev.packet, ev.src))
    && (m.key in s.inFlight ==> m.key in Survivors(s, ev))
    && (m.key in s.completed && ev.Receive? ==> m.key in Purge(s, ev.now).completed)
  }

  ghost predicate Holds(e: InFlight, m: Message, got: set<nat>) {
    && e.totalChunks == |m.chunks| == |e.received|
    && forall i: nat | i < |m.chunks| :: e.received[i] == if i in got then Some(m.chunks[i]) else None
  }

  /** The engine has gathered exactly the chunks `got` of the message. */
  ghost predicate Progress(s: Engine, m: Message, got: set<nat>) {
    && got <= m.All()
    && if got == {} then m.key !in s.inFlight && m.key !in s.completed
       else if got == m.All() then m.key !in s.inFlight && m.key in s.completed
       else m.key in s.inFlight && m.key !in s.completed && Holds(s.inFlight[m.key], m, got)
  }

  /** What the supplying packet returns. */
  function Expected(env: Env, m: Message, got: set<nat>, got': set<nat>): IngestResult {
    if got != m.All() && got' == m.All() && env.utf8(m.ContentText()) then Delivered(m.ContentText()) else Buffered
  }

  /** A condition under which a message in flight survives a received packet: its last new chunk is less than ten
      seconds old, fewer than sixteen messages are in flight, and the packet comes from another sender or the sender has
      no second message. */
  lemma Spared(s: Engine, k: MsgKey, ev: Event)
    requires ev.Receive? && k in s.inFlight && Since(ev.now, s.inFlight[k].lastReceived) < REASSEMBLY_TIMEOUT
    requires |s.inFlight| < MAX_GLOBAL_IN_FLIGHT
    requires ev.src != k.src || |OfSender(s.inFlight, k.src)| < MAX_PER_SENDER_IN_FLIGHT
    ensures k in Survivors(s, ev)
  {
    var m, key := Purge(s, ev.now).inFlight, MsgKey(ev.src, ev.packet.header.msgId);
    var full := |OfSender(m, ev.src)| >= MAX_PER_SENDER_IN_FLIGHT;
    var m1 := if full then Without(m, Oldest(ev.order, m, Some(ev.src))) else m;
    SubsetSize(OfSender(m, ev.src), OfSender(s.inFlight, ev.src));
    SubsetSize(m1.Keys, s.inFlight.Keys);
    assert |m1| == |m1.Keys| && |s.inFlight| == |s.inFlight.Keys|;
    hide Purge;
    hide Oldest;
  }

  // ---------------------------------------------------------------- one event

  lemma StoreHolds(e: InFlight, m: Message, got: set<nat>, i: nat, now: nat)
    requires Holds(e, m, got) && i < |m.chunks|
    ensures Holds(Store(e, i, m.chunks[i], now), m, got + {i})
  {
  }

  lemma CompleteIffAll(e: InFlight, m: Message, got: set<nat>)
    requires Holds(e, m, got) && got <= m.All()
    ensures Complete(e.received) <==> got == m.All()
    ensures got == m.All() ==> Filled(e.received) == m.chunks
  {
    if Complete(e.received) {
      forall i: nat | i < |m.chunks| ensures i in got {
        assert e.received[i].Some?;
      }
      assert got == m.All();
    }
  }

  lemma BlankHolds(m: Message, now: nat)
    ensures Holds(InFlight(|m.chunks|, Blank(|m.chunks|), now, now, None, 0), m, {})
  {
  }

  lemma HoldsLength(e: InFlight, m: Message, got: set<nat>)
    requires Holds(e, m, got)
    ensures |e.received| == |m.chunks|
  {
  }

  /** Accepting chunk `i` of a message that is not complete yet. */
  lemma AcceptProgress(s: Engine, env: Env, m: Message, got: set<nat>, total: nat, i: nat, now: nat)
    requires m.Valid() && Progress(s, m, got) && got != m.All() && i < |m.chunks|
    requires total == |m.chunks| || m.key in s.inFlight
    ensures var (s', r) := Accept(s, env, m.key, total, i, m.chunks[i], now);
      Progress(s', m, got + {i}) && r == Expected(env, m, got, got + {i})
  {
    hide Complete;
    hide Filled;
    hide Assemble;
    hide Holds;
    BlankHolds(m, now);
    var e := Entry(s, m.key, total, now);
    assert got + {i} != {};
    assert Holds(e, m, got);
    HoldsLength(e, m, got);
    StoreHolds(e, m, got, i, now);
    CompleteIffAll(Store(e, i, m.chunks[i], now), m, got + {i});
  }

  /** Timing out and evicting others leaves the message alone. */
  lemma SurvivorProgress(s: Engine, env: Env, m: Message, got: set<nat>, ev: Event)
    requires m.Valid() && Progress(s, m, got) && Tame(s, env, m, ev) && ev.Receive?
    ensures Progress(Purge(s, ev.now), m, got)
    ensures var s1, k := Purge(s, ev.now), MsgKey(ev.src, ev.packet.header.msgId);
      Opens(s1, k, ev.packet.header) ==> Progress(MakeRoom(s1, k, ev.order), m, got)
  {
    hide Holds;
    hide Oldest;
    var s1, k := Purge(s, ev.now), MsgKey(ev.src, ev.packet.header.msgId);
    RoomKeepsEntries(s1, k, ev.order);
    RoomKeepsCaches(s1, k, ev.order);
    hide MakeRoom;
  }

  lemma AllNotEmpty(m: Message)
    requires m.Valid()
    ensures m.All() != {}
  {
    assert 0 in m.All();
  }

  /** A duplicate of a completed message is dropped. */
  lemma DuplicateDropped(s: Engine, env: Env, m: Message, ev: Event)
    requires m.Valid() && Progress(s, m, m.All()) && Tame(s, env, m, ev) && Supplies(env, m, ev)
    ensures Progress(Step(s, env, ev), m, m.All()) && Outcome(s, env, ev, m.key) == Buffered
  {
    SurvivorProgress(s, env, m, m.All(), ev);
    AllNotEmpty(m);
    hide Holds;
    hide Accept;
    hide Purge;
    hide MakeRoom;
  }

  lemma NotCompleted(s: Engine, m: Message, got: set<nat>)
    requires Progress(s, m, got) && got != m.All()
    ensures m.key !in s.completed
  {
  }

  /** A supplying packet of an incomplete message reaches `Accept`. */
  lemma SupplyIsAccepted(s: Engine, env: Env, m: Message, ev: Event)
    requires m.Valid() && Supplies(env, m, ev) && m.key !in Purge(s, ev.now).completed
    ensures var i, total := ev.packet.header.chunkIdx, ev.packet.header.totalChunks;
      Ingest(s, env, ev.src, ev.packet, ev.now, ev.order)
        == Accept(MakeRoom(Purge(s, ev.now), m.key, ev.order), env, m.key, total, i, m.chunks[i], ev.now)
  {
    hide Purge;
    hide MakeRoom;
    hide Accept;
  }

  lemma CountStillFits(s: Engine, env: Env, m: Message, got: set<nat>, ev: Event)
    requires m.Valid() && Progress(s, m, got) && got != m.All() && Tame(s, env, m, ev) && Supplies(env, m, ev)
    ensures var s2 := MakeRoom(Purge(s, ev.now), m.key, ev.order);
      ev.packet.header.totalChunks == |m.chunks| || m.key in s2.inFlight
  {
    NotCompleted(s, m, got);
    NotCompleted(Purge(s, ev.now), m, got) by {
      SurvivorProgress(s, env, m, got, ev);
    }
    hide Progress;
    hide Purge;
    hide MakeRoom;
  }

  lemma SupplyProgress(s: Engine, env: Env, m: Message, got: set<nat>, ev: Event)
    requires m.Valid() && Progress(s, m, got) && Tame(s, env, m, ev) && Supplies(env, m, ev)
    ensures var got' := Gather(env, m, got, ev);
      Progress(Step(s, env, ev), m, got') && Outcome(s, env, ev, m.key) == Expected(env, m, got, got')
  {
    var i: nat := ev.packet.header.chunkIdx;
    if got == m.All() {
      DuplicateDropped(s, env, m, ev);
      assert got + {i} == got;
    } else {
      SurvivorProgress(s, env, m, got, ev);
      NotCompleted(Purge(s, ev.now), m, got);
      SupplyIsAccepted(s, env, m, ev);
      CountStillFits(s, env, m, got, ev);
      var s2 := MakeRoom(Purge(s, ev.now), m.key, ev.order);
      AcceptProgress(s2, env, m, got, ev.packet.header.totalChunks, i, ev.now);
      hide Ingest;
      hide Progress;
      hide Tame;
      hide Accept;
      hide Purge;
      hide MakeRoom;
    }
  }

  lemma AcceptOther(s: Engine, env: Env, m: Message, got: set<nat>, k: MsgKey, total: nat, i: nat, plain: Plain,
                    now: nat)
    requires Progress(s, m, got) && k != m.key
    ensures Progress(Accept(s, env, k, total, i, plain, now).0, m, got)
  {
    hide Holds;
    hide Assemble;
    hide Complete;
    hide Store;
  }

  /** A packet of another message, or one that is turned away, changes nothing for this one. */
  lemma OtherProgress(s: Engine, env: Env, m: Message, got: set<nat>, ev: Event)
    requires m.Valid() && Progress(s, m, got) && Tame(s, env, m, ev) && ev.Receive? && !Supplies(env, m, ev)
    ensures Progress(Step(s, env, ev), m, got) && !Outcome(s, env, ev, m.key).Delivered?
  {
    SurvivorProgress(s, env, m, got, ev);
    var h, k := ev.packet.header, MsgKey(ev.src, ev.packet.header.msgId);
    var plain := env.crypto.unseal(At(env.crypto, env.master, ev.src, h.msgId, h.chunkIdx), ev.packet.payload);
    if k != m.key && plain.Some? && Opens(Purge(s, ev.now), k, h) {
      var s2 := MakeRoom(Purge(s, ev.now), k, ev.order);
      AcceptOther(s2, env, m, got, k, h.totalChunks, h.chunkIdx, plain.value, ev.now);
    }
    hide Progress;
    hide Purge;
    hide MakeRoom;
    hide Accept;
  }

  /** The polls and suppressions of the SACK machinery touch timers only. */
  lemma TimerProgress(s: Engine, env: Env, m: Message, got: set<nat>, ev: Event)
    requires m.Valid() && Progress(s, m, got) && !ev.Receive?
    ensures Progress(Step(s, env, ev), m, got) && !Outcome(s, env, ev, m.key).Delivered?
  {
  }

  /** Every event advances the message by exactly the chunk it supplies, and the text comes out exactly at the packet
      that supplies the last missing chunk. */
  lemma ProgressStep(s: Engine, env: Env, m: Message, got: set<nat>, ev: Event)
    requires m.Valid() && Progress(s, m, got) && Tame(s, env, m, ev)
    ensures var got' := Gather(env, m, got, ev);
      && Progress(Step(s, env, ev), m, got')
      && (Outcome(s, env, ev, m.key).Delivered? <==> got != m.All() && got' == m.All() && env.utf8(m.ContentText()))
      && (Outcome(s, env, ev, m.key).Delivered? ==> Outcome(s, env, ev, m.key).text == m.ContentText())
  {
    if Supplies(env, m, ev) {
      SupplyProgress(s, env, m, got, ev);
    } else if ev.Receive? {
      OtherProgress(s, env, m, got, ev);
    } else {
      TimerProgress(s, env, m, got, ev);
    }
  }

  // ---------------------------------------------------------------- runs

  function Run(s: Engine, env: Env, evs: seq<Event>): Engine
    decreases |evs|
  {
    if evs == [] then s else Run(Step(s, env, evs[0]), env, evs[1..])
  }

  ghost predicate TameRun(s: Engine, env: Env, m: Message, evs: seq<Event>)
    decreases |evs|
  {
    evs == [] || (Tame(s, env, m, evs[0]) && TameRun(Step(s, env, evs[0]), env, m, evs[1..]))
  }

  function GatherAll(env: Env, m: Message, got: set<nat>, evs: seq<Event>): set<nat>
    decreases |evs|
  {
    if evs == [] then got else GatherAll(env, m, Gather(env, m, got, evs[0]), evs[1..])
  }

  /** The texts delivered for message `k`, in order. */
  function Texts(s: Engine, env: Env, evs: seq<Event>, k: MsgKey): seq<Text>
    decreases |evs|
  {
    if evs == [] then []
    else
      var r := Outcome(s, env, evs[0], k);
      (if r.Delivered? then [r.text] else []) + Texts(Step(s, env, evs[0]), env, evs[1..], k)
  }

  lemma ProgressBounded(s: Engine, m: Message, got: set<nat>)
    requires Progress(s, m, got)
    ensures got <= m.All()
  {
  }

  lemma {:induction false} GatherBounded(env: Env, m: Message, got: set<nat>, evs: seq<Event>)
    ensures got <= GatherAll(env, m, got, evs)
    decreases |evs|
  {
    if evs != [] {
      GatherBounded(env, m, Gather(env, m, got, evs[0]), evs[1..]);
    }
  }

  /** Over any tame run, whatever the order, the duplicates and the other traffic, the message is delivered once if its
      last missing chunk arrives and not at all otherwise. */
  lemma {:induction false} RunProgress(s: Engine, env: Env, m: Message, got: set<nat>, evs: seq<Event>)
    requires m.Valid() && Progress(s, m, got) && TameRun(s, env, m, evs)
    ensures var got' := GatherAll(env, m, got, evs);
      && Progress(Run(s, env, evs), m, got')
      && Texts(s, env, evs, m.key)
           == if got != m.All() && got' == m.All() && env.utf8(m.ContentText()) then [m.ContentText()] else []
    decreases |evs|
  {
    if evs != [] {
      hide Step;
      hide Outcome;
      hide Progress;
      hide Tame;
      ProgressStep(s, env, m, got, evs[0]);
      var got1 := Gather(env, m, got, evs[0]);
      RunProgress(Step(s, env, evs[0]), env, m, got1, evs[1..]);
      GatherBounded(env, m, got1, evs[1..]);
      ProgressBounded(s, m, got);
      ProgressBounded(Run(s, env, evs), m, GatherAll(env, m, got, evs));
    }
  }

  lemma {:induction false} GatherWithin(env: Env, m: Message, got: set<nat>, evs: seq<Event>)
    requires got <= m.All()
    ensures GatherAll(env, m, got, evs) <= m.All()
    decreases |evs|
  {
    if evs != [] {
      GatherWithin(env, m, Gather(env, m, got, evs[0]), evs[1..]);
    }
  }

  lemma {:induction false} GatherEach(env: Env, m: Message, got: set<nat>, evs: seq<Event>, j: nat)
    requires j < |evs| && Supplies(env, m, evs[j])
    ensures evs[j].packet.header.chunkIdx as nat in GatherAll(env, m, got, evs)
    decreases |evs|
  {
    if j == 0 {
      GatherBounded(env, m, Gather(env, m, got, evs[0]), evs[1..]);
    } else {
      GatherEach(env, m, Gather(env, m, got, evs[0]), evs[1..], j - 1);
    }
  }

  // ---------------------------------------------------------------- fragment, then reassemble

  /** The message a text becomes under a counter issued to its sender. */
  function MessageOf(node: U32, msgId: U32, text: Text): Message {
    Message(MsgKey(node, msgId), Pieces(text, NumChunks(text)))
  }

  lemma FragmentsGenuine(env: Env, tag: U64, node: U32, msgId: U32, text: Text, i: nat)
    requires env.crypto.Correct() && NumChunks(text) <= 255 && i < NumChunks(text)
    ensures var packets := MessagePackets(env.crypto, env.master, tag, node, msgId, text);
      |packets| == NumChunks(text) && Genuine(env, MessageOf(node, msgId, text), packets[i], i)
  {
  }

  lemma TextNotEmpty(text: Text)
    ensures text != [] <==> NumChunks(text) > 0
  {
  }

  /** Some event hands the engine this packet from this sender. */
  ghost predicate Ingested(evs: seq<Event>, src: U32, p: MeshPacket) {
    exists j :: 0 <= j < |evs| && evs[j].Receive? && evs[j].src == src && evs[j].packet == p
  }

  lemma IngestedGathered(env: Env, m: Message, got: set<nat>, evs: seq<Event>, p: MeshPacket, i: nat)
    requires Genuine(env, m, p, i) && Ingested(evs, m.key.src, p)
    ensures i in GatherAll(env, m, got, evs)
  {
    var j :| 0 <= j < |evs| && evs[j].Receive? && evs[j].src == m.key.src && evs[j].packet == p;
    GatherEach(env, m, got, evs, j);
  }

  /** A surviving text is the content of its message. */
  lemma MessageShape(node: U32, msgId: U32, text: Text)
    requires text != [] && NumChunks(text) <= 255 && text[|text| - 1] != 0
    ensures var m := MessageOf(node, msgId, text);
      m.Valid() && m.key == MsgKey(node, msgId) && m.ContentText() == text && m.All() != {}
  {
    TextNotEmpty(text);
    SurvivingTexts(text);
    var m := MessageOf(node, msgId, text);
    hide Assemble;
    hide NumChunks;
    assert 0 in m.All();
  }

  lemma FragmentsGather(env: Env, tag: U64, node: U32, msgId: U32, text: Text, evs: seq<Event>)
    requires env.crypto.Correct() && NumChunks(text) <= 255
    requires forall p <- MessagePackets(env.crypto, env.master, tag, node, msgId, text) :: Ingested(evs, node, p)
    ensures GatherAll(env, MessageOf(node, msgId, text), {}, evs) == MessageOf(node, msgId, text).All()
  {
    var m, n := MessageOf(node, msgId, text), NumChunks(text);
    var packets := MessagePackets(env.crypto, env.master, tag, node, msgId, text);
    forall i: nat | i < n ensures i in GatherAll(env, m, {}, evs) {
      FragmentsGenuine(env, tag, node, msgId, text, i);
      assert packets[i] in packets;
      IngestedGathered(env, m, {}, evs, packets[i], i);
    }
    GatherWithin(env, m, {}, evs);
  }

  /** Fragment then reassemble is the identity: for every text of at most 255 chunks that does not end in NUL, ingesting
      all its packets in any order, with duplicates and interleaved with any other traffic that neither evicts nor
      times it out, delivers the text, once. */
  lemma FragmentThenReassemble(s: Engine, env: Env, tag: U64, node: U32, msgId: U32, text: Text, evs: seq<Event>)
    requires env.crypto.Correct() && env.utf8(text)
    requires text != [] && NumChunks(text) <= 255 && text[|text| - 1] != 0
    requires var m := MessageOf(node, msgId, text);
      m.key !in s.inFlight && m.key !in s.completed && TameRun(s, env, m, evs)
    requires forall p <- MessagePackets(env.crypto, env.master, tag, node, msgId, text) :: Ingested(evs, node, p)
    ensures Texts(s, env, evs, MsgKey(node, msgId)) == [text]
  {
    var m := MessageOf(node, msgId, text);
    MessageShape(node, msgId, text);
    FragmentsGather(env, tag, node, msgId, text, evs);
    hide Genuine;
    hide Ingested;
    hide TameRun;
    hide MessagePackets;
    hide GatherAll;
    hide MessageOf;
    hide NumChunks;
    assert Progress(s, m, {});
    RunProgress(s, env, m, {}, evs);
  }

  // ---------------------------------------------------------------- recovery by SACK

  /** The mask built from the received chunks names exactly the gaps among the first `n`. */
  lemma {:induction false} GapsMeaning(node: U32, src: U32, received: seq<Option<Plain>>, n: nat, i: nat)
    requires n <= |received| <= WINDOW
    ensures var info := Gaps(node, src, received, n);
      info.baseChunk == 0 && info.receiverNodeId == node && info.senderNodeId == src
    ensures IsMissing(Gaps(node, src, received, n), i) <==> i < n && received[i].None?
  {
    if n == 0 {
      if i < WINDOW {
        ZeroBit(i % 8);
      }
    } else {
      GapsMeaning(node, src, received, n - 1, i);
      if received[n - 1].None? {
        MarksAreASet(Gaps(node, src, received, n - 1), n - 1, i);
      }
    }
  }

  /** `l` lists the chunks of the message that are not in `got`, in ascending order. */
  ghost predicate ListsMissing(l: seq<nat>, m: Message, got: set<nat>) {
    Ascending(l) && forall i: nat :: i in l <==> i < |m.chunks| && i !in got
  }

  /** The SACK built for a message names its sender, the asking node and exactly the missing chunks. */
  lemma SackListsMissing(e: InFlight, m: Message, got: set<nat>, node: U32, tag: U64)
    requires m.Valid() && Holds(e, m, got)
    ensures ListsMissing(MissingList(DecodeSack(SackPacket(m.key, e, node, tag).payload)), m, got)
    ensures var info := DecodeSack(SackPacket(m.key, e, node, tag).payload);
      info.receiverNodeId == node && info.senderNodeId == m.key.src && info.baseChunk == 0
  {
    var info := Gaps(node, m.key.src, e.received, |e.received|);
    SackDecodes(info);
    MissingListMeaning(info);
    GapsMeaning(node, m.key.src, e.received, |e.received|, 0);
    hide Gaps;
    hide IsMissing;
    forall i: nat ensures i in MissingList(info) <==> i < |m.chunks| && i !in got {
      GapsMeaning(node, m.key.src, e.received, |e.received|, i);
    }
  }

  predicate Within(l: seq<nat>, n: nat) {
    forall j | 0 <= j < |l| :: l[j] < n
  }

  lemma {:induction false} SelectedAll(packets: seq<MeshPacket>, l: seq<nat>)
    requires Within(l, |packets|)
    ensures |Selected(packets, l)| == |l|
    ensures forall j | 0 <= j < |l| :: Selected(packets, l)[j] == packets[l[j]]
  {
    if l != [] {
      var n := |l| - 1;
      SelectedAll(packets, l[..n]);
    }
  }

  /** The caching sender's answer to the SACK the receiver sends for entry `e`, after the wire and `hops` relays. */
  function Answer(t: Engine, k: MsgKey, e: InFlight, local: U32, tag: U64, hops: nat): seq<MeshPacket> {
    match Hops(SackPacket(k, e, local, tag), hops)
    case None => []
    case Some(p) => HandleSack(t, DecodePacket(EncodePacket(p)))
  }

  lemma MissingWithin(l: seq<nat>, m: Message, got: set<nat>)
    requires ListsMissing(l, m, got)
    ensures Within(l, |m.chunks|)
  {
    assert forall j | 0 <= j < |l| :: l[j] in l;
  }

  /** How a SACK travels: over exactly five hops, as a SACK packet that dongles relay, under the tag and id of the
      message it asks for. */
  lemma SackTravels(k: MsgKey, e: InFlight, node: U32, tag: U64, n: nat)
    ensures var p := SackPacket(k, e, node, tag);
      && p.HasFlag(FLAG_SACK) && !p.IsTelemetry() && (Hops(p, n).Some? <==> n <= 5)
      && (n <= 5 ==>
            Hops(p, n) == Some(MeshPacket(
              MeshHeader(tag, k.msgId, 0, e.totalChunks % 256, 5 - n, n, p.header.flags), p.payload)))
  {
    HopsExactly(SackPacket(k, e, node, tag), n);
    hide Gaps;
    hide EncodeSack;
  }

  /** A sender that cached the message answers the SACK, as it arrives over the wire after up to five hops, with exactly
      the missing packets in ascending order. */
  lemma SackAnswered(t: Engine, e: InFlight, m: Message, got: set<nat>, packets: seq<MeshPacket>, node: U32, tag: U64,
                     hops: nat)
    requires m.Valid() && Holds(e, m, got) && hops <= 5
    requires m.key.msgId in t.outbox && t.outbox[m.key.msgId].packets == packets && |packets| == |m.chunks|
    ensures var l := MissingList(DecodeSack(SackPacket(m.key, e, node, tag).payload));
      && ListsMissing(l, m, got) && Within(l, |packets|)
      && Answer(t, m.key, e, node, tag, hops) == Selected(packets, l)
  {
    var p := SackPacket(m.key, e, node, tag);
    SackTravels(m.key, e, node, tag, hops);
    PacketDecodes(Hops(p, hops).value);
    hide Hops;
    SackListsMissing(e, m, got, node, tag);
    hide EncodePacket;
    hide DecodePacket;
    hide EncodeSack;
    hide DecodeSack;
    hide Gaps;
    hide MissingList;
    hide Selected;
    hide Holds;
    MissingWithin(MissingList(DecodeSack(p.payload)), m, got);
    hide ListsMissing;
    hide Within;
  }

  lemma PollProgress(s: Engine, env: Env, m: Message, got: set<nat>, poll: Event)
    requires m.Valid() && Progress(s, m, got) && poll.Poll?
    ensures Progress(Step(s, env, poll), m, got)
  {
    TimerProgress(s, env, m, got, poll);
  }

  ghost predicate AnswersMissing(answer: seq<MeshPacket>, packets: seq<MeshPacket>, m: Message, got: set<nat>) {
    exists l :: ListsMissing(l, m, got) && Within(l, |packets|) && answer == Selected(packets, l)
  }

  lemma CachedLength(env: Env, tag: U64, text: Text, k: MsgKey)
    requires NumChunks(text) <= 255
    ensures |MessagePackets(env.crypto, env.master, tag, k.src, k.msgId, text)|
         == |MessageOf(k.src, k.msgId, text).chunks|
  {
  }

  lemma InProgress(s: Engine, m: Message, got: set<nat>)
    requires Progress(s, m, got) && got != {} && got != m.All()
    ensures m.key in s.inFlight && Holds(s.inFlight[m.key], m, got) && got <= m.All()
  {
  }

  lemma RecoveryGathers(env: Env, tag: U64, text: Text, k: MsgKey, got: set<nat>, answer: seq<MeshPacket>,
                        evs: seq<Event>)
    requires env.crypto.Correct() && NumChunks(text) <= 255
    requires got <= MessageOf(k.src, k.msgId, text).All()
    requires AnswersMissing(answer, MessagePackets(env.crypto, env.master, tag, k.src, k.msgId, text),
                            MessageOf(k.src, k.msgId, text), got)
    requires forall p <- answer :: Ingested(evs, k.src, p)
    ensures GatherAll(env, MessageOf(k.src, k.msgId, text), got, evs) == MessageOf(k.src, k.msgId, text).All()
  {
    var m := MessageOf(k.src, k.msgId, text);
    var packets := MessagePackets(env.crypto, env.master, tag, k.src, k.msgId, text);
    var l :| ListsMissing(l, m, got) && Within(l, |packets|) && answer == Selected(packets, l);
    SelectedAll(packets, l);
    GatherBounded(env, m, got, evs);
    GatherWithin(env, m, got, evs);
    hide MessagePackets;
    hide Genuine;
    hide Ingested;
    hide GatherAll;
    forall i | i in m.All() ensures i in GatherAll(env, m, got, evs) {
      if i !in got {
        FragmentsGenuine(env, tag, k.src, k.msgId, text, i);
        var j :| 0 <= j < |l| && l[j] == i;
        assert answer[j] == packets[i] && answer[j] in answer;
        IngestedGathered(env, m, got, evs, packets[i], i);
      }
    }
  }

  /** SACK recovery completes a message: when a receiver holding some but not all chunks polls and a SACK is due, the
      poll sends one; the caching sender, if reached within five hops, answers it with exactly the missing packets in
      ascending order; and once the receiver has ingested the answer, in any order and among any tame traffic, the
      original text is delivered, once. */
  lemma SackRecovery(s: Engine, t: Engine, env: Env, tag: U64, text: Text, k: MsgKey, got: set<nat>, poll: Event,
                     local: U32, hops: nat, evs: seq<Event>)
    requires env.crypto.Correct() && env.utf8(text) && hops <= 5
    requires text != [] && NumChunks(text) <= 255 && text[|text| - 1] != 0
    requires var m := MessageOf(k.src, k.msgId, text);
      && Progress(s, m, got) && got != {} && got != m.All()
      && poll.Poll? && Orderly(s, poll) && SackDue(s.inFlight[k], poll.now)
      && TameRun(Step(s, env, poll), env, m, evs)
    requires k.msgId in t.outbox
    requires t.outbox[k.msgId].packets == MessagePackets(env.crypto, env.master, tag, k.src, k.msgId, text)
    requires forall p <- Answer(t, k, s.inFlight[k], local, tag, hops) :: Ingested(evs, k.src, p)
    ensures k in DueKeys(poll.order, s.inFlight, poll.now)
    ensures AnswersMissing(Answer(t, k, s.inFlight[k], local, tag, hops), t.outbox[k.msgId].packets,
                           MessageOf(k.src, k.msgId, text), got)
    ensures Texts(Step(s, env, poll), env, evs, k) == [text]
  {
    hide Progress;
    hide Genuine;
    hide Ingested;
    hide TameRun;
    hide MessagePackets;
    hide GatherAll;
    hide MessageOf;
    hide NumChunks;
    hide Step;
    hide SackPacket;
    hide HandleSack;
    hide Holds;
    hide DecodePacket;
    hide EncodePacket;
    hide SackDue;
    var m, packets := MessageOf(k.src, k.msgId, text), t.outbox[k.msgId].packets;
    MessageShape(k.src, k.msgId, text);
    PollAsks(s, poll, k);
    CachedLength(env, tag, text, k);
    InProgress(s, m, got);
    SackAnswered(t, s.inFlight[k], m, got, packets, local, tag, hops);
    PollProgress(s, env, m, got, poll);
    var answer := Answer(t, k, s.inFlight[k], local, tag, hops);
    assert AnswersMissing(answer, packets, m, got);
    RecoveryGathers(env, tag, text, k, got, answer, evs);
    RunProgress(Step(s, env, poll), env, m, got, evs);
  }
}
