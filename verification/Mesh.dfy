/** Flooding over a network of dongles: each node's receive, inject and transmit steps, and what they add up to. */
module Mesh {
  import opened Bytes
  import opened Wire
  import opened TxQueue
  import Dedup
  import Scheduling
  import Tdm

  const MIN_RELAY_LQI: U8 := 30
  const INJECT_JITTER: U16 := 15

  /** The most inserts that leave a node certain not to relay a packet twice: up to the 1025th, every lookup was
      answered by a filter that still held all earlier inserts. */
  const SAFE_INSERTS := 2 * Dedup.EPOCH_THRESHOLD + 1

  function RelayBase(lqi: U8): U16 {
    15 + ((255 - lqi) * 35) / 255
  }

  function RelayJitter(lqi: U8, random: U16): U16 {
    RelayBase(lqi) + random % 15
  }

  /** Links of different quality and different random draws get different delays: a link at least eight better has a
      shorter base, from 50 ms on the worst link down to 15 ms on the best, and each of fifteen draws another delay. */
  lemma RelayJitterSpreads(lqi: U8, weaker: U8, random: U16, other: U16)
    ensures RelayBase(0) == 50 && RelayBase(255) == 15 && (weaker + 8 <= lqi ==> RelayBase(lqi) < RelayBase(weaker))
    ensures RelayJitter(lqi, random) == RelayJitter(lqi, other) <==> random % 15 == other % 15
  {
  }

  /** Relay delays lie between 15 and 64 ms, and a stronger link never has the larger base delay. */
  lemma RelayJitterRange(lqi: U8, weaker: U8, random: U16)
    requires weaker <= lqi
    ensures 15 <= RelayJitter(lqi, random) <= 64
    ensures RelayBase(lqi) <= RelayBase(weaker)
  {
  }

  // ---------------------------------------------------------------- one node

  /** Filter inserts so far, the transmit queue, and what the node sent over the air, was given to originate, and
      scheduled as a relay. */
  datatype Node = Node(inserted: seq<PacketKey>, queue: Queue<MeshPacket>, sent: seq<MeshPacket>,
                       injected: seq<MeshPacket>, relayed: seq<MeshPacket>) {
    predicate Valid() {
      |queue.slots| <= CAPACITY
    }
  }

  const FRESH := Node([], EMPTY, [], [], [])

  /** A packet from the host or the button. */
  function Inject(n: Node, p: MeshPacket): Node
    requires n.Valid()
  {
    if IsValidNetworkTag(p.header.networkTag) then
      n.(inserted := n.inserted + [p.Key()], queue := Schedule(n.queue, p, INJECT_JITTER), injected := n.injected + [p])
    else n
  }

  /** Overhearing a packet cancels our own pending copy of it. */
  function Cancel(n: Node, p: MeshPacket): (r: Node)
    ensures n.Valid() ==> r.Valid()
  {
    n.(queue := Overhear(n.queue, HasKey(p.Key())).0)
  }

  /** First sight of a packet: remember it and relay it if the link is good and it has hops left. */
  function HearNew(n: Node, p: MeshPacket, lqi: U8, random: U16): (r: Node)
    requires n.Valid()
    ensures r.Valid()
  {
    var seen := Cancel(n, p).(inserted := n.inserted + [p.Key()]);
    var next := DecrementTtl(p);
    if lqi >= MIN_RELAY_LQI && next.Some? then
      seen.(queue := Schedule(seen.queue, next.value, RelayJitter(lqi, random)), relayed := n.relayed + [next.value])
    else seen
  }

  /** A frame heard with link quality `lqi`. */
  function Hear(n: Node, p: MeshPacket, lqi: U8, random: U16): (r: Node)
    requires n.Valid()
    ensures r.Valid()
  {
    if !IsValidNetworkTag(p.header.networkTag) || p.IsTelemetry() then n
    else if Dedup.Contains(n.inserted, p.Key()) then Cancel(n, p)
    else HearNew(n, p, lqi, random)
  }

  /** One mesh slot; `ok` tells whether the radio accepts the frame. */
  function Serve(n: Node, ok: bool): Node {
    var (q, r) := Service(n.queue, Tdm.LOOP_MS);
    n.(queue := q, sent := if r.Some? && ok then n.sent + [r.value] else n.sent)
  }

  function EmitTelemetry(n: Node, p: MeshPacket, jitter: U16): Node
    requires n.Valid()
  {
    if p.IsTelemetry() then n.(queue := ScheduleTelemetry(n.queue, p, jitter, TelemetryTest()).0) else n
  }

  /** What a node was given to originate or has already heard it never relays (again). */
  lemma SeenNeverRelayed(n: Node, p: MeshPacket, lqi: U8, random: U16)
    requires n.Valid() && p.Key() in n.inserted && |n.inserted| < SAFE_INSERTS
    ensures Hear(n, p, lqi, random).relayed == n.relayed && Hear(n, p, lqi, random).inserted == n.inserted
    ensures forall q: MeshPacket | IsValidNetworkTag(q.header.networkTag) :: q.Key() in Inject(n, q).inserted
  {
    Dedup.NothingForgotten(n.inserted, p.Key());
    hide Dedup.Contains;
    hide FirstMatch;
  }

  // ---------------------------------------------------------------- the network

  /** Events name nodes by index; `Deliver` lets any node hear, any number of times, anything another one ever sent. */
  datatype Event =
    | Originate(node: nat, packet: MeshPacket)
    | Slot(node: nat, ok: bool)
    | Deliver(node: nat, sender: nat, index: nat, lqi: U8, random: U16)
    | Report(node: nat, packet: MeshPacket, jitter: U16)

  type Network = seq<Node>

  ghost predicate ValidNetwork(net: Network) {
    forall i | 0 <= i < |net| :: net[i].Valid()
  }

  function StepNode(net: Network, ev: Event): Node
    requires ev.node < |net| && net[ev.node].Valid()
  {
    var n := net[ev.node];
    match ev
    case Originate(_, p) => Inject(n, p)
    case Slot(_, ok) => Serve(n, ok)
    case Deliver(_, sender, index, lqi, random) =>
      if sender < |net| && sender != ev.node && index < |net[sender].sent|
      then Hear(n, net[sender].sent[index], lqi, random) else n
    case Report(_, p, jitter) => EmitTelemetry(n, p, jitter)
  }

  lemma StepNodeValid(net: Network, ev: Event)
    requires ev.node < |net| && net[ev.node].Valid()
    ensures StepNode(net, ev).Valid()
  {
    hide Dedup.Contains;
    hide FirstMatch;
    hide TakePending;
    hide UserPending;
    var m := Scheduling.TakeShape(Tick(net[ev.node].queue, Tdm.LOOP_MS).0);
  }

  /** The network after a run of events. */
  function After(net: Network, evs: seq<Event>): (net': Network)
    requires ValidNetwork(net)
    ensures |net'| == |net| && ValidNetwork(net')
  {
    if evs == [] then net
    else
      var before, ev := After(net, evs[..|evs| - 1]), evs[|evs| - 1];
      if ev.node < |net| then
        StepNodeValid(before, ev);
        before[ev.node := StepNode(before, ev)]
      else before
  }

  /** A run of a network of fresh nodes. */
  function Exec(nodes: nat, evs: seq<Event>): (net: Network)
    ensures |net| == nodes && ValidNetwork(net)
  {
    After(seq(nodes, _ => FRESH), evs)
  }

  // ---------------------------------------------------------------- counting copies

  predicate IsCopy(p: MeshPacket, k: PacketKey) {
    !p.IsTelemetry() && p.Key() == k
  }

  function Copies(ps: seq<MeshPacket>, k: PacketKey): nat {
    if ps == [] then 0 else Copies(ps[..|ps| - 1], k) + if IsCopy(ps[|ps| - 1], k) then 1 else 0
  }

  function Waiting(slots: seq<Option<MeshPacket>>, k: PacketKey): nat {
    if slots == [] then 0
    else (if slots[0].Some? && IsCopy(slots[0].value, k) then 1 else 0) + Waiting(slots[1..], k)
  }

  lemma CopiesSnoc(ps: seq<MeshPacket>, p: MeshPacket, k: PacketKey)
    ensures Copies(ps + [p], k) == Copies(ps, k) + if IsCopy(p, k) then 1 else 0
  {
    assert (ps + [p])[..|ps|] == ps;
  }

  lemma {:induction false} WaitingConcat(a: seq<Option<MeshPacket>>, b: seq<Option<MeshPacket>>, k: PacketKey)
    ensures Waiting(a + b, k) == Waiting(a, k) + Waiting(b, k)
  {
    if a == [] {
      assert a + b == b;
    } else {
      WaitingConcat(a[1..], b, k);
      assert (a + b)[1..] == a[1..] + b;
    }
  }

  lemma {:induction false} WaitingHoles(slots: seq<Option<MeshPacket>>, k: PacketKey)
    requires forall i | 0 <= i < |slots| :: slots[i].None?
    ensures Waiting(slots, k) == 0
  {
    if slots != [] {
      WaitingHoles(slots[1..], k);
    }
  }

  lemma WaitingOne(x: Option<MeshPacket>, k: PacketKey)
    ensures Waiting([x], k) == if x.Some? && IsCopy(x.value, k) then 1 else 0
  {
    assert [x][1..] == [];
  }

  lemma WaitingSchedule(q: Queue<MeshPacket>, p: MeshPacket, jitter: U16, k: PacketKey)
    requires |q.slots| <= CAPACITY
    ensures Waiting(Schedule(q, p, jitter).slots, k) <= Waiting(q.slots, k) + if IsCopy(p, k) then 1 else 0
  {
    var kept := if |q.slots| < CAPACITY then q.slots else q.slots[1..];
    WaitingConcat(kept, [Some(p)], k);
    WaitingOne(Some(p), k);
  }

  lemma {:induction false} WaitingCleared(slots: seq<Option<MeshPacket>>, i: nat, k: PacketKey)
    requires i < |slots|
    ensures Waiting(slots[i := None], k) <= Waiting(slots, k)
  {
    hide IsCopy;
    if i == 0 {
      assert slots[0 := None][1..] == slots[1..];
    } else {
      WaitingCleared(slots[1..], i - 1, k);
      assert slots[i := None][1..] == slots[1..][i - 1 := None];
    }
  }

  lemma WaitingOverhear(q: Queue<MeshPacket>, key: PacketKey, k: PacketKey)
    ensures Waiting(Overhear(q, HasKey(key)).0.slots, k) <= Waiting(q.slots, k)
  {
    hide Waiting;
    hide FirstMatch;
    var i := FirstMatch(q.slots, HasKey(key));
    if i < |q.slots| {
      WaitingCleared(q.slots, i, k);
    }
  }

  lemma WaitingService(q: Queue<MeshPacket>, k: PacketKey)
    ensures var (q', r) := Service(q, Tdm.LOOP_MS);
      Waiting(q'.slots, k) + (if r.Some? && IsCopy(r.value, k) then 1 else 0) == Waiting(q.slots, k)
  {
    var (q0, ready) := Tick(q, Tdm.LOOP_MS);
    if ready {
      var n := Scheduling.TakeShape(q0);
      var slots := q.slots;
      assert slots == slots[..n] + slots[n..];
      WaitingConcat(slots[..n], slots[n..], k);
      WaitingHoles(slots[..n], k);
      if n < |slots| {
        assert slots[n..] == [slots[n]] + slots[n + 1..];
        WaitingConcat([slots[n]], slots[n + 1..], k);
        WaitingOne(slots[n], k);
      }
    }
  }

  // ---------------------------------------------------------------- the flooding bound

  /** A node's books for key `k`: what it sent or still holds never exceeds what it was given plus what it relayed, and
      it relays only what it inserted, at most once. */
  ghost predicate Balanced(n: Node, k: PacketKey) {
    && Copies(n.sent, k) + Waiting(n.queue.slots, k) <= Copies(n.injected, k) + Copies(n.relayed, k)
    && (Copies(n.relayed, k) > 0 ==> k in n.inserted)
    && Copies(n.relayed, k) <= 1
  }

  lemma HearBalanced(n: Node, p: MeshPacket, lqi: U8, random: U16, k: PacketKey)
    requires n.Valid() && Balanced(n, k) && |Hear(n, p, lqi, random).inserted| <= SAFE_INSERTS
    ensures Balanced(Hear(n, p, lqi, random), k)
  {
    hide Dedup.Contains;
    hide FirstMatch;
    hide Waiting;
    hide Copies;
    hide RelayJitter;
    var n' := Hear(n, p, lqi, random);
    WaitingOverhear(n.queue, p.Key(), k);
    if |n'.relayed| > |n.relayed| {
      var next := DecrementTtl(p).value;
      CopiesSnoc(n.relayed, next, k);
      WaitingSchedule(Overhear(n.queue, HasKey(p.Key())).0, next, RelayJitter(lqi, random), k);
      if k == p.Key() && k in n.inserted {
        Dedup.NothingForgotten(n.inserted, k);
      }
    }
  }

  lemma StepBalanced(net: Network, ev: Event, k: PacketKey)
    requires ev.node < |net| && net[ev.node].Valid()
    requires Balanced(net[ev.node], k) && |StepNode(net, ev).inserted| <= SAFE_INSERTS
    ensures Balanced(StepNode(net, ev), k)
  {
    var n := net[ev.node];
    match ev
    case Originate(_, p) =>
      CopiesSnoc(n.injected, p, k);
      WaitingSchedule(n.queue, p, INJECT_JITTER, k);
    case Slot(_, ok) =>
      WaitingService(n.queue, k);
      if Serve(n, ok).sent != n.sent {
        CopiesSnoc(n.sent, Service(n.queue, Tdm.LOOP_MS).1.value, k);
      }
    case Deliver(_, sender, index, lqi, random) =>
      if sender < |net| && sender != ev.node && index < |net[sender].sent| {
        HearBalanced(n, net[sender].sent[index], lqi, random, k);
      }
    case Report(_, p, jitter) =>
      WaitingSchedule(n.queue, p, jitter, k);
  }

  lemma InsertsGrow(net: Network, ev: Event)
    requires ev.node < |net| && net[ev.node].Valid()
    ensures |net[ev.node].inserted| <= |StepNode(net, ev).inserted|
  {
    hide Dedup.Contains;
  }

  ghost predicate FewInserts(net: Network) {
    forall i | 0 <= i < |net| :: |net[i].inserted| <= SAFE_INSERTS
  }

  /** In any run of any network in which no node inserts more than 1025 keys, every node schedules a relay of a given
      packet at most once and transmits it at most once more often than its host made it originate it. */
  lemma {:induction false} NodeBound(nodes: nat, evs: seq<Event>, i: nat, k: PacketKey)
    requires i < nodes && FewInserts(Exec(nodes, evs))
    ensures Balanced(Exec(nodes, evs)[i], k)
  {
    if evs != [] {
      var m := |evs| - 1;
      var net, ev := Exec(nodes, evs[..m]), evs[m];
      if ev.node < nodes {
        InsertsGrow(net, ev);
        assert FewInserts(net) by {
          forall j | 0 <= j < |net| ensures |net[j].inserted| <= SAFE_INSERTS {
            assert |Exec(nodes, evs)[j].inserted| <= SAFE_INSERTS;
          }
        }
        NodeBound(nodes, evs[..m], i, k);
        if ev.node == i {
          assert Exec(nodes, evs)[i] == StepNode(net, ev);
          StepBalanced(net, ev, k);
        }
      } else {
        NodeBound(nodes, evs[..m], i, k);
      }
    }
  }

  function Injects(n: Node, p: MeshPacket, times: nat): (r: Node)
    requires n.Valid()
    ensures r.Valid()
  {
    if times == 0 then n else Inject(Injects(n, p, times - 1), p)
  }

  lemma {:induction false} InjectsInsert(n: Node, p: MeshPacket, times: nat)
    requires n.Valid() && IsValidNetworkTag(p.header.networkTag)
    ensures var n' := Injects(n, p, times);
      && |n'.inserted| == |n.inserted| + times && n'.inserted[..|n.inserted|] == n.inserted && n'.relayed == n.relayed
      && forall i | |n.inserted| <= i < |n'.inserted| :: n'.inserted[i] == p.Key()
  {
    if times > 0 {
      InjectsInsert(n, p, times - 1);
    }
  }

  /** The limit is sharp: a node that hears a packet, originates 1024 more and hears the first one again relays it a
      second time with its 1026th insert. */
  lemma RelayedAgain(p: MeshPacket, other: MeshPacket, lqi: U8, random: U16)
    requires IsValidNetworkTag(p.header.networkTag) && IsValidNetworkTag(other.header.networkTag) && !p.IsTelemetry()
    requires p.Key() == PacketKey(1, 0) && other.Key() == PacketKey(0, 0) && p.header.ttl > 0 && lqi >= MIN_RELAY_LQI
    ensures var once := Hear(FRESH, p, lqi, random);
      var twice := Hear(Injects(once, other, SAFE_INSERTS - 1), p, lqi, random);
      |once.relayed| == 1 && |twice.relayed| == 2 && |twice.inserted| == SAFE_INSERTS + 1
  {
    hide Dedup.Contains;
    hide FirstMatch;
    Dedup.UnusedFilter(p.Key());
    var once := Hear(FRESH, p, lqi, random);
    InjectsInsert(once, other, SAFE_INSERTS - 1);
    hide Injects;
    assert once.inserted == [p.Key()];
    Dedup.FirstForgotten(Injects(once, other, SAFE_INSERTS - 1).inserted);
  }

  function Total(net: Network, count: Node -> nat): nat {
    if net == [] then 0 else Total(net[..|net| - 1], count) + count(net[|net| - 1])
  }

  function SentCopies(k: PacketKey): Node -> nat {
    (n: Node) => Copies(n.sent, k)
  }

  function InjectedCopies(k: PacketKey): Node -> nat {
    (n: Node) => Copies(n.injected, k)
  }

  lemma {:induction false} TotalBound(net: Network, k: PacketKey)
    requires forall i | 0 <= i < |net| :: Balanced(net[i], k)
    ensures Total(net, SentCopies(k)) <= Total(net, InjectedCopies(k)) + |net|
  {
    if net != [] {
      var m := |net| - 1;
      assert Balanced(net[m], k);
      TotalBound(net[..m], k);
    }
  }

  /** Flooding is bounded: the transmissions of a packet, over all nodes and hops, are at most its originations plus the
      number of nodes. */
  lemma FloodingBounded(nodes: nat, evs: seq<Event>, k: PacketKey)
    requires FewInserts(Exec(nodes, evs))
    ensures var net := Exec(nodes, evs); Total(net, SentCopies(k)) <= Total(net, InjectedCopies(k)) + nodes
  {
    forall i | 0 <= i < nodes ensures Balanced(Exec(nodes, evs)[i], k) {
      NodeBound(nodes, evs, i, k);
    }
    TotalBound(Exec(nodes, evs), k);
  }

  // ---------------------------------------------------------------- telemetry

  /** The packet was handed to node `i` by its host or its telemetry task. */
  ghost predicate Submitted(evs: seq<Event>, i: nat, p: MeshPacket) {
    exists ev <- evs :: (ev.Originate? || ev.Report?) && ev.node == i && ev.packet == p
  }

  /** Telemetry is among the packets only if it was submitted at node `i`. */
  ghost predicate OwnTelemetry(slots: seq<Option<MeshPacket>>, evs: seq<Event>, i: nat) {
    forall j | 0 <= j < |slots| && slots[j].Some? && slots[j].value.IsTelemetry() :: Submitted(evs, i, slots[j].value)
  }

  ghost predicate SendsOwn(n: Node, evs: seq<Event>, i: nat) {
    && OwnTelemetry(n.queue.slots, evs, i)
    && (forall p <- n.sent | p.IsTelemetry() :: Submitted(evs, i, p))
    && (forall p <- n.relayed :: !p.IsTelemetry())
  }

  lemma SubmittedGrows(evs: seq<Event>, ev: Event, i: nat, p: MeshPacket)
    ensures Submitted(evs, i, p) ==> Submitted(evs + [ev], i, p)
    ensures (ev.Originate? || ev.Report?) && ev.node == i && ev.packet == p ==> Submitted(evs + [ev], i, p)
  {
    assert ev == (evs + [ev])[|evs|];
  }

  lemma SendsOwnGrows(n: Node, evs: seq<Event>, ev: Event, i: nat)
    requires SendsOwn(n, evs, i)
    ensures SendsOwn(n, evs + [ev], i)
  {
    hide Submitted;
    forall p: MeshPacket ensures Submitted(evs, i, p) ==> Submitted(evs + [ev], i, p) {
      SubmittedGrows(evs, ev, i, p);
    }
  }

  lemma ScheduleOwn(q: Queue<MeshPacket>, p: MeshPacket, jitter: U16, evs: seq<Event>, i: nat)
    requires |q.slots| <= CAPACITY && OwnTelemetry(q.slots, evs, i) && (p.IsTelemetry() ==> Submitted(evs, i, p))
    ensures OwnTelemetry(Schedule(q, p, jitter).slots, evs, i)
  {
    hide Submitted;
    hide MeshPacket.IsTelemetry;
    var slots := Schedule(q, p, jitter).slots;
    var k := if |q.slots| < CAPACITY then 0 else 1;
    assert forall j | 0 <= j < |slots| - 1 :: slots[j] == q.slots[j + k];
  }

  lemma OverhearOwn(q: Queue<MeshPacket>, key: PacketKey, evs: seq<Event>, i: nat)
    requires OwnTelemetry(q.slots, evs, i)
    ensures OwnTelemetry(Overhear(q, HasKey(key)).0.slots, evs, i)
  {
    hide Submitted;
    hide MeshPacket.IsTelemetry;
    hide FirstMatch;
  }

  lemma ServeOwn(n: Node, ok: bool, evs: seq<Event>, i: nat)
    requires SendsOwn(n, evs, i)
    ensures SendsOwn(Serve(n, ok), evs, i)
  {
    hide Submitted;
    hide MeshPacket.IsTelemetry;
    hide TakePending;
    var m := Scheduling.TakeShape(Tick(n.queue, Tdm.LOOP_MS).0);
  }

  lemma HearOwn(n: Node, p: MeshPacket, lqi: U8, random: U16, evs: seq<Event>, i: nat)
    requires n.Valid() && SendsOwn(n, evs, i)
    ensures SendsOwn(Hear(n, p, lqi, random), evs, i)
  {
    hide Dedup.Contains;
    OverhearOwn(n.queue, p.Key(), evs, i);
    if !p.IsTelemetry() && p.header.ttl > 0 {
      var next := DecrementTtl(p).value;
      assert !next.IsTelemetry();
      ScheduleOwn(Overhear(n.queue, HasKey(p.Key())).0, next, RelayJitter(lqi, random), evs, i);
    }
    hide Submitted;
    hide OwnTelemetry;
    hide MeshPacket.IsTelemetry;
    hide Overhear;
    hide Schedule;
  }

  lemma StepOwn(net: Network, evs: seq<Event>, ev: Event)
    requires ev.node < |net| && net[ev.node].Valid() && SendsOwn(net[ev.node], evs, ev.node)
    ensures SendsOwn(StepNode(net, ev), evs + [ev], ev.node)
  {
    var n, i := net[ev.node], ev.node;
    SendsOwnGrows(n, evs, ev, i);
    match ev
    case Originate(_, p) =>
      SubmittedGrows(evs, ev, i, p);
      ScheduleOwn(n.queue, p, INJECT_JITTER, evs + [ev], i);
      hide Submitted;
      hide OwnTelemetry;
    case Slot(_, ok) =>
      ServeOwn(n, ok, evs + [ev], i);
    case Deliver(_, sender, index, lqi, random) =>
      if sender < |net| && sender != i && index < |net[sender].sent| {
        HearOwn(n, net[sender].sent[index], lqi, random, evs + [ev], i);
      }
    case Report(_, p, jitter) =>
      SubmittedGrows(evs, ev, i, p);
      ScheduleOwn(n.queue, p, jitter, evs + [ev], i);
      hide Submitted;
      hide OwnTelemetry;
  }

  /** Telemetry stays within one hop: in any run of any network, no node ever relays a telemetry packet, and every one
      that a node sends or holds was submitted at that very node. */
  lemma {:induction false} TelemetryStaysLocal(nodes: nat, evs: seq<Event>, i: nat)
    requires i < nodes
    ensures SendsOwn(Exec(nodes, evs)[i], evs, i)
  {
    if evs != [] {
      var m := |evs| - 1;
      TelemetryStaysLocal(nodes, evs[..m], i);
      var net, ev := Exec(nodes, evs[..m]), evs[m];
      assert evs == evs[..m] + [ev];
      if ev.node == i {
        StepOwn(net, evs[..m], ev);
      } else {
        SendsOwnGrows(net[i], evs[..m], ev, i);
      }
      hide SendsOwn;
    }
  }

  // ---------------------------------------------------------------- overhearing

  /** Waiting packets under key `k`. */
  function Held(slots: seq<Option<MeshPacket>>, k: PacketKey): nat {
    if slots == [] then 0
    else (if slots[0].Some? && slots[0].value.Key() == k then 1 else 0) + Held(slots[1..], k)
  }

  lemma {:induction false} HeldCleared(slots: seq<Option<MeshPacket>>, key: PacketKey, k: PacketKey)
    ensures var i := FirstMatch(slots, HasKey(key));
      if i == |slots| then Held(slots, key) == 0
      else Held(slots[i := None], k) == Held(slots, k) - if k == key then 1 else 0
  {
    if slots != [] {
      HeldCleared(slots[1..], key, k);
      var i := FirstMatch(slots, HasKey(key));
      if i == 0 {
        assert slots[0 := None][1..] == slots[1..];
      } else if i < |slots| {
        assert slots[i := None][1..] == slots[1..][i - 1 := None];
      }
    }
  }

  lemma {:induction false} WaitingHeld(slots: seq<Option<MeshPacket>>, k: PacketKey)
    ensures Waiting(slots, k) <= Held(slots, k)
  {
    if slots != [] {
      WaitingHeld(slots[1..], k);
    }
  }

  /** Hearing a packet for the second time cancels one waiting packet under its key, if there is one, and changes
      nothing else. */
  lemma DuplicateCancels(n: Node, p: MeshPacket, lqi: U8, random: U16, k: PacketKey)
    requires n.Valid() && IsValidNetworkTag(p.header.networkTag) && !p.IsTelemetry()
    requires p.Key() in n.inserted && |n.inserted| < SAFE_INSERTS
    ensures var n' := Hear(n, p, lqi, random);
      && n' == n.(queue := n'.queue) && n'.queue.remaining == n.queue.remaining
      && Held(n'.queue.slots, k) == Held(n.queue.slots, k) - if k == p.Key() && Held(n.queue.slots, k) > 0 then 1 else 0
  {
    Dedup.NothingForgotten(n.inserted, p.Key());
    hide Dedup.Contains;
    hide FirstMatch;
    HeldCleared(n.queue.slots, p.Key(), k);
    HeldCleared(n.queue.slots, p.Key(), p.Key());
    hide Held;
  }

  /** The node knows key `k`, holds no packet of it and has sent `c`. */
  ghost predicate Silent(n: Node, k: PacketKey, c: nat) {
    k in n.inserted && Waiting(n.queue.slots, k) == 0 && Copies(n.sent, k) == c
  }

  lemma HearSilent(n: Node, p: MeshPacket, lqi: U8, random: U16, k: PacketKey, c: nat)
    requires n.Valid() && Silent(n, k, c) && |Hear(n, p, lqi, random).inserted| <= SAFE_INSERTS
    ensures Silent(Hear(n, p, lqi, random), k, c)
  {
    hide Dedup.Contains;
    hide FirstMatch;
    hide Waiting;
    hide Copies;
    hide RelayJitter;
    var n' := Hear(n, p, lqi, random);
    WaitingOverhear(n.queue, p.Key(), k);
    if |n'.relayed| > |n.relayed| {
      var next := DecrementTtl(p).value;
      WaitingSchedule(Overhear(n.queue, HasKey(p.Key())).0, next, RelayJitter(lqi, random), k);
      if k == p.Key() {
        Dedup.NothingForgotten(n.inserted, k);
      }
    }
  }

  lemma StepSilent(net: Network, ev: Event, k: PacketKey, c: nat)
    requires ev.node < |net| && net[ev.node].Valid() && Silent(net[ev.node], k, c)
    requires |StepNode(net, ev).inserted| <= SAFE_INSERTS && (ev.Originate? ==> ev.packet.Key() != k)
    ensures Silent(StepNode(net, ev), k, c)
  {
    var n := net[ev.node];
    match ev
    case Originate(_, p) =>
      WaitingSchedule(n.queue, p, INJECT_JITTER, k);
    case Slot(_, ok) =>
      WaitingService(n.queue, k);
      if Serve(n, ok).sent != n.sent {
        CopiesSnoc(n.sent, Service(n.queue, Tdm.LOOP_MS).1.value, k);
      }
    case Deliver(_, sender, index, lqi, random) =>
      if sender < |net| && sender != ev.node && index < |net[sender].sent| {
        HearSilent(n, net[sender].sent[index], lqi, random, k, c);
      }
    case Report(_, p, jitter) =>
      WaitingSchedule(n.queue, p, jitter, k);
  }

  lemma {:induction false} StaysSilent(net: Network, evs: seq<Event>, i: nat, k: PacketKey, c: nat)
    requires ValidNetwork(net) && i < |net| && Silent(net[i], k, c)
    requires |After(net, evs)[i].inserted| <= SAFE_INSERTS
    requires forall ev <- evs | ev.Originate? && ev.node == i :: ev.packet.Key() != k
    ensures Silent(After(net, evs)[i], k, c)
    decreases |evs|
  {
    if evs != [] {
      var m := |evs| - 1;
      var before, ev := After(net, evs[..m]), evs[m];
      assert ev in evs;
      if ev.node == i {
        InsertsGrow(before, ev);
      }
      StaysSilent(net, evs[..m], i, k, c);
      if ev.node == i {
        StepSilent(before, ev, k, c);
      }
    }
  }

  /** Overhearing suppresses a relay for good: a node that hears a packet again while the copy it scheduled still waits
      never sends that copy, whatever happens afterwards short of its host originating the packet (up to 1025 inserts).
      */
  lemma OverheardNotSent(net: Network, i: nat, p: MeshPacket, lqi: U8, random: U16, evs: seq<Event>)
    requires ValidNetwork(net) && i < |net| && IsValidNetworkTag(p.header.networkTag) && !p.IsTelemetry()
    requires p.Key() in net[i].inserted && |net[i].inserted| < SAFE_INSERTS && Held(net[i].queue.slots, p.Key()) <= 1
    requires forall ev <- evs | ev.Originate? && ev.node == i :: ev.packet.Key() != p.Key()
    requires var heard := Hear(net[i], p, lqi, random);
      |After(net[i := heard], evs)[i].inserted| <= SAFE_INSERTS
    ensures Copies(After(net[i := Hear(net[i], p, lqi, random)], evs)[i].sent, p.Key()) == Copies(net[i].sent, p.Key())
  {
    var heard := Hear(net[i], p, lqi, random);
    DuplicateCancels(net[i], p, lqi, random, p.Key());
    WaitingHeld(heard.queue.slots, p.Key());
    hide Hear;
    hide Copies;
    hide Waiting;
    hide Held;
    StaysSilent(net[i := heard], evs, i, p.Key(), Copies(net[i].sent, p.Key()));
  }

  ghost predicate KnowsItsOwn(n: Node) {
    forall p <- n.injected :: p.Key() in n.inserted
  }

  lemma StepKnowsItsOwn(net: Network, ev: Event)
    requires ev.node < |net| && net[ev.node].Valid() && KnowsItsOwn(net[ev.node])
    ensures KnowsItsOwn(StepNode(net, ev))
  {
    hide Dedup.Contains;
    hide Service;
    hide Schedule;
    hide Overhear;
  }

  /** What a node was given to originate is in its filter's history. */
  lemma {:induction false} OriginatedIsKnown(nodes: nat, evs: seq<Event>, i: nat)
    requires i < nodes
    ensures KnowsItsOwn(Exec(nodes, evs)[i])
  {
    if evs != [] {
      var m := |evs| - 1;
      OriginatedIsKnown(nodes, evs[..m], i);
      if evs[m].node == i {
        StepKnowsItsOwn(Exec(nodes, evs[..m]), evs[m]);
      }
    }
  }

  // ---------------------------------------------------------------- reach

  datatype Link = Link(lqi: U8, random: U16)

  /** Mesh slots within which a dongle relays: the longest relay delay is 64 ms. */
  const SLOTS_PER_HOP := 13

  /** The radio accepts a frame in every one of them. */
  function Accepting(): seq<bool> {
    seq(SLOTS_PER_HOP, _ => true)
  }

  /** Mesh slots of node `i`, with the radio's answers. */
  function Slots(i: nat, oks: seq<bool>): seq<Event> {
    if oks == [] then [] else Slots(i, oks[..|oks| - 1]) + [Slot(i, oks[|oks| - 1])]
  }

  /** Node 0 originates `p`; then each node of the line in turn hears what the node before it sent, if anything, and
      gets its slots. */
  function LineRun(p: MeshPacket, links: seq<Link>): seq<Event> {
    if links == [] then [Originate(0, p)] + Slots(0, Accepting())
    else
      var n := |links|;
      var hear := Deliver(n, n - 1, 0, links[n - 1].lqi, links[n - 1].random);
      LineRun(p, links[..n - 1]) + ([hear] + Slots(n, Accepting()))
  }

  /** The TTL covers the links, all are good enough, and the key is not the one every unused filter reports as seen. */
  predicate Reaches(p: MeshPacket, links: seq<Link>) {
    || links == []
    || (p.Key() != PacketKey(0, 0) && |links| <= p.header.ttl && forall l <- links :: l.lqi >= MIN_RELAY_LQI)
  }

  function Serves(n: Node, oks: seq<bool>): Node {
    if oks == [] then n else Serve(Serves(n, oks[..|oks| - 1]), oks[|oks| - 1])
  }

  /** The only packet waiting leaves the queue in the first slot by which the backoff is over, sent or, if the radio
      refuses it there, lost. */
  lemma {:induction false} ServesOne(n: Node, p: MeshPacket, oks: seq<bool>)
    requires n.queue.slots == [Some(p)] && n.queue.remaining > 0
    ensures var n', due := Serves(n, oks), Scheduling.TicksFor(n.queue.remaining);
      if |oks| < due then n' == n.(queue := Queue([Some(p)], n.queue.remaining - 5 * |oks|))
      else n'.queue.slots == [] && n' == n.(queue := n'.queue, sent := n.sent + if oks[due - 1] then [p] else [])
  {
    if oks != [] {
      var k := |oks| - 1;
      ServesOne(n, p, oks[..k]);
      var q := Serves(n, oks[..k]).queue;
      assert q.slots == [Some(p)] ==> TakePending(Tick(q, Tdm.LOOP_MS).0).1 == Some(p);
    }
  }

  lemma {:induction false} ServesNone(n: Node, oks: seq<bool>)
    requires n.queue.slots == []
    ensures Serves(n, oks) == n
  {
    if oks != [] {
      ServesNone(n, oks[..|oks| - 1]);
    }
  }

  lemma {:induction false} AfterConcat(net: Network, a: seq<Event>, b: seq<Event>)
    requires ValidNetwork(net)
    ensures After(net, a + b) == After(After(net, a), b)
    decreases |b|
  {
    if b == [] {
      assert a + b == a;
    } else {
      var n := |b| - 1;
      AfterConcat(net, a, b[..n]);
      assert (a + b)[..|a + b| - 1] == a + b[..n];
    }
  }

  lemma {:induction false} AfterSlots(net: Network, i: nat, oks: seq<bool>)
    requires ValidNetwork(net) && i < |net|
    ensures After(net, Slots(i, oks)) == net[i := Serves(net[i], oks)]
  {
    hide Serve;
    if oks != [] {
      AfterSlots(net, i, oks[..|oks| - 1]);
      assert Slots(i, oks)[..|Slots(i, oks)| - 1] == Slots(i, oks[..|oks| - 1]);
    }
  }

  /** One node's turn: an event of its own, then its slots. */
  lemma {:induction false} AfterTurn(net: Network, ev: Event)
    requires ValidNetwork(net) && ev.node < |net|
    ensures After(net, [ev] + Slots(ev.node, Accepting()))
         == net[ev.node := Serves(StepNode(net, ev), Accepting())]
  {
    var slots := Slots(ev.node, Accepting());
    AfterConcat(net, [ev], slots);
    assert [ev][..0] == [];
    var net' := After(net, [ev]);
    assert After(net, []) == net;
    assert net' == net[ev.node := StepNode(net, ev)];
    AfterSlots(net', ev.node, Accepting());
    hide StepNode;
    hide Serves;
    assert net'[ev.node := Serves(net'[ev.node], Accepting())]
        == net[ev.node := Serves(StepNode(net, ev), Accepting())];
  }

  /** A fresh node sends a packet of its host in the third mesh slot, if the radio accepts it then, and else never. */
  lemma OriginTurn(p: MeshPacket, oks: seq<bool>)
    requires IsValidNetworkTag(p.header.networkTag)
    ensures var n := Serves(Inject(FRESH, p), oks);
      n.sent == (if |oks| >= 3 && oks[2] then [p] else []) && n.inserted == [p.Key()]
  {
    hide Serves;
    ServesOne(Inject(FRESH, p), p, oks);
  }

  /** A fresh node sends its telemetry in the first mesh slot by which its jitter, at least 15 and at most 90 ms, is
      over, and remembers nothing of it. */
  lemma TelemetryTurn(p: MeshPacket, jitter: U16, oks: seq<bool>)
    requires p.IsTelemetry()
    ensures var n, due := Serves(EmitTelemetry(FRESH, p, jitter), oks), (Max(15, Min(jitter, 90)) + 4) / 5;
      n.sent == (if |oks| >= due && oks[due - 1] then [p] else []) && n.inserted == []
  {
    hide Serves;
    ServesOne(EmitTelemetry(FRESH, p, jitter), p, oks);
  }

  lemma NothingToCancel(p: MeshPacket)
    ensures Cancel(FRESH, p) == FRESH
  {
  }

  lemma FirstHeard(p: MeshPacket, lqi: U8, random: U16)
    ensures var n, jitter := Hear(FRESH, p, lqi, random), RelayJitter(lqi, random);
      var isNew := IsValidNetworkTag(p.header.networkTag) && !p.IsTelemetry() && p.Key() != PacketKey(0, 0);
      && n.inserted == (if isNew then [p.Key()] else []) && n.sent == [] && jitter >= 15
      && n.queue == if isNew && lqi >= MIN_RELAY_LQI && p.header.ttl > 0
                    then Queue([DecrementTtl(p)], jitter) else EMPTY
  {
    hide Dedup.Contains;
    hide MeshPacket.IsTelemetry;
    hide IsValidNetworkTag;
    Dedup.UnusedFilter(p.Key());
    RelayJitterRange(lqi, lqi, random);
    NothingToCancel(p);
    hide Cancel;
    hide RelayJitter;
  }

  /** What a fresh node makes of the first packet it hears: nothing if the tag is foreign, the packet is telemetry or
      its key is (0, 0); otherwise it remembers the packet, and if it relays it, it does so in the first mesh slot by
      which the relay delay is over. */
  lemma RelayTurn(p: MeshPacket, lqi: U8, random: U16, oks: seq<bool>)
    ensures var n, tag := Serves(Hear(FRESH, p, lqi, random), oks), p.header.networkTag;
      var due := (RelayJitter(lqi, random) + 4) / 5;
      var isNew := (tag == 0x4749424245524953 || tag == 0xD75118D87E4159D2)
                   && !p.IsTelemetry() && p.Key() != PacketKey(0, 0);
      && n.inserted == (if isNew then [p.Key()] else [])
      && n.sent == if isNew && lqi >= MIN_RELAY_LQI && p.header.ttl > 0 && |oks| >= due && oks[due - 1]
                   then [DecrementTtl(p).value] else []
  {
    FirstHeard(p, lqi, random);
    hide Serves;
    hide Hear;
    hide RelayJitter;
    var heard := Hear(FRESH, p, lqi, random);
    if heard.queue.slots != [] {
      ServesOne(heard, DecrementTtl(p).value, oks);
    } else {
      ServesNone(heard, oks);
    }
  }

  /** The packets that node `|links|` of the line sends. */
  function Carried(p: MeshPacket, links: seq<Link>): seq<MeshPacket> {
    if Reaches(p, links) then [Hops(p, |links|).value] else []
  }

  /** Whether the host of node `|links|` is handed the packet, or originated it. */
  predicate HandedOn(p: MeshPacket, links: seq<Link>) {
    links == [] || (Reaches(p, links[..|links| - 1]) && p.Key() != PacketKey(0, 0))
  }

  lemma SameFlags(p: MeshPacket, q: MeshPacket)
    requires SameContent(p, q)
    ensures p.IsTelemetry() == q.IsTelemetry() && p.Key() == q.Key() && p.header.networkTag == q.header.networkTag
  {
  }

  lemma {:induction false} ReachesSnoc(p: MeshPacket, links: seq<Link>)
    requires links != []
    ensures var n := |links|;
      Reaches(p, links) <==>
        && Reaches(p, links[..n - 1]) && p.Key() != PacketKey(0, 0)
        && n <= p.header.ttl && links[n - 1].lqi >= MIN_RELAY_LQI
  {
    assert links == links[..|links| - 1] + [links[|links| - 1]];
  }

  /** What one more link adds. */
  lemma {:induction false} CarriedSnoc(p: MeshPacket, links: seq<Link>)
    requires links != [] && Reaches(p, links[..|links| - 1])
    ensures var n, known := |links|, p.Key() == PacketKey(0, 0); var q := Hops(p, n - 1);
      && q.Some? && Carried(p, links[..n - 1]) == [q.value] && SameContent(q.value, p)
      && HandedOn(p, links) == !known
      && Carried(p, links) == if !known && links[n - 1].lqi >= MIN_RELAY_LQI && q.value.header.ttl > 0
                              then [DecrementTtl(q.value).value] else []
  {
    ReachesSnoc(p, links);
    HopsExactly(p, |links| - 1);
    hide Reaches;
    hide SameContent;
    assert Hops(p, |links|) == DecrementTtl(Hops(p, |links| - 1).value);
  }

  /** The turn of a fresh node at the end of one more link. */
  lemma {:induction false} LinkTurn(p: MeshPacket, links: seq<Link>)
    requires IsValidNetworkTag(p.header.networkTag) && !p.IsTelemetry() && links != []
    requires Reaches(p, links[..|links| - 1])
    ensures var link := links[|links| - 1];
      var n := Serves(Hear(FRESH, Carried(p, links[..|links| - 1])[0], link.lqi, link.random), Accepting());
      n.sent == Carried(p, links) && n.inserted == if HandedOn(p, links) then [p.Key()] else []
  {
    var link := links[|links| - 1];
    CarriedSnoc(p, links);
    var q := Hops(p, |links| - 1).value;
    SameFlags(q, p);
    hide *;
    RelayTurn(q, link.lqi, link.random, Accepting());
    RelayJitterRange(link.lqi, link.lqi, link.random);
  }

  lemma {:induction false} LineTurn(net: Network, p: MeshPacket, links: seq<Link>)
    requires IsValidNetworkTag(p.header.networkTag) && !p.IsTelemetry() && ValidNetwork(net)
    requires 0 < |links| < |net| && net[|links|] == FRESH
    requires net[|links| - 1].sent == Carried(p, links[..|links| - 1])
    ensures var n, link := |links|, links[|links| - 1];
      var node := Serves(StepNode(net, Deliver(n, n - 1, 0, link.lqi, link.random)), Accepting());
      node.sent == Carried(p, links) && node.inserted == if HandedOn(p, links) then [p.Key()] else []
  {
    ServesNone(FRESH, Accepting());
    hide Hear;
    hide Serves;
    hide Hops;
    ReachesSnoc(p, links);
    hide Reaches;
    if Reaches(p, links[..|links| - 1]) {
      LinkTurn(p, links);
    }
  }

  lemma {:induction false} LineStart(nodes: nat, p: MeshPacket)
    requires IsValidNetworkTag(p.header.networkTag) && 0 < nodes
    ensures var net := Exec(nodes, LineRun(p, []));
      && net[0].sent == Carried(p, []) && net[0].inserted == (if HandedOn(p, []) then [p.Key()] else [])
      && forall j | 0 < j < nodes :: net[j] == FRESH
  {
    hide Slots;
    hide Serves;
    hide After;
    hide Hear;
    hide Inject;
    AfterTurn(seq(nodes, _ => FRESH), Originate(0, p));
    OriginTurn(p, Accepting());
  }

  /** The last turn of the run. */
  lemma {:induction false} LineSnoc(nodes: nat, p: MeshPacket, links: seq<Link>)
    requires 0 < |links| < nodes
    ensures var n := |links|; var net, link := Exec(nodes, LineRun(p, links[..n - 1])), links[n - 1];
      var hear := Deliver(n, n - 1, 0, link.lqi, link.random);
      Exec(nodes, LineRun(p, links)) == net[n := Serves(StepNode(net, hear), Accepting())]
  {
    var n := |links|;
    var net, link := Exec(nodes, LineRun(p, links[..n - 1])), links[n - 1];
    var hear := Deliver(n, n - 1, 0, link.lqi, link.random);
    hide Slots;
    hide Serves;
    hide After;
    hide StepNode;
    AfterConcat(seq(nodes, _ => FRESH), LineRun(p, links[..n - 1]), [hear] + Slots(n, Accepting()));
    AfterTurn(net, hear);
  }

  /** How far a packet gets over a line of fresh nodes, every hop within 13 mesh slots: the last node sends it on, with
      one hop counted per link, if and only if the TTL covers the links, every link is good enough and the key is not
      (0, 0); and its host is handed the packet, exactly once, if and only if the node before sent it on and the key is
      not (0, 0). Nodes further down have heard nothing yet. */
  lemma {:induction false} LineDelivers(nodes: nat, p: MeshPacket, links: seq<Link>)
    requires IsValidNetworkTag(p.header.networkTag) && !p.IsTelemetry() && |links| < nodes
    ensures var net, n := Exec(nodes, LineRun(p, links)), |links|;
      && net[n].sent == Carried(p, links)
      && net[n].inserted == (if HandedOn(p, links) then [p.Key()] else [])
      && forall j | n < j < nodes :: net[j] == FRESH
  {
    hide *;
    if links == [] {
      LineStart(nodes, p);
    } else {
      var n := |links|;
      LineDelivers(nodes, p, links[..n - 1]);
      LineSnoc(nodes, p, links);
      LineTurn(Exec(nodes, LineRun(p, links[..n - 1])), p, links);
    }
  }

  // ---------------------------------------------------------------- provenance and the hop budget

  function Budget(p: MeshPacket): nat {
    p.header.ttl + p.header.hopCount
  }

  /** `p` is, up to hops taken, a packet that node `o` was given to originate. */
  predicate CopyOf(net: Network, p: MeshPacket, o: nat, i: nat) {
    && o < |net| && i < |net[o].injected|
    && SameContent(p, net[o].injected[i]) && Budget(p) == Budget(net[o].injected[i])
  }

  ghost predicate Known(net: Network, p: MeshPacket) {
    p.IsTelemetry() || exists o: nat, i: nat :: CopyOf(net, p, o, i)
  }

  ghost predicate AllKnown(net: Network, n: Node) {
    && (forall p <- n.sent :: Known(net, p))
    && (forall i | 0 <= i < |n.queue.slots| && n.queue.slots[i].Some? :: Known(net, n.queue.slots[i].value))
  }

  /** Hosts originate with a hop budget that fits its byte, as all of them do by starting at hop zero. */
  ghost predicate Budgeted(evs: seq<Event>) {
    forall ev <- evs | ev.Originate? :: Budget(ev.packet) <= 255
  }

  lemma KnownSurvives(net: Network, net': Network, p: MeshPacket)
    requires Known(net, p) && |net| == |net'|
    requires forall i | 0 <= i < |net| :: net[i].injected <= net'[i].injected
    ensures Known(net', p)
  {
    if !p.IsTelemetry() {
      var o: nat, i: nat :| CopyOf(net, p, o, i);
      assert CopyOf(net', p, o, i);
    }
  }

  lemma RelayKnown(net: Network, p: MeshPacket)
    requires Known(net, p) && !p.IsTelemetry() && p.header.ttl > 0
    requires forall o, i | 0 <= o < |net| && 0 <= i < |net[o].injected| :: Budget(net[o].injected[i]) <= 255
    ensures Known(net, DecrementTtl(p).value)
  {
    var o: nat, i: nat :| CopyOf(net, p, o, i);
    assert Budget(net[o].injected[i]) <= 255;
    assert CopyOf(net, DecrementTtl(p).value, o, i);
  }

  lemma ScheduleKnown(net: Network, q: Queue<MeshPacket>, p: MeshPacket, jitter: U16)
    requires |q.slots| <= CAPACITY && Known(net, p)
    requires forall i | 0 <= i < |q.slots| && q.slots[i].Some? :: Known(net, q.slots[i].value)
    ensures var slots := Schedule(q, p, jitter).slots;
      forall i | 0 <= i < |slots| && slots[i].Some? :: Known(net, slots[i].value)
  {
    hide Known;
    var slots := Schedule(q, p, jitter).slots;
    var k := if |q.slots| < CAPACITY then 0 else 1;
    forall i | 0 <= i < |slots| && slots[i].Some? ensures Known(net, slots[i].value) {
      assert i == |slots| - 1 || slots[i] == q.slots[i + k];
    }
  }

  lemma OverhearKnown(net: Network, q: Queue<MeshPacket>, key: PacketKey)
    requires forall i | 0 <= i < |q.slots| && q.slots[i].Some? :: Known(net, q.slots[i].value)
    ensures var slots := Overhear(q, HasKey(key)).0.slots;
      |slots| == |q.slots| && forall i | 0 <= i < |slots| && slots[i].Some? :: Known(net, slots[i].value)
  {
    hide Known;
    hide FirstMatch;
  }

  lemma ServeKnown(net: Network, n: Node, ok: bool)
    requires AllKnown(net, n)
    ensures AllKnown(net, Serve(n, ok))
  {
    hide Known;
    hide TakePending;
    var m := Scheduling.TakeShape(Tick(n.queue, Tdm.LOOP_MS).0);
  }

  lemma HearKnown(net: Network, n: Node, p: MeshPacket, lqi: U8, random: U16)
    requires n.Valid() && AllKnown(net, n) && Known(net, p)
    requires forall o, i | 0 <= o < |net| && 0 <= i < |net[o].injected| :: Budget(net[o].injected[i]) <= 255
    ensures AllKnown(net, Hear(n, p, lqi, random))
  {
    hide Dedup.Contains;
    OverhearKnown(net, n.queue, p.Key());
    if !p.IsTelemetry() && p.header.ttl > 0 {
      RelayKnown(net, p);
      ScheduleKnown(net, Overhear(n.queue, HasKey(p.Key())).0, DecrementTtl(p).value, RelayJitter(lqi, random));
    }
    hide Known;
    hide Overhear;
    hide Schedule;
  }

  /** Everything the network knows, in one predicate. */
  ghost predicate Provenance(net: Network) {
    && (forall i | 0 <= i < |net| :: AllKnown(net, net[i]))
    && (forall o, i | 0 <= o < |net| && 0 <= i < |net[o].injected| :: Budget(net[o].injected[i]) <= 255)
  }

  lemma InjectedGrows(net: Network, ev: Event)
    requires ev.node < |net| && net[ev.node].Valid()
    ensures net[ev.node].injected <= StepNode(net, ev).injected
    ensures !ev.Originate? ==> StepNode(net, ev).injected == net[ev.node].injected
  {
    hide Dedup.Contains;
    hide Service;
  }

  lemma AllKnownSurvives(net: Network, net': Network, n: Node)
    requires AllKnown(net, n) && |net| == |net'|
    requires forall i | 0 <= i < |net| :: net[i].injected <= net'[i].injected
    ensures AllKnown(net', n)
  {
    hide Known;
    forall p | Known(net, p) ensures Known(net', p) {
      KnownSurvives(net, net', p);
    }
  }

  lemma StepKnown(net: Network, ev: Event)
    requires ev.node < |net| && net[ev.node].Valid() && Provenance(net)
    requires ev.Originate? ==> Budget(ev.packet) <= 255
    ensures AllKnown(net[ev.node := StepNode(net, ev)], StepNode(net, ev))
  {
    var n := net[ev.node];
    var net' := net[ev.node := StepNode(net, ev)];
    InjectedGrows(net, ev);
    match ev
    case Originate(_, p) =>
      AllKnownSurvives(net, net', n);
      if IsValidNetworkTag(p.header.networkTag) {
        assert CopyOf(net', p, ev.node, |n.injected|);
        ScheduleKnown(net', n.queue, p, INJECT_JITTER);
      }
    case Slot(_, ok) =>
      ServeKnown(net, n, ok);
      AllKnownSurvives(net, net', Serve(n, ok));
    case Deliver(_, sender, index, lqi, random) =>
      if sender < |net| && sender != ev.node && index < |net[sender].sent| {
        var p := net[sender].sent[index];
        assert AllKnown(net, net[sender]);
        HearKnown(net, n, p, lqi, random);
        AllKnownSurvives(net, net', Hear(n, p, lqi, random));
      } else {
        AllKnownSurvives(net, net', n);
      }
    case Report(_, p, jitter) =>
      if p.IsTelemetry() {
        ScheduleKnown(net, n.queue, p, jitter);
      }
      AllKnownSurvives(net, net', EmitTelemetry(n, p, jitter));
  }

  lemma NewlyInjected(net: Network, ev: Event)
    requires ev.node < |net| && net[ev.node].Valid()
    ensures forall p <- StepNode(net, ev).injected :: p in net[ev.node].injected || (ev.Originate? && p == ev.packet)
  {
    InjectedGrows(net, ev);
    hide Dedup.Contains;
    hide Service;
  }

  lemma StepProvenance(net: Network, ev: Event)
    requires ev.node < |net| && net[ev.node].Valid() && Provenance(net)
    requires ev.Originate? ==> Budget(ev.packet) <= 255
    ensures Provenance(net[ev.node := StepNode(net, ev)])
  {
    var net' := net[ev.node := StepNode(net, ev)];
    StepKnown(net, ev);
    InjectedGrows(net, ev);
    NewlyInjected(net, ev);
    hide AllKnown;
    hide StepNode;
    forall i | 0 <= i < |net'| ensures AllKnown(net', net'[i]) {
      if i != ev.node {
        AllKnownSurvives(net, net', net[i]);
      }
    }
  }

  /** Nothing is made up on the way: in every run, every packet any node ever transmits (telemetry aside) is, but for
      the hop fields, one some node was given to originate, and its TTL and hop count still add up to the originated
      sum. */
  lemma {:induction false} CopiesAreFaithful(nodes: nat, evs: seq<Event>)
    requires Budgeted(evs)
    ensures Provenance(Exec(nodes, evs))
  {
    if evs != [] {
      var m := |evs| - 1;
      assert evs[m] in evs;
      CopiesAreFaithful(nodes, evs[..m]);
      if evs[m].node < nodes {
        StepProvenance(Exec(nodes, evs[..m]), evs[m]);
      }
    }
  }

  /** Some node was given a packet with key `k` to originate. */
  predicate KeyKnown(net: Network, k: PacketKey) {
    exists o, i | 0 <= o < |net| && 0 <= i < |net[o].injected| :: net[o].injected[i].Key() == k
  }

  lemma KnownKey(net: Network, p: MeshPacket)
    requires Known(net, p) && !p.IsTelemetry()
    ensures KeyKnown(net, p.Key())
  {
    var o: nat, i: nat :| CopyOf(net, p, o, i);
    assert net[o].injected[i].Key() == p.Key();
  }

  lemma KeySurvives(net: Network, net': Network, k: PacketKey)
    requires KeyKnown(net, k) && |net| == |net'|
    requires forall i | 0 <= i < |net| :: net[i].injected <= net'[i].injected
    ensures KeyKnown(net', k)
  {
    var o, i :| 0 <= o < |net| && 0 <= i < |net[o].injected| && net[o].injected[i].Key() == k;
    assert net'[o].injected[i].Key() == k;
  }

  /** The key that an event inserts is the key of an originated packet. */
  lemma InsertKnown(net: Network, ev: Event, k: PacketKey)
    requires ev.node < |net| && net[ev.node].Valid() && Provenance(net)
    requires k in StepNode(net, ev).inserted && k !in net[ev.node].inserted
    ensures KeyKnown(net[ev.node := StepNode(net, ev)], k)
  {
    hide Dedup.Contains;
    hide Known;
    hide Service;
    hide Schedule;
    hide Overhear;
    var n, net' := net[ev.node], net[ev.node := StepNode(net, ev)];
    match ev
    case Originate(_, p) =>
      assert net'[ev.node].injected[|n.injected|].Key() == k;
    case Slot(_, ok) =>
    case Deliver(_, sender, index, lqi, random) =>
      var p := net[sender].sent[index];
      assert AllKnown(net, net[sender]) && p in net[sender].sent;
      KnownKey(net, p);
      InjectedGrows(net, ev);
      KeySurvives(net, net', k);
    case Report(_, p, jitter) =>
  }

  /** No filter is polluted: in every run, every key that any node's filter was ever given belongs to a packet some node
      was given to originate. Telemetry heard and copies made up enter none. */
  lemma {:induction false} FiltersHoldOriginated(nodes: nat, evs: seq<Event>, i: nat)
    requires Budgeted(evs) && i < nodes
    ensures forall k <- Exec(nodes, evs)[i].inserted :: KeyKnown(Exec(nodes, evs), k)
  {
    if evs != [] {
      var m := |evs| - 1;
      var net, ev := Exec(nodes, evs[..m]), evs[m];
      assert ev in evs;
      FiltersHoldOriginated(nodes, evs[..m], i);
      if ev.node < nodes {
        CopiesAreFaithful(nodes, evs[..m]);
        InjectedGrows(net, ev);
        var net' := net[ev.node := StepNode(net, ev)];
        hide StepNode;
        hide KeyKnown;
        hide Provenance;
        forall k <- net'[i].inserted ensures KeyKnown(net', k) {
          if k in net[i].inserted {
            KeySurvives(net, net', k);
          } else {
            InsertKnown(net, ev, k);
          }
        }
      }
    }
  }
}
