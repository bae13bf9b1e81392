/** Runs of the chunk engine: the caps and the shape of its tables, and how often it delivers and asks again. */
module EngineRuns {
  import opened Bytes
  import opened Wire
  import opened Sack
  import opened Chunks
  import opened ChunkEngine

  datatype Event =
    | Receive(src: U32, packet: MeshPacket, now: nat, order: seq<MsgKey>)
    | CacheSent(packets: seq<MeshPacket>, now: nat)
    | Poll(now: nat, order: seq<MsgKey>)
    | HearSack(msgId: U32, now: nat)

  function Step(s: Engine, env: Env, ev: Event): Engine {
    match ev
    case Receive(src, p, now, order) => Ingest(s, env, src, p, now, order).0
    case CacheSent(packets, now) => CacheOutbound(s, packets, now)
    case Poll(now, _) => CheckSacks(s, now)
    case HearSack(msgId, now) => Suppress(s, msgId, now)
  }

  /** What an event returns to the caller for message `k`. */
  function Outcome(s: Engine, env: Env, ev: Event, k: MsgKey): IngestResult {
    if ev.Receive? && k == MsgKey(ev.src, ev.packet.header.msgId)
    then Ingest(s, env, ev.src, ev.packet, ev.now, ev.order).1 else Buffered
  }

  /** What the packet opens to. */
  function Opened(env: Env, src: U32, p: MeshPacket): Option<Plain> {
    env.crypto.unseal(At(env.crypto, env.master, src, p.header.msgId, p.header.chunkIdx), p.payload)
  }

  /** A packet that is neither malformed nor a duplicate of a completed message: room is made for it, and it is
      opened. */
  predicate Opens(s: Engine, k: MsgKey, h: MeshHeader) {
    0 < h.totalChunks <= MAX_TOTAL_CHUNKS && h.chunkIdx < h.totalChunks && k !in s.completed
  }

  /** The iteration orders handed to the engine are orders of the maps it iterates. */
  ghost predicate Orderly(s: Engine, ev: Event) {
    match ev
    case Receive(_, _, now, order) => Enumerates(order, Purge(s, now).inFlight)
    case Poll(_, order) => Enumerates(order, s.inFlight)
    case _ => true
  }

  function Exec(env: Env, evs: seq<Event>): Engine {
    if evs == [] then EMPTY else Step(Exec(env, evs[..|evs| - 1]), env, evs[|evs| - 1])
  }

  /** An environment's run: every iteration order is one the map can yield, and the clock never runs backwards. */
  ghost predicate Realistic(env: Env, evs: seq<Event>) {
    evs == [] ||
    var n := |evs| - 1;
    Realistic(env, evs[..n]) && Orderly(Exec(env, evs[..n]), evs[n]) && (n > 0 ==> evs[n - 1].now <= evs[n].now)
  }

  // ---------------------------------------------------------------- caps and table shape

  ghost predicate WellFormed(e: InFlight) {
    && |e.received| == e.totalChunks && e.totalChunks <= 255
    && (exists i :: 0 <= i < |e.received| && e.received[i].Some?)
    && (exists i :: 0 <= i < |e.received| && e.received[i].None?)
    && e.sackCount <= MAX_SACK_RETRIES
  }

  ghost predicate Capped(m: map<MsgKey, InFlight>) {
    |m| <= MAX_GLOBAL_IN_FLIGHT && forall src: U32 :: |OfSender(m, src)| <= MAX_PER_SENDER_IN_FLIGHT
  }

  ghost predicate Sound(s: Engine) {
    && Capped(s.inFlight)
    && s.inFlight.Keys !! s.completed.Keys
    && (forall k <- s.inFlight :: WellFormed(s.inFlight[k]))
  }

  lemma {:induction false} SubsetSize<T>(a: set<T>, b: set<T>)
    requires a <= b
    ensures |a| <= |b|
    decreases a
  {
    if a != {} {
      var x :| x in a;
      SubsetSize(a - {x}, b - {x});
    }
  }

  lemma CapsShrink(m: map<MsgKey, InFlight>, m': map<MsgKey, InFlight>)
    requires Capped(m) && m'.Keys <= m.Keys
    ensures Capped(m')
  {
    SubsetSize(m'.Keys, m.Keys);
    assert |m'| == |m'.Keys| && |m| == |m.Keys|;
    forall src: U32 ensures |OfSender(m', src)| <= MAX_PER_SENDER_IN_FLIGHT {
      SubsetSize(OfSender(m', src), OfSender(m, src));
    }
  }

  lemma SmallerSize<T>(a: set<T>, b: set<T>, x: T)
    requires a <= b && x in b && x !in a
    ensures |a| < |b|
  {
    SubsetSize(a, b - {x});
  }

  /** Eviction makes room: one slot for the sender and one overall. */
  lemma EvictMakesRoom(m: map<MsgKey, InFlight>, src: U32, order: seq<MsgKey>)
    requires Capped(m) && forall k :: k in order <==> k in m
    ensures var m' := Evict(m, src, order);
      && m'.Keys <= m.Keys && (forall k <- m' :: m'[k] == m[k])
      && |m'| < MAX_GLOBAL_IN_FLIGHT && |OfSender(m', src)| < MAX_PER_SENDER_IN_FLIGHT
  {
    var m1 := if |OfSender(m, src)| >= MAX_PER_SENDER_IN_FLIGHT then Without(m, Oldest(order, m, Some(src))) else m;
    var m' := Evict(m, src, order);
    assert |OfSender(m, src)| <= MAX_PER_SENDER_IN_FLIGHT;
    if m1 != m || |OfSender(m, src)| >= MAX_PER_SENDER_IN_FLIGHT {
      var x :| x in OfSender(m, src);
      assert Candidate(x, m, Some(src));
      var v := Oldest(order, m, Some(src)).value;
      assert v in OfSender(m, src) && v !in OfSender(m1, src);
      SmallerSize(OfSender(m1, src), OfSender(m, src), v);
    }
    SubsetSize(m1.Keys, m.Keys);
    assert |m1| == |m1.Keys| && |m| == |m.Keys|;
    if |m1| >= MAX_GLOBAL_IN_FLIGHT {
      var x :| x in m1.Keys;
      assert Candidate(x, m1, None);
      var v := Oldest(order, m1, None).value;
      SmallerSize(m'.Keys, m1.Keys, v);
      assert |m'| == |m'.Keys|;
    }
    SubsetSize(OfSender(m', src), OfSender(m1, src));
  }

  lemma InsertCapped(m: map<MsgKey, InFlight>, k: MsgKey, e: InFlight)
    requires Capped(m)
    requires k !in m ==> |m| < MAX_GLOBAL_IN_FLIGHT && |OfSender(m, k.src)| < MAX_PER_SENDER_IN_FLIGHT
    ensures Capped(m[k := e])
  {
    var m' := m[k := e];
    assert m'.Keys == m.Keys + {k};
    assert |m'| == |m'.Keys| && |m| == |m.Keys|;
    forall src: U32 ensures |OfSender(m', src)| <= MAX_PER_SENDER_IN_FLIGHT {
      assert OfSender(m', src) == OfSender(m, src) + if src == k.src then {k} else {};
      if k in m {
        assert src == k.src ==> k in OfSender(m, src);
      }
    }
  }

  lemma PurgeSound(s: Engine, now: nat)
    requires Sound(s)
    ensures Sound(Purge(s, now))
  {
    CapsShrink(s.inFlight, Purge(s, now).inFlight);
  }

  lemma RoomSound(s: Engine, k: MsgKey, order: seq<MsgKey>)
    requires Sound(s) && Enumerates(order, s.inFlight)
    ensures var s' := MakeRoom(s, k, order);
      Sound(s') && (k !in s'.inFlight ==>
        |s'.inFlight| < MAX_GLOBAL_IN_FLIGHT && |OfSender(s'.inFlight, k.src)| < MAX_PER_SENDER_IN_FLIGHT)
  {
    if k !in s.inFlight {
      EvictMakesRoom(s.inFlight, k.src, order);
      CapsShrink(s.inFlight, MakeRoom(s, k, order).inFlight);
    }
  }

  lemma StoreWellFormed(s: Engine, k: MsgKey, total: nat, idx: nat, plain: Plain, now: nat)
    requires k in s.inFlight ==> WellFormed(s.inFlight[k])
    requires total <= 255 && idx < |Entry(s, k, total, now).received|
    requires !Complete(Store(Entry(s, k, total, now), idx, plain, now).received)
    ensures WellFormed(Store(Entry(s, k, total, now), idx, plain, now))
  {
    var e := Store(Entry(s, k, total, now), idx, plain, now);
    assert e.received[idx].Some?;
  }

  lemma AcceptSound(s: Engine, env: Env, k: MsgKey, total: nat, idx: nat, plain: Plain, now: nat)
    requires Sound(s) && k !in s.completed && idx < total <= 255
    requires k !in s.inFlight ==>
      |s.inFlight| < MAX_GLOBAL_IN_FLIGHT && |OfSender(s.inFlight, k.src)| < MAX_PER_SENDER_IN_FLIGHT
    ensures Sound(Accept(s, env, k, total, idx, plain, now).0)
  {
    hide Assemble;
    hide WellFormed;
    hide Complete;
    hide Capped;
    var entry := Entry(s, k, total, now);
    if idx < |entry.received| {
      var e := Store(entry, idx, plain, now);
      if Complete(e.received) {
        CapsShrink(s.inFlight, s.inFlight - {k});
      } else {
        StoreWellFormed(s, k, total, idx, plain, now);
        InsertCapped(s.inFlight, k, e);
      }
    }
  }

  lemma RoomKeepsCaches(s: Engine, k: MsgKey, order: seq<MsgKey>)
    ensures var s' := MakeRoom(s, k, order); s'.completed == s.completed && s'.outbox == s.outbox
  {
  }

  lemma IngestSound(s: Engine, env: Env, src: U32, p: MeshPacket, now: nat, order: seq<MsgKey>)
    requires Sound(s) && Enumerates(order, Purge(s, now).inFlight)
    ensures Sound(Ingest(s, env, src, p, now, order).0)
  {
    hide Purge;
    hide MakeRoom;
    hide Accept;
    hide Sound;
    var s1, k := Purge(s, now), MsgKey(src, p.header.msgId);
    PurgeSound(s, now);
    RoomSound(s1, k, order);
    var s2 := MakeRoom(s1, k, order);
    RoomKeepsCaches(s1, k, order);
    var plain := env.crypto.unseal(At(env.crypto, env.master, src, p.header.msgId, p.header.chunkIdx), p.payload);
    if p.header.chunkIdx < p.header.totalChunks && k !in s1.completed && plain.Some? {
      AcceptSound(s2, env, k, p.header.totalChunks, p.header.chunkIdx, plain.value, now);
    }
  }

  lemma StepSound(s: Engine, env: Env, ev: Event)
    requires Sound(s) && Orderly(s, ev)
    ensures Sound(Step(s, env, ev))
  {
    match ev
    case Receive(src, p, now, order) => IngestSound(s, env, src, p, now, order);
    case CacheSent(packets, now) =>
    case Poll(now, _) =>
      CapsShrink(s.inFlight, CheckSacks(s, now).inFlight);
    case HearSack(msgId, now) =>
      CapsShrink(s.inFlight, Suppress(s, msgId, now).inFlight);
  }

  /** In every reachable state at most 16 messages are in flight and at most 2 per sender, in-flight and completed
      messages are disjoint, and every in-flight message has a chunk received, a chunk missing and at most 3 SACKs. */
  lemma {:induction false} ReachableSound(env: Env, evs: seq<Event>)
    requires Realistic(env, evs)
    ensures Sound(Exec(env, evs))
  {
    if evs != [] {
      var n := |evs| - 1;
      ReachableSound(env, evs[..n]);
      StepSound(Exec(env, evs[..n]), env, evs[n]);
    } else {
      forall src: U32 ensures |OfSender(map[], src)| == 0 {
        assert OfSender(map[], src) == {};
      }
    }
  }

  // ---------------------------------------------------------------- mismatched chunk counts

  /** Two packets of one message announce the same number of chunks. */
  predicate SameTotal(a: Event, b: Event) {
    (a.Receive? && b.Receive? && a.src == b.src && a.packet.header.msgId == b.packet.header.msgId) ==>
      a.packet.header.totalChunks == b.packet.header.totalChunks
  }

  /** Some event announced `total` chunks for message `k`. */
  ghost predicate Announced(evs: seq<Event>, k: MsgKey, total: nat) {
    exists i :: 0 <= i < |evs| && evs[i].Receive? && MsgKey(evs[i].src, evs[i].packet.header.msgId) == k
      && evs[i].packet.header.totalChunks == total
  }

  lemma PurgeKeepsEntries(s: Engine, now: nat)
    ensures var m := Purge(s, now).inFlight; forall x <- m :: x in s.inFlight && m[x] == s.inFlight[x]
    ensures forall x <- Purge(s, now).completed :: x in s.completed
  {
  }

  lemma AcceptTotals(s: Engine, env: Env, k: MsgKey, total: nat, idx: nat, plain: Plain, now: nat, x: MsgKey)
    requires x in Accept(s, env, k, total, idx, plain, now).0.inFlight
    ensures var e := Accept(s, env, k, total, idx, plain, now).0.inFlight[x];
      (x in s.inFlight && e.totalChunks == s.inFlight[x].totalChunks) || (x == k && e.totalChunks == total)
  {
    hide Assemble;
    hide Complete;
  }

  lemma RoomKeepsEntries(s: Engine, k: MsgKey, order: seq<MsgKey>)
    ensures var m := MakeRoom(s, k, order).inFlight; forall x <- m :: x in s.inFlight && m[x] == s.inFlight[x]
  {
    hide Oldest;
  }

  lemma StepTotals(s: Engine, env: Env, ev: Event, k: MsgKey)
    requires k in Step(s, env, ev).inFlight
    ensures var e := Step(s, env, ev).inFlight[k];
      || (k in s.inFlight && e.totalChunks == s.inFlight[k].totalChunks)
      || (ev.Receive? && MsgKey(ev.src, ev.packet.header.msgId) == k && e.totalChunks == ev.packet.header.totalChunks)
  {
    hide Purge;
    hide MakeRoom;
    hide Accept;
    if ev.Receive? {
      var h, key := ev.packet.header, MsgKey(ev.src, ev.packet.header.msgId);
      var s1 := Purge(s, ev.now);
      var s2 := MakeRoom(s1, key, ev.order);
      PurgeKeepsEntries(s, ev.now);
      RoomKeepsEntries(s1, key, ev.order);
      var plain := Opened(env, ev.src, ev.packet);
      if plain.Some? && k in Accept(s2, env, key, h.totalChunks, h.chunkIdx, plain.value, ev.now).0.inFlight {
        AcceptTotals(s2, env, key, h.totalChunks, h.chunkIdx, plain.value, ev.now, k);
      }
    }
  }

  lemma {:induction false} TotalsAnnounced(env: Env, evs: seq<Event>, k: MsgKey)
    requires k in Exec(env, evs).inFlight
    ensures Announced(evs, k, Exec(env, evs).inFlight[k].totalChunks)
  {
    if evs != [] {
      var n := |evs| - 1;
      var s := Exec(env, evs[..n]);
      StepTotals(s, env, evs[n], k);
      hide Step;
      var total := Exec(env, evs).inFlight[k].totalChunks;
      if k in s.inFlight && total == s.inFlight[k].totalChunks {
        TotalsAnnounced(env, evs[..n], k);
        var i :| 0 <= i < n && evs[..n][i].Receive? && MsgKey(evs[..n][i].src, evs[..n][i].packet.header.msgId) == k
          && evs[..n][i].packet.header.totalChunks == total;
        assert evs[i] == evs[..n][i];
      }
    }
  }

  lemma AcceptPanics(s: Engine, env: Env, k: MsgKey, total: nat, idx: nat, plain: Plain, now: nat)
    requires idx < total && (k in s.inFlight ==> WellFormed(s.inFlight[k]))
    ensures Accept(s, env, k, total, idx, plain, now).1.Panicked?
       <==> k in s.inFlight && s.inFlight[k].totalChunks <= idx
  {
    hide Assemble;
    hide Complete;
  }

  lemma PurgeDisjoint(s: Engine, now: nat)
    requires s.inFlight.Keys !! s.completed.Keys
    ensures Purge(s, now).inFlight.Keys !! Purge(s, now).completed.Keys
  {
  }

  lemma RoomSpares(s: Engine, k: MsgKey, order: seq<MsgKey>)
    ensures k in MakeRoom(s, k, order).inFlight <==> k in s.inFlight
  {
    hide Oldest;
  }

  /** An authentic packet panics exactly when its message is in flight, neither timed out nor completed, and was
      announced with no more chunks than the packet's index. */
  lemma PanicsExactly(s: Engine, env: Env, ev: Event, plain: Plain)
    requires Sound(s) && ev.Receive?
    requires ev.packet.header.chunkIdx < ev.packet.header.totalChunks
    requires Opened(env, ev.src, ev.packet) == Some(plain)
    ensures var k := MsgKey(ev.src, ev.packet.header.msgId);
      Outcome(s, env, ev, k).Panicked? <==>
        k in Purge(s, ev.now).inFlight && s.inFlight[k].totalChunks <= ev.packet.header.chunkIdx
  {
    var h, k := ev.packet.header, MsgKey(ev.src, ev.packet.header.msgId);
    var s1 := Purge(s, ev.now);
    var s2 := MakeRoom(s1, k, ev.order);
    PurgeKeepsEntries(s, ev.now);
    RoomKeepsEntries(s1, k, ev.order);
    RoomSpares(s1, k, ev.order);
    PurgeDisjoint(s, ev.now);
    hide Purge;
    hide MakeRoom;
    hide Capped;
    hide Accept;
    assert k in s2.inFlight ==> WellFormed(s2.inFlight[k]);
    hide WellFormed;
    AcceptPanics(s2, env, k, h.totalChunks, h.chunkIdx, plain, ev.now);
  }

  /** A message of which one chunk out of several has arrived. */
  lemma FirstChunkWaits(env: Env, src: U32, p: MeshPacket, now: nat)
    requires Opened(env, src, p).Some? && p.header.chunkIdx < p.header.totalChunks && p.header.totalChunks >= 2
    ensures var s, k := Exec(env, [Receive(src, p, now, [])]), MsgKey(src, p.header.msgId);
      && Realistic(env, [Receive(src, p, now, [])])
      && s.inFlight.Keys == {k} && s.completed == map[] && s.inFlight[k].lastReceived == now
      && s.inFlight[k].totalChunks == |s.inFlight[k].received| == p.header.totalChunks
  {
    var evs := [Receive(src, p, now, [])];
    assert evs[..0] == [] && Purge(EMPTY, now) == EMPTY;
    var i: nat := p.header.chunkIdx;
    var entry := Entry(EMPTY, MsgKey(src, p.header.msgId), p.header.totalChunks, now);
    var e := Store(entry, i, Opened(env, src, p).value, now);
    assert e.received[if i == 0 then 1 else 0].None?;
    hide Assemble;
  }

  /** A run that panics: two authentic packets of one message, the second announcing more chunks than the first and
      carrying one the first had no room for, as with totals 2 and 3 and index 2. */
  lemma MismatchedTotalsPanic(env: Env, src: U32, first: MeshPacket, second: MeshPacket, now: nat)
    requires Opened(env, src, first).Some? && Opened(env, src, second).Some?
    requires first.header.msgId == second.header.msgId && first.header.chunkIdx < first.header.totalChunks
    requires 2 <= first.header.totalChunks <= second.header.chunkIdx < second.header.totalChunks
    ensures var k := MsgKey(src, first.header.msgId);
      var evs := [Receive(src, first, now, []), Receive(src, second, now, [k])];
      Realistic(env, evs) && Outcome(Exec(env, evs[..1]), env, evs[1], k).Panicked?
  {
    var k := MsgKey(src, first.header.msgId);
    var evs := [Receive(src, first, now, []), Receive(src, second, now, [k])];
    assert evs[..1] == [Receive(src, first, now, [])];
    FirstChunkWaits(env, src, first, now);
    var s := Exec(env, evs[..1]);
    assert Purge(s, now).inFlight == s.inFlight;
    ReachableSound(env, evs[..1]);
    PanicsExactly(s, env, evs[1], Opened(env, src, second).value);
    hide Step;
    hide Outcome;
  }

  lemma PanicMeansAuthentic(s: Engine, env: Env, ev: Event, k: MsgKey)
    requires Outcome(s, env, ev, k).Panicked?
    ensures ev.Receive? && k == MsgKey(ev.src, ev.packet.header.msgId)
    ensures ev.packet.header.chunkIdx < ev.packet.header.totalChunks
    ensures Opened(env, ev.src, ev.packet).Some?
  {
    hide Purge;
    hide MakeRoom;
    hide Accept;
  }

  /** The engine never indexes out of range as long as all packets of one message announce the same chunk count. */
  lemma UniformTotalsNeverPanic(env: Env, evs: seq<Event>, ev: Event, k: MsgKey)
    requires Realistic(env, evs) && forall i | 0 <= i < |evs| :: SameTotal(evs[i], ev)
    ensures !Outcome(Exec(env, evs), env, ev, k).Panicked?
  {
    var s := Exec(env, evs);
    ReachableSound(env, evs);
    if k in s.inFlight {
      TotalsAnnounced(env, evs, k);
    }
    if Outcome(s, env, ev, k).Panicked? {
      PanicMeansAuthentic(s, env, ev, k);
      var h := ev.packet.header;
      var plain := Opened(env, ev.src, ev.packet);
      PanicsExactly(s, env, ev, plain.value);
      PurgeKeepsEntries(s, ev.now);
    }
  }

  // ---------------------------------------------------------------- refusals

  /** Exactly which packets are refused, and why; and a refused packet is not stored anywhere. */
  lemma RefusalsExactly(s: Engine, env: Env, ev: Event, k: MsgKey)
    requires ev.Receive? && k == MsgKey(ev.src, ev.packet.header.msgId)
    ensures var r, h, s' := Outcome(s, env, ev, k), ev.packet.header, Step(s, env, ev);
      && (r == Rejected(PayloadTooLarge) <==> h.totalChunks == 0 || h.chunkIdx >= h.totalChunks)
      && (r == Rejected(AuthenticationFailed) <==>
            Opens(Purge(s, ev.now), k, h) && Opened(env, ev.src, ev.packet) == None)
      && (r.Rejected? ==>
            && (forall x <- s'.inFlight :: x in s.inFlight && s'.inFlight[x] == s.inFlight[x])
            && (forall x <- s'.completed :: x in s.completed))
  {
    PurgeKeepsEntries(s, ev.now);
    RoomKeepsEntries(Purge(s, ev.now), k, ev.order);
    RoomKeepsCaches(Purge(s, ev.now), k, ev.order);
    hide Purge;
    hide MakeRoom;
    hide At;
    hide Assemble;
    hide Complete;
  }

  /** A payload sealed as chunk `i` of message `id` of `node` is refused under any other index, message or sender, given
      a cipher that opens it only under the coordinates it was sealed with; no entry takes it. */
  lemma ForeignChunkRefused(s: Engine, env: Env, ev: Event, node: U32, id: U32, i: U8, k: MsgKey)
    requires ev.Receive? && Separates(env.crypto, env.master) && k == MsgKey(ev.src, ev.packet.header.msgId)
    requires forall c :: env.crypto.unseal(c, ev.packet.payload).Some? ==> c == At(env.crypto, env.master, node, id, i)
    requires ev.src != node || ev.packet.header.msgId != id || ev.packet.header.chunkIdx != i
    requires Opens(Purge(s, ev.now), k, ev.packet.header)
    ensures Outcome(s, env, ev, k) == Rejected(AuthenticationFailed)
    ensures forall x <- Step(s, env, ev).inFlight :: x in s.inFlight && Step(s, env, ev).inFlight[x] == s.inFlight[x]
  {
    var h := ev.packet.header;
    CoordinatesInjective(env.crypto, env.master, ev.src, h.msgId, h.chunkIdx, node, id, i);
    RefusalsExactly(s, env, ev, k);
    hide Purge;
    hide Step;
    hide Outcome;
    hide At;
  }

  // ---------------------------------------------------------------- deliveries

  /** Message `k` was completed by the event: its last missing chunk arrived. */
  ghost predicate Completes(s: Engine, env: Env, ev: Event, k: MsgKey) {
    && ev.Receive? && k == MsgKey(ev.src, ev.packet.header.msgId)
    && k !in Purge(s, ev.now).completed && k in Step(s, env, ev).completed
  }

  lemma DeliveryCompletes(s: Engine, env: Env, ev: Event, k: MsgKey)
    requires Outcome(s, env, ev, k).Delivered?
    ensures Completes(s, env, ev, k) && Step(s, env, ev).completed[k] == ev.now
  {
    hide Assemble;
    hide Evict;
    hide Complete;
  }

  /** A completed entry changes only by completing again or by expiring. */
  lemma CompletedStep(s: Engine, env: Env, ev: Event, k: MsgKey)
    requires !Completes(s, env, ev, k)
    ensures var s' := Step(s, env, ev);
      && (k in s'.completed ==> k in s.completed && s'.completed[k] == s.completed[k])
      && (k in s.completed && k !in s'.completed ==> Since(ev.now, s.completed[k]) >= CACHE_TIMEOUT)
  {
    hide Assemble;
    hide Evict;
    hide Complete;
    hide Oldest;
  }

  /** The last time message `k` was completed, plus one; 0 if it never was. */
  ghost function LastCompletion(env: Env, evs: seq<Event>, k: MsgKey): nat {
    if evs == [] then 0
    else
      var n := |evs| - 1;
      if Completes(Exec(env, evs[..n]), env, evs[n], k) then evs[n].now + 1 else LastCompletion(env, evs[..n], k)
  }

  lemma CompletionTime(s: Engine, env: Env, ev: Event, k: MsgKey)
    requires Completes(s, env, ev, k)
    ensures Step(s, env, ev).completed[k] == ev.now
  {
    hide Assemble;
    hide Evict;
    hide Complete;
  }

  /** The completed entry of a message is there until a minute after its completion. */
  lemma {:induction false} CompletedRemembered(env: Env, evs: seq<Event>, k: MsgKey)
    requires Realistic(env, evs) && LastCompletion(env, evs, k) > 0
    ensures var s, t := Exec(env, evs), LastCompletion(env, evs, k) - 1;
      if k in s.completed then s.completed[k] == t else evs != [] && evs[|evs| - 1].now - t >= CACHE_TIMEOUT
  {
    var n := |evs| - 1;
    var s, ev := Exec(env, evs[..n]), evs[n];
    if Completes(s, env, ev, k) {
      CompletionTime(s, env, ev, k);
    } else {
      CompletedRemembered(env, evs[..n], k);
      hide Step;
      CompletedStep(s, env, ev, k);
      if n > 0 {
        assert evs[..n][n - 1] == evs[n - 1];
      }
    }
  }

  /** A message is delivered again only after its completed entry has been purged: at least 60 s after its previous
      completion. */
  lemma DeliverySpacing(env: Env, evs: seq<Event>, ev: Event, k: MsgKey)
    requires Realistic(env, evs + [ev]) && LastCompletion(env, evs, k) > 0
    requires Outcome(Exec(env, evs), env, ev, k).Delivered?
    ensures ev.now - (LastCompletion(env, evs, k) - 1) >= CACHE_TIMEOUT
  {
    var all := evs + [ev];
    assert all[..|all| - 1] == evs;
    var s := Exec(env, evs);
    DeliveryCompletes(s, env, ev, k);
    CompletedRemembered(env, evs, k);
    if evs != [] {
      assert all[|all| - 2] == evs[|evs| - 1];
    }
  }

  // ---------------------------------------------------------------- SACK budget

  /** The event sends a SACK for message `k`. */
  predicate Asks(s: Engine, ev: Event, k: MsgKey) {
    ev.Poll? && k in s.inFlight && SackDue(s.inFlight[k], ev.now)
  }

  /** The SACK packets of a poll are exactly those of the messages it asks for. */
  lemma PollAsks(s: Engine, ev: Event, k: MsgKey)
    requires ev.Poll? && Orderly(s, ev)
    ensures k in DueKeys(ev.order, s.inFlight, ev.now) <==> Asks(s, ev, k)
  {
    DueKeysMeaning(ev.order, s.inFlight, ev.now);
  }

  /** The in-flight messages an event neither times out nor evicts. */
  function Survivors(s: Engine, ev: Event): map<MsgKey, InFlight> {
    match ev
    case Receive(src, p, now, order) =>
      var s1, k := Purge(s, now), MsgKey(src, p.header.msgId);
      if Opens(s1, k, p.header) then MakeRoom(s1, k, order).inFlight else s1.inFlight
    case _ => s.inFlight
  }

  lemma SurvivorsKept(s: Engine, ev: Event)
    ensures forall k <- Survivors(s, ev) :: k in s.inFlight && Survivors(s, ev)[k] == s.inFlight[k]
  {
    if ev.Receive? {
      PurgeKeepsEntries(s, ev.now);
      RoomKeepsEntries(Purge(s, ev.now), MsgKey(ev.src, ev.packet.header.msgId), ev.order);
    }
    hide Purge;
    hide MakeRoom;
  }

  // The functions below look back over the life of the entry that message `k` has in the in-flight table, up to and
  // including the event that created it.

  /** Number of SACKs sent for the entry. */
  ghost function Asked(env: Env, evs: seq<Event>, k: MsgKey): nat
    requires k in Exec(env, evs).inFlight
  {
    var m := |evs| - 1;
    var s := Exec(env, evs[..m]);
    SurvivorsKept(s, evs[m]);
    if k !in Survivors(s, evs[m]) then 0 else Asked(env, evs[..m], k) + if Asks(s, evs[m], k) then 1 else 0
  }

  /** When a SACK for the entry was last sent or overheard. */
  ghost function LastSack(env: Env, evs: seq<Event>, k: MsgKey): Option<nat>
    requires k in Exec(env, evs).inFlight
  {
    var m := |evs| - 1;
    var s := Exec(env, evs[..m]);
    SurvivorsKept(s, evs[m]);
    if k !in Survivors(s, evs[m]) then None
    else if Asks(s, evs[m], k) || (evs[m].HearSack? && evs[m].msgId == k.msgId) then Some(evs[m].now)
    else LastSack(env, evs[..m], k)
  }

  /** When the entry last took a new chunk; the first one is the chunk that created it. */
  ghost function LastChunk(env: Env, evs: seq<Event>, k: MsgKey): nat
    requires k in Exec(env, evs).inFlight
  {
    var m := |evs| - 1;
    var s := Exec(env, evs[..m]);
    SurvivorsKept(s, evs[m]);
    if k !in Survivors(s, evs[m]) || Exec(env, evs).inFlight[k].received != s.inFlight[k].received then evs[m].now
    else LastChunk(env, evs[..m], k)
  }

  /** When the chunk that created the entry came. */
  ghost function FirstChunk(env: Env, evs: seq<Event>, k: MsgKey): nat
    requires k in Exec(env, evs).inFlight
  {
    var m := |evs| - 1;
    var s := Exec(env, evs[..m]);
    SurvivorsKept(s, evs[m]);
    if k !in Survivors(s, evs[m]) then evs[m].now else FirstChunk(env, evs[..m], k)
  }

  lemma AcceptTimers(s: Engine, env: Env, key: MsgKey, total: nat, idx: nat, plain: Plain, now: nat, k: MsgKey)
    requires k in s.inFlight && k in Accept(s, env, key, total, idx, plain, now).0.inFlight
    ensures var e, e' := s.inFlight[k], Accept(s, env, key, total, idx, plain, now).0.inFlight[k];
      && e'.lastSackSent == e.lastSackSent && e'.sackCount == e.sackCount && e'.firstReceived == e.firstReceived
      && e'.lastReceived == (if e'.received != e.received then now else e.lastReceived)
  {
    hide Assemble;
    hide Complete;
  }

  lemma ReceiveTimers(s: Engine, env: Env, ev: Event, k: MsgKey)
    requires ev.Receive? && k in s.inFlight && k in Survivors(s, ev) && k in Step(s, env, ev).inFlight
    ensures var e, e' := s.inFlight[k], Step(s, env, ev).inFlight[k];
      && e'.lastSackSent == e.lastSackSent && e'.sackCount == e.sackCount && e'.firstReceived == e.firstReceived
      && e'.lastReceived == (if e'.received != e.received then ev.now else e.lastReceived)
  {
    var h, key := ev.packet.header, MsgKey(ev.src, ev.packet.header.msgId);
    var s1 := Purge(s, ev.now);
    var s2 := MakeRoom(s1, key, ev.order);
    PurgeKeepsEntries(s, ev.now);
    RoomKeepsEntries(s1, key, ev.order);
    hide Purge;
    hide MakeRoom;
    hide Accept;
    var plain := Opened(env, ev.src, ev.packet);
    if plain.Some? && k in Accept(s2, env, key, h.totalChunks, h.chunkIdx, plain.value, ev.now).0.inFlight {
      AcceptTimers(s2, env, key, h.totalChunks, h.chunkIdx, plain.value, ev.now, k);
    }
  }

  lemma TimerStep(s: Engine, env: Env, ev: Event, k: MsgKey)
    requires k in s.inFlight && k in Survivors(s, ev) && k in Step(s, env, ev).inFlight
    ensures var e, e' := s.inFlight[k], Step(s, env, ev).inFlight[k];
      && e'.lastSackSent == (if Asks(s, ev, k) || (ev.HearSack? && ev.msgId == k.msgId) then Some(ev.now)
                             else e.lastSackSent)
      && e'.sackCount == e.sackCount + (if Asks(s, ev, k) then 1 else 0) && e'.firstReceived == e.firstReceived
      && e'.lastReceived == (if e'.received != e.received then ev.now else e.lastReceived)
  {
    if ev.Receive? {
      ReceiveTimers(s, env, ev, k);
    }
  }

  lemma AcceptFresh(s: Engine, env: Env, key: MsgKey, total: nat, idx: nat, plain: Plain, now: nat, k: MsgKey)
    requires k !in s.inFlight && k in Accept(s, env, key, total, idx, plain, now).0.inFlight
    ensures var e := Accept(s, env, key, total, idx, plain, now).0.inFlight[k];
      k == key && e.firstReceived == e.lastReceived == now && e.lastSackSent == None && e.sackCount == 0
  {
    hide Assemble;
    hide Complete;
  }

  /** An entry starts with the chunk that creates it, and with no SACK. */
  lemma FreshEntry(s: Engine, env: Env, ev: Event, k: MsgKey)
    requires k !in Survivors(s, ev) && k in Step(s, env, ev).inFlight
    ensures var e := Step(s, env, ev).inFlight[k];
      e.firstReceived == e.lastReceived == ev.now && e.lastSackSent == None && e.sackCount == 0
  {
    hide Purge;
    hide MakeRoom;
    hide Accept;
    if ev.Receive? {
      var h, key := ev.packet.header, MsgKey(ev.src, ev.packet.header.msgId);
      var s1 := Purge(s, ev.now);
      var plain := Opened(env, ev.src, ev.packet);
      if plain.Some? {
        AcceptFresh(MakeRoom(s1, key, ev.order), env, key, h.totalChunks, h.chunkIdx, plain.value, ev.now, k);
      }
    }
  }

  /** The entry's counter and timers are those of its life so far. */
  lemma {:induction false} TimersRemember(env: Env, evs: seq<Event>, k: MsgKey)
    requires k in Exec(env, evs).inFlight
    ensures var e := Exec(env, evs).inFlight[k];
      && e.sackCount == Asked(env, evs, k) && e.lastSackSent == LastSack(env, evs, k)
      && e.lastReceived == LastChunk(env, evs, k) && e.firstReceived == FirstChunk(env, evs, k)
  {
    var m := |evs| - 1;
    var s := Exec(env, evs[..m]);
    SurvivorsKept(s, evs[m]);
    if k in Survivors(s, evs[m]) {
      TimersRemember(env, evs[..m], k);
      TimerStep(s, env, evs[m], k);
    } else {
      FreshEntry(s, env, evs[m], k);
    }
  }

  /** One in-flight entry produces at most 3 SACKs, however long it lives and whatever else happens. */
  lemma SackBudget(env: Env, evs: seq<Event>, k: MsgKey)
    requires Realistic(env, evs) && k in Exec(env, evs).inFlight
    ensures Asked(env, evs, k) <= MAX_SACK_RETRIES
  {
    ReachableSound(env, evs);
    TimersRemember(env, evs, k);
  }

  /** Pacing over whole runs: a poll sends a SACK for a message in flight if and only if the entry took its last new
      chunk, be it the one that created it, at least 300 ms ago, the last SACK sent or overheard for it, if any, is at
      least 500 ms old, and fewer than three have been sent. */
  lemma SackPacing(env: Env, evs: seq<Event>, k: MsgKey, ev: Event)
    requires Realistic(env, evs) && k in Exec(env, evs).inFlight && ev.Poll?
    ensures Asks(Exec(env, evs), ev, k) <==>
      && ev.now - LastChunk(env, evs, k) >= SACK_INITIAL_DELAY
      && (LastSack(env, evs, k).Some? ==> ev.now - LastSack(env, evs, k).value >= SACK_RETRY_INTERVAL)
      && Asked(env, evs, k) < MAX_SACK_RETRIES
  {
    ReachableSound(env, evs);
    TimersRemember(env, evs, k);
  }

  // ---------------------------------------------------------------- eviction

  lemma EvictVictim(m: map<MsgKey, InFlight>, src: U32, order: seq<MsgKey>, v: MsgKey)
    requires Enumerates(order, m) && v in m && v !in Evict(m, src, order)
    ensures var m' := Evict(m, src, order);
      || (v.src == src && |OfSender(m, src)| >= MAX_PER_SENDER_IN_FLIGHT
          && forall x <- m' | x.src == src :: m[v].firstReceived <= m[x].firstReceived)
      || (|m| >= MAX_GLOBAL_IN_FLIGHT && forall x <- m' :: m[v].firstReceived <= m[x].firstReceived)
  {
    var full := |OfSender(m, src)| >= MAX_PER_SENDER_IN_FLIGHT;
    var m1 := if full then Without(m, Oldest(order, m, Some(src))) else m;
    SubsetSize(m1.Keys, m.Keys);
    assert |m1| == |m1.Keys| && |m| == |m.Keys|;
    hide Oldest;
  }

  /** Whom a received packet pushes out: besides messages that have timed out, only an older message of the same sender
      when that one has two, or an older message than all that stay when sixteen are in flight. */
  lemma VictimIsOldest(env: Env, evs: seq<Event>, ev: Event, v: MsgKey)
    requires ev.Receive? && Realistic(env, evs + [ev])
    requires var s := Exec(env, evs); v in Purge(s, ev.now).inFlight && v !in Survivors(s, ev)
    ensures v in Exec(env, evs).inFlight
    ensures var s, m := Exec(env, evs), Purge(Exec(env, evs), ev.now).inFlight;
      || (v.src == ev.src && |OfSender(m, ev.src)| >= MAX_PER_SENDER_IN_FLIGHT
          && forall x <- Survivors(s, ev) | x.src == ev.src ::
               x in s.inFlight && FirstChunk(env, evs, v) <= FirstChunk(env, evs, x))
      || (|m| >= MAX_GLOBAL_IN_FLIGHT
          && forall x <- Survivors(s, ev) :: x in s.inFlight && FirstChunk(env, evs, v) <= FirstChunk(env, evs, x))
  {
    var s, m := Exec(env, evs), Purge(Exec(env, evs), ev.now).inFlight;
    assert (evs + [ev])[..|evs|] == evs;
    PurgeKeepsEntries(s, ev.now);
    SurvivorsKept(s, ev);
    EvictVictim(m, ev.src, ev.order, v);
    hide Purge;
    hide Evict;
    forall x <- s.inFlight ensures FirstChunk(env, evs, x) == s.inFlight[x].firstReceived {
      TimersRemember(env, evs, x);
    }
  }

  // ---------------------------------------------------------------- time-outs

  /** Nothing in the three maps is older than its time-out. */
  ghost predicate Recent(s: Engine, now: nat) {
    && (forall k <- s.inFlight :: Since(now, s.inFlight[k].lastReceived) < REASSEMBLY_TIMEOUT)
    && (forall k <- s.completed :: Since(now, s.completed[k]) < CACHE_TIMEOUT)
    && (forall m <- s.outbox :: Since(now, s.outbox[m].cachedAt) < CACHE_TIMEOUT)
  }

  lemma PurgeRecent(s: Engine, now: nat)
    ensures Recent(Purge(s, now), now)
  {
  }

  lemma RoomRecent(s: Engine, k: MsgKey, order: seq<MsgKey>, now: nat)
    requires Recent(s, now)
    ensures Recent(MakeRoom(s, k, order), now)
  {
    RoomKeepsEntries(s, k, order);
    RoomKeepsCaches(s, k, order);
    hide MakeRoom;
  }

  lemma AcceptRecent(s: Engine, env: Env, k: MsgKey, total: nat, idx: nat, plain: Plain, now: nat)
    requires Recent(s, now)
    ensures Recent(Accept(s, env, k, total, idx, plain, now).0, now)
  {
    hide Assemble;
    hide Complete;
  }

  /** What is left in the three maps once a packet has been received. */
  lemma ReceivePurges(s: Engine, env: Env, ev: Event)
    requires ev.Receive?
    ensures Recent(Step(s, env, ev), ev.now)
  {
    var h, k := ev.packet.header, MsgKey(ev.src, ev.packet.header.msgId);
    var s2 := MakeRoom(Purge(s, ev.now), k, ev.order);
    PurgeRecent(s, ev.now);
    RoomRecent(Purge(s, ev.now), k, ev.order, ev.now);
    var plain := Opened(env, ev.src, ev.packet);
    if plain.Some? {
      AcceptRecent(s2, env, k, h.totalChunks, h.chunkIdx, plain.value, ev.now);
    }
    hide Recent;
    hide Purge;
    hide MakeRoom;
    hide Accept;
    hide At;
  }

  /** After every received packet the messages in flight are those that took a new chunk within the last 10 s. */
  lemma InFlightFresh(env: Env, evs: seq<Event>, ev: Event, k: MsgKey)
    requires ev.Receive? && k in Exec(env, evs + [ev]).inFlight
    ensures ev.now - LastChunk(env, evs + [ev], k) < REASSEMBLY_TIMEOUT
  {
    assert (evs + [ev])[..|evs|] == evs;
    TimersRemember(env, evs + [ev], k);
    ReceivePurges(Exec(env, evs), env, ev);
    hide Step;
  }

  /** The completed entry of a message is that of its last completion. */
  lemma {:induction false} CompletedAt(env: Env, evs: seq<Event>, k: MsgKey)
    requires k in Exec(env, evs).completed
    ensures LastCompletion(env, evs, k) > 0 && Exec(env, evs).completed[k] == LastCompletion(env, evs, k) - 1
  {
    var n := |evs| - 1;
    var s, ev := Exec(env, evs[..n]), evs[n];
    if Completes(s, env, ev, k) {
      CompletionTime(s, env, ev, k);
    } else {
      CompletedStep(s, env, ev, k);
      hide Step;
      CompletedAt(env, evs[..n], k);
    }
  }

  /** After every received packet a message counts as completed if and only if its last completion is less than a minute
      old. */
  lemma CompletedExactly(env: Env, evs: seq<Event>, ev: Event, k: MsgKey)
    requires ev.Receive? && Realistic(env, evs + [ev])
    ensures var all := evs + [ev];
      (k in Exec(env, all).completed <==>
         LastCompletion(env, all, k) > 0 && ev.now - (LastCompletion(env, all, k) - 1) < CACHE_TIMEOUT)
  {
    var all := evs + [ev];
    assert all[..|evs|] == evs && all[|all| - 1] == ev;
    ReceivePurges(Exec(env, evs), env, ev);
    hide Step;
    hide Completes;
    if k in Exec(env, all).completed {
      CompletedAt(env, all, k);
    } else if LastCompletion(env, all, k) > 0 {
      CompletedRemembered(env, all, k);
    }
  }

  /** The packets last cached under a message id, and when. */
  function LastCached(evs: seq<Event>, m: U32): Option<Cached> {
    if evs == [] then None
    else
      var n := |evs| - 1;
      if evs[n].CacheSent? && evs[n].packets != [] && evs[n].packets[0].header.msgId == m
      then Some(Cached(evs[n].packets, evs[n].now))
      else LastCached(evs[..n], m)
  }

  lemma OutboxStep(s: Engine, env: Env, ev: Event, m: U32)
    requires !(ev.CacheSent? && ev.packets != [] && ev.packets[0].header.msgId == m)
    ensures var s' := Step(s, env, ev);
      && (m in s'.outbox ==> m in s.outbox && s'.outbox[m] == s.outbox[m])
      && (m in s.outbox && m !in s'.outbox ==> Since(ev.now, s.outbox[m].cachedAt) >= CACHE_TIMEOUT)
  {
    hide Assemble;
    hide Evict;
    hide Complete;
    hide Oldest;
  }

  lemma {:induction false} OutboxRemembered(env: Env, evs: seq<Event>, m: U32)
    requires Realistic(env, evs)
    ensures var outbox, last := Exec(env, evs).outbox, LastCached(evs, m);
      && (m in outbox ==> last == Some(outbox[m]))
      && (m !in outbox && last.Some? ==> evs != [] && evs[|evs| - 1].now - last.value.cachedAt >= CACHE_TIMEOUT)
  {
    if evs != [] {
      var n := |evs| - 1;
      OutboxRemembered(env, evs[..n], m);
      if !(evs[n].CacheSent? && evs[n].packets != [] && evs[n].packets[0].header.msgId == m) {
        OutboxStep(Exec(env, evs[..n]), env, evs[n], m);
        hide Step;
        if n > 0 {
          assert evs[..n][n - 1] == evs[n - 1];
        }
      }
    }
  }

  /** After every received packet the outbox holds, for each message id, the packets last cached under it if that is
      less than a minute ago, and nothing otherwise. */
  lemma OutboxExactly(env: Env, evs: seq<Event>, ev: Event, m: U32)
    requires ev.Receive? && Realistic(env, evs + [ev])
    ensures var outbox, last := Exec(env, evs + [ev]).outbox, LastCached(evs, m);
      && (m in outbox <==> last.Some? && ev.now - last.value.cachedAt < CACHE_TIMEOUT)
      && (m in outbox ==> outbox[m] == last.value)
  {
    var all := evs + [ev];
    assert all[..|evs|] == evs && all[|all| - 1] == ev;
    OutboxRemembered(env, all, m);
    ReceivePurges(Exec(env, evs), env, ev);
    hide Step;
  }

  lemma {:induction false} SelectedMembers(packets: seq<MeshPacket>, l: seq<nat>)
    ensures forall q <- Selected(packets, l) :: q in packets
  {
    if l != [] {
      SelectedMembers(packets, l[..|l| - 1]);
    }
  }

  /** Right after a received packet, only a SACK is ever answered, only for a message cached less than a minute ago, and
      with packets of that message only. */
  lemma AnswersRecent(env: Env, evs: seq<Event>, ev: Event, p: MeshPacket)
    requires ev.Receive? && Realistic(env, evs + [ev]) && HandleSack(Exec(env, evs + [ev]), p) != []
    ensures p.HasFlag(FLAG_SACK)
    ensures var last := LastCached(evs, p.header.msgId);
      && last.Some? && ev.now - last.value.cachedAt < CACHE_TIMEOUT
      && forall q <- HandleSack(Exec(env, evs + [ev]), p) :: q in last.value.packets
  {
    var s := Exec(env, evs + [ev]);
    OutboxExactly(env, evs, ev, p.header.msgId);
    SelectedMembers(s.outbox[p.header.msgId].packets, MissingList(DecodeSack(p.payload)));
    hide Exec;
    hide LastCached;
    hide MissingList;
    hide DecodeSack;
    hide Selected;
  }
}
