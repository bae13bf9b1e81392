/** The host's chunk engine: reassembly under in-flight caps, duplicate suppression and selective retransmission.
    Clock readings are arguments in milliseconds. A hash map yields its keys in an order of its own: operations whose
    result depends on it take that order as an argument. */
module ChunkEngine {
  import opened Bytes
  import opened Wire
  import opened Sack
  import opened Chunks

  const MAX_GLOBAL_IN_FLIGHT := 16
  const MAX_PER_SENDER_IN_FLIGHT := 2
  const REASSEMBLY_TIMEOUT := 10_000
  const CACHE_TIMEOUT := 60_000
  const SACK_INITIAL_DELAY := 300
  const SACK_RETRY_INTERVAL := 500
  const MAX_SACK_RETRIES := 3
  const SACK_TTL := 5

  datatype MsgKey = MsgKey(src: U32, msgId: U32)

  datatype InFlight = InFlight(totalChunks: nat, received: seq<Option<Plain>>, firstReceived: nat, lastReceived: nat,
                               lastSackSent: Option<nat>, sackCount: nat)

  datatype Cached = Cached(packets: seq<MeshPacket>, cachedAt: nat)

  datatype Engine = Engine(inFlight: map<MsgKey, InFlight>, completed: map<MsgKey, nat>, outbox: map<U32, Cached>)

  const EMPTY := Engine(map[], map[], map[])

  /** The cipher, the swarm key, and which byte strings are UTF-8. */
  datatype Env = Env(crypto: Crypto, master: SecretKey, utf8: Text -> bool)

  /** `Panicked` is the index out of range that a packet with a larger chunk count than its message can cause. */
  datatype IngestResult = Buffered | Delivered(text: Text) | Rejected(error: CryptoError) | Panicked

  /** `duration_since`, which is zero for a later instant. */
  function Since(now: nat, earlier: nat): nat {
    Max(now - earlier, 0)
  }

  // ---------------------------------------------------------------- purge and eviction

  function Purge(s: Engine, now: nat): Engine {
    Engine(map k | k in s.inFlight && Since(now, s.inFlight[k].lastReceived) < REASSEMBLY_TIMEOUT :: s.inFlight[k],
           map k | k in s.completed && Since(now, s.completed[k]) < CACHE_TIMEOUT :: s.completed[k],
           map m | m in s.outbox && Since(now, s.outbox[m].cachedAt) < CACHE_TIMEOUT :: s.outbox[m])
  }

  /** An order in which a map may yield its keys. */
  ghost predicate Enumerates(order: seq<MsgKey>, m: map<MsgKey, InFlight>) {
    && (forall k :: k in order <==> k in m)
    && (forall i, j | 0 <= i < j < |order| :: order[i] != order[j])
  }

  /** The keys of `order` that are in `m`, of sender `src` if one is given. */
  predicate Candidate(k: MsgKey, m: map<MsgKey, InFlight>, src: Option<U32>) {
    k in m && (src.Some? ==> k.src == src.value)
  }

  /** The first candidate of `order` that was received first: a `min_by_key` over the map. */
  function Oldest(order: seq<MsgKey>, m: map<MsgKey, InFlight>, src: Option<U32>): (r: Option<MsgKey>)
    ensures r.Some? ==> r.value in order && Candidate(r.value, m, src)
    ensures r.Some? ==> forall k <- order | Candidate(k, m, src) :: m[r.value].firstReceived <= m[k].firstReceived
    ensures r.None? ==> forall k <- order :: !Candidate(k, m, src)
  {
    if order == [] then None
    else
      var n := |order| - 1;
      var best, k := Oldest(order[..n], m, src), order[n];
      assert order == order[..n] + [k];
      if Candidate(k, m, src) && (best.None? || m[k].firstReceived < m[best.value].firstReceived) then Some(k) else best
  }

  function Without(m: map<MsgKey, InFlight>, k: Option<MsgKey>): map<MsgKey, InFlight> {
    if k.Some? then m - {k.value} else m
  }

  function OfSender(m: map<MsgKey, InFlight>, src: U32): set<MsgKey> {
    set k <- m | k.src == src
  }

  /** Room for one more message of `src`: first the sender's own cap, then the global one. */
  function Evict(m: map<MsgKey, InFlight>, src: U32, order: seq<MsgKey>): map<MsgKey, InFlight> {
    var m1 := if |OfSender(m, src)| >= MAX_PER_SENDER_IN_FLIGHT then Without(m, Oldest(order, m, Some(src))) else m;
    if |m1| >= MAX_GLOBAL_IN_FLIGHT then Without(m1, Oldest(order, m1, None)) else m1
  }

  // ---------------------------------------------------------------- ingest

  function Blank(total: nat): seq<Option<Plain>> {
    seq(total, _ => None)
  }

  predicate Complete(received: seq<Option<Plain>>) {
    forall i | 0 <= i < |received| :: received[i].Some?
  }

  function Filled(received: seq<Option<Plain>>): (r: seq<Plain>)
    requires Complete(received)
    ensures |r| == |received| && forall i | 0 <= i < |r| :: r[i] == received[i].value
  {
    seq(|received|, i requires 0 <= i < |received| => received[i].value)
  }

  /** The in-flight table when a packet of message `k` is about to be decrypted. */
  function MakeRoom(s: Engine, k: MsgKey, order: seq<MsgKey>): Engine {
    if k in s.inFlight then s else s.(inFlight := Evict(s.inFlight, k.src, order))
  }

  function Entry(s: Engine, k: MsgKey, total: nat, now: nat): InFlight {
    if k in s.inFlight then s.inFlight[k] else InFlight(total, Blank(total), now, now, None, 0)
  }

  function Store(e: InFlight, idx: nat, plain: Plain, now: nat): InFlight
    requires idx < |e.received|
  {
    if e.received[idx].None? then e.(received := e.received[idx := Some(plain)], lastReceived := now) else e
  }

  /** Storing an authenticated chunk, and delivering the message if it was the last one missing. */
  function Accept(s: Engine, env: Env, k: MsgKey, total: nat, idx: nat, plain: Plain, now: nat):
    (Engine, IngestResult)
  {
    var entry := Entry(s, k, total, now);
    if idx >= |entry.received| then (s, Panicked)
    else
      var e := Store(entry, idx, plain, now);
      if !Complete(e.received) then (s.(inFlight := s.inFlight[k := e]), Buffered)
      else
        var text := Assemble(Filled(e.received));
        (s.(inFlight := s.inFlight - {k}, completed := s.completed[k := now]),
         if env.utf8(text) then Delivered(text) else Buffered)
  }

  function Ingest(s: Engine, env: Env, src: U32, p: MeshPacket, now: nat, order: seq<MsgKey>): (Engine, IngestResult) {
    var s1 := Purge(s, now);
    var h, k := p.header, MsgKey(src, p.header.msgId);
    if h.totalChunks == 0 || h.totalChunks > MAX_TOTAL_CHUNKS || h.chunkIdx >= h.totalChunks then
      (s1, Rejected(PayloadTooLarge))
    else if k in s1.completed then (s1, Buffered)
    else
      var s2 := MakeRoom(s1, k, order);
      match env.crypto.unseal(At(env.crypto, env.master, src, h.msgId, h.chunkIdx), p.payload)
      case None => (s2, Rejected(AuthenticationFailed))
      case Some(plain) => Accept(s2, env, k, h.totalChunks, h.chunkIdx, plain, now)
  }

  // ---------------------------------------------------------------- retransmission

  function CacheOutbound(s: Engine, packets: seq<MeshPacket>, now: nat): Engine {
    if packets == [] then s else s.(outbox := s.outbox[packets[0].header.msgId := Cached(packets, now)])
  }

  function Selected(packets: seq<MeshPacket>, indices: seq<nat>): seq<MeshPacket> {
    if indices == [] then []
    else
      var n := |indices| - 1;
      Selected(packets, indices[..n]) + if indices[n] < |packets| then [packets[indices[n]]] else []
  }

  function HandleSack(s: Engine, p: MeshPacket): seq<MeshPacket> {
    if !p.HasFlag(FLAG_SACK) || p.header.msgId !in s.outbox then []
    else Selected(s.outbox[p.header.msgId].packets, MissingList(DecodeSack(p.payload)))
  }

  predicate SackDue(e: InFlight, now: nat) {
    && !Complete(e.received)
    && Since(now, e.lastReceived) >= SACK_INITIAL_DELAY
    && e.sackCount < MAX_SACK_RETRIES
    && (e.lastSackSent.Some? ==> Since(now, e.lastSackSent.value) >= SACK_RETRY_INTERVAL)
  }

  /** The mask with the first `n` chunks' gaps marked. */
  function Gaps(node: U32, src: U32, received: seq<Option<Plain>>, n: nat): SackInfo
    requires n <= |received|
  {
    if n == 0 then SackInfo(node, src, 0, NoneMissing())
    else
      var before := Gaps(node, src, received, n - 1);
      if received[n - 1].None? then MarkMissing(before, n - 1) else before
  }

  function SackPacket(k: MsgKey, e: InFlight, node: U32, tag: U64): MeshPacket {
    MeshPacket(MeshHeader(tag, k.msgId, 0, e.totalChunks % 256, SACK_TTL, 0, FLAG_SACK),
               EncodeSack(Gaps(node, k.src, e.received, |e.received|)))
  }

  function Sent(e: InFlight, now: nat): InFlight {
    e.(lastSackSent := Some(now), sackCount := e.sackCount + 1)
  }

  /** The messages for which a SACK goes out, in the map's order. */
  function DueKeys(order: seq<MsgKey>, m: map<MsgKey, InFlight>, now: nat): seq<MsgKey> {
    if order == [] then []
    else
      var n := |order| - 1;
      DueKeys(order[..n], m, now) + if order[n] in m && SackDue(m[order[n]], now) then [order[n]] else []
  }

  function SackPackets(keys: seq<MsgKey>, m: map<MsgKey, InFlight>, node: U32, tag: U64): (r: seq<MeshPacket>)
    requires forall k <- keys :: k in m
    ensures |r| == |keys|
  {
    seq(|keys|, i requires 0 <= i < |keys| => SackPacket(keys[i], m[keys[i]], node, tag))
  }

  function AfterCheck(e: InFlight, now: nat): InFlight {
    if SackDue(e, now) then Sent(e, now) else e
  }

  function CheckSacks(s: Engine, now: nat): Engine {
    s.(inFlight := map k | k in s.inFlight :: AfterCheck(s.inFlight[k], now))
  }

  lemma {:induction false} DueKeysMeaning(order: seq<MsgKey>, m: map<MsgKey, InFlight>, now: nat)
    ensures forall k :: k in DueKeys(order, m, now) <==> k in order && k in m && SackDue(m[k], now)
  {
    if order != [] {
      hide SackDue;
      var n := |order| - 1;
      DueKeysMeaning(order[..n], m, now);
      assert order == order[..n] + [order[n]];
    }
  }

  function Suppress(s: Engine, msgId: U32, now: nat): Engine {
    s.(inFlight := map k | k in s.inFlight ::
         if k.msgId == msgId then s.inFlight[k].(lastSackSent := Some(now)) else s.inFlight[k])
  }

  // ---------------------------------------------------------------- the loop over pending SACKs

  /** The first `n` keys of `order` have been looked at. */
  ghost predicate Checked(m': map<MsgKey, InFlight>, m: map<MsgKey, InFlight>, order: seq<MsgKey>, n: nat, now: nat)
  {
    forall j | 0 <= j < |order| && order[j] in m && order[j] in m' ::
      m'[order[j]] == if j < n then AfterCheck(m[order[j]], now) else m[order[j]]
  }

  lemma NoneChecked(m: map<MsgKey, InFlight>, order: seq<MsgKey>, now: nat)
    ensures Checked(m, m, order, 0, now)
  {
  }

  lemma CheckedAt(m': map<MsgKey, InFlight>, m: map<MsgKey, InFlight>, order: seq<MsgKey>, i: nat, now: nat)
    requires i < |order| && order[i] in m && order[i] in m' && Checked(m', m, order, i, now)
    ensures m'[order[i]] == m[order[i]]
  {
  }

  /** The loop's step on one entry. */
  lemma CheckedStep(m': map<MsgKey, InFlight>, m: map<MsgKey, InFlight>, order: seq<MsgKey>, i: nat, now: nat)
    requires i < |order| && order[i] in m && order[i] in m' && Checked(m', m, order, i, now)
    requires forall j, l | 0 <= j < l < |order| :: order[j] != order[l]
    ensures var k := order[i];
      Checked(if SackDue(m[k], now) then m'[k := Sent(m[k], now)] else m', m, order, i + 1, now)
  {
    hide SackDue;
    hide Sent;
  }

  lemma AllChecked(m': map<MsgKey, InFlight>, m: map<MsgKey, InFlight>, order: seq<MsgKey>, now: nat)
    requires m'.Keys == m.Keys && Enumerates(order, m) && Checked(m', m, order, |order|, now)
    ensures m' == map k | k in m :: AfterCheck(m[k], now)
  {
    hide AfterCheck;
    forall k | k in m ensures m'[k] == AfterCheck(m[k], now) {
      assert k in order;
    }
  }

  lemma DueNone(m: map<MsgKey, InFlight>, node: U32, tag: U64, now: nat)
    ensures DueKeys([], m, now) == [] && SackPackets([], m, node, tag) == []
  {
  }

  lemma DueSnoc(order: seq<MsgKey>, m: map<MsgKey, InFlight>, now: nat, i: nat)
    requires i < |order| && order[i] in m
    ensures DueKeys(order[..i + 1], m, now)
         == if SackDue(m[order[i]], now) then DueKeys(order[..i], m, now) + [order[i]] else DueKeys(order[..i], m, now)
  {
    assert order[..i + 1][..i] == order[..i];
  }

  lemma SackPacketsSnoc(keys: seq<MsgKey>, k: MsgKey, m: map<MsgKey, InFlight>, node: U32, tag: U64)
    requires k in m && forall k <- keys :: k in m
    ensures SackPackets(keys + [k], m, node, tag) == SackPackets(keys, m, node, tag) + [SackPacket(k, m[k], node, tag)]
  {
  }

  // ---------------------------------------------------------------- the engine object

  class ChunkEngineState {
    const env: Env
    var inFlight: map<MsgKey, InFlight>
    var completed: map<MsgKey, nat>
    var outbox: map<U32, Cached>

    ghost function Abstract(): Engine
      reads this
    {
      Engine(inFlight, completed, outbox)
    }

    constructor (env: Env)
      ensures this.env == env && Abstract() == EMPTY
    {
      this.env := env;
      inFlight, completed, outbox := map[], map[], map[];
    }

    method PurgeExpired(now: nat)
      modifies this
      ensures Abstract() == Purge(old(Abstract()), now)
    {
      inFlight := map k | k in inFlight && Since(now, inFlight[k].lastReceived) < REASSEMBLY_TIMEOUT :: inFlight[k];
      completed := map k | k in completed && Since(now, completed[k]) < CACHE_TIMEOUT :: completed[k];
      outbox := map m | m in outbox && Since(now, outbox[m].cachedAt) < CACHE_TIMEOUT :: outbox[m];
    }

    method IngestPacket(src: U32, p: MeshPacket, now: nat, order: seq<MsgKey>) returns (r: IngestResult)
      modifies this
      ensures (Abstract(), r) == Ingest(old(Abstract()), env, src, p, now, order)
    {
      PurgeExpired(now);
      var k := MsgKey(src, p.header.msgId);
      var idx, total := p.header.chunkIdx, p.header.totalChunks;
      if total == 0 || total > MAX_TOTAL_CHUNKS {
        return Rejected(PayloadTooLarge);
      }
      if idx >= total {
        return Rejected(PayloadTooLarge);
      }
      if k in completed {
        return Buffered;
      }
      if k !in inFlight {
        EvictFor(src, order);
      }
      var plain := env.crypto.unseal(At(env.crypto, env.master, src, p.header.msgId, p.header.chunkIdx), p.payload);
      if plain.None? {
        return Rejected(AuthenticationFailed);
      }
      r := AcceptChunk(k, total, idx, plain.value, now);
    }

    method EvictFor(src: U32, order: seq<MsgKey>)
      modifies `inFlight
      ensures inFlight == Evict(old(inFlight), src, order)
    {
      if |OfSender(inFlight, src)| >= MAX_PER_SENDER_IN_FLIGHT {
        var victim := Oldest(order, inFlight, Some(src));
        if victim.Some? {
          inFlight := inFlight - {victim.value};
        }
      }
      if |inFlight| >= MAX_GLOBAL_IN_FLIGHT {
        var victim := Oldest(order, inFlight, None);
        if victim.Some? {
          inFlight := inFlight - {victim.value};
        }
      }
    }

    method AcceptChunk(k: MsgKey, total: nat, idx: nat, plain: Plain, now: nat) returns (r: IngestResult)
      modifies this
      ensures (Abstract(), r) == Accept(old(Abstract()), env, k, total, idx, plain, now)
    {
      var entry := if k in inFlight then inFlight[k] else InFlight(total, Blank(total), now, now, None, 0);
      if idx >= |entry.received| {
        return Panicked;
      }
      if entry.received[idx].None? {
        entry := entry.(received := entry.received[idx := Some(plain)], lastReceived := now);
      }
      if !Complete(entry.received) {
        inFlight := inFlight[k := entry];
        return Buffered;
      }
      var text := AssembleChunks(Filled(entry.received));
      inFlight := inFlight - {k};
      completed := completed[k := now];
      r := if env.utf8(text) then Delivered(text) else Buffered;
    }

    method Cache(packets: seq<MeshPacket>, now: nat)
      modifies `outbox
      ensures Abstract() == CacheOutbound(old(Abstract()), packets, now)
    {
      if packets != [] {
        outbox := outbox[packets[0].header.msgId := Cached(packets, now)];
      }
    }

    method AnswerSack(p: MeshPacket) returns (retransmit: seq<MeshPacket>)
      ensures retransmit == HandleSack(Abstract(), p)
    {
      retransmit := [];
      if !p.HasFlag(FLAG_SACK) || p.header.msgId !in outbox {
        return;
      }
      var packets := outbox[p.header.msgId].packets;
      var indices := ForEachMissing(DecodeSack(p.payload));
      for i := 0 to |indices|
        invariant retransmit == Selected(packets, indices[..i])
      {
        assert indices[..i + 1][..i] == indices[..i];
        if indices[i] < |packets| {
          retransmit := retransmit + [packets[indices[i]]];
        }
      }
      assert indices[..|indices|] == indices;
    }

    method BuildSack(k: MsgKey, e: InFlight, node: U32, tag: U64) returns (p: MeshPacket)
      ensures p == SackPacket(k, e, node, tag)
    {
      var sack := new SackPayload(node, k.src, 0);
      for i := 0 to |e.received|
        invariant sack.Valid() && fresh(sack.bitmask) && sack.Abstract() == Gaps(node, k.src, e.received, i)
      {
        if e.received[i].None? {
          sack.Mark(i);
        }
      }
      var info := SackInfo(sack.receiverNodeId, sack.senderNodeId, sack.baseChunk, sack.bitmask[..]);
      p := MeshPacket(MeshHeader(tag, k.msgId, 0, e.totalChunks % 256, SACK_TTL, 0, FLAG_SACK), EncodeSack(info));
    }

    method CheckPendingSacks(node: U32, tag: U64, now: nat, order: seq<MsgKey>) returns (sacks: seq<MeshPacket>)
      requires Enumerates(order, inFlight)
      modifies `inFlight
      ensures Abstract() == CheckSacks(old(Abstract()), now)
      ensures var m := old(inFlight);
        (forall k <- DueKeys(order, m, now) :: k in m) && sacks == SackPackets(DueKeys(order, m, now), m, node, tag)
    {
      hide SackDue;
      hide Sent;
      hide SackPackets;
      hide DueKeys;
      hide Checked;
      sacks := [];
      ghost var m := inFlight;
      DueNone(m, node, tag, now);
      NoneChecked(m, order, now);
      for i := 0 to |order|
        invariant inFlight.Keys == m.Keys && Checked(inFlight, m, order, i, now)
        invariant forall k <- DueKeys(order[..i], m, now) :: k in m
        invariant sacks == SackPackets(DueKeys(order[..i], m, now), m, node, tag)
      {
        var k := order[i];
        assert k in order;
        var e := inFlight[k];
        CheckedAt(inFlight, m, order, i, now);
        DueSnoc(order, m, now, i);
        CheckedStep(inFlight, m, order, i, now);
        if SackDue(e, now) {
          var p := BuildSack(k, e, node, tag);
          inFlight := inFlight[k := Sent(e, now)];
          SackPacketsSnoc(DueKeys(order[..i], m, now), k, m, node, tag);
          sacks := sacks + [p];
        }
      }
      assert order[..|order|] == order;
      AllChecked(inFlight, m, order, now);
    }

    method SuppressSack(msgId: U32, now: nat)
      modifies `inFlight
      ensures Abstract() == Suppress(old(Abstract()), msgId, now)
    {
      inFlight := map k | k in inFlight ::
        if k.msgId == msgId then inFlight[k].(lastSackSent := Some(now)) else inFlight[k];
    }
  }
}
