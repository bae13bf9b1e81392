/** Where every packet pushed into the ring is: on the card, still held, or evicted. */
module Conservation {
  import opened Bytes
  import opened Wire
  import opened Records
  import opened Storage
  import opened Checkpoints
  import opened Recovery
  import SramRing

  // ---------------------------------------------------------------- what was written lies below the count

  /** The last cells below `c` hold `written`. */
  ghost predicate Latest(cells: seq<Cell>, c: nat, written: seq<Payload>) {
    && |written| <= c <= |cells|
    && forall i | 0 <= i < |written| :: cells[c - |written| + i] == Some(written[i])
  }

  lemma LatestCell(cells: seq<Cell>, c: nat, written: seq<Payload>, p: Payload, f: Fault)
    requires Latest(cells, c, written)
    ensures var cells' := WriteCell(cells, c, p, f);
      if f.Done? then Latest(cells', c + 1, written + [p]) else Latest(cells', c, written)
  {
  }

  /** What a turn counts and writes. */
  lemma TurnCounts(s: Live, crc: Crc32)
    requires s.mgr.sequence < U64_MAX
    ensures var s' := FlushOne(s, crc);
      if Writing(s) && NextFault(s.faults).Done?
      then s'.mgr.sequence == s.mgr.sequence + 1 && s'.written == s.written + [s.ring.items[0].payload]
      else s'.mgr.sequence == s.mgr.sequence && s'.written == s.written
  {
    hide RecordSector;
    hide EncodeCheckpoint;
    hide Settle;
  }

  lemma LatestTurn(b: Book, s: Live, before: seq<Payload>, crc: Crc32)
    requires Latest(b.cells, s.mgr.sequence, before + s.written) && s.mgr.sequence < U64_MAX
    ensures Latest(Turn(b, s).cells, FlushOne(s, crc).mgr.sequence, before + FlushOne(s, crc).written)
  {
    hide FlushOne;
    hide CheckpointFault;
    hide WriteCell;
    hide Latest;
    TurnCounts(s, crc);
    if Writing(s) {
      var p := s.ring.items[0].payload;
      LatestCell(b.cells, s.mgr.sequence, before + s.written, p, NextFault(s.faults));
      assert (before + s.written) + [p] == before + (s.written + [p]);
    }
  }

  lemma LatestFlush(h: History, faults: seq<Fault>, crc: Crc32)
    requires h.power.On? && h.power.mgr.sequence == h.count && FIRST_LBA + |h.book.cells| + 2 <= U32_MAX
    requires Latest(h.book.cells, h.count, h.written)
    ensures var h' := Apply(h, Flush(faults), crc); Latest(h'.book.cells, h'.count, h'.written)
  {
    var s0 := Waking(h, faults);
    assert h.written + [] == h.written;
    LatestTurn(h.book, s0, h.written, crc);
    TurnSequence(s0, crc);
    hide FlushOne;
    hide Turn;
    LatestTurn(Turn(h.book, s0), FlushOne(s0, crc), h.written, crc);
    FlushResult(h, faults, crc);
    hide Apply;
  }

  lemma LatestStep(h: History, ev: Event, crc: Crc32)
    requires FIRST_LBA + |h.book.cells| + 2 <= U32_MAX && (h.power.On? ==> h.power.mgr.sequence == h.count)
    requires Latest(h.book.cells, h.count, h.written)
    requires var h' := Apply(h, ev, crc); h'.count <= |h'.book.cells|
    ensures var h' := Apply(h, ev, crc); Latest(h'.book.cells, h'.count, h'.written)
  {
    hide FlushTick;
    hide Turn;
    hide Boot;
    if ev.Flush? && h.power.On? {
      LatestFlush(h, ev.faults, crc);
    }
  }

  /** Over every run, what was written since the last power-on is on the card in order, right below the count. */
  lemma {:induction false} WrittenOnCard(card: Disk, evs: seq<Event>, crc: Crc32)
    requires Unused(card, crc) && Fair(card, evs, crc) && BelowSaturation(card, evs, crc)
    ensures var h := Exec(card, evs, crc);
      Latest(h.book.cells, h.count, h.written) && CellsOnCard(h.disk, h.book.cells, crc)
  {
    RunDurable(card, evs, crc);
    CountBounded(Exec(card, evs, crc), crc);
    if evs != [] {
      var n := |evs| - 1;
      var h := Exec(card, evs[..n], crc);
      WrittenOnCard(card, evs[..n], crc);
      RunDurable(card, evs[..n], crc);
      CountBounded(h, crc);
      hide Durable;
      hide CellsOnCard;
      hide Apply;
      LatestStep(h, evs[n], crc);
    }
  }

  // ---------------------------------------------------------------- the log area

  /** Below the log area, only the two checkpoint sectors differ from `card`. */
  ghost predicate LogOnly(card: Disk, d: Disk) {
    forall lba: nat | lba < 10 && lba != 1 && lba != 2 :: ReadBlock(d, lba) == ReadBlock(card, lba)
  }

  lemma SettleElsewhere(d: Disk, at: nat, data: Sector, f: Fault, lba: nat)
    requires lba != at
    ensures ReadBlock(Settle(d, at, data, f), lba) == ReadBlock(d, lba)
  {
  }

  lemma SettleInLog(card: Disk, d: Disk, at: nat, data: Sector, f: Fault)
    requires LogOnly(card, d) && (at >= 10 || at == 1 || at == 2)
    ensures LogOnly(card, Settle(d, at, data, f))
  {
    hide Settle;
    hide ReadBlock;
    forall lba: nat | lba < 10 && lba != 1 && lba != 2
      ensures ReadBlock(Settle(d, at, data, f), lba) == ReadBlock(card, lba)
    {
      SettleElsewhere(d, at, data, f, lba);
    }
  }

  lemma CheckpointInLog(card: Disk, s: Live, crc: Crc32)
    requires LogOnly(card, s.disk)
    ensures LogOnly(card, WriteCheckpoint(s, crc).disk) && WriteCheckpoint(s, crc).mgr == s.mgr
  {
    hide EncodeCheckpoint;
    hide Settle;
    hide LogOnly;
    var data := EncodeCheckpoint(CheckpointOf(s.mgr), crc);
    SettleInLog(card, s.disk, CheckpointLba(s.mgr.sequence), data, NextFault(s.faults));
  }

  lemma TurnInLog(card: Disk, s: Live, crc: Crc32)
    requires LogOnly(card, s.disk) && s.mgr.lba >= 10
    ensures LogOnly(card, FlushOne(s, crc).disk) && FlushOne(s, crc).mgr.lba >= 10
  {
    hide RecordSector;
    hide Settle;
    hide LogOnly;
    hide WriteCheckpoint;
    if Writing(s) {
      var p, next, f := s.ring.items[0].payload, SaturatingAdd(s.mgr.sequence, 1, U64_MAX), NextFault(s.faults);
      var d := Settle(s.disk, s.mgr.lba, RecordSector(ChunkRecord(next, p), crc), f);
      SettleInLog(card, s.disk, s.mgr.lba, RecordSector(ChunkRecord(next, p), crc), f);
      CheckpointInLog(card, s.(disk := d,
        mgr := s.mgr.(sequence := next, lba := SaturatingAdd(s.mgr.lba, 1, U32_MAX)),
        ring := SramRing.Pop(s.ring), faults := RestFaults(s.faults), written := s.written + [p]), crc);
    }
  }

  /** The manager stays inside its area: in every run from any card whatever, with any faults and any failing start-up
      reads, records go to LBA 10 and above, and no other sector than the checkpoint sectors 1 and 2 ever changes. */
  lemma {:induction false} RunInLog(card: Disk, evs: seq<Event>, crc: Crc32)
    ensures var h := Exec(card, evs, crc);
      LogOnly(card, h.disk) && (h.power.On? ==> h.power.mgr.lba >= 10)
  {
    if evs != [] {
      var n := |evs| - 1;
      RunInLog(card, evs[..n], crc);
      var h := Exec(card, evs[..n], crc);
      hide FlushOne;
      hide Turn;
      hide LogOnly;
      hide CheckpointAt;
      if evs[n].Flush? && h.power.On? {
        var s0 := Waking(h, evs[n].faults);
        TurnInLog(card, s0, crc);
        TurnInLog(card, FlushOne(s0, crc), crc);
        FlushResult(h, evs[n].faults, crc);
      }
    }
  }

  // ---------------------------------------------------------------- conservation

  /** One turn moves the oldest packet from the ring to the card, or moves nothing; a reported data-write failure
      latches RAM-only mode and leaves the ring as it was. */
  lemma TurnConserves(s: Live, crc: Crc32)
    ensures var s' := FlushOne(s, crc);
      && s'.written + Payloads(s'.ring.items) == s.written + Payloads(s.ring.items)
      && s'.ring.dropped == s.ring.dropped && |s.written| <= |s'.written| <= |s.written| + 1
      && ((Writing(s) && NextFault(s.faults).Error?) ==>
           s'.mgr.ramOnly && s'.ring == s.ring && s'.written == s.written)
      && (s.mgr.ramOnly ==> s' == s)
  {
    if |FlushOne(s, crc).written| > |s.written| {
      var items := s.ring.items;
      assert Payloads(items) == [items[0].payload] + Payloads(items[1..]);
    }
  }

  /** A flush moves at most two packets, oldest first, and neither loses nor reorders any. */
  lemma FlushConserves(d: Disk, m: Manager, r: SramRing.Ring, faults: seq<Fault>, crc: Crc32)
    ensures var s := FlushTick(d, m, r, faults, crc);
      && s.written + Payloads(s.ring.items) == Payloads(r.items) && |s.written| <= 2 && s.ring.dropped == r.dropped
  {
    hide FlushOne;
    var s0 := Live(d, m, r, true, faults, []);
    TurnConserves(s0, crc);
    TurnConserves(FlushOne(s0, crc), crc);
  }

  lemma TurnProgress(s: Live, crc: Crc32)
    requires s.powered && !s.mgr.ramOnly && s.faults == []
    ensures var s' := FlushOne(s, crc);
      && s'.powered && !s'.mgr.ramOnly && s'.faults == []
      && |s'.written| == |s.written| + Min(1, |s.ring.items|)
      && |s'.ring.items| == |s.ring.items| - Min(1, |s.ring.items|)
  {
    hide RecordSector;
    hide EncodeCheckpoint;
  }

  /** A flush in card mode whose writes all succeed moves as many packets as it may. */
  lemma FlushProgress(d: Disk, m: Manager, r: SramRing.Ring, crc: Crc32)
    requires !m.ramOnly
    ensures var s := FlushTick(d, m, r, [], crc); s.powered && !s.mgr.ramOnly && |s.written| == Min(2, |r.items|)
  {
    var s0 := Live(d, m, r, true, [], []);
    TurnProgress(s0, crc);
    TurnProgress(FlushOne(s0, crc), crc);
  }

  lemma FlushDrains(h: History, crc: Crc32)
    requires h.power.On? && !h.power.mgr.ramOnly
    ensures var h', held := Apply(h, Flush([]), crc), h.power.ring.items;
      && h'.power.On? && !h'.power.mgr.ramOnly && |h'.written| == |h.written| + Min(2, |held|)
      && h'.written + Payloads(h'.power.ring.items) == h.written + Payloads(held)
  {
    hide FlushTick;
    hide FlushOne;
    hide Turn;
    hide Payloads;
    var r := h.power.ring;
    FlushConserves(h.disk, h.power.mgr, r, [], crc);
    FlushProgress(h.disk, h.power.mgr, r, crc);
    var s := FlushTick(h.disk, h.power.mgr, r, [], crc);
    assert (h.written + s.written) + Payloads(s.ring.items) == h.written + (s.written + Payloads(s.ring.items));
  }

  /** Flushes whose writes all succeed drain the ring to the card in order, two packets each: half as many flushes as
      there are packets leave it empty, with every payload written. */
  lemma {:induction false} FlushesDrain(h: History, k: nat, crc: Crc32)
    requires h.power.On? && !h.power.mgr.ramOnly
    ensures var h', held := Flushes(h, k, crc), h.power.ring.items;
      && h'.power.On? && !h'.power.mgr.ramOnly && |h'.written| == |h.written| + Min(2 * k, |held|)
      && h'.written + Payloads(h'.power.ring.items) == h.written + Payloads(held)
      && (2 * k >= |held| ==> h'.power.ring.items == [] && h'.written == h.written + Payloads(held))
  {
    hide Apply;
    hide Payloads;
    if k > 0 {
      FlushesDrain(h, k - 1, crc);
      FlushDrains(Flushes(h, k - 1, crc), crc);
    }
    var h' := Flushes(h, k, crc);
    assert |h'.written + Payloads(h'.power.ring.items)| == |h.written| + |h.power.ring.items|;
  }

  /** Everything pushed since the last power-on is written, in the ring or evicted. */
  ghost predicate Conserved(h: History) {
    match h.power
    case Off => true
    case On(_, r) =>
      && multiset(h.pushed) == multiset(h.written) + multiset(Payloads(r.items)) + multiset(h.evicted)
      && r.dropped == Min(|h.evicted|, U32_MAX)
  }

  lemma PushPayloads(r: SramRing.Ring, p: MeshPacket)
    ensures var (r', evicted) := SramRing.Push(r, p);
      multiset(Payloads(r.items)) + multiset{p.payload}
        == if evicted.None? then multiset(Payloads(r'.items))
           else multiset(Payloads(r'.items)) + multiset{evicted.value.payload}
  {
    var items := r.items;
    var items' := SramRing.Push(r, p).0.items;
    if |items| < SramRing.CAPACITY {
      assert Payloads(items') == Payloads(items) + [p.payload];
    } else {
      assert Payloads(items) == [items[0].payload] + Payloads(items[1..]);
      assert Payloads(items') == Payloads(items[1..]) + [p.payload];
    }
  }

  lemma PushConserves(h: History, p: MeshPacket, crc: Crc32)
    requires Conserved(h) && h.power.On?
    ensures Conserved(Apply(h, Push(p), crc))
  {
    PushPayloads(h.power.ring, p);
    hide Payloads;
    var evicted := SramRing.Push(h.power.ring, p).1;
    assert multiset(h.pushed + [p.payload]) == multiset(h.pushed) + multiset{p.payload};
    var held := multiset(Payloads(h.power.ring.items));
    var held' := multiset(Payloads(SramRing.Push(h.power.ring, p).0.items));
    var log, gone := multiset(h.written), multiset(h.evicted);
    assert log + held + gone + multiset{p.payload} == log + (held + multiset{p.payload}) + gone;
    if evicted.Some? {
      var x := multiset{evicted.value.payload};
      assert multiset(h.evicted + [evicted.value.payload]) == gone + x;
      assert log + (held' + x) + gone == log + held' + (gone + x);
    }
  }

  lemma FlushKeepsConserved(h: History, faults: seq<Fault>, crc: Crc32)
    requires Conserved(h) && h.power.On?
    ensures Conserved(Apply(h, Flush(faults), crc))
  {
    hide FlushOne;
    hide Payloads;
    hide Turn;
    FlushConserves(h.disk, h.power.mgr, h.power.ring, faults, crc);
    var s := FlushTick(h.disk, h.power.mgr, h.power.ring, faults, crc);
    assert multiset(h.written + s.written) == multiset(h.written) + multiset(s.written);
    assert multiset(s.written + Payloads(s.ring.items)) == multiset(s.written) + multiset(Payloads(s.ring.items));
  }

  /** Conservation over every run, whatever fails: since the last power-on, pushes = written + held + evicted as
      multisets of payloads, and the drop counter is the number of evictions until it saturates. */
  lemma {:induction false} RunConserves(card: Disk, evs: seq<Event>, crc: Crc32)
    ensures Conserved(Exec(card, evs, crc))
  {
    if evs != [] {
      var n := |evs| - 1;
      RunConserves(card, evs[..n], crc);
      var h := Exec(card, evs[..n], crc);
      match evs[n]
      case Push(p) =>
        if h.power.On? {
          PushConserves(h, p, crc);
        }
      case Flush(faults) =>
        if h.power.On? {
          FlushKeepsConserved(h, faults, crc);
        }
      case PowerOn(_, _) =>
        assert Payloads([]) == [];
      case PowerOff =>
    }
  }

  // ---------------------------------------------------------------- order

  /** `all` is `a` and `b` interleaved, each in its own order. */
  ghost predicate Merges(all: seq<Payload>, a: seq<Payload>, b: seq<Payload>) {
    if all == [] then a == [] && b == []
    else
      var n := |all| - 1;
      || (a != [] && a[|a| - 1] == all[n] && Merges(all[..n], a[..|a| - 1], b))
      || (b != [] && b[|b| - 1] == all[n] && Merges(all[..n], a, b[..|b| - 1]))
  }

  lemma MergesEmpty()
    ensures Merges([], [], [])
  {
  }

  lemma MergesSnoc(all: seq<Payload>, a: seq<Payload>, b: seq<Payload>, x: Payload)
    requires Merges(all, a, b)
    ensures Merges(all + [x], a + [x], b) && Merges(all + [x], a, b + [x])
  {
    assert (all + [x])[..|all|] == all && (a + [x])[..|a|] == a && (b + [x])[..|b|] == b;
  }

  lemma {:induction false} MergesLeft(all: seq<Payload>, a: seq<Payload>, b: seq<Payload>, w: seq<Payload>)
    requires Merges(all, a, b)
    ensures Merges(all + w, a + w, b)
  {
    if w == [] {
      assert all + w == all && a + w == a;
    } else {
      var n := |w| - 1;
      MergesLeft(all, a, b, w[..n]);
      MergesSnoc(all + w[..n], a + w[..n], b, w[n]);
      assert all + w == (all + w[..n]) + [w[n]] && a + w == (a + w[..n]) + [w[n]];
    }
  }

  lemma {:induction false} MergesNone(all: seq<Payload>, a: seq<Payload>)
    requires Merges(all, a, [])
    ensures all == a
  {
    if all != [] {
      MergesNone(all[..|all| - 1], a[..|a| - 1]);
    }
  }

  /** The last `held` pushes are still in the ring; the others were written or evicted, each oldest first. */
  ghost predicate Left(h: History, held: nat) {
    held <= |h.pushed| && Merges(h.pushed[..|h.pushed| - held], h.written, h.evicted)
  }

  /** The ring is a queue: it holds the last pushes since power-on, in order. */
  ghost predicate Queued(h: History) {
    match h.power
    case Off => exists held: nat :: Left(h, held)
    case On(_, r) => Left(h, |r.items|) && Payloads(r.items) == h.pushed[|h.pushed| - |r.items|..]
  }

  /** What a push does to the payloads held. */
  lemma PushedPayloads(r: SramRing.Ring, p: MeshPacket)
    ensures var (r', evicted) := SramRing.Push(r, p); var held := Payloads(r.items);
      if evicted.None? then Payloads(r'.items) == held + [p.payload]
      else held != [] && evicted.value.payload == held[0] && Payloads(r'.items) == held[1..] + [p.payload]
  {
  }

  lemma PushQueued(h: History, p: MeshPacket, crc: Crc32)
    requires Queued(h) && h.power.On?
    ensures Queued(Apply(h, Push(p), crc))
  {
    var held, n := Payloads(h.power.ring.items), |h.pushed| - |h.power.ring.items|;
    var evicted := SramRing.Push(h.power.ring, p).1;
    PushedPayloads(h.power.ring, p);
    hide Payloads;
    hide SramRing.Push;
    hide Merges;
    var pushed := h.pushed + [p.payload];
    if evicted.None? {
      assert pushed[..n] == h.pushed[..n] && pushed[n..] == held + [p.payload];
    } else {
      MergesSnoc(h.pushed[..n], h.written, h.evicted, held[0]);
      assert h.pushed[n] == held[0];
      assert pushed[..n + 1] == h.pushed[..n] + [held[0]] && pushed[n + 1..] == held[1..] + [p.payload];
    }
  }

  lemma SplitTail(s: seq<Payload>, n: nat, w: seq<Payload>, rest: seq<Payload>)
    requires n <= |s| && s[n..] == w + rest
    ensures n + |w| <= |s| && s[..n + |w|] == s[..n] + w && s[n + |w|..] == rest
  {
    assert s == s[..n] + (w + rest);
  }

  lemma FlushQueued(h: History, faults: seq<Fault>, crc: Crc32)
    requires Queued(h) && h.power.On?
    ensures Queued(Apply(h, Flush(faults), crc))
  {
    hide FlushOne;
    hide FlushTick;
    hide Turn;
    hide Merges;
    var r, n := h.power.ring, |h.pushed| - |h.power.ring.items|;
    var s := FlushTick(h.disk, h.power.mgr, r, faults, crc);
    FlushConserves(h.disk, h.power.mgr, r, faults, crc);
    hide Payloads;
    var w := s.written;
    MergesLeft(h.pushed[..n], h.written, h.evicted, w);
    SplitTail(h.pushed, n, w, Payloads(s.ring.items));
    assert Left(Apply(h, Flush(faults), crc), |s.ring.items|);
  }

  lemma FreshQueued(h: History, ev: Event, crc: Crc32)
    requires h.power.Off? && ev.PowerOn?
    ensures Queued(Apply(h, ev, crc))
  {
    hide Boot;
    MergesEmpty();
    hide Merges;
    hide Newest;
    assert Payloads(SramRing.EMPTY.items) == [];
  }

  lemma QueuedStep(h: History, ev: Event, crc: Crc32)
    requires Queued(h)
    ensures Queued(Apply(h, ev, crc))
  {
    hide FlushTick;
    hide Turn;
    hide Boot;
    hide Payloads;
    hide SramRing.Push;
    hide Merges;
    match ev
    case Push(p) =>
      if h.power.On? {
        PushQueued(h, p, crc);
      }
    case Flush(faults) =>
      if h.power.On? {
        FlushQueued(h, faults, crc);
      }
    case PowerOn(_, _) =>
      if h.power.Off? {
        FreshQueued(h, ev, crc);
      }
    case PowerOff =>
      if h.power.On? {
        assert Left(Apply(h, PowerOff, crc), |h.power.ring.items|);
      }
  }

  /** The order of packets over every run, whatever fails: since the last power-on the ring holds the last pushes in
      order, and all earlier ones were written or evicted, both in the order of pushing. With nothing evicted, what was
      written followed by what is held is exactly what was pushed. */
  lemma {:induction false} RunOrdered(card: Disk, evs: seq<Event>, crc: Crc32)
    ensures var h := Exec(card, evs, crc);
      && Queued(h)
      && (h.power.On? && h.evicted == [] ==> h.written + Payloads(h.power.ring.items) == h.pushed)
  {
    var h' := Exec(card, evs, crc);
    MergesEmpty();
    hide Merges;
    hide Apply;
    if evs == [] {
      assert Left(h', 0);
    } else {
      var n := |evs| - 1;
      RunOrdered(card, evs[..n], crc);
      QueuedStep(Exec(card, evs[..n], crc), evs[n], crc);
    }
    hide Exec;
    if h'.power.On? && h'.evicted == [] {
      MergesNone(h'.pushed[..|h'.pushed| - |h'.power.ring.items|], h'.written);
    }
  }
}
