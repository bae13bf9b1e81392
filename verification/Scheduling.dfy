/** Runs of the transmit queue: every accepted packet leaves exactly once, in order, and within a bounded delay. */
module Scheduling {
  import opened Bytes
  import opened Wire
  import opened TxQueue
  import Tdm

  /** A queued packet with the number of its acceptance. */
  datatype Entry = Entry(id: nat, packet: MeshPacket)

  datatype Event =
    | Submit(packet: MeshPacket, jitter: U16)
    | SubmitTelemetry(packet: MeshPacket, jitter: U16)
    | Overheard(key: PacketKey)
    | MeshTick

  /** The queue and the fate of the packets accepted so far, numbered 0 .. accepted - 1. */
  datatype State = State(queue: Queue<Entry>, accepted: nat, sent: seq<nat>, cancelled: set<nat>, evicted: set<nat>)

  const INITIAL := State(Queue([], 0), 0, [], {}, {})

  function EntryHasKey(k: PacketKey): Entry -> bool {
    (e: Entry) => e.packet.Key() == k
  }

  function EntryTelemetry(): Entry -> bool {
    (e: Entry) => e.packet.IsTelemetry()
  }

  function Live(slots: seq<Option<Entry>>): (r: set<nat>)
    ensures forall id :: id in r <==> exists i :: 0 <= i < |slots| && slots[i].Some? && slots[i].value.id == id
  {
    set i | 0 <= i < |slots| && slots[i].Some? :: slots[i].value.id
  }

  ghost predicate Valid(s: State) {
    var slots := s.queue.slots;
    && |slots| <= CAPACITY
    && (slots != [] ==> 1 <= s.queue.remaining <= MAX_JITTER)
    && (forall i, j | 0 <= i < j < |slots| && slots[i].Some? && slots[j].Some? :: slots[i].value.id < slots[j].value.id)
    && (forall i | 0 <= i < |slots| && slots[i].Some? :: slots[i].value.id < s.accepted)
  }

  function Accept(s: State, p: MeshPacket, jitter: U16): State
    requires |s.queue.slots| <= CAPACITY
  {
    var slots := s.queue.slots;
    s.(queue := Schedule(s.queue, Entry(s.accepted, p), jitter), accepted := s.accepted + 1,
       evicted := if |slots| == CAPACITY && slots[0].Some? then s.evicted + {slots[0].value.id} else s.evicted)
  }

  function Step(s: State, ev: Event): State
    requires |s.queue.slots| <= CAPACITY
  {
    match ev
    case Submit(p, jitter) => Accept(s, p, jitter)
    case SubmitTelemetry(p, jitter) =>
      if UserPending(s.queue.slots, EntryTelemetry()) then s else Accept(s, p, jitter)
    case Overheard(k) =>
      var i := FirstMatch(s.queue.slots, EntryHasKey(k));
      if i == |s.queue.slots| then s
      else s.(queue := Overhear(s.queue, EntryHasKey(k)).0, cancelled := s.cancelled + {s.queue.slots[i].value.id})
    case MeshTick =>
      var (q, r) := Service(s.queue, Tdm.LOOP_MS);
      s.(queue := q, sent := if r.Some? then s.sent + [r.value.id] else s.sent)
  }

  // ---------------------------------------------------------------- taking a packet

  /** `TakePending` drops the leading holes and the first live packet. */
  lemma {:induction false} TakeShape<T>(q: Queue<T>) returns (n: nat)
    ensures n <= |q.slots| && forall i | 0 <= i < n :: q.slots[i].None?
    ensures var (q', r) := TakePending(q);
      if n == |q.slots| then r == None && q'.slots == []
      else r == q.slots[n] && r.Some? && q'.slots == q.slots[n + 1..]
    ensures var (q', r) := TakePending(q);
      q'.slots != [] ==> q'.remaining == SPACING
    decreases |q.slots|
  {
    if q.slots == [] || q.slots[0].Some? {
      n := 0;
    } else {
      var rest := Queue(q.slots[1..], if |q.slots| > 1 then SPACING else q.remaining);
      var m := TakeShape(rest);
      n := m + 1;
      if m < |rest.slots| {
        assert rest.slots[m + 1..] == q.slots[n + 1..];
      }
    }
  }

  // ---------------------------------------------------------------- one step

  /** Mesh ticks until a backoff of `remaining` milliseconds has run out. */
  function TicksFor(remaining: nat): nat {
    (remaining + Tdm.LOOP_MS - 1) / Tdm.LOOP_MS
  }

  /** Milliseconds of waiting in units of mesh ticks: the running backoff plus four ticks per earlier slot. */
  function Rank(q: Queue<Entry>, position: nat): nat {
    TicksFor(q.remaining) + 4 * position
  }

  predicate At(s: State, id: nat, position: nat) {
    position < |s.queue.slots| && s.queue.slots[position].Some? && s.queue.slots[position].value.id == id
  }

  function TickCost(ev: Event): nat {
    if ev.MeshTick? then 1 else 0
  }

  /** Every packet still waiting after the step was waiting before it (or has just been accepted), and at least `cost`
      ranks further back. */
  ghost predicate Advances(s: State, s': State, cost: nat) {
    forall id: nat, p: nat | At(s', id, p) && id < s.accepted ::
      exists p0: nat :: At(s, id, p0) && Rank(s'.queue, p) + cost <= Rank(s.queue, p0)
  }

  /** In how many ways packet `id` has been disposed of, waiting included. */
  function Fates(s: State, id: nat): nat {
    (if id in Live(s.queue.slots) then 1 else 0) + (if id in s.sent then 1 else 0) +
    (if id in s.cancelled then 1 else 0) + (if id in s.evicted then 1 else 0)
  }

  /** Every accepted packet is exactly one of waiting, sent, cancelled and evicted; packets are sent in order of
      acceptance, before all that still wait. */
  ghost predicate Accounted(s: State) {
    && (forall id: nat :: Fates(s, id) == if id < s.accepted then 1 else 0)
    && (forall i, j | 0 <= i < j < |s.sent| :: s.sent[i] < s.sent[j])
    && (forall i, id: nat | 0 <= i < |s.sent| && id in Live(s.queue.slots) :: s.sent[i] < id)
  }

  lemma LiveAt(s: State, id: nat)
    ensures id in Live(s.queue.slots) <==> exists p: nat :: At(s, id, p)
  {
    if id in Live(s.queue.slots) {
      var i :| 0 <= i < |s.queue.slots| && s.queue.slots[i].Some? && s.queue.slots[i].value.id == id;
      assert At(s, id, i);
    }
  }

  /** The packet that accepting another one pushes out of a full queue. */
  function PushedOut(s: State): Option<nat> {
    var slots := s.queue.slots;
    if |slots| == CAPACITY && slots[0].Some? then Some(slots[0].value.id) else None
  }

  lemma LiveAccept(s: State, p: MeshPacket, jitter: U16, id: nat)
    requires Valid(s)
    ensures id in Live(Accept(s, p, jitter).queue.slots)
       <==> id == s.accepted || (id in Live(s.queue.slots) && PushedOut(s) != Some(id))
  {
    var s' := Accept(s, p, jitter);
    var slots, slots' := s.queue.slots, s'.queue.slots;
    assert slots'[|slots'| - 1] == Some(Entry(s.accepted, p));
    var k := if |slots| == CAPACITY then 1 else 0;
    if id in Live(slots) && PushedOut(s) != Some(id) {
      var i :| 0 <= i < |slots| && slots[i].Some? && slots[i].value.id == id;
      assert slots'[i - k] == slots[i];
    }
    if id in Live(slots') && id != s.accepted {
      var i :| 0 <= i < |slots'| && slots'[i].Some? && slots'[i].value.id == id;
      assert slots[i + k] == slots'[i];
    }
  }

  lemma AcceptStep(s: State, p: MeshPacket, jitter: U16)
    requires Valid(s)
    ensures var s' := Accept(s, p, jitter); Valid(s') && Advances(s, s', 0)
  {
    var s' := Accept(s, p, jitter);
    var k := if |s.queue.slots| == CAPACITY then 1 else 0;
    forall id: nat, n: nat | At(s', id, n) && id < s.accepted
      ensures exists p0: nat :: At(s, id, p0) && Rank(s'.queue, n) <= Rank(s.queue, p0)
    {
      assert At(s, id, n + k);
    }
  }

  lemma AcceptAccounted(s: State, p: MeshPacket, jitter: U16)
    requires Valid(s) && Accounted(s)
    ensures Accounted(Accept(s, p, jitter))
  {
    hide Live;
    var s' := Accept(s, p, jitter);
    forall id: nat ensures Fates(s', id) == if id < s'.accepted then 1 else 0 {
      LiveAccept(s, p, jitter, id);
      assert Fates(s, id) == if id < s.accepted then 1 else 0;
      if s'.evicted != s.evicted {
        assert At(s, s.queue.slots[0].value.id, 0);
        LiveAt(s, s.queue.slots[0].value.id);
      }
    }
    forall i, id: nat | 0 <= i < |s'.sent| && id in Live(s'.queue.slots) ensures s'.sent[i] < id {
      LiveAccept(s, p, jitter, id);
      assert Fates(s, s.sent[i]) == 1;
    }
  }

  lemma OverheardStep(s: State, k: PacketKey)
    requires Valid(s)
    ensures var s' := Step(s, Overheard(k)); Valid(s') && Advances(s, s', 0)
  {
    var s' := Step(s, Overheard(k));
    forall id: nat, n: nat | At(s', id, n)
      ensures exists p0: nat :: At(s, id, p0) && Rank(s'.queue, n) <= Rank(s.queue, p0)
    {
      assert At(s, id, n);
    }
  }

  lemma LiveWithout(s: State, s': State, i: nat, id: nat)
    requires Valid(s) && i < |s.queue.slots| && s.queue.slots[i].Some?
    requires s'.queue.slots == s.queue.slots[i := None]
    ensures id in Live(s'.queue.slots) <==> id in Live(s.queue.slots) && id != s.queue.slots[i].value.id
  {
    var slots, slots' := s.queue.slots, s'.queue.slots;
    if id in Live(slots) && id != slots[i].value.id {
      var j :| 0 <= j < |slots| && slots[j].Some? && slots[j].value.id == id;
      assert slots'[j] == slots[j];
    }
  }

  lemma OverheardAccounted(s: State, k: PacketKey)
    requires Valid(s) && Accounted(s)
    ensures Accounted(Step(s, Overheard(k)))
  {
    var s', i := Step(s, Overheard(k)), FirstMatch(s.queue.slots, EntryHasKey(k));
    if i < |s.queue.slots| {
      var gone := s.queue.slots[i].value.id;
      hide Live;
      forall id: nat ensures id in Live(s'.queue.slots) <==> id in Live(s.queue.slots) && id != gone {
        LiveWithout(s, s', i, id);
      }
      assert At(s, gone, i);
      LiveAt(s, gone);
      assert Fates(s, gone) == 1;
      forall id: nat ensures Fates(s', id) == if id < s'.accepted then 1 else 0 {
        assert Fates(s, id) == if id < s.accepted then 1 else 0;
      }
    }
  }

  /** What a mesh tick does: nothing but pass time, or drop `n` holes and send the live packet after them, if any. */
  lemma TickShape(s: State) returns (n: nat)
    requires Valid(s)
    ensures var s' := Step(s, MeshTick);
      && s'.accepted == s.accepted && s'.cancelled == s.cancelled && s'.evicted == s.evicted
      && (s'.queue.slots == s.queue.slots ==>
           s'.sent == s.sent && (s.queue.slots != [] ==> s'.queue.remaining == s.queue.remaining - Tdm.LOOP_MS))
      && (s'.queue.slots != s.queue.slots ==>
           && n <= |s.queue.slots| && (forall i | 0 <= i < n :: s.queue.slots[i].None?)
           && (s'.queue.slots != [] ==> s'.queue.remaining == SPACING)
           && (n == |s.queue.slots| ==> s'.queue.slots == [] && s'.sent == s.sent)
           && (n < |s.queue.slots| ==>
                && s.queue.slots[n].Some? && s'.queue.slots == s.queue.slots[n + 1..]
                && s'.sent == s.sent + [s.queue.slots[n].value.id]))
    ensures Step(s, MeshTick).queue.slots == s.queue.slots ==> s.queue.slots == [] || s.queue.remaining > Tdm.LOOP_MS
  {
    n := TakeShape(Tick(s.queue, Tdm.LOOP_MS).0);
  }

  lemma TickStep(s: State)
    requires Valid(s)
    ensures var s' := Step(s, MeshTick); Valid(s') && Advances(s, s', 1)
  {
    hide Step;
    var s' := Step(s, MeshTick);
    var n := TickShape(s);
    var k := if s'.queue.slots == s.queue.slots then 0 else n + 1;
    forall id: nat, p: nat | At(s', id, p)
      ensures exists p0: nat :: At(s, id, p0) && Rank(s'.queue, p) + 1 <= Rank(s.queue, p0)
    {
      assert At(s, id, p + k);
    }
  }

  lemma LiveAfter(s: State, s': State, n: nat, id: nat)
    requires Valid(s) && n < |s.queue.slots| && s.queue.slots[n].Some?
    requires forall i | 0 <= i < n :: s.queue.slots[i].None?
    requires s'.queue.slots == s.queue.slots[n + 1..]
    ensures id in Live(s'.queue.slots) <==> id in Live(s.queue.slots) && id != s.queue.slots[n].value.id
  {
    var slots, slots' := s.queue.slots, s'.queue.slots;
    if id in Live(slots) && id != slots[n].value.id {
      var j :| 0 <= j < |slots| && slots[j].Some? && slots[j].value.id == id;
      assert slots'[j - n - 1] == slots[j];
    }
  }

  lemma SentBeforeLive(s: State, s': State, n: nat, id: nat)
    requires Valid(s) && n < |s.queue.slots| && s.queue.slots[n].Some?
    requires s'.queue.slots == s.queue.slots[n + 1..] && id in Live(s'.queue.slots)
    ensures s.queue.slots[n].value.id < id && id in Live(s.queue.slots)
  {
    var slots, slots' := s.queue.slots, s'.queue.slots;
    var j :| 0 <= j < |slots'| && slots'[j].Some? && slots'[j].value.id == id;
    assert slots'[j] == slots[j + n + 1];
  }

  lemma TickAccounted(s: State)
    requires Valid(s) && Accounted(s)
    ensures Accounted(Step(s, MeshTick))
  {
    var s' := Step(s, MeshTick);
    var n := TickShape(s);
    hide Step;
    hide Live;
    if s'.sent != s.sent {
      var gone := s.queue.slots[n].value.id;
      forall id: nat ensures id in Live(s'.queue.slots) <==> id in Live(s.queue.slots) && id != gone {
        LiveAfter(s, s', n, id);
      }
      assert At(s, gone, n);
      LiveAt(s, gone);
      assert Fates(s, gone) == 1;
      forall id: nat ensures Fates(s', id) == if id < s'.accepted then 1 else 0 {
        assert Fates(s, id) == if id < s.accepted then 1 else 0;
      }
      forall i, id: nat | 0 <= i < |s'.sent| && id in Live(s'.queue.slots) ensures s'.sent[i] < id {
        SentBeforeLive(s, s', n, id);
      }
    } else {
      forall id: nat ensures id in Live(s'.queue.slots) <==> id in Live(s.queue.slots) {
        LiveAt(s, id);
        LiveAt(s', id);
      }
      forall id: nat ensures Fates(s', id) == if id < s'.accepted then 1 else 0 {
        assert Fates(s, id) == if id < s.accepted then 1 else 0;
      }
    }
  }

  lemma StepKeeps(s: State, ev: Event)
    requires Valid(s)
    ensures Valid(Step(s, ev)) && Advances(s, Step(s, ev), TickCost(ev))
    ensures s.accepted <= Step(s, ev).accepted
    ensures Accounted(s) ==> Accounted(Step(s, ev))
  {
    match ev
    case Submit(p, jitter) =>
      AcceptStep(s, p, jitter);
      if Accounted(s) {
        AcceptAccounted(s, p, jitter);
      }
    case SubmitTelemetry(p, jitter) =>
      AcceptStep(s, p, jitter);
      if Accounted(s) {
        AcceptAccounted(s, p, jitter);
      }
      assert Advances(s, s, 0);
    case Overheard(k) =>
      OverheardStep(s, k);
      if Accounted(s) {
        OverheardAccounted(s, k);
      }
    case MeshTick =>
      TickStep(s);
      if Accounted(s) {
        TickAccounted(s);
      }
  }

  // ---------------------------------------------------------------- whole runs

  function Run(s: State, evs: seq<Event>): State
    requires Valid(s)
    ensures Valid(Run(s, evs))
    decreases |evs|
  {
    if evs == [] then s
    else
      StepKeeps(s, evs[0]);
      Run(Step(s, evs[0]), evs[1..])
  }

  function Ticks(evs: seq<Event>): nat {
    if evs == [] then 0 else TickCost(evs[0]) + Ticks(evs[1..])
  }

  /** In every run each accepted packet is sent, cancelled or evicted at most once, and is waiting otherwise; packets
      leave for the radio in the order in which they were accepted. */
  lemma {:induction false} LeavesOnce(s: State, evs: seq<Event>)
    requires Valid(s) && Accounted(s)
    ensures Accounted(Run(s, evs))
    decreases |evs|
  {
    if evs != [] {
      StepKeeps(s, evs[0]);
      LeavesOnce(Step(s, evs[0]), evs[1..]);
    }
  }

  /** The books open balanced, so they balance in every state that the empty queue can reach. */
  lemma ReachableAccounted(evs: seq<Event>)
    ensures Valid(INITIAL) && Accounted(INITIAL) && Accounted(Run(INITIAL, evs))
  {
    assert Live([]) == {};
    LeavesOnce(INITIAL, evs);
  }

  lemma {:induction false} WaitingRank(s: State, evs: seq<Event>, id: nat, p: nat) returns (p0: nat)
    requires Valid(s) && id < s.accepted && At(Run(s, evs), id, p)
    ensures At(s, id, p0) && Rank(Run(s, evs).queue, p) + Ticks(evs) <= Rank(s.queue, p0)
    decreases |evs|
  {
    hide Step;
    hide Rank;
    if evs == [] {
      p0 := p;
    } else {
      StepKeeps(s, evs[0]);
      var s' := Step(s, evs[0]);
      var p' := WaitingRank(s', evs[1..], id, p);
      p0 :| At(s, id, p0) && Rank(s'.queue, p') + TickCost(evs[0]) <= Rank(s.queue, p0);
    }
  }

  lemma RankBound(s: State, p: nat)
    requires Valid(s) && p < |s.queue.slots|
    ensures Rank(s.queue, p) <= 46
  {
  }

  lemma RankPositive(s: State, p: nat)
    requires Valid(s) && p < |s.queue.slots|
    ensures Rank(s.queue, p) >= 1
  {
  }

  /** Whatever is scheduled or overheard afterwards, a waiting packet is gone after 46 mesh ticks. */
  lemma GoneAfter46Ticks(s: State, evs: seq<Event>, id: nat)
    requires Valid(s) && id < s.accepted && Ticks(evs) >= 46
    ensures id !in Live(Run(s, evs).queue.slots)
  {
    var s' := Run(s, evs);
    LiveAt(s', id);
    if id in Live(s'.queue.slots) {
      var p: nat :| At(s', id, p);
      var p0 := WaitingRank(s, evs, id, p);
      RankBound(s, p0);
      RankPositive(s', p);
      assert false;
    }
  }

  // ---------------------------------------------------------------- nothing leaves early

  /** While the backoff runs, whatever is scheduled or overheard, it only runs down by the ticks. */
  lemma BackoffStep(s: State, ev: Event)
    requires Valid(s) && s.queue.slots != []
    requires ev.MeshTick? ==> s.queue.remaining > Tdm.LOOP_MS
    ensures var s' := Step(s, ev);
      && s'.queue.slots != [] && s'.sent == s.sent
      && s'.queue.remaining == s.queue.remaining - Tdm.LOOP_MS * TickCost(ev)
  {
    hide FirstMatch;
    hide TakePending;
  }

  /** Nothing is sent before the running backoff is over. */
  lemma {:induction false} QuietWhileBacking(s: State, evs: seq<Event>)
    requires Valid(s) && s.queue.slots != [] && Ticks(evs) < TicksFor(s.queue.remaining)
    ensures var s' := Run(s, evs);
      && s'.sent == s.sent && s'.queue.slots != []
      && s'.queue.remaining == s.queue.remaining - Tdm.LOOP_MS * Ticks(evs)
    decreases |evs|
  {
    if evs != [] {
      BackoffStep(s, evs[0]);
      StepKeeps(s, evs[0]);
      hide Step;
      QuietWhileBacking(Step(s, evs[0]), evs[1..]);
    }
  }

  /** A packet accepted with jitter `j` into an empty queue waits: nothing is sent within fewer mesh ticks than its
      clamped jitter lasts, whatever else is scheduled or overheard. */
  lemma JitterWaits(s: State, p: MeshPacket, jitter: U16, evs: seq<Event>)
    requires Valid(s) && s.queue.slots == [] && Ticks(evs) < TicksFor(Max(MIN_JITTER, Min(jitter, MAX_JITTER)))
    ensures Run(s, [Submit(p, jitter)] + evs).sent == s.sent
  {
    var all := [Submit(p, jitter)] + evs;
    assert all[1..] == evs;
    StepKeeps(s, all[0]);
    QuietWhileBacking(Step(s, all[0]), evs);
  }

  function Repeat(n: nat): (r: seq<Event>)
    ensures |r| == n && forall i | 0 <= i < n :: r[i] == MeshTick
  {
    seq(n, _ => MeshTick)
  }

  /** Exactly when it is sent: with nothing else going on, at the tick that completes its jitter. */
  lemma {:induction false} SentOnTime(s: State, n: nat)
    requires Valid(s) && |s.queue.slots| == 1 && s.queue.slots[0].Some? && n == TicksFor(s.queue.remaining)
    ensures Run(s, Repeat(n)).sent == s.sent + [s.queue.slots[0].value.id]
    decreases n
  {
    StepKeeps(s, MeshTick);
    assert Repeat(n)[0] == MeshTick && Repeat(n)[1..] == Repeat(n - 1);
    if s.queue.remaining > Tdm.LOOP_MS {
      SentOnTime(Step(s, MeshTick), n - 1);
    } else {
      assert Repeat(0) == [];
    }
  }

  /** The tick sends a packet. */
  predicate Sends(s: State)
    requires |s.queue.slots| <= CAPACITY
  {
    Step(s, MeshTick).sent != s.sent
  }

  lemma AfterSend(s: State)
    requires Valid(s) && Sends(s)
    ensures var q := Step(s, MeshTick).queue; q.slots != [] ==> q.remaining == SPACING
  {
    var (q0, ready) := Tick(s.queue, Tdm.LOOP_MS);
    var n := TakeShape(q0);
    hide TakePending;
  }

  /** With an empty queue nothing is sent until something is accepted and its jitter has run. */
  lemma {:induction false} QuietWhileEmpty(s: State, evs: seq<Event>)
    requires Valid(s) && s.queue.slots == [] && Ticks(evs) < TicksFor(MIN_JITTER)
    ensures Run(s, evs).sent == s.sent
    ensures var q := Run(s, evs).queue; q.slots != [] ==> q.remaining + Tdm.LOOP_MS * Ticks(evs) >= MIN_JITTER
    decreases |evs|
  {
    if evs != [] {
      StepKeeps(s, evs[0]);
      var s' := Step(s, evs[0]);
      assert s'.sent == s.sent && (s'.queue.slots != [] ==> s'.queue.remaining >= MIN_JITTER && TickCost(evs[0]) == 0);
      hide Step;
      if s'.queue.slots == [] {
        QuietWhileEmpty(s', evs[1..]);
      } else {
        QuietWhileBacking(s', evs[1..]);
      }
    }
  }

  lemma TickSends(s: State)
    requires Valid(s) && Sends(s)
    ensures s.queue.slots != [] && s.queue.remaining <= Tdm.LOOP_MS
  {
    hide TakePending;
  }

  /** Two packets leave at least three mesh ticks apart, and at least four if any packet was waiting, live or cancelled,
      when the first one left. */
  lemma SendSpacing(s: State, s1: State, evs: seq<Event>)
    requires Valid(s) && Sends(s) && s1 == Step(s, MeshTick) && Valid(s1) && Sends(Run(s1, evs))
    ensures Ticks(evs) + 1 >= 3
    ensures s1.queue.slots != [] ==> Ticks(evs) + 1 >= 4
  {
    AfterSend(s);
    var s2 := Run(s1, evs);
    if s1.queue.slots != [] {
      if Ticks(evs) < TicksFor(SPACING) {
        QuietWhileBacking(s1, evs);
        TickSends(s2);
      }
    } else if Ticks(evs) < TicksFor(MIN_JITTER) {
      QuietWhileEmpty(s1, evs);
      TickSends(s2);
    }
  }

  // ---------------------------------------------------------------- the firmware loop

  /** One turn of the firmware loop: what is scheduled before the slot is served, and what is scheduled or overheard
      after it. */
  datatype Turn = Turn(desktop: bool, before: seq<Event>, after: seq<Event>)

  function LoopEvents(time: nat, turns: seq<Turn>): seq<Event>
    decreases |turns|
  {
    if turns == [] then []
    else
      var (t, slot) := Tdm.Advance(time, turns[0].desktop, Tdm.LOOP_MS);
      var tick := if slot == Tdm.Ieee802154Mesh then [MeshTick] else [];
      turns[0].before + tick + turns[0].after + LoopEvents(t, turns[1..])
  }

  function Modes(turns: seq<Turn>): (r: seq<bool>)
    ensures |r| == |turns|
  {
    seq(|turns|, i requires 0 <= i < |turns| => turns[i].desktop)
  }

  lemma {:induction false} TicksConcat(a: seq<Event>, b: seq<Event>)
    ensures Ticks(a + b) == Ticks(a) + Ticks(b)
  {
    if a == [] {
      assert a + b == b;
    } else {
      assert (a + b)[1..] == a[1..] + b;
      TicksConcat(a[1..], b);
    }
  }

  lemma {:induction false} LoopTicks(time: nat, turns: seq<Turn>)
    ensures Ticks(LoopEvents(time, turns)) >= Tdm.MeshTurns(time, Modes(turns))
    decreases |turns|
  {
    if turns != [] {
      var (t, slot) := Tdm.Advance(time, turns[0].desktop, Tdm.LOOP_MS);
      var tick := if slot == Tdm.Ieee802154Mesh then [MeshTick] else [];
      LoopTicks(t, turns[1..]);
      assert Modes(turns)[1..] == Modes(turns[1..]);
      TicksConcat(turns[0].before + tick + turns[0].after, LoopEvents(t, turns[1..]));
      TicksConcat(turns[0].before + tick, turns[0].after);
      TicksConcat(turns[0].before, tick);
      assert Ticks([]) == 0 && [MeshTick][1..] == [] && Ticks([MeshTick]) == 1;
    }
  }

  lemma {:induction false} RunAccepts(s: State, evs: seq<Event>)
    requires Valid(s)
    ensures s.accepted <= Run(s, evs).accepted
    decreases |evs|
  {
    if evs != [] {
      StepKeeps(s, evs[0]);
      RunAccepts(Step(s, evs[0]), evs[1..]);
    }
  }

  /** Every packet accepted by the queue is handed to the radio, cancelled or evicted within 58 turns of the firmware
      loop, wherever the slot cycle stands and however the desktop mode is switched. */
  lemma DelayBound(s: State, time: nat, turns: seq<Turn>, id: nat)
    requires Valid(s) && Accounted(s) && id < s.accepted && Tdm.OnGrid(time) && |turns| >= 58
    ensures var s' := Run(s, LoopEvents(time, turns)); id in s'.sent || id in s'.cancelled || id in s'.evicted
  {
    var evs := LoopEvents(time, turns);
    LoopTicks(time, turns);
    Tdm.MeshShare(time, Modes(turns));
    GoneAfter46Ticks(s, evs, id);
    LeavesOnce(s, evs);
    RunAccepts(s, evs);
    assert Fates(Run(s, evs), id) == 1;
  }

  /** Slot `i` holds a packet of the user. */
  predicate UserAt(s: State, i: nat) {
    i < |s.queue.slots| && s.queue.slots[i].Some? && !s.queue.slots[i].value.packet.IsTelemetry()
  }

  /** Telemetry is refused exactly while a user packet waits, and what it pushes out is telemetry itself. */
  lemma TelemetryYields(s: State, p: MeshPacket, jitter: U16)
    requires Valid(s)
    ensures var s' := Step(s, SubmitTelemetry(p, jitter));
      && (if exists i: nat :: UserAt(s, i) then s' == s
          else s'.accepted == s.accepted + 1 && At(s', s.accepted, |s'.queue.slots| - 1))
      && (forall id <- s'.evicted - s.evicted :: exists i: nat :: At(s, id, i) && !UserAt(s, i))
  {
    if i: nat :| UserAt(s, i) {
    } else {
      assert forall i: nat | i < |s.queue.slots| && s.queue.slots[i].Some? ::
          s.queue.slots[i].value.packet.IsTelemetry() by {
        if i: nat :| i < |s.queue.slots| && s.queue.slots[i].Some? && !s.queue.slots[i].value.packet.IsTelemetry() {
          assert UserAt(s, i);
        }
      }
      forall id <- Accept(s, p, jitter).evicted - s.evicted ensures exists i: nat :: At(s, id, i) && !UserAt(s, i) {
        assert At(s, id, 0);
      }
    }
  }

  // ---------------------------------------------------------------- the numbered queue is the real one

  function Packets(slots: seq<Option<Entry>>): (r: seq<Option<MeshPacket>>)
    ensures |r| == |slots|
    ensures forall i | 0 <= i < |slots| :: r[i] == if slots[i].Some? then Some(slots[i].value.packet) else None
  {
    seq(|slots|, i requires 0 <= i < |slots| => if slots[i].Some? then Some(slots[i].value.packet) else None)
  }

  function Untag(q: Queue<Entry>): Queue<MeshPacket> {
    Queue(Packets(q.slots), q.remaining)
  }

  lemma {:induction false} UntagMatch(slots: seq<Option<Entry>>, k: PacketKey)
    ensures FirstMatch(Packets(slots), HasKey(k)) == FirstMatch(slots, EntryHasKey(k))
  {
    if slots != [] {
      UntagMatch(slots[1..], k);
      assert Packets(slots)[1..] == Packets(slots[1..]);
    }
  }

  lemma {:induction false} UntagTake(q: Queue<Entry>)
    ensures var (q', r) := TakePending(q);
      TakePending(Untag(q)) == (Untag(q'), if r.Some? then Some(r.value.packet) else None)
    decreases |q.slots|
  {
    if q.slots != [] {
      var rest := Queue(q.slots[1..], if |q.slots| > 1 then SPACING else q.remaining);
      UntagTake(rest);
      assert Untag(q).slots[1..] == Packets(q.slots[1..]);
    }
  }

  lemma UntagSchedule(q: Queue<Entry>, e: Entry, jitter: U16)
    requires |q.slots| <= CAPACITY
    ensures Untag(Schedule(q, e, jitter)) == Schedule(Untag(q), e.packet, jitter)
  {
    assert Untag(Schedule(q, e, jitter)).slots == Schedule(Untag(q), e.packet, jitter).slots;
  }

  lemma UntagPending(slots: seq<Option<Entry>>)
    ensures UserPending(Packets(slots), TelemetryTest()) == UserPending(slots, EntryTelemetry())
  {
    if UserPending(slots, EntryTelemetry()) {
      var i :| 0 <= i < |slots| && slots[i].Some? && !slots[i].value.packet.IsTelemetry();
      assert Packets(slots)[i] == Some(slots[i].value.packet);
    }
  }

  /** Numbering the packets changes nothing: each event acts on the numbered queue as the firmware's operation acts on
      the packets themselves. */
  lemma UntagStep(s: State, ev: Event)
    requires Valid(s)
    ensures var q' := Untag(Step(s, ev).queue);
      match ev
      case Submit(p, jitter) => q' == Schedule(Untag(s.queue), p, jitter)
      case SubmitTelemetry(p, jitter) => q' == ScheduleTelemetry(Untag(s.queue), p, jitter, TelemetryTest()).0
      case Overheard(k) => q' == Overhear(Untag(s.queue), HasKey(k)).0
      case MeshTick => q' == Service(Untag(s.queue), Tdm.LOOP_MS).0
  {
    match ev
    case Submit(p, jitter) =>
      UntagSchedule(s.queue, Entry(s.accepted, p), jitter);
    case SubmitTelemetry(p, jitter) =>
      UntagSchedule(s.queue, Entry(s.accepted, p), jitter);
      UntagPending(s.queue.slots);
    case Overheard(k) =>
      UntagMatch(s.queue.slots, k);
      assert Untag(Step(s, ev).queue).slots == Overhear(Untag(s.queue), HasKey(k)).0.slots;
    case MeshTick =>
      UntagTake(Tick(s.queue, Tdm.LOOP_MS).0);
  }
}
