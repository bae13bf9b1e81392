/** The slotted radio arbiter: a 200 ms cycle shared by the mesh and the companion link. */
module Tdm {
  import opened Bytes

  const CYCLE_MS := 200
  const SLOT_A_END_MS := 168
  const GUARD_1_END_MS := 170
  const SLOT_B_END_MS := 198
  const LOOP_MS := 5

  datatype RadioSlot = Ieee802154Mesh | GuardBand | BleCompanion

  function SlotAt(time: nat): RadioSlot {
    if time < SLOT_A_END_MS then Ieee802154Mesh
    else if time < GUARD_1_END_MS then GuardBand
    else if time < SLOT_B_END_MS then BleCompanion
    else GuardBand
  }

  /** In desktop mode the clock stands still and the mesh owns the radio. */
  function Advance(time: nat, desktop: bool, delta: nat): (nat, RadioSlot) {
    if desktop then (time, Ieee802154Mesh)
    else
      var t := (time + delta) % CYCLE_MS;
      (t, SlotAt(t))
  }

  class TdmArbiter {
    var currentTimeMs: nat
    var usbDesktopMode: bool
    var currentSlot: RadioSlot

    constructor ()
      ensures currentTimeMs == 0 && !usbDesktopMode && currentSlot == Ieee802154Mesh
    {
      currentTimeMs, usbDesktopMode, currentSlot := 0, false, Ieee802154Mesh;
    }

    method SetDesktopMode(enabled: bool)
      modifies `usbDesktopMode
      ensures usbDesktopMode == enabled
    {
      usbDesktopMode := enabled;
    }

    method AdvanceClock(deltaMs: nat) returns (slot: RadioSlot)
      modifies this
      ensures (currentTimeMs, slot) == Advance(old(currentTimeMs), usbDesktopMode, deltaMs)
      ensures currentSlot == slot && usbDesktopMode == old(usbDesktopMode)
    {
      if usbDesktopMode {
        currentSlot := Ieee802154Mesh;
        return currentSlot;
      }
      currentTimeMs := (currentTimeMs + deltaMs) % CYCLE_MS;
      if currentTimeMs < SLOT_A_END_MS {
        slot := Ieee802154Mesh;
      } else if currentTimeMs < GUARD_1_END_MS {
        slot := GuardBand;
      } else if currentTimeMs < SLOT_B_END_MS {
        slot := BleCompanion;
      } else {
        slot := GuardBand;
      }
      currentSlot := slot;
    }
  }

  // ---------------------------------------------------------------- how often the mesh gets the radio

  /** A time the firmware loop can be at: it advances in steps of 5 ms from 0. */
  predicate OnGrid(time: nat) {
    time < CYCLE_MS && time % LOOP_MS == 0
  }

  /** Mesh slots among the loop turns whose desktop flags are `modes`. */
  function MeshTurns(time: nat, modes: seq<bool>): nat
    decreases |modes|
  {
    if modes == [] then 0
    else
      var (t, slot) := Advance(time, modes[0], LOOP_MS);
      (if slot == Ieee802154Mesh then 1 else 0) + MeshTurns(t, modes[1..])
  }

  /** Turns 1..k of the companion-mode clock, counted from time 0, that are not mesh slots. */
  function Quiet(k: nat): nat {
    6 * (k / 40) + Max(0, k % 40 - 33)
  }

  lemma NextTurn(k: nat)
    ensures (k + 1) % 40 == (if k % 40 == 39 then 0 else k % 40 + 1)
    ensures (k + 1) / 40 == k / 40 + if k % 40 == 39 then 1 else 0
  {
  }

  /** The clock of turn `i` of a cycle after one more turn. */
  lemma NextTime(i: nat)
    requires i < 40
    ensures Advance(5 * i, false, LOOP_MS) == if i == 39 then (0, SlotAt(0)) else (5 * i + 5, SlotAt(5 * i + 5))
  {
  }

  lemma QuietStep(time: nat, k: nat)
    requires OnGrid(time) && k % 40 == time / LOOP_MS
    ensures var (t, slot) := Advance(time, false, LOOP_MS);
      && OnGrid(t) && (k + 1) % 40 == t / LOOP_MS
      && Quiet(k + 1) == Quiet(k) + (if slot == Ieee802154Mesh then 0 else 1)
      && slot != GuardBand
  {
    var i := time / LOOP_MS;
    assert time == 5 * i;
    NextTurn(k);
    NextTime(i);
    hide Advance;
  }

  lemma QuietMonotone(k: nat)
    ensures Quiet(k) <= Quiet(k + 1)
  {
  }

  /** However the desktop mode is switched, the mesh misses no more turns than the companion-mode clock takes. */
  lemma {:induction false} MeshTurnsAtLeast(time: nat, k: nat, modes: seq<bool>)
    requires OnGrid(time) && k % 40 == time / LOOP_MS
    ensures MeshTurns(time, modes) + Quiet(k + |modes|) - Quiet(k) >= |modes|
    decreases |modes|
  {
    hide Quiet;
    if modes != [] {
      if modes[0] {
        MeshTurnsAtLeast(time, k, modes[1..]);
        QuietMonotone(k + |modes| - 1);
      } else {
        QuietStep(time, k);
        MeshTurnsAtLeast(Advance(time, false, LOOP_MS).0, k + 1, modes[1..]);
      }
    }
  }

  lemma {:induction false} MeshTurnsPrefix(time: nat, modes: seq<bool>, n: nat)
    requires n <= |modes|
    ensures MeshTurns(time, modes[..n]) <= MeshTurns(time, modes)
    decreases n
  {
    if n > 0 {
      assert modes[..n][1..] == modes[1..][..n - 1];
      MeshTurnsPrefix(Advance(time, modes[0], LOOP_MS).0, modes[1..], n - 1);
    }
  }

  /** Any 58 consecutive turns contain at least 46 mesh slots. */
  lemma MeshShare(time: nat, modes: seq<bool>)
    requires OnGrid(time) && |modes| >= 58
    ensures MeshTurns(time, modes) >= 46
  {
    MeshTurnsAtLeast(time, time / LOOP_MS, modes[..58]);
    MeshTurnsPrefix(time, modes, 58);
  }

  /** Companion slots among the loop turns whose desktop flags are `modes`. */
  function CompanionTurns(time: nat, modes: seq<bool>): nat
    decreases |modes|
  {
    if modes == [] then 0
    else
      var (t, slot) := Advance(time, modes[0], LOOP_MS);
      (if slot == BleCompanion then 1 else 0) + CompanionTurns(t, modes[1..])
  }

  lemma {:induction false} CountFalse(time: nat, k: nat, n: nat)
    requires OnGrid(time) && k % 40 == time / LOOP_MS
    ensures MeshTurns(time, seq(n, _ => false)) + Quiet(k + n) - Quiet(k) == n
    ensures CompanionTurns(time, seq(n, _ => false)) == Quiet(k + n) - Quiet(k)
    decreases n
  {
    hide Quiet;
    if n > 0 {
      QuietStep(time, k);
      var modes := seq(n, _ => false);
      assert modes[1..] == seq(n - 1, _ => false);
      CountFalse(Advance(time, false, LOOP_MS).0, k + 1, n - 1);
    }
  }

  lemma CycleQuiet(k: nat)
    ensures Quiet(k + 40) == Quiet(k) + 6
  {
  }

  /** The companion link gets its share as well: out of desktop mode, any 40 consecutive turns, one cycle, hold exactly
      six companion slots and 34 mesh slots; the guard bands fall between turns. */
  lemma CompanionShare(time: nat)
    requires OnGrid(time)
    ensures var modes := seq(40, _ => false);
      CompanionTurns(time, modes) == 6 && MeshTurns(time, modes) == 34
  {
    hide MeshTurns;
    hide CompanionTurns;
    CycleQuiet(time / LOOP_MS);
    hide Quiet;
    CountFalse(time, time / LOOP_MS, 40);
  }

  /** The bound is tight: entering the quiet part of the cycle, 57 turns can contain only 45 mesh slots. */
  lemma MeshShareTight()
    ensures MeshTurns(165, seq(57, _ => false)) == 45
  {
    CountFalse(165, 33, 57);
  }
}
