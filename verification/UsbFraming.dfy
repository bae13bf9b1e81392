/** Host-to-dongle framing over USB: AA 55 72 followed by 114 wire bytes, and the dongle's four-state byte parser. */
module UsbFraming {
  import opened Bytes
  import opened Wire

  const HEADER: seq<U8> := [0xAA, 0x55, 0x72]

  datatype RxState = Sync0 | Sync1 | Length | Receiving

  /** Parser state: in `Receiving`, `acc` are the payload bytes stored so far. */
  datatype Parser = Parser(state: RxState, acc: seq<U8>) {
    ghost predicate Valid() {
      if state == Receiving then |acc| < WIRE_LEN else acc == []
    }
  }

  const INITIAL := Parser(Sync0, [])

  // ---------------------------------------------------------------- the parser

  function Step(p: Parser, b: U8): (r: (Parser, seq<WireBytes>))
    requires p.Valid()
    ensures r.0.Valid()
  {
    match p.state
    case Sync0 => (Parser(if b == 0xAA then Sync1 else Sync0, []), [])
    case Sync1 => (Parser(if b == 0x55 then Length else if b == 0xAA then Sync1 else Sync0, []), [])
    case Length => (Parser(if b == 0x72 then Receiving else if b == 0xAA then Sync1 else Sync0, []), [])
    case Receiving =>
      if |p.acc| + 1 == WIRE_LEN then (INITIAL, [p.acc + [b]]) else (Parser(Receiving, p.acc + [b]), [])
  }

  function Run(p: Parser, s: seq<U8>): (r: (Parser, seq<WireBytes>))
    requires p.Valid()
    ensures r.0.Valid()
    decreases |s|
  {
    if s == [] then (p, [])
    else
      var (p', out) := Step(p, s[0]);
      var (p'', rest) := Run(p', s[1..]);
      (p'', out + rest)
  }

  lemma RunOne(p: Parser, b: U8)
    requires p.Valid()
    ensures Run(p, [b]) == Step(p, b)
  {
    var (p', out) := Step(p, b);
    assert [b][1..] == [];
    assert Run(p', []) == (p', []);
    assert out + [] == out;
  }

  lemma RunCons(p: Parser, b: U8, rest: seq<U8>)
    requires p.Valid()
    ensures var (p', out) := Step(p, b);
      Run(p, [b] + rest) == (Run(p', rest).0, out + Run(p', rest).1)
  {
    assert ([b] + rest)[1..] == rest;
  }

  /** How the stream is cut into reads does not matter. */
  lemma {:induction false} RunConcat(p: Parser, a: seq<U8>, b: seq<U8>)
    requires p.Valid()
    ensures var (mid, first) := Run(p, a);
            var (end, second) := Run(mid, b);
            Run(p, a + b) == (end, first + second)
    decreases |a|
  {
    hide Step;
    if a == [] {
      assert a + b == b;
      var (end, second) := Run(p, b);
      assert [] + second == second;
    } else {
      var (p', out) := Step(p, a[0]);
      RunConcat(p', a[1..], b);
      RunCons(p, a[0], a[1..]);
      RunCons(p, a[0], a[1..] + b);
      hide Run;
      assert a == [a[0]] + a[1..] && a + b == [a[0]] + (a[1..] + b);
      var (mid, rest) := Run(p', a[1..]);
      assert out + (rest + Run(mid, b).1) == (out + rest) + Run(mid, b).1;
    }
  }

  /** The firmware's parser variables and its loop over one USB read. */
  class UsbReceiver {
    var state: RxState
    var idx: nat
    const buf: array<U8>

    ghost predicate Valid()
      reads this, buf
    {
      buf.Length == WIRE_LEN && if state == Receiving then idx < WIRE_LEN else idx <= WIRE_LEN
    }

    ghost function Abstract(): (p: Parser)
      requires Valid()
      reads this, buf
      ensures p.Valid()
    {
      Parser(state, if state == Receiving then buf[..idx] else [])
    }

    constructor ()
      ensures Valid() && fresh(buf) && Abstract() == INITIAL
    {
      state, idx, buf := Sync0, 0, new U8[WIRE_LEN];
    }

    method ReadByte(b: U8) returns (frames: seq<WireBytes>)
      requires Valid()
      modifies this, buf
      ensures Valid() && (Abstract(), frames) == Step(old(Abstract()), b)
    {
      frames := [];
      match state {
        case Sync0 =>
          if b == 0xAA {
            state := Sync1;
          }
        case Sync1 =>
          if b == 0x55 {
            state := Length;
          } else if b == 0xAA {
          } else {
            state := Sync0;
          }
        case Length =>
          if b == 0x72 {
            idx := 0;
            state := Receiving;
          } else if b == 0xAA {
            state := Sync1;
          } else {
            state := Sync0;
          }
        case Receiving =>
          buf[idx] := b;
          idx := idx + 1;
          assert buf[..idx] == old(buf[..idx]) + [b];
          if idx == WIRE_LEN {
            assert buf[..] == buf[..idx];
            frames := [buf[..]];
            idx := 0;
            state := Sync0;
          }
      }
    }

    method Read(chunk: seq<U8>) returns (frames: seq<WireBytes>)
      requires Valid()
      modifies this, buf
      ensures Valid() && (Abstract(), frames) == Run(old(Abstract()), chunk)
    {
      frames := [];
      ghost var p0 := Abstract();
      for i := 0 to |chunk|
        invariant Valid()
        invariant (Abstract(), frames) == Run(p0, chunk[..i])
      {
        var more := ReadByte(chunk[i]);
        RunConcat(p0, chunk[..i], [chunk[i]]);
        RunOne(Run(p0, chunk[..i]).0, chunk[i]);
        assert chunk[..i + 1] == chunk[..i] + [chunk[i]];
        frames := frames + more;
      }
      assert chunk[..|chunk|] == chunk;
    }
  }

  // ---------------------------------------------------------------- what the stream means

  predicate HeaderAt(s: seq<U8>, i: nat) {
    i + 3 <= |s| && s[i] == 0xAA && s[i + 1] == 0x55 && s[i + 2] == 0x72
  }

  /** First occurrence of the header, or |s|. */
  function FirstHeader(s: seq<U8>): (n: nat)
    ensures n <= |s|
    ensures n < |s| ==> HeaderAt(s, n)
    ensures forall i: nat | i < n :: !HeaderAt(s, i)
  {
    if s == [] || HeaderAt(s, 0) then 0
    else
      var n := FirstHeader(s[1..]);
      assert forall i: nat | HeaderAt(s, i) && i > 0 :: HeaderAt(s[1..], i - 1);
      n + 1
  }

  /** Find the first header, take the next 114 bytes, repeat. */
  function Frames(s: seq<U8>): seq<WireBytes>
    decreases |s|, 1
  {
    FramesFrom(s, FirstHeader(s))
  }

  /** The frames of a stream whose first header is at `i`. */
  function FramesFrom(s: seq<U8>, i: nat): seq<WireBytes>
    decreases |s|, 0
  {
    if i + 3 + WIRE_LEN > |s| then [] else [s[i + 3..i + 3 + WIRE_LEN]] + Frames(s[i + 3 + WIRE_LEN..])
  }

  ghost predicate HeaderFree(s: seq<U8>) {
    forall i: nat :: !HeaderAt(s, i)
  }

  /** The part of the header a synchronising parser has already matched. */
  function Matched(state: RxState): seq<U8> {
    match state
    case Sync0 => []
    case Sync1 => [0xAA]
    case Length => [0xAA, 0x55]
    case Receiving => HEADER
  }

  lemma {:induction false} CollectPart(acc: seq<U8>, s: seq<U8>)
    requires |acc| + |s| < WIRE_LEN
    ensures Run(Parser(Receiving, acc), s) == (Parser(Receiving, acc + s), [])
    decreases |s|
  {
    if s == [] {
      assert acc + s == acc;
    } else {
      var n := |s| - 1;
      CollectPart(acc, s[..n]);
      RunConcat(Parser(Receiving, acc), s[..n], [s[n]]);
      RunOne(Parser(Receiving, acc + s[..n]), s[n]);
      assert s == s[..n] + [s[n]];
      assert acc + s == acc + s[..n] + [s[n]];
    }
  }

  lemma CollectPayload(payload: WireBytes, rest: seq<U8>)
    ensures Run(Parser(Receiving, []), payload + rest)
         == (Run(INITIAL, rest).0, [payload] + Run(INITIAL, rest).1)
  {
    var n := WIRE_LEN - 1;
    CollectPart([], payload[..n]);
    assert [] + payload[..n] == payload[..n];
    RunConcat(Parser(Receiving, []), payload[..n], [payload[n]]);
    RunOne(Parser(Receiving, payload[..n]), payload[n]);
    assert payload == payload[..n] + [payload[n]];
    assert [] + [payload] == [payload];
    RunConcat(Parser(Receiving, []), payload, rest);
  }

  lemma HeaderDrop(t: seq<U8>, k: nat, i: nat)
    requires k <= |t|
    ensures HeaderAt(t[k..], i) <==> HeaderAt(t, i + k)
  {
  }

  lemma FirstHeaderIs(s: seq<U8>, n: nat)
    requires n <= |s| && (n < |s| ==> HeaderAt(s, n)) && forall i: nat | i < n :: !HeaderAt(s, i)
    ensures FirstHeader(s) == n
  {
    hide HeaderAt;
    var i := FirstHeader(s);
    hide FirstHeader;
    assert i < |s| ==> HeaderAt(s, i);
  }

  lemma FirstHeaderSkip(t: seq<U8>, k: nat)
    requires k <= |t| && forall i: nat | i < k :: !HeaderAt(t, i)
    ensures FirstHeader(t) == FirstHeader(t[k..]) + k
  {
    hide FirstHeader;
    hide HeaderAt;
    var j := FirstHeader(t[k..]);
    forall i: nat | k <= i < j + k ensures !HeaderAt(t, i) {
      HeaderDrop(t, k, i - k);
    }
    HeaderDrop(t, k, j);
    FirstHeaderIs(t, j + k);
  }

  lemma FramesAt(s: seq<U8>, i: nat)
    requires i == FirstHeader(s)
    ensures Frames(s) == FramesFrom(s, i)
  {
    hide FirstHeader;
    hide FramesFrom;
  }

  lemma DropSlices(t: seq<U8>, k: nat, i: nat)
    requires k <= |t|
    ensures k + i + WIRE_LEN <= |t| ==> t[k..][i..i + WIRE_LEN] == t[k + i..k + i + WIRE_LEN]
    ensures k + i + WIRE_LEN <= |t| ==> t[k..][i + WIRE_LEN..] == t[k + i + WIRE_LEN..]
  {
  }

  lemma FramesFromDrop(t: seq<U8>, k: nat, i: nat)
    requires k <= |t|
    ensures FramesFrom(t, k + i) == FramesFrom(t[k..], i)
  {
    hide Frames;
    DropSlices(t, k, i + 3);
  }

  lemma FramesSkip(t: seq<U8>, k: nat)
    requires k <= |t| && forall i: nat | i < k :: !HeaderAt(t, i)
    ensures Frames(t) == Frames(t[k..])
  {
    hide *;
    FirstHeaderSkip(t, k);
    FramesAt(t, FirstHeader(t));
    FramesAt(t[k..], FirstHeader(t) - k);
    FramesFromDrop(t, k, FirstHeader(t) - k);
  }

  /** A byte that does not complete the header only discards positions where no header starts. */
  lemma SyncStep(state: RxState, b: U8, rest: seq<U8>)
    requires state != Receiving
    ensures var (p', out) := Step(Parser(state, []), b);
      && out == [] && p'.acc == []
      && (if p'.state == Receiving then Matched(state) + [b] == HEADER
          else Frames(Matched(state) + [b] + rest) == Frames(Matched(p'.state) + rest))
  {
    hide Frames;
    hide FirstHeader;
    var m := Matched(state) + [b];
    var p' := Step(Parser(state, []), b).0;
    if p'.state != Receiving {
      var k := |m| - |Matched(p'.state)|;
      var t := m + rest;
      assert m[k..] == Matched(p'.state);
      assert t[k..] == Matched(p'.state) + rest;
      forall i: nat | i < k ensures !HeaderAt(t, i) {
        assert i == 0 || i == 1 || i == 2;
      }
      FramesSkip(t, k);
    }
  }

  lemma FramesOfPrefix(state: RxState)
    requires state != Receiving
    ensures Frames(Matched(state)) == []
  {
    assert FirstHeader(Matched(state)) + 3 + WIRE_LEN > |Matched(state)|;
  }

  lemma FramesTake(payload: WireBytes, rest: seq<U8>)
    ensures Frames(HEADER + payload + rest) == [payload] + Frames(rest)
  {
    hide Frames;
    hide FirstHeader;
    var t := HEADER + payload + rest;
    assert HeaderAt(t, 0);
    FramesAt(t, 0);
    assert t[3..3 + WIRE_LEN] == payload;
    assert t[3 + WIRE_LEN..] == rest;
  }

  lemma FramesShort(rest: seq<U8>)
    requires |rest| < WIRE_LEN
    ensures Frames(HEADER + rest) == []
  {
    assert HeaderAt(HEADER + rest, 0);
    FramesAt(HEADER + rest, 0);
  }

  lemma TakeDrop(a: seq<U8>, b: seq<U8>, n: nat)
    requires n <= |b|
    ensures b == b[..n] + b[n..] && a + b == a + b[..n] + b[n..]
  {
  }

  lemma PayloadRefines(rest: seq<U8>)
    requires |rest| >= WIRE_LEN ==> Run(INITIAL, rest[WIRE_LEN..]).1 == Frames(rest[WIRE_LEN..])
    ensures Run(Parser(Receiving, []), rest).1 == Frames(HEADER + rest)
  {
    hide Run;
    hide Frames;
    hide FramesFrom;
    hide FirstHeader;
    hide Step;
    if |rest| < WIRE_LEN {
      FramesShort(rest);
      CollectPart([], rest);
    } else {
      var payload, after := rest[..WIRE_LEN], rest[WIRE_LEN..];
      FramesTake(payload, after);
      CollectPayload(payload, after);
      TakeDrop(HEADER, rest, WIRE_LEN);
    }
  }

  /** From a synchronising state the parser yields the frames of the pending header prefix followed by the stream. */
  lemma {:induction false} SyncRefines(state: RxState, s: seq<U8>)
    requires state != Receiving
    ensures Run(Parser(state, []), s).1 == Frames(Matched(state) + s)
    decreases |s|
  {
    hide Frames;
    hide Step;
    if s == [] {
      FramesOfPrefix(state);
      assert Matched(state) + s == Matched(state);
    } else {
      var b, rest := s[0], s[1..];
      assert s == [b] + rest;
      assert Matched(state) + s == Matched(state) + [b] + rest;
      var p' := Step(Parser(state, []), b).0;
      SyncStep(state, b, rest);
      RunCons(Parser(state, []), b, rest);
      if p'.state == Receiving {
        if |rest| >= WIRE_LEN {
          SyncRefines(Sync0, rest[WIRE_LEN..]);
          assert Matched(Sync0) + rest[WIRE_LEN..] == rest[WIRE_LEN..];
        }
        PayloadRefines(rest);
      } else {
        SyncRefines(p'.state, rest);
      }
    }
  }

  /** The four-state parser, started in Sync0, delivers exactly the frames of the stream. */
  lemma ParserRefines(s: seq<U8>)
    ensures Run(INITIAL, s).1 == Frames(s)
  {
    SyncRefines(Sync0, s);
    assert Matched(Sync0) + s == s;
  }

  // ---------------------------------------------------------------- host traffic

  function Framed(p: MeshPacket): (r: seq<U8>)
    ensures |r| == 3 + WIRE_LEN
  {
    HEADER + EncodePacket(p)
  }

  method SendPacket(p: MeshPacket) returns (framed: array<U8>)
    ensures fresh(framed) && framed[..] == Framed(p)
  {
    framed := new U8[3 + WIRE_LEN];
    CopyInto(framed, 0, HEADER);
    var wire := EncodePacket(p);
    CopyInto(framed, 3, wire);
  }

  /** Line noise, then one framed packet. */
  datatype Burst = Burst(noise: seq<U8>, packet: MeshPacket)

  function Stream(bursts: seq<Burst>, tail: seq<U8>): seq<U8> {
    if bursts == [] then tail else bursts[0].noise + Framed(bursts[0].packet) + Stream(bursts[1..], tail)
  }

  function Decoded(frames: seq<WireBytes>): (r: seq<MeshPacket>)
    ensures |r| == |frames|
  {
    seq(|frames|, i requires 0 <= i < |frames| => DecodePacket(frames[i]))
  }

  function PacketsOf(bursts: seq<Burst>): (r: seq<MeshPacket>)
    ensures |r| == |bursts|
  {
    seq(|bursts|, i requires 0 <= i < |bursts| => bursts[i].packet)
  }

  lemma NoiseThenHeader(noise: seq<U8>, rest: seq<U8>)
    requires HeaderFree(noise)
    ensures FirstHeader(noise + HEADER + rest) == |noise|
  {
    var s := noise + HEADER + rest;
    assert HeaderAt(s, |noise|);
    forall i: nat | i < |noise| ensures !HeaderAt(s, i) {
      assert !HeaderAt(noise, i);
      assert i + 3 <= |noise| || i + 2 == |noise| || i + 1 == |noise|;
    }
  }

  lemma FramesOfBurst(noise: seq<U8>, wire: WireBytes, rest: seq<U8>)
    requires HeaderFree(noise)
    ensures Frames(noise + HEADER + wire + rest) == [wire] + Frames(rest)
  {
    var s := noise + HEADER + (wire + rest);
    assert s == noise + HEADER + wire + rest;
    NoiseThenHeader(noise, wire + rest);
    var i := |noise| + 3;
    assert s[i..i + WIRE_LEN] == wire;
    assert s[i + WIRE_LEN..] == rest;
  }

  lemma DecodedCons(wire: WireBytes, rest: seq<WireBytes>)
    ensures Decoded([wire] + rest) == [DecodePacket(wire)] + Decoded(rest)
  {
    hide DecodePacket;
    var frames := [wire] + rest;
    assert frames[0] == wire && forall i | 0 < i < |frames| :: frames[i] == rest[i - 1];
  }

  lemma FramesOfNoise(tail: seq<U8>)
    requires HeaderFree(tail)
    ensures Decoded(Frames(tail)) == []
  {
    assert FirstHeader(tail) == |tail|;
  }

  lemma {:induction false} FramesOfStream(bursts: seq<Burst>, tail: seq<U8>)
    requires forall b <- bursts :: HeaderFree(b.noise)
    requires HeaderFree(tail)
    ensures Decoded(Frames(Stream(bursts, tail))) == PacketsOf(bursts)
    decreases |bursts|
  {
    hide Frames;
    hide Decoded;
    hide HeaderFree;
    hide DecodePacket;
    hide EncodePacket;
    if bursts == [] {
      FramesOfNoise(tail);
    } else {
      var b, rest := bursts[0], Stream(bursts[1..], tail);
      var wire := EncodePacket(b.packet);
      FramesOfBurst(b.noise, wire, rest);
      assert Stream(bursts, tail) == b.noise + HEADER + wire + rest;
      FramesOfStream(bursts[1..], tail);
      DecodedCons(wire, Frames(rest));
      PacketDecodes(b.packet);
      assert PacketsOf(bursts) == [b.packet] + PacketsOf(bursts[1..]);
    }
  }

  /** Framed packets separated by noise that does not itself contain the header arrive as exactly those packets, in
      order, whatever bytes their payloads contain and however the host's writes are cut into reads. */
  lemma TrafficDelivered(bursts: seq<Burst>, tail: seq<U8>, first: seq<U8>, second: seq<U8>)
    requires forall b <- bursts :: HeaderFree(b.noise)
    requires HeaderFree(tail)
    requires first + second == Stream(bursts, tail)
    ensures var (mid, out1) := Run(INITIAL, first);
            var (_, out2) := Run(mid, second);
            Decoded(out1 + out2) == PacketsOf(bursts)
  {
    RunConcat(INITIAL, first, second);
    ParserRefines(first + second);
    FramesOfStream(bursts, tail);
  }
}
