/** Selective acknowledgements: a 512-chunk bitmask of missing chunks carried in one packet payload. */
module Sack {
  import opened Bytes
  import opened Wire

  const BITMASK_BYTES := 64
  const WINDOW := 512

  type Bitmask = s: seq<U8> | |s| == BITMASK_BYTES witness seq(BITMASK_BYTES, _ => 0)

  datatype SackInfo = SackInfo(receiverNodeId: U32, senderNodeId: U32, baseChunk: U16, bitmask: Bitmask)

  function NoneMissing(): Bitmask {
    Zeros(BITMASK_BYTES)
  }

  /** Bit `offset` of the mask. */
  predicate Marked(m: Bitmask, offset: nat)
    requires offset < WINDOW
  {
    Bit(m[offset / 8], offset % 8)
  }

  predicate InWindow(s: SackInfo, idx: nat) {
    s.baseChunk <= idx < s.baseChunk + WINDOW
  }

  predicate IsMissing(s: SackInfo, idx: nat) {
    InWindow(s, idx) && Marked(s.bitmask, idx - s.baseChunk)
  }

  /** `b |= 1 << p` and `b &= !(1 << p)` on a byte. */
  function SetByteBit(b: U8, p: nat): U8
    requires p < 8
  {
    Pow2Byte();
    BitUpdateFits(b, p, 8);
    WithBit(b, p)
  }

  function ClearByteBit(b: U8, p: nat): U8
    requires p < 8
  {
    Pow2Byte();
    BitUpdateFits(b, p, 8);
    WithoutBit(b, p)
  }

  function MarkMissing(s: SackInfo, idx: nat): SackInfo {
    if !InWindow(s, idx) then s
    else
      var o := idx - s.baseChunk;
      s.(bitmask := s.bitmask[o / 8 := SetByteBit(s.bitmask[o / 8], o % 8)])
  }

  function MarkReceived(s: SackInfo, idx: nat): SackInfo {
    if !InWindow(s, idx) then s
    else
      var o := idx - s.baseChunk;
      s.(bitmask := s.bitmask[o / 8 := ClearByteBit(s.bitmask[o / 8], o % 8)])
  }

  /** The mask is a set of chunk indices: marking inserts and removes exactly the given one. */
  lemma MarksAreASet(s: SackInfo, idx: nat, other: nat)
    ensures IsMissing(MarkMissing(s, idx), other) <==> IsMissing(s, other) || (other == idx && InWindow(s, idx))
    ensures IsMissing(MarkReceived(s, idx), other) <==> IsMissing(s, other) && other != idx
  {
    if InWindow(s, idx) && InWindow(s, other) {
      hide Bit;
      hide WithBit;
      hide WithoutBit;
      var o, q := idx - s.baseChunk, other - s.baseChunk;
      WithBitBits(s.bitmask[o / 8], o % 8, q % 8);
      WithoutBitBits(s.bitmask[o / 8], o % 8, q % 8);
    }
  }

  /** The missing indices among the first `n` of the window, ascending. */
  function MissingBelow(s: SackInfo, n: nat): (r: seq<nat>)
    requires n <= WINDOW
  {
    if n == 0 then []
    else MissingBelow(s, n - 1) + if Marked(s.bitmask, n - 1) then [s.baseChunk + n - 1] else []
  }

  function MissingList(s: SackInfo): seq<nat> {
    MissingBelow(s, WINDOW)
  }

  ghost predicate Ascending(l: seq<nat>) {
    forall i, j | 0 <= i < j < |l| :: l[i] < l[j]
  }

  lemma MissingAt(s: SackInfo, i: nat)
    requires i < WINDOW
    ensures IsMissing(s, s.baseChunk + i) <==> Marked(s.bitmask, i)
  {
    assert s.baseChunk + i - s.baseChunk == i;
  }

  lemma {:induction false} MissingBelowMembers(s: SackInfo, n: nat)
    requires n <= WINDOW
    ensures forall i: nat :: i in MissingBelow(s, n) <==> i < s.baseChunk + n && IsMissing(s, i)
  {
    if n > 0 {
      MissingBelowMembers(s, n - 1);
      MissingAt(s, n - 1);
      hide IsMissing;
      hide Marked;
      forall i: nat ensures i in MissingBelow(s, n) <==> i < s.baseChunk + n && IsMissing(s, i) {
        assert i < s.baseChunk + n <==> i < s.baseChunk + n - 1 || i == s.baseChunk + n - 1;
      }
    }
  }

  lemma {:induction false} MissingBelowAscends(s: SackInfo, n: nat)
    requires n <= WINDOW
    ensures Ascending(MissingBelow(s, n))
  {
    if n > 0 {
      MissingBelowAscends(s, n - 1);
      MissingBelowMembers(s, n - 1);
      hide IsMissing;
      hide Marked;
      var l := MissingBelow(s, n - 1);
      assert forall i | 0 <= i < |l| :: l[i] in l;
    }
  }

  /** The listed chunks are exactly the missing ones, in ascending order. */
  lemma MissingListMeaning(s: SackInfo)
    ensures forall i: nat :: i in MissingList(s) <==> IsMissing(s, i)
    ensures Ascending(MissingList(s))
  {
    MissingBelowMembers(s, WINDOW);
    MissingBelowAscends(s, WINDOW);
  }

  /** Number of bits set among the low `k`. */
  function Ones(b: U8, k: nat): nat {
    if k == 0 then 0 else Ones(b, k - 1) + if Bit(b, k - 1) then 1 else 0
  }

  lemma {:induction false} OnesCountMissing(s: SackInfo, byte: nat, k: nat)
    requires byte < BITMASK_BYTES && k <= 8
    ensures |MissingBelow(s, 8 * byte + k)| == |MissingBelow(s, 8 * byte)| + Ones(s.bitmask[byte], k)
  {
    if k > 0 {
      OnesCountMissing(s, byte, k - 1);
      assert (8 * byte + k - 1) / 8 == byte && (8 * byte + k - 1) % 8 == k - 1;
    }
  }

  lemma {:induction false} ZeroByteMissing(s: SackInfo, byte: nat, k: nat)
    requires byte < BITMASK_BYTES && k <= 8 && s.bitmask[byte] == 0
    ensures MissingBelow(s, 8 * byte + k) == MissingBelow(s, 8 * byte)
  {
    if k > 0 {
      ZeroByteMissing(s, byte, k - 1);
      ZeroBit(k - 1);
      assert (8 * byte + k - 1) / 8 == byte && (8 * byte + k - 1) % 8 == k - 1;
    }
  }

  // ---------------------------------------------------------------- the mutable payload

  class SackPayload {
    const receiverNodeId: U32
    const senderNodeId: U32
    const baseChunk: U16
    const bitmask: array<U8>

    ghost predicate Valid()
      reads this
    {
      bitmask.Length == BITMASK_BYTES
    }

    ghost function Abstract(): SackInfo
      requires Valid()
      reads this, bitmask
    {
      SackInfo(receiverNodeId, senderNodeId, baseChunk, bitmask[..])
    }

    constructor (receiver: U32, sender: U32, base: U16)
      ensures Valid() && fresh(bitmask) && Abstract() == SackInfo(receiver, sender, base, NoneMissing())
    {
      receiverNodeId, senderNodeId, baseChunk := receiver, sender, base;
      bitmask := new U8[BITMASK_BYTES](_ => 0);
      new;
      assert bitmask[..] == NoneMissing();
    }

    method Mark(chunkIdx: nat)
      requires Valid()
      modifies bitmask
      ensures Abstract() == MarkMissing(old(Abstract()), chunkIdx)
    {
      if baseChunk <= chunkIdx < baseChunk + WINDOW {
        var offset := chunkIdx - baseChunk;
        bitmask[offset / 8] := SetByteBit(bitmask[offset / 8], offset % 8);
      }
    }

    method Unmark(chunkIdx: nat)
      requires Valid()
      modifies bitmask
      ensures Abstract() == MarkReceived(old(Abstract()), chunkIdx)
    {
      if baseChunk <= chunkIdx < baseChunk + WINDOW {
        var offset := chunkIdx - baseChunk;
        bitmask[offset / 8] := ClearByteBit(bitmask[offset / 8], offset % 8);
      }
    }
  }

  /** Visits the missing chunks byte by byte, skipping clear bytes. */
  method ForEachMissing(s: SackInfo) returns (indices: seq<nat>)
    ensures indices == MissingList(s)
  {
    indices := [];
    for byte := 0 to BITMASK_BYTES
      invariant indices == MissingBelow(s, 8 * byte)
    {
      var b := s.bitmask[byte];
      if b == 0 {
        ZeroByteMissing(s, byte, 8);
      } else {
        for bit := 0 to 8
          invariant indices == MissingBelow(s, 8 * byte + bit)
        {
          assert (8 * byte + bit) / 8 == byte && (8 * byte + bit) % 8 == bit;
          if Bit(b, bit) {
            indices := indices + [s.baseChunk + byte * 8 + bit];
          }
        }
      }
    }
  }

  method MissingCount(s: SackInfo) returns (count: nat)
    ensures count == |MissingList(s)|
  {
    count := 0;
    for byte := 0 to BITMASK_BYTES
      invariant count == |MissingBelow(s, 8 * byte)|
    {
      OnesCountMissing(s, byte, 8);
      count := count + Ones(s.bitmask[byte], 8);
    }
  }

  // ---------------------------------------------------------------- wire form

  const SACK_WIDTHS: seq<nat> := [4, 4, 2]

  lemma SackLength()
    ensures Sum(SACK_WIDTHS) == 10
  {
    assert Sum([2]) == 2 && Sum([4, 2]) == 6;
  }

  function EncodeSack(s: SackInfo): Payload {
    SackLength();
    EncodeFields([s.receiverNodeId, s.senderNodeId, s.baseChunk], SACK_WIDTHS) + s.bitmask + Zeros(22)
  }

  function DecodeSack(b: Payload): SackInfo {
    SackLength();
    Pow256Values();
    var v := DecodeFields(b[..10], SACK_WIDTHS);
    SackInfo(v[0], v[1], v[2], b[10..74])
  }

  /** Where each field lies, all big-endian. */
  lemma SackLayout(s: SackInfo)
    ensures var b := EncodeSack(s);
      && b[0..4] == BigEndian(s.receiverNodeId, 4) && b[4..8] == BigEndian(s.senderNodeId, 4)
      && b[8..10] == BigEndian(s.baseChunk, 2) && b[10..74] == s.bitmask && b[74..96] == Zeros(22)
  {
    NoFields();
    FieldsCons(s.baseChunk, 2, [], []);
    FieldsCons(s.senderNodeId, 4, [s.baseChunk], [2]);
    FieldsCons(s.receiverNodeId, 4, [s.senderNodeId, s.baseChunk], [4, 2]);
    hide EncodeFields;
    hide BigEndian;
    var r, n, c := BigEndian(s.receiverNodeId, 4), BigEndian(s.senderNodeId, 4), BigEndian(s.baseChunk, 2);
    assert EncodeSack(s) == (r + (n + c)) + s.bitmask + Zeros(22);
  }

  lemma SackDecodes(s: SackInfo)
    ensures DecodeSack(EncodeSack(s)) == s
  {
    SackLength();
    Pow256Values();
    var v: seq<nat> := [s.receiverNodeId, s.senderNodeId, s.baseChunk];
    FieldsDecode(v, SACK_WIDTHS);
    hide EncodeFields;
    hide DecodeFields;
    var b := EncodeSack(s);
    assert b[..10] == EncodeFields(v, SACK_WIDTHS);
    assert b[10..74] == s.bitmask;
  }
}
