/** The sliding Bloom filter that deduplicates mesh packets: two 10240-bit epochs and a 64-entry recent list. */
module Dedup {
  import opened Bytes
  import opened Wire

  const BLOOM_BITS := 10240
  const BLOOM_WORDS := 160
  const EPOCH_THRESHOLD := 512
  const LRU_SIZE := 64
  const HASHES := 7

  // ---------------------------------------------------------------- hashing

  /** A byte from its bits, lowest first. */
  function FromBits(b0: bool, b1: bool, b2: bool, b3: bool, b4: bool, b5: bool, b6: bool, b7: bool): bv8 {
    (if b0 then 0x01 else 0) | (if b1 then 0x02 else 0) | (if b2 then 0x04 else 0) | (if b3 then 0x08 else 0) |
    (if b4 then 0x10 else 0) | (if b5 then 0x20 else 0) | (if b6 then 0x40 else 0) | (if b7 then 0x80 else 0)
  }

  function Octet(x: U8): bv8 {
    FromBits(Bit(x, 0), Bit(x, 1), Bit(x, 2), Bit(x, 3), Bit(x, 4), Bit(x, 5), Bit(x, 6), Bit(x, 7))
  }

  function Join(a: bv8, b: bv8, c: bv8, d: bv8): bv32 {
    ((a as bv32) << 24) | ((b as bv32) << 16) | ((c as bv32) << 8) | (d as bv32)
  }

  /** The number as a machine word. */
  function Word32(x: U32): bv32 {
    var b := BigEndian(x, 4);
    Join(Octet(b[0]), Octet(b[1]), Octet(b[2]), Octet(b[3]))
  }

  lemma FromBitsInjective(b0: bool, b1: bool, b2: bool, b3: bool, b4: bool, b5: bool, b6: bool, b7: bool,
                          c0: bool, c1: bool, c2: bool, c3: bool, c4: bool, c5: bool, c6: bool, c7: bool)
    requires FromBits(b0, b1, b2, b3, b4, b5, b6, b7) == FromBits(c0, c1, c2, c3, c4, c5, c6, c7)
    ensures b0 == c0 && b1 == c1 && b2 == c2 && b3 == c3 && b4 == c4 && b5 == c5 && b6 == c6 && b7 == c7
  {
  }

  lemma SmallBits(p: nat)
    ensures !Bit(0, p) && (Bit(1, p) <==> p == 0)
  {
    ZeroBit(p);
    if p > 0 {
      ZeroBit(p - 1);
    }
  }

  lemma SmallOctets()
    ensures Octet(0) == 0 && Octet(1) == 1
  {
    SmallBits(0);
    SmallBits(1);
    SmallBits(2);
    SmallBits(3);
    SmallBits(4);
    SmallBits(5);
    SmallBits(6);
    SmallBits(7);
    hide Bit;
  }

  lemma SmallBytes()
    ensures BigEndian(0, 4) == [0, 0, 0, 0] && BigEndian(1, 4) == [0, 0, 0, 1]
  {
    assert BigEndian(0, 2) == [0, 0];
    assert BigEndian(0, 3) == [0, 0, 0];
  }

  lemma SmallWords()
    ensures Word32(0) == 0 && Word32(1) == 1
  {
    SmallOctets();
    SmallBytes();
    hide Octet;
    hide BigEndian;
  }

  lemma EightBits(x: U8, y: U8)
    requires Bit(x, 0) == Bit(y, 0) && Bit(x, 1) == Bit(y, 1) && Bit(x, 2) == Bit(y, 2) && Bit(x, 3) == Bit(y, 3)
    requires Bit(x, 4) == Bit(y, 4) && Bit(x, 5) == Bit(y, 5) && Bit(x, 6) == Bit(y, 6) && Bit(x, 7) == Bit(y, 7)
    ensures forall p: nat | p < 8 :: Bit(x, p) == Bit(y, p)
  {
    hide Bit;
    forall p: nat | p < 8 ensures Bit(x, p) == Bit(y, p) {
      assert p == 0 || p == 1 || p == 2 || p == 3 || p == 4 || p == 5 || p == 6 || p == 7;
    }
  }

  lemma OctetInjective(x: U8, y: U8)
    requires Octet(x) == Octet(y)
    ensures x == y
  {
    hide FromBits;
    hide Bit;
    FromBitsInjective(Bit(x, 0), Bit(x, 1), Bit(x, 2), Bit(x, 3), Bit(x, 4), Bit(x, 5), Bit(x, 6), Bit(x, 7),
                      Bit(y, 0), Bit(y, 1), Bit(y, 2), Bit(y, 3), Bit(y, 4), Bit(y, 5), Bit(y, 6), Bit(y, 7));
    Pow2Byte();
    EightBits(x, y);
    BitsDetermine(x, y, 8);
  }

  lemma JoinInjective(a: bv8, b: bv8, c: bv8, d: bv8, a': bv8, b': bv8, c': bv8, d': bv8)
    requires Join(a, b, c, d) == Join(a', b', c', d')
    ensures a == a' && b == b' && c == c' && d == d'
  {
  }

  lemma Word32Injective(x: U32, y: U32)
    requires Word32(x) == Word32(y)
    ensures x == y
  {
    hide Join;
    hide Octet;
    hide BigEndian;
    Pow256Values();
    BigEndianDecodes(x, 4);
    BigEndianDecodes(y, 4);
    var b, c := BigEndian(x, 4), BigEndian(y, 4);
    JoinInjective(Octet(b[0]), Octet(b[1]), Octet(b[2]), Octet(b[3]),
                  Octet(c[0]), Octet(c[1]), Octet(c[2]), Octet(c[3]));
    OctetInjective(b[0], c[0]);
    OctetInjective(b[1], c[1]);
    OctetInjective(b[2], c[2]);
    OctetInjective(b[3], c[3]);
    assert b == c;
  }

  // Each mixing step can be undone.

  function Times85(x: bv32): bv32 {
    x * 0x85ebca6b
  }

  function Over85(x: bv32): bv32 {
    x * 0xa5cb9243
  }

  lemma Over85Undoes(x: bv32)
    ensures Over85(x * 0x85ebca6b) == x
  {
  }

  lemma Times85Injective(x: bv32, y: bv32)
    requires Times85(x) == Times85(y)
    ensures x == y
  {
    hide Over85;
    Over85Undoes(x);
    Over85Undoes(y);
  }

  function TimesC2(x: bv32): bv32 {
    x * 0xc2b2ae35
  }

  function OverC2(x: bv32): bv32 {
    x * 0x7ed1b41d
  }

  lemma OverC2Undoes(x: bv32)
    ensures OverC2(x * 0xc2b2ae35) == x
  {
  }

  lemma TimesC2Injective(x: bv32, y: bv32)
    requires TimesC2(x) == TimesC2(y)
    ensures x == y
  {
    hide OverC2;
    OverC2Undoes(x);
    OverC2Undoes(y);
  }

  function TimesCc(x: bv32): bv32 {
    x * 0xcc9e2d51
  }

  function OverCc(x: bv32): bv32 {
    x * 0xdee13bb1
  }

  lemma OverCcUndoes(x: bv32)
    ensures OverCc(x * 0xcc9e2d51) == x
  {
  }

  lemma TimesCcInjective(x: bv32, y: bv32)
    requires TimesCc(x) == TimesCc(y)
    ensures x == y
  {
    hide OverCc;
    OverCcUndoes(x);
    OverCcUndoes(y);
  }

  function Times1b(x: bv32): bv32 {
    x * 0x1b873593
  }

  function Over1b(x: bv32): bv32 {
    x * 0x56ed309b
  }

  lemma Over1bUndoes(x: bv32)
    ensures Over1b(x * 0x1b873593) == x
  {
  }

  lemma Times1bInjective(x: bv32, y: bv32)
    requires Times1b(x) == Times1b(y)
    ensures x == y
  {
    hide Over1b;
    Over1bUndoes(x);
    Over1bUndoes(y);
  }

  function Times5b(x: bv32): bv32 {
    x * 0x5bd1e995
  }

  function Over5b(x: bv32): bv32 {
    x * 0xe59b19bd
  }

  lemma Over5bUndoes(x: bv32)
    ensures Over5b(x * 0x5bd1e995) == x
  {
  }

  lemma Times5bInjective(x: bv32, y: bv32)
    requires Times5b(x) == Times5b(y)
    ensures x == y
  {
    hide Over5b;
    Over5bUndoes(x);
    Over5bUndoes(y);
  }

  function Fold16(x: bv32): bv32 {
    x ^ (x >> 16)
  }

  lemma Fold16Undoes(x: bv32)
    ensures Fold16(x ^ (x >> 16)) == x
  {
  }

  lemma Fold16Injective(x: bv32, y: bv32)
    requires Fold16(x) == Fold16(y)
    ensures x == y
  {
    Fold16Undoes(x);
    Fold16Undoes(y);
  }

  function Fold13(x: bv32): bv32 {
    x ^ (x >> 13)
  }

  function Unfold13(x: bv32): bv32 {
    x ^ (x >> 13) ^ (x >> 26)
  }

  lemma Unfold13Undoes(x: bv32)
    ensures Unfold13(x ^ (x >> 13)) == x
  {
  }

  lemma Fold13Injective(x: bv32, y: bv32)
    requires Fold13(x) == Fold13(y)
    ensures x == y
  {
    hide Unfold13;
    Unfold13Undoes(x);
    Unfold13Undoes(y);
  }

  function Mix(x: bv32, y: bv32): bv32 {
    x ^ y
  }

  lemma MixInjective(x: bv32, y: bv32, x': bv32, y': bv32)
    requires Mix(x, y) == Mix(x', y') && (x == x' || y == y')
    ensures x == x' && y == y'
  {
  }

  function FirstHash(msg: bv32, chunk: bv32): bv32 {
    Times85(Fold16(Mix(Times85(msg), TimesC2(chunk))))
  }

  function SecondHash(msg: bv32, chunk: bv32): bv32 {
    Times5b(Fold13(Mix(TimesCc(msg), Times1b(chunk))))
  }

  function HashCoords(k: PacketKey): (bv32, bv32) {
    var msg, chunk := Word32(k.msgId), Word32(k.chunkIdx);
    var h2 := SecondHash(msg, chunk);
    (FirstHash(msg, chunk), if h2 == 0 then 1 else h2)
  }

  /** Among chunks of one message, or messages with one chunk index, the first hash is injective. */
  lemma FirstInjective(msg: bv32, chunk: bv32, msg': bv32, chunk': bv32)
    requires (msg == msg' || chunk == chunk') && FirstHash(msg, chunk) == FirstHash(msg', chunk')
    ensures msg == msg' && chunk == chunk'
  {
    hide Times85;
    hide TimesC2;
    hide Fold16;
    hide Mix;
    var a, a' := Mix(Times85(msg), TimesC2(chunk)), Mix(Times85(msg'), TimesC2(chunk'));
    Times85Injective(Fold16(a), Fold16(a'));
    Fold16Injective(a, a');
    MixInjective(Times85(msg), TimesC2(chunk), Times85(msg'), TimesC2(chunk'));
    Times85Injective(msg, msg');
    TimesC2Injective(chunk, chunk');
  }

  /** So is the second, before a zero is replaced. */
  lemma SecondInjective(msg: bv32, chunk: bv32, msg': bv32, chunk': bv32)
    requires (msg == msg' || chunk == chunk') && SecondHash(msg, chunk) == SecondHash(msg', chunk')
    ensures msg == msg' && chunk == chunk'
  {
    hide TimesCc;
    hide Times1b;
    hide Times5b;
    hide Fold13;
    hide Mix;
    var b, b' := Mix(TimesCc(msg), Times1b(chunk)), Mix(TimesCc(msg'), Times1b(chunk'));
    Times5bInjective(Fold13(b), Fold13(b'));
    Fold13Injective(b, b');
    MixInjective(TimesCc(msg), Times1b(chunk), TimesCc(msg'), Times1b(chunk'));
    TimesCcInjective(msg, msg');
    Times1bInjective(chunk, chunk');
  }

  /** Keys that share the message id or the chunk index. */
  predicate Siblings(k: PacketKey, other: PacketKey) {
    k != other && (k.msgId == other.msgId || k.chunkIdx == other.chunkIdx)
  }

  lemma FirstHashOfKeys(k: PacketKey, other: PacketKey)
    requires k.msgId == other.msgId || k.chunkIdx == other.chunkIdx
    requires HashCoords(k).0 == HashCoords(other).0
    ensures k == other
  {
    hide Word32;
    FirstInjective(Word32(k.msgId), Word32(k.chunkIdx), Word32(other.msgId), Word32(other.chunkIdx));
    Word32Injective(k.msgId, other.msgId);
    Word32Injective(k.chunkIdx, other.chunkIdx);
  }

  lemma SecondHashOfKeys(k: PacketKey, other: PacketKey)
    requires k.msgId == other.msgId || k.chunkIdx == other.chunkIdx
    requires HashCoords(k).1 == HashCoords(other).1 != 1
    ensures k == other
  {
    hide Word32;
    hide SecondHash;
    SecondInjective(Word32(k.msgId), Word32(k.chunkIdx), Word32(other.msgId), Word32(other.chunkIdx));
    Word32Injective(k.msgId, other.msgId);
    Word32Injective(k.chunkIdx, other.chunkIdx);
  }

  /** Siblings start their probes at different hashes, and step by different ones unless a zero was replaced. */
  lemma SiblingsHashApart(k: PacketKey, other: PacketKey)
    requires Siblings(k, other)
    ensures HashCoords(k).0 != HashCoords(other).0 && HashCoords(k).1 != 0
    ensures HashCoords(k).1 == HashCoords(other).1 ==> HashCoords(k).1 == 1
  {
    hide Word32;
    hide FirstHash;
    hide SecondHash;
    assert HashCoords(k).1 != 0;
    hide HashCoords;
    if HashCoords(k).1 == HashCoords(other).1 && HashCoords(k).1 != 1 {
      SecondHashOfKeys(k, other);
    }
    if HashCoords(k).0 == HashCoords(other).0 {
      FirstHashOfKeys(k, other);
    }
  }

  /** The i-th bit of a key; the product i * h2 wraps, in insertion and lookup alike. */
  function BitIndex(k: PacketKey, i: nat): (r: nat)
    requires i < HASHES
    ensures r < BLOOM_BITS
  {
    var (h1, h2) := HashCoords(k);
    ((h1 + (i as bv32) * h2) as int) % BLOOM_BITS
  }

  function Bits(k: PacketKey): (r: set<nat>)
    ensures forall i: nat | i < HASHES :: BitIndex(k, i) in r
    ensures forall b <- r :: exists i: nat :: i < HASHES && b == BitIndex(k, i)
  {
    set i: nat | i < HASHES :: BitIndex(k, i)
  }

  // ---------------------------------------------------------------- the filter as a function of its history

  /** Inserts in the active epoch after `n` inserts. */
  function InEpoch(n: nat): (e: nat)
    ensures e <= EPOCH_THRESHOLD && e <= n && (n > 0 ==> e > 0)
    ensures n > EPOCH_THRESHOLD ==> EPOCH_THRESHOLD + e <= n
  {
    if n == 0 then 0 else (n - 1) % EPOCH_THRESHOLD + 1
  }

  /** Number of the last inserts that the two epochs cover. */
  function Window(n: nat): (w: nat)
    ensures Min(n, EPOCH_THRESHOLD + 1) <= w <= n
  {
    if n <= EPOCH_THRESHOLD then n else EPOCH_THRESHOLD + InEpoch(n)
  }

  function BitsOf(keys: seq<PacketKey>): (r: set<nat>) {
    if keys == [] then {} else BitsOf(keys[..|keys| - 1]) + Bits(keys[|keys| - 1])
  }

  function Last<T>(s: seq<T>, n: nat): seq<T> {
    if n >= |s| then s else s[|s| - n..]
  }

  /** The recent list starts filled with the key (0, 0). */
  predicate IsRecent(history: seq<PacketKey>, k: PacketKey) {
    k in Last(history, LRU_SIZE) || (|history| < LRU_SIZE && k == PacketKey(0, 0))
  }

  /** The lookup after the inserts of `history`, oldest first. */
  predicate Contains(history: seq<PacketKey>, k: PacketKey) {
    IsRecent(history, k) || Bits(k) <= BitsOf(Last(history, Window(|history|)))
  }

  // ---------------------------------------------------------------- packed bits

  /** A 64-bit word of the filter. */
  type Word = w: nat | w < Pow2(64) witness 0

  predicate TestBit(words: seq<Word>, b: nat)
    requires |words| == BLOOM_WORDS && b < BLOOM_BITS
  {
    Bit(words[b / 64], b % 64)
  }

  /** `w |= 1 << pos` */
  function OrBit(w: Word, pos: nat): Word
    requires pos < 64
  {
    BitUpdateFits(w, pos, 64);
    WithBit(w, pos)
  }

  function SetBit(words: seq<Word>, b: nat): (r: seq<Word>)
    requires |words| == BLOOM_WORDS && b < BLOOM_BITS
    ensures |r| == BLOOM_WORDS
  {
    words[b / 64 := OrBit(words[b / 64], b % 64)]
  }

  lemma SetBitEffect(words: seq<Word>, b: nat, c: nat)
    requires |words| == BLOOM_WORDS && b < BLOOM_BITS && c < BLOOM_BITS
    ensures TestBit(SetBit(words, b), c) <==> c == b || TestBit(words, c)
  {
    hide Bit;
    hide WithBit;
    WithBitBits(words[b / 64], b % 64, c % 64);
  }

  /** The epoch's bits are exactly `bits`. */
  ghost predicate Packs(words: seq<Word>, bits: set<nat>) {
    && |words| == BLOOM_WORDS
    && forall b: nat | b < BLOOM_BITS :: TestBit(words, b) <==> b in bits
  }

  lemma PacksSet(words: seq<Word>, bits: set<nat>, b: nat)
    requires Packs(words, bits) && b < BLOOM_BITS
    ensures Packs(SetBit(words, b), bits + {b})
  {
    hide TestBit;
    hide SetBit;
    forall c: nat | c < BLOOM_BITS ensures TestBit(SetBit(words, b), c) <==> c in bits + {b} {
      SetBitEffect(words, b, c);
    }
  }

  lemma PacksZero(words: seq<Word>)
    requires |words| == BLOOM_WORDS && forall i | 0 <= i < BLOOM_WORDS :: words[i] == 0
    ensures Packs(words, {})
  {
    hide Bit;
    forall b: nat | b < BLOOM_BITS ensures !TestBit(words, b) {
      ZeroBit(b % 64);
    }
  }

  // ---------------------------------------------------------------- the two epochs

  /** The keys of the active epoch, and those of the one before it. */
  function ActiveKeys(h: seq<PacketKey>): seq<PacketKey> {
    h[|h| - InEpoch(|h|)..]
  }

  function PreviousKeys(h: seq<PacketKey>): seq<PacketKey> {
    if |h| <= EPOCH_THRESHOLD then []
    else h[|h| - InEpoch(|h|) - EPOCH_THRESHOLD..|h| - InEpoch(|h|)]
  }

  /** The first `n` bit positions of a key. */
  function FirstBits(k: PacketKey, n: nat): set<nat>
    requires n <= HASHES
  {
    set i: nat | i < n :: BitIndex(k, i)
  }

  lemma BitsOfEmpty()
    ensures BitsOf([]) == {}
  {
  }

  lemma EmptyEpoch(words: seq<Word>)
    requires |words| == BLOOM_WORDS && forall i | 0 <= i < BLOOM_WORDS :: words[i] == 0
    ensures Packs(words, BitsOf(ActiveKeys([]))) && Packs(words, BitsOf(PreviousKeys([])))
  {
    PacksZero(words);
    BitsOfEmpty();
  }

  method NewEpoch() returns (words: array<Word>)
    ensures fresh(words) && words.Length == BLOOM_WORDS
    ensures Packs(words[..], BitsOf(ActiveKeys([]))) && Packs(words[..], BitsOf(PreviousKeys([])))
  {
    hide Packs;
    hide BitsOf;
    words := new Word[BLOOM_WORDS](_ => 0);
    EmptyEpoch(words[..]);
  }

  /** Slot j % 64 of the recent list holds the j-th insert for the last 64 inserts, and (0, 0) before that. */
  ghost predicate Recent(lru: seq<PacketKey>, h: seq<PacketKey>) {
    && |lru| == LRU_SIZE
    && (forall j: nat | |h| <= j + LRU_SIZE && j < |h| :: lru[j % LRU_SIZE] == h[j])
    && (forall j: nat | |h| <= j < LRU_SIZE :: lru[j] == PacketKey(0, 0))
  }

  method NewRecent() returns (keys: array<PacketKey>)
    ensures fresh(keys) && Recent(keys[..], [])
  {
    keys := new PacketKey[LRU_SIZE](_ => PacketKey(0, 0));
  }

  lemma PacksLength(words: seq<Word>, bits: set<nat>)
    requires Packs(words, bits)
    ensures |words| == BLOOM_WORDS
  {
  }

  lemma FirstBitsNone(k: PacketKey)
    ensures FirstBits(k, 0) == {}
  {
  }

  lemma FirstBitsStep(k: PacketKey, i: nat)
    requires i < HASHES
    ensures FirstBits(k, i + 1) == FirstBits(k, i) + {BitIndex(k, i)}
  {
    hide BitIndex;
  }

  lemma FirstBitsAll(k: PacketKey)
    ensures FirstBits(k, HASHES) == Bits(k)
  {
    hide BitIndex;
  }

  lemma BitsOfSnoc(keys: seq<PacketKey>, k: PacketKey)
    ensures BitsOf(keys + [k]) == BitsOf(keys) + Bits(k)
  {
    assert (keys + [k])[..|keys|] == keys;
  }

  lemma {:induction false} BitsOfConcat(a: seq<PacketKey>, b: seq<PacketKey>)
    ensures BitsOf(a + b) == BitsOf(a) + BitsOf(b)
  {
    hide Bits;
    hide BitsOf;
    if b == [] {
      BitsOfEmpty();
      assert a + b == a;
    } else {
      var n := |b| - 1;
      BitsOfConcat(a, b[..n]);
      BitsOfSnoc(a + b[..n], b[n]);
      BitsOfSnoc(b[..n], b[n]);
      assert b == b[..n] + [b[n]];
      assert a + b == a + b[..n] + [b[n]];
    }
  }

  lemma InEpochAll(n: nat)
    requires n <= EPOCH_THRESHOLD
    ensures InEpoch(n) == n
  {
  }

  lemma InEpochStep(n: nat)
    ensures InEpoch(n + 1) == if InEpoch(n) >= EPOCH_THRESHOLD then 1 else InEpoch(n) + 1
    ensures InEpoch(n) >= EPOCH_THRESHOLD ==> n >= EPOCH_THRESHOLD
    ensures InEpoch(n) < EPOCH_THRESHOLD && n <= EPOCH_THRESHOLD ==> n < EPOCH_THRESHOLD && InEpoch(n) == n
  {
  }

  /** The two epochs together hold the bits of the window. */
  lemma WindowBits(h: seq<PacketKey>)
    ensures BitsOf(Last(h, Window(|h|))) == BitsOf(PreviousKeys(h)) + BitsOf(ActiveKeys(h))
  {
    BitsOfConcat(PreviousKeys(h), ActiveKeys(h));
    hide BitsOf;
    hide InEpoch;
    if |h| <= EPOCH_THRESHOLD {
      InEpochStep(|h|);
      InEpochAll(|h|);
    }
    assert Last(h, Window(|h|)) == PreviousKeys(h) + ActiveKeys(h);
  }

  /** Turnover of the epochs on insertion. */
  lemma EpochInsert(h: seq<PacketKey>, k: PacketKey)
    ensures InEpoch(|h|) >= EPOCH_THRESHOLD ==>
      InEpoch(|h + [k]|) == 1 && ActiveKeys(h + [k]) == [k] && PreviousKeys(h + [k]) == ActiveKeys(h)
    ensures InEpoch(|h|) < EPOCH_THRESHOLD ==>
      && InEpoch(|h + [k]|) == InEpoch(|h|) + 1
      && ActiveKeys(h + [k]) == ActiveKeys(h) + [k] && PreviousKeys(h + [k]) == PreviousKeys(h)
  {
    InEpochStep(|h|);
    hide InEpoch;
  }

  // ---------------------------------------------------------------- the recent list

  lemma RecentInsert(lru: seq<PacketKey>, h: seq<PacketKey>, k: PacketKey)
    requires Recent(lru, h)
    ensures Recent(lru[|h| % LRU_SIZE := k], h + [k])
  {
    var h', lru' := h + [k], lru[|h| % LRU_SIZE := k];
    forall j: nat | |h'| <= j + LRU_SIZE && j < |h'| ensures lru'[j % LRU_SIZE] == h'[j] {
      if j < |h| {
        assert lru[j % LRU_SIZE] == h[j];
        assert j % LRU_SIZE != |h| % LRU_SIZE;
      }
    }
  }

  lemma RecentKept(lru: seq<PacketKey>, h: seq<PacketKey>, k: PacketKey)
    requires Recent(lru, h) && IsRecent(h, k)
    ensures k in lru
  {
    var last := Last(h, LRU_SIZE);
    if k in last {
      var i :| 0 <= i < |last| && last[i] == k;
      var j := |h| - |last| + i;
      assert h[j] == k && lru[j % LRU_SIZE] == k;
    } else {
      assert lru[|h|] == k;
    }
  }

  /** The latest insert that went to slot `i`. */
  lemma SlotOwner(n: nat, i: nat) returns (j: nat)
    requires i < LRU_SIZE && i < n
    ensures j < n <= j + LRU_SIZE && j % LRU_SIZE == i
  {
    j := n - 1 - (n - 1 - i) % LRU_SIZE;
  }

  lemma RecentOnly(lru: seq<PacketKey>, h: seq<PacketKey>, i: nat)
    requires Recent(lru, h) && i < LRU_SIZE
    ensures IsRecent(h, lru[i])
  {
    if i < |h| {
      var last := Last(h, LRU_SIZE);
      var j := SlotOwner(|h|, i);
      assert lru[i] == h[j];
      assert last[j - (|h| - |last|)] == h[j];
    }
  }

  lemma RecentMembers(lru: seq<PacketKey>, h: seq<PacketKey>, k: PacketKey)
    requires Recent(lru, h)
    ensures k in lru <==> IsRecent(h, k)
  {
    hide IsRecent;
    if k in lru {
      var i :| 0 <= i < LRU_SIZE && lru[i] == k;
      RecentOnly(lru, h, i);
    }
    if IsRecent(h, k) {
      RecentKept(lru, h, k);
    }
  }

  // ---------------------------------------------------------------- the filter

  class SlidingBloomFilter {
    const activeEpoch: array<Word>
    const previousEpoch: array<Word>
    var entriesInEpoch: nat
    const recentLru: array<PacketKey>
    var lruHead: nat
    ghost var history: seq<PacketKey>

    ghost predicate Valid()
      reads this, activeEpoch, previousEpoch, recentLru
    {
      EpochsHold(history) && RecentHolds(history)
    }

    ghost predicate EpochsHold(h: seq<PacketKey>)
      reads `entriesInEpoch, activeEpoch, previousEpoch
    {
      && activeEpoch != previousEpoch && activeEpoch.Length == previousEpoch.Length == BLOOM_WORDS
      && entriesInEpoch == InEpoch(|h|)
      && Packs(activeEpoch[..], BitsOf(ActiveKeys(h)))
      && Packs(previousEpoch[..], BitsOf(PreviousKeys(h)))
    }

    ghost predicate RecentHolds(h: seq<PacketKey>)
      reads `lruHead, recentLru
    {
      lruHead == |h| % LRU_SIZE && Recent(recentLru[..], h)
    }

    constructor ()
      ensures Valid() && history == [] && fresh(activeEpoch) && fresh(previousEpoch) && fresh(recentLru)
    {
      hide Packs;
      hide BitsOf;
      hide Recent;
      hide ActiveKeys;
      hide PreviousKeys;
      var active := NewEpoch();
      var previous := NewEpoch();
      var recent := NewRecent();
      activeEpoch, previousEpoch, recentLru := active, previous, recent;
      entriesInEpoch, lruHead, history := 0, 0, [];
    }

    method Lookup(k: PacketKey) returns (r: bool)
      requires Valid()
      ensures r == Contains(history, k)
    {
      hide Bits;
      hide BitsOf;
      hide Window;
      hide Last;
      r := InRecent(k);
      if !r {
        r := AllBitsSet(k);
      }
    }

    /** The fast path. */
    method InRecent(k: PacketKey) returns (r: bool)
      requires Valid()
      ensures r == IsRecent(history, k)
    {
      hide Packs;
      hide InEpoch;
      RecentMembers(recentLru[..], history, k);
      for i := 0 to LRU_SIZE
        invariant k !in recentLru[..i]
      {
        if recentLru[i] == k {
          assert k in recentLru[..];
          return true;
        }
      }
      assert recentLru[..LRU_SIZE] == recentLru[..];
      r := false;
    }

    method AllBitsSet(k: PacketKey) returns (r: bool)
      requires Valid()
      ensures r == (Bits(k) <= BitsOf(Last(history, Window(|history|))))
    {
      hide Bits;
      hide BitsOf;
      hide BitIndex;
      hide Window;
      hide InEpoch;
      hide Bit;
      WindowBits(history);
      ghost var seen := BitsOf(Last(history, Window(|history|)));
      for i := 0 to HASHES
        invariant FirstBits(k, i) <= seen
      {
        var bit := BitIndex(k, i);
        var inActive := Bit(activeEpoch[bit / 64], bit % 64);
        var inPrevious := Bit(previousEpoch[bit / 64], bit % 64);
        assert inActive == TestBit(activeEpoch[..], bit) && inPrevious == TestBit(previousEpoch[..], bit);
        FirstBitsStep(k, i);
        if !inActive && !inPrevious {
          assert bit in Bits(k) && bit !in seen;
          return false;
        }
      }
      FirstBitsAll(k);
      r := true;
    }

    method Insert(k: PacketKey)
      requires Valid()
      modifies this, activeEpoch, previousEpoch, recentLru
      ensures Valid() && history == old(history) + [k]
    {
      hide SlidingBloomFilter.EpochsHold;
      hide SlidingBloomFilter.RecentHolds;
      InsertRecent(k, history);
      InsertBits(k, history);
      history := history + [k];
    }

    method InsertRecent(k: PacketKey, ghost h: seq<PacketKey>)
      requires RecentHolds(h)
      modifies `lruHead, recentLru
      ensures RecentHolds(h + [k])
    {
      RecentInsert(recentLru[..], h, k);
      recentLru[lruHead] := k;
      lruHead := (lruHead + 1) % LRU_SIZE;
    }

    method InsertBits(k: PacketKey, ghost h: seq<PacketKey>)
      requires EpochsHold(h)
      modifies `entriesInEpoch, activeEpoch, previousEpoch
      ensures EpochsHold(h + [k])
    {
      EpochInsert(h, k);
      hide InEpoch;
      hide BitsOf;
      hide Bits;
      hide ActiveKeys;
      hide PreviousKeys;
      hide Packs;
      ghost var keys := ActiveKeys(h);
      if entriesInEpoch >= EPOCH_THRESHOLD {
        TurnOver(BitsOf(keys));
        keys := [];
        BitsOfEmpty();
        assert [] + [k] == [k];
      }
      SetBits(k, BitsOf(keys));
      BitsOfSnoc(keys, k);
      entriesInEpoch := entriesInEpoch + 1;
    }

    /** The active epoch becomes the previous one and restarts empty. */
    method TurnOver(ghost bits: set<nat>)
      requires activeEpoch != previousEpoch && Packs(activeEpoch[..], bits) && previousEpoch.Length == BLOOM_WORDS
      modifies `entriesInEpoch, activeEpoch, previousEpoch
      ensures entriesInEpoch == 0 && Packs(activeEpoch[..], {}) && Packs(previousEpoch[..], bits)
    {
      hide Bit;
      forall i | 0 <= i < BLOOM_WORDS {
        previousEpoch[i] := activeEpoch[i];
      }
      assert previousEpoch[..] == old(activeEpoch[..]);
      forall i | 0 <= i < BLOOM_WORDS {
        activeEpoch[i] := 0;
      }
      PacksZero(activeEpoch[..]);
      entriesInEpoch := 0;
    }

    /** The bit loop of an insertion. */
    method SetBits(k: PacketKey, ghost bits: set<nat>)
      requires activeEpoch != previousEpoch && Packs(activeEpoch[..], bits)
      modifies activeEpoch
      ensures Packs(activeEpoch[..], bits + Bits(k))
    {
      hide Bits;
      hide BitIndex;
      hide FirstBits;
      hide Packs;
      FirstBitsNone(k);
      assert bits + {} == bits;
      PacksLength(activeEpoch[..], bits);
      for i := 0 to HASHES
        invariant activeEpoch.Length == BLOOM_WORDS && Packs(activeEpoch[..], bits + FirstBits(k, i))
      {
        var bit := BitIndex(k, i);
        PacksSet(activeEpoch[..], bits + FirstBits(k, i), bit);
        FirstBitsStep(k, i);
        assert bits + FirstBits(k, i) + {bit} == bits + FirstBits(k, i + 1);
        ghost var words := SetBit(activeEpoch[..], bit);
        activeEpoch[bit / 64] := OrBit(activeEpoch[bit / 64], bit % 64);
        assert activeEpoch[..] == words;
      }
      FirstBitsAll(k);
    }
  }

  // ---------------------------------------------------------------- no false negatives

  lemma {:induction false} MemberBits(keys: seq<PacketKey>, k: PacketKey)
    requires k in keys
    ensures Bits(k) <= BitsOf(keys)
  {
    var n := |keys| - 1;
    if keys[n] != k {
      assert keys == keys[..n] + [keys[n]];
      MemberBits(keys[..n], k);
    }
  }

  /** After any history, a key inserted within the window is still contained: that is always so with at most 512 inserts
      after its own, and with up to 1023 just before the epochs turn. */
  lemma NoFalseNegatives(h: seq<PacketKey>, i: nat)
    requires i < |h| && |h| - i <= Window(|h|)
    ensures Contains(h, h[i])
  {
    var last := Last(h, Window(|h|));
    assert last[i - (|h| - |last|)] == h[i];
    MemberBits(last, h[i]);
  }

  /** The first 1024 inserts are all remembered: until then the two epochs hold the whole history. */
  lemma NothingForgotten(h: seq<PacketKey>, k: PacketKey)
    requires |h| <= 2 * EPOCH_THRESHOLD && k in h
    ensures Contains(h, k)
  {
    assert Last(h, Window(|h|)) == h;
    MemberBits(h, k);
  }

  lemma {:induction false} OnlyBits(keys: seq<PacketKey>, k: PacketKey)
    requires forall i | 0 <= i < |keys| :: keys[i] == k
    ensures BitsOf(keys) <= Bits(k)
  {
    if keys != [] {
      OnlyBits(keys[..|keys| - 1], k);
    }
  }

  lemma SmallHashes()
    ensures HashCoords(PacketKey(0, 0)) == (0, 1)
    ensures HashCoords(PacketKey(1, 0)) == (546650752, 2873457184)
    ensures HashCoords(PacketKey(1, 1)).0 == 4065470957
  {
    SmallWords();
    hide Word32;
  }

  lemma ZeroIndex(i: nat)
    requires i < HASHES
    ensures BitIndex(PacketKey(0, 0), i) == i
  {
    SmallHashes();
    hide HashCoords;
    var j := i as bv32;
    assert j == 0 || j == 1 || j == 2 || j == 3 || j == 4 || j == 5 || j == 6;
  }

  lemma OneIndex()
    ensures BitIndex(PacketKey(1, 0), 0) >= HASHES
  {
    SmallHashes();
    hide HashCoords;
  }

  lemma BitsApart()
    ensures BitIndex(PacketKey(1, 0), 0) !in Bits(PacketKey(0, 0))
  {
    OneIndex();
    forall i: nat | i < HASHES ensures BitIndex(PacketKey(0, 0), i) == i {
      ZeroIndex(i);
    }
    hide BitIndex;
  }

  /** The 1025th insert starts the third epoch, and what the first one held can be forgotten. */
  lemma FirstForgotten(h: seq<PacketKey>)
    requires |h| == 2 * EPOCH_THRESHOLD + 1 && forall i | 0 < i < |h| :: h[i] == PacketKey(0, 0)
    ensures !Contains(h, PacketKey(1, 0))
  {
    hide BitIndex;
    var last := Last(h, Window(|h|));
    OnlyBits(last, PacketKey(0, 0));
    BitsApart();
  }

  /** An unused filter admits every key but (0, 0), which its recent list starts out with. */
  lemma UnusedFilter(k: PacketKey)
    ensures Contains([], k) <==> k == PacketKey(0, 0)
  {
    assert BitIndex(k, 0) in Bits(k);
  }

  lemma BitsOfOne(k: PacketKey)
    ensures BitsOf([k]) == Bits(k)
  {
    hide Bits;
    assert [k][..0] == [] && BitsOf([k]) == BitsOf([k][..0]) + Bits(k);
  }

  lemma ContainsOne(k: PacketKey, other: PacketKey)
    requires other != k && other != PacketKey(0, 0)
    ensures Contains([k], other) <==> Bits(other) <= Bits(k)
  {
    BitsOfOne(k);
    hide Bits;
    hide BitsOf;
    assert Last([k], LRU_SIZE) == [k];
    assert Window(1) == 1;
    hide Window;
    assert Last([k], 1) == [k];
  }

  /** A filter that has seen one chunk takes another one of the message for seen only if all seven of its probes collide
      modulo the filter's size; they start from a different hash. */
  lemma SiblingSeen(k: PacketKey, other: PacketKey)
    requires Siblings(k, other) && other != PacketKey(0, 0)
    ensures Contains([k], other) <==> Bits(other) <= Bits(k)
    ensures HashCoords(other).0 != HashCoords(k).0
  {
    hide Contains;
    hide Bits;
    hide HashCoords;
    SiblingsHashApart(k, other);
    ContainsOne(k, other);
  }

  lemma OneBits(i: nat)
    requires i < HASHES
    ensures BitIndex(PacketKey(1, 0), i) != BitIndex(PacketKey(1, 1), 0)
  {
    SmallHashes();
    hide HashCoords;
    var j := i as bv32;
    assert j == 0 || j == 1 || j == 2 || j == 3 || j == 4 || j == 5 || j == 6;
  }

  /** Two chunks of a message that are both new to a filter, one after the other. */
  lemma TwoChunksBothNew()
    ensures !Contains([], PacketKey(1, 0)) && !Contains([PacketKey(1, 0)], PacketKey(1, 1))
  {
    UnusedFilter(PacketKey(1, 0));
    SiblingSeen(PacketKey(1, 0), PacketKey(1, 1));
    forall i: nat | i < HASHES ensures BitIndex(PacketKey(1, 0), i) != BitIndex(PacketKey(1, 1), 0) {
      OneBits(i);
    }
    hide BitIndex;
    hide Contains;
    assert BitIndex(PacketKey(1, 1), 0) in Bits(PacketKey(1, 1));
  }
}
