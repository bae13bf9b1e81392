/** Splitting a text into sealed packets, and putting the pieces together again. The cipher is symbolic: a pair of
    functions that seal and open one padded chunk under its coordinates. */
module Chunks {
  import opened Bytes
  import opened Wire
  import Nonce

  const CHUNK_LEN := 80
  const MAX_TOTAL_CHUNKS := 800
  const ORIGIN_TTL := 7

  type Text = seq<U8>
  type SecretKey = seq<U8>
  type Plain = s: seq<U8> | |s| == CHUNK_LEN witness Zeros(CHUNK_LEN)

  /** What the implicit nonce of a chunk is derived from. */
  datatype Coordinates = Coordinates(key: SecretKey, msgId: U32, chunkIdx: U8, counter: U64)

  datatype Crypto = Crypto(
    subkey: (SecretKey, U32) -> SecretKey,
    seal: (Coordinates, Plain) -> Payload,
    unseal: (Coordinates, Payload) -> Option<Plain>)
  {
    /** A chunk opens to what was sealed when the coordinates match. */
    ghost predicate Correct() {
      forall c, p :: unseal(c, seal(c, p)) == Some(p)
    }

    /** A sealed chunk opens under its own coordinates only. */
    ghost predicate Exclusive() {
      forall c, d, p :: unseal(d, seal(c, p)).Some? ==> d == c
    }
  }

  datatype CryptoError = PayloadTooLarge | AuthenticationFailed | InvalidNonce

  /** Sender's and receiver's coordinates of a chunk, from header fields alone. */
  function At(crypto: Crypto, master: SecretKey, node: U32, msgId: U32, chunkIdx: U8): Coordinates {
    Coordinates(crypto.subkey(master, node), msgId, chunkIdx, msgId)
  }

  /** Different nodes have different subkeys. */
  ghost predicate Separates(crypto: Crypto, master: SecretKey) {
    forall x: U32, y: U32 :: crypto.subkey(master, x) == crypto.subkey(master, y) ==> x == y
  }

  /** Coordinates tell nodes, messages and chunks apart. */
  lemma CoordinatesInjective(crypto: Crypto, master: SecretKey, node: U32, id: U32, i: U8, node': U32, id': U32, i': U8)
    requires node == node' || Separates(crypto, master)
    ensures At(crypto, master, node, id, i) == At(crypto, master, node', id', i')
       <==> node == node' && id == id' && i == i'
  {
  }

  /** No two chunks are sealed under the same coordinates: not two of one message, nor two of messages of one node whose
      counters are less than 65536 apart, over any run in which a failed reservation ends the process, nor two of
      different nodes when their subkeys differ. */
  lemma CoordinatesNeverRepeat(crypto: Crypto, master: SecretKey, evs: seq<Nonce.Event>, node: U32, a: nat, i: U8,
                               evs': seq<Nonce.Event>, node': U32, b: nat, j: U8)
    requires Nonce.StopsOnError(evs) && Nonce.StopsOnError(evs')
    requires a < |Nonce.Exec(evs).issued| && b < |Nonce.Exec(evs').issued|
    requires if node != node' then Separates(crypto, master)
             else
               && evs == evs' && (a != b || i != j)
               && -0x1_0000 < Nonce.Exec(evs).issued[a].counter - Nonce.Exec(evs).issued[b].counter < 0x1_0000
    ensures At(crypto, master, node, Nonce.MsgId(node, Nonce.Exec(evs).issued[a].counter), i)
         != At(crypto, master, node', Nonce.MsgId(node', Nonce.Exec(evs').issued[b].counter), j)
  {
    var c, d := Nonce.Exec(evs).issued[a].counter, Nonce.Exec(evs').issued[b].counter;
    if node == node' && a < b {
      Nonce.MessageIdsDistinct(evs, node, a, b);
    } else if node == node' && b < a {
      Nonce.MessageIdsDistinct(evs, node, b, a);
    }
    CoordinatesInjective(crypto, master, node, Nonce.MsgId(node, c), i, node', Nonce.MsgId(node', d), j);
  }

  // ---------------------------------------------------------------- fragmentation

  function NumChunks(text: Text): nat {
    (|text| + CHUNK_LEN - 1) / CHUNK_LEN
  }

  /** Chunk `i` of a text, padded with zero bytes. */
  function Piece(text: Text, i: nat): Plain
    requires CHUNK_LEN * i <= |text|
  {
    var end := Min(CHUNK_LEN * i + CHUNK_LEN, |text|);
    text[CHUNK_LEN * i..end] + Zeros(CHUNK_LEN - (end - CHUNK_LEN * i))
  }

  function SealedPacket(crypto: Crypto, master: SecretKey, tag: U64, node: U32, msgId: U32, i: U8, total: U8,
                        plain: Plain): MeshPacket
  {
    MeshPacket(MeshHeader(tag, msgId, i, total, ORIGIN_TTL, 0, FLAG_CLIPBOARD),
               crypto.seal(At(crypto, master, node, msgId, i), plain))
  }

  /** The first `n` packets of a text announced as `total` chunks. */
  function PacketsOf(crypto: Crypto, master: SecretKey, tag: U64, node: U32, msgId: U32, text: Text, total: U8,
                     n: nat): (r: seq<MeshPacket>)
    requires n <= 256 && n <= NumChunks(text)
    ensures |r| == n
    ensures forall i | 0 <= i < n :: r[i] == SealedPacket(crypto, master, tag, node, msgId, i, total, Piece(text, i))
  {
    if n == 0 then []
    else PacketsOf(crypto, master, tag, node, msgId, text, total, n - 1) +
         [SealedPacket(crypto, master, tag, node, msgId, n - 1, total, Piece(text, n - 1))]
  }

  /** All packets of a message: the chunk count is cast to one byte. */
  function MessagePackets(crypto: Crypto, master: SecretKey, tag: U64, node: U32, msgId: U32, text: Text):
    seq<MeshPacket>
  {
    var total := NumChunks(text) % 256;
    PacketsOf(crypto, master, tag, node, msgId, text, total, total)
  }

  /** How a fragment travels: over exactly seven hops, as a clipboard packet that dongles relay and hosts ingest, under
      its message's tag, id and chunk count, with the chunk sealed under its own index. */
  lemma FragmentTravels(crypto: Crypto, master: SecretKey, tag: U64, node: U32, msgId: U32, text: Text, i: nat, n: nat)
    requires i < |MessagePackets(crypto, master, tag, node, msgId, text)|
    ensures var p := MessagePackets(crypto, master, tag, node, msgId, text)[i];
      && p.HasFlag(FLAG_CLIPBOARD) && !p.IsTelemetry() && !p.HasFlag(FLAG_SACK)
      && (Hops(p, n).Some? <==> n <= 7)
      && (n <= 7 ==>
            Hops(p, n) == Some(MeshPacket(
              MeshHeader(tag, msgId, i, NumChunks(text) % 256, 7 - n, n, p.header.flags),
              crypto.seal(At(crypto, master, node, msgId, i), Piece(text, i)))))
  {
    HopsExactly(MessagePackets(crypto, master, tag, node, msgId, text)[i], n);
    hide At;
    hide Piece;
  }

  /** `saved` tells whether a nonce reservation that becomes due reaches the disk. */
  method FragmentAndEncrypt(crypto: Crypto, master: SecretKey, tag: U64, node: U32, text: Text,
                            nonces: Nonce.NonceManager, saved: bool)
    returns (r: Result<seq<MeshPacket>, CryptoError>)
    modifies nonces, nonces.file
    ensures |text| == 0 ==> r == Ok([]) && nonces.Abstract() == old(nonces.Abstract())
    ensures NumChunks(text) > MAX_TOTAL_CHUNKS ==>
      r == Err(PayloadTooLarge) && nonces.Abstract() == old(nonces.Abstract())
    ensures 0 < |text| && NumChunks(text) <= MAX_TOTAL_CHUNKS ==>
      var (n, issue) := Nonce.AllocateMsg(old(nonces.file.content), old(nonces.Abstract()),
                                          if saved then Nonce.Saved else Nonce.Failed);
      && n.mgr == Some(nonces.Abstract()) && n.file == nonces.file.content
      && r == match issue
              case None => Err(InvalidNonce)
              case Some(c) => Ok(MessagePackets(crypto, master, tag, node, Nonce.MsgId(node, c.counter), text))
  {
    if |text| == 0 {
      return Ok([]);
    }
    var numChunks := (|text| + CHUNK_LEN - 1) / CHUNK_LEN;
    if numChunks > MAX_TOTAL_CHUNKS {
      return Err(PayloadTooLarge);
    }
    var total: U8 := numChunks % 256;
    var issue := nonces.Allocate(saved);
    if issue.None? {
      return Err(InvalidNonce);
    }
    var msgId := Nonce.MsgId(node, issue.value.counter);
    var packets := [];
    for i := 0 to total
      invariant packets == PacketsOf(crypto, master, tag, node, msgId, text, total, i)
    {
      var start := i * CHUNK_LEN;
      var end := Min(start + CHUNK_LEN, |text|);
      var data := text[start..end];
      var sealed := crypto.seal(At(crypto, master, node, msgId, i), data + Zeros(CHUNK_LEN - |data|));
      packets := packets + [MeshPacket(MeshHeader(tag, msgId, i, total, ORIGIN_TTL, 0, FLAG_CLIPBOARD), sealed)];
    }
    r := Ok(packets);
  }

  // ---------------------------------------------------------------- reassembly

  function Concat(chunks: seq<Plain>): (r: seq<U8>)
    ensures |r| == CHUNK_LEN * |chunks|
  {
    if chunks == [] then [] else Concat(chunks[..|chunks| - 1]) + chunks[|chunks| - 1]
  }

  /** Without the trailing zero bytes. */
  function Strip(b: seq<U8>): (r: seq<U8>)
    ensures r <= b && (r == [] || r[|r| - 1] != 0)
    ensures forall i | |r| <= i < |b| :: b[i] == 0
  {
    if b == [] || b[|b| - 1] != 0 then b else Strip(b[..|b| - 1])
  }

  function Assemble(chunks: seq<Plain>): seq<U8> {
    Strip(Concat(chunks))
  }

  method AssembleChunks(chunks: seq<Plain>) returns (r: seq<U8>)
    ensures r == Assemble(chunks)
  {
    var bytes: seq<U8> := [];
    for i := 0 to |chunks|
      invariant bytes == Concat(chunks[..i])
    {
      bytes := bytes + chunks[i];
      assert chunks[..i + 1][..i] == chunks[..i];
    }
    assert chunks[..|chunks|] == chunks;
    while bytes != [] && bytes[|bytes| - 1] == 0
      invariant Strip(bytes) == Assemble(chunks)
      decreases |bytes|
    {
      bytes := bytes[..|bytes| - 1];
    }
    r := bytes;
  }

  function Pieces(text: Text, n: nat): (r: seq<Plain>)
    requires n <= NumChunks(text)
    ensures |r| == n
    ensures forall i | 0 <= i < n :: r[i] == Piece(text, i)
  {
    if n == 0 then [] else Pieces(text, n - 1) + [Piece(text, n - 1)]
  }

  lemma ChunkStart(text: Text, n: nat)
    requires 0 < n <= NumChunks(text)
    ensures CHUNK_LEN * (n - 1) < |text|
  {
  }

  /** The text's first `n` chunks with their padding. */
  function Padded(text: Text, n: nat): seq<U8> {
    var end := Min(CHUNK_LEN * n, |text|);
    text[..end] + Zeros(CHUNK_LEN * n - end)
  }

  lemma AppendSlice(s: seq<U8>, i: nat, j: nat, tail: seq<U8>)
    requires i <= j <= |s|
    ensures s[..i] + (s[i..j] + tail) == s[..j] + tail
  {
  }

  lemma PaddedStep(text: Text, n: nat)
    requires 0 < n <= NumChunks(text)
    ensures Padded(text, n - 1) + Piece(text, n - 1) == Padded(text, n)
  {
    ChunkStart(text, n);
    hide NumChunks;
    var start, end := CHUNK_LEN * (n - 1), Min(CHUNK_LEN * n, |text|);
    AppendSlice(text, start, end, Zeros(CHUNK_LEN * n - end));
    assert Padded(text, n - 1) == text[..start];
  }

  lemma {:induction false} ConcatPieces(text: Text, n: nat)
    requires n <= NumChunks(text)
    ensures Concat(Pieces(text, n)) == Padded(text, n)
  {
    if n > 0 {
      ConcatPieces(text, n - 1);
      assert Pieces(text, n)[..n - 1] == Pieces(text, n - 1);
      PaddedStep(text, n);
      hide NumChunks;
      hide Padded;
      hide Piece;
    } else {
      assert Padded(text, 0) == [];
    }
  }

  lemma {:induction false} StripZeros(b: seq<U8>, n: nat)
    ensures Strip(b + Zeros(n)) == Strip(b)
    decreases n
  {
    if n == 0 {
      assert b + Zeros(0) == b;
    } else {
      StripZeros(b, n - 1);
      assert (b + Zeros(n))[..|b| + n - 1] == b + Zeros(n - 1);
    }
  }

  lemma AssemblePieces(text: Text, n: nat)
    requires n <= NumChunks(text)
    ensures Assemble(Pieces(text, n)) == Strip(text[..Min(CHUNK_LEN * n, |text|)])
  {
    var m := Min(CHUNK_LEN * n, |text|);
    ConcatPieces(text, n);
    StripZeros(text[..m], CHUNK_LEN * n - m);
  }

  lemma CutLength(text: Text)
    ensures NumChunks(text) <= 255 ==> CHUNK_LEN * (NumChunks(text) % 256) >= |text|
    ensures NumChunks(text) > 255 ==> CHUNK_LEN * (NumChunks(text) % 256) < |text|
  {
  }

  lemma StripKeeps(b: seq<U8>)
    requires b != []
    ensures Strip(b) == b <==> b[|b| - 1] != 0
  {
  }

  /** Exactly which texts survive being cut up and put together: those of at most 255 chunks that do not end in NUL.
      A longer text is cut off by the one-byte chunk count, and a trailing NUL is taken for padding. */
  lemma SurvivingTexts(text: Text)
    requires text != []
    ensures Assemble(Pieces(text, NumChunks(text) % 256)) == text
       <==> NumChunks(text) <= 255 && text[|text| - 1] != 0
  {
    var n := NumChunks(text) % 256;
    var m := Min(CHUNK_LEN * n, |text|);
    AssemblePieces(text, n);
    CutLength(text);
    StripKeeps(text);
    hide Strip;
    hide NumChunks;
    if m == |text| {
      assert text[..m] == text;
    }
  }
}
