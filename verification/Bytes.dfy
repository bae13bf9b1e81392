/** Fixed-width integers, big-endian codecs and the small result types shared by every module. */
module Bytes {

  type U8 = x: int | 0 <= x < 0x100
  type U16 = x: int | 0 <= x < 0x1_0000
  type U32 = x: int | 0 <= x < 0x1_0000_0000
  type U64 = x: int | 0 <= x < 0x1_0000_0000_0000_0000

  const U32_MAX: U32 := 0xFFFF_FFFF
  const U64_MAX: U64 := 0xFFFF_FFFF_FFFF_FFFF

  datatype Option<+T> = None | Some(value: T) {
    function GetOr(default: T): T {
      if Some? then value else default
    }
  }

  datatype Result<+T, +E> = Ok(value: T) | Err(error: E)

  function Min(a: int, b: int): int {
    if a <= b then a else b
  }

  function Max(a: int, b: int): int {
    if a <= b then b else a
  }

  function SaturatingAdd(x: int, y: int, max: int): int {
    Min(x + y, max)
  }

  /** Number of values representable in `width` bytes. */
  function Pow256(width: nat): (r: nat)
    ensures r > 0
  {
    if width == 0 then 1 else 256 * Pow256(width - 1)
  }

  lemma Pow256Values()
    ensures Pow256(1) == 0x100
    ensures Pow256(2) == 0x1_0000
    ensures Pow256(4) == 0x1_0000_0000
    ensures Pow256(8) == 0x1_0000_0000_0000_0000
  {
    assert Pow256(3) == 0x100_0000;
    assert Pow256(5) == 0x100_0000_0000;
    assert Pow256(6) == 0x1_0000_0000_0000;
    assert Pow256(7) == 0x100_0000_0000_0000;
  }

  /** The low `width` bytes of `n`, most significant first. */
  function BigEndian(n: nat, width: nat): (r: seq<U8>)
    ensures |r| == width
  {
    if width == 0 then [] else BigEndian(n / 256, width - 1) + [n % 256]
  }

  function FromBigEndian(s: seq<U8>): nat {
    if |s| == 0 then 0 else 256 * FromBigEndian(s[..|s| - 1]) + s[|s| - 1]
  }

  lemma FromBigEndianSnoc(s: seq<U8>, b: U8)
    ensures FromBigEndian(s + [b]) == 256 * FromBigEndian(s) + b
  {
    assert (s + [b])[..|s|] == s;
  }

  lemma {:induction false} BigEndianDecodes(n: nat, width: nat)
    requires n < Pow256(width)
    ensures FromBigEndian(BigEndian(n, width)) == n
  {
    if width > 0 {
      BigEndianDecodes(n / 256, width - 1);
      FromBigEndianSnoc(BigEndian(n / 256, width - 1), n % 256);
    }
  }

  lemma DivideBy256(q: nat, r: U8)
    ensures (256 * q + r) / 256 == q && (256 * q + r) % 256 == r
  {
  }

  lemma {:induction false} BigEndianEncodes(s: seq<U8>)
    ensures FromBigEndian(s) < Pow256(|s|)
    ensures BigEndian(FromBigEndian(s), |s|) == s
  {
    if |s| > 0 {
      var n := |s| - 1;
      BigEndianEncodes(s[..n]);
      DivideBy256(FromBigEndian(s[..n]), s[n]);
      assert s == s[..n] + [s[n]];
    }
  }

  lemma Multiple(d: int, k: int)
    requires d > 0 && -d < d * k < d
    ensures k == 0
  {
  }

  lemma QuotientIs(n: nat, d: nat, q: nat, r: nat)
    requires d > 0 && n == d * q + r && r < d
    ensures n / d == q
  {
    var k: int := n / d - q;
    assert n == d * (n / d) + n % d;
    assert d * k == d * (n / d) - d * q;
    Multiple(d, k);
  }

  lemma DivideTwice(n: nat, p: nat)
    requires p > 0
    ensures (n / 256) / p == n / (256 * p)
  {
    var q, r := n / 256, n % 256;
    var a, b := q / p, q % p;
    assert q == p * a + b;
    assert 256 * q == 256 * (p * a) + 256 * b;
    assert (256 * p) * a == 256 * (p * a);
    QuotientIs(n, 256 * p, a, 256 * b + r);
  }

  /** Byte `i` is the digit of weight 256^(width - 1 - i). */
  lemma {:induction false} BigEndianDigit(n: nat, width: nat, i: nat)
    requires i < width
    ensures BigEndian(n, width)[i] == (n / Pow256(width - 1 - i)) % 256
  {
    if i < width - 1 {
      BigEndianDigit(n / 256, width - 1, i);
      DivideTwice(n, Pow256(width - 2 - i));
    }
  }

  lemma OneByte(n: U8)
    ensures BigEndian(n, 1) == [n]
  {
  }

  function Zeros(n: nat): (r: seq<U8>)
    ensures |r| == n && forall i | 0 <= i < n :: r[i] == 0
  {
    seq(n, _ => 0)
  }

  function Sum(ws: seq<nat>): nat {
    if ws == [] then 0 else ws[0] + Sum(ws[1..])
  }

  /** Whether every value fits its field. */
  ghost predicate Fit(vs: seq<nat>, ws: seq<nat>) {
    |vs| == |ws| && forall i | 0 <= i < |vs| :: vs[i] < Pow256(ws[i])
  }

  /** Consecutive big-endian fields of the given widths. */
  function EncodeFields(vs: seq<nat>, ws: seq<nat>): (r: seq<U8>)
    requires |vs| == |ws|
    ensures |r| == Sum(ws)
  {
    if ws == [] then [] else BigEndian(vs[0], ws[0]) + EncodeFields(vs[1..], ws[1..])
  }

  lemma FieldsCons(v: nat, w: nat, vs: seq<nat>, ws: seq<nat>)
    requires |vs| == |ws|
    ensures EncodeFields([v] + vs, [w] + ws) == BigEndian(v, w) + EncodeFields(vs, ws)
  {
    assert ([v] + vs)[1..] == vs && ([w] + ws)[1..] == ws;
  }

  lemma NoFields()
    ensures EncodeFields([], []) == []
  {
  }

  function DecodeFields(b: seq<U8>, ws: seq<nat>): (vs: seq<nat>)
    requires |b| == Sum(ws)
    ensures Fit(vs, ws)
    decreases |ws|
  {
    if ws == [] then []
    else
      BigEndianEncodes(b[..ws[0]]);
      [FromBigEndian(b[..ws[0]])] + DecodeFields(b[ws[0]..], ws[1..])
  }

  lemma {:induction false} FieldsDecode(vs: seq<nat>, ws: seq<nat>)
    requires Fit(vs, ws)
    ensures DecodeFields(EncodeFields(vs, ws), ws) == vs
    decreases |ws|
  {
    if ws != [] {
      var first, rest := BigEndian(vs[0], ws[0]), EncodeFields(vs[1..], ws[1..]);
      BigEndianDecodes(vs[0], ws[0]);
      FieldsDecode(vs[1..], ws[1..]);
      assert (first + rest)[..ws[0]] == first && (first + rest)[ws[0]..] == rest;
    }
  }

  lemma {:induction false} FieldsEncode(b: seq<U8>, ws: seq<nat>)
    requires |b| == Sum(ws)
    ensures EncodeFields(DecodeFields(b, ws), ws) == b
    decreases |ws|
  {
    if ws != [] {
      BigEndianEncodes(b[..ws[0]]);
      FieldsEncode(b[ws[0]..], ws[1..]);
      var vs := DecodeFields(b, ws);
      assert vs[1..] == DecodeFields(b[ws[0]..], ws[1..]);
      assert b == b[..ws[0]] + b[ws[0]..];
    }
  }

  // ---------------------------------------------------------------- bits of an unsigned integer

  function Pow2(n: nat): (r: nat)
    ensures r > 0
  {
    if n == 0 then 1 else 2 * Pow2(n - 1)
  }

  /** Whether `n & (1 << p)` is non-zero. */
  predicate Bit(n: nat, p: nat) {
    if p == 0 then n % 2 == 1 else Bit(n / 2, p - 1)
  }

  /** `n | (1 << p)` */
  function WithBit(n: nat, p: nat): nat {
    if p == 0 then n - n % 2 + 1 else 2 * WithBit(n / 2, p - 1) + n % 2
  }

  /** `n & !(1 << p)` */
  function WithoutBit(n: nat, p: nat): nat {
    if p == 0 then n - n % 2 else 2 * WithoutBit(n / 2, p - 1) + n % 2
  }

  lemma HalfOf(h: nat, b: nat)
    requires b < 2
    ensures (2 * h + b) / 2 == h && (2 * h + b) % 2 == b
  {
  }

  lemma {:induction false} WithBitBits(n: nat, p: nat, q: nat)
    ensures Bit(WithBit(n, p), q) <==> p == q || Bit(n, q)
  {
    if p > 0 {
      HalfOf(WithBit(n / 2, p - 1), n % 2);
      if q > 0 {
        WithBitBits(n / 2, p - 1, q - 1);
      }
    } else {
      HalfOf(n / 2, 1);
    }
  }

  lemma {:induction false} WithoutBitBits(n: nat, p: nat, q: nat)
    ensures Bit(WithoutBit(n, p), q) <==> p != q && Bit(n, q)
  {
    if p > 0 {
      HalfOf(WithoutBit(n / 2, p - 1), n % 2);
      if q > 0 {
        WithoutBitBits(n / 2, p - 1, q - 1);
      }
    } else {
      HalfOf(n / 2, 0);
    }
  }

  lemma {:induction false} BitUpdateFits(n: nat, p: nat, width: nat)
    requires n < Pow2(width) && p < width
    ensures WithBit(n, p) < Pow2(width) && WithoutBit(n, p) < Pow2(width)
  {
    if p > 0 {
      BitUpdateFits(n / 2, p - 1, width - 1);
    }
  }

  lemma {:induction false} ZeroBit(p: nat)
    ensures !Bit(0, p)
  {
    if p > 0 {
      ZeroBit(p - 1);
    }
  }

  /** A number is determined by its low bits. */
  lemma {:induction false} BitsDetermine(x: nat, y: nat, k: nat)
    requires x < Pow2(k) && y < Pow2(k) && forall p: nat | p < k :: Bit(x, p) == Bit(y, p)
    ensures x == y
  {
    if k > 0 {
      assert Bit(x, 0) == Bit(y, 0);
      forall p: nat | p < k - 1 ensures Bit(x / 2, p) == Bit(y / 2, p) {
        assert Bit(x, p + 1) == Bit(y, p + 1);
      }
      BitsDetermine(x / 2, y / 2, k - 1);
    }
  }

  lemma Pow2Byte()
    ensures Pow2(8) == 0x100
  {
    assert Pow2(4) == 16;
    assert Pow2(6) == 64;
  }

  /** Copies `bytes` over `out[at..]`, leaving the rest of the buffer alone. */
  method CopyInto(out: array<U8>, at: nat, bytes: seq<U8>)
    requires at + |bytes| <= out.Length
    modifies out
    ensures out[..] == old(out[..at]) + bytes + old(out[at + |bytes|..])
    ensures forall i | 0 <= i < out.Length && !(at <= i < at + |bytes|) :: out[i] == old(out[i])
  {
    forall i | 0 <= i < |bytes| {
      out[at + i] := bytes[i];
    }
  }
}
