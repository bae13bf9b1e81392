/** The `#PKT# <src> <wire>` text line a dongle prints for its host, and the host's parser for it.
    A character stands for one byte of the serial line. */
module PktLine {
  import opened Bytes
  import opened Wire

  const PREFIX := "#PKT# "
  const HEX_DIGITS := "0123456789ABCDEF"

  datatype ReceivedWirePacket = ReceivedWirePacket(srcNodeId: U32, packet: MeshPacket)

  // ---------------------------------------------------------------- printer

  function HexDigits(b: U8): (r: string)
    ensures |r| == 2
  {
    [HEX_DIGITS[b / 16], HEX_DIGITS[b % 16]]
  }

  function Hex(bytes: seq<U8>): (r: string)
    ensures |r| == 2 * |bytes|
  {
    if |bytes| == 0 then "" else Hex(bytes[..|bytes| - 1]) + HexDigits(bytes[|bytes| - 1])
  }

  function PrintPktLine(src: U32, p: MeshPacket): string {
    PREFIX + Hex(BigEndian(src, 4)) + " " + Hex(EncodePacket(p))
  }

  method HexBuffer(wire: array<U8>) returns (hex: array<char>)
    ensures fresh(hex) && hex[..] == Hex(wire[..])
  {
    hex := new char[2 * wire.Length];
    for i := 0 to wire.Length
      invariant hex[..2 * i] == Hex(wire[..i])
    {
      hex[2 * i] := HEX_DIGITS[wire[i] / 16];
      hex[2 * i + 1] := HEX_DIGITS[wire[i] % 16];
      assert wire[..i + 1][..i] == wire[..i];
      assert hex[..2 * (i + 1)] == hex[..2 * i] + HexDigits(wire[i]);
    }
    assert wire[..wire.Length] == wire[..];
    assert hex[..2 * wire.Length] == hex[..];
  }

  /** The line that forwards a packet to the host. */
  method FormatPktLine(src: U32, p: MeshPacket) returns (line: string)
    ensures line == PrintPktLine(src, p)
  {
    var wire := new U8[WIRE_LEN];
    SerializePayload(p, wire);
    var hex := HexBuffer(wire);
    line := PREFIX + Hex(BigEndian(src, 4)) + " " + hex[..];
  }

  // ---------------------------------------------------------------- parser

  predicate IsSpace(c: char) {
    c == ' ' || '\t' <= c <= '\r'
  }

  function TokenLength(s: string): (n: nat)
    ensures n <= |s|
  {
    if s == "" || IsSpace(s[0]) then 0 else 1 + TokenLength(s[1..])
  }

  function SplitWhitespace(s: string): seq<string>
    decreases |s|
  {
    if s == "" then []
    else if IsSpace(s[0]) then SplitWhitespace(s[1..])
    else
      var n := TokenLength(s);
      [s[..n]] + SplitWhitespace(s[n..])
  }

  /** Value of a hexadecimal digit of either case. */
  function DigitValue(c: char): Option<nat> {
    if '0' <= c <= '9' then Some(c as int - '0' as int)
    else if 'A' <= c <= 'F' then Some(c as int - 'A' as int + 10)
    else if 'a' <= c <= 'f' then Some(c as int - 'a' as int + 10)
    else None
  }

  function DigitsValue(s: string): Option<nat> {
    if s == "" then Some(0)
    else match (DigitsValue(s[..|s| - 1]), DigitValue(s[|s| - 1]))
      case (Some(hi), Some(lo)) => Some(16 * hi + lo)
      case _ => None
  }

  /** Radix-16 `from_str_radix` for an unsigned type with `max` as its largest value: one leading plus sign is
      accepted, an empty digit string is not. */
  function FromStrRadix16(s: string, max: nat): (r: Option<nat>)
    ensures r.Some? ==> r.value <= max
  {
    var digits := if |s| > 1 && s[0] == '+' then s[1..] else s;
    if digits == "" then None
    else match DigitsValue(digits)
      case Some(n) => if n <= max then Some(n) else None
      case None => None
  }

  function ParseHexBytes(s: string): Option<seq<U8>>
    requires |s| % 2 == 0
    ensures ParseHexBytes(s).Some? ==> |ParseHexBytes(s).value| == |s| / 2
  {
    if s == "" then Some([])
    else match (ParseHexBytes(s[..|s| - 2]), FromStrRadix16(s[|s| - 2..], 255))
      case (Some(init), Some(b)) => Some(init + [b])
      case _ => None
  }

  function ParsePktLineSpec(line: string): Option<ReceivedWirePacket> {
    if !(PREFIX <= line) then None
    else
      var parts := SplitWhitespace(line[|PREFIX|..]);
      if |parts| != 2 || |parts[0]| != 8 || |parts[1]| != 2 * WIRE_LEN then None
      else match (FromStrRadix16(parts[0], U32_MAX), ParseHexBytes(parts[1]))
        case (Some(src), Some(wire)) => Some(ReceivedWirePacket(src, DecodePacket(wire)))
        case _ => None
  }

  // ---------------------------------------------------------------- round trip

  lemma HexDigitValue(n: nat)
    requires n < 16
    ensures DigitValue(HEX_DIGITS[n]) == Some(n)
    ensures !IsSpace(HEX_DIGITS[n]) && HEX_DIGITS[n] != '+'
  {
  }

  lemma DigitsValueTwoMore(s: string, hi: char, lo: char)
    requires DigitsValue(s).Some? && DigitValue(hi).Some? && DigitValue(lo).Some?
    ensures DigitsValue(s + [hi, lo])
         == Some(256 * DigitsValue(s).value + 16 * DigitValue(hi).value + DigitValue(lo).value)
  {
    assert (s + [hi, lo])[..|s| + 1] == s + [hi];
    assert (s + [hi])[..|s|] == s;
  }

  lemma HexDigitsValue(b: U8)
    ensures var d := HexDigits(b);
            && DigitValue(d[0]).Some? && DigitValue(d[1]).Some?
            && 16 * DigitValue(d[0]).value + DigitValue(d[1]).value == b
            && !IsSpace(d[0]) && !IsSpace(d[1]) && d[0] != '+' && d[1] != '+'
  {
    HexDigitValue(b / 16);
    HexDigitValue(b % 16);
  }

  lemma {:induction false} HexValue(bytes: seq<U8>)
    ensures DigitsValue(Hex(bytes)) == Some(FromBigEndian(bytes))
    ensures forall c <- Hex(bytes) :: !IsSpace(c) && c != '+'
  {
    hide HexDigits;
    hide DigitValue;
    if bytes != [] {
      var n := |bytes| - 1;
      HexValue(bytes[..n]);
      HexDigitsValue(bytes[n]);
      var d := HexDigits(bytes[n]);
      DigitsValueTwoMore(Hex(bytes[..n]), d[0], d[1]);
      assert d == [d[0], d[1]];
    }
  }

  lemma HexFromStr(bytes: seq<U8>, max: nat)
    requires bytes != [] && FromBigEndian(bytes) <= max
    ensures FromStrRadix16(Hex(bytes), max) == Some(FromBigEndian(bytes))
  {
    HexValue(bytes);
    assert Hex(bytes)[0] in Hex(bytes);
  }

  lemma ParseHexBytesSnoc(s: string, digits: string)
    requires |s| % 2 == 0 && |digits| == 2
    ensures ParseHexBytes(s + digits)
         == match (ParseHexBytes(s), FromStrRadix16(digits, 255))
            case (Some(init), Some(b)) => Some(init + [b])
            case _ => None
  {
    assert (s + digits)[..|s|] == s && (s + digits)[|s|..] == digits;
  }

  lemma HexByteParses(b: U8)
    ensures FromStrRadix16(HexDigits(b), 255) == Some(b)
  {
    assert Hex([]) == "" && [b][..0] == [];
    assert Hex([b]) == HexDigits(b);
    assert FromBigEndian([b]) == b;
    HexFromStr([b], 255);
  }

  lemma HexBytesParseSnoc(hex: string, bytes: seq<U8>, b: U8)
    requires |hex| % 2 == 0 && ParseHexBytes(hex) == Some(bytes)
    ensures ParseHexBytes(hex + HexDigits(b)) == Some(bytes + [b])
  {
    hide HexDigits;
    hide FromStrRadix16;
    HexByteParses(b);
    ParseHexBytesSnoc(hex, HexDigits(b));
  }

  lemma HexEmpty()
    ensures Hex([]) == "" && ParseHexBytes("") == Some([])
  {
  }

  lemma {:induction false} HexBytesParse(bytes: seq<U8>)
    ensures ParseHexBytes(Hex(bytes)) == Some(bytes)
  {
    hide ParseHexBytes;
    hide HexDigits;
    if bytes == [] {
      HexEmpty();
    } else {
      var n := |bytes| - 1;
      HexBytesParse(bytes[..n]);
      HexBytesParseSnoc(Hex(bytes[..n]), bytes[..n], bytes[n]);
      assert bytes == bytes[..n] + [bytes[n]];
    }
  }

  lemma {:induction false} TokenEnds(token: string, rest: string)
    requires forall c <- token :: !IsSpace(c)
    requires rest == "" || IsSpace(rest[0])
    ensures TokenLength(token + rest) == |token|
  {
    if token == "" {
      assert token + rest == rest;
    } else {
      assert (token + rest)[1..] == token[1..] + rest;
      TokenEnds(token[1..], rest);
    }
  }

  lemma SplitTwo(a: string, b: string)
    requires a != "" && b != ""
    requires (forall c <- a :: !IsSpace(c)) && (forall c <- b :: !IsSpace(c))
    ensures SplitWhitespace(a + " " + b) == [a, b]
  {
    var s := a + " " + b;
    assert s == a + (" " + b);
    TokenEnds(a, " " + b);
    assert s[..|a|] == a && s[|a|..] == " " + b;
    TokenEnds(b, "");
    assert b + "" == b && b[|b|..] == "" && b[..|b|] == b;
    assert SplitWhitespace(b) == [b];
    assert (" " + b)[1..] == b;
    assert SplitWhitespace(" " + b) == [b];
  }

  lemma Regroup(a: string, b: string, c: string, d: string)
    ensures a <= a + b + c + d && (a + b + c + d)[|a|..] == b + c + d
  {
  }

  lemma LineParts(src: U32, p: MeshPacket)
    ensures var line := PrintPktLine(src, p);
      PREFIX <= line && SplitWhitespace(line[|PREFIX|..]) == [Hex(BigEndian(src, 4)), Hex(EncodePacket(p))]
  {
    var id, wire := BigEndian(src, 4), EncodePacket(p);
    HexValue(id);
    HexValue(wire);
    SplitTwo(Hex(id), Hex(wire));
    hide Hex;
    hide BigEndian;
    hide EncodePacket;
    hide SplitWhitespace;
    hide IsSpace;
    Regroup(PREFIX, Hex(id), " ", Hex(wire));
  }

  /** The host reads back from the dongle's line exactly the source identifier and packet that were printed. */
  lemma PktLineParses(src: U32, p: MeshPacket)
    ensures ParsePktLineSpec(PrintPktLine(src, p)) == Some(ReceivedWirePacket(src, p))
  {
    var id, wire := BigEndian(src, 4), EncodePacket(p);
    LineParts(src, p);
    Pow256Values();
    BigEndianDecodes(src, 4);
    HexFromStr(id, U32_MAX);
    HexBytesParse(wire);
    PacketDecodes(p);
    hide Hex;
    hide BigEndian;
    hide FromBigEndian;
    hide EncodePacket;
    hide DecodePacket;
    hide FromStrRadix16;
    hide ParseHexBytes;
    hide SplitWhitespace;
    hide PrintPktLine;
  }

  // ---------------------------------------------------------------- which lines are accepted

  function UpperChar(c: char): char {
    if 'a' <= c <= 'z' then (c as int - 32) as char else c
  }

  function Upper(s: string): (r: string)
    ensures |r| == |s| && forall i | 0 <= i < |s| :: r[i] == UpperChar(s[i])
  {
    seq(|s|, i requires 0 <= i < |s| => UpperChar(s[i]))
  }

  /** How a number is printed: in upper case, with a zero where the parser takes a plus sign. */
  function Canonical(s: string): string {
    Upper(if |s| > 1 && s[0] == '+' then "0" + s[1..] else s)
  }

  /** The same for the two digits of each byte. */
  function CanonicalPairs(s: string): string
    requires |s| % 2 == 0
  {
    if s == "" then "" else CanonicalPairs(s[..|s| - 2]) + Canonical(s[|s| - 2..])
  }

  lemma DigitAcceptance(c: char, v: nat)
    requires v < 16
    ensures DigitValue(c) == Some(v) <==> UpperChar(c) == HEX_DIGITS[v]
    ensures DigitValue(c).Some? ==> DigitValue(c).value < 16
  {
  }

  lemma TwoDigits(a: char, b: char, v: U8)
    ensures DigitValue(a) == Some(v / 16) && DigitValue(b) == Some(v % 16)
       <==> [UpperChar(a), UpperChar(b)] == HexDigits(v)
  {
    DigitAcceptance(a, v / 16);
    DigitAcceptance(b, v % 16);
    hide DigitValue;
    hide UpperChar;
  }

  lemma DigitsSnoc(s: string, a: char, b: char)
    ensures DigitsValue(s + [a, b])
         == match (DigitsValue(s), DigitValue(a), DigitValue(b))
            case (Some(n), Some(x), Some(y)) => Some(16 * (16 * n + x) + y)
            case _ => None
  {
    assert (s + [a, b])[..|s| + 1] == s + [a];
    assert (s + [a])[..|s|] == s;
    hide DigitValue;
  }

  lemma UpperSnoc(s: string, a: char, b: char)
    ensures Upper(s + [a, b]) == Upper(s) + [UpperChar(a), UpperChar(b)]
  {
    hide UpperChar;
  }

  lemma HexSnoc(n: nat, k: nat)
    requires k > 0
    ensures Hex(BigEndian(n, k)) == Hex(BigEndian(n / 256, k - 1)) + HexDigits(n % 256)
  {
    hide HexDigits;
    assert BigEndian(n, k)[..k - 1] == BigEndian(n / 256, k - 1);
  }

  lemma SameTail(s: string, t: string, d: string, e: string)
    requires |d| == |e|
    ensures s + d == t + e <==> s == t && d == e
  {
    if s + d == t + e {
      assert (s + d)[..|s|] == (t + e)[..|t|] && (s + d)[|s|..] == (t + e)[|t|..];
    }
  }

  lemma DigitPairValue(h: nat, x: nat, y: nat, n: nat)
    requires x < 16 && y < 16
    ensures 16 * (16 * h + x) + y == n <==> h == n / 256 && x == n % 256 / 16 && y == n % 256 % 16
  {
  }

  lemma DigitBounds(c: char)
    ensures DigitValue(c).Some? ==> DigitValue(c).value < 16
  {
  }

  lemma DigitsSplit(t: string, a: char, b: char, n: nat)
    ensures DigitsValue(t + [a, b]) == Some(n) <==>
      && DigitsValue(t) == Some(n / 256)
      && DigitValue(a) == Some(n % 256 / 16) && DigitValue(b) == Some(n % 256 % 16)
  {
    DigitsSnoc(t, a, b);
    DigitBounds(a);
    DigitBounds(b);
    hide DigitsValue;
    hide DigitValue;
    if DigitsValue(t).Some? && DigitValue(a).Some? && DigitValue(b).Some? {
      DigitPairValue(DigitsValue(t).value, DigitValue(a).value, DigitValue(b).value, n);
    }
  }

  lemma SpellsSplit(t: string, a: char, b: char, n: nat, k: nat)
    requires k > 0
    ensures Upper(t + [a, b]) == Hex(BigEndian(n, k)) <==>
      Upper(t) == Hex(BigEndian(n / 256, k - 1)) && [UpperChar(a), UpperChar(b)] == HexDigits(n % 256)
  {
    UpperSnoc(t, a, b);
    HexSnoc(n, k);
    hide *;
    SameTail(Upper(t), Hex(BigEndian(n / 256, k - 1)), [UpperChar(a), UpperChar(b)], HexDigits(n % 256));
  }

  lemma PowerStep(n: nat, k: nat)
    requires k > 0
    ensures n < Pow256(k) <==> n / 256 < Pow256(k - 1)
  {
  }

  lemma NoDigits(n: nat)
    ensures DigitsValue("") == Some(n) <==> n < Pow256(0) && Upper("") == Hex(BigEndian(n, 0))
  {
  }

  /** A digit string has value `n` exactly if it spells `n` in as many digits. */
  lemma {:induction false} DigitsAcceptance(s: string, k: nat, n: nat)
    requires |s| == 2 * k
    ensures DigitsValue(s) == Some(n) <==> n < Pow256(k) && Upper(s) == Hex(BigEndian(n, k))
  {
    hide *;
    if k == 0 {
      assert s == "";
      NoDigits(n);
    } else {
      var t, a, b := s[..2 * k - 2], s[2 * k - 2], s[2 * k - 1];
      assert s == t + [a, b];
      DigitsAcceptance(t, k - 1, n / 256);
      DigitsSplit(t, a, b, n);
      SpellsSplit(t, a, b, n, k);
      TwoDigits(a, b, n % 256);
      PowerStep(n, k);
    }
  }

  lemma {:induction false} LeadingZero(s: string)
    ensures DigitsValue("0" + s) == DigitsValue(s)
  {
    if s == "" {
      assert "0" + s == "0" && "0"[..0] == "";
    } else {
      var n := |s| - 1;
      LeadingZero(s[..n]);
      assert ("0" + s)[..n + 1] == "0" + s[..n];
    }
  }

  /** A number of `k` bytes is parsed exactly if its canonical form is the printed one. */
  lemma NumberAcceptance(s: string, k: nat, max: nat, n: nat)
    requires |s| == 2 * k && k > 0 && Pow256(k) == max + 1
    ensures FromStrRadix16(s, max) == Some(n) <==> n <= max && Canonical(s) == Hex(BigEndian(n, k))
  {
    var digits := if s[0] == '+' then "0" + s[1..] else s;
    LeadingZero(s[1..]);
    DigitsAcceptance(digits, k, n);
    hide Hex;
    hide BigEndian;
    hide DigitsValue;
    hide Upper;
  }

  lemma ByteAcceptance(s: string, b: U8)
    requires |s| == 2
    ensures FromStrRadix16(s, 255) == Some(b) <==> Canonical(s) == HexDigits(b)
  {
    Pow256Values();
    NumberAcceptance(s, 1, 255, b);
    OneByte(b);
    assert [b][..0] == [] && Hex([b]) == HexDigits(b);
    hide Canonical;
    hide FromStrRadix16;
    hide HexDigits;
  }

  lemma CanonicalLength(s: string)
    ensures |Canonical(s)| == |s|
  {
  }

  lemma {:induction false} BytesAcceptance(s: string, bytes: seq<U8>)
    requires |s| == 2 * |bytes|
    ensures ParseHexBytes(s) == Some(bytes) <==> CanonicalPairs(s) == Hex(bytes)
  {
    hide FromStrRadix16;
    hide Canonical;
    hide HexDigits;
    if bytes != [] {
      var n := |bytes| - 1;
      var t, d := s[..|s| - 2], s[|s| - 2..];
      BytesAcceptance(t, bytes[..n]);
      ByteAcceptance(d, bytes[n]);
      CanonicalLength(d);
      SameTail(CanonicalPairs(t), Hex(bytes[..n]), Canonical(d), HexDigits(bytes[n]));
      assert bytes == bytes[..n] + [bytes[n]];
    }
  }

  /** Exactly which lines the host accepts as packet `p` from `src`: those that start with the prefix and whose two
      tokens, in canonical form, are those of the printed line. */
  lemma LineAcceptance(line: string, src: U32, p: MeshPacket)
    ensures ParsePktLineSpec(line) == Some(ReceivedWirePacket(src, p)) <==>
      && PREFIX <= line
      && var tokens := SplitWhitespace(line[|PREFIX|..]);
         && |tokens| == 2 && |tokens[0]| == 8 && |tokens[1]| == 2 * WIRE_LEN
         && Canonical(tokens[0]) == Hex(BigEndian(src, 4)) && CanonicalPairs(tokens[1]) == Hex(EncodePacket(p))
  {
    Pow256Values();
    PacketDecodes(p);
    hide DecodePacket;
    hide EncodePacket;
    hide SplitWhitespace;
    hide FromStrRadix16;
    hide ParseHexBytes;
    hide Canonical;
    hide CanonicalPairs;
    hide Hex;
    hide BigEndian;
    if PREFIX <= line {
      var tokens := SplitWhitespace(line[|PREFIX|..]);
      if |tokens| == 2 && |tokens[0]| == 8 && |tokens[1]| == 2 * WIRE_LEN {
        NumberAcceptance(tokens[0], 4, U32_MAX, src);
        BytesAcceptance(tokens[1], EncodePacket(p));
        var wire := ParseHexBytes(tokens[1]);
        if wire.Some? {
          PacketEncodes(wire.value);
        }
      }
    }
  }

  lemma {:induction false} ParseHexFails(s: string, i: nat)
    requires |s| % 2 == 0 && 2 * i + 2 <= |s|
    requires ParseHexBytes(s[..2 * i + 2]).None?
    ensures ParseHexBytes(s).None?
    decreases |s|
  {
    hide FromStrRadix16;
    if 2 * i + 2 < |s| {
      assert s[..|s| - 2][..2 * i + 2] == s[..2 * i + 2];
      ParseHexFails(s[..|s| - 2], i);
    } else {
      assert s[..2 * i + 2] == s;
    }
  }

  /** The fill loop of the line parser. */
  method FillWireBytes(hex: string) returns (r: Option<WireBytes>)
    requires |hex| == 2 * WIRE_LEN
    ensures r == ParseHexBytes(hex)
  {
    hide FromStrRadix16;
    var wire := new U8[WIRE_LEN];
    for i := 0 to WIRE_LEN
      invariant ParseHexBytes(hex[..2 * i]) == Some(wire[..i])
    {
      var b := FromStrRadix16(hex[2 * i..2 * i + 2], 255);
      ParseHexBytesSnoc(hex[..2 * i], hex[2 * i..2 * i + 2]);
      assert hex[..2 * i] + hex[2 * i..2 * i + 2] == hex[..2 * i + 2];
      if b.None? {
        ParseHexFails(hex, i);
        return None;
      }
      wire[i] := b.value;
      assert wire[..i + 1] == wire[..i] + [b.value];
    }
    assert hex[..2 * WIRE_LEN] == hex && wire[..WIRE_LEN] == wire[..];
    r := Some(wire[..]);
  }

  method ParsePktLine(line: string) returns (r: Option<ReceivedWirePacket>)
    ensures r == ParsePktLineSpec(line)
  {
    if !(PREFIX <= line) {
      return None;
    }
    var parts := SplitWhitespace(line[|PREFIX|..]);
    if |parts| != 2 || |parts[0]| != 8 || |parts[1]| != 2 * WIRE_LEN {
      return None;
    }
    var src := FromStrRadix16(parts[0], U32_MAX);
    if src.None? {
      return None;
    }
    var wire := FillWireBytes(parts[1]);
    r := if wire.None? then None else Some(ReceivedWirePacket(src.value, DecodePacket(wire.value)));
  }
}
