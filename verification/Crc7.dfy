/** CRC-7 of SD commands (section 4.5 of the SD Physical Layer Simplified Specification): the shift-register loop
    against polynomial division over GF(2). A polynomial is the finite set of its exponents with coefficient 1. */
module Crc7 {

  type Poly = set<nat>

  function Add(a: Poly, b: Poly): Poly {
    (a - b) + (b - a)
  }

  /** x^k * a */
  function Shift(a: Poly, k: nat): (r: Poly)
    ensures forall e :: e in r <==> e >= k && e - k in a
  {
    set e <- a :: e + k
  }

  /** The product of `q` with the generator x^7 + x^3 + 1. */
  function TimesGenerator(q: Poly): Poly {
    Add(Add(Shift(q, 7), Shift(q, 3)), q)
  }

  /** The message polynomial: the first bit is the highest coefficient. */
  function MessagePoly(bits: seq<bool>): (r: Poly)
    ensures forall e: nat :: e in r <==> e < |bits| && bits[|bits| - 1 - e]
  {
    var r := set i | 0 <= i < |bits| && bits[i] :: |bits| - 1 - i;
    forall e: nat | e < |bits| && bits[|bits| - 1 - e] ensures e in r {
      assert |bits| - 1 - (|bits| - 1 - e) == e;
    }
    r
  }

  // ---------------------------------------------------------------- the code's register

  function BitsOf(b: bv8): (r: seq<bool>)
    ensures |r| == 8
  {
    [b & 0x80 != 0, b & 0x40 != 0, b & 0x20 != 0, b & 0x10 != 0,
     b & 0x08 != 0, b & 0x04 != 0, b & 0x02 != 0, b & 0x01 != 0]
  }

  /** The bits of a command in transmission order. */
  function Bits(data: seq<bv8>): (r: seq<bool>)
    ensures |r| == 8 * |data|
  {
    if |data| == 0 then [] else Bits(data[..|data| - 1]) + BitsOf(data[|data| - 1])
  }

  /** One turn of the inner loop. */
  function StepRegister(crc: bv8, bit: bool): bv8 {
    var shifted := crc << 1;
    if (crc & 0x80 != 0) != bit then shifted ^ 0x12 else shifted
  }

  function Register(bits: seq<bool>): bv8 {
    if |bits| == 0 then 0 else StepRegister(Register(bits[..|bits| - 1]), bits[|bits| - 1])
  }

  /** The polynomial with the given coefficients, lowest first. */
  function Terms(coefficients: seq<bool>): (r: Poly)
    ensures forall e: nat :: e in r <==> e < |coefficients| && coefficients[e]
  {
    set e: nat | e < |coefficients| && coefficients[e]
  }

  /** The remainder held in the upper seven bits of the register. */
  function Remainder(crc: bv8): Poly {
    Terms([crc & 0x02 != 0, crc & 0x04 != 0, crc & 0x08 != 0, crc & 0x10 != 0,
           crc & 0x20 != 0, crc & 0x40 != 0, crc & 0x80 != 0])
  }

  lemma LoopTurn(crc: bv8, b: bv8, i: nat)
    requires i < 8
    ensures StepRegister(crc, BitsOf(b)[7 - i])
         == if ((crc >> 7) & 1) ^ ((b >> i) & 1) != 0 then (crc << 1) ^ 0x12 else crc << 1
  {
  }

  lemma RegisterSnoc(bits: seq<bool>, bit: bool)
    ensures Register(bits + [bit]) == StepRegister(Register(bits), bit)
  {
    assert (bits + [bit])[..|bits|] == bits;
  }

  /** The inner loop. */
  method FeedByte(before: bv8, b: bv8, ghost bits: seq<bool>) returns (crc: bv8)
    requires before == Register(bits)
    ensures crc == Register(bits + BitsOf(b))
  {
    hide StepRegister;
    hide BitsOf;
    hide Register;
    crc := before;
    var i := 8;
    assert bits + BitsOf(b)[..0] == bits;
    while i > 0
      invariant 0 <= i <= 8
      invariant crc == Register(bits + BitsOf(b)[..8 - i])
    {
      i := i - 1;
      LoopTurn(crc, b, i);
      RegisterSnoc(bits + BitsOf(b)[..7 - i], BitsOf(b)[7 - i]);
      assert bits + BitsOf(b)[..7 - i] + [BitsOf(b)[7 - i]] == bits + BitsOf(b)[..8 - i];
      var bit := (b >> i) & 1;
      var carry := (crc >> 7) & 1;
      crc := crc << 1;
      if carry ^ bit != 0 {
        crc := crc ^ 0x12;
      }
    }
    assert BitsOf(b)[..8] == BitsOf(b);
  }

  lemma RegisterEmpty()
    ensures Register([]) == 0
  {
  }

  method Crc7(data: seq<bv8>) returns (r: bv8)
    ensures r == Register(Bits(data)) | 1
  {
    hide StepRegister;
    hide BitsOf;
    hide Register;
    assert Register([]) == 0 by { RegisterEmpty(); }
    var crc: bv8 := 0;
    for n := 0 to |data|
      invariant crc == Register(Bits(data[..n]))
    {
      crc := FeedByte(crc, data[n], Bits(data[..n]));
      assert data[..n + 1][..n] == data[..n];
    }
    assert data[..|data|] == data;
    r := crc | 1;
  }

  // ---------------------------------------------------------------- division

  /** `q` and `r` are quotient and remainder of dividing x^7 * M by the generator. */
  ghost predicate Divides(bits: seq<bool>, q: Poly, r: Poly) {
    && (forall e <- r :: e < 7)
    && Shift(MessagePoly(bits), 7) == Add(TimesGenerator(q), r)
  }

  /** The remainder polynomial after one more bit. */
  function StepPoly(r: Poly, bit: bool): Poly {
    if (6 in r) != bit then Add(Shift(r, 1) - {7}, {0, 3}) else Shift(r, 1) - {7}
  }

  lemma RegisterBits(crc: bv8)
    ensures forall k :: k in Remainder(crc) ==> k < 7
    ensures 0 in Remainder(crc) <==> crc & 0x02 != 0
    ensures 1 in Remainder(crc) <==> crc & 0x04 != 0
    ensures 2 in Remainder(crc) <==> crc & 0x08 != 0
    ensures 3 in Remainder(crc) <==> crc & 0x10 != 0
    ensures 4 in Remainder(crc) <==> crc & 0x20 != 0
    ensures 5 in Remainder(crc) <==> crc & 0x40 != 0
    ensures 6 in Remainder(crc) <==> crc & 0x80 != 0
  {
    hide Terms;
  }

  lemma StepBits(crc: bv8, bit: bool)
    ensures var c := StepRegister(crc, bit);
            var f := (crc & 0x80 != 0) != bit;
            && (c & 0x02 != 0 <==> (crc & 0x01 != 0) != f)
            && (c & 0x04 != 0 <==> crc & 0x02 != 0) && (c & 0x08 != 0 <==> crc & 0x04 != 0)
            && (c & 0x10 != 0 <==> (crc & 0x08 != 0) != f)
            && (c & 0x20 != 0 <==> crc & 0x10 != 0) && (c & 0x40 != 0 <==> crc & 0x20 != 0)
            && (c & 0x80 != 0 <==> crc & 0x40 != 0) && c & 0x01 == 0
  {
  }

  lemma StepRefines(crc: bv8, bit: bool)
    requires crc & 1 == 0
    ensures Remainder(StepRegister(crc, bit)) == StepPoly(Remainder(crc), bit)
  {
    hide Remainder;
    hide StepRegister;
    StepBits(crc, bit);
    var c := StepRegister(crc, bit);
    RegisterBits(crc);
    RegisterBits(c);
    var p, r := Remainder(c), StepPoly(Remainder(crc), bit);
    forall e: nat ensures e in p <==> e in r {
      if e == 0 || e == 1 || e == 2 || e == 3 || e == 4 || e == 5 || e == 6 {}
    }
  }

  lemma InAdd(a: Poly, b: Poly, e: nat)
    ensures e in Add(a, b) <==> (e in a) != (e in b)
  {
  }

  lemma InTimesGenerator(q: Poly, e: nat)
    ensures e in TimesGenerator(q) <==> (((e >= 7 && e - 7 in q) != (e >= 3 && e - 3 in q)) != (e in q))
  {
    hide Add;
    InAdd(Shift(q, 7), Shift(q, 3), e);
    InAdd(Add(Shift(q, 7), Shift(q, 3)), q, e);
  }

  lemma MessagePolySnoc(bits: seq<bool>, bit: bool, e: nat)
    ensures e in MessagePoly(bits + [bit]) <==> if e == 0 then bit else e - 1 in MessagePoly(bits)
  {
  }

  lemma InStepPoly(r: Poly, bit: bool, e: nat)
    requires forall e <- r :: e < 7
    ensures e in StepPoly(r, bit)
       <==> e < 7 && ((e > 0 && e - 1 in r) != ((6 in r) != bit && (e == 0 || e == 3)))
  {
  }

  lemma DivisionStepAt(bits: seq<bool>, bit: bool, q: Poly, r: Poly, q': Poly, e: nat)
    requires Divides(bits, q, r)
    requires q' == Shift(q, 1) + if (6 in r) != bit then {0} else {}
    ensures e in Shift(MessagePoly(bits + [bit]), 7) <==> e in Add(TimesGenerator(q'), StepPoly(r, bit))
  {
    hide TimesGenerator;
    hide StepPoly;
    InTimesGenerator(q', e);
    InStepPoly(r, bit, e);
    if e > 0 {
      InTimesGenerator(q, e - 1);
      assert e - 1 in Shift(MessagePoly(bits), 7) <==> (e - 1 in TimesGenerator(q)) != (e - 1 in r);
    }
    if e >= 7 {
      MessagePolySnoc(bits, bit, e - 7);
    }
  }

  lemma DivisionStep(bits: seq<bool>, bit: bool, q: Poly, r: Poly) returns (q': Poly)
    requires Divides(bits, q, r)
    ensures Divides(bits + [bit], q', StepPoly(r, bit))
  {
    q' := Shift(q, 1) + if (6 in r) != bit then {0} else {};
    var lhs, rhs := Shift(MessagePoly(bits + [bit]), 7), Add(TimesGenerator(q'), StepPoly(r, bit));
    forall e: nat ensures e in lhs <==> e in rhs {
      DivisionStepAt(bits, bit, q, r, q', e);
    }
    forall e <- StepPoly(r, bit) ensures e < 7 {
      InStepPoly(r, bit, e);
    }
  }

  /** The register always holds the remainder of x^7 * M by the generator, shifted left past a zero bit. */
  lemma {:induction false} RegisterDivides(bits: seq<bool>) returns (q: Poly)
    ensures Register(bits) & 1 == 0
    ensures Divides(bits, q, Remainder(Register(bits)))
  {
    if bits == [] {
      q := {};
    } else {
      var n := |bits| - 1;
      var q0 := RegisterDivides(bits[..n]);
      StepBits(Register(bits[..n]), bits[n]);
      StepRefines(Register(bits[..n]), bits[n]);
      hide Remainder;
      hide StepRegister;
      hide StepPoly;
      hide Divides;
      q := DivisionStep(bits[..n], bits[n], q0, Remainder(Register(bits[..n])));
      assert bits[..n] + [bits[n]] == bits;
    }
  }

  lemma {:induction false} Largest(s: Poly) returns (m: nat)
    requires s != {}
    ensures m in s && forall e <- s :: e <= m
    decreases |s|
  {
    m :| m in s;
    if s != {m} {
      var rest := s - {m};
      assert |rest| < |s|;
      var m' := Largest(rest);
      assert forall e <- s :: e == m || e in rest;
      m := if m' > m then m' else m;
    }
  }

  lemma {:induction false} Smallest(s: Poly) returns (m: nat)
    requires s != {}
    ensures m in s && forall e <- s :: m <= e
    decreases |s|
  {
    m :| m in s;
    if s != {m} {
      var rest := s - {m};
      assert |rest| < |s|;
      var m' := Smallest(rest);
      assert forall e <- s :: e == m || e in rest;
      m := if m' < m then m' else m;
    }
  }

  /** A non-zero multiple of the generator has exponents at least seven apart. */
  lemma MultipleSpan(q: Poly) returns (low: nat, high: nat)
    requires q != {}
    ensures low in TimesGenerator(q) && high in TimesGenerator(q) && high >= low + 7
  {
    hide *;
    low := Smallest(q);
    var top := Largest(q);
    high := top + 7;
    InTimesGenerator(q, low);
    InTimesGenerator(q, high);
  }

  /** The difference of two divisions. */
  lemma DivisionDifference(a: seq<bool>, b: seq<bool>, qa: Poly, ra: Poly, qb: Poly, rb: Poly)
    requires Divides(a, qa, ra) && Divides(b, qb, rb)
    ensures Shift(Add(MessagePoly(a), MessagePoly(b)), 7) == Add(TimesGenerator(Add(qa, qb)), Add(ra, rb))
  {
    var lhs := Shift(Add(MessagePoly(a), MessagePoly(b)), 7);
    var rhs := Add(TimesGenerator(Add(qa, qb)), Add(ra, rb));
    forall e: nat ensures e in lhs <==> e in rhs {
      InTimesGenerator(qa, e);
      InTimesGenerator(qb, e);
      InTimesGenerator(Add(qa, qb), e);
      assert e in Shift(MessagePoly(a), 7) <==> (e in TimesGenerator(qa)) != (e in ra);
      assert e in Shift(MessagePoly(b), 7) <==> (e in TimesGenerator(qb)) != (e in rb);
    }
  }

  lemma RemainderUnique(bits: seq<bool>, q1: Poly, r1: Poly, q2: Poly, r2: Poly)
    requires Divides(bits, q1, r1) && Divides(bits, q2, r2)
    ensures q1 == q2 && r1 == r2
  {
    DivisionDifference(bits, bits, q1, r1, q2, r2);
    var q, m := Add(q1, q2), MessagePoly(bits);
    assert Add(m, m) == {};
    if q != {} {
      var low, high := MultipleSpan(q);
      assert false;
    }
    assert TimesGenerator({}) == {};
    assert q1 == q2;
    forall e: nat ensures e in r1 <==> e in r2 {
      assert e !in Add(TimesGenerator({}), Add(r1, r2));
    }
  }

  lemma RemainderInjective(c: bv8, d: bv8)
    requires Remainder(c) == Remainder(d) && c & 1 == d & 1
    ensures c == d
  {
    RegisterBits(c);
    RegisterBits(d);
  }

  lemma StopBit(crc: bv8)
    ensures (crc | 1) & 1 == 1 && Remainder(crc | 1) == Remainder(crc)
  {
    RegisterBits(crc);
    RegisterBits(crc | 1);
  }

  /** A byte is the loop's result for `data` if and only if it has the stop bit set and its upper seven bits are the
      remainder of x^7 * M(x) divided by x^7 + x^3 + 1. */
  lemma Crc7IsRemainder(data: seq<bv8>, r: bv8)
    ensures r == Register(Bits(data)) | 1 <==> r & 1 == 1 && exists q :: Divides(Bits(data), q, Remainder(r))
  {
    var crc := Register(Bits(data));
    var q := RegisterDivides(Bits(data));
    StopBit(crc);
    if r & 1 == 1 && exists q' :: Divides(Bits(data), q', Remainder(r)) {
      var q' :| Divides(Bits(data), q', Remainder(r));
      RemainderUnique(Bits(data), q, Remainder(crc), q', Remainder(r));
      RemainderInjective(r, crc | 1);
    }
  }

  // ---------------------------------------------------------------- linearity and burst detection

  function XorBits(a: seq<bool>, b: seq<bool>): (r: seq<bool>)
    requires |a| == |b|
    ensures |r| == |a|
  {
    seq(|a|, i requires 0 <= i < |a| => a[i] != b[i])
  }

  function Xor(c: bv8, d: bv8): bv8 {
    c ^ d
  }

  function Double(c: bv8): bv8 {
    c << 1
  }

  predicate Top(c: bv8) {
    c & 0x80 != 0
  }

  function Feedback(f: bool): bv8 {
    if f then 0x12 else 0
  }

  lemma StepShape(crc: bv8, bit: bool)
    ensures StepRegister(crc, bit) == Xor(Double(crc), Feedback(Top(crc) != bit))
  {
  }

  lemma ShiftLinear(c: bv8, d: bv8)
    ensures Double(Xor(c, d)) == Xor(Double(c), Double(d))
    ensures Top(Xor(c, d)) <==> Top(c) != Top(d)
  {
  }

  lemma XorZero(a: bv8)
    ensures Xor(a, 0) == a
  {
  }

  lemma XorSwap(a: bv8, b: bv8, k: bv8)
    ensures Xor(Xor(a, b), k) == Xor(Xor(a, k), b)
  {
    assert (a ^ b) ^ k == (a ^ k) ^ b;
  }

  lemma XorAssociative(a: bv8, b: bv8, k: bv8)
    ensures Xor(Xor(a, b), k) == Xor(a, Xor(b, k))
  {
    assert (a ^ b) ^ k == a ^ (b ^ k);
  }

  lemma XorCancel(a: bv8, b: bv8, k: bv8)
    ensures Xor(Xor(a, k), Xor(b, k)) == Xor(a, b)
  {
    assert (a ^ k) ^ (b ^ k) == a ^ b;
  }

  lemma FeedbackLinear(a: bv8, b: bv8, f: bool, g: bool)
    ensures Xor(Xor(a, b), Feedback(f != g)) == Xor(Xor(a, Feedback(f)), Xor(b, Feedback(g)))
  {
    hide Xor;
    XorZero(a);
    XorZero(b);
    XorZero(Xor(a, b));
    XorSwap(a, b, 0x12);
    XorAssociative(a, b, 0x12);
    XorCancel(a, b, 0x12);
  }

  lemma StepLinear(c: bv8, d: bv8, x: bool, y: bool)
    ensures StepRegister(Xor(c, d), x != y) == Xor(StepRegister(c, x), StepRegister(d, y))
  {
    hide *;
    StepShape(c, x);
    StepShape(d, y);
    StepShape(Xor(c, d), x != y);
    ShiftLinear(c, d);
    FeedbackLinear(Double(c), Double(d), Top(c) != x, Top(d) != y);
    assert (Top(Xor(c, d)) != (x != y)) == ((Top(c) != x) != (Top(d) != y));
  }

  /** Before the stop bit the checksum is linear over XOR on messages of equal length. */
  lemma {:induction false} RegisterLinear(a: seq<bool>, b: seq<bool>)
    requires |a| == |b|
    ensures Register(XorBits(a, b)) == Xor(Register(a), Register(b))
  {
    hide StepRegister;
    if |a| > 0 {
      hide Xor;
      var n := |a| - 1;
      RegisterLinear(a[..n], b[..n]);
      StepLinear(Register(a[..n]), Register(b[..n]), a[n], b[n]);
      assert XorBits(a, b)[..n] == XorBits(a[..n], b[..n]);
    }
  }

  lemma EqualRemainders(x: seq<bool>, y: seq<bool>) returns (q: Poly)
    requires |x| == |y| && Register(x) | 1 == Register(y) | 1
    ensures Shift(Add(MessagePoly(x), MessagePoly(y)), 7) == TimesGenerator(q)
  {
    StopBit(Register(x));
    StopBit(Register(y));
    var r := Remainder(Register(x));
    var qx := RegisterDivides(x);
    var qy := RegisterDivides(y);
    DivisionDifference(x, y, qx, r, qy, r);
    assert Add(r, r) == {};
    q := Add(qx, qy);
  }

  lemma DifferenceAt(x: seq<bool>, y: seq<bool>, e: nat)
    requires |x| == |y|
    ensures e in Add(MessagePoly(x), MessagePoly(y)) <==> e < |x| && x[|x| - 1 - e] != y[|x| - 1 - e]
  {
  }

  lemma BurstChangesRegister(x: seq<bool>, y: seq<bool>, start: nat)
    requires |x| == |y| && x != y
    requires forall i | 0 <= i < |x| && x[i] != y[i] :: start <= i < start + 7
    ensures Register(x) | 1 != Register(y) | 1
  {
    if Register(x) | 1 == Register(y) | 1 {
      var q := EqualRemainders(x, y);
      hide *;
      var d := Add(MessagePoly(x), MessagePoly(y));
      if q == {} {
        var i :| 0 <= i < |x| && x[i] != y[i];
        DifferenceAt(x, y, |x| - 1 - i);
        InTimesGenerator(q, |x| - 1 - i + 7);
        assert false;
      }
      var low, high := MultipleSpan(q);
      assert low in Shift(d, 7) && high in Shift(d, 7);
      DifferenceAt(x, y, low - 7);
      DifferenceAt(x, y, high - 7);
    }
  }

  lemma ByteInjective(c: bv8, d: bv8)
    requires BitsOf(c) == BitsOf(d)
    ensures c == d
  {
    var x, y := BitsOf(c), BitsOf(d);
    assert forall i | 0 <= i < 8 :: x[i] == y[i];
    assert c & 0x80 == d & 0x80 && c & 0x40 == d & 0x40 && c & 0x20 == d & 0x20 && c & 0x10 == d & 0x10;
    assert c & 0x08 == d & 0x08 && c & 0x04 == d & 0x04 && c & 0x02 == d & 0x02 && c & 0x01 == d & 0x01;
  }

  lemma {:induction false} BitsInjective(a: seq<bv8>, b: seq<bv8>)
    requires |a| == |b| && Bits(a) == Bits(b)
    ensures a == b
  {
    if |a| > 0 {
      var n := |a| - 1;
      assert Bits(a)[..8 * n] == Bits(a[..n]) && Bits(b)[..8 * n] == Bits(b[..n]);
      assert Bits(a)[8 * n..] == BitsOf(a[n]) && Bits(b)[8 * n..] == BitsOf(b[n]);
      BitsInjective(a[..n], b[..n]);
      ByteInjective(a[n], b[n]);
      assert a == a[..n] + [a[n]] && b == b[..n] + [b[n]];
    }
  }

  /** Commands of equal length, whatever it is, that differ only inside a window of seven bits never share a
      checksum. */
  lemma BurstDetected(a: seq<bv8>, b: seq<bv8>, start: nat)
    requires |a| == |b| && a != b
    requires forall i | 0 <= i < |Bits(a)| && Bits(a)[i] != Bits(b)[i] :: start <= i < start + 7
    ensures Register(Bits(a)) | 1 != Register(Bits(b)) | 1
  {
    if Bits(a) == Bits(b) {
      BitsInjective(a, b);
    }
    BurstChangesRegister(Bits(a), Bits(b), start);
  }
}
