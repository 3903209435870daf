/** The CRC as polynomial division over two elements: naturals stand for polynomials, bit k for x^k, and exclusive or
    for their sum. */
module CrcPolynomial {
  import opened Bits
  import opened Crc16

  /** x^16 + x^12 + x^5 + 1 */
  const GENERATOR: nat := 0x10000 + 0x1000 + 0x20 + 1

  /** The product of two polynomials. */
  function Times(a: nat, b: nat): nat {
    if a == 0 then 0 else Xor(if a % 2 == 1 then b else 0, 2 * Times(a / 2, b))
  }

  /** The message with its first byte most significant. */
  function Number(data: seq<byte>): nat {
    if data == [] then 0 else 256 * Number(data[..|data| - 1]) + data[|data| - 1]
  }

  // ---- sums and products ----

  lemma {:induction false} XorZero(a: nat)
    ensures Xor(a, 0) == a && Xor(0, a) == a
  {
  }

  lemma {:induction false} XorDouble(a: nat, b: nat)
    ensures Xor(2 * a, 2 * b) == 2 * Xor(a, b)
  {
    XorSplit(a, 0, b, 0);
  }

  lemma {:induction false} XorShiftStep(p: nat, a: nat, b: nat)
    requires Xor(p * a, p * b) == p * Xor(a, b)
    ensures Xor((2 * p) * a, (2 * p) * b) == (2 * p) * Xor(a, b)
  {
    hide Xor;
    var x, y, z := p * a, p * b, p * Xor(a, b);
    Doubles(p, a);
    Doubles(p, b);
    Doubles(p, Xor(a, b));
    XorDouble(x, y);
  }

  lemma {:induction false} XorShift(a: nat, b: nat, n: nat)
    ensures Xor(Pow2(n) * a, Pow2(n) * b) == Pow2(n) * Xor(a, b)
  {
    hide Xor;
    if n != 0 {
      XorShift(a, b, n - 1);
      XorShiftStep(Pow2(n - 1), a, b);
      assert Pow2(n) == 2 * Pow2(n - 1);
    }
  }

  /** Two sums of two, exchanged in the middle. */
  lemma {:induction false} XorExchange(a: nat, b: nat, c: nat, d: nat)
    ensures Xor(Xor(a, b), Xor(c, d)) == Xor(Xor(a, c), Xor(b, d))
  {
    hide Xor;
    XorAssociates(a, b, Xor(c, d));
    XorAssociates(b, c, d);
    XorCommutes(b, c);
    XorAssociates(c, b, d);
    XorAssociates(a, c, Xor(b, d));
  }

  lemma {:induction false} TimesOne(b: nat)
    ensures Times(0, b) == 0 && Times(1, b) == b
  {
    assert Times(1, b) == Xor(b, 2 * Times(0, b));
    XorZero(b);
  }

  lemma {:induction false} TimesDouble(a: nat, b: nat)
    ensures Times(2 * a, b) == 2 * Times(a, b)
  {
    if a != 0 { XorZero(2 * Times(a, b)); }
  }

  lemma {:induction false} TimesShiftStep(p: nat, a: nat, b: nat)
    requires Times(p * a, b) == p * Times(a, b)
    ensures Times((2 * p) * a, b) == (2 * p) * Times(a, b)
  {
    hide Times;
    Doubles(p, a);
    Doubles(p, Times(a, b));
    var x := p * a;
    TimesDouble(x, b);
  }

  lemma {:induction false} TimesShift(a: nat, b: nat, n: nat)
    ensures Times(Pow2(n) * a, b) == Pow2(n) * Times(a, b)
  {
    hide Times;
    if n != 0 {
      TimesShift(a, b, n - 1);
      TimesShiftStep(Pow2(n - 1), a, b);
      assert Pow2(n) == 2 * Pow2(n - 1);
    }
  }

  lemma {:induction false} TimesStep(a: nat, r: nat, b: nat)
    requires r < 2
    ensures Times(2 * a + r, b) == Xor(if r == 1 then b else 0, 2 * Times(a, b))
  {
    assert (2 * a + r) / 2 == a && (2 * a + r) % 2 == r;
    if 2 * a + r == 0 { XorZero(0); }
  }

  lemma {:induction false} TimesSumStep(a: nat, r: nat, c: nat, q: nat, b: nat)
    requires r < 2 && q < 2 && Times(Xor(a, c), b) == Xor(Times(a, b), Times(c, b))
    ensures Times(Xor(2 * a + r, 2 * c + q), b) == Xor(Times(2 * a + r, b), Times(2 * c + q, b))
  {
    hide Times, Xor;
    var u, v := if r == 1 then b else 0, if q == 1 then b else 0;
    XorSplit(a, r, c, q);
    TimesStep(a, r, b);
    TimesStep(c, q, b);
    TimesStep(Xor(a, c), if r == q then 0 else 1, b);
    XorExchange(u, 2 * Times(a, b), v, 2 * Times(c, b));
    XorDouble(Times(a, b), Times(c, b));
    XorSelf(b);
    XorZero(b);
    XorZero(0);
  }

  /** The product distributes over the sum. */
  lemma {:induction false} TimesSum(a: nat, c: nat, b: nat)
    ensures Times(Xor(a, c), b) == Xor(Times(a, b), Times(c, b))
    decreases a + c
  {
    if a == 0 || c == 0 {
      XorZero(Times(c, b));
      XorZero(Times(a, b));
    } else {
      hide Times, Xor;
      TimesSum(a / 2, c / 2, b);
      TimesSumStep(a / 2, a % 2, c / 2, c % 2, b);
      assert a == 2 * (a / 2) + a % 2 && c == 2 * (c / 2) + c % 2;
    }
  }

  // ---- division ----

  /** `r` is what is left of `a` after division by the generator with quotient `q`. */
  ghost predicate Leaves(a: nat, q: nat, r: nat) {
    a == Xor(Times(q, GENERATOR), r)
  }

  /** One step of the inner loop takes the register times x, less the generator if that has degree 16. */
  lemma {:induction false} BitLeaves(crc: word)
    ensures Leaves(2 * crc, if crc >= 0x8000 then 1 else 0, CrcBit(crc))
  {
    TimesOne(GENERATOR);
    if crc < 0x8000 {
      XorZero(2 * crc);
    } else {
      Pow2Values();
      var low := 2 * crc - 0x10000;
      XorHighBit(POLYNOMIAL, CrcBit(crc), 16);
      XorCommutes(low, POLYNOMIAL);
      XorAssociates(POLYNOMIAL, POLYNOMIAL, low);
      XorSelf(POLYNOMIAL);
      XorZero(low);
    }
  }

  /** Quotients and remainders of a shifted polynomial, and of the sum with what the remainder leaves in its turn. */
  lemma {:induction false} ShiftLeaves(a: nat, q: nat, r: nat, n: nat)
    requires Leaves(a, q, r)
    ensures Leaves(Pow2(n) * a, Pow2(n) * q, Pow2(n) * r)
  {
    hide Times, Xor;
    TimesShift(q, GENERATOR, n);
    XorShift(Times(q, GENERATOR), r, n);
  }

  lemma {:induction false} ThenLeaves(a: nat, q: nat, b: nat, p: nat, r: nat)
    requires Leaves(a, q, b) && Leaves(b, p, r)
    ensures Leaves(a, Xor(q, p), r)
  {
    hide Times, Xor;
    TimesSum(q, p, GENERATOR);
    XorAssociates(Times(q, GENERATOR), Times(p, GENERATOR), r);
  }

  lemma {:induction false} BitsLeave(crc: word, n: nat) returns (q: nat)
    ensures Leaves(Pow2(n) * crc, q, CrcBits(crc, n))
    decreases n
  {
    if n == 0 {
      q := 0;
      TimesOne(GENERATOR);
      XorZero(crc);
    } else {
      hide Leaves, Xor, Times, CrcBit;
      BitLeaves(crc);
      var top, half := if crc >= 0x8000 then 1 else 0, Pow2(n - 1);
      ShiftLeaves(2 * crc, top, CrcBit(crc), n - 1);
      var rest := BitsLeave(CrcBit(crc), n - 1);
      ThenLeaves(half * (2 * crc), half * top, half * CrcBit(crc), rest, CrcBits(CrcBit(crc), n - 1));
      q := Xor(half * top, rest);
      PowStep(n - 1, crc);
    }
  }

  lemma {:induction false} PowStep(n: nat, a: nat)
    ensures Pow2(n) * (2 * a) == Pow2(n + 1) * a
  {
    Doubles(Pow2(n), a);
  }

  /** The sum of two that are divided. */
  lemma {:induction false} SumLeaves(a: nat, q: nat, r: nat, b: nat)
    requires Leaves(a, q, r)
    ensures Leaves(Xor(a, b), q, Xor(r, b))
  {
    hide Times, Xor;
    XorAssociates(Times(q, GENERATOR), r, b);
  }

  /** One byte: the register times x^8, plus the byte times x^16, less a multiple of the generator. */
  lemma {:induction false} ByteLeaves(crc: word, b: byte) returns (q: nat)
    ensures Leaves(Xor(0x100 * crc, 0x10000 * b), q, CrcByte(crc, b))
  {
    Pow2Values();
    hide Leaves, Xor, CrcBits;
    q := BitsLeave(XorByte(crc, b), 8);
    XorShift(crc, 0x100 * b, 8);
    assert 0x100 * (0x100 * b) == 0x10000 * b;
  }

  /** The register after `data`: what the start value times x^8 for each byte, plus the message times x^16, leaves. */
  lemma {:induction false} RegisterIsRemainder(crc: word, data: seq<byte>) returns (q: nat)
    ensures Leaves(Xor(Pow2(8 * |data|) * crc, 0x10000 * Number(data)), q, CrcFrom(crc, data))
  {
    if data == [] {
      q := 0;
      TimesOne(GENERATOR);
      XorZero(crc);
    } else {
      var n := |data| - 1;
      var front, b := data[..n], data[n];
      assert data == front + [b] && [b][1..] == [];
      CrcFromConcat(crc, front, [b]);
      var c := CrcFrom(crc, front);
      assert CrcFrom(crc, data) == CrcByte(c, b);
      hide CrcFrom, CrcByte, Leaves, Xor, Times;
      var before := RegisterIsRemainder(crc, front);
      var last := ByteLeaves(c, b);
      q := AppendByte(Pow2(8 * n) * crc, Number(front), before, c, b, last, CrcByte(c, b));
      PowByte(n, crc);
    }
  }

  lemma {:induction false} PowByte(n: nat, a: nat)
    ensures 0x100 * (Pow2(8 * n) * a) == Pow2(8 * (n + 1)) * a
  {
    var k := 8 * n;
    assert Pow2(k + 2) == 2 * Pow2(k + 1) == 4 * Pow2(k);
    assert Pow2(k + 4) == 2 * Pow2(k + 3) == 4 * Pow2(k + 2);
    assert Pow2(k + 6) == 2 * Pow2(k + 5) == 4 * Pow2(k + 4);
    assert Pow2(k + 8) == 2 * Pow2(k + 7) == 4 * Pow2(k + 6);
  }

  lemma {:induction false} AppendByte(start: nat, message: nat, q: nat, c: nat, b: byte, p: nat, r: nat)
      returns (quotient: nat)
    requires Leaves(Xor(start, 0x10000 * message), q, c) && Leaves(Xor(0x100 * c, 0x10000 * b), p, r)
    ensures Leaves(Xor(0x100 * start, 0x10000 * (0x100 * message + b)), quotient, r)
  {
    Pow2Values();
    hide Leaves, Xor, Times;
    ShiftLeaves(Xor(start, 0x10000 * message), q, c, 8);
    XorShift(start, 0x10000 * message, 8);
    SumLeaves(Xor(0x100 * start, 0x100 * (0x10000 * message)), 0x100 * q, 0x100 * c, 0x10000 * b);
    XorAssociates(0x100 * start, 0x100 * (0x10000 * message), 0x10000 * b);
    XorDisjoint(message, b, 8);
    XorShift(0x100 * message, b, 16);
    assert 0x100 * (0x10000 * message) == 0x10000 * (0x100 * message);
    ThenLeaves(Xor(0x100 * start, 0x10000 * (0x100 * message + b)), 0x100 * q, Xor(0x100 * c, 0x10000 * b), p, r);
    quotient := Xor(0x100 * q, p);
  }

  // ---- the remainder is unique ----

  lemma {:induction false} XorAbove(a: nat, b: nat, k: nat)
    requires a < Pow2(k) <= b
    ensures Xor(a, b) >= Pow2(k)
  {
    if k != 0 && a != 0 {
      XorAbove(a / 2, b / 2, k - 1);
    }
  }

  /** A multiple of the generator that is not zero has degree 16 or more. */
  lemma {:induction false} MultipleIsLarge(q: nat)
    requires q > 0
    ensures Times(q, GENERATOR) >= 0x10000
  {
    Pow2Values();
    if q == 1 {
      TimesOne(GENERATOR);
    } else {
      MultipleIsLarge(q / 2);
      hide Xor;
      XorZero(2 * Times(q / 2, GENERATOR));
      assert Pow2(17) == 2 * Pow2(16);
      XorAbove(GENERATOR, 2 * Times(q / 2, GENERATOR), 17);
    }
  }

  /** Only one polynomial below degree 16 is a remainder. */
  lemma {:induction false} RemainderIsUnique(a: nat, q: nat, r: nat, p: nat, s: nat)
    requires Leaves(a, q, r) && Leaves(a, p, s) && r < 0x10000 && s < 0x10000
    ensures q == p && r == s
  {
    hide Times, Xor;
    Pow2Values();
    var u, v := Times(q, GENERATOR), Times(p, GENERATOR);
    TimesSum(q, p, GENERATOR);
    XorExchange(u, r, v, s);
    XorSelf(a);
    XorBound(r, s, 16);
    assert Xor(Xor(u, v), Xor(r, s)) == 0;
    ZeroSum(Xor(u, v), Xor(r, s));
    if Xor(q, p) > 0 { MultipleIsLarge(Xor(q, p)); }
    ZeroSum(q, p);
    XorCancels(u, r, s);
  }

  lemma {:induction false} ZeroSum(a: nat, b: nat)
    requires Xor(a, b) == 0
    ensures a == b
  {
    hide Xor;
    XorSelf(a);
    XorCancels(a, b, a);
  }

  /** The CRC of a message is the one remainder below degree 16 of the message times x^16, plus the initial register
      0xFFFF shifted before the message, on division by x^16 + x^12 + x^5 + 1. */
  lemma {:induction false} CrcIsRemainder(data: seq<byte>, r: nat)
    requires r < 0x10000
    ensures r == Crc(data)
            <==> exists q :: Leaves(Xor(Pow2(8 * |data|) * 0xFFFF, 0x10000 * Number(data)), q, r)
    ensures GENERATOR == Pow2(16) + Pow2(12) + Pow2(5) + 1
  {
    Pow2Values();
    assert Pow2(5) == 32 && Pow2(12) == 16 * Pow2(8) by { assert Pow2(4) == 16; assert Pow2(10) == 4 * Pow2(8); }
    var a := Xor(Pow2(8 * |data|) * 0xFFFF, 0x10000 * Number(data));
    var q := RegisterIsRemainder(0xFFFF, data);
    hide Times, Xor, CrcFrom, Number, Pow2, Leaves;
    assert Leaves(a, q, Crc(data));
    if p :| Leaves(a, p, r) {
      RemainderIsUnique(a, q, Crc(data), p, r);
    }
  }
}
