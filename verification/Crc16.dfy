/** CRC-16/CCITT-FALSE over byte sequences, and the error patterns it detects. */
module Bits {
  type byte = b: int | 0 <= b < 256
  type uint16 = n: int | 0 <= n < 0x1_0000
  type uint32 = n: int | 0 <= n < 0x1_0000_0000
  type uint64 = n: int | 0 <= n < 0x1_0000_0000_0000_0000
  type int32 = n: int | -0x8000_0000 <= n < 0x8000_0000

  function Pow2(k: nat): (p: nat)
    ensures p >= 1
  {
    if k == 0 then 1 else 2 * Pow2(k - 1)
  }

  /** Exclusive or of two naturals, bit by bit from the least significant end. */
  function Xor(a: nat, b: nat): nat
    decreases a + b
  {
    if a == 0 then b
    else if b == 0 then a
    else (a + b) % 2 + 2 * Xor(a / 2, b / 2)
  }

  /** Xor works on the last bits and on the remaining bits separately. */
  lemma {:induction false} XorSplit(a: nat, r: nat, b: nat, q: nat)
    requires r < 2 && q < 2
    ensures Xor(2 * a + r, 2 * b + q) == 2 * Xor(a, b) + (if r == q then 0 else 1)
  {
    var x, y := 2 * a + r, 2 * b + q;
    assert x / 2 == a && y / 2 == b;
    if x == 0 {
      assert a == 0;
    } else if y == 0 {
      assert b == 0 && Xor(a, 0) == a;
    }
  }

  lemma {:induction false} XorCommutes(a: nat, b: nat)
    ensures Xor(a, b) == Xor(b, a)
    decreases a + b
  {
    if a != 0 && b != 0 { XorCommutes(a / 2, b / 2); }
  }

  lemma {:induction false} XorAssociates(a: nat, b: nat, c: nat)
    ensures Xor(Xor(a, b), c) == Xor(a, Xor(b, c))
    decreases a + b + c
  {
    if a != 0 && b != 0 && c != 0 {
      XorAssociates(a / 2, b / 2, c / 2);
      XorSplitThrice(a / 2, a % 2, b / 2, b % 2, c / 2, c % 2);
    }
  }

  lemma {:induction false} XorSplitThrice(a: nat, r: nat, b: nat, q: nat, c: nat, p: nat)
    requires r < 2 && q < 2 && p < 2
    requires Xor(Xor(a, b), c) == Xor(a, Xor(b, c))
    ensures Xor(Xor(2 * a + r, 2 * b + q), 2 * c + p) == Xor(2 * a + r, Xor(2 * b + q, 2 * c + p))
  {
    hide Xor;
    XorSplit(a, r, b, q);
    XorSplit(b, q, c, p);
    XorSplit(Xor(a, b), if r == q then 0 else 1, c, p);
    XorSplit(a, r, Xor(b, c), if q == p then 0 else 1);
  }

  lemma {:induction false} XorSelf(a: nat)
    ensures Xor(a, a) == 0
  {
    if a != 0 { XorSelf(a / 2); }
  }

  lemma {:induction false} XorCancels(a: nat, b: nat, c: nat)
    requires Xor(a, b) == Xor(a, c)
    ensures b == c
  {
    XorAssociates(a, a, b);
    XorAssociates(a, a, c);
    XorSelf(a);
  }

  lemma {:induction false} XorBound(a: nat, b: nat, k: nat)
    requires a < Pow2(k) && b < Pow2(k)
    ensures Xor(a, b) < Pow2(k)
  {
    if k != 0 && a != 0 && b != 0 { XorBound(a / 2, b / 2, k - 1); }
  }

  /** A bit above both operands passes through Xor unchanged. */
  lemma {:induction false} XorHighBit(a: nat, b: nat, k: nat)
    requires a < Pow2(k) && b < Pow2(k)
    ensures Xor(a + Pow2(k), b) == Xor(a, b) + Pow2(k)
  {
    if k != 0 {
      assert Pow2(k) == 2 * Pow2(k - 1);
      Halves(a, Pow2(k - 1));
      Halves(b, Pow2(k - 1));
      hide Xor, Pow2;
      assert a + Pow2(k) == 2 * (a / 2) + a % 2 + 2 * Pow2(k - 1) && b == 2 * (b / 2) + b % 2;
      XorHighBit(a / 2, b / 2, k - 1);
      XorHighStep(a / 2, a % 2, b / 2, b % 2, Pow2(k - 1));
    }
  }

  lemma {:induction false} Halves(a: nat, half: nat)
    requires a < 2 * half
    ensures a / 2 < half && a == 2 * (a / 2) + a % 2
  {
  }

  lemma {:induction false} XorHighStep(a: nat, r: nat, b: nat, q: nat, half: nat)
    requires r < 2 && q < 2 && Xor(a + half, b) == Xor(a, b) + half
    ensures Xor(2 * a + r + 2 * half, 2 * b + q) == Xor(2 * a + r, 2 * b + q) + 2 * half
  {
    XorSplit(a, r, b, q);
    XorSplit(a + half, r, b, q);
    hide Xor;
    assert 2 * (a + half) + r == 2 * a + r + 2 * half;
  }

  lemma {:induction false} Doubles(p: nat, a: nat)
    ensures 2 * p * a == 2 * (p * a)
  {
  }

  /** Operands without common bit positions just add up. */
  lemma {:induction false} XorDisjoint(a: nat, b: nat, k: nat)
    requires b < Pow2(k)
    ensures Xor(Pow2(k) * a, b) == Pow2(k) * a + b
  {
    if k != 0 {
      var half := Pow2(k - 1);
      XorDisjoint(a, b / 2, k - 1);
      Doubles(half, a);
      hide Xor;
      XorSplit(half * a, 0, b / 2, b % 2);
    } else {
      assert Xor(a, 0) == a;
    }
  }

  lemma {:induction false} Pow2Values()
    ensures Pow2(8) == 0x100 && Pow2(15) == 0x8000 && Pow2(16) == 0x10000
  {
    assert Pow2(4) == 16;
    assert Pow2(8) == 16 * Pow2(4);
    assert Pow2(12) == 16 * Pow2(8);
    assert Pow2(15) == 8 * Pow2(12);
  }
}

module Crc16 {
  import opened Bits

  const POLYNOMIAL: nat := 0x1021

  type word = w: int | 0 <= w < 0x10000

  /** One iteration of the inner loop: shift left, reduce by the polynomial when the top bit falls out. */
  function CrcBit(crc: word): (r: word)
  {
    if crc >= 0x8000 then
      Pow2Values();
      XorBound(2 * crc - 0x10000, POLYNOMIAL, 16);
      Xor(2 * crc - 0x10000, POLYNOMIAL)
    else 2 * crc
  }

  function CrcBits(crc: word, n: nat): word
    decreases n, crc
  {
    if n == 0 then crc else CrcBits(CrcBit(crc), n - 1)
  }

  function XorByte(crc: word, b: byte): word
  {
    Pow2Values();
    XorBound(crc, 256 * b, 16);
    Xor(crc, 256 * b)
  }

  function CrcByte(crc: word, b: byte): word
  {
    CrcBits(XorByte(crc, b), 8)
  }

  /** The register after consuming `data`, started at `crc`. */
  function CrcFrom(crc: word, data: seq<byte>): word
    decreases data
  {
    if data == [] then crc else CrcFrom(CrcByte(crc, data[0]), data[1..])
  }

  function Crc(data: seq<byte>): word
  {
    CrcFrom(0xFFFF, data)
  }

  lemma {:induction false} CrcFromConcat(crc: word, a: seq<byte>, b: seq<byte>)
    ensures CrcFrom(crc, a + b) == CrcFrom(CrcFrom(crc, a), b)
    decreases a
  {
    if a == [] {
      assert a + b == b;
    } else {
      assert (a + b)[1..] == a[1..] + b;
      CrcFromConcat(CrcByte(crc, a[0]), a[1..], b);
    }
  }

  lemma {:induction false} CrcFromStep(crc: word, data: seq<byte>, i: nat, n: nat)
    requires i < |data| && n == 8
    ensures CrcFrom(CrcBits(XorByte(crc, data[i]), n), data[i + 1..]) == CrcFrom(crc, data[i..])
  {
    hide CrcBits, XorByte;
    assert data[i..][0] == data[i] && data[i..][1..] == data[i + 1..];
  }

  /** pico_uart_crc16 and crc16_ccitt_false: the same two nested loops on both ends. */
  method ComputeCrc(data: seq<byte>) returns (crc: word)
    ensures crc == Crc(data)
  {
    hide CrcFrom, XorByte, CrcBit;
    assert data[0..] == data;
    crc := 0xFFFF;
    for i := 0 to |data|
      invariant CrcFrom(crc, data[i..]) == Crc(data)
    {
      ghost var n: nat := 8;
      CrcFromStep(crc, data, i, n);
      crc := XorByte(crc, data[i]);
      ghost var target := CrcBits(crc, n);
      for bit := 0 to 8
        invariant CrcBits(crc, n - bit) == target
      {
        crc := CrcBit(crc);
      }
    }
    assert data[|data|..] == [];
    CrcEmpty(crc);
  }

  lemma {:induction false} CrcEmpty(crc: word)
    ensures CrcFrom(crc, []) == crc
  {
  }

  // ---- each step is injective ----

  lemma {:induction false} XorOdd(x: nat, p: nat, u: nat)
    requires u == Xor(2 * x, 2 * p + 1)
    ensures u == 2 * Xor(p, x) + 1
  {
    XorSplit(x, 0, p, 1);
    XorCommutes(x, p);
  }

  lemma {:induction false} CrcBitInjective(x: word, y: word)
    requires CrcBit(x) == CrcBit(y)
    ensures x == y
  {
    var x', y' := if x >= 0x8000 then x - 0x8000 else x, if y >= 0x8000 then y - 0x8000 else y;
    var p := POLYNOMIAL / 2;
    if x >= 0x8000 { XorOdd(x', p, CrcBit(x)); }
    if y >= 0x8000 { XorOdd(y', p, CrcBit(y)); }
    if x >= 0x8000 && y >= 0x8000 { XorCancels(p, x', y'); }
  }

  lemma {:induction false} CrcBitsInjective(x: word, y: word, n: nat)
    requires CrcBits(x, n) == CrcBits(y, n)
    ensures x == y
    decreases n
  {
    if n != 0 {
      CrcBitsInjective(CrcBit(x), CrcBit(y), n - 1);
      CrcBitInjective(x, y);
    }
  }

  /** For fixed data the register update is a bijection of the start value: a difference never heals. */
  lemma {:induction false} CrcFromInjective(x: word, y: word, data: seq<byte>)
    requires CrcFrom(x, data) == CrcFrom(y, data)
    ensures x == y
    decreases data
  {
    if data != [] {
      CrcFromInjective(CrcByte(x, data[0]), CrcByte(y, data[0]), data[1..]);
      CrcBitsInjective(XorByte(x, data[0]), XorByte(y, data[0]), 8);
      var b: nat := data[0];
      var high := 256 * b;
      XorCommutes(x, high);
      XorCommutes(y, high);
      XorCancels(high, x, y);
    }
  }

  lemma {:induction false} CrcByteInjective(crc: word, a: byte, b: byte)
    requires CrcByte(crc, a) == CrcByte(crc, b)
    ensures a == b
  {
    CrcBitsInjective(XorByte(crc, a), XorByte(crc, b), 8);
    XorCancels(crc, 256 * a, 256 * b);
  }

  // ---- two adjacent bytes act as one 16-bit word ----

  /** A difference that stays below the top bit is just shifted. */
  lemma {:induction false} CrcBitShiftsDifference(x: word, e: nat)
    requires e < 0x8000
    ensures Xor(x, e) < 0x10000 && Xor(CrcBit(x), 2 * e) < 0x10000
    ensures CrcBit(Xor(x, e)) == Xor(CrcBit(x), 2 * e)
  {
    Pow2Values();
    XorBound(x, e, 16);
    XorBound(CrcBit(x), 2 * e, 16);
    if x < 0x8000 {
      XorBound(x, e, 15);
      XorSplit(x, 0, e, 0);
    } else {
      ReduceShiftsDifference(x - 0x8000, e, POLYNOMIAL);
      XorBound(x - 0x8000, e, 15);
    }
  }

  lemma {:induction false} ReduceShiftsDifference(low: nat, e: nat, p: nat)
    requires low < 0x8000 && e < 0x8000
    ensures Xor(low + 0x8000, e) == Xor(low, e) + 0x8000
    ensures Xor(2 * Xor(low, e), p) == Xor(Xor(2 * low, p), 2 * e)
  {
    Pow2Values();
    hide Xor, Pow2;
    XorHighBit(low, e, 15);
    XorSplit(low, 0, e, 0);
    XorMovesPast(2 * low, 2 * e, p);
  }

  lemma {:induction false} XorMovesPast(a: nat, b: nat, c: nat)
    ensures Xor(Xor(a, b), c) == Xor(Xor(a, c), b)
  {
    XorAssociates(a, b, c);
    XorCommutes(b, c);
    XorAssociates(a, c, b);
  }

  function Doubled(e: nat, n: nat): (d: nat)
    ensures e <= d
    decreases n, e
  {
    if n == 0 then e else Doubled(2 * e, n - 1)
  }

  lemma {:induction false} CrcBitsShiftDifference(x: word, e: nat, n: nat)
    requires Doubled(e, n) < 0x10000
    ensures Xor(x, e) < 0x10000 && Xor(CrcBits(x, n), Doubled(e, n)) < 0x10000
    ensures CrcBits(Xor(x, e), n) == Xor(CrcBits(x, n), Doubled(e, n))
    decreases n
  {
    Pow2Values();
    XorBound(x, e, 16);
    XorBound(CrcBits(x, n), Doubled(e, n), 16);
    if n != 0 {
      CrcBitShiftsDifference(x, e);
      CrcBitsShiftDifference(CrcBit(x), 2 * e, n - 1);
    }
  }

  lemma {:induction false} DoubledByte(e: nat)
    ensures Doubled(e, 8) == 256 * e
  {
    assert Doubled(64 * e, 2) == Doubled(128 * e, 1) == Doubled(256 * e, 0);
    assert Doubled(e, 8) == Doubled(4 * e, 6) == Doubled(16 * e, 4) == Doubled(64 * e, 2);
  }

  lemma {:induction false} CrcTwoBytes(crc: word, a: byte, b: byte)
    ensures Xor(crc, 256 * a + b) < 0x10000
    ensures CrcByte(CrcByte(crc, a), b) == CrcBits(Xor(crc, 256 * a + b), 16)
  {
    Pow2Values();
    XorBound(crc, 256 * a + b, 16);
    XorHighByte(a, b);
    XorAssociates(crc, 256 * a, b);
    var x := XorByte(crc, a);
    DoubledByte(b);
    CrcBitsShiftDifference(x, b, 8);
    CrcBitsCompose(Xor(crc, 256 * a + b), 8, 8);
  }

  lemma {:induction false} CrcBitsCompose(crc: word, m: nat, n: nat)
    ensures CrcBits(CrcBits(crc, m), n) == CrcBits(crc, m + n)
    decreases m
  {
    if m != 0 { CrcBitsCompose(CrcBit(crc), m - 1, n); }
  }

  lemma {:induction false} XorHighByte(a: byte, b: byte)
    ensures Xor(256 * a, b) == 256 * a + b
  {
    Pow2Values();
    XorDisjoint(a, b, 8);
  }

  lemma {:induction false} CrcTwoBytesInjective(crc: word, a: byte, b: byte, c: byte, d: byte)
    requires CrcByte(CrcByte(crc, a), b) == CrcByte(CrcByte(crc, c), d)
    ensures a == c && b == d
  {
    CrcTwoBytes(crc, a, b);
    CrcTwoBytes(crc, c, d);
    CrcBitsInjective(Xor(crc, 256 * a + b), Xor(crc, 256 * c + d), 16);
    XorCancels(crc, 256 * a + b, 256 * c + d);
  }

  // ---- detection over whole inputs ----

  /** Two equally long inputs that differ in one byte only have different CRCs. */
  lemma {:induction false} DetectsOneByte(prefix: seq<byte>, a: byte, b: byte, suffix: seq<byte>)
    requires a != b
    ensures Crc(prefix + [a] + suffix) != Crc(prefix + [b] + suffix)
  {
    var s := Crc(prefix);
    CrcFromConcat(0xFFFF, prefix + [a], suffix);
    CrcFromConcat(0xFFFF, prefix, [a]);
    CrcFromConcat(0xFFFF, prefix + [b], suffix);
    CrcFromConcat(0xFFFF, prefix, [b]);
    CrcSingle(s, a);
    CrcSingle(s, b);
    if Crc(prefix + [a] + suffix) == Crc(prefix + [b] + suffix) {
      CrcFromInjective(CrcByte(s, a), CrcByte(s, b), suffix);
      CrcByteInjective(s, a, b);
    }
  }

  lemma {:induction false} CrcSingle(s: word, a: byte)
    ensures CrcFrom(s, [a]) == CrcByte(s, a)
  {
    assert [a][1..] == [];
  }

  /** Two equally long inputs that differ only within two adjacent bytes have different CRCs. */
  lemma {:induction false} DetectsTwoAdjacentBytes(prefix: seq<byte>, a: byte, b: byte, c: byte, d: byte,
      suffix: seq<byte>)
    requires a != c || b != d
    ensures Crc(prefix + [a, b] + suffix) != Crc(prefix + [c, d] + suffix)
  {
    var s := Crc(prefix);
    CrcFromConcat(0xFFFF, prefix + [a, b], suffix);
    CrcFromConcat(0xFFFF, prefix, [a, b]);
    CrcFromConcat(0xFFFF, prefix + [c, d], suffix);
    CrcFromConcat(0xFFFF, prefix, [c, d]);
    CrcPair(s, a, b);
    CrcPair(s, c, d);
    if Crc(prefix + [a, b] + suffix) == Crc(prefix + [c, d] + suffix) {
      CrcFromInjective(CrcByte(CrcByte(s, a), b), CrcByte(CrcByte(s, c), d), suffix);
      CrcTwoBytesInjective(s, a, b, c, d);
    }
  }

  lemma {:induction false} CrcPair(s: word, a: byte, b: byte)
    ensures CrcFrom(s, [a, b]) == CrcByte(CrcByte(s, a), b)
  {
    assert [a, b][1..] == [b];
    CrcSingle(CrcByte(s, a), b);
  }
}
