/** Machine words of the checksum as lists of coefficients. The register is
    reflected: bit 0 is the coefficient of the highest power. */
module Words {
  import opened ShiftRegister

  predicate BitAt(c: bv32, i: nat)
    decreases i
  {
    if i == 0 then c & 1 == 1 else BitAt(c >> 1, i - 1)
  }

  function WordBits(c: bv32): Register {
    seq(32, i requires 0 <= i => BitAt(c, i))
  }

  function ByteBits(c: bv8): (bits: Bits)
    ensures |bits| == 8
  {
    WordBits(c as bv32)[..8]
  }

  function Shift(c: bv32, n: nat): bv32
    decreases n
  {
    if n == 0 then c else Shift(c >> 1, n - 1)
  }

  // --- One bit ---

  lemma BitAtZero(c: bv32)
    ensures BitAt(c, 0) == (c & 1 == 1)
  {
  }

  lemma BitAtNext(c: bv32, i: nat)
    requires i > 0
    ensures BitAt(c, i) == BitAt(c >> 1, i - 1)
  {
  }

  lemma LowOfXor(a: bv32, b: bv32, c: bv32)
    requires c == a ^ b
    ensures c >> 1 == (a >> 1) ^ (b >> 1)
    ensures (c & 1 == 1) == ((a & 1 == 1) != (b & 1 == 1))
  {
  }

  lemma LowOfAnd(a: bv32, b: bv32, c: bv32)
    requires c == a & b
    ensures c >> 1 == (a >> 1) & (b >> 1)
    ensures (c & 1 == 1) == (a & 1 == 1 && b & 1 == 1)
  {
  }

  lemma {:induction false} BitAtXor(a: bv32, b: bv32, c: bv32, i: nat)
    requires c == a ^ b
    ensures BitAt(c, i) == (BitAt(a, i) != BitAt(b, i))
    decreases i
  {
    LowOfXor(a, b, c);
    if i > 0 {
      BitAtXor(a >> 1, b >> 1, c >> 1, i - 1);
      BitAtNext(a, i); BitAtNext(b, i); BitAtNext(c, i);
    } else {
      BitAtZero(a); BitAtZero(b); BitAtZero(c);
    }
  }

  lemma {:induction false} BitAtAnd(a: bv32, b: bv32, c: bv32, i: nat)
    requires c == a & b
    ensures BitAt(c, i) == (BitAt(a, i) && BitAt(b, i))
    decreases i
  {
    LowOfAnd(a, b, c);
    if i > 0 {
      BitAtAnd(a >> 1, b >> 1, c >> 1, i - 1);
      BitAtNext(a, i); BitAtNext(b, i); BitAtNext(c, i);
    } else {
      BitAtZero(a); BitAtZero(b); BitAtZero(c);
    }
  }

  lemma {:induction false} BitAtShift(c: bv32, n: nat, i: nat)
    ensures BitAt(Shift(c, n), i) == BitAt(c, n + i)
    decreases n
  {
    if n > 0 {
      BitAtShift(c >> 1, n - 1, i);
    }
  }

  lemma {:induction false} ShiftTwice(c: bv32, m: nat, n: nat)
    ensures Shift(Shift(c, m), n) == Shift(c, m + n)
    decreases m
  {
    if m > 0 {
      ShiftTwice(c >> 1, m - 1, n);
    }
  }

  lemma ShiftByte(c: bv32)
    ensures Shift(c, 8) == c >> 8
  {
    assert Shift(c, 8) == Shift(c >> 1, 7) == Shift((c >> 1) >> 1, 6) == Shift(c >> 2, 6);
    assert Shift(c >> 2, 6) == Shift((c >> 2) >> 1, 5) == Shift(c >> 3, 5);
    assert Shift(c >> 3, 5) == Shift((c >> 3) >> 1, 4) == Shift(c >> 4, 4);
    assert Shift(c >> 4, 4) == Shift((c >> 4) >> 1, 3) == Shift(c >> 5, 3);
    assert Shift(c >> 5, 3) == Shift((c >> 5) >> 1, 2) == Shift(c >> 6, 2);
    assert Shift(c >> 6, 2) == Shift((c >> 6) >> 1, 1) == Shift(c >> 7, 1);
    assert Shift(c >> 7, 1) == Shift((c >> 7) >> 1, 0);
  }

  lemma ShiftAll(c: bv32)
    ensures Shift(c, 32) == 0
  {
    ShiftByte(c);
    ShiftByte(c >> 8);
    ShiftByte(c >> 16);
    ShiftByte(c >> 24);
    ShiftTwice(c, 8, 8);
    ShiftTwice(c, 16, 8);
    ShiftTwice(c, 24, 8);
    FourBytes(c);
  }

  lemma FourBytes(c: bv32)
    ensures (c >> 8) >> 8 == c >> 16 && (c >> 16) >> 8 == c >> 24 && (c >> 24) >> 8 == 0
  {
  }

  lemma {:induction false} ZeroBits(i: nat)
    ensures !BitAt(0, i)
  {
    if i > 0 {
      ZeroBits(i - 1);
    }
  }

  lemma HighBits(c: bv32, i: nat)
    requires 32 <= i
    ensures !BitAt(c, i)
  {
    BitAtShift(c, 32, i - 32);
    ShiftAll(c);
    ZeroBits(i - 32);
  }

  // --- Whole words ---

  lemma WordBitsXor(a: bv32, b: bv32, c: bv32)
    requires c == a ^ b
    ensures WordBits(c) == Xor(WordBits(a), WordBits(b))
  {
    forall i: nat | i < 32
      ensures BitAt(c, i) == (BitAt(a, i) != BitAt(b, i))
    {
      BitAtXor(a, b, c, i);
    }
  }

  lemma WordBitsShift(c: bv32, n: nat)
    requires n <= 32
    ensures WordBits(Shift(c, n)) == WordBits(c)[n..] + Zeros(n)
  {
    forall i: nat | i < 32
      ensures BitAt(Shift(c, n), i) == if i + n < 32 then BitAt(c, n + i) else false
    {
      BitAtShift(c, n, i);
      if i + n >= 32 { HighBits(c, n + i); }
    }
  }

  lemma WordBitsShift8(c: bv32)
    ensures WordBits(c >> 8) == WordBits(c)[8..] + Zeros(8)
  {
    ShiftByte(c);
    WordBitsShift(c, 8);
  }

  /** The table index: the low byte of the register mixed with the input byte. */
  lemma IndexBits(c: bv32, b: bv8, index: bv32)
    requires index == (c ^ (b as bv32)) & 0xFF
    ensures WordBits(index)[..8] == Xor(WordBits(c)[..8], ByteBits(b))
  {
    var d := b as bv32;
    var mixed := c ^ d;
    forall i: nat | i < 8
      ensures BitAt(index, i) == (BitAt(c, i) != BitAt(d, i))
    {
      BitAtAnd(mixed, 0xFF, index, i);
      BitAtXor(c, d, mixed, i);
      LowByteMask(i);
    }
  }

  lemma LowByteMask(i: nat)
    requires i < 8
    ensures BitAt(0xFF, i)
  {
    assert BitAt(0xFF, 7) && BitAt(0xFF, 6) && BitAt(0xFF, 5) && BitAt(0xFF, 4);
    assert BitAt(0xFF, 3) && BitAt(0xFF, 2) && BitAt(0xFF, 1) && BitAt(0xFF, 0);
  }

  ghost predicate Agree(a: bv32, b: bv32, n: nat) {
    forall i: nat {:trigger BitAt(a, i)} :: i < n ==> BitAt(a, i) == BitAt(b, i)
  }

  lemma AgreeShifted(a: bv32, b: bv32, n: nat)
    requires 0 < n && Agree(a, b, n)
    ensures Agree(a >> 1, b >> 1, n - 1)
    ensures (a & 1 == 1) == (b & 1 == 1)
  {
    assert BitAt(a, 0) == BitAt(b, 0);
    var c, d := a >> 1, b >> 1;
    forall i: nat | i < n - 1
      ensures BitAt(c, i) == BitAt(d, i)
    {
      assert BitAt(a, i + 1) == BitAt(b, i + 1);
    }
  }

  lemma {:induction false} SameBits(a: bv32, b: bv32, n: nat)
    requires Shift(a, n) == Shift(b, n) && Agree(a, b, n)
    ensures a == b
    decreases n
  {
    if n > 0 {
      AgreeShifted(a, b, n);
      SameBits(a >> 1, b >> 1, n - 1);
      LowAndRest(a, b);
    }
  }

  lemma LowAndRest(a: bv32, b: bv32)
    requires a >> 1 == b >> 1 && (a & 1 == 1) == (b & 1 == 1)
    ensures a == b
  {
  }

  lemma WordBitsInjective(a: bv32, b: bv32)
    requires WordBits(a) == WordBits(b)
    ensures a == b
  {
    ShiftAll(a);
    ShiftAll(b);
    forall i: nat | i < 32
      ensures BitAt(a, i) == BitAt(b, i)
    {
      assert WordBits(a)[i] == WordBits(b)[i];
    }
    assert Agree(a, b, 32);
    SameBits(a, b, 32);
  }

  lemma GeneratorBits()
    ensures !BitAt(0xedb88320, 0) && !BitAt(0xedb88320, 1) && !BitAt(0xedb88320, 2) && !BitAt(0xedb88320, 3)
    ensures !BitAt(0xedb88320, 4) && BitAt(0xedb88320, 5) && !BitAt(0xedb88320, 6) && !BitAt(0xedb88320, 7)
    ensures BitAt(0xedb883, 0) && BitAt(0xedb883, 1) && !BitAt(0xedb883, 2) && !BitAt(0xedb883, 3)
    ensures !BitAt(0xedb883, 4) && !BitAt(0xedb883, 5) && !BitAt(0xedb883, 6) && BitAt(0xedb883, 7)
    ensures !BitAt(0xedb8, 0) && !BitAt(0xedb8, 1) && !BitAt(0xedb8, 2) && BitAt(0xedb8, 3)
    ensures BitAt(0xedb8, 4) && BitAt(0xedb8, 5) && !BitAt(0xedb8, 6) && BitAt(0xedb8, 7)
    ensures BitAt(0xed, 0) && !BitAt(0xed, 1) && BitAt(0xed, 2) && BitAt(0xed, 3)
    ensures !BitAt(0xed, 4) && BitAt(0xed, 5) && BitAt(0xed, 6) && BitAt(0xed, 7)
  {
  }

  lemma GeneratorWord()
    ensures WordBits(0xEDB88320) == Generator()
  {
    GeneratorBits();
    ShiftByte(0xEDB88320);
    ShiftByte(0xEDB883);
    ShiftByte(0xEDB8);
    forall i: nat | i < 24
      ensures BitAt(0xEDB88320, i + 8) == BitAt(0xEDB883, i)
      ensures i < 16 ==> BitAt(0xEDB883, i + 8) == BitAt(0xEDB8, i)
      ensures i < 8 ==> BitAt(0xEDB8, i + 8) == BitAt(0xED, i)
    {
      BitAtShift(0xEDB88320, 8, i);
      BitAtShift(0xEDB883, 8, i);
      BitAtShift(0xEDB8, 8, i);
    }
    forall i: nat | i < 32
      ensures BitAt(0xEDB88320, i) == Generator()[i]
    {
      if 8 <= i { assert BitAt(0xEDB88320, (i - 8) + 8) == BitAt(0xEDB883, i - 8); }
      if 16 <= i { assert BitAt(0xEDB883, (i - 16) + 8) == BitAt(0xEDB8, i - 16); }
      if 24 <= i { assert BitAt(0xEDB8, (i - 24) + 8) == BitAt(0xED, i - 24); }
    }
  }

  lemma ByteBitsInjective(a: bv8, b: bv8)
    requires ByteBits(a) == ByteBits(b)
    ensures a == b
  {
    var c, d := a as bv32, b as bv32;
    forall i: nat | i < 8
      ensures BitAt(c, i) == BitAt(d, i)
    {
      assert ByteBits(a)[i] == ByteBits(b)[i];
    }
    assert Agree(c, d, 8);
    ShiftByte(c);
    ShiftByte(d);
    SameBits(c, d, 8);
  }

  function Masked(bit: bool, mask: bv8): bv8 {
    if bit then mask else 0
  }

  function ByteOf(b: Bits): bv8
    requires |b| == 8
  {
    Masked(b[0], 0x01) | Masked(b[1], 0x02) | Masked(b[2], 0x04) | Masked(b[3], 0x08) |
    Masked(b[4], 0x10) | Masked(b[5], 0x20) | Masked(b[6], 0x40) | Masked(b[7], 0x80)
  }

  lemma ByteOfLow(b: Bits, c: bv32)
    requires |b| == 8 && c == ByteOf(b) as bv32
    ensures BitAt(c, 0) == b[0] && BitAt(c, 1) == b[1] && BitAt(c, 2) == b[2] && BitAt(c, 3) == b[3]
  {
  }

  lemma ByteOfHigh(b: Bits, c: bv32)
    requires |b| == 8 && c == ByteOf(b) as bv32
    ensures BitAt(c, 4) == b[4] && BitAt(c, 5) == b[5] && BitAt(c, 6) == b[6] && BitAt(c, 7) == b[7]
  {
  }

  lemma ByteOfBits(b: Bits)
    requires |b| == 8
    ensures ByteBits(ByteOf(b)) == b
  {
    var c := ByteOf(b) as bv32;
    ByteOfLow(b, c);
    ByteOfHigh(b, c);
    assert WordBits(c)[..8] == b;
  }
}
