/** The 256-entry lookup table `crc32_tab`, sixteen entries to a row, and the
    proof that every entry is what the shift register makes of its index. */
module Crc32Table {
  import opened ShiftRegister
  import opened Words

  /** The generator without its leading term, reflected. */
  const POLY: bv32 := 0xEDB88320

  const ROW0: seq<bv32> := [
    0x00000000, 0x77073096, 0xee0e612c, 0x990951ba, 0x076dc419, 0x706af48f, 0xe963a535, 0x9e6495a3,
    0x0edb8832, 0x79dcb8a4, 0xe0d5e91e, 0x97d2d988, 0x09b64c2b, 0x7eb17cbd, 0xe7b82d07, 0x90bf1d91]
  const ROW1: seq<bv32> := [
    0x1db71064, 0x6ab020f2, 0xf3b97148, 0x84be41de, 0x1adad47d, 0x6ddde4eb, 0xf4d4b551, 0x83d385c7,
    0x136c9856, 0x646ba8c0, 0xfd62f97a, 0x8a65c9ec, 0x14015c4f, 0x63066cd9, 0xfa0f3d63, 0x8d080df5]
  const ROW2: seq<bv32> := [
    0x3b6e20c8, 0x4c69105e, 0xd56041e4, 0xa2677172, 0x3c03e4d1, 0x4b04d447, 0xd20d85fd, 0xa50ab56b,
    0x35b5a8fa, 0x42b2986c, 0xdbbbc9d6, 0xacbcf940, 0x32d86ce3, 0x45df5c75, 0xdcd60dcf, 0xabd13d59]
  const ROW3: seq<bv32> := [
    0x26d930ac, 0x51de003a, 0xc8d75180, 0xbfd06116, 0x21b4f4b5, 0x56b3c423, 0xcfba9599, 0xb8bda50f,
    0x2802b89e, 0x5f058808, 0xc60cd9b2, 0xb10be924, 0x2f6f7c87, 0x58684c11, 0xc1611dab, 0xb6662d3d]
  const ROW4: seq<bv32> := [
    0x76dc4190, 0x01db7106, 0x98d220bc, 0xefd5102a, 0x71b18589, 0x06b6b51f, 0x9fbfe4a5, 0xe8b8d433,
    0x7807c9a2, 0x0f00f934, 0x9609a88e, 0xe10e9818, 0x7f6a0dbb, 0x086d3d2d, 0x91646c97, 0xe6635c01]
  const ROW5: seq<bv32> := [
    0x6b6b51f4, 0x1c6c6162, 0x856530d8, 0xf262004e, 0x6c0695ed, 0x1b01a57b, 0x8208f4c1, 0xf50fc457,
    0x65b0d9c6, 0x12b7e950, 0x8bbeb8ea, 0xfcb9887c, 0x62dd1ddf, 0x15da2d49, 0x8cd37cf3, 0xfbd44c65]
  const ROW6: seq<bv32> := [
    0x4db26158, 0x3ab551ce, 0xa3bc0074, 0xd4bb30e2, 0x4adfa541, 0x3dd895d7, 0xa4d1c46d, 0xd3d6f4fb,
    0x4369e96a, 0x346ed9fc, 0xad678846, 0xda60b8d0, 0x44042d73, 0x33031de5, 0xaa0a4c5f, 0xdd0d7cc9]
  const ROW7: seq<bv32> := [
    0x5005713c, 0x270241aa, 0xbe0b1010, 0xc90c2086, 0x5768b525, 0x206f85b3, 0xb966d409, 0xce61e49f,
    0x5edef90e, 0x29d9c998, 0xb0d09822, 0xc7d7a8b4, 0x59b33d17, 0x2eb40d81, 0xb7bd5c3b, 0xc0ba6cad]
  const ROW8: seq<bv32> := [
    0xedb88320, 0x9abfb3b6, 0x03b6e20c, 0x74b1d29a, 0xead54739, 0x9dd277af, 0x04db2615, 0x73dc1683,
    0xe3630b12, 0x94643b84, 0x0d6d6a3e, 0x7a6a5aa8, 0xe40ecf0b, 0x9309ff9d, 0x0a00ae27, 0x7d079eb1]
  const ROW9: seq<bv32> := [
    0xf00f9344, 0x8708a3d2, 0x1e01f268, 0x6906c2fe, 0xf762575d, 0x806567cb, 0x196c3671, 0x6e6b06e7,
    0xfed41b76, 0x89d32be0, 0x10da7a5a, 0x67dd4acc, 0xf9b9df6f, 0x8ebeeff9, 0x17b7be43, 0x60b08ed5]
  const ROWA: seq<bv32> := [
    0xd6d6a3e8, 0xa1d1937e, 0x38d8c2c4, 0x4fdff252, 0xd1bb67f1, 0xa6bc5767, 0x3fb506dd, 0x48b2364b,
    0xd80d2bda, 0xaf0a1b4c, 0x36034af6, 0x41047a60, 0xdf60efc3, 0xa867df55, 0x316e8eef, 0x4669be79]
  const ROWB: seq<bv32> := [
    0xcb61b38c, 0xbc66831a, 0x256fd2a0, 0x5268e236, 0xcc0c7795, 0xbb0b4703, 0x220216b9, 0x5505262f,
    0xc5ba3bbe, 0xb2bd0b28, 0x2bb45a92, 0x5cb36a04, 0xc2d7ffa7, 0xb5d0cf31, 0x2cd99e8b, 0x5bdeae1d]
  const ROWC: seq<bv32> := [
    0x9b64c2b0, 0xec63f226, 0x756aa39c, 0x026d930a, 0x9c0906a9, 0xeb0e363f, 0x72076785, 0x05005713,
    0x95bf4a82, 0xe2b87a14, 0x7bb12bae, 0x0cb61b38, 0x92d28e9b, 0xe5d5be0d, 0x7cdcefb7, 0x0bdbdf21]
  const ROWD: seq<bv32> := [
    0x86d3d2d4, 0xf1d4e242, 0x68ddb3f8, 0x1fda836e, 0x81be16cd, 0xf6b9265b, 0x6fb077e1, 0x18b74777,
    0x88085ae6, 0xff0f6a70, 0x66063bca, 0x11010b5c, 0x8f659eff, 0xf862ae69, 0x616bffd3, 0x166ccf45]
  const ROWE: seq<bv32> := [
    0xa00ae278, 0xd70dd2ee, 0x4e048354, 0x3903b3c2, 0xa7672661, 0xd06016f7, 0x4969474d, 0x3e6e77db,
    0xaed16a4a, 0xd9d65adc, 0x40df0b66, 0x37d83bf0, 0xa9bcae53, 0xdebb9ec5, 0x47b2cf7f, 0x30b5ffe9]
  const ROWF: seq<bv32> := [
    0xbdbdf21c, 0xcabac28a, 0x53b39330, 0x24b4a3a6, 0xbad03605, 0xcdd70693, 0x54de5729, 0x23d967bf,
    0xb3667a2e, 0xc4614ab8, 0x5d681b02, 0x2a6f2b94, 0xb40bbe37, 0xc30c8ea1, 0x5a05df1b, 0x2d02ef8d]

  function Row(r: int): seq<bv32>
    requires 0 <= r < 16
  {
    match r
    case 0 => ROW0 case 1 => ROW1 case 2 => ROW2 case 3 => ROW3
    case 4 => ROW4 case 5 => ROW5 case 6 => ROW6 case 7 => ROW7
    case 8 => ROW8 case 9 => ROW9 case 10 => ROWA case 11 => ROWB
    case 12 => ROWC case 13 => ROWD case 14 => ROWE case _ => ROWF
  }

  lemma RowShape(r: int)
    requires 0 <= r < 16
    ensures |Row(r)| == 16
  {
  }

  function Table(index: int): bv32
    requires 0 <= index < 256
  {
    RowShape(index / 16);
    Row(index / 16)[index % 16]
  }

  // --- Sixteen rows out of eight words ---

  /** What the shift register makes of the input bytes 1, 2, 4, ..., 0x80. */
  const BASIS: seq<bv32> := [0x77073096, 0xee0e612c, 0x076dc419, 0x0edb8832,
                             0x1db71064, 0x3b6e20c8, 0x76dc4190, POLY]

  function Chosen(bit: bool, w: bv32): bv32 {
    if bit then w else 0
  }

  /** The words of the basis picked out by `bits`, from the `k`th on. */
  function Mix(k: nat, bits: Bits): bv32
    requires k <= 8 && |bits| == 8
    decreases 8 - k
  {
    if k == 8 then 0 else Chosen(bits[k], BASIS[k]) ^ Mix(k + 1, bits)
  }

  /** The contribution of the low four bits of an index ... */
  function LowOf(b0: bool, b1: bool, b2: bool, b3: bool): bv32 {
    Chosen(b0, 0x77073096) ^ Chosen(b1, 0xee0e612c) ^ Chosen(b2, 0x076dc419) ^ Chosen(b3, 0x0edb8832)
  }

  /** ... and of the high four bits: row 0 and the first column of the table. */
  function HighOf(b4: bool, b5: bool, b6: bool, b7: bool): bv32 {
    Chosen(b4, 0x1db71064) ^ Chosen(b5, 0x3b6e20c8) ^ Chosen(b6, 0x76dc4190) ^ Chosen(b7, POLY)
  }

  function Low(n: bv32): bv32 {
    LowOf(n & 1 != 0, n & 2 != 0, n & 4 != 0, n & 8 != 0)
  }

  function High(n: bv32): bv32 {
    HighOf(n & 1 != 0, n & 2 != 0, n & 4 != 0, n & 8 != 0)
  }

  lemma Rows0(r: int, n: bv32)
    requires 0 <= r < 4 && n < 16
    ensures n as int < 16 && |Row(r)| == 16
    ensures Row(r)[n as int] == Row(r)[0] ^ Low(n)
  {
  }

  lemma Rows4(r: int, n: bv32)
    requires 4 <= r < 8 && n < 16
    ensures n as int < 16 && |Row(r)| == 16
    ensures Row(r)[n as int] == Row(r)[0] ^ Low(n)
  {
  }

  lemma Rows8(r: int, n: bv32)
    requires 8 <= r < 12 && n < 16
    ensures n as int < 16 && |Row(r)| == 16
    ensures Row(r)[n as int] == Row(r)[0] ^ Low(n)
  {
  }

  lemma RowsC(r: int, n: bv32)
    requires 12 <= r < 16 && n < 16
    ensures n as int < 16 && |Row(r)| == 16
    ensures Row(r)[n as int] == Row(r)[0] ^ Low(n)
  {
  }

  lemma FirstColumn(n: bv32)
    requires n < 16
    ensures n as int < 16 && |Row(n as int)| == 16
    ensures Row(n as int)[0] == High(n)
  {
  }

  lemma RowSplits(r: int, n: bv32)
    requires 0 <= r < 16 && n < 16
    ensures n as int < 16 && |Row(r)| == 16
    ensures Row(r)[n as int] == Row(r)[0] ^ Low(n)
  {
    if r < 4 { Rows0(r, n); } else if r < 8 { Rows4(r, n); } else if r < 12 { Rows8(r, n); } else { RowsC(r, n); }
  }

  lemma IndexSplits(x: bv32)
    requires x < 256
    ensures x as int < 256
    ensures (x >> 4) as int == (x as int) / 16 && (x & 0xF) as int == (x as int) % 16
  {
  }

  lemma TableSplits(x: bv32)
    requires x < 256
    ensures x as int < 256
    ensures Table(x as int) == High(x >> 4) ^ Low(x & 0xF)
  {
    IndexSplits(x);
    RowSplits(x as int / 16, x & 0xF);
    FirstColumn(x >> 4);
  }

  lemma BasisStep(k: nat)
    requires k < 7
    ensures BASIS[k] == (BASIS[k + 1] >> 1) ^ Chosen(BASIS[k + 1] & 1 == 1, POLY)
  {
  }

  lemma BitStepRegister(c: bv32, d: bv32)
    requires d == (c >> 1) ^ Chosen(c & 1 == 1, POLY)
    ensures WordBits(d) == FeedBit(WordBits(c), false)
  {
    var shifted, feedback := c >> 1, Chosen(c & 1 == 1, POLY);
    assert Shift(c, 1) == shifted;
    WordBitsShift(c, 1);
    WordBitsXor(shifted, feedback, d);
    BitAtZero(c);
    GeneratorWord();
    ChosenRegister(c & 1 == 1, POLY, 0);
  }

  lemma FeedOne(r: Register, bit: bool)
    ensures Feed(r, [bit]) == FeedBit(r, bit)
  {
    assert [bit][1..] == [];
  }

  lemma BasisStepRegister(k: nat)
    requires k < 7
    ensures WordBits(BASIS[k]) == FeedBit(WordBits(BASIS[k + 1]), false)
  {
    hide WordBits, FeedBit;
    BasisStep(k);
    BitStepRegister(BASIS[k + 1], BASIS[k]);
  }

  lemma GeneratorOnce()
    ensures WordBits(BASIS[7]) == Feed(Generator(), Zeros(0))
  {
    GeneratorWord();
  }

  lemma {:induction false} BasisRegister(k: nat)
    requires k < 8
    ensures WordBits(BASIS[k]) == Feed(Generator(), Zeros(7 - k))
    decreases 7 - k
  {
    hide WordBits, Generator, FeedBit, Feed;
    if k == 7 {
      GeneratorOnce();
    } else {
      BasisRegister(k + 1);
      BasisStepRegister(k);
      FeedOne(Feed(Generator(), Zeros(6 - k)), false);
      assert Zeros(7 - k) == Zeros(6 - k) + [false];
      FeedConcat(Generator(), Zeros(6 - k), [false]);
    }
  }

  lemma {:induction false} MixRegister(k: nat, bits: Bits)
    requires k <= 8 && |bits| == 8
    ensures WordBits(Mix(k, bits)) == Feed(Zeros(32), bits[k..])
    decreases 8 - k
  {
    hide WordBits, Generator, FeedBit, Feed, Mix, Chosen;
    if k == 8 {
      MixEnd(bits);
    } else {
      MixRegister(k + 1, bits);
      MixStep(k, bits);
      FeedHead(bits, k);
      FeedSeparates(FeedBit(Zeros(32), bits[k]), bits[k + 1..]);
      BasisRegister(k);
      ChosenRegister(bits[k], BASIS[k], 7 - k);
    }
  }

  lemma MixEnd(bits: Bits)
    requires |bits| == 8
    ensures WordBits(Mix(8, bits)) == Feed(Zeros(32), bits[8..])
  {
    ZeroWord();
  }

  lemma FeedHead(bits: Bits, k: nat)
    requires k < |bits|
    ensures Feed(Zeros(32), bits[k..]) == Feed(FeedBit(Zeros(32), bits[k]), bits[k + 1..])
  {
    assert bits[k..][1..] == bits[k + 1..];
  }

  lemma MixStep(k: nat, bits: Bits)
    requires k < 8 && |bits| == 8
    ensures WordBits(Mix(k, bits)) == Xor(WordBits(Chosen(bits[k], BASIS[k])), WordBits(Mix(k + 1, bits)))
  {
    WordBitsXor(Chosen(bits[k], BASIS[k]), Mix(k + 1, bits), Mix(k, bits));
  }

  lemma ZeroWord()
    ensures WordBits(0) == Zeros(32)
  {
    forall i: nat | i < 32 ensures !BitAt(0, i) { ZeroBits(i); }
  }

  lemma ChosenRegister(bit: bool, w: bv32, n: nat)
    requires WordBits(w) == Feed(Generator(), Zeros(n))
    ensures WordBits(Chosen(bit, w)) == Feed(FeedBit(Zeros(32), bit), Zeros(n))
  {
    if bit {
      assert FeedBit(Zeros(32), true) == Generator();
    } else {
      assert FeedBit(Zeros(32), false) == Zeros(32);
      FeedZeros(n);
      ZeroWord();
    }
  }

  lemma LowNibble(x: bv32, b: Bits)
    requires x < 256 && |b| == 8
    requires b[0] == BitAt(x, 0) && b[1] == BitAt(x, 1) && b[2] == BitAt(x, 2) && b[3] == BitAt(x, 3)
    ensures Low(x & 0xF) == LowOf(b[0], b[1], b[2], b[3])
  {
    assert BitAt(x, 0) == ((x & 0xF) & 1 != 0) && BitAt(x, 1) == ((x & 0xF) & 2 != 0);
    assert BitAt(x, 2) == ((x & 0xF) & 4 != 0) && BitAt(x, 3) == ((x & 0xF) & 8 != 0);
  }

  lemma HighNibble(x: bv32, b: Bits)
    requires x < 256 && |b| == 8
    requires b[4] == BitAt(x, 4) && b[5] == BitAt(x, 5) && b[6] == BitAt(x, 6) && b[7] == BitAt(x, 7)
    ensures High(x >> 4) == HighOf(b[4], b[5], b[6], b[7])
  {
    assert BitAt(x, 4) == ((x >> 4) & 1 != 0) && BitAt(x, 5) == ((x >> 4) & 2 != 0);
    assert BitAt(x, 6) == ((x >> 4) & 4 != 0) && BitAt(x, 7) == ((x >> 4) & 8 != 0);
  }

  lemma MixHigh(b: Bits)
    requires |b| == 8
    ensures Mix(4, b) == HighOf(b[4], b[5], b[6], b[7])
  {
  }

  lemma MixUnrolled(b: Bits)
    requires |b| == 8
    ensures Mix(0, b) == Mix(4, b) ^ LowOf(b[0], b[1], b[2], b[3])
  {
  }

  lemma MixByte(b: Bits, high: bv32, low: bv32)
    requires |b| == 8
    requires high == HighOf(b[4], b[5], b[6], b[7]) && low == LowOf(b[0], b[1], b[2], b[3])
    ensures Mix(0, b) == high ^ low
  {
    MixHigh(b);
    MixUnrolled(b);
  }

  lemma Nibbles(x: bv32, b: Bits, high: bv32, low: bv32)
    requires x < 256 && b == WordBits(x)[..8]
    requires high == High(x >> 4) && low == Low(x & 0xF)
    ensures high == HighOf(b[4], b[5], b[6], b[7]) && low == LowOf(b[0], b[1], b[2], b[3])
  {
    LowNibble(x, b);
    HighNibble(x, b);
  }

  lemma EntryMix(x: bv32, entry: bv32, b: Bits, high: bv32, low: bv32)
    requires x < 256 && b == WordBits(x)[..8]
    requires high == High(x >> 4) && low == Low(x & 0xF) && entry == high ^ low
    ensures entry == Mix(0, b)
  {
    Nibbles(x, b, high, low);
    MixByte(b, high, low);
  }

  /** Every entry is what the register makes of the eight bits of its index. */
  lemma TableIsRegister(x: bv32)
    requires x < 256
    ensures x as int < 256
    ensures WordBits(Table(x as int)) == Feed(Zeros(32), WordBits(x)[..8])
  {
    TableSplits(x);
    var b := WordBits(x)[..8];
    EntryMix(x, Table(x as int), b, High(x >> 4), Low(x & 0xF));
    MixRegister(0, b);
    assert b[0..] == b;
  }
}
