/** The checksum itself (HW09-CRC32/src/crc32.h): the table-driven loop and the
    chunk loop over a file, proved against the shift register. */
module Crc32 {
  import opened ShiftRegister
  import opened Words
  import opened Crc32Table

  /** The bits of a message in the order they enter the register. */
  function MessageBits(m: seq<bv8>): (bits: Bits)
    ensures |bits| == 8 * |m|
  {
    if m == [] then [] else ByteBits(m[0]) + MessageBits(m[1..])
  }

  /** The body of the loop of `crc32`. */
  function Step(c: bv32, b: bv8): bv32 {
    var index := (c ^ (b as bv32)) & 0xFF;
    IndexInTable(index);
    Table(index as int) ^ (c >> 8)
  }

  lemma IndexInTable(index: bv32)
    requires index == index & 0xFF
    ensures index < 256 && index as int < 256
  {
  }

  lemma StepRegister(c: bv32, b: bv8)
    ensures WordBits(Step(c, b)) == Feed(WordBits(c), ByteBits(b))
  {
    var index := (c ^ (b as bv32)) & 0xFF;
    IndexInTable(index);
    IndexBits(c, b, index);
    TableIsRegister(index);
    WordBitsShift8(c);
    WordBitsXor(Table(index as int), c >> 8, Step(c, b));
    FeedSplits(WordBits(c), ByteBits(b));
    XorCommutes(WordBits(Table(index as int)), WordBits(c >> 8));
  }

  lemma XorCommutes(a: Bits, b: Bits)
    requires |a| == |b|
    ensures Xor(a, b) == Xor(b, a)
  {
  }

  function Crc(c: bv32, m: seq<bv8>): bv32
    decreases |m|
  {
    if m == [] then c else Crc(Step(c, m[0]), m[1..])
  }

  /** Table-driven equals bit-serial, for every start state and every message. */
  lemma {:induction false} CrcIsRegister(c: bv32, m: seq<bv8>)
    ensures WordBits(Crc(c, m)) == Feed(WordBits(c), MessageBits(m))
    decreases |m|
  {
    if m != [] {
      StepRegister(c, m[0]);
      CrcIsRegister(Step(c, m[0]), m[1..]);
      FeedConcat(WordBits(c), ByteBits(m[0]), MessageBits(m[1..]));
    }
  }

  lemma {:induction false} CrcConcat(c: bv32, a: seq<bv8>, b: seq<bv8>)
    ensures Crc(c, a + b) == Crc(Crc(c, a), b)
    decreases |a|
  {
    if a == [] {
      assert a + b == b;
    } else {
      assert (a + b)[1..] == a[1..] + b;
      CrcConcat(Step(c, a[0]), a[1..], b);
    }
  }

  /** `crc32`: one table lookup per byte. */
  method Crc32(start: bv32, buf: seq<bv8>) returns (crc: bv32)
    ensures crc == Crc(start, buf)
    ensures WordBits(crc) == Feed(WordBits(start), MessageBits(buf))
  {
    crc := start;
    var p := 0;
    while p < |buf|
      invariant 0 <= p <= |buf|
      invariant Crc(crc, buf[p..]) == Crc(start, buf)
    {
      assert buf[p..][1..] == buf[p + 1..];
      crc := Step(crc, buf[p]);
      p := p + 1;
    }
    CrcIsRegister(start, buf);
  }

  const BUF_SIZE: nat := 16777216

  /** The checksum of a message: all ones before, complemented after. */
  function Checksum(m: seq<bv8>): bv32 {
    Crc(0xFFFFFFFF, m) ^ 0xFFFFFFFF
  }

  /** How much of a file of `size` bytes is read when `maps` mappings succeed. */
  function Seen(size: nat, maps: nat): (n: nat)
    ensures n <= size
  {
    if size < maps * BUF_SIZE then size else maps * BUF_SIZE
  }

  /** The register holds what the first `n` bytes of the file leave in it. */
  ghost predicate AfterPrefix(crc: bv32, file: seq<bv8>, n: nat)
    requires n <= |file|
  {
    WordBits(crc) == Feed(WordBits(0xFFFFFFFF), MessageBits(file[..n]))
  }

  lemma NothingMapped(file: seq<bv8>)
    ensures AfterPrefix(0xFFFFFFFF, file, Seen(|file|, 0))
  {
    assert file[..0] == [];
  }

  /** One more mapping shows the file up to the next boundary or its end; behind the
      end further mappings show nothing new. */
  lemma NextSeen(size: nat, mapped: nat, left: nat)
    ensures mapped * BUF_SIZE <= size ==> Seen(size, mapped) == mapped * BUF_SIZE
    ensures mapped * BUF_SIZE <= size ==>
              Seen(size, mapped + 1) == if size - mapped * BUF_SIZE > BUF_SIZE then (mapped + 1) * BUF_SIZE else size
    ensures mapped * BUF_SIZE > size ==> Seen(size, mapped) == Seen(size, mapped + left) == size
  {
  }

  /** A mapping shows at most 16777216 bytes, and together they show all of a file up to
      that many bytes for each. */
  lemma SeenBytes(size: nat, maps: nat)
    ensures size <= 16777216 * maps ==> Seen(size, maps) == size
    ensures size > 16777216 * maps ==> Seen(size, maps) == 16777216 * maps
  {
  }

  lemma PrefixExtends(crc: bv32, next: bv32, file: seq<bv8>, i: nat, j: nat)
    requires i <= j <= |file| && AfterPrefix(crc, file, i)
    requires WordBits(next) == Feed(WordBits(crc), MessageBits(file[i..j]))
    ensures AfterPrefix(next, file, j)
  {
    assert file[..j] == file[..i] + file[i..j];
    MessageBitsConcat(file[..i], file[i..j]);
    FeedConcat(WordBits(0xFFFFFFFF), MessageBits(file[..i]), MessageBits(file[i..j]));
  }

  lemma PrefixChecksum(crc: bv32, file: seq<bv8>, n: nat)
    requires n <= |file| && AfterPrefix(crc, file, n)
    ensures crc ^ 0xFFFFFFFF == Checksum(file[..n])
  {
    CrcIsRegister(0xFFFFFFFF, file[..n]);
    WordBitsInjective(crc, Crc(0xFFFFFFFF, file[..n]));
  }

  /** `get_crc32`: the file is mapped BUF_SIZE bytes at a time; `maps` is the
      number of mappings that succeed before one fails. The chunk boundaries leave
      no trace, and a failed mapping ends the message early without a report. */
  method GetCrc32(isOpen: bool, file: seq<bv8>, maps: nat) returns (result: bv32)
    ensures !isOpen ==> result == 0
    ensures isOpen ==> result == Checksum(file[..Seen(|file|, maps)])
  {
    hide AfterPrefix, Checksum, Crc, WordBits, MessageBits, Seen;
    if !isOpen {
      return 0;
    }
    var offset, crc := 0, 0xFFFFFFFF;
    NothingMapped(file);
    var left: nat := maps;
    ghost var mapped: nat := 0;
    while true
      invariant mapped + left == maps && offset == mapped * BUF_SIZE
      invariant AfterPrefix(crc, file, Seen(|file|, mapped))
      decreases left
    {
      NextSeen(|file|, mapped, left);
      if offset > |file| {
        break;
      }
      if left == 0 {
        break;
      }
      var size := |file| - offset;
      if size > BUF_SIZE {
        size := BUF_SIZE;
      }
      var chunk := file[offset..offset + size];
      var next := Crc32(crc, chunk);
      PrefixExtends(crc, next, file, offset, offset + size);
      crc := next;
      offset := offset + BUF_SIZE;
      mapped, left := mapped + 1, left - 1;
    }
    PrefixChecksum(crc, file, Seen(|file|, maps));
    result := crc ^ 0xFFFFFFFF;
  }

  // --- What the checksum detects ---

  lemma {:induction false} MessageBitsConcat(a: seq<bv8>, b: seq<bv8>)
    ensures MessageBits(a + b) == MessageBits(a) + MessageBits(b)
  {
    if a == [] {
      assert a + b == b;
    } else {
      assert (a + b)[1..] == a[1..] + b;
      MessageBitsConcat(a[1..], b);
    }
  }

  lemma {:induction false} MessageBitsInjective(a: seq<bv8>, b: seq<bv8>)
    requires |a| == |b| && MessageBits(a) == MessageBits(b)
    ensures a == b
  {
    if a != [] {
      assert ByteBits(a[0]) == MessageBits(a)[..8] && ByteBits(b[0]) == MessageBits(b)[..8];
      ByteBitsInjective(a[0], b[0]);
      assert MessageBits(a[1..]) == MessageBits(a)[8..] && MessageBits(b[1..]) == MessageBits(b)[8..];
      MessageBitsInjective(a[1..], b[1..]);
      assert a == [a[0]] + a[1..] && b == [b[0]] + b[1..];
    }
  }

  /** Burst detection: two different messages of the same length whose bits differ
      only inside a window of 32 consecutive bits never collide, from any state. */
  lemma BurstErrorDetected(c: bv32, a: seq<bv8>, b: seq<bv8>, start: nat)
    requires |a| == |b| && a != b
    requires forall i :: 0 <= i < 8 * |a| && !(start <= i < start + 32)
                         ==> MessageBits(a)[i] == MessageBits(b)[i]
    ensures Crc(c, a) != Crc(c, b)
  {
    if MessageBits(a) == MessageBits(b) {
      MessageBitsInjective(a, b);
      assert false;
    }
    BurstDetected(WordBits(c), MessageBits(a), MessageBits(b), start);
    CrcIsRegister(c, a);
    CrcIsRegister(c, b);
  }

  /** Exactly which errors go unnoticed: two messages of the same length have the same
      value, from whichever state, if and only if the polynomial of the bits in which
      they differ, shifted by 32, is a multiple of the generator. */
  lemma ErrorUndetectedExactly(c: bv32, a: seq<bv8>, b: seq<bv8>)
    requires |a| == |b|
    ensures Crc(c, a) == Crc(c, b)
       <==> exists q :: |q| == 8 * |a| && TimesGenerator(q) == Xor(MessageBits(a), MessageBits(b)) + Zeros(32)
  {
    hide Crc, WordBits, MessageBits, Feed, TimesGenerator;
    CrcIsRegister(c, a);
    CrcIsRegister(c, b);
    UndetectedExactly(WordBits(c), MessageBits(a), MessageBits(b));
    if WordBits(Crc(c, a)) == WordBits(Crc(c, b)) {
      WordBitsInjective(Crc(c, a), Crc(c, b));
    }
  }

  /** Different states stay different while the same bytes go by: an error seen
      once is never forgotten. */
  lemma CrcInjective(c: bv32, d: bv32, m: seq<bv8>)
    requires c != d
    ensures Crc(c, m) != Crc(d, m)
  {
    if WordBits(c) == WordBits(d) {
      WordBitsInjective(c, d);
      assert false;
    }
    FeedInjective(WordBits(c), WordBits(d), MessageBits(m));
    CrcIsRegister(c, m);
    CrcIsRegister(d, m);
  }

  /** The register after a message is the remainder of a polynomial division, and
      no other word is: message * x^32 + start * x^n modulo the generator. */
  lemma CrcIsPolynomialRemainder(c: bv32, m: seq<bv8>, r: bv32)
    ensures r == Crc(c, m)
       <==> exists q :: IsRemainder(Dividend(WordBits(c), MessageBits(m)), q, WordBits(r))
  {
    var p := Dividend(WordBits(c), MessageBits(m));
    RegisterIsRemainder(WordBits(c), MessageBits(m));
    CrcIsRegister(c, m);
    var q := Feedback(WordBits(c), MessageBits(m));
    assert IsRemainder(p, q, WordBits(Crc(c, m)));
    if q' :| IsRemainder(p, q', WordBits(r)) {
      RemainderUnique(p, q, WordBits(Crc(c, m)), q', WordBits(r));
      WordBitsInjective(r, Crc(c, m));
    }
  }

  function BytesOf(bits: Bits): seq<bv8>
    requires |bits| == 32
  {
    [ByteOf(bits[..8]), ByteOf(bits[8..16]), ByteOf(bits[16..24]), ByteOf(bits[24..])]
  }

  lemma FourByteBits(b0: bv8, b1: bv8, b2: bv8, b3: bv8)
    ensures MessageBits([b0, b1, b2, b3]) == ByteBits(b0) + ByteBits(b1) + ByteBits(b2) + ByteBits(b3)
  {
    MessageBitsConcat([b0, b1], [b2, b3]);
    MessageBitsConcat([b0], [b1]);
    MessageBitsConcat([b2], [b3]);
    assert [b0, b1, b2, b3] == [b0, b1] + [b2, b3] && [b0, b1] == [b0] + [b1] && [b2, b3] == [b2] + [b3];
    OneByteBits(b0);
    OneByteBits(b1);
    OneByteBits(b2);
    OneByteBits(b3);
  }

  lemma OneByteBits(b: bv8)
    ensures MessageBits([b]) == ByteBits(b)
  {
  }

  lemma BytesOfBits(bits: Bits)
    requires |bits| == 32
    ensures MessageBits(BytesOf(bits)) == bits
  {
    FourByteBits(ByteOf(bits[..8]), ByteOf(bits[8..16]), ByteOf(bits[16..24]), ByteOf(bits[24..]));
    ByteOfBits(bits[..8]);
    ByteOfBits(bits[8..16]);
    ByteOfBits(bits[16..24]);
    ByteOfBits(bits[24..]);
  }

  /** From every state every state is reached by exactly one four-byte ending. */
  function Ending(c: bv32, target: bv32): (bytes: seq<bv8>)
    ensures |bytes| == 4 && Crc(c, bytes) == target
  {
    var bits := Route(WordBits(c), WordBits(target));
    var bytes := BytesOf(bits);
    assert Crc(c, bytes) == target by {
      BytesOfBits(bits);
      CrcIsRegister(c, bytes);
      WordBitsInjective(Crc(c, bytes), target);
    }
    bytes
  }

  lemma EndingUnique(c: bv32, a: seq<bv8>, b: seq<bv8>)
    requires |a| == |b| <= 4 && Crc(c, a) == Crc(c, b)
    ensures a == b
  {
    if a != b {
      BurstErrorDetected(c, a, b, 0);
    }
  }

  /** A message continued by four bytes has checksum 0 for exactly one ending. */
  lemma ZeroEnding(m: seq<bv8>, ending: seq<bv8>)
    requires |ending| == 4
    ensures Checksum(m + ending) == 0 <==> ending == Ending(Crc(0xFFFFFFFF, m), 0xFFFFFFFF)
  {
    var c := Crc(0xFFFFFFFF, m);
    CrcConcat(0xFFFFFFFF, m, ending);
    ComplementZero(Crc(c, ending));
    if Crc(c, ending) == 0xFFFFFFFF {
      EndingUnique(c, ending, Ending(c, 0xFFFFFFFF));
    }
  }

  lemma ReturnSteps()
    ensures Step(0xFFFFFFFF, 0x9D) == 0xA343FF8B && Step(0xA343FF8B, 0x0A) == 0x9A1CF049
    ensures Step(0x9A1CF049, 0xD9) == 0xF0958FB4 && Step(0xF0958FB4, 0x6D) == 0xFFFFFFFF
  {
    StepLookup(0xFFFFFFFF, 0x9D, 0x62);
    StepLookup(0xA343FF8B, 0x0A, 0x81);
    StepLookup(0x9A1CF049, 0xD9, 0x90);
    StepLookup(0xF0958FB4, 0x6D, 0xD9);
  }

  lemma DetourSteps()
    ensures Step(0xFFFFFFFF, 0x7E) == 0x9A404C49 && Step(0x9A404C49, 0xD9) == 0xF095D308
    ensures Step(0xF095D308, 0xD1) == 0xFFFFFFA3 && Step(0xFFFFFFA3, 0xA3) == 0x00FFFFFF
    ensures Step(0xFFFFFFFF, 0xFF) == 0x00FFFFFF
  {
    StepLookup(0xFFFFFFFF, 0x7E, 0x81);
    StepLookup(0x9A404C49, 0xD9, 0x90);
    StepLookup(0xF095D308, 0xD1, 0xD9);
    StepLookup(0xFFFFFFA3, 0xA3, 0);
    StepLookup(0xFFFFFFFF, 0xFF, 0);
  }

  lemma DigitSteps()
    ensures Step(0xFFFFFFFF, 0x31) == 0x7C231048 && Step(0x7C231048, 0x32) == 0xB0ACBB32
    ensures Step(0xB0ACBB32, 0x33) == 0x77B79C2D && Step(0x77B79C2D, 0x34) == 0x641C1F5C
  {
    StepLookup(0xFFFFFFFF, 0x31, 0xCE);
    StepLookup(0x7C231048, 0x32, 0x7A);
    StepLookup(0xB0ACBB32, 0x33, 0x01);
    StepLookup(0x77B79C2D, 0x34, 0x19);
  }

  lemma MoreDigitSteps()
    ensures Step(0x641C1F5C, 0x35) == 0x340AC5E3 && Step(0x340AC5E3, 0x36) == 0xF68D2C9E
    ensures Step(0xF68D2C9E, 0x37) == 0xAFFC9660 && Step(0xAFFC9660, 0x38) == 0x651F2550
    ensures Step(0x651F2550, 0x39) == 0x340BC6D9
  {
    StepLookup(0x641C1F5C, 0x35, 0x69);
    StepLookup(0x340AC5E3, 0x36, 0xD5);
    StepLookup(0xF68D2C9E, 0x37, 0xA9);
    StepLookup(0xAFFC9660, 0x38, 0x58);
    StepLookup(0x651F2550, 0x39, 0x69);
  }

  /** The check value of this CRC: the checksum of the digits 1 to 9. */
  lemma CheckValue()
    ensures Checksum([0x31, 0x32, 0x33, 0x34] + ([0x35, 0x36, 0x37, 0x38] + [0x39])) == 0xCBF43926
  {
    var a, b, c := [0x31, 0x32, 0x33, 0x34], [0x35, 0x36, 0x37, 0x38], [0x39];
    hide Step, Crc;
    DigitSteps();
    MoreDigitSteps();
    CrcConcat(0xFFFFFFFF, a, b + c);
    CrcFour(0xFFFFFFFF, 0x31, 0x32, 0x33, 0x34);
    CrcConcat(0x641C1F5C, b, c);
    CrcFour(0x641C1F5C, 0x35, 0x36, 0x37, 0x38);
    CrcOne(0x651F2550, 0x39);
  }

  lemma CrcOne(c: bv32, b: bv8)
    ensures Crc(c, [b]) == Step(c, b)
  {
    assert [b][1..] == [];
  }

  /** The only four bytes that lead from all ones back to all ones ... */
  lemma OnlyReturn(m: seq<bv8>)
    requires |m| == 4 && Crc(0xFFFFFFFF, m) == 0xFFFFFFFF
    ensures m == [0x9D, 0x0A, 0xD9, 0x6D]
  {
    hide Step, Crc;
    ReturnSteps();
    CrcFour(0xFFFFFFFF, 0x9D, 0x0A, 0xD9, 0x6D);
    EndingUnique(0xFFFFFFFF, m, [0x9D, 0x0A, 0xD9, 0x6D]);
  }

  /** ... and the only four that lead where one byte 0xFF leads from all ones. */
  lemma OnlyDetour(m: seq<bv8>)
    requires |m| == 4 && Crc(0xFFFFFFFF, m) == Step(0xFFFFFFFF, 0xFF)
    ensures m == [0x7E, 0xD9, 0xD1, 0xA3]
  {
    hide Step, Crc;
    DetourSteps();
    CrcFour(0xFFFFFFFF, 0x7E, 0xD9, 0xD1, 0xA3);
    EndingUnique(0xFFFFFFFF, m, [0x7E, 0xD9, 0xD1, 0xA3]);
  }

  /** No message of one, two or three bytes leads from all ones back to all ones: it
      could be prolonged to a second message of four bytes with the same result. */
  lemma ShortMessageMoves(m: seq<bv8>)
    requires 1 <= |m| <= 3
    ensures Crc(0xFFFFFFFF, m) != 0xFFFFFFFF
  {
    hide Step, Crc;
    if Crc(0xFFFFFFFF, m) == 0xFFFFFFFF {
      if |m| == 3 {
        CrcConcat(0xFFFFFFFF, m, [0xFF]);
        OneStep(0xFFFFFFFF, 0xFF);
        var longer := m + [0xFF];
        assert longer[3] == 0xFF;
        OnlyDetour(longer);
      } else {
        var twice := m + m;
        CrcConcat(0xFFFFFFFF, m, m);
        CrcConcat(0xFFFFFFFF, twice, twice);
        var longer := if |m| == 2 then twice else twice + twice;
        assert longer[0] == longer[2];
        OnlyReturn(longer);
      }
    }
  }

  lemma OneStep(c: bv32, b: bv8)
    ensures Crc(c, [b]) == Step(c, b)
  {
    assert [b][1..] == [];
  }

  /** The message is empty, or its last four bytes are the one ending that takes what
      stands before them to all ones. */
  predicate EndsInOnes(m: seq<bv8>) {
    m == [] || (|m| >= 4 && m[|m| - 4..] == Ending(Crc(0xFFFFFFFF, m[..|m| - 4]), 0xFFFFFFFF))
  }

  lemma LongEndsInOnes(m: seq<bv8>)
    requires |m| >= 4
    ensures Checksum(m) == 0 <==> EndsInOnes(m)
  {
    hide Ending, Crc, Checksum;
    var before, ending := m[..|m| - 4], m[|m| - 4..];
    assert m == before + ending;
    ZeroEnding(before, ending);
  }

  lemma ShortEndsInOnes(m: seq<bv8>)
    requires |m| < 4
    ensures Checksum(m) == 0 <==> EndsInOnes(m)
  {
    hide Ending, Crc;
    ComplementZero(Crc(0xFFFFFFFF, m));
    if m == [] {
      EmptyChecksum();
    } else {
      ShortMessageMoves(m);
    }
  }

  /** Which messages have checksum 0, for all messages. */
  lemma ZeroChecksum(m: seq<bv8>)
    ensures Checksum(m) == 0 <==> EndsInOnes(m)
  {
    hide Ending, Crc, Checksum, EndsInOnes;
    if |m| < 4 {
      ShortEndsInOnes(m);
    } else {
      LongEndsInOnes(m);
    }
  }

  lemma EmptyChecksum()
    ensures Checksum([]) == 0
  {
  }

  /** `main` takes the result 0 for a failure: it reports the checksum of what could be
      mapped of a file unless that part is empty or ends in those four bytes. */
  method ReportChecksum(isOpen: bool, file: seq<bv8>, maps: nat) returns (reported: bool, result: bv32)
    ensures reported <==> isOpen && !EndsInOnes(file[..Seen(|file|, maps)])
    ensures reported ==> result == Checksum(file[..Seen(|file|, maps)])
  {
    hide Checksum, EndsInOnes, Seen;
    result := GetCrc32(isOpen, file, maps);
    ZeroChecksum(file[..Seen(|file|, maps)]);
    reported := result != 0;
  }

  lemma ComplementZero(c: bv32)
    ensures c ^ 0xFFFFFFFF == 0 <==> c == 0xFFFFFFFF
  {
  }

  // --- Checking a message against its own checksum ---

  /** The four bytes of a word, low byte first. */
  function LittleEndian(w: bv32): (bytes: seq<bv8>)
    ensures |bytes| == 4
  {
    BytesOf(WordBits(w))
  }

  lemma Residue()
    ensures Crc(0, [0xFF, 0xFF, 0xFF, 0xFF]) == 0xDEBB20E3
  {
    ResidueSteps();
    CrcFour(0, 0xFF, 0xFF, 0xFF, 0xFF);
  }

  lemma ResidueSteps()
    ensures Step(0, 0xFF) == 0x2d02ef8d && Step(0x2d02ef8d, 0xFF) == 0xbe2612ff
    ensures Step(0xbe2612ff, 0xFF) == 0x00be2612 && Step(0x00be2612, 0xFF) == 0xdebb20e3
  {
    StepLookup(0, 0xFF, 255);
    StepLookup(0x2d02ef8d, 0xFF, 0x72);
    StepLookup(0xbe2612ff, 0xFF, 0);
    StepLookup(0x00be2612, 0xFF, 0xed);
  }

  lemma StepLookup(c: bv32, b: bv8, index: int)
    requires 0 <= index < 256
    requires ((c ^ (b as bv32)) & 0xFF) as int == index
    ensures Step(c, b) == Table(index) ^ (c >> 8)
  {
  }

  lemma CrcFour(c: bv32, b0: bv8, b1: bv8, b2: bv8, b3: bv8)
    ensures Crc(c, [b0, b1, b2, b3]) == Step(Step(Step(Step(c, b0), b1), b2), b3)
  {
    var c1 := Step(c, b0);
    var c2 := Step(c1, b1);
    var c3 := Step(c2, b2);
    assert [b0, b1, b2, b3][1..] == [b1, b2, b3] && [b1, b2, b3][1..] == [b2, b3];
    assert [b2, b3][1..] == [b3] && [b3][1..] == [];
    assert Crc(c3, [b3]) == Crc(Step(c3, b3), []);
    assert Crc(c2, [b2, b3]) == Crc(c3, [b3]);
    assert Crc(c1, [b1, b2, b3]) == Crc(c2, [b2, b3]);
  }

  lemma AllOnes()
    ensures MessageBits([0xFF, 0xFF, 0xFF, 0xFF]) == WordBits(0xFFFFFFFF)
  {
    FourByteBits(0xFF, 0xFF, 0xFF, 0xFF);
    forall i: nat | i < 8 ensures BitAt(0xFF, i) { LowByteMask(i); }
    forall i: nat | i < 32 ensures BitAt(0xFFFFFFFF, i) { OnesBelow(0xFFFFFFFF, i); }
  }

  lemma OnesBelow(c: bv32, i: nat)
    requires i < 32
    requires c == 0xFFFFFFFF
    ensures BitAt(c, i)
  {
    BitAtAnd(c, 0xFF, 0xFF, i % 8);
    BitAtAnd(c >> 8, 0xFF, 0xFF, i % 8);
    BitAtAnd(c >> 16, 0xFF, 0xFF, i % 8);
    BitAtAnd(c >> 24, 0xFF, 0xFF, i % 8);
    LowByteMask(i % 8);
    ShiftByte(c);
    ShiftByte(c >> 8);
    ShiftByte(c >> 16);
    FourBytes(c);
    ShiftTwice(c, 8, 8);
    ShiftTwice(c, 16, 8);
    BitAtShift(c, 8 * (i / 8), i % 8);
  }

  lemma TrailerOf(c: bv32, w: bv32, bytes: seq<bv8>, d: bv32)
    requires WordBits(w) == Xor(WordBits(c), WordBits(0xFFFFFFFF))
    requires MessageBits(bytes) == WordBits(w) && d == Crc(c, bytes)
    ensures WordBits(d) == Feed(Zeros(32), WordBits(0xFFFFFFFF))
  {
    var all := WordBits(0xFFFFFFFF);
    CrcIsRegister(c, bytes);
    FeedWord(WordBits(c), WordBits(w));
    XorCancels(WordBits(c), all);
  }

  lemma ResidueRegister(d: bv32)
    requires WordBits(d) == Feed(Zeros(32), WordBits(0xFFFFFFFF))
    ensures d == 0xDEBB20E3
  {
    var ones := [0xFF, 0xFF, 0xFF, 0xFF];
    AllOnes();
    Residue();
    CrcIsRegister(0, ones);
    ZeroWord();
    WordBitsInjective(d, 0xDEBB20E3);
  }

  lemma ChecksumTrailer(c: bv32, w: bv32)
    requires w == c ^ 0xFFFFFFFF
    ensures Crc(c, LittleEndian(w)) == 0xDEBB20E3
  {
    WordBitsXor(c, 0xFFFFFFFF, w);
    BytesOfBits(WordBits(w));
    TrailerOf(c, w, LittleEndian(w), Crc(c, LittleEndian(w)));
    ResidueRegister(Crc(c, LittleEndian(w)));
  }

  /** A message followed by four more bytes leaves the register at the constant
      0xDEBB20E3 if and only if the four bytes are the message's checksum. */
  lemma TrailerCheck(m: seq<bv8>, trailer: seq<bv8>)
    requires |trailer| == 4
    ensures Crc(0xFFFFFFFF, m + trailer) == 0xDEBB20E3 <==> trailer == LittleEndian(Checksum(m))
  {
    CrcConcat(0xFFFFFFFF, m, trailer);
    TrailerDecides(Crc(0xFFFFFFFF, m), Checksum(m), trailer);
  }

  lemma TrailerDecides(c: bv32, w: bv32, trailer: seq<bv8>)
    requires |trailer| == 4 && w == c ^ 0xFFFFFFFF
    ensures Crc(c, trailer) == 0xDEBB20E3 <==> trailer == LittleEndian(w)
  {
    ChecksumTrailer(c, w);
    if Crc(c, trailer) == 0xDEBB20E3 {
      EndingUnique(c, trailer, LittleEndian(w));
    }
  }
}
