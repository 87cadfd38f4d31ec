/** Writing an archive and reading it back. */
module ZipRoundTrip {
  import opened Basics
  import opened ZipFormat

  // --- Little-endian numbers ---

  function Byte0(x: nat): Byte { x % 0x100 }
  function Byte1(x: nat): Byte { x / 0x100 % 0x100 }
  function Byte2(x: nat): Byte { x / 0x100 / 0x100 % 0x100 }
  function Byte3(x: nat): Byte { x / 0x100 / 0x100 / 0x100 % 0x100 }

  // --- Members and their records ---

  /** A member with everything that is written about it. */
  datatype Entry = Entry(madeByVer: nat, extractVer: nat, gpFlag: nat, compMethod: nat, modTime: nat, modDate: nat,
                         crc32: nat, uncompSize: nat, intAttrs: nat, extAttrs: nat,
                         name: Bytes, extra: Bytes, comment: Bytes, localExtra: Bytes, data: Bytes, disk: nat)

  /** What the format can express, whether the reader supports it or not. */
  predicate EntryFits(e: Entry) {
    && e.madeByVer <= 0xFFFF && e.extractVer <= 0xFFFF && e.gpFlag <= 0xFFFF && e.modTime <= 0xFFFF && e.modDate <= 0xFFFF
    && e.crc32 < 0x1_0000_0000 && e.uncompSize < 0x1_0000_0000 && e.intAttrs <= 0xFFFF && e.extAttrs < 0x1_0000_0000
    && |e.name| <= 0xFFFF && |e.extra| <= 0xFFFF && |e.comment| <= 0xFFFF && |e.localExtra| <= 0xFFFF
    && |e.data| < 0x1_0000_0000 && e.compMethod <= 0xFFFF && e.disk <= 0xFFFF
  }

  predicate EntrySupported(e: Entry) {
    Supported(e.gpFlag, e.compMethod, |e.data|, e.uncompSize, e.disk, e.name)
  }

  function CfhOf(e: Entry, lfhOffset: nat): Cfh {
    Cfh(e.madeByVer, e.extractVer, e.gpFlag, e.compMethod, e.modTime, e.modDate, e.crc32, |e.data|, e.uncompSize,
        |e.name|, |e.extra|, |e.comment|, e.disk, e.intAttrs, e.extAttrs, lfhOffset)
  }

  function LfhOf(e: Entry): Lfh {
    Lfh(e.extractVer, e.gpFlag, e.compMethod, e.modTime, e.modDate, e.crc32, |e.data|, e.uncompSize,
        |e.name|, |e.localExtra|)
  }

  predicate CfhFits(h: Cfh) {
    && h.madeByVer <= 0xFFFF && h.extractVer <= 0xFFFF && h.gpFlag <= 0xFFFF && h.compMethod <= 0xFFFF
    && h.modTime <= 0xFFFF && h.modDate <= 0xFFFF && h.crc32 < 0x1_0000_0000 && h.compSize < 0x1_0000_0000
    && h.uncompSize < 0x1_0000_0000 && h.nameLen <= 0xFFFF && h.extraLen <= 0xFFFF && h.commentLen <= 0xFFFF
    && h.diskNbrStart <= 0xFFFF && h.intAttrs <= 0xFFFF && h.extAttrs < 0x1_0000_0000 && h.lfhOffset < 0x1_0000_0000
  }

  predicate LfhFits(h: Lfh) {
    && h.extractVer <= 0xFFFF && h.gpFlag <= 0xFFFF && h.compMethod <= 0xFFFF && h.modTime <= 0xFFFF
    && h.modDate <= 0xFFFF && h.crc32 < 0x1_0000_0000 && h.compSize < 0x1_0000_0000 && h.uncompSize < 0x1_0000_0000
    && h.nameLen <= 0xFFFF && h.extraLen <= 0xFFFF
  }

  predicate EocdrFits(r: Eocdr) {
    && r.diskNbr <= 0xFFFF && r.cdStartDisk <= 0xFFFF && r.diskCdEntries <= 0xFFFF && r.cdEntries <= 0xFFFF
    && r.cdSize < 0x1_0000_0000 && r.cdOffset < 0x1_0000_0000 && r.commentLen <= 0xFFFF
  }

  /** The checksum and the two sizes, which both headers hold. */
  function SizeBytes(crc32: nat, compSize: nat, uncompSize: nat): (b: Bytes)
    ensures |b| == 12
  {
    [Byte0(crc32), Byte1(crc32), Byte2(crc32), Byte3(crc32),
     Byte0(compSize), Byte1(compSize), Byte2(compSize), Byte3(compSize),
     Byte0(uncompSize), Byte1(uncompSize), Byte2(uncompSize), Byte3(uncompSize)]
  }

  function CfhBytesA(h: Cfh): (b: Bytes)
    ensures |b| == 16
  {
    [0x50, 0x4b, 1, 2, Byte0(h.madeByVer), Byte1(h.madeByVer), Byte0(h.extractVer), Byte1(h.extractVer),
     Byte0(h.gpFlag), Byte1(h.gpFlag), Byte0(h.compMethod), Byte1(h.compMethod),
     Byte0(h.modTime), Byte1(h.modTime), Byte0(h.modDate), Byte1(h.modDate)]
  }

  function CfhBytesB(h: Cfh): (b: Bytes)
    ensures |b| == 10
  {
    [Byte0(h.nameLen), Byte1(h.nameLen), Byte0(h.extraLen), Byte1(h.extraLen),
     Byte0(h.commentLen), Byte1(h.commentLen), Byte0(h.diskNbrStart), Byte1(h.diskNbrStart),
     Byte0(h.intAttrs), Byte1(h.intAttrs)]
  }

  function CfhBytesC(h: Cfh): (b: Bytes)
    ensures |b| == 8
  {
    [Byte0(h.extAttrs), Byte1(h.extAttrs), Byte2(h.extAttrs), Byte3(h.extAttrs),
     Byte0(h.lfhOffset), Byte1(h.lfhOffset), Byte2(h.lfhOffset), Byte3(h.lfhOffset)]
  }

  /** A central file header, section 4.3.12, in four pieces. */
  function CfhBytes(h: Cfh): (b: Bytes)
    ensures |b| == 46
  {
    CfhBytesA(h) + (SizeBytes(h.crc32, h.compSize, h.uncompSize) + (CfhBytesB(h) + CfhBytesC(h)))
  }

  function LfhBytesA(h: Lfh): (b: Bytes)
    ensures |b| == 14
  {
    [0x50, 0x4b, 3, 4, Byte0(h.extractVer), Byte1(h.extractVer), Byte0(h.gpFlag), Byte1(h.gpFlag),
     Byte0(h.compMethod), Byte1(h.compMethod), Byte0(h.modTime), Byte1(h.modTime), Byte0(h.modDate), Byte1(h.modDate)]
  }

  function LfhBytesB(h: Lfh): (b: Bytes)
    ensures |b| == 4
  {
    [Byte0(h.nameLen), Byte1(h.nameLen), Byte0(h.extraLen), Byte1(h.extraLen)]
  }

  /** A local file header, section 4.3.7, in three pieces. */
  function LfhBytes(h: Lfh): (b: Bytes)
    ensures |b| == 30
  {
    LfhBytesA(h) + (SizeBytes(h.crc32, h.compSize, h.uncompSize) + LfhBytesB(h))
  }

  function EocdrBytesA(h: Eocdr): (b: Bytes)
    ensures |b| == 12
  {
    [0x50, 0x4b, 5, 6, Byte0(h.diskNbr), Byte1(h.diskNbr), Byte0(h.cdStartDisk), Byte1(h.cdStartDisk),
     Byte0(h.diskCdEntries), Byte1(h.diskCdEntries), Byte0(h.cdEntries), Byte1(h.cdEntries)]
  }

  function EocdrBytesB(h: Eocdr): (b: Bytes)
    ensures |b| == 10
  {
    [Byte0(h.cdSize), Byte1(h.cdSize), Byte2(h.cdSize), Byte3(h.cdSize),
     Byte0(h.cdOffset), Byte1(h.cdOffset), Byte2(h.cdOffset), Byte3(h.cdOffset),
     Byte0(h.commentLen), Byte1(h.commentLen)]
  }

  /** An end of central directory record, section 4.3.16, in two pieces. */
  function EocdrBytes(h: Eocdr): (b: Bytes)
    ensures |b| == 22
  {
    EocdrBytesA(h) + EocdrBytesB(h)
  }

  /** The bytes b stand in src at offset o. */
  ghost predicate At(src: Bytes, o: nat, b: Bytes) {
    o + |b| <= |src| && forall i :: 0 <= i < |b| ==> src[o + i] == b[i]
  }

  lemma AtSlice(src: Bytes, o: nat, b: Bytes)
    ensures At(src, o, b) <==> o + |b| <= |src| && src[o..o + |b|] == b
  {
    if o + |b| <= |src| {
      var s := src[o..o + |b|];
      assert forall i :: 0 <= i < |b| ==> src[o + i] == s[i];
    }
  }

  lemma AtParts(src: Bytes, o: nat, a: Bytes, b: Bytes)
    ensures At(src, o, a + b) <==> At(src, o, a) && At(src, o + |a|, b)
  {
    var ab := a + b;
    if At(src, o, ab) {
      forall i | 0 <= i < |a| ensures src[o + i] == a[i] { assert ab[i] == a[i]; }
      forall i | 0 <= i < |b| ensures src[o + |a| + i] == b[i] { assert src[o + (|a| + i)] == ab[|a| + i]; }
    }
    if At(src, o, a) && At(src, o + |a|, b) {
      forall i | 0 <= i < |ab| ensures src[o + i] == ab[i] {
        if i >= |a| { assert src[(o + |a|) + (i - |a|)] == b[i - |a|]; }
      }
    }
  }

  /** Two bytes that stand in the source are read back as the number they were made of. */
  lemma SixteenBits(src: Bytes, o: nat, b: Bytes, i: nat, x: nat)
    requires At(src, o, b) && i + 2 <= |b| && b[i] == Byte0(x) && b[i + 1] == Byte1(x)
    requires x <= 0xFFFF
    ensures o + i + 2 <= |src| && Read16(src, o + i) == x
  {
    NumberInside(src, o, b, i, i + 2);
    TwoBytes(b, i);
  }

  /** So are four. */
  lemma ThirtyTwoBits(src: Bytes, o: nat, b: Bytes, i: nat, x: nat)
    requires At(src, o, b)
    requires i + 4 <= |b| && b[i] == Byte0(x) && b[i + 1] == Byte1(x) && b[i + 2] == Byte2(x) && b[i + 3] == Byte3(x)
    requires x < 0x1_0000_0000
    ensures o + i + 4 <= |src| && Read32(src, o + i) == x
  {
    hide Byte0, Byte1, Byte2, Byte3;
    NumberInside(src, o, b, i, i + 4);
    FourBytes(b, i);
    BytesSum(x);
  }

  lemma BytesSum(x: nat)
    requires x < 0x1_0000_0000
    ensures x == Byte0(x) as int + 0x100 * Byte1(x) as int + 0x1_0000 * Byte2(x) as int + 0x100_0000 * Byte3(x) as int
  {
    var q1 := x / 0x100;
    var q2 := q1 / 0x100;
    var q3 := q2 / 0x100;
    assert x == 0x100 * q1 + x % 0x100 && q1 == 0x100 * q2 + q1 % 0x100 && q2 == 0x100 * q3 + q2 % 0x100;
    assert q3 < 0x100;
  }

  lemma SignatureRead(src: Bytes, o: nat, b: Bytes, c: Byte, d: Byte)
    requires At(src, o, b) && 4 <= |b| && b[0] == 0x50 && b[1] == 0x4b && b[2] == c && b[3] == d
    ensures o + 4 <= |src| && Read32(src, o) == 0x4b50 + 0x1_0000 * c as int + 0x100_0000 * d as int
  {
    NumberInside(src, o, b, 0, 4);
    FourBytes(b, 0);
  }

  // --- Reading one record back ---

  lemma CfhReadsA(src: Bytes, o: nat, h: Cfh)
    requires CfhFits(h) && At(src, o, CfhBytesA(h))
    ensures o + 16 <= |src|
    ensures Read32(src, o) == CFH_SIGNATURE
    ensures Read16(src, o + 4) == h.madeByVer
    ensures Read16(src, o + 6) == h.extractVer
    ensures Read16(src, o + 8) == h.gpFlag
    ensures Read16(src, o + 10) == h.compMethod
    ensures Read16(src, o + 12) == h.modTime
    ensures Read16(src, o + 14) == h.modDate
  {
    var b := CfhBytesA(h);
    hide Byte0, Byte1, Byte2, Byte3, Read16, Read32, At;
    SignatureRead(src, o, b, 1, 2);
    SixteenBits(src, o, b, 4, h.madeByVer);
    SixteenBits(src, o, b, 6, h.extractVer);
    SixteenBits(src, o, b, 8, h.gpFlag);
    SixteenBits(src, o, b, 10, h.compMethod);
    SixteenBits(src, o, b, 12, h.modTime);
    SixteenBits(src, o, b, 14, h.modDate);
  }

  lemma SizesRead(src: Bytes, o: nat, crc32: nat, compSize: nat, uncompSize: nat)
    requires crc32 < 0x1_0000_0000 && compSize < 0x1_0000_0000 && uncompSize < 0x1_0000_0000
    requires At(src, o, SizeBytes(crc32, compSize, uncompSize))
    ensures o + 12 <= |src|
    ensures Read32(src, o) == crc32 && Read32(src, o + 4) == compSize && Read32(src, o + 8) == uncompSize
  {
    var b := SizeBytes(crc32, compSize, uncompSize);
    hide Byte0, Byte1, Byte2, Byte3, Read16, Read32, At;
    ThirtyTwoBits(src, o, b, 0, crc32);
    ThirtyTwoBits(src, o, b, 4, compSize);
    ThirtyTwoBits(src, o, b, 8, uncompSize);
  }

  lemma CfhReadsB(src: Bytes, o: nat, h: Cfh)
    requires CfhFits(h) && At(src, o + 28, CfhBytesB(h))
    ensures o + 38 <= |src|
    ensures Read16(src, o + 28) == h.nameLen
    ensures Read16(src, o + 30) == h.extraLen
    ensures Read16(src, o + 32) == h.commentLen
    ensures Read16(src, o + 34) == h.diskNbrStart
    ensures Read16(src, o + 36) == h.intAttrs
  {
    var b := CfhBytesB(h);
    hide Byte0, Byte1, Byte2, Byte3, Read16, Read32, At;
    SixteenBits(src, o + 28, b, 0, h.nameLen);
    SixteenBits(src, o + 28, b, 2, h.extraLen);
    SixteenBits(src, o + 28, b, 4, h.commentLen);
    SixteenBits(src, o + 28, b, 6, h.diskNbrStart);
    SixteenBits(src, o + 28, b, 8, h.intAttrs);
  }

  lemma CfhReadsC(src: Bytes, o: nat, h: Cfh)
    requires CfhFits(h) && At(src, o + 38, CfhBytesC(h))
    ensures o + 46 <= |src|
    ensures Read32(src, o + 38) == h.extAttrs
    ensures Read32(src, o + 42) == h.lfhOffset
  {
    var b := CfhBytesC(h);
    hide Byte0, Byte1, Byte2, Byte3, Read16, Read32, At;
    ThirtyTwoBits(src, o + 38, b, 0, h.extAttrs);
    ThirtyTwoBits(src, o + 38, b, 4, h.lfhOffset);
  }

  lemma CfhInside(src: Bytes, o: nat, h: Cfh)
    requires CfhFits(h) && At(src, o, CfhBytes(h))
    ensures Read32(src, o) == CFH_SIGNATURE && CfhAt(src, o) == h
  {
    hide CfhBytesA, SizeBytes, CfhBytesB, CfhBytesC, Read16, Read32, At;
    var a := CfhBytesA(h);
    var b := SizeBytes(h.crc32, h.compSize, h.uncompSize);
    var c := CfhBytesB(h);
    var d := CfhBytesC(h);
    AtParts(src, o, a, b + (c + d));
    AtParts(src, o + 16, b, c + d);
    AtParts(src, o + 28, c, d);
    CfhReadsA(src, o, h);
    SizesRead(src, o + 16, h.crc32, h.compSize, h.uncompSize);
    CfhReadsB(src, o, h);
    CfhReadsC(src, o, h);
  }

  lemma LfhReadsA(src: Bytes, o: nat, h: Lfh)
    requires LfhFits(h) && At(src, o, LfhBytesA(h))
    ensures o + 14 <= |src|
    ensures Read32(src, o) == LFH_SIGNATURE
    ensures Read16(src, o + 4) == h.extractVer
    ensures Read16(src, o + 6) == h.gpFlag
    ensures Read16(src, o + 8) == h.compMethod
    ensures Read16(src, o + 10) == h.modTime
    ensures Read16(src, o + 12) == h.modDate
  {
    var b := LfhBytesA(h);
    hide Byte0, Byte1, Byte2, Byte3, Read16, Read32, At;
    SignatureRead(src, o, b, 3, 4);
    SixteenBits(src, o, b, 4, h.extractVer);
    SixteenBits(src, o, b, 6, h.gpFlag);
    SixteenBits(src, o, b, 8, h.compMethod);
    SixteenBits(src, o, b, 10, h.modTime);
    SixteenBits(src, o, b, 12, h.modDate);
  }

  lemma LfhReadsB(src: Bytes, o: nat, h: Lfh)
    requires LfhFits(h) && At(src, o + 26, LfhBytesB(h))
    ensures o + 30 <= |src|
    ensures Read16(src, o + 26) == h.nameLen
    ensures Read16(src, o + 28) == h.extraLen
  {
    var b := LfhBytesB(h);
    hide Byte0, Byte1, Byte2, Byte3, Read16, Read32, At;
    SixteenBits(src, o + 26, b, 0, h.nameLen);
    SixteenBits(src, o + 26, b, 2, h.extraLen);
  }

  lemma LfhInside(src: Bytes, o: nat, h: Lfh)
    requires LfhFits(h) && At(src, o, LfhBytes(h))
    ensures Read32(src, o) == LFH_SIGNATURE && LfhAt(src, o) == h
  {
    hide LfhBytesA, SizeBytes, LfhBytesB, Read16, Read32, At;
    var a := LfhBytesA(h);
    var b := SizeBytes(h.crc32, h.compSize, h.uncompSize);
    var c := LfhBytesB(h);
    AtParts(src, o, a, b + c);
    AtParts(src, o + 14, b, c);
    LfhReadsA(src, o, h);
    SizesRead(src, o + 14, h.crc32, h.compSize, h.uncompSize);
    LfhReadsB(src, o, h);
  }

  lemma EocdrReadsA(src: Bytes, o: nat, h: Eocdr)
    requires EocdrFits(h) && At(src, o, EocdrBytesA(h))
    ensures o + 12 <= |src|
    ensures Read32(src, o) == EOCDR_SIGNATURE
    ensures Read16(src, o + 4) == h.diskNbr
    ensures Read16(src, o + 6) == h.cdStartDisk
    ensures Read16(src, o + 8) == h.diskCdEntries
    ensures Read16(src, o + 10) == h.cdEntries
  {
    var b := EocdrBytesA(h);
    hide Byte0, Byte1, Byte2, Byte3, Read16, Read32, At;
    SignatureRead(src, o, b, 5, 6);
    SixteenBits(src, o, b, 4, h.diskNbr);
    SixteenBits(src, o, b, 6, h.cdStartDisk);
    SixteenBits(src, o, b, 8, h.diskCdEntries);
    SixteenBits(src, o, b, 10, h.cdEntries);
  }

  lemma EocdrReadsB(src: Bytes, o: nat, h: Eocdr)
    requires EocdrFits(h) && At(src, o + 12, EocdrBytesB(h))
    ensures o + 22 <= |src|
    ensures Read32(src, o + 12) == h.cdSize
    ensures Read32(src, o + 16) == h.cdOffset
    ensures Read16(src, o + 20) == h.commentLen
  {
    var b := EocdrBytesB(h);
    hide Byte0, Byte1, Byte2, Byte3, Read16, Read32, At;
    ThirtyTwoBits(src, o + 12, b, 0, h.cdSize);
    ThirtyTwoBits(src, o + 12, b, 4, h.cdOffset);
    SixteenBits(src, o + 12, b, 8, h.commentLen);
  }

  lemma EocdrInside(src: Bytes, o: nat, h: Eocdr)
    requires EocdrFits(h) && At(src, o, EocdrBytes(h))
    ensures Read32(src, o) == EOCDR_SIGNATURE && EocdrAt(src, o) == h
  {
    hide EocdrBytesA, EocdrBytesB, EocdrFits, Read16, Read32, At;
    var a := EocdrBytesA(h);
    var b := EocdrBytesB(h);
    AtParts(src, o, a, b);
    EocdrReadsA(src, o, h);
    EocdrReadsB(src, o, h);
  }

  // --- The archive ---

  /** A local header with the data behind it. */
  function LocalBytes(e: Entry): (b: Bytes)
    ensures |b| == 30 + |e.name| + |e.localExtra| + |e.data|
  {
    LfhBytes(LfhOf(e)) + (e.name + (e.localExtra + e.data))
  }

  /** A central header for a member whose local header is at lfhOffset. */
  function CentralBytes(e: Entry, lfhOffset: nat): (b: Bytes)
    ensures |b| == CfhLength(CfhOf(e, lfhOffset))
  {
    CfhBytes(CfhOf(e, lfhOffset)) + (e.name + (e.extra + e.comment))
  }

  /** The local parts of the first i members. */
  function LocalsTo(es: seq<Entry>, i: nat): Bytes
    requires i <= |es|
  {
    if i == 0 then [] else LocalsTo(es, i - 1) + LocalBytes(es[i - 1])
  }

  function Offset(es: seq<Entry>, i: nat): nat
    requires i <= |es|
  {
    |LocalsTo(es, i)|
  }

  /** The central directory from member i on. */
  function CentralFrom(es: seq<Entry>, i: nat): Bytes
    requires i <= |es|
    decreases |es| - i
  {
    if i == |es| then [] else CentralBytes(es[i], Offset(es, i)) + CentralFrom(es, i + 1)
  }

  function EndOf(es: seq<Entry>, comment: Bytes): Eocdr {
    Eocdr(0, 0, |es|, |es|, |CentralFrom(es, 0)|, Offset(es, |es|), |comment|)
  }

  function ArchiveBytes(es: seq<Entry>, comment: Bytes): Bytes {
    LocalsTo(es, |es|) + (CentralFrom(es, 0) + (EocdrBytes(EndOf(es, comment)) + comment))
  }

  ghost predicate ArchiveFits(es: seq<Entry>, comment: Bytes) {
    && (forall e :: e in es ==> EntryFits(e))
    && |es| <= 0xFFFF && |comment| <= 0xFFFF
    && Offset(es, |es|) + |CentralFrom(es, 0)| < 0x1_0000_0000
  }

  /** What the reader makes of a member. */
  function Written(e: Entry, next: nat): Member {
    Member(e.name, |e.data|, e.data, e.compMethod, e.uncompSize, e.crc32, e.comment, (e.extAttrs / 16) % 2 == 1, next)
  }

  function WrittenFrom(es: seq<Entry>, i: nat, o: nat): seq<Member>
    requires i <= |es|
    decreases |es| - i
  {
    if i == |es| then []
    else
      var next := o + |CentralBytes(es[i], Offset(es, i))|;
      [Written(es[i], next)] + WrittenFrom(es, i + 1, next)
  }

  // --- Reading a member back ---

  lemma CentralParts(src: Bytes, o: nat, e: Entry, lfhOffset: nat)
    requires At(src, o, CentralBytes(e, lfhOffset))
    ensures At(src, o, CfhBytes(CfhOf(e, lfhOffset)))
    ensures At(src, o + 46, e.name) && At(src, o + 46 + |e.name| + |e.extra|, e.comment)
  {
    hide CfhBytes;
    AtParts(src, o, CfhBytes(CfhOf(e, lfhOffset)), e.name + (e.extra + e.comment));
    AtParts(src, o + 46, e.name, e.extra + e.comment);
    AtParts(src, o + 46 + |e.name|, e.extra, e.comment);
  }

  lemma LocalParts(src: Bytes, o: nat, e: Entry)
    requires At(src, o, LocalBytes(e))
    ensures At(src, o, LfhBytes(LfhOf(e))) && At(src, o + 30 + |e.name| + |e.localExtra|, e.data)
  {
    hide LfhBytes;
    AtParts(src, o, LfhBytes(LfhOf(e)), e.name + (e.localExtra + e.data));
    AtParts(src, o + 30, e.name, e.localExtra + e.data);
    AtParts(src, o + 30 + |e.name|, e.localExtra, e.data);
  }

  lemma HeadersRead(src: Bytes, o: nat, e: Entry, lfhOffset: nat)
    requires EntryFits(e) && lfhOffset < 0x1_0000_0000
    requires At(src, o, CentralBytes(e, lfhOffset)) && At(src, lfhOffset, LocalBytes(e))
    ensures CfhOk(src, o) && CfhAt(src, o) == CfhOf(e, lfhOffset)
    ensures LfhOk(src, lfhOffset) && LfhAt(src, lfhOffset) == LfhOf(e)
  {
    CentralParts(src, o, e, lfhOffset);
    LocalParts(src, lfhOffset, e);
    hide CfhBytes, LfhBytes;
    CfhInside(src, o, CfhOf(e, lfhOffset));
    LfhInside(src, lfhOffset, LfhOf(e));
  }

  lemma SlicesRead(src: Bytes, o: nat, e: Entry, lfhOffset: nat)
    requires At(src, o, CentralBytes(e, lfhOffset)) && At(src, lfhOffset, LocalBytes(e))
    ensures o + 46 + |e.name| + |e.extra| + |e.comment| <= |src| && lfhOffset + 30 + |e.name| + |e.localExtra| + |e.data| <= |src|
    ensures src[o + 46..o + 46 + |e.name|] == e.name
    ensures var c := o + 46 + |e.name| + |e.extra|; src[c..c + |e.comment|] == e.comment
    ensures var d := lfhOffset + 30 + |e.name| + |e.localExtra|; src[d..d + |e.data|] == e.data
  {
    CentralParts(src, o, e, lfhOffset);
    LocalParts(src, lfhOffset, e);
    AtSlice(src, o + 46, e.name);
    AtSlice(src, o + 46 + |e.name| + |e.extra|, e.comment);
    AtSlice(src, lfhOffset + 30 + |e.name| + |e.localExtra|, e.data);
  }

  lemma MemberChecked(src: Bytes, o: nat, e: Entry, lfhOffset: nat)
    requires EntryFits(e)
    requires CfhOk(src, o) && CfhAt(src, o) == CfhOf(e, lfhOffset)
    requires LfhOk(src, lfhOffset) && LfhAt(src, lfhOffset) == LfhOf(e)
    requires o + 46 + |e.name| <= |src| && lfhOffset + 30 + |e.name| + |e.localExtra| + |e.data| <= |src|
    requires src[o + 46..o + 46 + |e.name|] == e.name
    ensures CheckMember(src, o) == if EntrySupported(e) then Some(o + CfhLength(CfhOf(e, lfhOffset))) else None
    ensures DataOffset(src, lfhOffset) == lfhOffset + 30 + |e.name| + |e.localExtra|
  {
    hide CfhAt, LfhAt, CfhOk, LfhOk, NulFree;
    NulFreeMeaning(src, o + 46, o + 46 + |e.name|);
  }

  lemma MemberBuilt(src: Bytes, o: nat, e: Entry, lfhOffset: nat)
    requires CfhOk(src, o) && CfhAt(src, o) == CfhOf(e, lfhOffset)
    requires CheckMember(src, o) == Some(o + CfhLength(CfhOf(e, lfhOffset)))
    requires LfhOk(src, lfhOffset) && DataOffset(src, lfhOffset) == lfhOffset + 30 + |e.name| + |e.localExtra|
    requires o + 46 + |e.name| + |e.extra| + |e.comment| <= |src| && lfhOffset + 30 + |e.name| + |e.localExtra| + |e.data| <= |src|
    requires src[o + 46..o + 46 + |e.name|] == e.name
    requires var c := o + 46 + |e.name| + |e.extra|; src[c..c + |e.comment|] == e.comment
    requires var d := lfhOffset + 30 + |e.name| + |e.localExtra|; src[d..d + |e.data|] == e.data
    ensures MemberAt(src, o) == Written(e, o + CfhLength(CfhOf(e, lfhOffset)))
  {
    hide CfhAt, LfhAt, CfhOk, LfhOk, CheckMember, DataOffset;
  }

  /** One member: it passes the checks exactly when it is supported, and then comes back
      as it was written. */
  lemma MemberReads(src: Bytes, o: nat, e: Entry, lfhOffset: nat)
    requires EntryFits(e) && lfhOffset < 0x1_0000_0000
    requires At(src, o, CentralBytes(e, lfhOffset)) && At(src, lfhOffset, LocalBytes(e))
    ensures var next := o + |CentralBytes(e, lfhOffset)|;
            if EntrySupported(e) then CheckMember(src, o) == Some(next) && MemberAt(src, o) == Written(e, next)
            else CheckMember(src, o) == None
  {
    hide *;
    HeadersRead(src, o, e, lfhOffset);
    SlicesRead(src, o, e, lfhOffset);
    MemberChecked(src, o, e, lfhOffset);
    if EntrySupported(e) {
      MemberBuilt(src, o, e, lfhOffset);
    }
  }

  // --- Reading the archive back ---

  /** The local parts stand where the central directory says. */
  lemma {:induction false} LocalStands(src: Bytes, es: seq<Entry>, i: nat, n: nat)
    requires i < n <= |es| && At(src, 0, LocalsTo(es, n))
    ensures At(src, Offset(es, i), LocalBytes(es[i])) && Offset(es, i) <= Offset(es, n)
    decreases n
  {
    hide LocalBytes;
    AtParts(src, 0, LocalsTo(es, n - 1), LocalBytes(es[n - 1]));
    if i < n - 1 {
      LocalStands(src, es, i, n - 1);
    }
  }

  /** From offset o on, n members are accepted up to `end` and listed as ms. */
  ghost predicate ReadsAs(src: Bytes, o: nat, n: nat, end: nat, ms: seq<Member>) {
    CheckMembers(src, o, n) == Some(end) && Members(src, o, n) == ms
  }

  lemma ReadsAsStep(src: Bytes, o: nat, n: nat, end: nat, m: Member, ms: seq<Member>)
    requires CheckMember(src, o) == Some(m.next) && MemberAt(src, o) == m && ReadsAs(src, m.next, n, end, ms)
    ensures ReadsAs(src, o, n + 1, end, [m] + ms)
  {
    hide CheckMember, MemberAt;
  }

  /** From i on there is a member the reader does not support. */
  ghost predicate RefusedFrom(es: seq<Entry>, i: nat) {
    exists k :: i <= k < |es| && !EntrySupported(es[k])
  }

  lemma RefusedStep(es: seq<Entry>, i: nat)
    requires i < |es|
    ensures RefusedFrom(es, i) <==> !EntrySupported(es[i]) || RefusedFrom(es, i + 1)
  {
  }

  /** The members from i on pass the loop of zip_read and are listed as written, unless
      one of them is not supported: then the loop fails. */
  lemma {:induction false} MembersRead(src: Bytes, o: nat, es: seq<Entry>, i: nat)
    requires i <= |es| && (forall e :: e in es ==> EntryFits(e))
    requires At(src, o, CentralFrom(es, i)) && At(src, 0, LocalsTo(es, |es|)) && Offset(es, |es|) < 0x1_0000_0000
    ensures if RefusedFrom(es, i) then CheckMembers(src, o, |es| - i) == None
            else ReadsAs(src, o, |es| - i, o + |CentralFrom(es, i)|, WrittenFrom(es, i, o))
    decreases |es| - i
  {
    hide CheckMember, MemberAt, CentralBytes, LocalBytes, EntryFits, EntrySupported, RefusedFrom, At, LocalsTo, Written,
         ReadsAs;
    if i == |es| {
      NothingRead(src, o, es);
    } else {
      LocalStands(src, es, i, |es|);
      RefusedStep(es, i);
      var b := CentralBytes(es[i], Offset(es, i));
      var next := o + |b|;
      AtParts(src, o, b, CentralFrom(es, i + 1));
      MemberReads(src, o, es[i], Offset(es, i));
      MembersRead(src, next, es, i + 1);
      if !RefusedFrom(es, i) {
        ReadsAsStep(src, o, |es| - i - 1, next + |CentralFrom(es, i + 1)|, Written(es[i], next), WrittenFrom(es, i + 1, next));
      }
    }
  }

  lemma NothingRead(src: Bytes, o: nat, es: seq<Entry>)
    ensures ReadsAs(src, o, 0, o, []) && !RefusedFrom(es, |es|)
  {
  }

  lemma {:induction false} FindsRecord(src: Bytes, k: nat, j: nat)
    requires j <= k <= 0xFFFF && EOCDR_BASE_SZ + k <= |src| && EndRecordAt(src, k)
    requires forall i: nat :: j <= i < k ==> !EndRecordAt(src, i)
    ensures FindFrom(src, j) == |src| - EOCDR_BASE_SZ - k
    decreases k - j
  {
    if j < k {
      FindsRecord(src, k, j + 1);
    }
  }

  /** No shorter tail of the file is an end record with a matching comment. */
  ghost predicate NoShorterTail(src: Bytes, k: nat) {
    forall i: nat :: i < k ==> !EndRecordAt(src, i)
  }

  lemma EndRecordStands(src: Bytes, o: nat, r: Eocdr, comment: Bytes)
    requires EocdrFits(r) && r.commentLen == |comment|
    requires o + 22 + |comment| == |src| && At(src, o, EocdrBytes(r) + comment)
    ensures EndRecordAt(src, |comment|) && EocdrAt(src, o) == r && src[o + 22..] == comment
  {
    hide EocdrBytes;
    AtParts(src, o, EocdrBytes(r), comment);
    EocdrInside(src, o, r);
    AtSlice(src, o + 22, comment);
  }

  lemma ArchiveParts(p: Bytes, es: seq<Entry>, comment: Bytes)
    ensures var a := ArchiveBytes(es, comment);
            var n, c := Offset(es, |es|), |CentralFrom(es, 0)|;
            && |a| == n + c + 22 + |comment|
            && At(a, 0, LocalsTo(es, |es|)) && At(a, n, CentralFrom(es, 0))
            && At(p + a, |p| + n + c, EocdrBytes(EndOf(es, comment)) + comment)
  {
    hide EocdrBytes, LocalsTo, CentralFrom;
    var l, d, e := LocalsTo(es, |es|), CentralFrom(es, 0), EocdrBytes(EndOf(es, comment)) + comment;
    var a := ArchiveBytes(es, comment);
    assert At(a, 0, a);
    AtParts(a, 0, l, d + e);
    AtParts(a, |l|, d, e);
    assert At(p + a, 0, p + a);
    AtParts(p + a, 0, p, a);
    AtParts(p + a, |p|, l, d + e);
    AtParts(p + a, |p| + |l|, d, e);
  }

  /** The end record of the archive is the one found, if and only if its comment does
      not itself end in a shorter matching record. */
  lemma ArchiveFound(p: Bytes, es: seq<Entry>, comment: Bytes)
    requires ArchiveFits(es, comment) && 0 < |p| + Offset(es, |es|) + |CentralFrom(es, 0)|
    ensures var src := p + ArchiveBytes(es, comment);
            var o := |p| + Offset(es, |es|) + |CentralFrom(es, 0)|;
            && (FindEocdr(src) == o <==> NoShorterTail(src, |comment|))
            && o + 22 <= |src| && EocdrAt(src, o) == EndOf(es, comment) && src[o + 22..] == comment
  {
    hide EocdrBytes, LocalsTo, CentralFrom, EndRecordAt, EocdrAt;
    ArchiveParts(p, es, comment);
    var src := p + ArchiveBytes(es, comment);
    var o := |p| + Offset(es, |es|) + |CentralFrom(es, 0)|;
    EndRecordStands(src, o, EndOf(es, comment), comment);
    FindEocdrMeaning(src);
    if NoShorterTail(src, |comment|) {
      FindsRecord(src, |comment|, 0);
    }
  }

  /** What the archive is opened as. */
  function WrittenZip(es: seq<Entry>, comment: Bytes): Zip {
    var n := Offset(es, |es|);
    Zip(ArchiveBytes(es, comment), |es|, comment, n, n + |CentralFrom(es, 0)|)
  }

  /** Where the end record is in a file with the bytes p in front of the archive. */
  function EndOffset(p: Bytes, es: seq<Entry>): nat {
    |p| + Offset(es, |es|) + |CentralFrom(es, 0)|
  }

  /** Listing the archive gives back what was written, if all of it is supported. */
  lemma WrittenListed(es: seq<Entry>, comment: Bytes)
    requires ArchiveFits(es, comment)
    ensures var zip := WrittenZip(es, comment);
            if RefusedFrom(es, 0) then CheckMembers(zip.src, zip.membersBegin, zip.numMembers) == None
            else CheckMembers(zip.src, zip.membersBegin, zip.numMembers) == Some(zip.membersEnd)
                 && Listing(zip) == WrittenFrom(es, 0, Offset(es, |es|))
  {
    hide *;
    ArchiveReads(es, comment);
    ListedAs(es, comment);
  }

  lemma ListedAs(es: seq<Entry>, comment: Bytes)
    ensures var zip, n := WrittenZip(es, comment), Offset(es, |es|);
            && zip.src == ArchiveBytes(es, comment) && zip.membersBegin == n && zip.numMembers == |es|
            && zip.membersEnd == n + |CentralFrom(es, 0)|
            && (ReadsAs(zip.src, n, |es|, zip.membersEnd, WrittenFrom(es, 0, n)) ==>
                  && CheckMembers(zip.src, n, |es|) == Some(zip.membersEnd)
                  && Listing(zip) == WrittenFrom(es, 0, n))
  {
    hide ArchiveBytes, Offset, CentralFrom, CheckMembers, Members, WrittenFrom;
  }

  lemma ArchiveReads(es: seq<Entry>, comment: Bytes)
    requires ArchiveFits(es, comment)
    ensures var a, n := ArchiveBytes(es, comment), Offset(es, |es|);
            if RefusedFrom(es, 0) then CheckMembers(a, n, |es|) == None
            else ReadsAs(a, n, |es|, n + |CentralFrom(es, 0)|, WrittenFrom(es, 0, n))
  {
    hide ArchiveBytes, EntryFits, LocalsTo, CentralFrom, EocdrAt, CheckMembers, WrittenFrom, RefusedFrom, ReadsAs, At;
    ArchiveParts([], es, comment);
    MembersRead(ArchiveBytes(es, comment), Offset(es, |es|), es, 0);
  }

  lemma WrittenOpens(p: Bytes, es: seq<Entry>, comment: Bytes)
    requires ArchiveFits(es, comment) && 0 < EndOffset(p, es)
    requires NoShorterTail(p + ArchiveBytes(es, comment), |comment|)
    ensures ZipRead(p + ArchiveBytes(es, comment))
         == if RefusedFrom(es, 0) then Rejected else Opened(WrittenZip(es, comment))
  {
    hide EocdrBytes, LocalsTo, CentralFrom, EndRecordAt, EocdrAt, FindEocdr, CheckMembers, Members, WrittenFrom, RefusedFrom, At;
    var a := ArchiveBytes(es, comment);
    ArchiveParts(p, es, comment);
    ArchiveFound(p, es, comment);
    WrittenListed(es, comment);
    SuffixBehind(p, a, 0);
    ZipReadAt(p + a, EndOffset(p, es), EndOf(es, comment), a, comment);
  }

  /** An opened archive tells by the length of its comment where its end record was found. */
  lemma CommentTellsOffset(src: Bytes, zip: Zip)
    requires ZipRead(src) == Opened(zip)
    ensures 0 < FindEocdr(src) && FindEocdr(src) + EOCDR_BASE_SZ + |zip.comment| == |src|
  {
    hide FindEocdr, CheckMembers, EocdrAt, ArchiveLength;
  }

  /** Round trip: a file that ends in an archive written for any members, behind any
      bytes, is opened as that archive if and only if every member is supported, no
      shorter tail of the file is a matching end record and its own is not at offset 0.
      Listing it then gives back every name, size, method, checksum, comment and all the
      data; with a member that is not supported the file is rejected. */
  lemma RoundTrip(p: Bytes, es: seq<Entry>, comment: Bytes)
    requires ArchiveFits(es, comment)
    ensures var src, zip := p + ArchiveBytes(es, comment), WrittenZip(es, comment);
            && (ZipRead(src) == Opened(zip) <==>
                  !RefusedFrom(es, 0) && NoShorterTail(src, |comment|) && 0 < EndOffset(p, es))
            && (RefusedFrom(es, 0) && NoShorterTail(src, |comment|) && 0 < EndOffset(p, es) ==> ZipRead(src) == Rejected)
            && (!RefusedFrom(es, 0) ==>
                  && CheckMembers(zip.src, zip.membersBegin, zip.numMembers) == Some(zip.membersEnd)
                  && Listing(zip) == WrittenFrom(es, 0, Offset(es, |es|)))
  {
    hide ArchiveBytes, Offset, CentralFrom, EndRecordAt, ZipRead, CheckMembers, Members, WrittenFrom, ArchiveFits,
         NoShorterTail, RefusedFrom;
    var src, zip := p + ArchiveBytes(es, comment), WrittenZip(es, comment);
    WrittenListed(es, comment);
    ArchiveLengthIs(es, comment);
    if NoShorterTail(src, |comment|) && 0 < EndOffset(p, es) {
      WrittenOpens(p, es, comment);
    }
    if ZipRead(src) == Opened(zip) {
      OpenedChecked(src);
      CommentTellsOffset(src, zip);
      ArchiveFound(p, es, comment);
    }
  }

  /** One encrypted member is enough for the whole archive to be rejected. */
  lemma EncryptedRejected(p: Bytes, es: seq<Entry>, k: nat)
    requires ArchiveFits(es, []) && k < |es| && es[k].gpFlag % 2 == 1
    ensures ZipRead(p + ArchiveBytes(es, [])) == Rejected
  {
    hide ArchiveBytes, Offset, LocalsTo, LocalBytes, CentralBytes, EndRecordAt, ZipRead, ArchiveFits;
    assert RefusedFrom(es, 0) by { assert !EntrySupported(es[k]); }
    RoundTrip(p, es, []);
    DirectoryLength(es);
  }

  lemma DirectoryLength(es: seq<Entry>)
    requires es != []
    ensures |CentralFrom(es, 0)| >= 46
  {
  }

  lemma ArchiveLengthIs(es: seq<Entry>, comment: Bytes)
    ensures |ArchiveBytes(es, comment)| == Offset(es, |es|) + |CentralFrom(es, 0)| + 22 + |comment|
  {
    ArchiveParts([], es, comment);
  }

  /** Without an archive comment nothing else goes wrong but an empty file. */
  lemma RoundTripWithoutComment(p: Bytes, es: seq<Entry>)
    requires ArchiveFits(es, [])
    ensures ZipRead(p + ArchiveBytes(es, [])) == Opened(WrittenZip(es, [])) <==> !RefusedFrom(es, 0) && 0 < EndOffset(p, es)
  {
    hide RefusedFrom, ArchiveFits, ArchiveBytes, WrittenZip, EndOffset, ZipRead, EndRecordAt;
    RoundTrip(p, es, []);
  }

  /** An archive without members that is the whole file is taken for no archive: its end
      record is at offset 0, which is also the answer for "not found". */
  lemma EmptyArchiveRejected(comment: Bytes)
    requires |comment| <= 0xFFFF && NoShorterTail(ArchiveBytes([], comment), |comment|)
    ensures ZipRead(ArchiveBytes([], comment)) == Rejected
  {
    var src := ArchiveBytes([], comment);
    hide EocdrBytes, EocdrAt, EndRecordAt, LocalsTo, CentralFrom;
    ArchiveParts([], [], comment);
    NothingWritten();
    assert [] + src == src;
    EndRecordStands(src, 0, EndOf([], comment), comment);
    FindsRecord(src, |comment|, 0);
  }

  lemma NothingWritten()
    ensures Offset([], 0) == 0 && CentralFrom([], 0) == []
  {
  }

  /** An end record that claims a directory of 100 bytes in a file of 23: the view would
      start in front of the file. */
  lemma ViewLeavesBuffer()
    ensures ZipRead([0] + EocdrBytes(Eocdr(0, 0, 0, 0, 100, 0, 0))).OutsideBuffer?
  {
    var r := Eocdr(0, 0, 0, 0, 100, 0, 0);
    var b := EocdrBytes(r);
    var src := [0] + b;
    hide EocdrBytes, EocdrAt, EndRecordAt;
    assert At(src, 1, b + []) by { assert b + [] == b; }
    EndRecordStands(src, 1, r, []);
    FindsRecord(src, 0, 0);
  }
}
