/** The records of a ZIP file as HW01-Zipjpeg/src/zip.c reads them (sections 4.3.7,
    4.3.12 and 4.3.16 of the PKWARE APPNOTE). Bytes are numbers, offsets are unbounded. */
module ZipFormat {
  import opened Basics

  type Byte = b: int | 0 <= b < 256

  type Bytes = seq<Byte>

  const EOCDR_BASE_SZ: nat := 22
  const EOCDR_SIGNATURE: nat := 0x06054b50
  const CFH_BASE_SZ: nat := 46
  const CFH_SIGNATURE: nat := 0x02014b50
  const LFH_BASE_SZ: nat := 30
  const LFH_SIGNATURE: nat := 0x04034b50
  const UINT16_MAX: nat := 0xFFFF
  const UINT32_END: nat := 0x1_0000_0000

  /** The number whose little-endian bytes stand from i up to j. */
  function Number(src: Bytes, i: nat, j: nat): (x: nat)
    requires i <= j <= |src|
    decreases j - i
  {
    if i == j then 0 else src[i] as int + 0x100 * Number(src, i + 1, j)
  }

  /** The shifts of `read16le` ... */
  lemma TwoBytes(src: Bytes, i: nat)
    requires i + 2 <= |src|
    ensures Number(src, i, i + 2) == src[i] as int + 0x100 * src[i + 1] as int
  {
    assert Number(src, i + 1, i + 2) == src[i + 1] as int + 0x100 * Number(src, i + 2, i + 2);
  }

  /** ... and of `read32le`. */
  lemma FourBytes(src: Bytes, i: nat)
    requires i + 4 <= |src|
    ensures Number(src, i, i + 4)
         == src[i] as int + 0x100 * src[i + 1] as int + 0x1_0000 * src[i + 2] as int + 0x100_0000 * src[i + 3] as int
  {
    TwoBytes(src, i + 2);
    assert Number(src, i + 1, i + 4) == src[i + 1] as int + 0x100 * Number(src, i + 2, i + 4);
  }

  /** `read16le`. */
  function Read16(src: Bytes, i: nat): (x: nat)
    requires i + 2 <= |src|
    ensures x <= UINT16_MAX
  {
    TwoBytes(src, i);
    Number(src, i, i + 2)
  }

  /** `read32le`. */
  function Read32(src: Bytes, i: nat): (x: nat)
    requires i + 4 <= |src|
    ensures x < UINT32_END
  {
    FourBytes(src, i);
    Number(src, i, i + 4)
  }

  // --- The records ---

  /** `struct eocdr`; the comment is the end of the file. */
  datatype Eocdr = Eocdr(diskNbr: nat, cdStartDisk: nat, diskCdEntries: nat, cdEntries: nat,
                         cdSize: nat, cdOffset: nat, commentLen: nat)

  /** `struct cfh`, without the pointers. */
  datatype Cfh = Cfh(madeByVer: nat, extractVer: nat, gpFlag: nat, compMethod: nat, modTime: nat, modDate: nat,
                     crc32: nat, compSize: nat, uncompSize: nat, nameLen: nat, extraLen: nat, commentLen: nat,
                     diskNbrStart: nat, intAttrs: nat, extAttrs: nat, lfhOffset: nat)

  /** `struct lfh`, without the pointers. */
  datatype Lfh = Lfh(extractVer: nat, gpFlag: nat, compMethod: nat, modTime: nat, modDate: nat,
                     crc32: nat, compSize: nat, uncompSize: nat, nameLen: nat, extraLen: nat)

  function EocdrAt(src: Bytes, o: nat): Eocdr
    requires o + EOCDR_BASE_SZ <= |src|
  {
    Eocdr(Read16(src, o + 4), Read16(src, o + 6), Read16(src, o + 8), Read16(src, o + 10),
          Read32(src, o + 12), Read32(src, o + 16), Read16(src, o + 20))
  }

  function CfhAt(src: Bytes, o: nat): Cfh
    requires o + CFH_BASE_SZ <= |src|
  {
    Cfh(Read16(src, o + 4), Read16(src, o + 6), Read16(src, o + 8), Read16(src, o + 10),
        Read16(src, o + 12), Read16(src, o + 14), Read32(src, o + 16), Read32(src, o + 20),
        Read32(src, o + 24), Read16(src, o + 28), Read16(src, o + 30), Read16(src, o + 32),
        Read16(src, o + 34), Read16(src, o + 36), Read32(src, o + 38), Read32(src, o + 42))
  }

  function LfhAt(src: Bytes, o: nat): Lfh
    requires o + LFH_BASE_SZ <= |src|
  {
    Lfh(Read16(src, o + 4), Read16(src, o + 6), Read16(src, o + 8), Read16(src, o + 10),
        Read16(src, o + 12), Read32(src, o + 14), Read32(src, o + 18), Read32(src, o + 22),
        Read16(src, o + 26), Read16(src, o + 28))
  }

  /** The length of a central header with its variable part. */
  function CfhLength(h: Cfh): nat {
    CFH_BASE_SZ + h.nameLen + h.extraLen + h.commentLen
  }

  /** What `read_cfh` accepts. */
  predicate CfhOk(src: Bytes, o: nat) {
    && o + CFH_BASE_SZ <= |src| && Read32(src, o) == CFH_SIGNATURE
    && o + CfhLength(CfhAt(src, o)) <= |src|
  }

  /** What `read_lfh` accepts. */
  predicate LfhOk(src: Bytes, o: nat) {
    && o + LFH_BASE_SZ <= |src| && Read32(src, o) == LFH_SIGNATURE
    && o + LFH_BASE_SZ + LfhAt(src, o).nameLen + LfhAt(src, o).extraLen <= |src|
  }

  // --- find_eocdr ---

  /** An end record stands exactly k bytes and its own length before the end, and its
      stored comment length is k. */
  predicate EndRecordAt(src: Bytes, k: nat) {
    && EOCDR_BASE_SZ + k <= |src|
    && var o := |src| - EOCDR_BASE_SZ - k;
       Read32(src, o) == EOCDR_SIGNATURE && EocdrAt(src, o).commentLen == k
  }

  /** `find_eocdr` from comment length k on. */
  function FindFrom(src: Bytes, k: nat): (o: nat)
    ensures o > 0 ==> o + EOCDR_BASE_SZ <= |src|
    decreases UINT16_MAX + 1 - k
  {
    if k > UINT16_MAX || |src| < EOCDR_BASE_SZ + k then 0
    else if EndRecordAt(src, k) then |src| - EOCDR_BASE_SZ - k
    else FindFrom(src, k + 1)
  }

  function FindEocdr(src: Bytes): (o: nat)
    ensures o > 0 ==> o + EOCDR_BASE_SZ <= |src|
  {
    FindFrom(src, 0)
  }

  lemma {:induction false} FindFromMeaning(src: Bytes, k: nat)
    ensures var o := FindFrom(src, k);
            || (o == 0 && forall j :: k <= j && EOCDR_BASE_SZ + j < |src| ==> !EndRecordAt(src, j))
            || (o > 0 && o + EOCDR_BASE_SZ + k <= |src| && EndRecordAt(src, |src| - EOCDR_BASE_SZ - o)
                && forall j :: k <= j < |src| - EOCDR_BASE_SZ - o ==> !EndRecordAt(src, j))
    decreases UINT16_MAX + 1 - k
  {
    if k <= UINT16_MAX && EOCDR_BASE_SZ + k <= |src| && !EndRecordAt(src, k) {
      FindFromMeaning(src, k + 1);
    }
  }

  /** The record found is the one with the shortest matching comment, and 0 is returned
      if and only if there is none behind the very first byte of the file. */
  lemma FindEocdrMeaning(src: Bytes)
    ensures FindEocdr(src) == 0 <==> forall k: nat :: EOCDR_BASE_SZ + k < |src| ==> !EndRecordAt(src, k)
    ensures FindEocdr(src) > 0 ==>
              var k := |src| - EOCDR_BASE_SZ - FindEocdr(src);
              k >= 0 && EndRecordAt(src, k) && forall j: nat :: j < k ==> !EndRecordAt(src, j)
  {
    FindFromMeaning(src, 0);
  }

  // --- zip_read and zip_member ---

  const ZIP_STORED: nat := 0
  const ZIP_DEFLATED: nat := 8

  /** `zip_t`: the view is the part of the file that starts where the archive does. */
  datatype Zip = Zip(src: Bytes, numMembers: nat, comment: Bytes, membersBegin: nat, membersEnd: nat)

  /** `zip_read` fails, forms a pointer in front of the buffer, or succeeds. */
  datatype ReadResult = Rejected | OutsideBuffer | Opened(zip: Zip)

  /** `memchr` finds no NUL from a up to b. */
  predicate NulFree(src: Bytes, a: nat, b: nat)
    requires a <= b <= |src|
    decreases b - a
  {
    a == b || (src[a] != 0 && NulFree(src, a + 1, b))
  }

  lemma {:induction false} NulFreeMeaning(src: Bytes, a: nat, b: nat)
    requires a <= b <= |src|
    ensures NulFree(src, a, b) <==> 0 !in src[a..b]
    decreases b - a
  {
    if a < b {
      NulFreeMeaning(src, a + 1, b);
      assert src[a..b] == [src[a]] + src[a + 1..b];
    }
  }

  /** The checks of one round of the loop of `zip_read`; the offset of the next header. */
  function CheckMember(src: Bytes, o: nat): (next: Option<nat>)
    ensures next.Some? ==> o + CFH_BASE_SZ <= next.value <= |src|
  {
    if !CfhOk(src, o) then None
    else
      var h := CfhAt(src, o);
      if h.gpFlag % 2 == 1 then None
      else if h.compMethod != ZIP_STORED && h.compMethod != ZIP_DEFLATED then None
      else if h.compMethod == ZIP_STORED && h.uncompSize != h.compSize then None
      else if h.diskNbrStart != 0 then None
      else if !NulFree(src, o + CFH_BASE_SZ, o + CFH_BASE_SZ + h.nameLen) then None
      else if !LfhOk(src, h.lfhOffset) then None
      else if h.compSize > |src| - DataOffset(src, h.lfhOffset) then None
      else Some(o + CfhLength(h))
  }

  /** What a check that succeeds has established. */
  lemma CheckedMember(src: Bytes, o: nat)
    requires CheckMember(src, o).Some?
    ensures CfhOk(src, o) && LfhOk(src, CfhAt(src, o).lfhOffset)
    ensures CheckMember(src, o) == Some(o + CfhLength(CfhAt(src, o))) && o + CfhLength(CfhAt(src, o)) <= |src|
    ensures DataOffset(src, CfhAt(src, o).lfhOffset) + CfhAt(src, o).compSize <= |src|
  {
  }

  /** Four bytes are a signature exactly when they are these: PK and two more. */
  lemma SignatureBytes(src: Bytes, o: nat, c: Byte, d: Byte)
    requires o + 4 <= |src|
    ensures Read32(src, o) == 0x4b50 + 0x1_0000 * c as int + 0x100_0000 * d as int
       <==> src[o] == 0x50 && src[o + 1] == 0x4b && src[o + 2] == c && src[o + 3] == d
  {
    hide Number;
    FourBytes(src, o);
    var a, b, e, f := src[o] as int, src[o + 1] as int, src[o + 2] as int, src[o + 3] as int;
    if Read32(src, o) == 0x4b50 + 0x1_0000 * c as int + 0x100_0000 * d as int {
      SameDigits(a, b + 0x100 * (e + 0x100 * f), 0x50, 0x4b + 0x100 * (c as int + 0x100 * d as int));
      SameDigits(b, e + 0x100 * f, 0x4b, c as int + 0x100 * d as int);
      SameDigits(e, f, c as int, d as int);
    }
  }

  lemma SameDigits(a: int, x: int, b: int, y: int)
    requires 0 <= a < 0x100 && 0 <= b < 0x100 && a + 0x100 * x == b + 0x100 * y
    ensures a == b && x == y
  {
  }

  /** The layout of a central header, section 4.3.12: signature, lengths, and the offset of
      the local header. */
  ghost predicate CentralAt(src: Bytes, o: nat) {
    && o + 46 <= |src|
    && src[o] == 0x50 && src[o + 1] == 0x4b && src[o + 2] == 1 && src[o + 3] == 2
    && o + 46 + Read16(src, o + 28) + Read16(src, o + 30) + Read16(src, o + 32) <= |src|
  }

  lemma CentralLayout(src: Bytes, o: nat)
    ensures CfhOk(src, o) <==> CentralAt(src, o)
  {
    hide Read16, Read32;
    if o + 46 <= |src| {
      SignatureBytes(src, o, 1, 2);
    }
  }

  /** The layout of a local header, section 4.3.7, with n bytes of data behind it. */
  ghost predicate LocalAt(src: Bytes, l: nat, n: nat) {
    && l + 30 <= |src|
    && src[l] == 0x50 && src[l + 1] == 0x4b && src[l + 2] == 3 && src[l + 3] == 4
    && l + 30 + Read16(src, l + 26) + Read16(src, l + 28) + n <= |src|
  }

  lemma LocalLayout(src: Bytes, l: nat, n: nat)
    ensures LfhOk(src, l) && n <= |src| - DataOffset(src, l) <==> LocalAt(src, l, n)
  {
    hide Read16, Read32;
    if l + 30 <= |src| {
      SignatureBytes(src, l, 3, 4);
    }
  }

  /** What the reader supports: an unencrypted member, stored or deflated, stored at its
      own size, on the first disk, with a name without NUL. */
  predicate Supported(flag: nat, compMethod: nat, compSize: nat, uncompSize: nat, disk: nat, name: Bytes) {
    && flag % 2 == 0
    && (compMethod == 0 || compMethod == 8)
    && (compMethod == 0 ==> compSize == uncompSize)
    && disk == 0
    && 0 !in name
  }

  /** Exactly when a member passes: both its headers are where they belong, its data fit
      behind the local one, and it is supported. */
  lemma CheckedExactly(src: Bytes, o: nat)
    ensures CheckMember(src, o).Some? <==>
            && CentralAt(src, o)
            && LocalAt(src, Read32(src, o + 42), Read32(src, o + 20))
            && Supported(Read16(src, o + 8), Read16(src, o + 10), Read32(src, o + 20), Read32(src, o + 24),
                         Read16(src, o + 34), src[o + 46..o + 46 + Read16(src, o + 28)])
  {
    hide Read16, Read32, NulFree, CentralAt, LocalAt, CfhOk, LfhOk;
    CentralLayout(src, o);
    if CfhOk(src, o) {
      CentralFits(src, o);
      NulFreeMeaning(src, o + 46, o + 46 + Read16(src, o + 28));
      LocalLayout(src, Read32(src, o + 42), Read32(src, o + 20));
    }
  }

  lemma CentralFits(src: Bytes, o: nat)
    requires CfhOk(src, o)
    ensures o + 46 + Read16(src, o + 28) <= |src|
  {
  }

  /** Where the data behind a local header starts. */
  function DataOffset(src: Bytes, o: nat): (d: nat)
    requires LfhOk(src, o)
    ensures d <= |src|
  {
    o + LFH_BASE_SZ + LfhAt(src, o).nameLen + LfhAt(src, o).extraLen
  }

  /** The loop of `zip_read`: the offset behind the last of n members. */
  function CheckMembers(src: Bytes, o: nat, n: nat): (end: Option<nat>)
    ensures end.Some? ==> o + 46 * n <= end.value
    decreases n
  {
    if n == 0 then Some(o)
    else
      match CheckMember(src, o)
      case None => None
      case Some(next) => CheckMembers(src, next, n - 1)
  }

  /** `cd_offset + cd_size` in 32 bits. */
  function ArchiveLength(e: Eocdr): (n: nat)
    ensures n < UINT32_END
  {
    (e.cdOffset + e.cdSize) % 0x1_0000_0000
  }

  /** `zip->src_len`: from the claimed start of the archive to the end of the file. */
  function ViewLength(src: Bytes, o: nat): (n: nat)
    requires o + EOCDR_BASE_SZ <= |src|
  {
    ArchiveLength(EocdrAt(src, o)) + |src| - o
  }

  /** The index `src_len - zip->src_len` the view starts at; a pointer to a negative
      index lies in front of the buffer. */
  function ViewStart(src: Bytes, o: nat): int
    requires o + EOCDR_BASE_SZ <= |src|
  {
    |src| - ViewLength(src, o)
  }

  /** The checks behind the end record, on the view and the archive comment. */
  function OpenView(e: Eocdr, view: Bytes, comment: Bytes): ReadResult {
    if e.diskNbr != 0 || e.cdStartDisk != 0 || e.diskCdEntries != e.cdEntries then Rejected
    else
      match CheckMembers(view, e.cdOffset, e.cdEntries)
      case None => Rejected
      case Some(end) => Opened(Zip(view, e.cdEntries, comment, e.cdOffset, end))
  }

  /** `zip_read`. */
  function ZipRead(src: Bytes): ReadResult {
    var o := FindEocdr(src);
    if o == 0 then Rejected
    else if ViewStart(src, o) < 0 then OutsideBuffer
    else OpenView(EocdrAt(src, o), src[ViewStart(src, o)..], src[o + EOCDR_BASE_SZ..])
  }

  /** `zipmemb_t`, with slices for pointers and without the time. */
  datatype Member = Member(name: Bytes, compSize: nat, data: Bytes, compMethod: nat, uncompSize: nat, crc32: nat,
                           comment: Bytes, isDir: bool, next: nat)

  const EXT_ATTR_DIR: nat := 16

  /** `zip_member`. */
  function MemberAt(src: Bytes, o: nat): (m: Member)
    requires CheckMember(src, o).Some?
    ensures CheckMember(src, o) == Some(m.next) && |m.data| == m.compSize
  {
    hide CheckMember, CfhAt, LfhAt, CfhOk, LfhOk;
    CheckedMember(src, o);
    var h := CfhAt(src, o);
    var d := DataOffset(src, h.lfhOffset);
    var name := o + CFH_BASE_SZ;
    var comment := name + h.nameLen + h.extraLen;
    Member(src[name..name + h.nameLen], h.compSize, src[d..d + h.compSize], h.compMethod, h.uncompSize, h.crc32,
           src[comment..comment + h.commentLen], (h.extAttrs / EXT_ATTR_DIR) % 2 == 1, o + CfhLength(h))
  }

  /** A member is a directory when bit 4 of the byte at offset 38 of its header is set. */
  lemma DirectoryBit(src: Bytes, o: nat)
    requires CheckMember(src, o).Some?
    ensures o + 38 < |src| && (MemberAt(src, o).isDir <==> (src[o + 38] as int / 16) % 2 == 1)
  {
    hide CheckMember, CfhOk, LfhOk, Read16, Read32;
    CheckedMember(src, o);
    BitFour(src, o + 38);
  }

  lemma BitFour(src: Bytes, i: nat)
    requires i + 4 <= |src|
    ensures (Read32(src, i) / 16) % 2 == (src[i] as int / 16) % 2
  {
    HalvedSixteen(src[i] as int, Number(src, i + 1, i + 4));
  }

  lemma HalvedSixteen(low: nat, high: nat)
    requires low < 0x100
    ensures ((low + 0x100 * high) / 16) % 2 == (low / 16) % 2
  {
    assert (low + 0x100 * high) / 16 == low / 16 + 16 * high;
  }

  /** The members in the order of the central directory. */
  function Members(src: Bytes, o: nat, n: nat): (ms: seq<Member>)
    requires CheckMembers(src, o, n).Some?
    ensures |ms| == n
    decreases n
  {
    hide CheckMember;
    if n == 0 then [] else
      var m := MemberAt(src, o);
      [m] + Members(src, m.next, n - 1)
  }

  function Listing(z: Zip): seq<Member>
    requires CheckMembers(z.src, z.membersBegin, z.numMembers).Some?
  {
    Members(z.src, z.membersBegin, z.numMembers)
  }

  /** Exactly when a file is opened: its end record, behind offset 0, is that of a single
      disk and claims no more bytes in front of it than there are, and the members it
      counts pass the checks. */
  lemma OpenedExactly(src: Bytes)
    ensures var o := FindEocdr(src);
            ZipRead(src).Opened? <==>
              && o > 0
              && Read16(src, o + 4) == 0 && Read16(src, o + 6) == 0 && Read16(src, o + 8) == Read16(src, o + 10)
              && var n := (Read32(src, o + 16) + Read32(src, o + 12)) % 0x1_0000_0000;
                 n <= o && CheckMembers(src[o - n..], Read32(src, o + 16), Read16(src, o + 10)).Some?
  {
    hide FindEocdr, CheckMembers, Read16, Read32;
  }

  lemma OpenedChecked(src: Bytes)
    requires ZipRead(src).Opened?
    ensures var z := ZipRead(src).zip;
            && CheckMembers(z.src, z.membersBegin, z.numMembers) == Some(z.membersEnd)
            && z.numMembers == EocdrAt(src, FindEocdr(src)).cdEntries
  {
    hide CheckMembers, FindEocdr, EocdrAt;
  }

  /** What a caller may rely on for a member: a name without NUL, one of the two known
      methods, and the stored size for a stored member. */
  predicate Sound(m: Member) {
    && 0 !in m.name
    && (m.compMethod == 0 || m.compMethod == 8)
    && (m.compMethod == 0 ==> m.uncompSize == m.compSize)
    && |m.data| == m.compSize
  }

  lemma CheckedSound(src: Bytes, o: nat)
    requires CheckMember(src, o).Some?
    ensures Sound(MemberAt(src, o))
  {
    hide CfhAt, LfhAt, CfhOk, LfhOk, NulFree;
    NulFreeMeaning(src, o + CFH_BASE_SZ, o + CFH_BASE_SZ + CfhAt(src, o).nameLen);
  }

  /** Where the header of member k of a listing from offset o on stands. */
  function Start(ms: seq<Member>, o: nat, k: nat): nat
    requires k <= |ms|
  {
    if k == 0 then o else ms[k - 1].next
  }

  /** Every member listed stands right behind the one before, has passed the checks,
      and the last one ends where the loop of `zip_read` ended. */
  lemma {:induction false} MembersChain(src: Bytes, o: nat, n: nat, k: nat)
    requires CheckMembers(src, o, n).Some? && k < n
    ensures var ms := Members(src, o, n);
            && CheckMember(src, Start(ms, o, k)) == Some(ms[k].next)
            && ms[k] == MemberAt(src, Start(ms, o, k)) && Sound(ms[k])
            && Start(ms, o, n) == CheckMembers(src, o, n).value
    decreases n
  {
    hide CheckMember, MemberAt, Sound;
    CheckedSound(src, o);
    var m := MemberAt(src, o);
    var rest := Members(src, m.next, n - 1);
    assert Members(src, o, n) == [m] + rest;
    if n > 1 {
      MembersChain(src, m.next, n - 1, if k == 0 then 0 else k - 1);
      assert Start([m] + rest, o, n) == Start(rest, m.next, n - 1);
      if k > 0 {
        assert Start([m] + rest, o, k) == Start(rest, m.next, k - 1);
      }
    }
  }

  /** Once the loop of `zip_read` has accepted z, the listing has as many members as
      counted, each stands behind the one before inside the view, is sound, unencrypted
      and on the first disk, and the last one ends at `members_end`. */
  lemma AcceptedSound(z: Zip, k: nat)
    requires CheckMembers(z.src, z.membersBegin, z.numMembers) == Some(z.membersEnd) && k < z.numMembers
    ensures var ms := Listing(z);
            var it := Start(ms, z.membersBegin, k);
            && |ms| == z.numMembers && z.membersBegin <= it < ms[k].next <= z.membersEnd <= |z.src|
            && CheckMember(z.src, it).Some? && ms[k] == MemberAt(z.src, it) && Sound(ms[k])
            && it + 46 <= |z.src| && Read16(z.src, it + 8) % 2 == 0 && Read16(z.src, it + 34) == 0
            && Start(ms, z.membersBegin, z.numMembers) == z.membersEnd
  {
    hide CheckMember, MemberAt, Sound, CheckMembers, Members, Read16;
    MembersChain(z.src, z.membersBegin, z.numMembers, k);
    CheckedPlain(z.src, Start(Listing(z), z.membersBegin, k));
    MembersOrder(z.src, z.membersBegin, z.numMembers, k);
  }

  lemma CheckedPlain(src: Bytes, o: nat)
    requires CheckMember(src, o).Some?
    ensures o + 46 <= |src| && Read16(src, o + 8) % 2 == 0 && Read16(src, o + 34) == 0
  {
    hide CheckMember, Read16, Read32, LocalAt;
    CheckedExactly(src, o);
  }

  lemma {:induction false} MembersOrder(src: Bytes, o: nat, n: nat, k: nat)
    requires CheckMembers(src, o, n).Some? && k < n
    ensures var ms := Members(src, o, n);
            o <= Start(ms, o, k) < ms[k].next <= CheckMembers(src, o, n).value <= |src|
    decreases n
  {
    hide CheckMember, MemberAt;
    var m := MemberAt(src, o);
    var rest := Members(src, m.next, n - 1);
    assert Members(src, o, n) == [m] + rest;
    if n > 1 {
      MembersOrder(src, m.next, n - 1, if k == 0 then 0 else k - 1);
      if k > 0 {
        assert Start([m] + rest, o, k) == Start(rest, m.next, k - 1);
      }
    }
  }

  /** One successful `zip_read` of any file is enough: the listing has as many members as
      the end record counts, each stands behind the one before inside the view, is sound,
      unencrypted and on the first disk, and the last one ends at `members_end`. */
  lemma ListingSound(src: Bytes, k: nat)
    requires ZipRead(src).Opened? && k < ZipRead(src).zip.numMembers
    ensures var z := ZipRead(src).zip;
            && z.numMembers == EocdrAt(src, FindEocdr(src)).cdEntries
            && CheckMembers(z.src, z.membersBegin, z.numMembers) == Some(z.membersEnd)
            && var ms := Listing(z);
               var it := Start(ms, z.membersBegin, k);
               && |ms| == z.numMembers && z.membersBegin <= it < ms[k].next <= z.membersEnd <= |z.src|
               && CheckMember(z.src, it).Some? && ms[k] == MemberAt(z.src, it) && Sound(ms[k])
               && it + 46 <= |z.src| && Read16(z.src, it + 8) % 2 == 0 && Read16(z.src, it + 34) == 0
               && Start(ms, z.membersBegin, z.numMembers) == z.membersEnd
  {
    hide *;
    OpenedChecked(src);
    AcceptedSound(ZipRead(src).zip, k);
  }

  /** The view puts the end record where the directory it describes is claimed to end,
      and it starts in front of the buffer exactly when that claim, in 32 bits, exceeds
      the place where the record was found. */
  lemma OutsideExactly(src: Bytes, o: nat)
    requires FindEocdr(src) == o > 0
    ensures ViewStart(src, o) + ArchiveLength(EocdrAt(src, o)) == o
    ensures ViewStart(src, o) < 0 <==> ArchiveLength(EocdrAt(src, o)) > o
    ensures ZipRead(src).OutsideBuffer? <==> ArchiveLength(EocdrAt(src, o)) > o
  {
    hide FindEocdr, EocdrAt, ArchiveLength, CheckMembers;
  }

  /** An opened view is the end of the file from its start on, and the end record stands
      in it at the claimed offset, followed by the archive comment. */
  lemma ViewAligned(src: Bytes)
    requires ZipRead(src).Opened?
    ensures var o, z := FindEocdr(src), ZipRead(src).zip;
            var e := EocdrAt(src, o);
            var n := ArchiveLength(e);
            && 0 <= ViewStart(src, o) == o - n && z.src == src[ViewStart(src, o)..] && |z.src| == ViewLength(src, o)
            && n + EOCDR_BASE_SZ <= |z.src| && EocdrAt(z.src, n) == e && Read32(z.src, n) == Read32(src, o)
            && z.comment == z.src[n + EOCDR_BASE_SZ..]
  {
    hide CheckMembers, EocdrAt, FindEocdr, ArchiveLength, Read32;
    var o := FindEocdr(src);
    var n := ArchiveLength(EocdrAt(src, o));
    var view, before := src[o - n..], src[..o - n];
    assert before + view == src;
    EocdrBehind(before, view, n);
  }

  // --- An archive glued behind something else ---

  /** A number depends on its bytes alone, not on where they stand. */
  lemma {:induction false} NumberInside(src: Bytes, o: nat, b: Bytes, i: nat, j: nat)
    requires i <= j <= |b| && o + |b| <= |src| && forall k :: i <= k < j ==> src[o + k] == b[k]
    ensures Number(src, o + i, o + j) == Number(b, i, j)
    decreases j - i
  {
    if i < j {
      assert src[o + i] == b[i];
      NumberInside(src, o, b, i + 1, j);
    }
  }

  lemma ReadBehind(p: Bytes, s: Bytes, i: nat)
    ensures i + 2 <= |s| ==> Read16(p + s, |p| + i) == Read16(s, i)
    ensures i + 4 <= |s| ==> Read32(p + s, |p| + i) == Read32(s, i)
  {
    if i + 2 <= |s| {
      NumberInside(p + s, |p|, s, i, i + 2);
    }
    if i + 4 <= |s| {
      NumberInside(p + s, |p|, s, i, i + 4);
    }
  }

  lemma EocdrBehind(p: Bytes, s: Bytes, o: nat)
    requires o + EOCDR_BASE_SZ <= |s|
    ensures EocdrAt(p + s, |p| + o) == EocdrAt(s, o) && Read32(p + s, |p| + o) == Read32(s, o)
  {
    ReadBehind(p, s, o);
    ReadBehind(p, s, o + 4);
    ReadBehind(p, s, o + 6);
    ReadBehind(p, s, o + 8);
    ReadBehind(p, s, o + 10);
    ReadBehind(p, s, o + 12);
    ReadBehind(p, s, o + 16);
    ReadBehind(p, s, o + 20);
  }

  lemma EndRecordBehind(p: Bytes, s: Bytes, k: nat)
    requires EOCDR_BASE_SZ + k <= |s|
    ensures EndRecordAt(p + s, k) <==> EndRecordAt(s, k)
  {
    EocdrBehind(p, s, |s| - EOCDR_BASE_SZ - k);
  }

  lemma {:induction false} FindBehind(p: Bytes, s: Bytes, k: nat)
    requires FindFrom(s, k) > 0
    ensures FindFrom(p + s, k) == |p| + FindFrom(s, k)
    decreases UINT16_MAX + 1 - k
  {
    EndRecordBehind(p, s, k);
    if !EndRecordAt(s, k) {
      FindBehind(p, s, k + 1);
    }
  }

  lemma EndRecordKept(p: Bytes, s: Bytes, o: nat, n: nat)
    requires FindEocdr(s) == o > 0 && n <= o
    ensures FindEocdr(p + s) == |p| + o && EocdrAt(p + s, |p| + o) == EocdrAt(s, o)
    ensures (p + s)[|p| + o - n..] == s[o - n..]
    ensures (p + s)[|p| + o + EOCDR_BASE_SZ..] == s[o + EOCDR_BASE_SZ..]
  {
    hide EocdrAt, FindFrom;
    FindBehind(p, s, 0);
    EocdrBehind(p, s, o);
    SuffixBehind(p, s, o - n);
    SuffixBehind(p, s, o + EOCDR_BASE_SZ);
  }

  /** Prefix independence: whatever stands in front of a file that is read without
      leaving it, a JPEG image for instance, the view and all members are the same. */
  lemma PrefixIndependence(p: Bytes, s: Bytes)
    requires ZipRead(s).Opened?
    ensures ZipRead(p + s) == ZipRead(s)
  {
    ReadKept(p, s, FindEocdr(s), EocdrAt(s, FindEocdr(s)));
  }

  lemma ReadKept(p: Bytes, s: Bytes, o: nat, e: Eocdr)
    requires FindEocdr(s) == o > 0 && EocdrAt(s, o) == e && ArchiveLength(e) <= o
    ensures ZipRead(p + s) == ZipRead(s)
  {
    hide OpenView, EocdrAt, FindEocdr, ArchiveLength;
    var view, comment := s[o - ArchiveLength(e)..], s[o + EOCDR_BASE_SZ..];
    EndRecordKept(p, s, o, ArchiveLength(e));
    ZipReadAt(s, o, e, view, comment);
    ZipReadAt(p + s, |p| + o, e, view, comment);
  }

  lemma ZipReadAt(src: Bytes, o: nat, e: Eocdr, view: Bytes, comment: Bytes)
    requires FindEocdr(src) == o > 0 && EocdrAt(src, o) == e && ArchiveLength(e) <= o
    requires view == src[o - ArchiveLength(e)..] && comment == src[o + EOCDR_BASE_SZ..]
    ensures ZipRead(src) == OpenView(e, view, comment)
  {
  }

  lemma SuffixBehind(p: Bytes, s: Bytes, i: nat)
    requires i <= |s|
    ensures (p + s)[|p| + i..] == s[i..]
  {
  }
}
