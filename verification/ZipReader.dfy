/** The readers of HW01-Zipjpeg/src/zip.c in place: a cursor walks over the bytes, and
    every assertion of the source is an assertion here. */
module ZipReader {
  import opened Basics
  import opened ZipFormat

  /** `find_eocdr`. */
  method FindEndRecord(src: Bytes) returns (offset: nat, r: Eocdr)
    ensures offset == FindEocdr(src)
    ensures offset > 0 ==> r == EocdrAt(src, offset)
  {
    hide Read16, Read32;
    r := Eocdr(0, 0, 0, 0, 0, 0, 0);
    var commentLen := 0;
    while commentLen <= UINT16_MAX
      invariant FindFrom(src, commentLen) == FindEocdr(src)
      decreases UINT16_MAX + 1 - commentLen
    {
      if |src| < EOCDR_BASE_SZ + commentLen {
        break;
      }
      offset := |src| - EOCDR_BASE_SZ - commentLen;
      var p := offset;
      var signature := Read32(src, p);
      p := p + 4;
      if signature == EOCDR_SIGNATURE {
        var diskNbr := Read16(src, p); p := p + 2;
        var cdStartDisk := Read16(src, p); p := p + 2;
        var diskCdEntries := Read16(src, p); p := p + 2;
        var cdEntries := Read16(src, p); p := p + 2;
        var cdSize := Read32(src, p); p := p + 4;
        var cdOffset := Read32(src, p); p := p + 4;
        var storedLen := Read16(src, p); p := p + 2;
        r := Eocdr(diskNbr, cdStartDisk, diskCdEntries, cdEntries, cdSize, cdOffset, storedLen);
        assert p == |src| - commentLen;
        assert r == EocdrAt(src, offset);
        if r.commentLen == commentLen {
          return;
        }
      }
      commentLen := commentLen + 1;
    }
    offset := 0;
  }

  /** `read_cfh`. */
  method ReadCfh(src: Bytes, offset: nat) returns (ok: bool, h: Cfh)
    ensures ok <==> CfhOk(src, offset)
    ensures ok ==> h == CfhAt(src, offset)
  {
    hide Read16, Read32;
    h := Cfh(0, 0, 0, 0, 0, 0, 0, 0, 0, 0, 0, 0, 0, 0, 0, 0);
    if offset > |src| || |src| - offset < CFH_BASE_SZ {
      return false, h;
    }
    var p := offset;
    var signature := Read32(src, p); p := p + 4;
    if signature != CFH_SIGNATURE {
      return false, h;
    }
    var madeByVer := Read16(src, p); p := p + 2;
    var extractVer := Read16(src, p); p := p + 2;
    var gpFlag := Read16(src, p); p := p + 2;
    var compMethod := Read16(src, p); p := p + 2;
    var modTime := Read16(src, p); p := p + 2;
    var modDate := Read16(src, p); p := p + 2;
    var crc32 := Read32(src, p); p := p + 4;
    var compSize := Read32(src, p); p := p + 4;
    var uncompSize := Read32(src, p); p := p + 4;
    var nameLen := Read16(src, p); p := p + 2;
    var extraLen := Read16(src, p); p := p + 2;
    var commentLen := Read16(src, p); p := p + 2;
    var diskNbrStart := Read16(src, p); p := p + 2;
    var intAttrs := Read16(src, p); p := p + 2;
    var extAttrs := Read32(src, p); p := p + 4;
    var lfhOffset := Read32(src, p); p := p + 4;
    h := Cfh(madeByVer, extractVer, gpFlag, compMethod, modTime, modDate, crc32, compSize, uncompSize,
             nameLen, extraLen, commentLen, diskNbrStart, intAttrs, extAttrs, lfhOffset);
    assert p == offset + CFH_BASE_SZ;
    assert h == CfhAt(src, offset);
    ok := |src| - offset - CFH_BASE_SZ >= nameLen + extraLen + commentLen;
  }

  /** `read_lfh`. */
  method ReadLfh(src: Bytes, offset: nat) returns (ok: bool, h: Lfh)
    ensures ok <==> LfhOk(src, offset)
    ensures ok ==> h == LfhAt(src, offset)
  {
    hide Read16, Read32;
    h := Lfh(0, 0, 0, 0, 0, 0, 0, 0, 0, 0);
    if offset > |src| || |src| - offset < LFH_BASE_SZ {
      return false, h;
    }
    var p := offset;
    var signature := Read32(src, p); p := p + 4;
    if signature != LFH_SIGNATURE {
      return false, h;
    }
    var extractVer := Read16(src, p); p := p + 2;
    var gpFlag := Read16(src, p); p := p + 2;
    var compMethod := Read16(src, p); p := p + 2;
    var modTime := Read16(src, p); p := p + 2;
    var modDate := Read16(src, p); p := p + 2;
    var crc32 := Read32(src, p); p := p + 4;
    var compSize := Read32(src, p); p := p + 4;
    var uncompSize := Read32(src, p); p := p + 4;
    var nameLen := Read16(src, p); p := p + 2;
    var extraLen := Read16(src, p); p := p + 2;
    h := Lfh(extractVer, gpFlag, compMethod, modTime, modDate, crc32, compSize, uncompSize, nameLen, extraLen);
    assert p == offset + LFH_BASE_SZ;
    assert h == LfhAt(src, offset);
    ok := |src| - offset - LFH_BASE_SZ >= nameLen + extraLen;
  }

  /** One round of the loop of `zip_read`. */
  method Check(src: Bytes, offset: nat) returns (ok: bool, next: nat)
    ensures CheckMember(src, offset) == if ok then Some(next) else None
  {
    next := 0;
    var cfhOk, h := ReadCfh(src, offset);
    if !cfhOk {
      return false, 0;
    }
    if h.gpFlag % 2 == 1 {
      return false, 0;
    }
    if h.compMethod != ZIP_STORED && h.compMethod != ZIP_DEFLATED {
      return false, 0;
    }
    if h.compMethod == ZIP_STORED && h.uncompSize != h.compSize {
      return false, 0;
    }
    if h.diskNbrStart != 0 {
      return false, 0;
    }
    if !NulFree(src, offset + CFH_BASE_SZ, offset + CFH_BASE_SZ + h.nameLen) {
      return false, 0;
    }
    var lfhOk, l := ReadLfh(src, h.lfhOffset);
    if !lfhOk {
      return false, 0;
    }
    var compData := h.lfhOffset + LFH_BASE_SZ + l.nameLen + l.extraLen;
    if h.compSize > |src| - compData {
      return false, 0;
    }
    return true, offset + CFH_BASE_SZ + h.nameLen + h.extraLen + h.commentLen;
  }

  datatype Status = Ok | Failed | Undefined

  /** `zip_t`. */
  class ZipArchive {
    var src: Bytes
    var numMembers: nat
    var comment: Bytes
    var membersBegin: nat
    var membersEnd: nat

    constructor ()
    {
      src, numMembers, comment, membersBegin, membersEnd := [], 0, [], 0, 0;
    }

    ghost function Contents(): Zip
      reads this
    {
      Zip(src, numMembers, comment, membersBegin, membersEnd)
    }

    /** What `zip_read` leaves behind when it succeeds. */
    ghost predicate Valid()
      reads this
    {
      CheckMembers(src, membersBegin, numMembers) == Some(membersEnd)
    }

    /** `zip_read`; Undefined when the view would start in front of the buffer. */
    method Read(data: Bytes) returns (status: Status)
      modifies this
      ensures status == match ZipRead(data)
                        case Rejected => Failed
                        case OutsideBuffer => Undefined
                        case Opened(_) => Ok
      ensures status.Ok? ==> Valid() && Opened(Contents()) == ZipRead(data)
    {
      hide CheckMembers, EndRecordAt, EocdrAt;
      var eocdrOffset, eocdr := FindEndRecord(data);
      if eocdrOffset == 0 {
        return Failed;
      }
      var archive := (eocdr.cdOffset + eocdr.cdSize) % 0x1_0000_0000;
      var viewLength := archive + |data| - eocdrOffset;
      var start := |data| - viewLength;
      if start < 0 {
        return Undefined;
      }
      src := data[start..];
      if eocdr.diskNbr != 0 || eocdr.cdStartDisk != 0 || eocdr.diskCdEntries != eocdr.cdEntries {
        return Failed;
      }
      numMembers := eocdr.cdEntries;
      comment := data[eocdrOffset + EOCDR_BASE_SZ..];
      membersBegin := eocdr.cdOffset;
      var ok, end := CheckAll(src, membersBegin, numMembers);
      if !ok {
        return Failed;
      }
      membersEnd := end;
      return Ok;
    }

    /** `zip_member` for the iterator of member k. */
    method GetMember(it: nat, ghost k: nat) returns (m: Member)
      requires Valid() && k < numMembers && membersBegin <= it
      requires CheckMembers(src, it, numMembers - k) == Some(membersEnd)
      ensures m == MemberAt(src, it) && it < m.next
      ensures CheckMembers(src, m.next, numMembers - k - 1) == Some(membersEnd)
    {
      hide CheckMember, CfhAt, LfhAt, CfhOk, LfhOk;
      CheckedMember(src, it);
      assert it >= membersBegin && it < membersEnd;
      var ok, h := ReadCfh(src, it);
      assert ok;
      var lfhOk, l := ReadLfh(src, h.lfhOffset);
      assert lfhOk;
      var name := it + CFH_BASE_SZ;
      var data := h.lfhOffset + LFH_BASE_SZ + l.nameLen + l.extraLen;
      var note := name + h.nameLen + h.extraLen;
      m := Member(src[name..name + h.nameLen], h.compSize, src[data..data + h.compSize], h.compMethod, h.uncompSize,
                  h.crc32, src[note..note + h.commentLen], (h.extAttrs / EXT_ATTR_DIR) % 2 == 1,
                  it + CFH_BASE_SZ + h.nameLen + h.extraLen + h.commentLen);
      assert m.next <= membersEnd;
    }

    /** The loop of `list_zip`: it visits exactly the members that were checked and
        stops exactly at `members_end`. */
    method List() returns (members: seq<Member>)
      requires Valid()
      ensures members == Listing(Contents())
    {
      hide CheckMember, MemberAt;
      members := [];
      var it := membersBegin;
      ghost var k := 0;
      while it != membersEnd
        invariant 0 <= k <= numMembers && membersBegin <= it
        invariant CheckMembers(src, it, numMembers - k) == Some(membersEnd)
        invariant members + Members(src, it, numMembers - k) == Listing(Contents())
        decreases numMembers - k
      {
        var m := GetMember(it, k);
        members := members + [m];
        it := m.next;
        k := k + 1;
      }
      assert k == numMembers;
    }
  }

  /** The loop of `zip_read` over the central directory. */
  method CheckAll(src: Bytes, begin: nat, n: nat) returns (ok: bool, end: nat)
    ensures CheckMembers(src, begin, n) == if ok then Some(end) else None
  {
    hide CheckMember;
    end := begin;
    var i := 0;
    while i < n
      invariant 0 <= i <= n
      invariant CheckMembers(src, begin, n) == CheckMembers(src, end, n - i)
    {
      var good, next := Check(src, end);
      if !good {
        return false, end;
      }
      end := next;
      i := i + 1;
    }
    return true, end;
  }
}
