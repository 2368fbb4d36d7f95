/** Well-formed archives as bytes, and what the reader makes of them. */
module ZipFormat {
  import opened Common
  import opened ZipReader

  function U16(n: nat): Buffer
    requires n < 65536
  {
    [n % 256, n / 256]
  }

  function U32(n: nat): Buffer
    requires n < 0x1_0000_0000
  {
    U16(n % 65536) + U16(n / 65536)
  }

  /**
   * One member. The fixed-width fields the reader ignores are arbitrary bytes: `localA` (version,
   * flags), `localB` (time, date, checksum), `localSizes` (both sizes, zero when a data descriptor
   * carries them), and in the central header `centralA` (two versions,
   * flags), `centralB` (time, date, checksum), `centralC` (disk, attributes). `trailer` is whatever
   * follows the data before the next header, such as a data descriptor.
   */
  datatype Member = Member(
    name: Buffer, compression: nat, data: Buffer, uncompressedSize: nat,
    localA: Buffer, localB: Buffer, localSizes: Buffer, localExtra: Buffer, trailer: Buffer,
    centralA: Buffer, centralB: Buffer, centralC: Buffer, centralExtra: Buffer, comment: Buffer
  )

  ghost predicate WellFormed(m: Member) {
    && |m.name| < 65536 && |m.localExtra| < 65536 && |m.centralExtra| < 65536 && |m.comment| < 65536
    && m.compression < 65536 && |m.data| < 0x1_0000_0000 && m.uncompressedSize < 0x1_0000_0000
    && |m.localA| == 4 && |m.localB| == 8 && |m.localSizes| == 8
    && |m.centralA| == 6 && |m.centralB| == 8 && |m.centralC| == 8
  }

  /** Section 4.3.7, then the file data. */
  function LocalPart(m: Member): Buffer
    requires WellFormed(m)
  {
    LocalHeader(m) + (m.name + (m.localExtra + (m.data + m.trailer)))
  }

  function LocalHeader(m: Member): (r: Buffer)
    requires WellFormed(m)
    ensures |r| == LOCAL_HEADER
  {
    U32(LOCAL_SIGNATURE) + m.localA + U16(m.compression) + m.localB + m.localSizes
    + U16(|m.name|) + U16(|m.localExtra|)
  }

  /** Section 4.3.12. */
  function CentralPart(m: Member, offset: nat): Buffer
    requires WellFormed(m) && offset < 0x1_0000_0000
  {
    CentralHeader(m, offset) + (m.name + (m.centralExtra + m.comment))
  }

  function CentralHeader(m: Member, offset: nat): (r: Buffer)
    requires WellFormed(m) && offset < 0x1_0000_0000
    ensures |r| == CENTRAL_HEADER
  {
    U32(CENTRAL_SIGNATURE) + m.centralA + U16(m.compression) + m.centralB + U32(|m.data|)
    + U32(m.uncompressedSize) + U16(|m.name|) + U16(|m.centralExtra|) + U16(|m.comment|) + m.centralC + U32(offset)
  }

  /**
   * The members in the order of their local parts, and the order in which the central directory
   * lists them: usually all of them once, but any order will do, removed members being unlisted.
   */
  datatype Archive = Archive(members: seq<Member>, order: seq<nat>, disks: Buffer, comment: Buffer)

  /** Section 4.3.16. */
  function EndRecord(a: Archive, size: nat, offset: nat): Buffer
    requires |a.order| < 65536 && |a.disks| == 4 && |a.comment| < 65536
    requires size < 0x1_0000_0000 && offset < 0x1_0000_0000
  {
    U32(END_SIGNATURE) + a.disks + U16(|a.order|) + U16(|a.order|) + U32(size) + U32(offset) + U16(|a.comment|) + a.comment
  }

  function Locals(ms: seq<Member>): Buffer
    requires forall m :: m in ms ==> WellFormed(m)
  {
    if ms == [] then [] else Locals(ms[..|ms| - 1]) + LocalPart(ms[|ms| - 1])
  }

  /** Where the local header of member `k` starts. */
  function OffsetOf(ms: seq<Member>, k: nat): nat
    requires k <= |ms| && forall m :: m in ms ==> WellFormed(m)
  {
    |Locals(ms[..k])|
  }

  ghost predicate Listable(ms: seq<Member>, order: seq<nat>) {
    && (forall m :: m in ms ==> WellFormed(m))
    && (forall i :: i in order ==> i < |ms|)
    && |Locals(ms)| < 0x1_0000_0000
  }

  /** The central headers listed from position `k` onwards. */
  function Centrals(ms: seq<Member>, order: seq<nat>, k: nat): Buffer
    requires k <= |order| && Listable(ms, order)
    decreases |order| - k
  {
    if k == |order| then []
    else
      assert order[k] in order;
      OffsetsGrow(ms, order[k]);
      CentralPart(ms[order[k]], OffsetOf(ms, order[k])) + Centrals(ms, order, k + 1)
  }

  ghost predicate WellFormedArchive(a: Archive) {
    && Listable(a.members, a.order)
    && |a.order| < 65536 && |a.disks| == 4 && |a.comment| < 65536
    && |Centrals(a.members, a.order, 0)| < 0x1_0000_0000
  }

  function EndOffset(a: Archive): nat
    requires WellFormedArchive(a)
  {
    |Locals(a.members)| + |Centrals(a.members, a.order, 0)|
  }

  function Write(a: Archive): Buffer
    requires WellFormedArchive(a)
  {
    Locals(a.members) + (Centrals(a.members, a.order, 0) + EndRecord(a, |Centrals(a.members, a.order, 0)|, |Locals(a.members)|))
  }

  /** No later position reads as an end record: the archive comment does not fake one. */
  ghost predicate NoLaterEnd(a: Archive)
    requires WellFormedArchive(a)
  {
    forall i :: EndOffset(a) < i && i + END_RECORD <= |Write(a)| ==> ReadU32(Write(a), i) != END_SIGNATURE
  }

  function ExpectedEntry(ms: seq<Member>, k: nat): ZipEntry
    requires k < |ms| && forall m :: m in ms ==> WellFormed(m)
  {
    ZipEntry(ms[k].name, ms[k].compression, |ms[k].data|, OffsetOf(ms, k))
  }

  function ExpectedEntries(ms: seq<Member>, order: seq<nat>, k: nat): (r: seq<ZipEntry>)
    requires k <= |order| && (forall m :: m in ms ==> WellFormed(m)) && forall i :: i in order ==> i < |ms|
    decreases |order| - k
  {
    if k == |order| then []
    else
      assert order[k] in order;
      [ExpectedEntry(ms, order[k])] + ExpectedEntries(ms, order, k + 1)
  }

  lemma {:induction false} OffsetsGrow(ms: seq<Member>, k: nat)
    requires k <= |ms| && forall m :: m in ms ==> WellFormed(m)
    ensures OffsetOf(ms, k) <= |Locals(ms)|
    decreases |ms| - k
  {
    if k == |ms| {
      assert ms[..k] == ms;
    } else {
      OffsetsGrow(ms, k + 1);
      assert ms[..k + 1][..k] == ms[..k];
    }
  }

  // ----- Parts inside a buffer -----

  /** `part` sits in `b` at `at`. */
  ghost predicate Holds(b: Buffer, at: nat, part: Buffer) {
    at + |part| <= |b| && b[at..at + |part|] == part
  }

  lemma HoldsSplit(b: Buffer, at: nat, x: Buffer, y: Buffer)
    requires Holds(b, at, x + y)
    ensures Holds(b, at, x) && Holds(b, at + |x|, y)
  {
    assert b[at..at + |x| + |y|] == x + y;
    assert b[at..at + |x|] == b[at..at + |x| + |y|][..|x|];
    assert b[at + |x|..at + |x| + |y|] == b[at..at + |x| + |y|][|x|..];
  }

  lemma ReadsU16(b: Buffer, at: nat, n: nat)
    requires n < 65536 && Holds(b, at, U16(n))
    ensures at + 2 <= |b| && ReadU16(b, at) == n
  {
    assert b[at] == b[at..at + 2][0] && b[at + 1] == b[at..at + 2][1];
  }

  lemma ReadsU32(b: Buffer, at: nat, n: nat)
    requires n < 0x1_0000_0000 && Holds(b, at, U32(n))
    ensures at + 4 <= |b| && ReadU32(b, at) == n
  {
    HoldsSplit(b, at, U16(n % 65536), U16(n / 65536));
    ReadsU16(b, at, n % 65536);
    ReadsU16(b, at + 2, n / 65536);
  }

  lemma SubarrayOfPart(b: Buffer, at: nat, part: Buffer)
    requires Holds(b, at, part)
    ensures Subarray(b, at, at + |part|) == part
  {
  }

  // ----- One local part, one central part -----

  lemma LocalHeaderReads(b: Buffer, at: nat, m: Member)
    requires WellFormed(m) && Holds(b, at, LocalHeader(m))
    ensures at + LOCAL_HEADER <= |b|
    ensures ReadU32(b, at) == LOCAL_SIGNATURE
    ensures ReadU16(b, at + 26) == |m.name| && ReadU16(b, at + 28) == |m.localExtra|
  {
    var p1 := U32(LOCAL_SIGNATURE);
    var p2 := p1 + m.localA + U16(m.compression) + m.localB + m.localSizes;
    HoldsSplit(b, at, p2 + U16(|m.name|), U16(|m.localExtra|));
    HoldsSplit(b, at, p2, U16(|m.name|));
    ReadsU16(b, at + 26, |m.name|);
    ReadsU16(b, at + 28, |m.localExtra|);
    var rest := m.localA + U16(m.compression) + m.localB + m.localSizes;
    assert p2 == p1 + rest;
    HoldsSplit(b, at, p1, rest);
    ReadsU32(b, at, LOCAL_SIGNATURE);
  }

  lemma LocalPartReads(b: Buffer, m: Member, offset: nat, inflate: Buffer -> Option<Buffer>)
    requires WellFormed(m) && Holds(b, offset, LocalPart(m))
    ensures Data(b, ZipEntry(m.name, m.compression, |m.data|, offset), inflate)
         == if m.compression == 0 then Some(m.data) else if m.compression == 8 then inflate(m.data) else None
  {
    hide Holds;
    hide Subarray;
    hide ReadU16;
    hide ReadU32;
    hide LocalHeader;
    hide WellFormed;
    var header := LocalHeader(m);
    HoldsSplit(b, offset, header, m.name + (m.localExtra + (m.data + m.trailer)));
    HoldsSplit(b, offset + 30, m.name, m.localExtra + (m.data + m.trailer));
    HoldsSplit(b, offset + 30 + |m.name|, m.localExtra, m.data + m.trailer);
    HoldsSplit(b, offset + 30 + |m.name| + |m.localExtra|, m.data, m.trailer);
    LocalHeaderReads(b, offset, m);
    SubarrayOfPart(b, offset + 30 + |m.name| + |m.localExtra|, m.data);
  }

  lemma CentralHeaderReads(b: Buffer, at: nat, m: Member, offset: nat)
    requires WellFormed(m) && offset < 0x1_0000_0000 && Holds(b, at, CentralHeader(m, offset))
    ensures at + CENTRAL_HEADER <= |b|
    ensures ReadU32(b, at) == CENTRAL_SIGNATURE
    ensures ReadU16(b, at + 10) == m.compression
    ensures ReadU32(b, at + 20) == |m.data|
    ensures ReadU16(b, at + 28) == |m.name| && ReadU16(b, at + 30) == |m.centralExtra| && ReadU16(b, at + 32) == |m.comment|
    ensures ReadU32(b, at + 42) == offset
  {
    var p1 := U32(CENTRAL_SIGNATURE);
    var p2 := p1 + m.centralA;
    var p3 := p2 + U16(m.compression);
    var p4 := p3 + m.centralB;
    var p5 := p4 + U32(|m.data|);
    var p6 := p5 + U32(m.uncompressedSize);
    var p7 := p6 + U16(|m.name|);
    var p8 := p7 + U16(|m.centralExtra|);
    var p9 := p8 + U16(|m.comment|);
    var p10 := p9 + m.centralC;
    HoldsSplit(b, at, p10, U32(offset));
    HoldsSplit(b, at, p9, m.centralC);
    HoldsSplit(b, at, p8, U16(|m.comment|));
    HoldsSplit(b, at, p7, U16(|m.centralExtra|));
    HoldsSplit(b, at, p6, U16(|m.name|));
    HoldsSplit(b, at, p5, U32(m.uncompressedSize));
    HoldsSplit(b, at, p4, U32(|m.data|));
    HoldsSplit(b, at, p3, m.centralB);
    HoldsSplit(b, at, p2, U16(m.compression));
    HoldsSplit(b, at, p1, m.centralA);
    ReadsU32(b, at, CENTRAL_SIGNATURE);
    ReadsU16(b, at + 10, m.compression);
    ReadsU32(b, at + 20, |m.data|);
    ReadsU16(b, at + 28, |m.name|);
    ReadsU16(b, at + 30, |m.centralExtra|);
    ReadsU16(b, at + 32, |m.comment|);
    ReadsU32(b, at + 42, offset);
  }

  lemma CentralPartReads(b: Buffer, at: nat, m: Member, offset: nat)
    requires WellFormed(m) && offset < 0x1_0000_0000 && Holds(b, at, CentralPart(m, offset))
    ensures CentralHeaderAt(b, at)
    ensures CentralEntry(b, at) == ZipEntry(m.name, m.compression, |m.data|, offset)
    ensures CentralSize(b, at) == |CentralPart(m, offset)|
  {
    HoldsSplit(b, at, CentralHeader(m, offset), m.name + (m.centralExtra + m.comment));
    HoldsSplit(b, at + 46, m.name, m.centralExtra + m.comment);
    CentralHeaderReads(b, at, m, offset);
    SubarrayOfPart(b, at + 46, m.name);
  }

  // ----- The whole archive -----

  lemma {:induction false} CentralDirectoryReads(b: Buffer, at: nat, ms: seq<Member>, order: seq<nat>, k: nat)
    requires k <= |order| && Listable(ms, order)
    requires Holds(b, at, Centrals(ms, order, k))
    ensures CentralEntries(b, at, |order| - k) == Some(ExpectedEntries(ms, order, k))
    decreases |order| - k
  {
    hide CentralPart;
    hide CentralEntry;
    hide CentralSize;
    hide CentralHeaderAt;
    hide Holds;
    if k < |order| {
      assert order[k] in order;
      var i := order[k];
      OffsetsGrow(ms, i);
      var part := CentralPart(ms[i], OffsetOf(ms, i));
      HoldsSplit(b, at, part, Centrals(ms, order, k + 1));
      CentralPartReads(b, at, ms[i], OffsetOf(ms, i));
      CentralDirectoryReads(b, at + |part|, ms, order, k + 1);
    }
  }

  lemma EndRecordReads(b: Buffer, at: nat, a: Archive, size: nat, offset: nat)
    requires |a.order| < 65536 && |a.disks| == 4 && |a.comment| < 65536
    requires size < 0x1_0000_0000 && offset < 0x1_0000_0000
    requires Holds(b, at, EndRecord(a, size, offset))
    ensures at + END_RECORD + |a.comment| <= |b|
    ensures ReadU32(b, at) == END_SIGNATURE
    ensures ReadU16(b, at + 10) == |a.order| && ReadU32(b, at + 16) == offset
  {
    var p1 := U32(END_SIGNATURE);
    var p2 := p1 + a.disks;
    var p3 := p2 + U16(|a.order|);
    var p4 := p3 + U16(|a.order|);
    var p5 := p4 + U32(size);
    var p6 := p5 + U32(offset);
    var p7 := p6 + U16(|a.comment|);
    HoldsSplit(b, at, p7, a.comment);
    HoldsSplit(b, at, p6, U16(|a.comment|));
    HoldsSplit(b, at, p5, U32(offset));
    HoldsSplit(b, at, p4, U32(size));
    HoldsSplit(b, at, p3, U16(|a.order|));
    HoldsSplit(b, at, p2, U16(|a.order|));
    HoldsSplit(b, at, p1, a.disks);
    ReadsU32(b, at, END_SIGNATURE);
    ReadsU16(b, at + 10, |a.order|);
    ReadsU32(b, at + 16, offset);
  }

  lemma TailReads(b: Buffer, i: nat)
    requires |b| - |TailOf(b)| <= i
    ensures i + 2 <= |b| ==> ReadU16(TailOf(b), i - (|b| - |TailOf(b)|)) == ReadU16(b, i)
    ensures i + 4 <= |b| ==> ReadU32(TailOf(b), i - (|b| - |TailOf(b)|)) == ReadU32(b, i)
  {
  }

  lemma EndRecordLength(a: Archive, size: nat, offset: nat)
    requires |a.order| < 65536 && |a.disks| == 4 && |a.comment| < 65536
    requires size < 0x1_0000_0000 && offset < 0x1_0000_0000
    ensures |EndRecord(a, size, offset)| == END_RECORD + |a.comment|
  {
  }

  /** The three regions of a written archive, and the fields of its end record. */
  lemma ArchiveRegions(a: Archive)
    requires WellFormedArchive(a)
    ensures var b := Write(a);
      && Holds(b, |Locals(a.members)|, Centrals(a.members, a.order, 0))
      && |b| == EndOffset(a) + END_RECORD + |a.comment|
      && ReadU32(b, EndOffset(a)) == END_SIGNATURE
      && ReadU16(b, EndOffset(a) + 10) == |a.order|
      && ReadU32(b, EndOffset(a) + 16) == |Locals(a.members)|
  {
    var b := Write(a);
    var locals, centrals := Locals(a.members), Centrals(a.members, a.order, 0);
    var record := EndRecord(a, |centrals|, |locals|);
    EndRecordLength(a, |centrals|, |locals|);
    assert Holds(b, 0, locals + (centrals + record));
    hide Write;
    hide Holds;
    hide Listable;
    hide Locals;
    hide Centrals;
    hide EndRecord;
    hide ReadU16;
    hide ReadU32;
    HoldsSplit(b, 0, locals, centrals + record);
    HoldsSplit(b, |locals|, centrals, record);
    EndRecordReads(b, EndOffset(a), a, |centrals|, |locals|);
  }

  /** A scan back from the end of `b` stops at `end`, given that it is the last end signature. */
  lemma LastSignatureIsFound(b: Buffer, end: nat)
    requires end + END_RECORD <= |b| && |b| - end <= TAIL
    requires ReadU32(b, end) == END_SIGNATURE
    requires forall i :: end < i && i + END_RECORD <= |b| ==> ReadU32(b, i) != END_SIGNATURE
    ensures var tail := TailOf(b);
            var skipped := |b| - |tail|;
      |tail| >= END_RECORD && skipped <= end && FindEnd(tail, |tail| - END_RECORD + 1) == Some(end - skipped)
  {
    var tail := TailOf(b);
    var skipped := |b| - |tail|;
    TailReads(b, end);
    var found := FindEnd(tail, |tail| - END_RECORD + 1);
    assert found.Some? && found.value >= end - skipped;
    TailReads(b, found.value + skipped);
  }

  /** The entries of a well-formed archive are read back in the order its directory lists them. */
  lemma EntriesReadBack(a: Archive)
    requires WellFormedArchive(a) && NoLaterEnd(a)
    ensures Entries(Write(a)) == Some(ExpectedEntries(a.members, a.order, 0))
  {
    ArchiveRegions(a);
    ReadsWhereTheEndRecordPoints(Write(a), EndOffset(a), a.members, a.order);
  }

  lemma ReadsWhereTheEndRecordPoints(b: Buffer, end: nat, ms: seq<Member>, order: seq<nat>)
    requires Listable(ms, order)
    requires end + END_RECORD <= |b| && |b| - end <= TAIL
    requires ReadU32(b, end) == END_SIGNATURE
    requires ReadU16(b, end + 10) == |order| && ReadU32(b, end + 16) == |Locals(ms)|
    requires forall i :: end < i && i + END_RECORD <= |b| ==> ReadU32(b, i) != END_SIGNATURE
    requires Holds(b, |Locals(ms)|, Centrals(ms, order, 0))
    ensures Entries(b) == Some(ExpectedEntries(ms, order, 0))
  {
    hide ReadU16;
    hide ReadU32;
    hide Holds;
    hide FindEnd;
    hide CentralEntries;
    hide TailOf;
    hide Locals;
    hide Centrals;
    hide ExpectedEntries;
    CentralDirectoryReads(b, |Locals(ms)|, ms, order, 0);
    hide Listable;
    DirectoryIsWhereTheEndRecordPoints(b, end);
  }

  /** The reader follows the last end record, found in the tail of the buffer. */
  lemma DirectoryIsWhereTheEndRecordPoints(b: Buffer, end: nat)
    requires end + END_RECORD <= |b| && |b| - end <= TAIL
    requires ReadU32(b, end) == END_SIGNATURE
    requires forall i :: end < i && i + END_RECORD <= |b| ==> ReadU32(b, i) != END_SIGNATURE
    ensures Entries(b) == CentralEntries(b, ReadU32(b, end + 16), ReadU16(b, end + 10))
  {
    hide ReadU16;
    hide ReadU32;
    hide FindEnd;
    hide CentralEntries;
    hide TailOf;
    LastSignatureIsFound(b, end);
    TailReads(b, end + 10);
    TailReads(b, end + 16);
  }

  lemma {:induction false} LocalsHoldEachPart(ms: seq<Member>, k: nat)
    requires k < |ms| && forall m :: m in ms ==> WellFormed(m)
    ensures Holds(Locals(ms), OffsetOf(ms, k), LocalPart(ms[k]))
  {
    var init := ms[..|ms| - 1];
    if k == |ms| - 1 {
    } else {
      LocalsHoldEachPart(init, k);
      assert init[..k] == ms[..k];
      var at := OffsetOf(ms, k);
      assert Locals(ms)[at..at + |LocalPart(ms[k])|] == Locals(init)[at..at + |LocalPart(ms[k])|];
    }
  }

  lemma {:induction false} ExpectedAt(ms: seq<Member>, order: seq<nat>, from: nat, k: nat)
    requires from <= k < |order| && (forall m :: m in ms ==> WellFormed(m)) && forall i :: i in order ==> i < |ms|
    ensures order[k] in order && |ExpectedEntries(ms, order, from)| == |order| - from
    ensures ExpectedEntries(ms, order, from)[k - from] == ExpectedEntry(ms, order[k])
    decreases |order| - from
  {
    if from < k {
      ExpectedAt(ms, order, from + 1, k);
    } else {
      ExpectedCount(ms, order, from);
    }
  }

  lemma {:induction false} ExpectedCount(ms: seq<Member>, order: seq<nat>, from: nat)
    requires from <= |order| && (forall m :: m in ms ==> WellFormed(m)) && forall i :: i in order ==> i < |ms|
    ensures |ExpectedEntries(ms, order, from)| == |order| - from
    decreases |order| - from
  {
    if from < |order| {
      ExpectedCount(ms, order, from + 1);
    }
  }

  /**
   * Every well-formed archive whose end record is the last one is read back exactly: as many
   * entries as its directory lists, in the order listed, each with its member's name, and its data
   * byte for byte (or its inflation when deflated).
   */
  lemma ArchiveReadsBack(a: Archive, k: nat, inflate: Buffer -> Option<Buffer>)
    requires WellFormedArchive(a) && NoLaterEnd(a) && k < |a.order|
    ensures a.order[k] in a.order && Entries(Write(a)).Some? && |Entries(Write(a)).value| == |a.order|
    ensures var entry := Entries(Write(a)).value[k];
            var m := a.members[a.order[k]];
      && entry.name == m.name && entry.compression == m.compression
      && (m.compression == 0 ==> Data(Write(a), entry, inflate) == Some(m.data))
      && (m.compression == 8 ==> Data(Write(a), entry, inflate) == inflate(m.data))
  {
    hide Data;
    hide Entries;
    hide Write;
    hide LocalPart;
    assert a.order[k] in a.order;
    EntriesReadBack(a);
    ExpectedAt(a.members, a.order, 0, k);
    WriteHoldsEachPart(a, a.order[k]);
    LocalPartReads(Write(a), a.members[a.order[k]], OffsetOf(a.members, a.order[k]), inflate);
  }

  lemma WriteHoldsEachPart(a: Archive, k: nat)
    requires WellFormedArchive(a) && k < |a.members|
    ensures Holds(Write(a), OffsetOf(a.members, k), LocalPart(a.members[k]))
  {
    LocalsHoldEachPart(a.members, k);
    HoldsInFront(Locals(a.members), Centrals(a.members, a.order, 0) + EndRecord(a, |Centrals(a.members, a.order, 0)|, |Locals(a.members)|),
                 OffsetOf(a.members, k), LocalPart(a.members[k]));
  }

  lemma HoldsInFront(x: Buffer, y: Buffer, at: nat, part: Buffer)
    requires Holds(x, at, part)
    ensures Holds(x + y, at, part)
  {
    assert (x + y)[at..at + |part|] == x[at..at + |part|];
  }
}
