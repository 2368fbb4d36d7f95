/**
 * The ZIP reader behind DOCX extraction (`zipEntries`, `zipRead`, packages/sidecar/src/docs.ts),
 * over bytes. Layouts are those of sections 4.3.7, 4.3.12 and 4.3.16 of PKWARE APPNOTE.TXT.
 */
module ZipReader {
  import opened Common

  type Byte = b: int | 0 <= b < 256
  type Buffer = seq<Byte>

  const LOCAL_SIGNATURE := 0x04034b50
  const CENTRAL_SIGNATURE := 0x02014b50
  const END_SIGNATURE := 0x06054b50
  const LOCAL_HEADER := 30
  const CENTRAL_HEADER := 46
  const END_RECORD := 22

  /** The end record and the longest comment that may follow it. */
  const TAIL := 65557

  function ReadU16(b: Buffer, at: nat): nat
    requires at + 2 <= |b|
  {
    b[at] as int + 256 * (b[at + 1] as int)
  }

  function ReadU32(b: Buffer, at: nat): nat
    requires at + 4 <= |b|
  {
    ReadU16(b, at) + 65536 * ReadU16(b, at + 2)
  }

  /** `b.subarray(from, to)`: both ends are cut to the buffer. */
  function Subarray(b: Buffer, from: nat, to: nat): Buffer {
    var end := if to <= |b| then to else |b|;
    if from <= end then b[from..end] else []
  }

  datatype ZipEntry = ZipEntry(name: Buffer, compression: nat, compressedSize: nat, localOffset: nat)

  // ----- What the reader computes -----

  /** The last end-record signature at position `n - 1` or before. */
  function FindEnd(tail: Buffer, n: int): (r: Option<nat>)
    requires n - 1 + END_RECORD <= |tail| || n <= 0
    ensures r.Some? ==> r.value < n && ReadU32(tail, r.value) == END_SIGNATURE
    ensures forall i :: 0 <= i < n && (r.None? || i > r.value) ==> ReadU32(tail, i) != END_SIGNATURE
    decreases if n > 0 then n else 0
  {
    if n <= 0 then None
    else if ReadU32(tail, n - 1) == END_SIGNATURE then Some(n - 1)
    else FindEnd(tail, n - 1)
  }

  function CentralEntry(b: Buffer, at: nat): ZipEntry
    requires at + CENTRAL_HEADER <= |b|
  {
    ZipEntry(
      Subarray(b, at + CENTRAL_HEADER, at + CENTRAL_HEADER + ReadU16(b, at + 28)),
      ReadU16(b, at + 10),
      ReadU32(b, at + 20),
      ReadU32(b, at + 42))
  }

  function CentralSize(b: Buffer, at: nat): nat
    requires at + CENTRAL_HEADER <= |b|
  {
    CENTRAL_HEADER + ReadU16(b, at + 28) + ReadU16(b, at + 30) + ReadU16(b, at + 32)
  }

  predicate CentralHeaderAt(b: Buffer, at: nat) {
    at + CENTRAL_HEADER <= |b| && ReadU32(b, at) == CENTRAL_SIGNATURE
  }

  /** `n` central headers in a row; a missing one refuses the archive. */
  function CentralEntries(b: Buffer, at: nat, n: nat): Option<seq<ZipEntry>>
    decreases n
  {
    if n == 0 then Some([])
    else if !CentralHeaderAt(b, at) then None
    else
      var rest := CentralEntries(b, at + CentralSize(b, at), n - 1);
      if rest.None? then None else Some([CentralEntry(b, at)] + rest.value)
  }

  function TailOf(b: Buffer): Buffer {
    if |b| <= TAIL then b else b[|b| - TAIL..]
  }

  function Entries(b: Buffer): Option<seq<ZipEntry>> {
    var tail := TailOf(b);
    var end := FindEnd(tail, |tail| - END_RECORD + 1);
    if end.None? then None
    else CentralEntries(b, ReadU32(tail, end.value + 16), ReadU16(tail, end.value + 10))
  }

  function Data(b: Buffer, entry: ZipEntry, inflate: Buffer -> Option<Buffer>): Option<Buffer> {
    var at := entry.localOffset;
    if at + LOCAL_HEADER > |b| || ReadU32(b, at) != LOCAL_SIGNATURE then None
    else
      var start := at + LOCAL_HEADER + ReadU16(b, at + 26) + ReadU16(b, at + 28);
      var data := Subarray(b, start, start + entry.compressedSize);
      if entry.compression == 0 then Some(data)
      else if entry.compression == 8 then inflate(data)
      else None
  }

  // ----- The reader's loops -----

  method FindEndRecord(tail: Buffer) returns (end: Option<nat>)
    ensures end == FindEnd(tail, |tail| - END_RECORD + 1)
  {
    var i := |tail| - END_RECORD;
    while i >= 0
      invariant i <= |tail| - END_RECORD
      invariant FindEnd(tail, |tail| - END_RECORD + 1) == FindEnd(tail, i + 1)
      decreases i
    {
      if ReadU32(tail, i) == END_SIGNATURE {
        return Some(i);
      }
      i := i - 1;
    }
    return None;
  }

  function Joined(read: seq<ZipEntry>, rest: Option<seq<ZipEntry>>): Option<seq<ZipEntry>> {
    if rest.None? then None else Some(read + rest.value)
  }

  method ReadCentralDirectory(buffer: Buffer, start: nat, count: nat) returns (r: Option<seq<ZipEntry>>)
    ensures r == CentralEntries(buffer, start, count)
  {
    hide ReadU16;
    hide ReadU32;
    hide CentralEntry;
    hide CentralSize;
    var at: nat := start;
    var entries: seq<ZipEntry> := [];
    ghost var all := CentralEntries(buffer, start, count);
    assert all.Some? ==> [] + all.value == all.value;
    for n := 0 to count
      invariant CentralEntries(buffer, start, count) == Joined(entries, CentralEntries(buffer, at, count - n))
    {
      if at + CENTRAL_HEADER > |buffer| || ReadU32(buffer, at) != CENTRAL_SIGNATURE {
        return None;
      }
      var entry := CentralEntry(buffer, at);
      ghost var rest := CentralEntries(buffer, at + CentralSize(buffer, at), count - n - 1);
      assert rest.Some? ==> entries + ([entry] + rest.value) == entries + [entry] + rest.value;
      entries := entries + [entry];
      at := at + CentralSize(buffer, at);
    }
    assert entries + [] == entries;
    return Some(entries);
  }

  method ZipEntries(buffer: Buffer) returns (r: Option<seq<ZipEntry>>)
    ensures r == Entries(buffer)
  {
    hide ReadU16;
    hide ReadU32;
    hide FindEnd;
    hide CentralEntries;
    hide TailOf;
    var tail := TailOf(buffer);
    var end := FindEndRecord(tail);
    if end.None? {
      return None;
    }
    r := ReadCentralDirectory(buffer, ReadU32(tail, end.value + 16), ReadU16(tail, end.value + 10));
  }

  method ZipRead(buffer: Buffer, entry: ZipEntry, inflate: Buffer -> Option<Buffer>) returns (r: Option<Buffer>)
    ensures r == Data(buffer, entry, inflate)
  {
    var at := entry.localOffset;
    if at + LOCAL_HEADER > |buffer| || ReadU32(buffer, at) != LOCAL_SIGNATURE {
      return None;
    }
    var start := at + LOCAL_HEADER + ReadU16(buffer, at + 26) + ReadU16(buffer, at + 28);
    var data := Subarray(buffer, start, start + entry.compressedSize);
    if entry.compression == 0 {
      r := Some(data);
    } else if entry.compression == 8 {
      r := inflate(data);
    } else {
      r := None;
    }
  }
}
