/**
 * What the ZIP reader accepts and returns on any buffer, byte by byte (`zipEntries`, `zipRead`,
 * packages/sidecar/src/docs.ts).
 */
module ZipBytes {
  import opened Common
  import opened ZipReader

  ghost function Word(b: Buffer, at: nat): nat
    requires at + 2 <= |b|
  {
    b[at] as int + 0x100 * (b[at + 1] as int)
  }

  ghost function Double(b: Buffer, at: nat): nat
    requires at + 4 <= |b|
  {
    b[at] as int + 0x100 * (b[at + 1] as int) + 0x1_0000 * (b[at + 2] as int) + 0x100_0000 * (b[at + 3] as int)
  }

  /** The bytes from `from` to `to`, as far as there are any. */
  ghost function Cut(b: Buffer, from: nat, to: nat): Buffer {
    if from >= |b| || from > to then [] else if to > |b| then b[from..] else b[from..to]
  }

  /** "PK" and two more bytes. */
  ghost predicate Signed(b: Buffer, at: nat, third: int, fourth: int) {
    at + 4 <= |b| && b[at] == 0x50 && b[at + 1] == 0x4b && b[at + 2] == third && b[at + 3] == fourth
  }

  lemma SignatureBytes(b: Buffer, at: nat)
    requires at + 4 <= |b|
    ensures ReadU32(b, at) == Double(b, at)
    ensures ReadU32(b, at) == LOCAL_SIGNATURE <==> Signed(b, at, 3, 4)
    ensures ReadU32(b, at) == CENTRAL_SIGNATURE <==> Signed(b, at, 1, 2)
    ensures ReadU32(b, at) == END_SIGNATURE <==> Signed(b, at, 5, 6)
  {
    FourBytes(b[at] as int, b[at + 1] as int, b[at + 2] as int, b[at + 3] as int, 3, 4);
    FourBytes(b[at] as int, b[at + 1] as int, b[at + 2] as int, b[at + 3] as int, 1, 2);
    FourBytes(b[at] as int, b[at + 1] as int, b[at + 2] as int, b[at + 3] as int, 5, 6);
  }

  lemma FourBytes(p: int, q: int, r: int, s: int, third: int, fourth: int)
    requires 0 <= p < 256 && 0 <= q < 256 && 0 <= r < 256 && 0 <= s < 256 && 0 <= third < 256 && 0 <= fourth < 256
    ensures p + 256 * q + 65536 * (r + 256 * s) == 0x4b50 + 65536 * (third + 256 * fourth)
       <==> p == 0x50 && q == 0x4b && r == third && s == fourth
  {
  }

  lemma CutIsSubarray(b: Buffer, from: nat, to: nat)
    ensures Cut(b, from, to) == Subarray(b, from, to)
  {
  }

  // ----- The central directory -----

  /** The header at `at` lists this entry, and the next one follows its name, extra field and comment. */
  ghost predicate Lists(b: Buffer, at: nat, e: ZipEntry, next: nat) {
    && at + 46 <= |b| && Signed(b, at, 1, 2)
    && e.name == Cut(b, at + 46, at + 46 + Word(b, at + 28))
    && e.compression == Word(b, at + 10)
    && e.compressedSize == Double(b, at + 20)
    && e.localOffset == Double(b, at + 42)
    && next == at + 46 + Word(b, at + 28) + Word(b, at + 30) + Word(b, at + 32)
  }

  /** `n` headers in a row from `at` list these entries. */
  ghost predicate ListsAll(b: Buffer, at: nat, n: nat, entries: seq<ZipEntry>)
    decreases n
  {
    if n == 0 then entries == []
    else entries != [] && exists next: nat :: Lists(b, at, entries[0], next) && ListsAll(b, next, n - 1, entries[1..])
  }

  lemma HeaderLists(b: Buffer, at: nat)
    ensures CentralHeaderAt(b, at) ==> Lists(b, at, CentralEntry(b, at), at + CentralSize(b, at))
    ensures forall e, next :: Lists(b, at, e, next) ==>
      CentralHeaderAt(b, at) && e == CentralEntry(b, at) && next == at + CentralSize(b, at)
  {
    if at + 46 <= |b| {
      SignatureBytes(b, at);
      SignatureBytes(b, at + 20);
      SignatureBytes(b, at + 42);
      CutIsSubarray(b, at + 46, at + 46 + ReadU16(b, at + 28));
      hide Subarray;
      hide Cut;
      hide ReadU32;
      hide Double;
    }
  }

  lemma {:induction false} DirectoryExactly(b: Buffer, at: nat, n: nat, entries: seq<ZipEntry>)
    ensures CentralEntries(b, at, n) == Some(entries) <==> ListsAll(b, at, n, entries)
    decreases n
  {
    HeaderLists(b, at);
    hide CentralEntry;
    hide CentralSize;
    hide Lists;
    hide ReadU32;
    if n != 0 && CentralHeaderAt(b, at) {
      var next := at + CentralSize(b, at);
      var rest := CentralEntries(b, next, n - 1);
      if entries != [] {
        DirectoryExactly(b, next, n - 1, entries[1..]);
        assert entries == [entries[0]] + entries[1..];
      }
      if rest.Some? {
        assert ([CentralEntry(b, at)] + rest.value)[1..] == rest.value;
      }
    }
  }

  /** The last end record whose signature lies within the last 65557 bytes. */
  ghost predicate LastEnd(b: Buffer, at: nat) {
    && at + 22 <= |b| <= at + 65557 && Signed(b, at, 5, 6)
    && forall later :: at < later && later + 22 <= |b| ==> !Signed(b, later, 5, 6)
  }

  lemma TailIsAtEnd(b: Buffer)
    ensures var tail := TailOf(b); |tail| <= |b| && |tail| <= 65557 && (|tail| == |b| || |tail| == 65557) && tail == b[|b| - |tail|..]
  {
  }

  lemma ReadInTail(b: Buffer, tail: Buffer, i: nat)
    requires |tail| <= |b| && tail == b[|b| - |tail|..] && i + 4 <= |tail|
    ensures ReadU32(tail, i) == ReadU32(b, |b| - |tail| + i) && ReadU16(tail, i) == ReadU16(b, |b| - |tail| + i)
  {
  }

  lemma SignedInTail(b: Buffer, tail: Buffer, at: nat)
    requires |tail| <= |b| && tail == b[|b| - |tail|..] && |b| - |tail| <= at && at + 22 <= |b|
    ensures Signed(b, at, 5, 6) <==> ReadU32(tail, at - (|b| - |tail|)) == END_SIGNATURE
  {
    ReadInTail(b, tail, at - (|b| - |tail|));
    SignatureBytes(b, at);
  }

  lemma EndFound(b: Buffer)
    ensures var tail := TailOf(b);
      var end := FindEnd(tail, |tail| - END_RECORD + 1);
      && (end.Some? ==> LastEnd(b, |b| - |tail| + end.value))
      && (end.None? ==> forall at :: !LastEnd(b, at))
  {
    hide FindEnd;
    hide TailOf;
    hide Signed;
    hide ReadU32;
    var tail := TailOf(b);
    var end := FindEnd(tail, |tail| - END_RECORD + 1);
    var skipped := |b| - |tail|;
    TailIsAtEnd(b);
    if end.Some? {
      SignedInTail(b, tail, skipped + end.value);
      forall later: nat | skipped + end.value < later && later + 22 <= |b| ensures !Signed(b, later, 5, 6) {
        SignedInTail(b, tail, later);
        assert ReadU32(tail, later - skipped) != END_SIGNATURE;
      }
    } else {
      forall at: nat ensures !LastEnd(b, at) {
        if at + 22 <= |b| <= at + 65557 {
          SignedInTail(b, tail, at);
          assert ReadU32(tail, at - skipped) != END_SIGNATURE;
        }
      }
    }
  }

  lemma LastEndUnique(b: Buffer, x: nat, y: nat)
    requires LastEnd(b, x) && LastEnd(b, y)
    ensures x == y
  {
  }

  lemma WordIsRead(b: Buffer, at: nat)
    requires at + 2 <= |b|
    ensures Word(b, at) == ReadU16(b, at)
  {
  }

  lemma UnfoldEntries(b: Buffer)
    ensures var tail := TailOf(b);
      var end := FindEnd(tail, |tail| - END_RECORD + 1);
      Entries(b) == if end.None? then None
        else CentralEntries(b, Double(b, |b| - |tail| + end.value + 16), Word(b, |b| - |tail| + end.value + 10))
  {
    hide FindEnd;
    hide TailOf;
    hide ReadU32;
    hide ReadU16;
    hide Double;
    hide Word;
    hide CentralEntries;
    var tail := TailOf(b);
    var end := FindEnd(tail, |tail| - END_RECORD + 1);
    TailIsAtEnd(b);
    if end.Some? {
      var at := |b| - |tail| + end.value;
      ReadInTail(b, tail, end.value + 16);
      ReadInTail(b, tail, end.value + 10);
      SignatureBytes(b, at + 16);
      WordIsRead(b, at + 10);
    }
  }

  /** The entries the headers list which the end record at `end` points to, as many as it says. */
  ghost predicate ListedFrom(b: Buffer, end: nat, entries: seq<ZipEntry>) {
    LastEnd(b, end) && ListsAll(b, Double(b, end + 16), Word(b, end + 10), entries)
  }

  /**
   * For every buffer: the reader returns exactly the entries that the headers list which the last
   * end record points to, as many as it says; without an end record, or with a header missing, none.
   */
  lemma EntriesExactly(b: Buffer, entries: seq<ZipEntry>)
    ensures Entries(b) == Some(entries) <==> exists end: nat :: ListedFrom(b, end, entries)
  {
    hide FindEnd;
    hide TailOf;
    hide Entries;
    hide CentralEntries;
    hide ListsAll;
    hide ListedFrom;
    hide Signed;
    hide Double;
    hide Word;
    var tail := TailOf(b);
    var found := FindEnd(tail, |tail| - END_RECORD + 1);
    EndFound(b);
    TailIsAtEnd(b);
    UnfoldEntries(b);
    if found.Some? {
      var end := |b| - |tail| + found.value;
      DirectoryExactly(b, Double(b, end + 16), Word(b, end + 10), entries);
      OnlyEnd(b, end, entries);
    } else {
      NoEnd(b, entries);
    }
  }

  lemma OnlyEnd(b: Buffer, end: nat, entries: seq<ZipEntry>)
    requires LastEnd(b, end)
    ensures (exists other: nat :: ListedFrom(b, other, entries))
       <==> ListsAll(b, Double(b, end + 16), Word(b, end + 10), entries)
  {
    hide ListsAll;
    forall other: nat | ListedFrom(b, other, entries) ensures other == end {
      LastEndUnique(b, end, other);
    }
    hide LastEnd;
    hide Double;
    hide Word;
    assert ListedFrom(b, end, entries) <==> ListsAll(b, Double(b, end + 16), Word(b, end + 10), entries);
  }

  lemma NoEnd(b: Buffer, entries: seq<ZipEntry>)
    requires forall at :: !LastEnd(b, at)
    ensures forall end: nat :: !ListedFrom(b, end, entries)
  {
  }

  /** The bytes a local header at `at` announces, `size` of them after its name and extra field. */
  ghost predicate Holds(b: Buffer, at: nat, size: nat, held: Buffer) {
    && at + 30 <= |b| && Signed(b, at, 3, 4)
    && var start := at + 30 + Word(b, at + 26) + Word(b, at + 28);
       held == Cut(b, start, start + size)
  }

  /** For every buffer and entry: the data behind its local header, stored or inflated; nothing without one. */
  lemma DataExactly(b: Buffer, e: ZipEntry, inflate: Buffer -> Option<Buffer>, data: Buffer)
    ensures Data(b, e, inflate) == Some(data) <==>
      exists held :: Holds(b, e.localOffset, e.compressedSize, held)
                     && ((e.compression == 0 && data == held) || (e.compression == 8 && inflate(held) == Some(data)))
  {
    hide ReadU32;
    hide ReadU16;
    hide Subarray;
    hide Holds;
    forall held ensures Holds(b, e.localOffset, e.compressedSize, held) <==>
      && e.localOffset + LOCAL_HEADER <= |b| && ReadU32(b, e.localOffset) == LOCAL_SIGNATURE
      && held == LocalData(b, e.localOffset, e.compressedSize)
    {
      HoldsLocalData(b, e.localOffset, e.compressedSize, held);
    }
    if e.localOffset + LOCAL_HEADER <= |b| && ReadU32(b, e.localOffset) == LOCAL_SIGNATURE {
      var held := LocalData(b, e.localOffset, e.compressedSize);
      assert Holds(b, e.localOffset, e.compressedSize, held);
      assert Data(b, e, inflate)
          == if e.compression == 0 then Some(held) else if e.compression == 8 then inflate(held) else None;
    } else {
      assert Data(b, e, inflate) == None;
    }
  }

  ghost function LocalData(b: Buffer, at: nat, size: nat): Buffer
    requires at + LOCAL_HEADER <= |b|
  {
    var start := at + LOCAL_HEADER + ReadU16(b, at + 26) + ReadU16(b, at + 28);
    Subarray(b, start, start + size)
  }

  lemma HoldsLocalData(b: Buffer, at: nat, size: nat, held: Buffer)
    ensures Holds(b, at, size, held) <==>
      at + LOCAL_HEADER <= |b| && ReadU32(b, at) == LOCAL_SIGNATURE && held == LocalData(b, at, size)
  {
    if at + LOCAL_HEADER <= |b| {
      SignatureBytes(b, at);
      WordIsRead(b, at + 26);
      WordIsRead(b, at + 28);
      var start := at + LOCAL_HEADER + ReadU16(b, at + 26) + ReadU16(b, at + 28);
      CutIsSubarray(b, start, start + size);
      hide Subarray;
      hide Cut;
      hide ReadU32;
      hide ReadU16;
      hide Word;
      hide Signed;
    }
  }
}
