/** Slotted pages: records grow from the start of the page, slots from the header down. */
module SlottedPages {
  import opened PageTypes

  // offsets inside a page of 4096 bytes; sp_header_t takes the last 24
  const NO_RECORDS: nat := 4072
  const FREE_SPACE: nat := 4074
  const NEXT_FREE: nat := 4076
  const SPACE: nat := 4072
  const SLOT: nat := 6

  function NoRecords(p: Page): uint16 { Get16(p, NO_RECORDS) }

  function FreeSpace(p: Page): uint16 { Get16(p, FREE_SPACE) }

  function NextFree(p: Page): uint16 { Get16(p, NEXT_FREE) }

  /** Where slot i starts: the slots are counted downwards from the header. */
  function SlotAt(i: nat): int {
    SPACE - SLOT - SLOT * i
  }

  function Offset(p: Page, i: nat): uint16
    requires SlotAt(i) >= 0
  {
    Get16(p, SlotAt(i))
  }

  function Size(p: Page, i: nat): uint16
    requires SlotAt(i) >= 0
  {
    Get16(p, SlotAt(i) + 2)
  }

  function Status(p: Page, i: nat): byte
    requires SlotAt(i) >= 0
  {
    p[SlotAt(i) + 4]
  }

  /** Where record i should start: right behind its predecessor. */
  function End(p: Page, i: nat): nat
    requires SlotAt(i) + SLOT >= 0
  {
    if i == 0 then 0 else Offset(p, i - 1) + Size(p, i - 1)
  }

  /** Record space, free space and slots fill the page up to the header, and records lie back to back. */
  ghost predicate Good(p: Page) {
    && NextFree(p) + FreeSpace(p) + SLOT * NoRecords(p) == SPACE
    && NextFree(p) == End(p, NoRecords(p))
    && forall i: nat :: i < NoRecords(p) ==> Offset(p, i) == End(p, i)
  }

  /** The n bytes from offset lo on. */
  function Bytes(p: Page, lo: nat, n: nat): seq<byte> {
    if lo + n <= PAGE_SIZE then p[lo..lo + n] else []
  }

  /** What is stored under record number i: its bytes, or None once it is deleted. */
  function Stored(p: Page, i: nat): Option<seq<byte>>
    requires SlotAt(i) >= 0
  {
    if Status(p, i) == 0 then None else Some(Bytes(p, Offset(p, i), Size(p, i)))
  }

  lemma {:induction false} EndsBefore(p: Page, i: nat, j: nat)
    requires Good(p) && i <= j <= NoRecords(p)
    ensures End(p, i) <= End(p, j)
    decreases j
  {
    if i < j {
      EndsBefore(p, i, j - 1);
    }
  }

  /** Every record lies below the slots, so below the header as well. */
  lemma RecordFits(p: Page, i: nat)
    requires Good(p) && i < NoRecords(p)
    ensures Offset(p, i) + Size(p, i) <= NextFree(p) <= SPACE - SLOT * NoRecords(p) == SlotAt(NoRecords(p) - 1)
  {
    EndsBefore(p, i + 1, NoRecords(p));
  }

  /** Records do not overlap each other, the slots or the header. */
  lemma NoOverlap(p: Page, i: nat, j: nat, s: nat)
    requires Good(p) && i < j < NoRecords(p) && s < NoRecords(p)
    ensures Offset(p, i) + Size(p, i) <= Offset(p, j)
    ensures Offset(p, j) + Size(p, j) <= SlotAt(s)
    ensures SlotAt(j) + SLOT <= SlotAt(i) && SlotAt(i) + SLOT <= NO_RECORDS
  {
    EndsBefore(p, i + 1, j);
    RecordFits(p, j);
  }

  /** The header fields are the first in the last 24 bytes, and slot i ends where slot i - 1 starts. */
  lemma PageLayout(p: Page, i: nat)
    requires i < 677
    ensures NO_RECORDS == SPACE == PAGE_SIZE - 24 && FREE_SPACE == PAGE_SIZE - 22 && NEXT_FREE == PAGE_SIZE - 20
    ensures SlotAt(i) == 4072 - 6 * (i + 1) >= 0
    ensures Offset(p, i) == Get16(p, 4066 - 6 * i) && Size(p, i) == Get16(p, 4068 - 6 * i)
    ensures Status(p, i) == p[4070 - 6 * i]
  {
  }

  // ----- bytes -----

  /** A 16-bit value stored at offset k. */
  function Put(p: Page, k: nat, v: uint16): Page
    requires k + 2 <= PAGE_SIZE
  {
    p[k := v % 256][k + 1 := v / 256]
  }

  /** 8-byte alignment in 32-bit arithmetic. */
  function Aligned(n: uint32): (a: uint32)
    ensures n < 0xFFFF_FFF9 ==> n <= a < n + 8
    ensures a % 8 == 0
  {
    (n + 7) % 0x1_0000_0000 / 8 * 8
  }

  /** Slot i filled in for a live record. */
  function Slotted(p: Page, i: nat, offset: uint16, size: uint16): Page
    requires SlotAt(i) >= 0
  {
    Put(Put(p, SlotAt(i), offset), SlotAt(i) + 2, size)[SlotAt(i) + 4 := 1]
  }

  /** The page after a record of (aligned) size a was added: two header fields, the slot, the record count. */
  function Added(p: Page, a: nat): Page
    requires NextFree(p) + a < 0x1_0000 && a + SLOT <= FreeSpace(p) && SlotAt(NoRecords(p)) >= 0
  {
    var q := Put(Put(p, NEXT_FREE, NextFree(p) + a), FREE_SPACE, FreeSpace(p) - (a + SLOT));
    Put(Slotted(q, NoRecords(p), NextFree(p), a), NO_RECORDS, NoRecords(p) + 1)
  }

  lemma AddedFields(p: Page, a: nat)
    requires NextFree(p) + a < 0x1_0000 && a + SLOT <= FreeSpace(p) && SlotAt(NoRecords(p)) >= 0
    ensures var q, n := Added(p, a), NoRecords(p);
      && NextFree(q) == NextFree(p) + a && FreeSpace(q) == FreeSpace(p) - (a + SLOT) && NoRecords(q) == n + 1
      && Offset(q, n) == NextFree(p) && Size(q, n) == a && Status(q, n) == 1
      && forall k :: 0 <= k < SPACE && (k < SlotAt(n) || SlotAt(n) + SLOT <= k) ==> q[k] == p[k]
  {
  }

  /** A slot whose bytes are unchanged. */
  lemma SameSlot(p: Page, q: Page, i: nat)
    requires SlotAt(i) >= 0
    requires forall k :: SlotAt(i) <= k < SlotAt(i) + SLOT ==> q[k] == p[k]
    ensures Offset(q, i) == Offset(p, i) && Size(q, i) == Size(p, i) && Status(q, i) == Status(p, i)
  {
  }

  /** Two pages that agree on the first n slots and on the bytes below them. */
  ghost predicate AgreeBelow(p: Page, q: Page, n: nat) {
    SlotAt(n) + SLOT >= 0 && forall i: nat :: i < n ==>
      && SlotAt(i) >= 0
      && Offset(q, i) == Offset(p, i) && Size(q, i) == Size(p, i) && Status(q, i) == Status(p, i)
  }

  lemma AddedAgree(p: Page, a: nat)
    requires Good(p) && a + SLOT <= FreeSpace(p)
    ensures AgreeBelow(p, Added(p, a), NoRecords(p))
  {
    var q := Added(p, a);
    AddedFields(p, a);
    hide Added, Offset, Size, Status;
    forall i: nat | i < NoRecords(p)
      ensures Offset(q, i) == Offset(p, i) && Size(q, i) == Size(p, i) && Status(q, i) == Status(p, i)
    {
      SameSlot(p, q, i);
    }
  }

  lemma AddedIsGood(p: Page, a: nat)
    requires Good(p) && a + SLOT <= FreeSpace(p)
    ensures Good(Added(p, a))
  {
    var q, n := Added(p, a), NoRecords(p);
    AddedFields(p, a);
    AddedAgree(p, a);
    hide Added, Offset, Size, Status, NextFree, FreeSpace, NoRecords;
    forall i: nat | i < n + 1 ensures Offset(q, i) == End(q, i) {
      assert i < n ==> Offset(p, i) == End(p, i);
    }
  }

  lemma StoredSame(p: Page, q: Page, i: nat)
    requires SlotAt(i) >= 0
    requires Offset(q, i) == Offset(p, i) && Size(q, i) == Size(p, i) && Status(q, i) == Status(p, i)
    requires forall k :: Offset(p, i) <= k < Offset(p, i) + Size(p, i) && k < PAGE_SIZE ==> q[k] == p[k]
    ensures Stored(q, i) == Stored(p, i)
  {
    BytesSame(p, q, Offset(p, i), Size(p, i));
    hide Offset, Size, Status, Bytes;
  }

  lemma BytesSame(p: Page, q: Page, lo: nat, n: nat)
    requires forall k :: lo <= k < lo + n && k < PAGE_SIZE ==> q[k] == p[k]
    ensures Bytes(q, lo, n) == Bytes(p, lo, n)
  {
  }

  /** A record is added exactly behind the others, and they stay as they are. */
  lemma AddedGood(p: Page, a: nat)
    requires Good(p) && a + SLOT <= FreeSpace(p)
    ensures Good(Added(p, a))
    ensures NoRecords(Added(p, a)) == NoRecords(p) + 1 && FreeSpace(Added(p, a)) == FreeSpace(p) - (a + SLOT)
    ensures Offset(Added(p, a), NoRecords(p)) == NextFree(p) && Size(Added(p, a), NoRecords(p)) == a
    ensures forall i: nat :: i < NoRecords(p) ==> Stored(Added(p, a), i) == Stored(p, i)
    ensures Stored(Added(p, a), NoRecords(p)) == Some(Bytes(p, NextFree(p), a))
  {
    var q, n := Added(p, a), NoRecords(p);
    AddedFields(p, a);
    AddedAgree(p, a);
    AddedIsGood(p, a);
    hide Added, Offset, Size, Status, Good;
    RecordFits(q, n);
    forall i: nat | i < n ensures Stored(q, i) == Stored(p, i) {
      RecordFits(p, i);
      SlotsAbove(n);
      StoredSame(p, q, i);
    }
    BytesSame(p, q, NextFree(p), a);
  }

  lemma SlotsAbove(n: nat)
    ensures SlotAt(n) + SLOT == SPACE - SLOT * n
  {
  }

  /** Record i of page p with the given bytes written over its start. */
  function Rewritten(p: Page, i: nat, data: seq<byte>): Page
    requires SlotAt(i) >= 0 && Offset(p, i) + |data| <= PAGE_SIZE
  {
    Patch(p, Offset(p, i), data)
  }

  lemma SameHeader(p: Page, q: Page)
    requires forall k :: SPACE <= k < PAGE_SIZE ==> q[k] == p[k]
    ensures NoRecords(q) == NoRecords(p) && FreeSpace(q) == FreeSpace(p) && NextFree(q) == NextFree(p)
  {
  }

  lemma RewrittenAgree(p: Page, i: nat, data: seq<byte>, q: Page)
    requires Good(p) && i < NoRecords(p) && |data| <= Size(p, i)
    requires Offset(p, i) + |data| <= PAGE_SIZE && q == Rewritten(p, i, data)
    ensures AgreeBelow(p, q, NoRecords(p)) && Good(q)
    ensures NoRecords(q) == NoRecords(p) && FreeSpace(q) == FreeSpace(p)
    ensures forall k :: 0 <= k < PAGE_SIZE && (k < Offset(p, i) || Offset(p, i) + |data| <= k) ==> q[k] == p[k]
    ensures q[Offset(p, i)..Offset(p, i) + |data|] == data
  {
    hide Offset, Size, Status, NextFree, FreeSpace, NoRecords;
    RecordFits(p, i);
    SameHeader(p, q);
    var n := NoRecords(p);
    forall j: nat | j < n
      ensures Offset(q, j) == Offset(p, j) && Size(q, j) == Size(p, j) && Status(q, j) == Status(p, j)
    {
      SameSlot(p, q, j);
    }
    forall j: nat | j < n ensures Offset(q, j) == End(q, j) {
      assert Offset(p, j) == End(p, j);
    }
  }

  /** Writing record i leaves every other record as it is. */
  lemma RewrittenGood(p: Page, i: nat, data: seq<byte>, q: Page)
    requires Good(p) && i < NoRecords(p) && |data| <= Size(p, i)
    requires Offset(p, i) + |data| <= PAGE_SIZE && q == Rewritten(p, i, data)
    ensures Good(q) && NoRecords(q) == NoRecords(p) && FreeSpace(q) == FreeSpace(p)
    ensures forall j: nat :: j < NoRecords(p) && j != i ==> Stored(q, j) == Stored(p, j)
    ensures Status(p, i) != 0 ==>
      Stored(q, i).Some? && data <= Stored(q, i).value && |Stored(q, i).value| == Size(p, i)
  {
    RewrittenAgree(p, i, data, q);
    hide Offset, Size, Status, Rewritten, Good, NoRecords;
    forall j: nat | j < NoRecords(p) && j != i ensures Stored(q, j) == Stored(p, j) {
      Disjoint(p, i, j);
      StoredSame(p, q, j);
    }
    RecordFits(p, i);
    if Status(p, i) != 0 {
      PrefixOfBytes(q, Offset(p, i), Size(p, i), data);
    }
  }

  lemma PrefixOfBytes(q: Page, lo: nat, n: nat, data: seq<byte>)
    requires |data| <= n && lo + n <= PAGE_SIZE && q[lo..lo + |data|] == data
    ensures data <= Bytes(q, lo, n) && |Bytes(q, lo, n)| == n
  {
    assert q[lo..lo + n][..|data|] == q[lo..lo + |data|];
  }

  lemma Disjoint(p: Page, i: nat, j: nat)
    requires Good(p) && i < NoRecords(p) && j < NoRecords(p) && i != j
    ensures Offset(p, i) + Size(p, i) <= Offset(p, j) || Offset(p, j) + Size(p, j) <= Offset(p, i)
  {
    hide Good, Offset, Size;
    if i < j {
      NoOverlap(p, i, j, i);
    } else {
      NoOverlap(p, j, i, i);
    }
  }

  /** Reserving room for a record and writing its bytes: one more record, the others as they were. */
  lemma InsertedGood(p: Page, a: nat, data: seq<byte>, q: Page)
    requires Good(p) && a + SLOT <= FreeSpace(p) && |data| <= a
    requires NextFree(p) + |data| <= PAGE_SIZE && q == Patch(Added(p, a), NextFree(p), data)
    ensures Good(q) && NoRecords(q) == NoRecords(p) + 1 && FreeSpace(q) == FreeSpace(p) - (a + SLOT)
    ensures forall j: nat :: j < NoRecords(p) ==> Stored(q, j) == Stored(p, j)
    ensures Stored(q, NoRecords(p)).Some? && data <= Stored(q, NoRecords(p)).value
    ensures |Stored(q, NoRecords(p)).value| == a
  {
    var n, m := NoRecords(p), Added(p, a);
    AddedGood(p, a);
    AddedFields(p, a);
    hide Added, Good, Stored, Status, NextFree;
    RewrittenGood(m, n, data, q);
    hide Offset, Size, NoRecords, FreeSpace;
  }

  /** Adding a record writes five bytes of its slot and the three header fields, and nothing else. */
  lemma AddedTouches(p: Page, a: nat, k: nat)
    requires NextFree(p) + a < 0x1_0000 && a + SLOT <= FreeSpace(p) && SlotAt(NoRecords(p)) >= 0
    requires k < 4072 || 4078 <= k < PAGE_SIZE
    requires k < SlotAt(NoRecords(p)) || SlotAt(NoRecords(p)) + 5 <= k
    ensures Added(p, a)[k] == p[k]
  {
  }

  /** The slot of the new record, a live one, and the header fields. */
  lemma AddedWrites(p: Page, a: nat)
    requires NextFree(p) + a < 0x1_0000 && a + SLOT <= FreeSpace(p) && SlotAt(NoRecords(p)) >= 0
    ensures var q, k := Added(p, a), SlotAt(NoRecords(p));
      && q[k..k + 5] == LE16(NextFree(p)) + LE16(a) + [1]
      && q[4072..4078] == LE16(NoRecords(p) + 1) + LE16(FreeSpace(p) - a - 6) + LE16(NextFree(p) + a)
  {
  }

  lemma FreshWrites(frame: Page)
    ensures Fresh(frame)[..4] == LE16(0) + LE16(4068)
    ensures Fresh(frame)[4072..4080] == LE16(0) + LE16(4072) + LE16(0) + [0, 0]
  {
  }

  /** Initialising a page writes its first four bytes and the header fields, and nothing else. */
  lemma FreshTouches(frame: Page, k: nat)
    requires 4 <= k < 4072 || 4080 <= k < PAGE_SIZE
    ensures Fresh(frame)[k] == frame[k]
  {
  }

  /** Soft deletion: the status byte of the slot. */
  function Deleted(p: Page, i: nat): Page
    requires SlotAt(i) >= 0
  {
    p[SlotAt(i) + 4 := 0]
  }

  /** A record is gone, the others and all counters stay. */
  lemma DeletedGood(p: Page, i: nat)
    requires Good(p) && i < NoRecords(p)
    ensures Good(Deleted(p, i)) && NoRecords(Deleted(p, i)) == NoRecords(p) && FreeSpace(Deleted(p, i)) == FreeSpace(p)
    ensures Stored(Deleted(p, i), i) == None
    ensures forall j: nat :: j < NoRecords(p) && j != i ==> Stored(Deleted(p, i), j) == Stored(p, j)
  {
    var n := NoRecords(p);
    DeletedIsGood(p, i);
    hide Good;
    forall j: nat | j < n && j != i ensures Stored(Deleted(p, i), j) == Stored(p, j) {
      DeletedOther(p, i, j);
    }
  }

  lemma DeletedIsGood(p: Page, i: nat)
    requires Good(p) && i < NoRecords(p)
    ensures Good(Deleted(p, i)) && NoRecords(Deleted(p, i)) == NoRecords(p) && FreeSpace(Deleted(p, i)) == FreeSpace(p)
    ensures Stored(Deleted(p, i), i) == None
  {
    var q, n := Deleted(p, i), NoRecords(p);
    RecordFits(p, i);
    assert NoRecords(q) == n && FreeSpace(q) == FreeSpace(p) && NextFree(q) == NextFree(p);
    forall j: nat | j < n ensures Offset(q, j) == Offset(p, j) && Size(q, j) == Size(p, j) {
      DeletedSlot(p, i, j);
    }
    assert Status(q, i) == 0;
    hide NoRecords, FreeSpace, NextFree, Offset, Size, Status;
    forall j: nat | j < n ensures Offset(q, j) == End(q, j) {
      assert Offset(p, j) == End(p, j);
    }
  }

  lemma DeletedSlot(p: Page, i: nat, j: nat)
    requires SlotAt(i) >= 0 && SlotAt(j) >= 0
    ensures Offset(Deleted(p, i), j) == Offset(p, j) && Size(Deleted(p, i), j) == Size(p, j)
  {
  }

  lemma DeletedOther(p: Page, i: nat, j: nat)
    requires Good(p) && i < NoRecords(p) && j < NoRecords(p) && j != i
    ensures Stored(Deleted(p, i), j) == Stored(p, j)
  {
    RecordFits(p, j);
    var q := Deleted(p, i);
    assert SlotAt(i) + SLOT <= SlotAt(j) || SlotAt(j) + SLOT <= SlotAt(i);
    SameSlot(p, q, j);
    NoOverlap1(p, i, j);
    hide Good, NoRecords, FreeSpace, NextFree, Offset, Size, Status;
    StoredSame(p, q, j);
  }

  lemma NoOverlap1(p: Page, s: nat, j: nat)
    requires Good(p) && s < NoRecords(p) && j < NoRecords(p)
    ensures Offset(p, j) + Size(p, j) <= SlotAt(s)
  {
    RecordFits(p, j);
    hide Good, NextFree, Offset, Size;
  }

  /** A fresh page; the free space list at its start is written but never read. */
  function Fresh(p: Page): Page {
    var q := Put(Put(Put(p, NO_RECORDS, 0), FREE_SPACE, SPACE), NEXT_FREE, 0)[NEXT_FREE + 2 := 0][NEXT_FREE + 3 := 0];
    Put(Put(q, 0, 0), 2, SPACE - 4)
  }

  lemma FreshGood(p: Page)
    ensures Good(Fresh(p)) && NoRecords(Fresh(p)) == 0 && FreeSpace(Fresh(p)) == SPACE
  {
  }

  /** A page buffer with the interpreter attached to it. */
  class SlottedPage {
    const page: array<byte>

    ghost predicate Valid() {
      page.Length == PAGE_SIZE
    }

    ghost function View(): Page
      requires Valid()
      reads page
    {
      page[..]
    }

    constructor Attach(p: Page)
      ensures Valid() && fresh(page) && View() == p
    {
      page := new byte[PAGE_SIZE](i requires 0 <= i < PAGE_SIZE => p[i]);
      new;
      assert page[..] == p;
    }

    method Content() returns (p: Page)
      requires Valid()
      ensures p == View()
    {
      p := page[..];
    }

    method Put16(k: nat, v: uint16)
      requires Valid() && k + 2 <= PAGE_SIZE
      modifies page
      ensures View() == Put(old(View()), k, v)
    {
      page[k] := v % 256;
      page[k + 1] := v / 256;
    }

    function Field(k: nat): (v: uint16)
      requires Valid() && k + 2 <= PAGE_SIZE
      reads page
      ensures v == Get16(View(), k)
    {
      page[k] as int + 256 * page[k + 1] as int
    }

    method InitNewPage()
      requires Valid()
      modifies page
      ensures View() == Fresh(old(View()))
    {
      Put16(NO_RECORDS, 0);
      Put16(FREE_SPACE, SPACE);
      Put16(NEXT_FREE, 0);
      page[NEXT_FREE + 2] := 0;
      page[NEXT_FREE + 3] := 0;
      var start := Field(NEXT_FREE);
      hide Put;
      Put16(start, 0);
      Put16(start + 2, SPACE - 4);
    }

    /**
     * Reserves room for a record: succeeds exactly if the aligned record and its slot fit. On failure the page is
     * left alone and the number returned is that of the last record (65535 if there is none).
     */
    method AddNewRecord(aRecordSize: uint32) returns (offset: Option<nat>, no: uint16)
      requires Valid() && Good(View())
      modifies page
      ensures Aligned(aRecordSize) + SLOT <= FreeSpace(old(View())) ==>
        && View() == Added(old(View()), Aligned(aRecordSize))
        && offset == Some(NextFree(old(View()))) && no == NoRecords(old(View()))
      ensures Aligned(aRecordSize) + SLOT > FreeSpace(old(View())) ==>
        View() == old(View()) && offset == None && no == (NoRecords(View()) as int + 0xFFFF) % 0x1_0000
    {
      hide Put, Get16, Aligned;
      var recordSize := Aligned(aRecordSize);
      var totalSize := recordSize + SLOT;
      var free, result, n := Field(FREE_SPACE), Field(NEXT_FREE), Field(NO_RECORDS);
      if totalSize > free {
        return None, (n as int + 0xFFFF) % 0x1_0000;
      }
      Put16(NEXT_FREE, result + recordSize);
      Put16(FREE_SPACE, free - totalSize);
      var s := SlotAt(n);
      Put16(s, result);
      Put16(s + 2, recordSize);
      page[s + 4] := 1;
      Put16(NO_RECORDS, n + 1);
      return Some(result), n;
    }

    method DeleteRecordSoft(aRecordNo: uint16)
      requires Valid() && Good(View()) && aRecordNo < NoRecords(View())
      modifies page
      ensures View() == Deleted(old(View()), aRecordNo)
    {
      RecordFits(View(), aRecordNo);
      page[SlotAt(aRecordNo) + 4] := 0;
    }

    method GetRecord(aRecordNo: uint32) returns (offset: Option<nat>)
      requires Valid() && Good(View())
      ensures offset.Some? <==> aRecordNo < NoRecords(View()) && Stored(View(), aRecordNo).Some?
      ensures offset.Some? ==> offset.value == Offset(View(), aRecordNo)
    {
      if aRecordNo >= Field(NO_RECORDS) {
        return None;
      }
      RecordFits(View(), aRecordNo);
      if page[SlotAt(aRecordNo) + 4] == 0 {
        return None;
      }
      return Some(Field(SlotAt(aRecordNo)));
    }
  }
}
