/** The free space map of a segment: four bits of occupancy for every data page. */
module FsmPages {
  import opened PageTypes

  // fsm_header_t takes the last 24 bytes of the page
  const NO_PAGES: nat := 4072
  const NEXT_FSM: nat := 4076
  const HEADER: nat := 4080
  const MAX_PAGES: nat := 8144
  const STATUS_SIZE: nat := 16
  const MAX_STATUS: nat := 15

  /** The occupancy of the i-th data page. */
  function Nibble(p: Page, i: nat): nat
    requires i < MAX_PAGES
  {
    if i % 2 == 0 then p[i / 2] % 16 else p[i / 2] / 16
  }

  function WithNibble(p: Page, i: nat, s: nat): Page
    requires i < MAX_PAGES && s < STATUS_SIZE
  {
    p[i / 2 := if i % 2 == 0 then p[i / 2] / 16 * 16 + s else p[i / 2] % 16 + 16 * s]
  }

  function NoPages(p: Page): uint32 {
    Get32(p, NO_PAGES)
  }

  function NextFsm(p: Page): uint32 {
    Get32(p, NEXT_FSM)
  }

  /** The even page of a byte has the low half, the odd one the high half, and the nibbles reach to the header. */
  lemma MapLayout(p: Page, k: nat)
    requires k < 4072
    ensures p[k] == 0x21 ==> Nibble(p, 2 * k) == 1 && Nibble(p, 2 * k + 1) == 2
    ensures MAX_PAGES == 2 * (PAGE_SIZE - 24) && NO_PAGES == PAGE_SIZE - 24 && HEADER == PAGE_SIZE - 16
  {
  }

  /** Changing one page's status leaves the neighbour in the same byte and everything else alone. */
  lemma OwnNibble(p: Page, i: nat, s: nat, j: nat)
    requires i < MAX_PAGES && s < STATUS_SIZE && j < MAX_PAGES
    ensures Nibble(WithNibble(p, i, s), j) == if j == i then s else Nibble(p, j)
    ensures NoPages(WithNibble(p, i, s)) == NoPages(p) && NextFsm(WithNibble(p, i, s)) == NextFsm(p)
  {
    var b := p[i / 2];
    assert (b / 16 * 16 + s) % 16 == s && (b / 16 * 16 + s) / 16 == b / 16;
    assert (b % 16 + 16 * s) % 16 == b % 16 && (b % 16 + 16 * s) / 16 == s;
  }

  /** Rounded-up number of buckets for the given bytes, None for more than the page holds. */
  function CalcPageStatus(aSizeWithoutOverhead: nat, aNoBytes: nat): Option<nat>
    requires MAX_STATUS <= aSizeWithoutOverhead
  {
    if aSizeWithoutOverhead < aNoBytes then None
    else
      var bucketSize := aSizeWithoutOverhead / MAX_STATUS;
      var bucketNo := (aNoBytes + bucketSize - 1) / bucketSize;
      if bucketNo <= MAX_STATUS then Some(bucketNo) else None
  }

  /** The first page, among those the map knows, whose occupancy leaves room for s more. */
  ghost predicate FirstFit(p: Page, s: nat, i: nat) {
    && i < NoPages(p) && i < MAX_PAGES && Nibble(p, i) + s < STATUS_SIZE
    && forall j: nat :: j < i ==> Nibble(p, j) + s >= STATUS_SIZE
  }

  /** The map after one more page was added to the pages it knows. */
  function Appended(p: Page, s: nat): Page
    requires NoPages(p) < MAX_PAGES && s < STATUS_SIZE
  {
    Patch(WithNibble(p, NoPages(p), s), NO_PAGES, LE32(NoPages(p) + 1))
  }

  lemma AppendedFields(p: Page, s: nat, j: nat)
    requires NoPages(p) < MAX_PAGES && s < STATUS_SIZE && j < MAX_PAGES
    ensures NoPages(Appended(p, s)) == NoPages(p) + 1 && NextFsm(Appended(p, s)) == NextFsm(p)
    ensures Nibble(Appended(p, s), j) == if j == NoPages(p) then s else Nibble(p, j)
  {
    OwnNibble(p, NoPages(p), s, j);
    var q := Appended(p, s);
    assert q[NO_PAGES..NO_PAGES + 4] == LE32(NoPages(p) + 1);
    Get32OfLE32(q, NO_PAGES, NoPages(p) + 1);
    hide LE32;
  }

  lemma AppendedNibbles(p: Page, s: nat)
    requires NoPages(p) < MAX_PAGES && s < STATUS_SIZE
    ensures NoPages(Appended(p, s)) == NoPages(p) + 1 && NextFsm(Appended(p, s)) == NextFsm(p)
    ensures forall j: nat :: j < MAX_PAGES ==> Nibble(Appended(p, s), j) == if j == NoPages(p) then s else Nibble(p, j)
  {
    hide Appended, Nibble, NextFsm, NoPages;
    AppendedFields(p, s, 0);
    forall j: nat | j < MAX_PAGES ensures Nibble(Appended(p, s), j) == if j == NoPages(p) then s else Nibble(p, j) {
      AppendedFields(p, s, j);
    }
  }

  /** All occupancies from page n on are 0. */
  ghost predicate EmptyFrom(p: Page, n: nat) {
    forall j: nat :: n <= j < MAX_PAGES ==> Nibble(p, j) == 0
  }

  /** Nibble i describes page i: first fit finds one of the n known pages or exactly the next one. */
  lemma FirstFitAligned(p: Page, n: nat, s: nat, i: nat)
    requires EmptyFrom(p, n) && n < MAX_PAGES == NoPages(p) && s < STATUS_SIZE && FirstFit(p, s, i)
    ensures i <= n
    ensures EmptyFrom(WithNibble(p, i, Nibble(p, i) + s), if i == n then n + 1 else n)
    ensures i == n ==> Nibble(p, i) == 0
  {
    assert Nibble(p, n) == 0;
    var m := if i == n then n + 1 else n;
    var q := WithNibble(p, i, Nibble(p, i) + s);
    forall j: nat | m <= j < MAX_PAGES ensures Nibble(q, j) == 0 {
      OwnNibble(p, i, Nibble(p, i) + s, j);
    }
  }

  class FsmPage {
    const page: array<byte>

    ghost predicate Valid() {
      page.Length == PAGE_SIZE
    }

    ghost function View(): Page
      requires Valid()
      reads page
    {
      page[..]
    }

    constructor Attach(p: Page)
      ensures Valid() && fresh(page) && View() == p
    {
      page := new byte[PAGE_SIZE](i requires 0 <= i < PAGE_SIZE => p[i]);
      new;
      assert page[..] == p;
    }

    method Content() returns (p: Page)
      requires Valid()
      ensures p == View()
    {
      p := page[..];
    }

    /** Clears the map and writes the header. The first eight bytes are skipped, and so keep what they held. */
    method InitNewFSM(lsn: byte, pid: PID, aNoPages: uint32)
      requires Valid()
      modifies page
      ensures View()[4072..] == LE32(aNoPages) + LE32(0) + BasicHeader(lsn, pid)
      ensures NoPages(View()) == aNoPages && NextFsm(View()) == 0
      ensures forall j: nat :: j < MAX_PAGES ==> Nibble(View(), j) == if j < 16 then Nibble(old(View()), j) else 0
    {
      hide LE32, BasicHeader, Nibble;
      ghost var p := View();
      var max := NO_PAGES / 8;
      for i := 0 to max
        invariant forall j :: 0 <= j < PAGE_SIZE ==> page[j] == if 8 <= j < 8 * i then 0 else p[j]
      {
        if i != 0 {
          CopyBytes(page, 8 * i, [0, 0, 0, 0, 0, 0, 0, 0]);
        }
      }
      ghost var q := View();
      var header := LE32(aNoPages) + LE32(0) + BasicHeader(lsn, pid);
      CopyBytes(page, 8 * max, header);
      ClearedFields(p, q, header, View());
      HeaderFields(View(), aNoPages, BasicHeader(lsn, pid));
    }

    method GetPageStatus(aPageNo: nat) returns (s: nat)
      requires Valid() && aPageNo < MAX_PAGES
      ensures s == Nibble(View(), aPageNo)
    {
      if aPageNo % 2 == 0 {
        s := page[aPageNo / 2] % 16;
      } else {
        s := page[aPageNo / 2] / 16;
      }
    }

    method ChangePageStatus(aPageNo: nat, s: nat)
      requires Valid() && aPageNo < MAX_PAGES && s < STATUS_SIZE
      modifies page
      ensures View() == WithNibble(old(View()), aPageNo, s)
    {
      if aPageNo % 2 == 0 {
        page[aPageNo / 2] := page[aPageNo / 2] / 16 * 16 + s;
      } else {
        page[aPageNo / 2] := page[aPageNo / 2] % 16 + 16 * s;
      }
    }

    /** First fit by occupancy, with the occupancy raised; a new page if the map knows fewer than it can. */
    method GetFreePage(s: nat) returns (r: uint32)
      requires Valid() && s < STATUS_SIZE && NoPages(View()) <= MAX_PAGES
      modifies page
      ensures r < NoPages(old(View())) ==>
        FirstFit(old(View()), s, r) && View() == WithNibble(old(View()), r, Nibble(old(View()), r) + s)
      ensures r >= NoPages(old(View())) ==>
        forall j: nat :: j < NoPages(old(View())) ==> Nibble(old(View()), j) + s >= STATUS_SIZE
      ensures NoPages(old(View())) <= r < INVALID_32 ==>
        && r == NoPages(old(View())) < MAX_PAGES && View() == Appended(old(View()), s)
        && NoPages(View()) == r + 1 && NextFsm(View()) == NextFsm(old(View()))
        && forall j: nat :: j < MAX_PAGES ==> Nibble(View(), j) == if j == r then s else Nibble(old(View()), j)
      ensures r == INVALID_32 ==> View() == old(View()) && NoPages(View()) == MAX_PAGES
    {
      hide Nibble, WithNibble, LE32;
      var n := Field(NO_PAGES);
      var i := 0;
      while i < n
        invariant i <= n && View() == old(View())
        invariant forall j: nat :: j < i ==> Nibble(View(), j) + s >= STATUS_SIZE
      {
        var status := GetPageStatus(i);
        if status + s < STATUS_SIZE {
          ChangePageStatus(i, status + s);
          return i;
        }
        i := i + 1;
      }
      if i < MAX_PAGES {
        ChangePageStatus(i, s);
        CopyBytes(page, NO_PAGES, LE32(n + 1));
        AppendedNibbles(old(View()), s);
        return i;
      }
      return INVALID_32;
    }

    function Field(k: nat): (v: uint32)
      requires Valid() && k + 4 <= PAGE_SIZE
      reads page
      ensures v == Get32(View(), k)
    {
      page[k] as int + 256 * page[k + 1] as int + 65536 * page[k + 2] as int + 16777216 * page[k + 3] as int
    }
  }

  lemma ClearedFields(p: Page, q: Page, header: seq<byte>, r: Page)
    requires forall j :: 0 <= j < NO_PAGES ==> q[j] == if 8 <= j then 0 else p[j]
    requires |header| == 24 && r == Patch(q, NO_PAGES, header)
    ensures forall j: nat :: j < MAX_PAGES ==> Nibble(r, j) == if j < 16 then Nibble(p, j) else 0
    ensures r[NO_PAGES..NO_PAGES + 24] == header
  {
  }

  lemma HeaderFields(r: Page, noPages: uint32, rest: seq<byte>)
    requires |rest| == 16 && r[NO_PAGES..NO_PAGES + 24] == LE32(noPages) + LE32(0) + rest
    ensures NoPages(r) == noPages && NextFsm(r) == 0
  {
    hide LE32;
    var h := r[NO_PAGES..NO_PAGES + 24];
    assert r[NO_PAGES..NO_PAGES + 4] == h[..4] && r[NEXT_FSM..NEXT_FSM + 4] == h[4..8];
    Get32OfLE32(r, NO_PAGES, noPages);
    Get32OfLE32(r, NEXT_FSM, 0);
  }
}
