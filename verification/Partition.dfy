/** Page allocation in a partition: extents of one free space indicator page and the pages it manages. */
module Partitions {
  import opened BitMaps
  import opened Fsips
  import opened PageTypes

  /** (4096 - 32) * 8: the pages one FSIP can manage. */
  const PAGES_PER_FSIP: nat := 32512
  const EXTENT: nat := 32513

  /** Byte offsets into a file are products of 32-bit values, so there are 2^20 places for pages. */
  const FILE_PAGES: nat := 0x10_0000

  function ByteOffset(p: nat): nat {
    p * PAGE_SIZE % MAX_32
  }

  /** The place in the file at which page p is read and written. */
  function Place(p: nat): nat {
    ByteOffset(p) / PAGE_SIZE
  }

  lemma PlaceIs(p: nat)
    ensures ByteOffset(p) == PAGE_SIZE * (p % FILE_PAGES) && Place(p) == p % FILE_PAGES
  {
    var q, r := p / FILE_PAGES, p % FILE_PAGES;
    assert p * PAGE_SIZE == MAX_32 * q + PAGE_SIZE * r;
  }

  /** Pages have places of their own exactly in files of up to 2^20 pages. */
  lemma OwnPlaces(n: nat)
    ensures (forall p, q :: 0 <= p < q < n ==> ByteOffset(p) != ByteOffset(q)) <==> n <= 0x10_0000
  {
    forall p, q | 0 <= p < q < n && n <= FILE_PAGES ensures ByteOffset(p) != ByteOffset(q) {
      PlaceIs(p);
      PlaceIs(q);
    }
    if n > FILE_PAGES {
      PlaceIs(0);
      PlaceIs(FILE_PAGES);
      assert ByteOffset(0) == ByteOffset(FILE_PAGES);
    }
  }

  /** No two FSIPs share a place. */
  lemma FsipPlaces(i: nat, j: nat)
    requires IsFsip(i) && IsFsip(j) && i < MAX_32 && j < MAX_32 && Place(i) == Place(j)
    ensures i == j
  {
    PlaceIs(i);
    PlaceIs(j);
    var a, b, q := i / EXTENT, j / EXTENT, i / FILE_PAGES - j / FILE_PAGES;
    assert EXTENT * (a - b) == FILE_PAGES * q;
    OddFactor(a - b, q);
  }

  // EXTENT * INVERSE == 1 + FILE_PAGES * COFACTOR
  const INVERSE: int := 33025
  const COFACTOR: int := 1024

  /** The extent size is odd: it has an inverse modulo 2^20. */
  lemma OddFactor(d: int, q: int)
    requires EXTENT * d == FILE_PAGES * q && 0 - (FILE_PAGES as int) < d < FILE_PAGES
    ensures d == 0
  {
    assert d == FILE_PAGES * (INVERSE * q - COFACTOR * d);
  }

  /** The bitmap of an FSIP reaches to the header in its last 32 bytes. */
  lemma FsipLayout()
    ensures PAGES_PER_FSIP == 8 * (PAGE_SIZE - 32) && EXTENT == PAGES_PER_FSIP + 1
    ensures FILE_PAGES * PAGE_SIZE == 0x1_0000_0000
  {
  }

  /** The FSIP page of the extent that page p lies in. */
  function FsipOf(p: nat): nat {
    p - p % EXTENT
  }

  predicate IsFsip(p: nat) {
    p % EXTENT == 0
  }

  ghost predicate IsFree(disk: map<nat, Image>, p: nat) {
    !IsFsip(p) && FsipOf(p) in disk && p - FsipOf(p) - 1 in disk[FsipOf(p)].Free()
  }

  /** All pages that some FSIP of a partition of the given size calls free. */
  ghost function FreePages(disk: map<nat, Image>, size: nat): set<nat> {
    set p: nat | p < size + EXTENT && FsipOf(p) < size && IsFree(disk, p)
  }

  ghost predicate Extent(disk: map<nat, Image>, i: nat) {
    i in disk && disk[i].Valid() && disk[i].Capacity() == PAGES_PER_FSIP && disk[i].pageIndex == i
  }

  /** What is read at a place of the file that was never written. */
  function Zeros(): Image {
    Image(seq(PAGES_PER_FSIP / 8, _ => 0), 0, 0, 0, 0)
  }

  function PageAt(disk: map<nat, Image>, p: nat): Image {
    if Place(p) in disk then disk[Place(p)] else Zeros()
  }

  /** Every FSIP position inside the partition holds a proper FSIP. */
  ghost predicate Chained(disk: map<nat, Image>, size: nat) {
    1 < size <= FILE_PAGES && forall i: nat :: i < size && IsFsip(i) ==> Extent(disk, i)
  }

  /** The first FSIP may be in any state that giving pages back leaves it in. */
  ghost predicate First(disk: map<nat, Image>) {
    0 in disk && disk[0].Usable() && disk[0].Capacity() == PAGES_PER_FSIP && disk[0].pageIndex == 0
  }

  /** The FSIPs below n are proper ones, but for the counter and the hint of the first. */
  ghost predicate Linked(disk: map<nat, Image>, n: nat) {
    0 < n <= FILE_PAGES && First(disk) && forall i: nat :: 0 < i < n && IsFsip(i) ==> Extent(disk, i)
  }

  lemma ChainedIs(disk: map<nat, Image>, n: nat)
    requires 1 < n <= FILE_PAGES
    ensures Chained(disk, n) <==> Linked(disk, n) && disk[0].Valid()
  {
    hide Image.Free, Account.Exact, Account.Usable;
    if 0 in disk {
      disk[0].Books().ExactIsUsable();
    }
    assert IsFsip(0);
  }

  /** And the FSIPs manage exactly the other pages of the partition. */
  ghost predicate Formatted(disk: map<nat, Image>, size: nat) {
    && Chained(disk, size)
    && forall i: nat :: i < size && IsFsip(i) ==> i + 1 < size && Manages(disk, size, i)
  }

  ghost predicate Manages(disk: map<nat, Image>, size: nat, i: nat) {
    i in disk && i < size &&
    disk[i].managedPages == if size - 1 - i < PAGES_PER_FSIP then size - 1 - i else PAGES_PER_FSIP
  }

  datatype AllocResult = Allocated(page: uint32) | PartitionFull(buffer: Image, indexOfFSIP: uint32)

  predicate IsLast(i: nat, size: nat) {
    IsFsip(i) && i < size <= i + EXTENT
  }

  /** Position k of the extent at i is page i + 1 + k. */
  lemma Position(i: nat, p: nat)
    requires IsFsip(i) && i < p < i + EXTENT
    ensures FsipOf(p) == i && !IsFsip(p)
  {
  }

  lemma Beyond(i: nat, p: nat)
    requires IsFsip(i) && i < p && !IsFsip(p)
    ensures p < i + EXTENT || i + EXTENT <= FsipOf(p)
  {
  }

  /** The free pages outside the first extent. */
  ghost function RestPages(disk: map<nat, Image>, n: nat): set<nat> {
    set p | p in FreePages(disk, n) && EXTENT <= p
  }

  lemma AfterFirst(disk: map<nat, Image>, n: nat)
    ensures forall p :: p in RestPages(disk, n) ==> EXTENT < p
    ensures n <= EXTENT ==> RestPages(disk, n) == {}
  {
    hide Image.Free;
  }

  lemma NoneHere(disk: map<nat, Image>, n: nat, i: nat)
    requires IsFsip(i) && i in disk && disk[i].Free() == {}
    requires forall p :: p in RestPages(disk, n) ==> i < p
    ensures forall p :: p in RestPages(disk, n) ==> i + EXTENT < p
    ensures n <= i + EXTENT ==> RestPages(disk, n) == {}
  {
    hide Image.Free;
    forall p | p in RestPages(disk, n) ensures i + EXTENT < p && i + EXTENT < n {
      Beyond(i, p);
      if p < i + EXTENT {
        Position(i, p);
      }
    }
  }

  lemma TakenHere(disk: map<nat, Image>, n: nat, i: nat, p: nat, page: Image)
    requires 0 < i < n && IsFsip(i) && Extent(disk, i) && i < p && Lowest(p - 1 - i, disk[i].Free())
    requires forall q :: q in RestPages(disk, n) ==> i < q
    requires page.Free() == disk[i].Free() - {p - 1 - i}
    ensures Lowest(p, RestPages(disk, n))
    ensures RestPages(disk[i := page], n) == RestPages(disk, n) - {p}
  {
    hide Image.Free;
    assert p - 1 - i < PAGES_PER_FSIP && EXTENT <= i;
    Position(i, p);
    forall q | q in RestPages(disk, n) ensures p <= q {
      if q < p {
        Position(i, q);
      }
    }
    SameElsewhere(disk, n, i, page);
  }

  /** Rewriting the FSIP of the first extent leaves the others alone. */
  lemma RestSame(disk: map<nat, Image>, n: nat, page: Image)
    requires 0 in disk && page.Capacity() == PAGES_PER_FSIP
    ensures RestPages(disk[0 := page], n) == RestPages(disk, n)
  {
    SameElsewhere(disk, n, 0, page);
    hide Image.Free, FreePages;
    forall p: nat ensures p in RestPages(disk[0 := page], n) <==> p in RestPages(disk, n) {
      if EXTENT <= p {
        assert FsipOf(p) > 0;
      }
    }
  }

  /** Rewriting one FSIP changes the free pages of its extent only. */
  lemma SameElsewhere(disk: map<nat, Image>, size: nat, i: nat, page: Image)
    requires i in disk
    ensures forall q: nat :: q in FreePages(disk[i := page], size) <==>
      if FsipOf(q) == i then q < size + EXTENT && i < size && i < q && q - i - 1 in page.Free()
      else q in FreePages(disk, size)
  {
    hide Image.Free;
  }

  lemma StaysLinked(disk: map<nat, Image>, n: nat, i: nat, page: Image)
    requires Linked(disk, n) && i < n && IsFsip(i) && page.Capacity() == PAGES_PER_FSIP && page.pageIndex == i
    requires if i == 0 then page.Usable() else page.Valid()
    ensures Linked(disk[i := page], n)
  {
    hide Image.Valid, Image.Usable;
    var disk' := disk[i := page];
    forall j: nat | 0 < j < n && IsFsip(j) ensures Extent(disk', j) {
      assert Extent(disk, j);
    }
  }

  // ----- formatting -----

  /** The pages that are not FSIPs. */
  ghost function DataPages(size: nat): set<nat> {
    set p: nat | p < size && !IsFsip(p)
  }

  /** The state format leaves an FSIP in. */
  ghost predicate Fresh(disk: map<nat, Image>, size: nat, i: nat) {
    i in disk && FreshPage(disk[i], size, i)
  }

  ghost predicate FreshPage(page: Image, size: nat, i: nat) {
    && i < size && page.Valid() && page.Capacity() == PAGES_PER_FSIP && page.pageIndex == i
    && page.managedPages == (if size - 1 - i < PAGES_PER_FSIP then size - 1 - i else PAGES_PER_FSIP)
    && page.Free() == Range(0, page.managedPages)
  }

  /** Does format write page p? */
  predicate Written(size: nat, p: nat) {
    IsFsip(p) && p + 1 < size
  }

  ghost predicate SamePlace(a: map<nat, Image>, b: map<nat, Image>, i: nat) {
    (i in a <==> i in b) && (i in a ==> a[i] == b[i])
  }

  /** The FSIP of page i is in its place. */
  ghost predicate Placed(disk: map<nat, Image>, size: nat, i: nat) {
    Place(i) in disk && FreshPage(disk[Place(i)], size, i)
  }

  /** Place k belongs to an FSIP that format writes below page n. */
  ghost predicate Hit(size: nat, n: nat, k: nat) {
    exists i: nat :: i < n && Written(size, i) && Place(i) == k
  }

  /** Format has written what it has to write below page n, and nothing else. */
  ghost predicate WrittenBelow(disk: map<nat, Image>, was: map<nat, Image>, size: nat, n: nat) {
    && (forall i: nat :: i < n && Written(size, i) ==> Placed(disk, size, i))
    && forall k: nat :: Hit(size, n, k) || SamePlace(disk, was, k)
  }

  lemma WrittenNone(disk: map<nat, Image>, size: nat)
    ensures WrittenBelow(disk, disk, size, 0)
  {
  }

  lemma WrittenAll(disk: map<nat, Image>, was: map<nat, Image>, size: nat, n: nat)
    requires WrittenBelow(disk, was, size, n) && size <= n + 1
    ensures forall i: nat :: Written(size, i) ==> Placed(disk, size, i)
    ensures forall k: nat :: Hit(size, size, k) || SamePlace(disk, was, k)
  {
    hide Placed, SamePlace, Place;
    forall k: nat ensures Hit(size, size, k) || SamePlace(disk, was, k) {
      if Hit(size, n, k) {
        var i: nat :| i < n && Written(size, i) && Place(i) == k;
        assert i < size;
      }
    }
  }

  lemma WriteNext(disk: map<nat, Image>, was: map<nat, Image>, size: nat, n: nat, page: Image)
    requires WrittenBelow(disk, was, size, n) && Written(size, n) && FreshPage(page, size, n) && size < MAX_32
    ensures WrittenBelow(disk[Place(n) := page], was, size, n + EXTENT)
  {
    hide FreshPage, Place;
    var disk' := disk[Place(n) := page];
    forall i: nat | i < n + EXTENT && Written(size, i) ensures Placed(disk', size, i) {
      if i < n {
        NotThere(size, i, n);
        assert Placed(disk, size, i);
      } else if n < i {
        Position(n, i);
      }
    }
    forall k: nat ensures Hit(size, n + EXTENT, k) || SamePlace(disk', was, k) {
      if Hit(size, n, k) {
        var i: nat :| i < n && Written(size, i) && Place(i) == k;
        assert i < n + EXTENT;
      } else if k == Place(n) {
        assert n < n + EXTENT && Written(size, n) && Place(n) == k;
      } else {
        assert SamePlace(disk, was, k);
      }
    }
  }

  lemma NotThere(size: nat, i: nat, j: nat)
    requires Written(size, i) && Written(size, j) && i != j && size < MAX_32
    ensures Place(i) != Place(j)
  {
    hide Place;
    if Place(i) == Place(j) {
      FsipPlaces(i, j);
    }
  }

  /** In a file of up to 2^20 pages format has written its FSIPs, and nothing else. */
  lemma FormatIs(disk: map<nat, Image>, was: map<nat, Image>, size: nat)
    requires size <= FILE_PAGES
    requires forall i: nat :: Written(size, i) ==> Placed(disk, size, i)
    requires forall k: nat :: Hit(size, size, k) || SamePlace(disk, was, k)
    ensures forall i: nat :: if Written(size, i) then Fresh(disk, size, i) else SamePlace(disk, was, i)
  {
    hide FreshPage, Place;
    forall i: nat ensures if Written(size, i) then Fresh(disk, size, i) else SamePlace(disk, was, i) {
      PlaceIs(i);
      if Hit(size, size, i) {
        var j: nat :| j < size && Written(size, j) && Place(j) == i;
        PlaceIs(j);
      } else {
        assert SamePlace(disk, was, i);
      }
      if Written(size, i) {
        assert Placed(disk, size, i);
      }
    }
  }

  /** Format overwrites the place of a data page exactly in partitions of more than 1072930 pages. */
  lemma FormatSpares(size: nat)
    requires size < MAX_32
    ensures (exists i: nat :: Written(size, i) && !IsFsip(Place(i))) <==> size > 1072930
  {
    hide Place;
    if size > 33 * EXTENT + 1 {
      PlaceIs(33 * EXTENT);
      assert Written(size, 33 * EXTENT) && !IsFsip(Place(33 * EXTENT));
    } else {
      forall i: nat | Written(size, i) ensures IsFsip(Place(i)) {
        PlaceIs(i);
        assert i == EXTENT * (i / EXTENT) && i / EXTENT <= 32;
      }
    }
  }

  lemma FreshIsFormatted(disk: map<nat, Image>, size: nat)
    requires 1 < size <= FILE_PAGES && size % EXTENT != 1
    requires forall i: nat :: Written(size, i) ==> Fresh(disk, size, i)
    ensures Formatted(disk, size) && FreePages(disk, size) == DataPages(size)
  {
    hide Image.Valid, Image.Free;
    forall i: nat | i < size && IsFsip(i) ensures Written(size, i) {
    }
    forall p: nat ensures p in FreePages(disk, size) <==> p in DataPages(size) {
      if !IsFsip(p) && FsipOf(p) < size {
        assert Written(size, FsipOf(p));
      }
    }
  }

  /** Format leaves an FSIP that allocation will read unwritten exactly if the last extent would be empty. */
  lemma UnwrittenFsip(size: nat)
    requires 0 < size
    ensures (exists i: nat :: i < size && IsFsip(i) && !Written(size, i)) <==> size % EXTENT == 1
  {
    if size % EXTENT == 1 {
      assert IsFsip(size - 1) && !Written(size, size - 1);
    }
  }

  function FsipCount(size: nat): nat {
    (size + EXTENT - 1) / EXTENT
  }

  /** Free space indicator pages and managed pages add up to the partition. */
  lemma {:induction false} DataPagesSize(size: nat)
    ensures |DataPages(size)| + FsipCount(size) == size
  {
    if size == 0 {
      assert DataPages(size) == {};
    } else {
      DataPagesSize(size - 1);
      if IsFsip(size - 1) {
        assert DataPages(size) == DataPages(size - 1);
      } else {
        assert DataPages(size) == DataPages(size - 1) + {size - 1};
      }
    }
  }

  // ----- repeated allocation -----

  /** What one call of AllocPage does to the set of free pages; None when it throws. */
  ghost predicate Alloc(f: set<nat>, r: Option<nat>, f': set<nat>) {
    if f == {} then r == None && f' == f else r.Some? && Lowest(r.value, f) && f' == f - {r.value}
  }

  ghost predicate AllocRun(frees: seq<set<nat>>, results: seq<Option<nat>>) {
    |frees| == |results| + 1 && forall k :: 0 <= k < |results| ==> Alloc(frees[k], results[k], frees[k + 1])
  }

  lemma {:induction false} RunSize(frees: seq<set<nat>>, results: seq<Option<nat>>, k: nat)
    requires AllocRun(frees, results) && k <= |results|
    ensures frees[k] <= frees[0]
    ensures |frees[k]| == if k <= |frees[0]| then |frees[0]| - k else 0
    ensures forall j :: 0 <= j < k && results[j].Some? ==> results[j].value !in frees[k]
  {
    if k > 0 {
      RunSize(frees, results, k - 1);
      assert Alloc(frees[k - 1], results[k - 1], frees[k]);
    }
  }

  /** A call succeeds exactly while free pages are left, with pages that were free at first and pairwise distinct. */
  lemma RunResults(frees: seq<set<nat>>, results: seq<Option<nat>>, j: nat, k: nat)
    requires AllocRun(frees, results) && j < k < |results|
    ensures results[k].Some? <==> k < |frees[0]|
    ensures results[k].Some? ==> results[k].value in frees[0]
    ensures results[k].Some? ==> results[j].Some? && results[j].value < results[k].value
  {
    RunSize(frees, results, j);
    RunSize(frees, results, k);
    assert Alloc(frees[k], results[k], frees[k + 1]);
    assert Alloc(frees[j], results[j], frees[j + 1]);
    if results[k].Some? {
      RunFrom(frees, results, j, k);
    }
  }

  lemma {:induction false} RunFrom(frees: seq<set<nat>>, results: seq<Option<nat>>, j: nat, k: nat)
    requires AllocRun(frees, results) && j <= k <= |results|
    ensures frees[k] <= frees[j]
    decreases k
  {
    if j < k {
      RunFrom(frees, results, j, k - 1);
      assert Alloc(frees[k - 1], results[k - 1], frees[k]);
    }
  }

  // ----- allocation and return -----

  /** What decides the allocations of a partition: the account of the first FSIP, and the free pages elsewhere. */
  datatype Ledger = Ledger(first: Account, rest: set<nat>) {
    ghost predicate Free(p: nat) {
      (0 < p && p - 1 in first.free) || p in rest
    }

    /** What allocation takes for a full partition. */
    predicate Full() {
      first.count == 0 && rest == {}
    }

    ghost predicate Ok() {
      first.Usable() && (forall k :: k in first.free ==> k < PAGES_PER_FSIP) && forall p :: p in rest ==> EXTENT < p
    }
  }

  ghost function LedgerOf(disk: map<nat, Image>, n: nat): Ledger
    requires 0 in disk
  {
    Ledger(disk[0].Books(), RestPages(disk, n))
  }

  /** The first extent is asked first, and hands out the page of its hint. */
  ghost predicate Allocates(l: Ledger, r: Option<nat>, l': Ledger) {
    if l.first.count > 0 then
      l.first.Takes(Some(l.first.hint), l'.first) && r == Some(l.first.hint + 1) && l'.rest == l.rest
    else
      l'.first == l.first && Alloc(l.rest, r, l'.rest)
  }

  /** An allocation with its result, a page of the first extent given back, or a call that was left out. */
  datatype Op = Allocate(r: Option<nat>) | Free(p: nat) | Nothing

  ghost predicate Step(l: Ledger, op: Op, l': Ledger) {
    match op
    case Allocate(r) => Allocates(l, r, l')
    case Free(p) => 0 < p < EXTENT && !l.Free(p) && l' == Ledger(l.first.Given(p - 1), l.rest)
    case Nothing => l' == l
  }

  ghost predicate Run(ls: seq<Ledger>, ops: seq<Op>) {
    && |ls| == |ops| + 1 && ls[0].Ok()
    && forall k :: 0 <= k < |ops| ==> Step(ls[k], ops[k], ls[k + 1])
  }

  lemma StepOk(l: Ledger, op: Op, l': Ledger)
    requires l.Ok() && Step(l, op, l')
    ensures l'.Ok()
    ensures op.Allocate? ==> !l'.first.Pending()
    ensures op.Free? ==> (l'.first.Pending() <==> op.p != 1 && (l.first.free == {} || l.first.Pending()))
  {
    hide Account.Usable;
    match op
    case Allocate(r) =>
      if l.first.count > 0 {
        l.first.TakenUsable(Some(l.first.hint), l'.first);
      } else {
        l.first.TakenUsable(None, l.first);
      }
    case Free(p) => l.first.GivenUsable(p - 1);
    case Nothing =>
  }

  lemma {:induction false} AlwaysOk(ls: seq<Ledger>, ops: seq<Op>, k: nat)
    requires Run(ls, ops) && k <= |ops|
    ensures ls[k].Ok()
  {
    if k > 0 {
      AlwaysOk(ls, ops, k - 1);
      StepOk(ls[k - 1], ops[k - 1], ls[k]);
    }
  }

  /** An allocation hands out a page in use exactly if the hint of the first FSIP is off, and then it is page 1. */
  lemma HandedOut(ls: seq<Ledger>, ops: seq<Op>, j: nat, p: nat)
    requires Run(ls, ops) && j < |ops| && ops[j] == Allocate(Some(p))
    ensures !ls[j].Free(p) <==> ls[j].first.Pending()
    ensures ls[j].first.Pending() ==> p == 1
    ensures !ls[j + 1].Free(p)
  {
    AlwaysOk(ls, ops, j);
    assert Step(ls[j], ops[j], ls[j + 1]);
    var a := ls[j].first;
    a.TakenUsable(if a.count > 0 then Some(a.hint) else None, ls[j + 1].first);
  }

  /** A page other than the first was given back to the full first extent. */
  ghost predicate Upsets(l: Ledger, op: Op) {
    op.Free? && op.p != 1 && l.first.free == {}
  }

  /** The hint is off exactly from such a return until the next allocation, or until page 1 is given back. */
  lemma {:induction false} PendingSince(ls: seq<Ledger>, ops: seq<Op>, j: nat)
    requires Run(ls, ops) && j <= |ops| && !ls[0].first.Pending()
    ensures ls[j].first.Pending() <==>
      exists i :: 0 <= i < j && Upsets(ls[i], ops[i]) &&
        forall k :: i < k < j ==> !ops[k].Allocate? && ops[k] != Free(1)
  {
    hide Account.Usable, Account.Pending;
    if j > 0 {
      PendingSince(ls, ops, j - 1);
      AlwaysOk(ls, ops, j - 1);
      assert Step(ls[j - 1], ops[j - 1], ls[j]);
      StepOk(ls[j - 1], ops[j - 1], ls[j]);
      if ls[j].first.Pending() && !Upsets(ls[j - 1], ops[j - 1]) {
        var i :| 0 <= i < j - 1 && Upsets(ls[i], ops[i])
          && forall k :: i < k < j - 1 ==> !ops[k].Allocate? && ops[k] != Free(1);
        assert !ops[j - 1].Allocate? && ops[j - 1] != Free(1);
        assert forall k :: i < k < j ==> !ops[k].Allocate? && ops[k] != Free(1);
      }
    }
  }

  /** A page in use stays so until it is given back. */
  lemma {:induction false} InUse(ls: seq<Ledger>, ops: seq<Op>, p: nat, i: nat, j: nat)
    requires Run(ls, ops) && i <= j <= |ops| && !ls[i].Free(p)
    requires forall k :: i <= k < j ==> ops[k] != Free(p)
    ensures !ls[j].Free(p)
    decreases j
  {
    if i < j {
      InUse(ls, ops, p, i, j - 1);
      assert Step(ls[j - 1], ops[j - 1], ls[j]);
    }
  }

  /**
   * Between two allocations of a page it was given back, or else it is page 1 and some other page was given back
   * to the full first extent, with no allocation since.
   */
  lemma TwiceMeansFreed(ls: seq<Ledger>, ops: seq<Op>, p: nat, i: nat, j: nat)
    requires Run(ls, ops) && i < j < |ops| && ops[i] == ops[j] == Allocate(Some(p)) && !ls[0].first.Pending()
    requires forall k :: i < k < j ==> ops[k] != Free(p)
    ensures p == 1
    ensures exists k :: i < k < j && Upsets(ls[k], ops[k]) && forall n :: k < n < j ==> !ops[n].Allocate?
  {
    HandedOut(ls, ops, i, p);
    InUse(ls, ops, p, i + 1, j);
    HandedOut(ls, ops, j, p);
    PendingSince(ls, ops, j);
  }

  /**
   * After format, allocation hands out every page that is not an FSIP once, in ascending order, and then fails:
   * exactly size - FsipCount(size) calls succeed.
   */
  lemma AllocAfterFormat(disk: map<nat, Image>, size: nat, frees: seq<set<nat>>, results: seq<Option<nat>>, k: nat)
    requires 1 < size <= FILE_PAGES && size % EXTENT != 1
    requires forall i: nat :: Written(size, i) ==> Fresh(disk, size, i)
    requires AllocRun(frees, results) && frees[0] == FreePages(disk, size) && k < |results|
    ensures results[k].Some? <==> k < size - FsipCount(size)
    ensures results[k].Some? ==> results[k].value < size && !IsFsip(results[k].value)
    ensures forall j :: 0 <= j < k && results[k].Some? ==> results[j].Some? && results[j].value < results[k].value
  {
    hide Fresh, FreePages;
    FreshIsFormatted(disk, size);
    DataPagesSize(size);
    RunSize(frees, results, k);
    assert Alloc(frees[k], results[k], frees[k + 1]);
    forall j | 0 <= j < k && results[k].Some?
      ensures results[j].Some? && results[j].value < results[k].value
    {
      RunResults(frees, results, j, k);
    }
  }

  function PageOf(r: AllocResult): Option<nat> {
    if r.Allocated? then Some(r.page) else None
  }

  /** At most one FSIP was rewritten, and nothing else. */
  ghost predicate OneChanged(was: map<nat, Image>, disk: map<nat, Image>) {
    disk == was || exists i: nat :: IsFsip(i) && i in disk && disk == was[i := disk[i]]
  }

  /** What is in the places of data pages is as it was. */
  ghost predicate DataKept(was: map<nat, Image>, disk: map<nat, Image>) {
    forall k: nat :: IsFsip(k) || SamePlace(disk, was, k)
  }

  lemma OneChangedKept(was: map<nat, Image>, disk: map<nat, Image>)
    requires OneChanged(was, disk)
    ensures DataKept(was, disk)
  {
  }

  lemma DataKeptThrough(was: map<nat, Image>, ready: map<nat, Image>, disk: map<nat, Image>)
    requires DataKept(was, ready) && DataKept(ready, disk)
    ensures DataKept(was, disk)
  {
    forall k: nat | !IsFsip(k) ensures SamePlace(disk, was, k) {
      assert SamePlace(ready, was, k) && SamePlace(disk, ready, k);
    }
  }

  /** A file that was cut down to nothing. */
  ghost predicate Hollow(disk: map<nat, Image>, size: nat) {
    size == 0 && 0 !in disk
  }

  lemma EmptyUnchained(disk: map<nat, Image>, n: nat)
    ensures Chained(disk, n) ==> Linked(disk, n)
  {
    hide Image.Free, Image.Valid;
    if Chained(disk, n) {
      ChainedIs(disk, n);
    }
  }

  /** What allocation reads at an FSIP position. */
  lemma ReadHere(disk: map<nat, Image>, n: nat, size: nat, i: nat)
    requires IsFsip(i) && if Hollow(disk, size) then i == 0 else Linked(disk, n) && i < n
    ensures Place(i) == i
    ensures Hollow(disk, size) ==> PageAt(disk, i) == Zeros()
    ensures !Hollow(disk, size) ==>
      && i in disk && PageAt(disk, i) == disk[i]
      && disk[i].Usable() && disk[i].Capacity() == PAGES_PER_FSIP && disk[i].pageIndex == i
      && (i > 0 ==> Extent(disk, i) && (disk[i].freeBlocksCount == 0 <==> disk[i].Free() == {}))
  {
    hide Place, Image.Free;
    PlaceIs(i);
    if !Hollow(disk, size) {
      UsableHere(disk, n, i);
    }
  }

  lemma UsableHere(disk: map<nat, Image>, n: nat, i: nat)
    requires Linked(disk, n) && i < n && IsFsip(i)
    ensures i in disk && disk[i].Usable() && disk[i].Capacity() == PAGES_PER_FSIP && disk[i].pageIndex == i
    ensures i > 0 ==> Extent(disk, i)
    ensures i > 0 ==> (disk[i].freeBlocksCount == 0 <==> disk[i].Free() == {})
  {
    hide Image.Free;
    if i > 0 {
      assert Extent(disk, i);
    }
  }

  /** A page of the extent at i was handed out, and no page was before. */
  lemma Taken(disk: map<nat, Image>, n: nat, i: nat, p: nat, page: Image)
    requires Linked(disk, n) && i < n && IsFsip(i) && i < p && disk[i].freeBlocksCount > 0
    requires disk[i].Books().Takes(Some(p - 1 - i), page.Books()) && page.Usable()
    requires page.managedPages == disk[i].managedPages && page.pageIndex == i && page.Capacity() == PAGES_PER_FSIP
    requires disk[i].Valid() ==> page.Valid()
    requires i > 0 ==> disk[0].freeBlocksCount == 0 && forall q :: q in RestPages(disk, n) ==> i < q
    ensures Linked(disk[i := page], n) && (Chained(disk, n) ==> Chained(disk[i := page], n))
    ensures Allocates(LedgerOf(disk, n), Some(p), LedgerOf(disk[i := page], n))
  {
    hide Image.Usable, Image.Valid, Image.Free, RestPages, Chained;
    UsableHere(disk, n, i);
    StaysLinked(disk, n, i, page);
    if i == 0 {
      RestSame(disk, n, page);
    } else {
      TakesLowest(disk[i], p - 1 - i, page);
      TakenHere(disk, n, i, p, page);
    }
    TakenChained(disk, n, i, page);
  }

  lemma TakenChained(disk: map<nat, Image>, n: nat, i: nat, page: Image)
    requires Linked(disk[i := page], n) && (i in disk && disk[i].Valid() ==> page.Valid())
    ensures Chained(disk, n) ==> Chained(disk[i := page], n)
  {
    hide Image.Valid, Linked;
    if Chained(disk, n) {
      ChainedIs(disk, n);
      ChainedIs(disk[i := page], n);
    }
  }

  lemma TakesLowest(v: Image, k: nat, v': Image)
    requires v.Valid() && v.freeBlocksCount > 0 && v.Books().Takes(Some(k), v'.Books())
    ensures Lowest(k, v.Free()) && v'.Free() == v.Free() - {k}
  {
    hide Image.Free;
  }

  class Partition {
    var disk: map<nat, Image>
    var sizeInPages: uint32
    const growthIndicator: uint32

    ghost function Free(): set<nat>
      reads this
    {
      FreePages(disk, sizeInPages)
    }

    method ReadPage(p: nat) returns (page: Image)
      ensures page == PageAt(disk, p)
    {
      page := PageAt(disk, p);
    }

    method WritePage(p: nat, page: Image)
      modifies this`disk
      ensures disk == old(disk)[Place(p) := page]
    {
      disk := disk[Place(p) := page];
    }

    /**
     * First fit over the chain of FSIPs, as far as they are proper ones; the loop ends because they are finitely
     * many. The first FSIP hands out what its hint says. A partition of no pages at all is full.
     */
    method AllocPage(ghost n: nat) returns (r: AllocResult)
      requires n <= sizeInPages
      requires Hollow(disk, sizeInPages) || (Linked(disk, n) && (n == sizeInPages || !LedgerOf(disk, n).Full()))
      modifies this`disk
      ensures disk.Keys == old(disk).Keys
      ensures forall i :: i in disk ==> disk[i].managedPages == old(disk)[i].managedPages
      ensures Linked(old(disk), n) ==>
        Linked(disk, n) && Allocates(LedgerOf(old(disk), n), PageOf(r), LedgerOf(disk, n))
      ensures Chained(old(disk), n) ==> Chained(disk, n)
      ensures r.PartitionFull? ==> disk == old(disk)
      ensures Linked(old(disk), n) ==> OneChanged(old(disk), disk)
      ensures r.PartitionFull? && Linked(old(disk), n) ==>
        && n == sizeInPages && IsLast(r.indexOfFSIP, sizeInPages)
        && r.indexOfFSIP in disk && r.buffer == disk[r.indexOfFSIP]
      ensures Hollow(old(disk), sizeInPages) ==> r.PartitionFull?
    {
      hide Image.Usable, Image.Valid, Image.Free, IsFree, FreePages, RestPages, Chained, Account.Takes, Place;
      var index: nat := 0;
      AfterFirst(disk, n);
      EmptyUnchained(disk, n);
      while true
        invariant disk == old(disk) && IsFsip(index) && (index < n || (n == 0 && index == 0))
        invariant index > 0 ==>
          disk[0].freeBlocksCount == 0 && forall p :: p in RestPages(disk, n) ==> index < p
        decreases n - index
      {
        ReadHere(disk, n, sizeInPages, index);
        var page := ReadPage(index);
        var fsip := new Fsip.Attach(page);
        var p := fsip.GetNewPage();
        page := fsip.Content();
        if p == INVALID_32 {
          if index > 0 {
            NoneHere(disk, n, index);
          }
          var next := index + (1 + PAGES_PER_FSIP);
          if next >= sizeInPages {
            return PartitionFull(page, index);
          }
          index := next;
        } else {
          Taken(disk, n, index, p, page);
          WritePage(index, page);
          assert IsFsip(index) && disk == old(disk)[index := disk[index]];
          return Allocated(p);
        }
      }
    }

    constructor (size: uint32, growth: uint32, content: map<nat, Image>)
      ensures disk == content && sizeInPages == size && growthIndicator == growth
    {
      disk, sizeInPages, growthIndicator := content, size, growth;
    }

    /**
     * Writes the FSIPs, each to its place in the file, and nothing else. The last, empty extent of a partition with
     * size % EXTENT == 1 gets none.
     */
    method Format()
      requires sizeInPages + 2 * EXTENT < INVALID_32
      modifies this`disk
      ensures forall i: nat :: Written(sizeInPages, i) ==> Placed(disk, sizeInPages, i)
      ensures forall k: nat :: Hit(sizeInPages, sizeInPages, k) || SamePlace(disk, old(disk), k)
      ensures sizeInPages <= FILE_PAGES ==> forall i: nat ::
        if Written(sizeInPages, i) then Fresh(disk, sizeInPages, i) else SamePlace(disk, old(disk), i)
    {
      hide Image.Valid, Image.Free, WrittenBelow, Placed, Fresh, SamePlace, Range, Place, Hit;
      WrittenNone(disk, sizeInPages);
      var fsip := new Fsip.Attach(Zeros());
      var current: nat, remainingPages: nat := 0, sizeInPages;
      while remainingPages > 1
        invariant IsFsip(current) && fsip.bitmap.Length == PAGES_PER_FSIP / 8 && fresh(fsip) && fresh(fsip.bitmap)
        invariant current + remainingPages == sizeInPages || (remainingPages == 0 && sizeInPages <= current)
        invariant WrittenBelow(disk, old(disk), sizeInPages, current)
      {
        remainingPages := remainingPages - 1;
        var toManage := if remainingPages > PAGES_PER_FSIP then PAGES_PER_FSIP else remainingPages;
        fsip.InitNewFSIP(current, toManage);
        var page := fsip.Content();
        WriteNext(disk, old(disk), sizeInPages, current, page);
        WritePage(current, page);
        current := current + (PAGES_PER_FSIP + 1);
        remainingPages := remainingPages - toManage;
      }
      WrittenAll(disk, old(disk), sizeInPages, current);
      if sizeInPages <= FILE_PAGES {
        FormatIs(disk, old(disk), sizeInPages);
      }
    }

    /**
     * Allocation in a file partition: a full partition grows by growthIndicator pages and allocates again. The new
     * size in bytes is a 32-bit product, so the growth succeeds exactly if the file stays below 2^20 pages; from
     * there on the file is cut down instead, the allocation fails, and most of the pages are lost.
     *
     * After a growth, the FSIPs describe the file exactly if it fits the last extent or fills one more: otherwise the
     * page of the new FSIP is counted as manageable, and the page after the end of the file is handed out as well.
     * Growth by more than that leaves the next FSIP unwritten.
     */
    method AllocPageOrGrow() returns (p: Option<uint32>)
      requires Formatted(disk, sizeInPages) && Inside(disk, sizeInPages) && 8 <= growthIndicator < 0x1_0000
      modifies this`disk, this`sizeInPages
      ensures p.Some? <==> old(Free()) != {} || old(sizeInPages) + growthIndicator < 0x10_0000
      ensures p.Some? ==> DataKept(old(disk), disk)
      ensures old(Free()) != {} ==>
        && Lowest(p.value, old(Free())) && Free() == old(Free()) - {p.value} && sizeInPages == old(sizeInPages)
        && Formatted(disk, sizeInPages) && Inside(disk, sizeInPages)
      ensures old(Free()) == {} && p.Some? ==>
        && sizeInPages == old(sizeInPages) + growthIndicator && Inside(disk, sizeInPages)
        && Lowest(p.value, Added(old(sizeInPages), growthIndicator))
        && Free() == Added(old(sizeInPages), growthIndicator) - {p.value}
        && (Chained(disk, sizeInPages) <==> growthIndicator <= Room(old(sizeInPages)) + EXTENT)
        && (Formatted(disk, sizeInPages) <==> Fits(old(sizeInPages), growthIndicator))
      ensures p.None? ==>
        && sizeInPages == old(sizeInPages) + growthIndicator - 0x10_0000
        && Cut(old(disk), disk, old(sizeInPages), growthIndicator)
    {
      hide Image.Valid, Image.Free, FreePages, Range, Chained, Added, Linked, LedgerOf, Inside, Fits, Allocates, Cut;
      hide Formatted, Hollow, OneChanged, DataKept;
      ghost var was, size := disk, sizeInPages;
      FormattedChained(disk, sizeInPages);
      ChainedReady(disk, sizeInPages);
      var r := AllocPage(sizeInPages);
      ChainedAlloc(was, disk, sizeInPages, PageOf(r));
      SameKeys(was, disk, sizeInPages);
      OneChangedKept(was, disk);
      if r.Allocated? {
        StaysFormatted(was, disk, sizeInPages);
        return Some(r.page);
      }
      Extend(r.buffer, r.indexOfFSIP);
      ghost var ready, n := disk, sizeInPages;
      if size + growthIndicator < FILE_PAGES {
        n := Known(size, growthIndicator);
        CanRetry(disk, size, growthIndicator);
      } else {
        CutFull(was, disk, size, growthIndicator);
      }
      r := AllocPage(n);
      p := PageOf(r);
      if size + growthIndicator < FILE_PAGES {
        Retried(ready, disk, size, growthIndicator, p);
        OneChangedKept(ready, disk);
        DataKeptThrough(was, ready, disk);
      } else {
        NothingLeft(ready, disk, n, p);
      }
    }

    /** Sets the length of the file in pages. */
    method Resize(pages: nat)
      modifies this`disk
      ensures disk == UpTo(old(disk), pages)
    {
      disk := UpTo(disk, pages);
    }

    /**
     * The recovery from a full partition: the file grows, its last FSIP takes what fits, a new one the rest. When the
     * new size in bytes does not fit 32 bits the file is cut down instead, and these FSIPs end up behind its end or
     * in the place of a data page.
     */
    method Extend(buffer: Image, indexOfFSIP: uint32)
      requires Formatted(disk, sizeInPages) && Inside(disk, sizeInPages)
      requires 8 <= growthIndicator < 0x1_0000 && Free() == {}
      requires IsLast(indexOfFSIP, sizeInPages) && indexOfFSIP in disk && buffer == disk[indexOfFSIP]
      modifies this`disk, this`sizeInPages
      ensures sizeInPages == (old(sizeInPages) + growthIndicator) % 0x10_0000
      ensures old(sizeInPages) + growthIndicator < FILE_PAGES ==>
        && Inside(disk, Known(old(sizeInPages), growthIndicator))
        && Free() == Added(old(sizeInPages), growthIndicator)
        && Chained(disk, Known(old(sizeInPages), growthIndicator))
        && (Chained(disk, sizeInPages) <==> growthIndicator <= Room(old(sizeInPages)) + EXTENT)
        && (Formatted(disk, sizeInPages) <==> Fits(old(sizeInPages), growthIndicator))
        && DataKept(old(disk), disk)
      ensures old(sizeInPages) + growthIndicator >= FILE_PAGES ==>
        Cut(old(disk), disk, old(sizeInPages), growthIndicator)
    {
      hide Image.Valid, Image.Free, FreePages, Range, Chained, Added, Known, Fits, Place, Cut, UpTo, Inside, Room;
      FormattedChained(disk, sizeInPages);
      AllFull(disk, sizeInPages, indexOfFSIP);
      LastExtent(disk, sizeInPages, indexOfFSIP);
      ghost var was, size := disk, sizeInPages;
      var newSize := (sizeInPages + growthIndicator) * PAGE_SIZE % MAX_32;
      NewSize(size + growthIndicator);
      Resize(newSize / PAGE_SIZE);
      sizeInPages := newSize / PAGE_SIZE;
      var fsip := new Fsip.Attach(buffer);
      var rest := fsip.Grow(growthIndicator, PAGES_PER_FSIP);
      var grown := fsip.Content();
      WritePage(indexOfFSIP, grown);
      ghost var page: Image := grown;
      if rest > 0 {
        var next := indexOfFSIP + PAGES_PER_FSIP + 1;
        var toManage := if rest > PAGES_PER_FSIP then PAGES_PER_FSIP else rest;
        fsip.InitNewFSIP(next, toManage);
        var content := fsip.Content();
        page := content;
        WritePage(next, content);
      }
      Extended(was, size, indexOfFSIP, growthIndicator, grown, page, disk);
    }

    /** Gives back a page of the first extent; see FsipReadByFree for the others. */
    method FreePage(aPageIndex: uint32)
      requires Linked(disk, sizeInPages) && 0 < aPageIndex <= disk[0].managedPages
      modifies this`disk
      ensures 0 in disk && disk == old(disk)[0 := disk[0]]
      ensures forall i :: i in disk ==> disk[i].managedPages == old(disk)[i].managedPages
      ensures aPageIndex < EXTENT && LedgerOf(disk, sizeInPages) ==
        Ledger(old(LedgerOf(disk, sizeInPages)).first.Given(aPageIndex - 1), old(LedgerOf(disk, sizeInPages)).rest)
      ensures !old(LedgerOf(disk, sizeInPages)).Free(aPageIndex) ==> Linked(disk, sizeInPages)
      ensures Chained(old(disk), sizeInPages) ==> (Chained(disk, sizeInPages) <==>
        aPageIndex !in old(Free()) && (aPageIndex == 1 || exists p :: p in old(Free()) && p < EXTENT))
    {
      hide Image.Valid, Image.Usable, Image.Free, FreePages, Chained, RestPages;
      ghost var was := disk;
      UsableHere(disk, sizeInPages, 0);
      FirstExtent(disk, sizeInPages);
      var index := FsipReadByFree(aPageIndex);
      var fsip := new Fsip.Attach(disk[index]);
      fsip.FreePage(aPageIndex);
      var page := fsip.Content();
      disk := disk[index := page];
      FreedHere(was, sizeInPages, aPageIndex, page);
      FreedChained(was, sizeInPages, aPageIndex, page);
    }
  }

  // ----- runs of a partition -----

  datatype Call = AllocCall | FreeCall(p: nat)

  /** A page is given back if it is one of the first extent and in use; other returns are left out. */
  ghost predicate Answers(call: Call, op: Op, l: Ledger, managed: nat) {
    match call
    case AllocCall => op.Allocate?
    case FreeCall(p) => op == if 0 < p <= managed && !l.Free(p) then Free(p) else Nothing
  }

  /** Any sequence of calls on a partition is a run. */
  method Serve(part: Partition, calls: seq<Call>) returns (ops: seq<Op>, ghost ls: seq<Ledger>)
    requires Linked(part.disk, part.sizeInPages)
    modifies part`disk
    ensures Linked(part.disk, part.sizeInPages) && Run(ls, ops) && |ops| == |calls|
    ensures ls[0] == LedgerOf(old(part.disk), part.sizeInPages)
    ensures ls[|ops|] == LedgerOf(part.disk, part.sizeInPages)
    ensures forall k :: 0 <= k < |ops| ==> Answers(calls[k], ops[k], ls[k], old(part.disk)[0].managedPages)
  {
    hide Linked, LedgerOf, Step, Answers;
    LinkedOk(part.disk, part.sizeInPages);
    ops, ls := [], [LedgerOf(part.disk, part.sizeInPages)];
    for n := 0 to |calls|
      invariant |ops| == n && |ls| == n + 1 && Linked(part.disk, part.sizeInPages) && 0 in part.disk
      invariant ls[0] == LedgerOf(old(part.disk), part.sizeInPages) && ls[n] == LedgerOf(part.disk, part.sizeInPages)
      invariant part.disk[0].managedPages == old(part.disk)[0].managedPages
      invariant forall k :: 0 <= k < n ==> Step(ls[k], ops[k], ls[k + 1])
      invariant forall k :: 0 <= k < n ==> Answers(calls[k], ops[k], ls[k], old(part.disk)[0].managedPages)
    {
      var op := ServeOne(part, calls[n]);
      ops, ls := ops + [op], ls + [LedgerOf(part.disk, part.sizeInPages)];
    }
  }

  method ServeOne(part: Partition, call: Call) returns (op: Op)
    requires Linked(part.disk, part.sizeInPages) && 0 in part.disk
    modifies part`disk
    ensures Linked(part.disk, part.sizeInPages) && 0 in part.disk
    ensures part.disk[0].managedPages == old(part.disk)[0].managedPages
    ensures Step(LedgerOf(old(part.disk), part.sizeInPages), op, LedgerOf(part.disk, part.sizeInPages))
    ensures Answers(call, op, LedgerOf(old(part.disk), part.sizeInPages), part.disk[0].managedPages)
  {
    hide Linked, LedgerOf, Allocates;
    match call
    case AllocCall =>
      var r := part.AllocPage(part.sizeInPages);
      op := Allocate(PageOf(r));
    case FreeCall(p) =>
      var known := InUseHere(part, p);
      if known {
        part.FreePage(p);
        op := Free(p);
      } else {
        op := Nothing;
      }
  }

  /** Whether p is a page of the first extent whose bit is set. */
  method InUseHere(part: Partition, p: nat) returns (known: bool)
    requires Linked(part.disk, part.sizeInPages) && 0 in part.disk
    ensures known <==>
      0 < p <= part.disk[0].managedPages && !LedgerOf(part.disk, part.sizeInPages).Free(p)
  {
    hide FreePages, RestPages, Bit;
    FirstExtent(part.disk, part.sizeInPages);
    AfterFirst(part.disk, part.sizeInPages);
    known := 0 < p <= part.disk[0].managedPages && Bit(part.disk[0].bits, p - 1);
  }

  lemma LinkedOk(disk: map<nat, Image>, n: nat)
    requires Linked(disk, n)
    ensures 0 in disk && LedgerOf(disk, n).Ok()
  {
    hide Image.Free, FreePages, RestPages;
    AfterFirst(disk, n);
  }

  /** n allocations on a chain of proper FSIPs. */
  method AllocMany(part: Partition, n: nat) returns (results: seq<Option<nat>>, ghost frees: seq<set<nat>>)
    requires Chained(part.disk, part.sizeInPages)
    modifies part`disk
    ensures Chained(part.disk, part.sizeInPages) && |results| == n && AllocRun(frees, results)
    ensures frees[0] == old(part.Free()) && frees[n] == part.Free()
    ensures part.disk.Keys == old(part.disk).Keys && 0 in part.disk
    ensures forall i :: i in part.disk ==> part.disk[i].managedPages == old(part.disk)[i].managedPages
  {
    hide Chained, Linked, FreePages, Alloc, Allocates;
    results, frees := [], [part.Free()];
    ChainedReady(part.disk, part.sizeInPages);
    for i := 0 to n
      invariant Chained(part.disk, part.sizeInPages) && |results| == i && AllocRun(frees, results)
      invariant frees[0] == old(part.Free()) && frees[i] == part.Free()
      invariant part.disk.Keys == old(part.disk).Keys
      invariant forall i :: i in part.disk ==> part.disk[i].managedPages == old(part.disk)[i].managedPages
    {
      ghost var was := part.disk;
      ChainedReady(part.disk, part.sizeInPages);
      var r := part.AllocPage(part.sizeInPages);
      ChainedAlloc(was, part.disk, part.sizeInPages, PageOf(r));
      results, frees := results + [PageOf(r)], frees + [part.Free()];
    }
  }

  /**
   * Giving back a page of the first extent and allocating again yields a page that was not in use exactly if the
   * page is page 1 or another one of the extent was free; otherwise page 1 is handed out, which is in use.
   */
  method FreeThenAlloc(part: Partition, p: uint32) returns (r: Option<nat>)
    requires Chained(part.disk, part.sizeInPages) && 0 in part.disk
    requires 0 < p <= part.disk[0].managedPages && p !in part.Free()
    modifies part`disk
    ensures r.Some?
    ensures r.value == p || r.value in old(part.Free()) <==>
      p == 1 || exists q :: q in old(part.Free()) && q < EXTENT
    ensures r.value == p || r.value in old(part.Free()) || r.value == 1
  {
    hide Linked, FreePages, RestPages, Allocates, Chained, Image.Free;
    ghost var was := part.disk;
    ChainedReady(part.disk, part.sizeInPages);
    LinkedOk(part.disk, part.sizeInPages);
    ChainedBounds(part.disk, part.sizeInPages);
    InLedger(part.disk, part.sizeInPages);
    InFirst(part.disk, part.sizeInPages);
    ghost var l := LedgerOf(part.disk, part.sizeInPages);
    part.FreePage(p);
    ghost var m := LedgerOf(part.disk, part.sizeInPages);
    var a := part.AllocPage(part.sizeInPages);
    r := PageOf(a);
    AfterReturn(l, p, m, r, LedgerOf(part.disk, part.sizeInPages));
    if k :| k in was[0].Free() {
      assert k + 1 in FreePages(was, part.sizeInPages);
    }
  }

  lemma AfterReturn(l: Ledger, p: nat, m: Ledger, r: Option<nat>, l': Ledger)
    requires l.Ok() && l.first.Exact() && Step(l, Free(p), m) && Allocates(m, r, l')
    ensures r.Some?
    ensures r.value == p || l.Free(r.value) <==> p == 1 || l.first.free != {}
    ensures r.value == p || l.Free(r.value) || r.value == 1
  {
    l.first.ExactIsUsable();
    l.first.GivenUsable(p - 1);
    m.first.TakenUsable(Some(m.first.hint), l'.first);
  }

  /** Allocations on a fresh partition come in order. */
  lemma {:induction false} InOrder(frees: seq<set<nat>>, results: seq<Option<nat>>, n: nat, k: nat)
    requires AllocRun(frees, results) && frees[0] == Range(1, n + 1) && k <= |results| <= n
    ensures frees[k] == Range(k + 1, n + 1)
    ensures forall j :: 0 <= j < k ==> results[j] == Some(j + 1)
  {
    hide Range, Alloc;
    if k > 0 {
      InOrder(frees, results, n, k - 1);
      assert Alloc(frees[k - 1], results[k - 1], frees[k]);
      TakesNext(frees[k - 1], results[k - 1], frees[k], k, n + 1);
    }
  }

  lemma TakesNext(f: set<nat>, r: Option<nat>, f': set<nat>, k: nat, n: nat)
    requires Alloc(f, r, f') && k < n && f == Range(k, n)
    ensures r == Some(k) && f' == Range(k + 1, n)
  {
    assert k in f;
  }

  /** A partition of six pages hands out page 1 twice, although only page 5 was given back. */
  method DoubleAllocation() returns (results: seq<Option<nat>>, r: Option<nat>)
    ensures results == [Some(1), Some(2), Some(3), Some(4), Some(5)] && r == Some(1)
  {
    hide Chained, Linked, Formatted, FreePages, Fresh, Image.Free, Alloc, Placed, Hit, SamePlace, DataPages, Range;
    var part := new Partition(6, 8, map[]);
    part.Format();
    assert part.sizeInPages == 6;
    forall i: nat | Written(6, i) ensures Fresh(part.disk, 6, i) {
      assert Written(part.sizeInPages, i);
    }
    FreshIsFormatted(part.disk, 6);
    FormattedChained(part.disk, 6);
    ManagesFive(part.disk);
    ghost var frees;
    results, frees := AllocMany(part, 5);
    InOrder(frees, results, 5, 5);
    r := FreeThenAlloc(part, 5);
  }

  lemma ManagesFive(disk: map<nat, Image>)
    requires Formatted(disk, 6)
    ensures 0 in disk && disk[0].managedPages == 5 && DataPages(6) == Range(1, 6)
  {
    hide Image.Free, Image.Valid;
    assert IsFsip(0) && Manages(disk, 6, 0);
  }

  /**
   * A partition of 32 extents that grows by one: it is full after all its data pages are allocated, the growth fills
   * exactly one more extent, and yet the allocation fails, with 24353 of 1040416 pages left.
   */
  method ShrinkingGrowth() returns (p: Option<uint32>, part: Partition)
    ensures p == None && part.sizeInPages == 24353 && Fits(32 * EXTENT, part.growthIndicator)
  {
    hide Chained, FreePages, Fresh, Image.Free, Alloc, Formatted, Inside, Cut, DataPages, Placed, Hit, SamePlace;
    part := new Partition(32 * EXTENT, EXTENT, map[]);
    part.Format();
    FormattedAll(part.disk);
    ghost var was := part.disk;
    FormattedChained(part.disk, 32 * EXTENT);
    ghost var frees;
    var results;
    results, frees := AllocMany(part, 32 * PAGES_PER_FSIP);
    RunSize(frees, results, 32 * PAGES_PER_FSIP);
    StaysFormatted(was, part.disk, 32 * EXTENT);
    SameKeys(was, part.disk, 32 * EXTENT);
    p := part.AllocPageOrGrow();
  }

  lemma FormattedAll(disk: map<nat, Image>)
    requires forall i: nat :: if Written(32 * EXTENT, i) then Fresh(disk, 32 * EXTENT, i) else SamePlace(disk, map[], i)
    ensures Formatted(disk, 32 * EXTENT) && Inside(disk, 32 * EXTENT)
    ensures |FreePages(disk, 32 * EXTENT)| == 32 * PAGES_PER_FSIP
  {
    hide Chained, FreePages, FreshPage, Image.Free, DataPages;
    forall i: nat | Written(32 * EXTENT, i) ensures Fresh(disk, 32 * EXTENT, i) {
    }
    FreshIsFormatted(disk, 32 * EXTENT);
    DataPagesSize(32 * EXTENT);
    forall i | i in disk ensures i < 32 * EXTENT {
      assert !Written(32 * EXTENT, i) ==> SamePlace(disk, map[], i);
    }
  }

  // ----- growth of a file partition -----

  /** How many further pages the last extent of a partition can take. */
  function Room(size: nat): nat
    requires 0 < size
  {
    PAGES_PER_FSIP - (size - 1) % EXTENT
  }

  /** Pages that are free after a full partition of the given size grew by g, before one of them is handed out. */
  function Added(size: nat, g: nat): set<nat>
    requires 0 < size
  {
    if g <= Room(size) then Range(size, size + g)
    else Range(size, size + Room(size) + 1 + Min(g - Room(size), PAGES_PER_FSIP)) - {size + Room(size)}
  }

  /** Growth that the FSIPs keep up with: it stays inside the last extent, or fills that one and one more. */
  predicate Fits(size: nat, g: nat)
    requires 0 < size
  {
    g <= Room(size) || g == Room(size) + EXTENT
  }

  /** After growth, the pages up to here belong to the old extents or to the one that was added. */
  function Known(size: nat, g: nat): nat
    requires 0 < size
  {
    Min(size + g, size + Room(size) + EXTENT)
  }

  /** The file has no pages behind its end. */
  ghost predicate Inside(disk: map<nat, Image>, size: nat) {
    forall i :: i in disk ==> i < size
  }

  /** The file with its length set to n pages. */
  function UpTo(disk: map<nat, Image>, n: nat): map<nat, Image> {
    map i | i in disk && i < n :: disk[i]
  }

  lemma NewSize(pages: nat)
    ensures pages * PAGE_SIZE % MAX_32 / PAGE_SIZE == pages % FILE_PAGES
  {
    PlaceIs(pages);
  }

  /** The last FSIP of a partition. */
  function Last(size: nat): nat
    requires 0 < size
  {
    size - 1 - (size - 1) % EXTENT
  }

  /**
   * What is left of a full file whose growth was cut down: the pages below the new end, but for one place that the
   * new FSIP took; the old last FSIP, behind the end; and nothing else.
   */
  ghost predicate Cut(was: map<nat, Image>, disk: map<nat, Image>, size: nat, g: nat)
    requires 0 < size && size + g >= FILE_PAGES
  {
    && Last(size) in disk && disk[Last(size)].Free() ==
         Range(size - 1 - Last(size), if g <= Room(size) then size - 1 - Last(size) + g else PAGES_PER_FSIP)
    && (g > Room(size) ==>
         && Place(size + Room(size)) in disk
         && disk[Place(size + Room(size))].Free() == Range(0, Min(g - Room(size), PAGES_PER_FSIP)))
    && forall i: nat :: i != Last(size) && !(g > Room(size) && i == Place(size + Room(size))) ==>
         if i < size + g - FILE_PAGES then SamePlace(disk, was, i) else i !in disk
  }

  /** Both ways the recovery can end. */
  lemma Extended(was: map<nat, Image>, size: nat, last: nat, g: nat, grown: Image, page: Image, disk: map<nat, Image>)
    requires Formatted(was, size) && Inside(was, size) && FreePages(was, size) == {} && IsLast(last, size)
    requires 0 < g < 0x1_0000
    requires grown.Valid() && grown.pageIndex == last && grown.Capacity() == PAGES_PER_FSIP
    requires grown.managedPages == if g <= Room(size) then size - 1 - last + g else PAGES_PER_FSIP
    requires grown.Free() == Range(size - 1 - last, grown.managedPages)
    requires g > Room(size) ==>
      && page.Valid() && page.pageIndex == last + EXTENT && page.Capacity() == PAGES_PER_FSIP
      && page.managedPages == Min(g - Room(size), PAGES_PER_FSIP) && page.Free() == Range(0, page.managedPages)
    requires disk == if g <= Room(size) then UpTo(was, (size + g) % FILE_PAGES)[Place(last) := grown]
      else UpTo(was, (size + g) % FILE_PAGES)[Place(last) := grown][Place(last + EXTENT) := page]
    ensures size + g < FILE_PAGES ==>
      && Inside(disk, Known(size, g)) && FreePages(disk, size + g) == Added(size, g)
      && Chained(disk, Known(size, g))
      && (Chained(disk, size + g) <==> g <= Room(size) + EXTENT) && (Formatted(disk, size + g) <==> Fits(size, g))
    ensures size + g < FILE_PAGES ==> DataKept(was, disk)
    ensures size + g >= FILE_PAGES ==> Cut(was, disk, size, g)
  {
    hide Image.Valid, Image.Free, FreePages, Range, Chained, Added, Known, Fits, Cut, UpTo, Place, Room, Inside;
    LastExtent(was, size, last);
    if size + g < FILE_PAGES {
      InPlace(was, size, last, g);
      DataGrown(was, disk, last, g > Room(size));
      GrownFree(was, size, last, g, grown, disk);
      GrownChained(was, size, last, g, grown, disk);
    } else {
      FormattedChained(was, size);
      CutIs(was, size, last, g, grown, page, disk);
    }
  }

  lemma DataGrown(was: map<nat, Image>, disk: map<nat, Image>, last: nat, more: bool)
    requires IsFsip(last) && last in disk && (more ==> last + EXTENT in disk)
    requires disk ==
      if more then was[last := disk[last]][last + EXTENT := disk[last + EXTENT]] else was[last := disk[last]]
    ensures DataKept(was, disk)
  {
  }

  lemma InPlace(was: map<nat, Image>, size: nat, last: nat, g: nat)
    requires Inside(was, size) && IsLast(last, size) && size + g < FILE_PAGES && last + EXTENT == size + Room(size)
    ensures Place(last) == last && (g > Room(size) ==> Place(last + EXTENT) == last + EXTENT)
    ensures UpTo(was, (size + g) % FILE_PAGES) == was
  {
    hide Place, Room;
    PlaceIs(last);
    PlaceIs(last + EXTENT);
  }

  lemma CutIs(was: map<nat, Image>, size: nat, last: nat, g: nat, grown: Image, page: Image, disk: map<nat, Image>)
    requires Inside(was, size) && IsLast(last, size) && 1 < size <= FILE_PAGES <= size + g && g < 0x1_0000
    requires last + EXTENT == size + Room(size)
    requires grown.Free() == Range(size - 1 - last, if g <= Room(size) then size - 1 - last + g else PAGES_PER_FSIP)
    requires g > Room(size) ==> page.Free() == Range(0, Min(g - Room(size), PAGES_PER_FSIP))
    requires disk == if g <= Room(size) then UpTo(was, (size + g) % FILE_PAGES)[Place(last) := grown]
      else UpTo(was, (size + g) % FILE_PAGES)[Place(last) := grown][Place(last + EXTENT) := page]
    ensures Cut(was, disk, size, g)
  {
    hide Place, Room, Image.Free, Range;
    PlaceIs(last);
    PlaceIs(last + EXTENT);
    assert last == Last(size) by { hide *; LastIs(last, size); }
    if g > Room(size) {
      assert Place(last) != Place(last + EXTENT);
    }
  }

  lemma LastIs(last: nat, size: nat)
    requires IsLast(last, size)
    ensures last == Last(size)
  {
    Position(last, size - 1 + (if size - 1 == last then 1 else 0));
  }

  /** Every FSIP below the new end is as it was, and full; at most a data page was overwritten. */
  lemma CutFull(was: map<nat, Image>, disk: map<nat, Image>, size: nat, g: nat)
    requires Formatted(was, size) && FreePages(was, size) == {} && g < 0x1_0000 && size + g >= FILE_PAGES
    requires Cut(was, disk, size, g)
    ensures var n := size + g - FILE_PAGES;
      if n == 0 then Hollow(disk, n) else Linked(disk, n) && LedgerOf(disk, n).Full()
  {
    hide Cut, FreePages, Image.Valid, Image.Free, RestPages, LedgerOf, Account.Exact;
    FormattedChained(was, size);
    var n := size + g - FILE_PAGES;
    if n == 0 {
      Spared(was, disk, size, g, 0);
    } else {
      forall i: nat | i < n && IsFsip(i) ensures Extent(disk, i) && disk[i].Free() == {} {
        Spared(was, disk, size, g, i);
        AllFull(was, size, i);
      }
      AllTaken(disk, n);
    }
  }

  /** Where no FSIP has a free position, allocation finds the partition full. */
  lemma AllTaken(disk: map<nat, Image>, n: nat)
    requires 0 < n <= FILE_PAGES && forall i: nat :: i < n && IsFsip(i) ==> Extent(disk, i) && disk[i].Free() == {}
    ensures Linked(disk, n) && LedgerOf(disk, n).Full()
  {
    hide Image.Free;
    assert IsFsip(0) && Extent(disk, 0);
    disk[0].Books().ExactIsUsable();
    forall p: nat ensures p !in FreePages(disk, n) {
      Membership(disk, n, p);
    }
  }

  /** An FSIP position below the new end is neither that of the old last FSIP nor the place of the new one. */
  lemma Spared(was: map<nat, Image>, disk: map<nat, Image>, size: nat, g: nat, i: nat)
    requires 1 < size <= FILE_PAGES <= size + g && g < 0x1_0000 && Cut(was, disk, size, g)
    requires IsFsip(i) && i <= size + g - FILE_PAGES
    ensures i < size
    ensures if i < size + g - FILE_PAGES then SamePlace(disk, was, i) else i !in disk
  {
    hide Place, Room, Image.Free, Range;
    RoomEnds(size);
    PlaceIs(i);
    RoomIs(size);
    if Place(size + Room(size)) == i {
      FsipPlaces(i, size + Room(size));
    }
  }

  lemma RoomIs(size: nat)
    requires 0 < size
    ensures Last(size) + EXTENT == size + Room(size) && Room(size) < EXTENT
  {
  }

  lemma LastExtent(disk: map<nat, Image>, size: nat, last: nat)
    requires Formatted(disk, size) && IsLast(last, size)
    ensures Extent(disk, last) && disk[last].managedPages == size - 1 - last
    ensures last + EXTENT == size + Room(size)
  {
    hide Image.Valid, Image.Free;
    assert Manages(disk, size, last);
  }

  /** No FSIP of a full partition has a free position. */
  lemma AllFull(disk: map<nat, Image>, size: nat, i: nat)
    requires Chained(disk, size) && FreePages(disk, size) == {} && i < size && IsFsip(i)
    ensures Extent(disk, i) && disk[i].Free() == {}
  {
    hide Image.Free;
    if k :| k in disk[i].Free() {
      FreeIsIn(disk, size, i, k);
    }
  }

  lemma FreeIsIn(disk: map<nat, Image>, size: nat, i: nat, k: nat)
    requires Chained(disk, size) && i < size && IsFsip(i) && i in disk && k in disk[i].Free()
    ensures i + 1 + k in FreePages(disk, size)
  {
    hide Image.Free;
    assert Extent(disk, i);
    Position(i, i + 1 + k);
  }

  /** The free pages after the last FSIP was grown and, if something was left over, one more was written. */
  lemma GrownFree(disk: map<nat, Image>, size: nat, last: nat, g: nat, grown: Image, disk': map<nat, Image>)
    requires Formatted(disk, size) && Inside(disk, size) && FreePages(disk, size) == {} && IsLast(last, size) && 0 < g
    requires grown.Free() == Range(size - 1 - last, if g <= Room(size) then size - 1 - last + g else PAGES_PER_FSIP)
    requires g <= Room(size) ==> disk' == disk[last := grown]
    requires g > Room(size) ==>
      last + EXTENT in disk' && disk' == disk[last := grown][last + EXTENT := disk'[last + EXTENT]]
    requires g > Room(size) ==> disk'[last + EXTENT].Free() == Range(0, Min(g - Room(size), PAGES_PER_FSIP))
    ensures FreePages(disk', size + g) == Added(size, g)
  {
    hide Image.Valid, Image.Free, FreePages, Added, Chained, Formatted, Range, Inside;
    forall p: nat ensures p in FreePages(disk', size + g) <==> p in Added(size, g) {
      GrownPage(disk, size, last, g, grown, disk', p);
    }
  }

  lemma GrownPage(
    disk: map<nat, Image>, size: nat, last: nat, g: nat, grown: Image, disk': map<nat, Image>, p: nat)
    requires Formatted(disk, size) && Inside(disk, size) && FreePages(disk, size) == {} && IsLast(last, size) && 0 < g
    requires grown.Free() == Range(size - 1 - last, if g <= Room(size) then size - 1 - last + g else PAGES_PER_FSIP)
    requires g <= Room(size) ==> disk' == disk[last := grown]
    requires g > Room(size) ==>
      last + EXTENT in disk' && disk' == disk[last := grown][last + EXTENT := disk'[last + EXTENT]]
    requires g > Room(size) ==> disk'[last + EXTENT].Free() == Range(0, Min(g - Room(size), PAGES_PER_FSIP))
    ensures p in FreePages(disk', size + g) <==> p in Added(size, g)
  {
    hide Image.Valid, Image.Free, IsFsip, FreePages, Added, Range, Chained, Room, Manages;
    LastExtent(disk, size, last);
    Membership(disk', size + g, p);
    var i := FsipOf(p);
    if i < last {
      AllFull(disk, size, i);
      NotAdded(size, last, g, p);
      assert disk'[i] == disk[i];
    } else if i == last {
      GrownLast(size, last, g, p);
    } else {
      GrownNext(size, last, g, p);
    }
  }

  lemma Membership(disk: map<nat, Image>, size: nat, p: nat)
    ensures FsipOf(p) <= p < FsipOf(p) + EXTENT && IsFsip(FsipOf(p))
    ensures p in FreePages(disk, size) <==> FsipOf(p) < size && IsFree(disk, p)
  {
    hide Image.Free;
  }

  lemma NotAdded(size: nat, last: nat, g: nat, p: nat)
    requires IsLast(last, size) && FsipOf(p) < last
    ensures p !in Added(size, g)
  {
    hide Range;
    Membership(map[], size, p);
  }

  lemma GrownLast(size: nat, last: nat, g: nat, p: nat)
    requires IsLast(last, size) && FsipOf(p) == last && last + EXTENT == size + Room(size) && 0 < g
    ensures p in Added(size, g) <==>
      !IsFsip(p) && size - 1 - last <= p - last - 1 < if g <= Room(size) then size - 1 - last + g else PAGES_PER_FSIP
    ensures p < last + EXTENT
  {
    hide Range;
  }

  lemma GrownNext(size: nat, last: nat, g: nat, p: nat)
    requires IsLast(last, size) && FsipOf(p) > last && last + EXTENT == size + Room(size) && 0 < g
    ensures p >= last + EXTENT && FsipOf(p) >= size
    ensures p in Added(size, g) <==>
      !IsFsip(p) && g > Room(size) && FsipOf(p) == last + EXTENT
      && p - FsipOf(p) - 1 < Min(g - Room(size), PAGES_PER_FSIP)
    ensures FsipOf(p) < size + g ==> g > Room(size)
  {
    hide Range;
  }

  lemma GrownChained(disk: map<nat, Image>, size: nat, last: nat, g: nat, grown: Image, disk': map<nat, Image>)
    requires Formatted(disk, size) && Inside(disk, size) && IsLast(last, size) && 0 < g
    requires size + g < FILE_PAGES
    requires grown.Valid() && grown.pageIndex == last && grown.Capacity() == PAGES_PER_FSIP
    requires grown.managedPages == if g <= Room(size) then size - 1 - last + g else PAGES_PER_FSIP
    requires g <= Room(size) ==> disk' == disk[last := grown]
    requires g > Room(size) ==>
      last + EXTENT in disk' && disk' == disk[last := grown][last + EXTENT := disk'[last + EXTENT]]
    requires g > Room(size) ==>
      Extent(disk', last + EXTENT) && disk'[last + EXTENT].managedPages == Min(g - Room(size), PAGES_PER_FSIP)
    ensures Inside(disk', Known(size, g)) && Chained(disk', Known(size, g))
    ensures Chained(disk', size + g) <==> g <= Room(size) + EXTENT
    ensures Formatted(disk', size + g) <==> Fits(size, g)
  {
    hide Image.Valid, Image.Free, Formatted, Chained;
    GrownExtents(disk, size, last, g, grown, disk');
    ChainedTo(disk', Known(size, g));
    if g <= Room(size) + EXTENT {
      if Fits(size, g) {
        FormattedTo(disk', size + g);
      } else {
        NotFormatted(disk', size + g, last + EXTENT);
      }
    } else {
      NotChained(disk', size + g, last + EXTENT + EXTENT);
    }
  }

  /** Each FSIP as far as they are known, and whether it manages its extent. */
  lemma GrownExtents(disk: map<nat, Image>, size: nat, last: nat, g: nat, grown: Image, disk': map<nat, Image>)
    requires Formatted(disk, size) && Inside(disk, size) && IsLast(last, size) && 0 < g
    requires grown.Valid() && grown.pageIndex == last && grown.Capacity() == PAGES_PER_FSIP
    requires grown.managedPages == if g <= Room(size) then size - 1 - last + g else PAGES_PER_FSIP
    requires g <= Room(size) ==> disk' == disk[last := grown]
    requires g > Room(size) ==>
      last + EXTENT in disk' && disk' == disk[last := grown][last + EXTENT := disk'[last + EXTENT]]
    requires g > Room(size) ==>
      Extent(disk', last + EXTENT) && disk'[last + EXTENT].managedPages == Min(g - Room(size), PAGES_PER_FSIP)
    ensures last + EXTENT == size + Room(size) && 1 < size && Inside(disk', Known(size, g))
    ensures forall i: nat :: i < Known(size, g) && IsFsip(i) ==> Extent(disk', i)
    ensures Fits(size, g) ==> forall i: nat :: i < size + g && IsFsip(i) ==>
      i + 1 < size + g && Manages(disk', size + g, i)
    ensures Room(size) < g < Room(size) + EXTENT ==> !Manages(disk', size + g, last + EXTENT)
    ensures last + EXTENT + EXTENT !in disk'
  {
    hide Image.Valid, Image.Free;
    LastExtent(disk, size, last);
    forall i: nat | i < Known(size, g) && IsFsip(i)
      ensures Extent(disk', i)
      ensures Fits(size, g) ==> i + 1 < size + g && Manages(disk', size + g, i)
    {
      if i < last {
        assert Extent(disk, i) && Manages(disk, size, i);
      }
    }
  }

  lemma ChainedTo(disk: map<nat, Image>, n: nat)
    requires 1 < n <= FILE_PAGES
    requires forall i: nat :: i < n && IsFsip(i) ==> Extent(disk, i)
    ensures Chained(disk, n)
  {
    hide Image.Valid;
  }

  lemma FormattedTo(disk: map<nat, Image>, n: nat)
    requires Chained(disk, n) && forall i: nat :: i < n && IsFsip(i) ==> i + 1 < n && Manages(disk, n, i)
    ensures Formatted(disk, n)
  {
    hide Image.Valid;
  }

  lemma NotFormatted(disk: map<nat, Image>, n: nat, i: nat)
    requires i < n && IsFsip(i) && !Manages(disk, n, i)
    ensures !Formatted(disk, n)
  {
    hide Image.Valid;
  }

  lemma NotChained(disk: map<nat, Image>, n: nat, i: nat)
    requires i < n && IsFsip(i) && i !in disk
    ensures !Chained(disk, n) && !Formatted(disk, n)
  {
    hide Image.Valid;
    assert !Extent(disk, i);
  }

  /** Allocation adds and removes no FSIP, so a chain with a gap keeps it. */
  lemma StaysUnchained(disk: map<nat, Image>, disk': map<nat, Image>, size: nat, g: nat)
    requires 0 < size && disk'.Keys == disk.Keys && Chained(disk, Known(size, g)) && Chained(disk', Known(size, g))
    requires Inside(disk, Known(size, g))
    ensures Chained(disk', size + g) <==> Chained(disk, size + g)
  {
    hide Image.Valid, Chained;
    if g > Room(size) + EXTENT {
      var i := Known(size, g);
      RoomEnds(size);
      assert i !in disk' && i !in disk by { assert i !in disk.Keys; }
      NotChained(disk, size + g, i);
      NotChained(disk', size + g, i);
    }
  }

  lemma RoomEnds(size: nat)
    requires 0 < size
    ensures IsFsip(size + Room(size)) && IsFsip(size + Room(size) + EXTENT)
  {
    var q := (size - 1) / EXTENT;
    assert size + Room(size) == (q + 1) * EXTENT;
  }

  /** The FSIPs beyond the known ones are missing, so they have no free pages. */
  lemma KnownFree(disk: map<nat, Image>, size: nat, g: nat)
    requires 0 < size && Inside(disk, Known(size, g))
    ensures FreePages(disk, size + g) == FreePages(disk, Known(size, g))
  {
    hide Image.Free;
    forall p: nat ensures p in FreePages(disk, size + g) <==> p in FreePages(disk, Known(size, g)) {
      Membership(disk, size + g, p);
      Membership(disk, Known(size, g), p);
    }
  }

  lemma ChainedReady(disk: map<nat, Image>, n: nat)
    requires Chained(disk, n)
    ensures Linked(disk, n) && 0 in disk
    ensures FreePages(disk, n) == {} <==> LedgerOf(disk, n).Full()
  {
    hide Chained, Linked, FreePages, RestPages, Image.Free;
    ChainedBounds(disk, n);
    ChainedIs(disk, n);
    InLedger(disk, n);
    var l := LedgerOf(disk, n);
    if k :| k in l.first.free {
      assert k + 1 in FreePages(disk, n);
    }
    if p :| p in l.rest {
      assert p in FreePages(disk, n);
    }
  }

  lemma FormattedChained(disk: map<nat, Image>, n: nat)
    requires Formatted(disk, n)
    ensures Chained(disk, n) && 1 < n <= FILE_PAGES
  {
    hide Extent;
  }

  lemma KnownUpTo(size: nat, g: nat)
    requires 0 < size
    ensures Known(size, g) <= size + g
  {
  }

  lemma KnownInside(disk: map<nat, Image>, size: nat, g: nat)
    requires 0 < size && Inside(disk, Known(size, g))
    ensures Inside(disk, size + g)
  {
  }

  lemma SameKeys(disk: map<nat, Image>, disk': map<nat, Image>, size: nat)
    requires disk'.Keys == disk.Keys
    ensures Inside(disk', size) <==> Inside(disk, size)
  {
    assert forall i :: i in disk <==> i in disk';
  }

  /** After growth the second allocation finds a page. */
  lemma CanRetry(disk: map<nat, Image>, size: nat, g: nat)
    requires 0 < size && 8 <= g && FreePages(disk, size + g) == Added(size, g)
    requires Chained(disk, Known(size, g)) && Inside(disk, Known(size, g))
    ensures Known(size, g) <= size + g && Linked(disk, Known(size, g)) && 0 in disk
    ensures !LedgerOf(disk, Known(size, g)).Full()
  {
    hide Chained, FreePages, Added, Linked, LedgerOf, Inside, Known;
    AddedSome(size, g);
    KnownFree(disk, size, g);
    ChainedReady(disk, Known(size, g));
    KnownUpTo(size, g);
  }

  lemma Retried(ready: map<nat, Image>, disk: map<nat, Image>, size: nat, g: nat, p: Option<nat>)
    requires 0 < size && 8 <= g && FreePages(ready, size + g) == Added(size, g)
    requires Chained(ready, Known(size, g)) && Inside(ready, Known(size, g)) && Chained(disk, Known(size, g))
    requires disk.Keys == ready.Keys && forall i :: i in disk ==> disk[i].managedPages == ready[i].managedPages
    requires 0 in ready && 0 in disk
    requires Allocates(LedgerOf(ready, Known(size, g)), p, LedgerOf(disk, Known(size, g)))
    ensures p.Some? && Lowest(p.value, Added(size, g)) && FreePages(disk, size + g) == Added(size, g) - {p.value}
    ensures Inside(disk, size + g)
    ensures Chained(disk, size + g) <==> Chained(ready, size + g)
    ensures Formatted(disk, size + g) <==> Formatted(ready, size + g)
  {
    hide Image.Valid, Image.Free, FreePages, Chained, Added, Linked, LedgerOf, Inside, Known, Allocates, Formatted;
    AddedSome(size, g);
    KnownFree(ready, size, g);
    ChainedAlloc(ready, disk, Known(size, g), p);
    SameKeys(ready, disk, Known(size, g));
    KnownFree(disk, size, g);
    StaysUnchained(ready, disk, size, g);
    StaysFormatted(ready, disk, size + g);
    KnownInside(disk, size, g);
  }

  lemma NothingLeft(ready: map<nat, Image>, disk: map<nat, Image>, n: nat, p: Option<nat>)
    requires Linked(ready, n) ==>
      Linked(disk, n) && LedgerOf(ready, n).Full() && Allocates(LedgerOf(ready, n), p, LedgerOf(disk, n))
    requires !Linked(ready, n) ==> p == None
    ensures p == None
  {
  }

  lemma AddedSome(size: nat, g: nat)
    requires 0 < size && 8 <= g
    ensures Added(size, g) != {}
  {
    hide Range;
    if g <= Room(size) || Room(size) > 0 {
      assert size in Added(size, g);
    } else {
      assert size + 1 in Added(size, g);
    }
  }

  lemma StaysFormatted(disk: map<nat, Image>, disk': map<nat, Image>, size: nat)
    requires Chained(disk, size) <==> Chained(disk', size)
    requires disk'.Keys == disk.Keys && forall i :: i in disk ==> disk'[i].managedPages == disk[i].managedPages
    ensures Formatted(disk', size) <==> Formatted(disk, size)
  {
    hide Image.Valid, Image.Free, Extent;
    forall i: nat | i < size ensures Manages(disk', size, i) <==> Manages(disk, size, i) {
      assert i in disk <==> i in disk';
    }
  }

  /** The page freePage takes for the FSIP of p: the stride lacks the FSIP page itself. */
  function FsipReadByFree(p: nat): nat {
    p / (PAGES_PER_FSIP + 1) * PAGES_PER_FSIP
  }

  /**
   * It is the FSIP of p exactly in the first extent, and some FSIP exactly in every extent whose number is a
   * multiple of EXTENT.
   */
  lemma StrideFault(p: nat)
    ensures FsipReadByFree(p) == FsipOf(p) <==> p < EXTENT
    ensures IsFsip(FsipReadByFree(p)) <==> p / EXTENT % EXTENT == 0
  {
    var k := p / EXTENT;
    assert FsipOf(p) == k * EXTENT;
    assert k * PAGES_PER_FSIP == k * EXTENT - k;
    Multiple(k);
  }

  lemma Multiple(k: nat)
    ensures (k * EXTENT - k) % EXTENT == 0 <==> k % EXTENT == 0
  {
    var m, r := k / EXTENT, k % EXTENT;
    assert k * EXTENT - k == (k - m) * EXTENT - r;
    LessThan(k - m, r);
  }

  lemma LessThan(a: int, r: nat)
    requires r < EXTENT
    ensures (a * EXTENT - r) % EXTENT == if r == 0 then 0 else EXTENT - r
  {
    if r > 0 {
      assert a * EXTENT - r == (a - 1) * EXTENT + (EXTENT - r);
    }
  }

  lemma FirstExtent(disk: map<nat, Image>, n: nat)
    requires Linked(disk, n)
    ensures 0 in disk && disk[0].managedPages <= PAGES_PER_FSIP == disk[0].Capacity() && disk[0].pageIndex == 0
  {
    hide Image.Free;
  }

  lemma FreedHere(disk: map<nat, Image>, n: nat, p: nat, page: Image)
    requires Linked(disk, n) && 0 < p <= disk[0].managedPages && disk[0].managedPages <= PAGES_PER_FSIP
    requires page.Books() == disk[0].Books().Given(p - 1) && page.pageIndex == 0 && page.Capacity() == PAGES_PER_FSIP
    requires p - 1 !in disk[0].Free() ==> page.Usable()
    ensures LedgerOf(disk[0 := page], n) == Ledger(LedgerOf(disk, n).first.Given(p - 1), LedgerOf(disk, n).rest)
    ensures !LedgerOf(disk, n).Free(p) ==> Linked(disk[0 := page], n)
  {
    hide Image.Free, Image.Usable, Image.Valid, RestPages;
    RestSame(disk, n, page);
    if p - 1 !in disk[0].Free() {
      StaysLinked(disk, n, 0, page);
    }
  }

  lemma FreedChained(disk: map<nat, Image>, n: nat, p: nat, page: Image)
    requires Linked(disk, n) && 0 < p <= disk[0].managedPages
    requires page.Books() == disk[0].Books().Given(p - 1) && page.pageIndex == 0 && page.Capacity() == PAGES_PER_FSIP
    requires p - 1 !in disk[0].Free() ==> page.Usable()
    requires disk[0].Valid() ==>
      (page.Valid() <==> p - 1 !in disk[0].Free() && (disk[0].Free() != {} || p - 1 == 0))
    ensures Chained(disk, n) ==> (Chained(disk[0 := page], n) <==>
      p !in FreePages(disk, n) && (p == 1 || exists q :: q in FreePages(disk, n) && q < EXTENT))
  {
    hide Image.Free, Image.Usable, Image.Valid, Linked, Chained, FreePages;
    if Chained(disk, n) {
      ChainedBounds(disk, n);
      ChainedIs(disk, n);
      ChainedIs(disk[0 := page], n);
      InFirst(disk, n);
      FreedHere(disk, n, p, page);
      if k :| k in disk[0].Free() {
        assert k + 1 in FreePages(disk, n);
      }
    }
  }

  lemma ChainedBounds(disk: map<nat, Image>, n: nat)
    requires Chained(disk, n)
    ensures 1 < n <= FILE_PAGES && Extent(disk, 0)
    ensures disk[0].managedPages <= PAGES_PER_FSIP == disk[0].Capacity()
  {
    hide Image.Free;
    assert IsFsip(0);
  }

  lemma InFirst(disk: map<nat, Image>, size: nat)
    requires Chained(disk, size) && Extent(disk, 0)
    ensures forall q: nat :: q in FreePages(disk, size) && q < EXTENT <==> 0 < q && q - 1 in disk[0].Free()
  {
    hide Image.Free;
    forall q: nat ensures q in FreePages(disk, size) && q < EXTENT <==> 0 < q && q - 1 in disk[0].Free() {
      if 0 < q < EXTENT {
        Position(0, q);
      }
    }
  }

  /** On a chain of proper FSIPs an allocation takes the lowest free page, and fails exactly if there is none. */
  lemma ChainedAlloc(disk: map<nat, Image>, disk': map<nat, Image>, n: nat, r: Option<nat>)
    requires Chained(disk, n) && Chained(disk', n)
    requires 0 in disk && 0 in disk' && Allocates(LedgerOf(disk, n), r, LedgerOf(disk', n))
    ensures Alloc(FreePages(disk, n), r, FreePages(disk', n))
  {
    hide Image.Free, FreePages, Chained, RestPages, LedgerOf, Account.Exact, Ledger.Free, Allocates, Alloc;
    InLedger(disk, n);
    InLedger(disk', n);
    LedgerAlloc(LedgerOf(disk, n), r, LedgerOf(disk', n), FreePages(disk, n), FreePages(disk', n));
  }

  lemma LedgerAlloc(l: Ledger, r: Option<nat>, l': Ledger, f: set<nat>, f': set<nat>)
    requires l.Ok() && l.first.Exact() && Allocates(l, r, l')
    requires (forall p: nat :: p in f <==> l.Free(p)) && (forall p: nat :: p in f' <==> l'.Free(p))
    ensures Alloc(f, r, f')
  {
    hide Account.Usable;
    if l.first.count > 0 {
      assert l.Free(l.first.hint + 1);
      forall p | p in f ensures l.first.hint + 1 <= p {
        assert l.Free(p);
      }
      assert f' == f - {r.value};
    } else {
      assert l.first.free == {};
      assert f == l.rest && f' == l'.rest;
    }
  }

  /** The ledger of a chain of proper FSIPs has its free pages. */
  lemma InLedger(disk: map<nat, Image>, n: nat)
    requires Chained(disk, n) && 0 in disk
    ensures forall p: nat :: p in FreePages(disk, n) <==> LedgerOf(disk, n).Free(p)
    ensures forall p :: p in RestPages(disk, n) ==> EXTENT < p
    ensures LedgerOf(disk, n).first.Exact() && LedgerOf(disk, n).Ok()
  {
    hide Image.Free;
    ChainedBounds(disk, n);
    InFirst(disk, n);
    AfterFirst(disk, n);
    LedgerOf(disk, n).first.ExactIsUsable();
  }
}
