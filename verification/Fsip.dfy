/** The free space indicator page: one bit per page of an extent, counters and a cached first free position. */
module Fsips {
  import opened BitMaps
  import opened PageTypes

  const MAX_32: nat := 0x1_0000_0000

  /** Positions whose bit is 0, that is, the free pages of the extent. */
  ghost function FreeBits(s: seq<bv8>): set<nat> {
    set i: nat | i < 8 * |s| && !Bit(s, i)
  }

  ghost predicate Lowest(k: nat, s: set<nat>) {
    k in s && forall i :: i in s ==> k <= i
  }

  /** The numbers lo, .., hi - 1. */
  function Range(lo: nat, hi: nat): (r: set<nat>)
    requires lo <= hi
    ensures forall i :: i in r <==> lo <= i < hi
    ensures |r| == hi - lo
  {
    if lo == hi then {} else Range(lo, hi - 1) + {hi - 1}
  }

  /** What decides which pages are handed out: the free positions, the counter and the hint. */
  datatype Account = Account(free: set<nat>, count: nat, hint: nat) {
    /** The hint is off: it names a position in use although others are free. */
    ghost predicate Pending() {
      free != {} && hint !in free
    }

    /** No position before the hint is free, the hint is free or 0, and the counter does not count too many. */
    ghost predicate Usable() {
      && (forall i :: i in free ==> hint <= i)
      && (hint in free || hint == 0) && count <= |free| && (Pending() ==> count > 0)
    }

    /** The counter counts, and the hint is the first free position. */
    ghost predicate Exact() {
      count == |free| && if free == {} then hint == 0 else Lowest(hint, free)
    }

    ghost predicate Takes(r: Option<nat>, a': Account) {
      if count == 0 then r == None && a' == this
      else
        && r == Some(hint) && a'.free == free - {hint} && a'.count == count - 1
        && if a'.free == {} then a'.hint == 0 else Lowest(a'.hint, a'.free)
    }

    function Given(k: nat): Account {
      Account(free + {k}, count + 1, if hint > k then k else hint)
    }

    lemma ExactIsUsable()
      ensures Exact() ==> Usable() && !Pending()
    {
    }

    /** A position is taken that was in use exactly if the hint was off, and the hint is right afterwards. */
    lemma TakenUsable(r: Option<nat>, a': Account)
      requires Usable() && Takes(r, a')
      ensures a'.Usable() && !a'.Pending()
      ensures r.Some? ==> (r.value !in free <==> Pending()) && (Pending() ==> r.value == 0)
      ensures r.None? ==> !Pending()
      ensures Exact() ==> a'.Exact()
    {
      if hint in free {
        assert |free - {hint}| == |free| - 1;
      } else {
        assert free - {hint} == free;
      }
    }

    /** Giving back another position than the first on a full page leaves the hint off, until the first comes back. */
    lemma GivenUsable(k: nat)
      requires Usable()
      ensures k !in free ==> Given(k).Usable() && (Given(k).Pending() <==> k != 0 && (free == {} || Pending()))
      ensures Exact() ==> (Given(k).Exact() <==> k !in free && (free != {} || k == 0))
    {
      if k !in free {
        assert |free + {k}| == |free| + 1;
        assert k in Given(k).free;
      } else {
        assert free + {k} == free;
      }
    }
  }

  /** The content of such a page: the bitmap and the header that follows it. */
  datatype Image = Image(
    bits: seq<bv8>,
    freeBlocksCount: uint32,
    nextFreePage: uint32,
    managedPages: uint32,
    pageIndex: uint32)
  {
    function Capacity(): nat {
      8 * |bits|
    }

    ghost predicate Sized() {
      |bits| % 4 == 0 && 0 < |bits| && pageIndex + Capacity() < INVALID_32
    }

    ghost function Free(): set<nat> {
      FreeBits(bits)
    }

    ghost function Books(): Account {
      Account(Free(), freeBlocksCount, nextFreePage)
    }

    /** Nothing beyond the managed part is free. */
    ghost predicate Managed() {
      Sized() && managedPages <= Capacity() && forall i :: i in Free() ==> i < managedPages
    }

    /** The header describes the bitmap: the counter counts and the hint is the first free position. */
    ghost predicate Valid() {
      Managed() && Books().Exact()
    }

    /** What pages in use can rely on: see Account.Usable for what may be wrong with the header. */
    ghost predicate Usable() {
      Managed() && Books().Usable()
    }
  }

  lemma FreeIs(s: seq<bv8>, f: set<nat>)
    requires forall i: nat :: i < 8 * |s| ==> (Bit(s, i) <==> i !in f)
    requires forall i :: i in f ==> i < 8 * |s|
    ensures FreeBits(s) == f
  {
    hide Bit;
  }

  lemma FreeMarked(s: seq<bv8>, k: nat)
    requires k < 8 * |s|
    ensures FreeBits(s[k / 8 := Marked8(s[k / 8], k % 8)]) == FreeBits(s) - {k}
    ensures |s| % 4 == 0 ==> FreeBits(WithWord(s, k / 32, Marked(Word(s, k / 32), k % 32))) == FreeBits(s) - {k}
  {
    hide Bit, WithWord, Word, Marked, Marked8;
    forall i: nat | i < 8 * |s| ensures Bit(s[k / 8 := Marked8(s[k / 8], k % 8)], i) == (i == k || Bit(s, i)) {
      MarkByte(s, k, i);
    }
    if |s| % 4 == 0 {
      forall i: nat | i < 8 * |s|
        ensures Bit(WithWord(s, k / 32, Marked(Word(s, k / 32), k % 32)), i) == (i == k || Bit(s, i))
      {
        MarkWord(s, k, i);
      }
    }
  }

  /** A page handed out byte by byte or word by word: the two ways of addressing give the same bitmap set. */
  lemma ByteAndWordAgree(s: seq<bv8>, k: nat)
    requires |s| % 4 == 0 && k < 8 * |s|
    ensures FreeBits(s[k / 8 := Marked8(s[k / 8], k % 8)])
         == FreeBits(WithWord(s, k / 32, Marked(Word(s, k / 32), k % 32)))
  {
    FreeMarked(s, k);
  }

  lemma FreeCleared(s: seq<bv8>, k: nat)
    requires |s| % 4 == 0 && k < 8 * |s|
    ensures FreeBits(WithWord(s, k / 32, Cleared(Word(s, k / 32), k % 32))) == FreeBits(s) + {k}
  {
    hide Bit, WithWord, Word, Cleared;
    forall i: nat | i < 8 * |s|
      ensures Bit(WithWord(s, k / 32, Cleared(Word(s, k / 32), k % 32)), i) == (i != k && Bit(s, i))
    {
      UnmarkWord(s, k, i);
    }
  }

  class Fsip {
    const bitmap: array<bv8>
    var freeBlocksCount: uint32
    var nextFreePage: uint32
    var managedPages: uint32
    var pageIndex: uint32

    ghost function View(): Image
      reads this, bitmap
    {
      Image(bitmap[..], freeBlocksCount, nextFreePage, managedPages, pageIndex)
    }

    /** Interprets the bytes of a page buffer. */
    constructor Attach(page: Image)
      ensures View() == page && fresh(bitmap) && bitmap.Length == |page.bits|
    {
      bitmap := new bv8[|page.bits|](i requires 0 <= i < |page.bits| => page.bits[i]);
      freeBlocksCount := page.freeBlocksCount;
      nextFreePage := page.nextFreePage;
      managedPages := page.managedPages;
      pageIndex := page.pageIndex;
      new;
      assert bitmap[..] == page.bits;
    }

    /** What a write of the buffer puts on disk. */
    method Content() returns (page: Image)
      ensures page == View()
    {
      page := Image(bitmap[..], freeBlocksCount, nextFreePage, managedPages, pageIndex);
    }

    method SetWord(j: nat, w: bv32)
      requires 4 * j + 4 <= bitmap.Length
      modifies bitmap
      ensures bitmap[..] == WithWord(old(bitmap[..]), j, w)
    {
      hide ByteOf;
      bitmap[4 * j] := ByteOf(w, 0);
      bitmap[4 * j + 1] := ByteOf(w, 1);
      bitmap[4 * j + 2] := ByteOf(w, 2);
      bitmap[4 * j + 3] := ByteOf(w, 3);
    }

    method GetWord(j: nat) returns (w: bv32)
      requires 4 * j + 4 <= bitmap.Length
      ensures w == Word(bitmap[..], j)
    {
      hide Join;
      w := Join(bitmap[4 * j], bitmap[4 * j + 1], bitmap[4 * j + 2], bitmap[4 * j + 3]);
    }

    /** The lowest free position from the word of the hint on, 0 if there is none. */
    method GetNextFreePage() returns (k: uint32)
      requires View().Sized()
      requires forall i :: i in View().Free() ==> nextFreePage / 32 <= i / 32
      ensures if View().Free() == {} then k == 0 else Lowest(k, View().Free())
    {
      hide Bit, Word, Bit32;
      ghost var s := bitmap[..];
      assert View().Free() == FreeBits(s);
      var j := nextFreePage / 32;
      while j <= bitmap.Length / 4 - 1
        invariant forall i :: i in FreeBits(s) ==> j <= i / 32
      {
        var w := GetWord(j);
        if !w != 0 {
          var p := FirstZero(w);
          FirstZeroIsLowest(s, j, p);
          return j * 32 + p;
        }
        FullWord(s, j);
        j := j + 1;
      }
      return 0;
    }

    /** A fresh page: the first aNoBlocks positions are free. */
    method InitNewFSIP(aPageIndex: uint32, aNoBlocks: uint32)
      requires bitmap.Length % 4 == 0 && 0 < bitmap.Length && aNoBlocks <= 8 * bitmap.Length
      requires aPageIndex + 8 * bitmap.Length < INVALID_32
      modifies this, bitmap
      ensures View().Valid() && View().Free() == Range(0, aNoBlocks)
      ensures managedPages == aNoBlocks && pageIndex == aPageIndex
    {
      hide Bit, WithWord, High32, Settled, Image.Valid, FreeBits;
      var max := aNoBlocks / 32;
      var i := 0;
      SettledNone(bitmap[..], aNoBlocks);
      while i < max
        invariant i <= max && Settled(bitmap[..], 32 * i, aNoBlocks)
      {
        SettleZero(bitmap[..], i, aNoBlocks);
        SetWord(i, 0);
        i := i + 1;
      }
      max := bitmap.Length / 4;
      if i < max {
        SettleHigh(bitmap[..], i, aNoBlocks);
        SetWord(i, High32(aNoBlocks % 32));
        i := i + 1;
      }
      while i < max
        invariant i <= max && aNoBlocks <= 32 * i && Settled(bitmap[..], 32 * i, aNoBlocks)
      {
        SettleOnes(bitmap[..], i, aNoBlocks);
        SetWord(i, ALL32);
        i := i + 1;
      }
      SettledAll(bitmap[..], aNoBlocks);
      freeBlocksCount, nextFreePage, managedPages := aNoBlocks, 0, aNoBlocks;
      pageIndex := aPageIndex;
      FreshValid(View());
    }

    /** Allocates the first free page of the extent. */
    method GetNewPage() returns (p: uint32)
      requires freeBlocksCount > 0 ==> View().Usable()
      modifies this, bitmap
      ensures (old(View()).Usable() ==> View().Usable())
      ensures managedPages == old(managedPages) && pageIndex == old(pageIndex)
      ensures p == INVALID_32 <==> old(freeBlocksCount) == 0
      ensures p == INVALID_32 ==> View() == old(View())
      ensures p != INVALID_32 ==> p > pageIndex
      ensures old(View()).Books().Takes(if p == INVALID_32 then None else Some(p - 1 - pageIndex), View().Books())
      ensures old(View()).Valid() ==> View().Valid()
    {
      hide Bit, Marked8, FreeBits;
      ghost var a := View().Books();
      if freeBlocksCount == 0 {
        return INVALID_32;
      }
      var k := nextFreePage;
      FreeMarked(bitmap[..], k);
      ghost var f := FreeBits(bitmap[..]);
      bitmap[k / 8] := Marked8(bitmap[k / 8], k % 8);
      assert bitmap[..] == old(bitmap[..])[k / 8 := Marked8(old(bitmap[..])[k / 8], k % 8)];
      assert View().Free() == f - {k};
      nextFreePage := GetNextFreePage();
      freeBlocksCount := freeBlocksCount - 1;
      a.TakenUsable(Some(k), View().Books());
      p := k + 1 + pageIndex;
    }

    /** Allocates a given page; the counter stays right exactly if the page was free. */
    method ReservePage(aPageIndex: uint32)
      requires View().Valid() && pageIndex < aPageIndex <= pageIndex + managedPages
      modifies this, bitmap
      ensures managedPages == old(managedPages) && pageIndex == old(pageIndex)
      ensures View().Free() == old(View().Free()) - {aPageIndex - pageIndex - 1}
      ensures freeBlocksCount == if old(freeBlocksCount) == 0 then 0xFFFF_FFFF else old(freeBlocksCount) - 1
      ensures if View().Free() == {} then nextFreePage == 0 else Lowest(nextFreePage, View().Free())
      ensures View().Valid() <==> aPageIndex - pageIndex - 1 in old(View().Free())
    {
      hide Bit, Word, WithWord, Marked, FreeBits;
      var k := aPageIndex - (pageIndex + 1);
      FreeMarked(bitmap[..], k);
      ghost var f := FreeBits(bitmap[..]);
      var w := GetWord(k / 32);
      SetWord(k / 32, Marked(w, k % 32));
      assert View().Free() == f - {k};
      freeBlocksCount := if freeBlocksCount == 0 then MAX_32 - 1 else freeBlocksCount - 1;
      nextFreePage := GetNextFreePage();
      hide Image.Valid;
      TakenValid(old(View()), k, View());
    }

    /**
     * Gives a page back. The hint is only ever lowered, and 0 on a full page, so it stays right exactly if some
     * other page is free or the page is the first of the extent.
     */
    method FreePage(aPageIndex: uint32)
      requires View().Usable() && pageIndex < aPageIndex <= pageIndex + managedPages
      modifies this, bitmap
      ensures managedPages == old(managedPages) && pageIndex == old(pageIndex)
      ensures View().Books() == old(View()).Books().Given(aPageIndex - pageIndex - 1) && View().Managed()
      ensures aPageIndex - pageIndex - 1 !in old(View().Free()) ==> View().Usable()
      ensures old(View()).Valid() ==> (View().Valid() <==>
        && aPageIndex - pageIndex - 1 !in old(View().Free())
        && (old(View().Free()) != {} || aPageIndex - pageIndex - 1 == 0))
    {
      hide Bit, Word, WithWord, Cleared, FreeBits, Account.Exact, Account.Usable;
      ghost var a := View().Books();
      HintFacts(View());
      var k := aPageIndex - (pageIndex + 1);
      if nextFreePage > k {
        nextFreePage := k;
      }
      FreeCleared(bitmap[..], k);
      ghost var f := FreeBits(bitmap[..]);
      var w := GetWord(k / 32);
      SetWord(k / 32, Cleared(w, k % 32));
      assert View().Free() == f + {k};
      freeBlocksCount := (freeBlocksCount + 1) % MAX_32;
      hide Image.Managed;
      FreedBooks(old(View()), k, View());
      a.GivenUsable(k);
    }

    /**
     * Manages up to aNumberOfPages more pages on a full page; returns how many did not fit. No subtraction from
     * an unsigned value wraps.
     */
    method Grow(aNumberOfPages: uint32, aMaxPagesPerFSIP: uint32) returns (rest: uint32)
      requires View().Valid() && View().Free() == {} && aMaxPagesPerFSIP == View().Capacity()
      requires 8 <= aNumberOfPages
      modifies this, bitmap
      ensures View().Valid() && pageIndex == old(pageIndex)
      ensures managedPages == if old(managedPages) + aNumberOfPages <= aMaxPagesPerFSIP
                              then old(managedPages) + aNumberOfPages else aMaxPagesPerFSIP
      ensures View().Free() == Range(old(managedPages), managedPages)
      ensures managedPages - old(managedPages) + rest == aNumberOfPages
    {
      hide Image.Valid, FreeBits, Opened, Range;
      FullFacts(View());
      var freeOnThisPage := aMaxPagesPerFSIP - managedPages;
      if freeOnThisPage == 0 {
        return aNumberOfPages;
      }
      var dist: int := freeOnThisPage - aNumberOfPages;
      var remainingPages: uint32 := if dist >= 0 then aNumberOfPages else aMaxPagesPerFSIP - managedPages;
      freeBlocksCount := freeBlocksCount + remainingPages;
      FreeFrom(managedPages, remainingPages);
      nextFreePage := managedPages;
      if dist >= 0 {
        managedPages := managedPages + aNumberOfPages;
        rest := 0;
      } else {
        managedPages := aMaxPagesPerFSIP;
        rest := -dist;
      }
      GrownValid(old(View()), View());
    }

    /** Clears the bits m, .., m + count - 1 of a full bitmap: a partial byte, whole bytes, a partial byte. */
    method FreeFrom(m: uint32, count: uint32)
      requires Opened(bitmap[..], m, m) && m + count <= 8 * bitmap.Length
      requires m % 8 == 0 || 8 - m % 8 <= count
      modifies bitmap
      ensures FreeBits(bitmap[..]) == Range(m, m + count)
    {
      hide FreeBits, Bit, Opened, Low8, High8, Both8;
      var remainingPages, start, i := count, m / 8, 0;
      if m % 8 != 0 {
        OpenTail(bitmap[..], m);
        Store(m / 8, Low8(m % 8));
        remainingPages := remainingPages - (8 - m % 8);
        start := m / 8 + 1;
      }
      var max := remainingPages / 8;
      while i < max
        invariant i <= max && 8 * (start + i) + remainingPages == m + count && max - i == remainingPages / 8
        invariant m <= 8 * (start + i) && Opened(bitmap[..], m, 8 * (start + i))
      {
        OpenByte(bitmap[..], m, start + i);
        Store(i + start, 0);
        remainingPages := remainingPages - 8;
        i := i + 1;
      }
      if remainingPages != 0 {
        OpenPart(bitmap[..], m, start + i, remainingPages);
        Store(i + start, Both8(bitmap[i + start], High8(remainingPages)));
      }
      OpenedFree(bitmap[..], m, m + count);
    }

    method Store(q: nat, b: bv8)
      requires q < bitmap.Length
      modifies bitmap
      ensures bitmap[..] == old(bitmap[..])[q := b]
    {
      bitmap[q] := b;
    }
  }

  /** Exactly the bits a, .., b - 1 are 0. */
  ghost predicate Opened(s: seq<bv8>, a: nat, b: nat) {
    a <= b && forall i: nat :: i < 8 * |s| ==> (Bit(s, i) <==> !(a <= i < b))
  }

  lemma OpenTail(s: seq<bv8>, m: nat)
    requires m < 8 * |s| && m % 8 != 0 && Opened(s, m, m)
    ensures Opened(s[m / 8 := Low8(m % 8)], m, 8 * (m / 8) + 8)
  {
    hide Bit8;
    var s' := s[m / 8 := Low8(m % 8)];
    forall i: nat | i < 8 * |s| ensures Bit(s', i) <==> !(m <= i < 8 * (m / 8) + 8) {
      From8(m % 8, i % 8);
      assert i / 8 != m / 8 ==> Bit(s', i) == Bit(s, i);
    }
  }

  lemma OpenByte(s: seq<bv8>, a: nat, q: nat)
    requires q < |s| && a <= 8 * q && Opened(s, a, 8 * q)
    ensures Opened(s[q := 0], a, 8 * (q + 1))
  {
    var s' := s[q := 0];
    forall i: nat | i < 8 * |s| ensures Bit(s', i) <==> !(a <= i < 8 * (q + 1)) {
      if i / 8 != q {
        assert Bit(s', i) == Bit(s, i);
      } else {
        NoneInZero8(0, i % 8);
      }
    }
  }

  lemma OpenPart(s: seq<bv8>, a: nat, q: nat, r: nat)
    requires q < |s| && a <= 8 * q && Opened(s, a, 8 * q) && 0 < r < 8
    ensures Opened(s[q := Both8(s[q], High8(r))], a, 8 * q + r)
  {
    hide Bit8;
    var s' := s[q := Both8(s[q], High8(r))];
    forall i: nat | i < 8 * |s| ensures Bit(s', i) <==> !(a <= i < 8 * q + r) {
      assert i / 8 != q ==> Bit(s', i) == Bit(s, i);
      From8(r, i % 8);
      And8(s[q], High8(r), i % 8);
      assert i / 8 == q ==> Bit(s, i) && Bit(s', i) == Bit8(s'[q], i % 8);
    }
  }

  lemma NoneInZero8(b: bv8, k: nat)
    requires b == 0 && k < 8
    ensures !Bit8(b, k)
  {
  }

  lemma OpenedFree(s: seq<bv8>, a: nat, b: nat)
    requires Opened(s, a, b) && b <= 8 * |s|
    ensures FreeBits(s) == Range(a, b)
  {
    hide Bit;
    FreeIs(s, Range(a, b));
  }

  lemma FullFacts(v: Image)
    requires v.Valid() && v.Free() == {}
    ensures v.Sized() && v.managedPages <= v.Capacity() && v.freeBlocksCount == 0
    ensures Opened(v.bits, v.managedPages, v.managedPages)
    ensures Range(v.managedPages, v.managedPages) == {}
  {
    hide Bit;
    forall i: nat | i < 8 * |v.bits| ensures Bit(v.bits, i) {
      assert i !in v.Free();
    }
  }

  lemma GrownValid(v: Image, v': Image)
    requires v.Valid() && v.Free() == {} && |v'.bits| == |v.bits| && v'.pageIndex == v.pageIndex
    requires v.managedPages < v'.managedPages <= v'.Capacity() && v'.nextFreePage == v.managedPages
    requires v'.freeBlocksCount == v'.managedPages - v.managedPages
    requires v'.Free() == Range(v.managedPages, v'.managedPages)
    ensures v'.Valid()
  {
    hide FreeBits;
    assert v.managedPages in v'.Free();
  }

  /** Among the first n bits, exactly those below a are 0. */
  ghost predicate Settled(s: seq<bv8>, n: nat, a: nat) {
    n <= 8 * |s| && forall i: nat :: i < n ==> (Bit(s, i) <==> a <= i)
  }

  lemma SettledNone(s: seq<bv8>, a: nat)
    ensures Settled(s, 0, a)
  {
  }

  lemma Settle(s: seq<bv8>, j: nat, w: bv32, a: nat)
    requires 4 * j + 4 <= |s| && Settled(s, 32 * j, a)
    requires forall k :: 0 <= k < 32 ==> (Bit32(w, k) <==> a <= 32 * j + k)
    ensures Settled(WithWord(s, j, w), 32 * j + 32, a)
  {
    hide Bit, Bit32, WithWord;
    forall i: nat | i < 32 * j + 32 ensures Bit(WithWord(s, j, w), i) <==> a <= i {
      WithWordBit(s, j, w, i);
      if i / 32 == j {
        assert i == 32 * j + i % 32;
      }
    }
  }

  lemma SettleZero(s: seq<bv8>, j: nat, a: nat)
    requires 4 * j + 4 <= |s| && Settled(s, 32 * j, a) && 32 * j + 32 <= a
    ensures Settled(WithWord(s, j, 0), 32 * j + 32, a)
  {
    forall k | 0 <= k < 32 ensures !Bit32(0, k) { NoneInZero(0, k); }
    hide Bit32, Settled;
    Settle(s, j, 0, a);
  }

  lemma SettleOnes(s: seq<bv8>, j: nat, a: nat)
    requires 4 * j + 4 <= |s| && Settled(s, 32 * j, a) && a <= 32 * j
    ensures Settled(WithWord(s, j, ALL32), 32 * j + 32, a)
  {
    forall k | 0 <= k < 32 ensures Bit32(ALL32, k) { AllInOnes(ALL32, k); }
    hide Bit32, Settled;
    Settle(s, j, ALL32, a);
  }

  lemma SettleHigh(s: seq<bv8>, j: nat, a: nat)
    requires 4 * j + 4 <= |s| && Settled(s, 32 * j, a) && j == a / 32
    ensures Settled(WithWord(s, j, High32(a % 32)), 32 * j + 32, a)
  {
    HighBits(a % 32);
    hide Bit32, Settled, High32;
    Settle(s, j, High32(a % 32), a);
  }

  lemma SettledAll(s: seq<bv8>, a: nat)
    requires Settled(s, 8 * |s|, a) && a <= 8 * |s|
    ensures FreeBits(s) == Range(0, a)
  {
    hide Bit;
    FreeIs(s, Range(0, a));
  }

  // ----- the counter and the hint -----

  lemma FreshValid(v: Image)
    requires v.Sized() && v.managedPages == v.freeBlocksCount <= v.Capacity() && v.nextFreePage == 0
    requires v.Free() == Range(0, v.freeBlocksCount)
    ensures v.Valid()
  {
    hide FreeBits, Range;
    if v.freeBlocksCount > 0 {
      assert 0 in Range(0, v.freeBlocksCount);
    }
  }

  /** Page v with position k taken, the counter lowered and the hint searched anew. */
  lemma TakenValid(v: Image, k: nat, v': Image)
    requires v.Valid() && v'.Free() == v.Free() - {k} && |v'.bits| == |v.bits|
    requires v'.managedPages == v.managedPages && v'.pageIndex == v.pageIndex
    requires v'.freeBlocksCount == if v.freeBlocksCount == 0 then MAX_32 - 1 else v.freeBlocksCount - 1
    requires if v'.Free() == {} then v'.nextFreePage == 0 else Lowest(v'.nextFreePage, v'.Free())
    ensures v'.Valid() <==> k in v.Free()
  {
    hide FreeBits;
    FewFree(v);
    if k in v.Free() {
      assert |v.Free() - {k}| == |v.Free()| - 1;
    } else {
      assert v.Free() - {k} == v.Free();
    }
  }

  lemma HintFacts(v: Image)
    requires v.Usable()
    ensures v.Sized() && v.managedPages <= v.Capacity() && v.nextFreePage < v.Capacity()
  {
    hide FreeBits;
  }

  /** Page v with position k given back, the counter raised and the hint lowered. */
  lemma FreedBooks(v: Image, k: nat, v': Image)
    requires v.Usable() && k < v.managedPages && v'.Free() == v.Free() + {k} && |v'.bits| == |v.bits|
    requires v'.managedPages == v.managedPages && v'.pageIndex == v.pageIndex
    requires v'.freeBlocksCount == (v.freeBlocksCount + 1) % MAX_32
    requires v'.nextFreePage == if v.nextFreePage > k then k else v.nextFreePage
    ensures v'.Managed() && v'.Books() == v.Books().Given(k)
  {
    hide FreeBits;
    FewFree(v);
  }

  lemma FewFree(v: Image)
    requires v.Managed()
    ensures |v.Free()| <= v.managedPages
  {
    hide FreeBits, Range;
    assert v.Free() <= Range(0, v.managedPages);
    SubsetSize(v.Free(), Range(0, v.managedPages));
  }

  lemma {:induction false} SubsetSize(a: set<nat>, b: set<nat>)
    requires a <= b
    ensures |a| <= |b|
    decreases a
  {
    if x :| x in a {
      SubsetSize(a - {x}, b - {x});
    }
  }

  lemma HighBits(k: nat)
    requires k < 32
    ensures forall i :: 0 <= i < 32 ==> Bit32(High32(k), i) == (i >= k)
  {
    forall i | 0 <= i < 32 ensures Bit32(High32(k), i) == (i >= k) { Ones32(k, i); }
  }

  lemma AllInOnes(w: bv32, k: nat)
    requires w == ALL32 && k < 32
    ensures Bit32(w, k)
  {
    Ones32(0, k);
  }

  /** The lowest bit set in the complement of w. */
  method FirstZero(w: bv32) returns (p: nat)
    requires !w != 0
    ensures p < 32 && !Bit32(w, p)
    ensures forall i :: 0 <= i < p ==> Bit32(w, i)
  {
    p := IdxLowestBitSet(!w);
    hide Bit32;
    NotBit(w, p);
    forall i | 0 <= i < p ensures Bit32(w, i) {
      NotBit(w, i);
    }
  }

  lemma FirstZeroIsLowest(s: seq<bv8>, j: nat, p: nat)
    requires |s| % 4 == 0 && 4 * j + 4 <= |s| && p < 32 && !Bit32(Word(s, j), p)
    requires forall i :: 0 <= i < p ==> Bit32(Word(s, j), i)
    requires forall i :: i in FreeBits(s) ==> j <= i / 32
    ensures Lowest(32 * j + p, FreeBits(s))
  {
    hide Bit, Word, Bit32;
    WordBit(s, j, p);
    forall i | i in FreeBits(s) ensures 32 * j + p <= i {
      if i < 32 * j + p {
        WordBit(s, j, i - 32 * j);
      }
    }
  }

  lemma FullWord(s: seq<bv8>, j: nat)
    requires |s| % 4 == 0 && 4 * j + 4 <= |s| && !Word(s, j) == 0
    requires forall i :: i in FreeBits(s) ==> j <= i / 32
    ensures forall i :: i in FreeBits(s) ==> j + 1 <= i / 32
  {
    forall i | i in FreeBits(s) ensures j + 1 <= i / 32 {
      if i / 32 == j {
        WordBit(s, j, i % 32);
        NotBit(Word(s, j), i % 32);
        NoneInZero(!Word(s, j), i % 32);
      }
    }
  }

  lemma NoneInZero(w: bv32, k: nat)
    requires w == 0 && k < 32
    ensures !Bit32(w, k)
  {
  }
}
