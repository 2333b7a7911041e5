/** A bitmap kept as bytes and also read and written as little-endian 32-bit words. */
module BitMaps {

  const ALL8: bv8 := 0xff
  const ALL32: bv32 := 0xffff_ffff

  predicate Bit8(b: bv8, k: nat)
    requires k < 8
  {
    b & ((1 as bv8) << k) != 0
  }

  /** Bit 0 is the least significant one. */
  lemma BitOrder()
    ensures Bit8(0x01, 0) && !Bit8(0x01, 7) && Bit8(0x80, 7) && !Bit8(0x80, 0)
  {
  }

  /** b | (1 << k) on a byte. */
  function Marked8(b: bv8, k: nat): bv8
    requires k < 8
  {
    b | ((1 as bv8) << k)
  }

  /** The bits from k on, and the bits below k. */
  function High8(k: nat): bv8
    requires k < 8
  {
    ALL8 << k
  }

  function Low8(k: nat): bv8
    requires k < 8
  {
    !(ALL8 << k)
  }

  function Both8(a: bv8, b: bv8): bv8 {
    a & b
  }

  /** ~0 << k as a word. */
  function High32(k: nat): bv32
    requires k < 32
  {
    ALL32 << k
  }

  /** The word with only bit k set. */
  function Mask32(k: nat): bv32
    requires k < 32
  {
    (1 as bv32) << k
  }

  function Or(w: bv32, m: bv32): bv32 { w | m }

  function AndNot(w: bv32, m: bv32): bv32 { w & !m }

  predicate Hits(w: bv32, m: bv32) { w & m != 0 }

  function Marked(w: bv32, k: nat): bv32
    requires k < 32
  {
    Or(w, Mask32(k))
  }

  function Cleared(w: bv32, k: nat): bv32
    requires k < 32
  {
    AndNot(w, Mask32(k))
  }

  predicate Bit32(w: bv32, k: nat)
    requires k < 32
  {
    Hits(w, Mask32(k))
  }

  /** Bit i of the map, counted from the low bit of the first byte. */
  predicate Bit(s: seq<bv8>, i: nat)
    requires i < 8 * |s|
  {
    Bit8(s[i / 8], i % 8)
  }

  /** The j-th 32-bit word. */
  function Word(s: seq<bv8>, j: nat): bv32
    requires 4 * j + 4 <= |s|
  {
    Join(s[4 * j], s[4 * j + 1], s[4 * j + 2], s[4 * j + 3])
  }

  function Join(a: bv8, b: bv8, c: bv8, d: bv8): bv32 {
    (a as bv32) | ((b as bv32) << 8) | ((c as bv32) << 16) | ((d as bv32) << 24)
  }

  /** The i-th byte of a word. */
  function ByteOf(w: bv32, i: nat): bv8
    requires i < 4
  {
    if i == 0 then (w & 0xff) as bv8
    else if i == 1 then ((w >> 8) & 0xff) as bv8
    else if i == 2 then ((w >> 16) & 0xff) as bv8
    else ((w >> 24) & 0xff) as bv8
  }

  /** The map after the j-th word was overwritten. */
  function WithWord(s: seq<bv8>, j: nat, w: bv32): (r: seq<bv8>)
    requires 4 * j + 4 <= |s|
    ensures |r| == |s|
  {
    s[4 * j := ByteOf(w, 0)][4 * j + 1 := ByteOf(w, 1)][4 * j + 2 := ByteOf(w, 2)][4 * j + 3 := ByteOf(w, 3)]
  }

  // ----- the masks, bit by bit -----

  lemma Power8(k: nat)
    requires k < 8
    ensures (1 as bv8) << k == if k == 0 then 1 else if k == 1 then 2 else if k == 2 then 4 else if k == 3 then 8
      else if k == 4 then 16 else if k == 5 then 32 else if k == 6 then 64 else 128
  {
    if k == 0 {} else if k == 1 {} else if k == 2 {} else if k == 3 {}
    else if k == 4 {} else if k == 5 {} else if k == 6 {} else { assert k == 7; }
  }

  lemma Set8(b: bv8, k: nat, i: nat)
    requires k < 8 && i < 8
    ensures Bit8(Marked8(b, k), i) == (i == k || Bit8(b, i))
  {
    Power8(k);
    Power8(i);
  }

  lemma From8(k: nat, i: nat)
    requires k < 8 && i < 8
    ensures Bit8(High8(k), i) == (i >= k)
    ensures Bit8(Low8(k), i) == (i < k)
  {
    Power8(i);
    if k == 0 {} else if k == 1 {} else if k == 2 {} else if k == 3 {}
    else if k == 4 {} else if k == 5 {} else if k == 6 {} else { assert k == 7; }
  }

  lemma And8(a: bv8, b: bv8, i: nat)
    requires i < 8
    ensures Bit8(Both8(a, b), i) == (Bit8(a, i) && Bit8(b, i))
  {
    Power8(i);
  }

  /** A word's bit k is bit k % 8 of its byte k / 8. */
  lemma JoinBit(a: bv8, b: bv8, c: bv8, d: bv8, k: nat)
    requires k < 32
    ensures Bit32(Join(a, b, c, d), k) ==
      Bit8(if k < 8 then a else if k < 16 then b else if k < 24 then c else d, k % 8)
  {
    Power32(k);
    Power8(k % 8);
  }

  /** 1 << k, byte by byte. */
  lemma Power32(k: nat)
    requires k < 32
    ensures k < 8 ==> Mask32(k) == ((1 as bv8) << k) as bv32
    ensures 8 <= k < 16 ==> Mask32(k) == (((1 as bv8) << (k - 8)) as bv32) << 8
    ensures 16 <= k < 24 ==> Mask32(k) == (((1 as bv8) << (k - 16)) as bv32) << 16
    ensures 24 <= k ==> Mask32(k) == (((1 as bv8) << (k - 24)) as bv32) << 24
  {
    if k == 0 {} else if k == 1 {} else if k == 2 {} else if k == 3 {}
    else if k == 4 {} else if k == 5 {} else if k == 6 {} else if k == 7 {}
    else if k == 8 {} else if k == 9 {} else if k == 10 {} else if k == 11 {}
    else if k == 12 {} else if k == 13 {} else if k == 14 {} else if k == 15 {}
    else if k == 16 {} else if k == 17 {} else if k == 18 {} else if k == 19 {}
    else if k == 20 {} else if k == 21 {} else if k == 22 {} else if k == 23 {}
    else if k == 24 {} else if k == 25 {} else if k == 26 {} else if k == 27 {}
    else if k == 28 {} else if k == 29 {} else if k == 30 {} else { assert k == 31; }
  }

  lemma Split(w: bv32)
    ensures Join(ByteOf(w, 0), ByteOf(w, 1), ByteOf(w, 2), ByteOf(w, 3)) == w
  {
  }

  lemma Apart(k: nat, i: nat)
    requires k < i < 32
    ensures Mask32(k) & Mask32(i) == 0
  {
    Power32(k);
    Power32(i);
    Power8(k % 8);
    Power8(i % 8);
  }

  lemma ApartBoth(k: nat, i: nat)
    requires k < 32 && i < 32 && k != i
    ensures !Hits(Mask32(k), Mask32(i))
  {
    if k < i {
      Apart(k, i);
    } else {
      Apart(i, k);
    }
    hide Mask32;
  }

  lemma NonZero(k: nat)
    requires k < 32
    ensures Hits(Mask32(k), Mask32(k))
  {
    Power32(k);
    Power8(k % 8);
  }

  lemma OrSelf(w: bv32, m: bv32)
    ensures Or(w, m) & m == m
  {
  }

  lemma OrOther(w: bv32, m: bv32, n: bv32)
    requires m & n == 0
    ensures Or(w, m) & n == w & n
  {
  }

  lemma AndNotSelf(w: bv32, m: bv32)
    ensures AndNot(w, m) & m == 0
  {
  }

  lemma AndNotOther(w: bv32, m: bv32, n: bv32)
    requires m & n == 0
    ensures AndNot(w, m) & n == w & n
  {
  }

  lemma OrMisses(w: bv32, m: bv32, n: bv32)
    requires !Hits(m, n)
    ensures Hits(Or(w, m), n) == Hits(w, n)
  {
    OrOther(w, m, n);
    hide Or;
  }

  lemma AndNotMisses(w: bv32, m: bv32, n: bv32)
    requires !Hits(m, n)
    ensures Hits(AndNot(w, m), n) == Hits(w, n)
  {
    AndNotOther(w, m, n);
    hide AndNot;
  }

  lemma OrHits(w: bv32, m: bv32)
    requires Hits(m, m)
    ensures Hits(Or(w, m), m)
  {
    OrSelf(w, m);
    hide Or;
  }

  lemma AndNotHits(w: bv32, m: bv32)
    ensures !Hits(AndNot(w, m), m)
  {
    AndNotSelf(w, m);
    hide AndNot;
  }

  /** Setting one bit. */
  lemma SetOne(w: bv32, k: nat, i: nat)
    requires k < 32 && i < 32
    ensures Bit32(Marked(w, k), i) == (i == k || Bit32(w, i))
  {
    hide Mask32, Hits, Or;
    if k == i {
      NonZero(k);
      OrHits(w, Mask32(k));
    } else {
      ApartBoth(k, i);
      OrMisses(w, Mask32(k), Mask32(i));
    }
  }

  /** Clearing one bit. */
  lemma ClearOne(w: bv32, k: nat, i: nat)
    requires k < 32 && i < 32
    ensures Bit32(Cleared(w, k), i) == (i != k && Bit32(w, i))
  {
    hide Mask32, Hits, AndNot;
    if k == i {
      AndNotHits(w, Mask32(k));
    } else {
      ApartBoth(k, i);
      AndNotMisses(w, Mask32(k), Mask32(i));
    }
  }

  lemma NotJoin(a: bv8, b: bv8, c: bv8, d: bv8)
    ensures Join(!a, !b, !c, !d) == !Join(a, b, c, d)
  {
  }

  lemma NotBit8(b: bv8, k: nat)
    requires k < 8
    ensures Bit8(!b, k) == !Bit8(b, k)
  {
    Power8(k);
  }

  lemma NotBit(w: bv32, k: nat)
    requires k < 32
    ensures Bit32(!w, k) == !Bit32(w, k)
  {
    Split(w);
    var a, b, c, d := ByteOf(w, 0), ByteOf(w, 1), ByteOf(w, 2), ByteOf(w, 3);
    NotJoin(a, b, c, d);
    hide Bit8, Bit32, Join, ByteOf;
    JoinBit(a, b, c, d, k);
    JoinBit(!a, !b, !c, !d, k);
    if k < 8 {
      NotBit8(a, k % 8);
    } else if k < 16 {
      NotBit8(b, k % 8);
    } else if k < 24 {
      NotBit8(c, k % 8);
    } else {
      NotBit8(d, k % 8);
    }
  }

  lemma NoBits8(b: bv8)
    requires forall k :: 0 <= k < 8 ==> !Bit8(b, k)
    ensures b == 0
  {
    assert !Bit8(b, 0) && !Bit8(b, 1) && !Bit8(b, 2) && !Bit8(b, 3);
    assert !Bit8(b, 4) && !Bit8(b, 5) && !Bit8(b, 6) && !Bit8(b, 7);
  }

  lemma NoBits(w: bv32)
    requires forall k :: 0 <= k < 32 ==> !Bit32(w, k)
    ensures w == 0
  {
    Split(w);
    var a, b, c, d := ByteOf(w, 0), ByteOf(w, 1), ByteOf(w, 2), ByteOf(w, 3);
    hide Bit8, Bit32, ByteOf;
    forall k | 0 <= k < 8 ensures !Bit8(a, k) && !Bit8(b, k) && !Bit8(c, k) && !Bit8(d, k) {
      JoinBit(a, b, c, d, k);
      JoinBit(a, b, c, d, k + 8);
      JoinBit(a, b, c, d, k + 16);
      JoinBit(a, b, c, d, k + 24);
    }
    NoBits8(a);
    NoBits8(b);
    NoBits8(c);
    NoBits8(d);
  }

  /** All ones shifted left by k. */
  lemma Ones32(k: nat, i: nat)
    requires k < 32 && i < 32
    ensures Bit32(High32(k), i) == (i >= k)
  {
    OnesBytes(k, i / 8);
    From8(k % 8, i % 8);
    var w := High32(k);
    Split(w);
    hide ByteOf, Join;
    JoinBit(ByteOf(w, 0), ByteOf(w, 1), ByteOf(w, 2), ByteOf(w, 3), i);
  }

  lemma OnesBytes(k: nat, q: nat)
    requires k < 32 && q < 4
    ensures ByteOf(High32(k), q) == if q < k / 8 then 0 else if q == k / 8 then High8(k % 8) else ALL8
  {
    if q == 0 {
      OnesByte0(k);
    } else if q == 1 {
      OnesByte1(k);
    } else if q == 2 {
      OnesByte2(k);
    } else {
      OnesByte3(k);
    }
  }

  lemma OnesByte0(k: nat)
    requires k < 32
    ensures ByteOf(High32(k), 0) == if k < 8 then High8(k) else 0
  {
  }

  lemma OnesByte1(k: nat)
    requires k < 32
    ensures ByteOf(High32(k), 1) == if k < 8 then ALL8 else if k < 16 then High8(k - 8) else 0
  {
  }

  lemma OnesByte2(k: nat)
    requires k < 32
    ensures ByteOf(High32(k), 2) == if k < 16 then ALL8 else if k < 24 then High8(k - 16) else 0
  {
  }

  lemma OnesByte3(k: nat)
    requires k < 32
    ensures ByteOf(High32(k), 3) == if k < 24 then ALL8 else High8(k - 24)
  {
  }

  // ----- the whole map -----

  lemma WordBit(s: seq<bv8>, j: nat, k: nat)
    requires 4 * j + 4 <= |s| && k < 32
    ensures Bit32(Word(s, j), k) == Bit(s, 32 * j + k)
  {
    hide Join, Bit8, Bit32;
    JoinBit(s[4 * j], s[4 * j + 1], s[4 * j + 2], s[4 * j + 3], k);
    assert (32 * j + k) % 8 == k % 8 && (32 * j + k) / 8 == 4 * j + k / 8;
  }

  /** Bits after a word was overwritten. */
  lemma WithWordBit(s: seq<bv8>, j: nat, w: bv32, i: nat)
    requires 4 * j + 4 <= |s| && i < 8 * |s|
    ensures Bit(WithWord(s, j, w), i) == if i / 32 == j then Bit32(w, i % 32) else Bit(s, i)
  {
    hide Join, Bit8, Bit32, ByteOf;
    if i / 32 == j {
      Split(w);
      WordBit(WithWord(s, j, w), j, i % 32);
      assert i == 32 * j + i % 32;
    } else {
      assert i / 8 < 4 * j || i / 8 >= 4 * j + 4;
    }
  }

  /** Setting one bit through its byte, and through its word, give the same map. */
  lemma MarkByte(s: seq<bv8>, k: nat, i: nat)
    requires k < 8 * |s| && i < 8 * |s|
    ensures Bit(s[k / 8 := Marked8(s[k / 8], k % 8)], i) == (i == k || Bit(s, i))
  {
    Set8(s[k / 8], k % 8, i % 8);
    hide Bit8;
  }

  lemma MarkWord(s: seq<bv8>, k: nat, i: nat)
    requires |s| % 4 == 0 && k < 8 * |s| && i < 8 * |s|
    ensures Bit(WithWord(s, k / 32, Marked(Word(s, k / 32), k % 32)), i) == (i == k || Bit(s, i))
  {
    hide Bit, Bit32, Word, WithWord, Marked, Cleared;
    var w := Word(s, k / 32);
    WithWordBit(s, k / 32, Marked(w, k % 32), i);
    if i / 32 == k / 32 {
      WordBit(s, i / 32, i % 32);
      SetOne(w, k % 32, i % 32);
    }
  }

  lemma UnmarkWord(s: seq<bv8>, k: nat, i: nat)
    requires |s| % 4 == 0 && k < 8 * |s| && i < 8 * |s|
    ensures Bit(WithWord(s, k / 32, Cleared(Word(s, k / 32), k % 32)), i) == (i != k && Bit(s, i))
  {
    hide Bit, Bit32, Word, WithWord, Marked, Cleared;
    var w := Word(s, k / 32);
    WithWordBit(s, k / 32, Cleared(w, k % 32), i);
    if i / 32 == k / 32 {
      WordBit(s, i / 32, i % 32);
      ClearOne(w, k % 32, i % 32);
    }
  }

  /** The position of the lowest set bit (count trailing zeros). */
  method IdxLowestBitSet(x: bv32) returns (k: nat)
    requires x != 0
    ensures k < 32 && Bit32(x, k)
    ensures forall i :: 0 <= i < k ==> !Bit32(x, i)
  {
    hide Bit32;
    k := 0;
    while k < 32 && !Bit32(x, k)
      invariant k <= 32
      invariant forall i :: 0 <= i < k ==> !Bit32(x, i)
    {
      k := k + 1;
    }
    if k == 32 {
      NoBits(x);
    }
  }
}
