/** Why four bits of occupancy are enough: the arithmetic of buckets, record alignment and slots. */
module Occupancies {
  import opened FsmPages
  import opened PageTypes
  import S = SlottedPages

  /** Space of a slotted page without its header and one slot. */
  const SINGLE_SPACE: nat := S.SPACE - S.SLOT
  const BUCKET: nat := 271

  /** Record sizes are rounded up to multiples of eight. */
  function Align(n: nat): (a: nat)
    ensures n <= a < n + 8 && a % 8 == 0
  {
    (n + 7) / 8 * 8
  }

  /** Buckets charged for one record. */
  function Buckets(a: nat): nat {
    (a + BUCKET - 1) / BUCKET
  }

  /** Twice the bytes used on a page never exceed 543 times its occupancy. */
  ghost predicate Covered(used: nat, status: nat) {
    2 * used <= 543 * status
  }

  /** A page that is covered and whose occupancy can be raised by the buckets of a request has room for it. */
  lemma CoveredFits(used: nat, status: nat, request: nat, buckets: nat)
    requires Covered(used, status) && Covered(request, buckets) && status + buckets <= MAX_STATUS
    ensures used + request <= S.SPACE && Covered(used + request, status + buckets)
  {
  }

  /** Tuples of 1 to 4064 bytes, except those whose aligned size fills 5, 6, 7 or 8 buckets. */
  predicate SafeSize(n: nat) {
    1 <= n <= 4064 && Align(n) !in {1352, 1624, 1896, 2168}
  }

  /** What a single insert asks for, with its slot, is covered for these sizes and no others. */
  lemma SingleCovered(n: nat)
    requires n <= 4064
    ensures Covered(Align(n) + S.SLOT, Buckets(Align(n))) <==> SafeSize(n)
  {
    var a := Align(n);
    var b := Buckets(a);
    assert BUCKET * b - BUCKET < a <= BUCKET * b;
    assert a == 8 * (a / 8);
  }

  /** A single insert is refused for its size exactly above 4064 bytes, before any page is looked at. */
  lemma SingleStatus(n: nat)
    ensures CalcPageStatus(SINGLE_SPACE, Align(n)) == if n <= 4064 then Some(Buckets(Align(n))) else None
  {
  }

  /** A bulk insert of that many bytes, slots included, gets a page exactly up to 4065 bytes, and is covered. */
  lemma BulkStatus(total: nat)
    ensures CalcPageStatus(S.SPACE, total) == if total <= 4065 then Some(Buckets(total)) else None
    ensures Covered(total, Buckets(total))
  {
  }

  // ----- exactly when single inserts overflow -----

  function Sum(s: seq<nat>): nat {
    if s == [] then 0 else Sum(s[..|s| - 1]) + s[|s| - 1]
  }

  function Charge(s: seq<nat>): nat {
    if s == [] then 0 else Charge(s[..|s| - 1]) + Buckets(s[|s| - 1])
  }

  lemma Append(s: seq<nat>, a: nat)
    ensures Sum(s + [a]) == Sum(s) + a && Charge(s + [a]) == Charge(s) + Buckets(a)
  {
    assert (s + [a])[..|s|] == s;
  }

  /** Aligned sizes of non-empty records that a single insert accepts. */
  ghost predicate Records(s: seq<nat>) {
    forall i :: 0 <= i < |s| ==> 8 <= s[i] <= 4064 && s[i] % 8 == 0
  }

  lemma {:induction false} SumBound(s: seq<nat>)
    requires Records(s)
    ensures Sum(s) % 8 == 0 && Sum(s) + 8 * |s| <= 272 * Charge(s)
  {
    hide Buckets;
    if s != [] {
      SumBound(s[..|s| - 1]);
      FillsAtMost(s[|s| - 1]);
    }
  }

  lemma FillsAtMost(a: nat)
    requires 8 <= a <= 4064 && a % 8 == 0
    ensures a + 8 <= 272 * Buckets(a)
  {
    assert a <= BUCKET * Buckets(a);
  }

  /** Two or three records, each of which fills its buckets: they add up to 4080 less 8 bytes a record. */
  predicate Overflowing(s: seq<nat>) {
    2 <= |s| <= 3 && Sum(s) == 4080 - 8 * |s|
  }

  /**
   * Records inserted one by one on a page that the map accepted (at most 15 buckets) overflow it exactly if they
   * are two or three and every one of them fills its buckets.
   */
  lemma SinglesOverflow(s: seq<nat>)
    requires Records(s) && Charge(s) <= MAX_STATUS
    ensures Sum(s) + S.SLOT * |s| > S.SPACE <==> Overflowing(s)
  {
    SumBound(s);
    if |s| == 1 {
      assert Sum(s) == Sum(s[..0]) + s[0];
    }
  }

  lemma Two(a: nat, b: nat)
    ensures Sum([a, b]) == a + b && Charge([a, b]) == Buckets(a) + Buckets(b)
  {
    hide Buckets;
    Append([a], b);
    assert [a] + [b] == [a, b] && [a][..0] == [];
  }

  lemma Three(a: nat, b: nat, c: nat)
    ensures Sum([a, b, c]) == a + b + c && Charge([a, b, c]) == Buckets(a) + Buckets(b) + Buckets(c)
  {
    hide Buckets, Sum, Charge;
    Two(a, b);
    Append([a, b], c);
    assert [a, b] + [c] == [a, b, c];
  }

  /** 8 + 7 and 5 + 5 + 5 buckets do overflow, and so do empty tuples, which cost a slot but no bucket. */
  lemma OverflowExamples()
    ensures Records([2168, 1896]) && Charge([2168, 1896]) == MAX_STATUS && Overflowing([2168, 1896])
    ensures Records([1352, 1352, 1352]) && Charge([1352, 1352, 1352]) == MAX_STATUS && Overflowing([1352, 1352, 1352])
    ensures Buckets(Align(0)) == 0 && Align(0) + S.SLOT > 0
  {
    hide Sum, Charge;
    Two(2168, 1896);
    Three(1352, 1352, 1352);
  }
}
