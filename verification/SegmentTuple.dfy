/** The catalogue entry of a segment and its byte representation. */
module SegmentTuples {
  import opened PageTypes

  /** Names are byte strings; a name may hold any bytes, but only names without NUL survive on disk. */
  datatype SegmentT = SegmentT(partID: byte, ID: uint16, name: seq<byte>, segType: byte, firstPage: uint32)
  {
    function Size(): nat {
      1 + 2 + (|name| + 1) + 1 + 4
    }

    /** The bytes written by ToDisk. */
    function Encode(): seq<byte> {
      [partID] + LE16(ID) + name + [0] + [segType] + LE32(firstPage)
    }
  }

  /** Field after field: partition, ID, name with its NUL, type, first page. */
  lemma EncodeLayout(v: SegmentT)
    ensures var s, n := v.Encode(), |v.name|;
      && |s| == n + 9 && s[0] == v.partID && s[1..3] == LE16(v.ID) && s[3..3 + n] == v.name && s[3 + n] == 0
      && s[4 + n] == v.segType && s[5 + n..9 + n] == LE32(v.firstPage)
  {
    hide LE16, LE32;
  }

  /** The bytes up to, and without, the first NUL. */
  function UpToNul(s: seq<byte>): seq<byte> {
    if s == [] || s[0] == 0 then [] else [s[0]] + UpToNul(s[1..])
  }

  /** What ToMemory reads, None if it would run past the given bytes. */
  function Decode(s: seq<byte>): Option<SegmentT> {
    if |s| < 3 then None
    else
      var name := UpToNul(s[3..]);
      var k := 3 + |name| + 1;
      if k + 5 > |s| then None
      else Some(SegmentT(s[0], Get16(s, 1), name, s[k], Get32(s, k + 1)))
  }

  lemma {:induction false} UpToNulOf(name: seq<byte>, rest: seq<byte>)
    requires 0 !in name
    ensures UpToNul(name + [0] + rest) == name
  {
    if name == [] {
      assert ([] + [0] + rest)[0] == 0;
    } else {
      UpToNulOf(name[1..], rest);
      assert (name + [0] + rest)[1..] == name[1..] + [0] + rest;
    }
  }

  lemma {:induction false} UpToNulHasNone(s: seq<byte>)
    ensures 0 !in UpToNul(s)
  {
    if s != [] && s[0] != 0 {
      UpToNulHasNone(s[1..]);
    }
  }

  /** Whatever follows the record, decoding gives the entry back exactly if its name has no NUL. */
  lemma RoundTrip(v: SegmentT, pad: seq<byte>)
    ensures Decode(v.Encode() + pad) == Some(v) <==> 0 !in v.name
  {
    var s := v.Encode() + pad;
    if 0 !in v.name {
      var tail := [v.segType] + LE32(v.firstPage) + pad;
      assert s[3..] == v.name + [0] + tail;
      UpToNulOf(v.name, tail);
      var k := 3 + |v.name| + 1;
      assert s[k + 1..k + 5] == LE32(v.firstPage);
      Get32OfLE32(s, k + 1, v.firstPage);
      assert s[k] == v.segType && s[0] == v.partID;
      assert s[1] == LE16(v.ID)[0] && s[2] == LE16(v.ID)[1];
    } else {
      UpToNulHasNone(s[3..]);
    }
  }

  /** Writes an entry at the given place, field after field; nothing else changes. */
  method ToDisk(v: SegmentT, a: array<byte>, at: nat)
    requires at + v.Size() <= a.Length
    modifies a
    ensures |v.Encode()| == v.Size()
    ensures a[..] == Patch(old(a[..]), at, v.Encode())
  {
    hide LE32, LE16, Patch, SegmentT.Encode;
    EncodeIs(v);
    ghost var was := a[..];
    var p := at;
    CopyBytes(a, p, [v.partID]);
    p := p + 1;
    CopyBytes(a, p, LE16(v.ID));
    Appended(was, at, [v.partID], LE16(v.ID));
    p := p + 2;
    CopyBytes(a, p, v.name + [0]);
    Appended(was, at, [v.partID] + LE16(v.ID), v.name + [0]);
    p := p + |v.name| + 1;
    CopyBytes(a, p, [v.segType]);
    Appended(was, at, [v.partID] + LE16(v.ID) + (v.name + [0]), [v.segType]);
    p := p + 1;
    CopyBytes(a, p, LE32(v.firstPage));
    Appended(was, at, [v.partID] + LE16(v.ID) + (v.name + [0]) + [v.segType], LE32(v.firstPage));
  }

  lemma EncodeIs(v: SegmentT)
    ensures v.Encode() == [v.partID] + LE16(v.ID) + (v.name + [0]) + [v.segType] + LE32(v.firstPage)
    ensures |v.Encode()| == v.Size()
  {
    hide LE32, LE16;
  }

  /** Two copies next to each other are one. */
  lemma Appended(s: seq<byte>, k: nat, u: seq<byte>, w: seq<byte>)
    requires k + |u| + |w| <= |s|
    ensures Patch(Patch(s, k, u), k + |u|, w) == Patch(s, k, u + w)
  {
  }

  /** Reads an entry that is there in full. */
  method ToMemory(s: seq<byte>) returns (v: SegmentT)
    requires Decode(s).Some?
    ensures Decode(s) == Some(v)
  {
    var k := 3;
    var name := [];
    while s[k] != 0
      invariant 3 <= k < |s| && name + UpToNul(s[k..]) == UpToNul(s[3..]) && k == 3 + |name|
      decreases |s| - k
    {
      assert s[k..][1..] == s[k + 1..];
      name := name + [s[k]];
      k := k + 1;
    }
    assert name == UpToNul(s[3..]);
    v := SegmentT(s[0], Get16(s, 1), name, s[k + 1], Get32(s, k + 2));
  }
}
