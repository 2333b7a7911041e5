/** Sizes, identifiers and little-endian integers shared by all page layouts. */
module PageTypes {

  const PAGE_SIZE: nat := 4096

  /** The all-ones value of a 64-bit size_t. */
  const INVALID: nat := 0xFFFF_FFFF_FFFF_FFFF

  /** The all-ones value of a uint32_t. */
  const INVALID_32: nat := 0xFFFF_FFFF

  type byte = b: int | 0 <= b < 256
  type uint16 = i: int | 0 <= i < 0x1_0000
  type uint32 = i: int | 0 <= i < 0x1_0000_0000

  type Page = s: seq<byte> | |s| == PAGE_SIZE witness seq(PAGE_SIZE, _ => 0)

  /** Page identifier: partition and page index inside the partition. */
  datatype PID = PID(fileID: byte, pageNo: uint32)

  datatype Option<+T> = None | Some(value: T)

  function Min(a: nat, b: nat): nat { if a < b then a else b }

  /** No element twice. */
  ghost predicate NoDup<T>(s: seq<T>) {
    forall i, j :: 0 <= i < j < |s| ==> s[i] != s[j]
  }

  /** Little-endian encoding of a 32-bit value. */
  function LE32(v: uint32): (s: seq<byte>)
    ensures |s| == 4
  {
    [v % 256, v / 256 % 256, v / 65536 % 256, v / 16777216]
  }

  function LE16(v: uint16): (s: seq<byte>)
    ensures |s| == 2
  {
    [v % 256, v / 256]
  }

  /** Reads a uint32_t at byte offset k. */
  function Get32(s: seq<byte>, k: nat): uint32
    requires k + 4 <= |s|
  {
    s[k] as int + 256 * s[k + 1] as int + 65536 * s[k + 2] as int + 16777216 * s[k + 3] as int
  }

  function Get16(s: seq<byte>, k: nat): uint16
    requires k + 2 <= |s|
  {
    s[k] as int + 256 * s[k + 1] as int
  }

  /** Replaces |w| bytes of s from offset k on. */
  function Patch(s: seq<byte>, k: nat, w: seq<byte>): (r: seq<byte>)
    requires k + |w| <= |s|
    ensures |r| == |s|
    ensures forall i :: 0 <= i < |s| ==> r[i] == if k <= i < k + |w| then w[i - k] else s[i]
  {
    s[..k] + w + s[k + |w|..]
  }

  /** Copies bytes into a buffer. */
  method CopyBytes(a: array<byte>, k: nat, w: seq<byte>)
    requires k + |w| <= a.Length
    modifies a
    ensures a[..] == Patch(old(a[..]), k, w)
  {
    for i := 0 to |w|
      invariant forall j :: 0 <= j < a.Length ==> a[j] == if k <= j < k + i then w[j - k] else old(a[j])
    {
      a[k + i] := w[i];
    }
  }

  lemma Get32OfLE32(s: seq<byte>, k: nat, v: uint32)
    requires k + 4 <= |s| && s[k..k + 4] == LE32(v)
    ensures Get32(s, k) == v
  {
    var w := s[k..k + 4];
    assert s[k] == w[0] && s[k + 1] == w[1] && s[k + 2] == w[2] && s[k + 3] == w[3];
    Digits(v);
  }

  lemma Digits(v: nat)
    ensures v == v % 256 + 256 * (v / 256 % 256) + 65536 * (v / 65536 % 256) + 16777216 * (v / 16777216)
  {
    var a, b, c := v / 256, v / 65536, v / 16777216;
    assert b == a / 256 && c == b / 256;
    assert v == 256 * a + v % 256 && a == 256 * b + a % 256 && b == 256 * c + b % 256;
  }

  /** The least significant byte comes first. */
  lemma LittleEndian()
    ensures LE32(0x4433_2211) == [0x11, 0x22, 0x33, 0x44] && LE16(0x2211) == [0x11, 0x22]
  {
  }

  /** The 16-byte basic_header_t at the end of every page: LSN, page index, partition, version 1, two unused bytes. */
  function BasicHeader(lsn: byte, pid: PID): (s: seq<byte>)
    ensures |s| == 16 && s[0] == lsn && s[1..8] == [0, 0, 0, 0, 0, 0, 0]
    ensures s[8..12] == LE32(pid.pageNo) && s[12..] == [pid.fileID, 1, 0, 0]
  {
    [lsn, 0, 0, 0, 0, 0, 0, 0] + LE32(pid.pageNo) + [pid.fileID, 1, 0, 0]
  }
}
