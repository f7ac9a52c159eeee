/**
 * Byte strings as Python's `bytes` and the `struct` module treat them:
 * slicing with clamped bounds, `ljust` padding, fixed-width string fields
 * and fixed-width integers in either byte order.
 */
module Bytes {

  type byte = b: int | 0 <= b < 256

  function Min(a: int, b: int): (m: int)
  {
    if a <= b then a else b
  }

  function Max(a: int, b: int): (m: int)
  {
    if a <= b then b else a
  }

  function Zeros(n: nat): (r: seq<byte>)
    ensures |r| == n
    ensures forall k :: 0 <= k < n ==> r[k] == 0
  {
    seq(n, _ => 0)
  }

  /** `s[lo:hi]` for non-negative bounds: both bounds are clamped to the length,
      and a range that is empty after clamping gives the empty string. */
  function Slice(s: seq<byte>, lo: nat, hi: nat): (r: seq<byte>)
    ensures |r| == Max(0, Min(hi, |s|) - Min(lo, |s|))
    ensures forall k :: 0 <= k < |r| ==> r[k] == s[lo + k]
  {
    var a, b := Min(lo, |s|), Min(hi, |s|);
    if a <= b then s[a..b] else []
  }

  /** `s[lo:]` for a non-negative bound: empty when `lo` is at or past the end. */
  function Drop(s: seq<byte>, lo: nat): (r: seq<byte>)
    ensures |r| == Max(0, |s| - lo)
    ensures forall k :: 0 <= k < |r| ==> r[k] == s[lo + k]
  {
    if lo <= |s| then s[lo..] else []
  }

  /** `s.ljust(width, b'\0')`: zero bytes appended up to `width`; never truncates. */
  function LeftJustify(s: seq<byte>, width: nat): (r: seq<byte>)
    ensures |r| == Max(|s|, width)
    ensures r[..|s|] == s
    ensures forall k :: |s| <= k < |r| ==> r[k] == 0
  {
    if |s| >= width then s else s + Zeros(width - |s|)
  }

  /** A `struct` field of format `<n>s`: the string truncated, or zero-padded, to exactly `n` bytes. */
  function FixedField(s: seq<byte>, n: nat): (r: seq<byte>)
    ensures |r| == n
    ensures forall k :: 0 <= k < n ==> r[k] == if k < |s| then s[k] else 0
  {
    if |s| >= n then s[..n] else s + Zeros(n - |s|)
  }

  const Two16: int := 0x1_0000
  const Two32: int := 0x1_0000_0000

  /** `struct` format `>H`: two bytes, most significant first. */
  function UInt16BE(x: int): (r: seq<byte>)
    requires 0 <= x < Two16
    ensures |r| == 2 && (r[0] as int) * 256 + r[1] == x
  {
    [x / 256, x % 256]
  }

  /** `struct` format `>I`: four bytes, most significant first. */
  function UInt32BE(x: int): (r: seq<byte>)
    requires 0 <= x < Two32
    ensures |r| == 4 && FromUInt32LE([r[3], r[2], r[1], r[0]]) == x
  {
    LittleEndianRoundTrip(x);
    [x / 0x100_0000, x / 0x1_0000 % 256, x / 256 % 256, x % 256]
  }

  /** The value of four bytes read least significant first. */
  function FromUInt32LE(b: seq<byte>): (x: int)
    requires |b| == 4
    ensures 0 <= x < Two32
  {
    (b[0] as int) + 256 * (b[1] as int) + 0x1_0000 * (b[2] as int) + 0x100_0000 * (b[3] as int)
  }

  /** `struct` format `<I`: four bytes, least significant first. */
  function UInt32LE(x: int): (r: seq<byte>)
    requires 0 <= x < Two32
    ensures |r| == 4 && FromUInt32LE(r) == x
  {
    LittleEndianRoundTrip(x);
    [x % 256, x / 256 % 256, x / 0x1_0000 % 256, x / 0x100_0000]
  }

  lemma LittleEndianRoundTrip(x: int)
    requires 0 <= x < Two32
    ensures x / 0x100_0000 < 256
    ensures x % 256 + 256 * (x / 256 % 256) + 0x1_0000 * (x / 0x1_0000 % 256)
            + 0x100_0000 * (x / 0x100_0000) == x
  {
    var q1, q2, q3 := x / 256, x / 0x1_0000, x / 0x100_0000;
    assert q2 == q1 / 256;
    assert q3 == q2 / 256;
    assert x == q1 * 256 + x % 256;
    assert q1 == q2 * 256 + q1 % 256;
    assert q2 == q3 * 256 + q2 % 256;
  }
}
