/** Bytes and the little-endian integers that every on-disk format of the kernel is built from. */
module Bytes {

  type Byte = b: int | 0 <= b < 256

  const TWO_32: int := 0x1_0000_0000

  type Uint32 = n: int | 0 <= n < 0x1_0000_0000

  type Uint16 = n: int | 0 <= n < 0x1_0000

  type Uint64 = n: int | 0 <= n < 0x1_0000_0000_0000_0000

  /** A sixteen-byte digest or identifier; all zero means none. */
  type Hash = s: seq<Byte> | |s| == 16 witness [0, 0, 0, 0, 0, 0, 0, 0, 0, 0, 0, 0, 0, 0, 0, 0]

  const NO_HASH: Hash := [0, 0, 0, 0, 0, 0, 0, 0, 0, 0, 0, 0, 0, 0, 0, 0]

  /** A string whose length is still positive as a signed 32-bit number. */
  type Text = s: seq<Byte> | |s| < 0x8000_0000

  function Le16(n: int): (s: seq<Byte>)
    requires 0 <= n < 0x1_0000
    ensures |s| == 2
  {
    [n % 256, n / 256]
  }

  function Le32(n: Uint32): (s: seq<Byte>)
    ensures |s| == 4
  {
    [n % 256, n / 256 % 256, n / 256 / 256 % 256, n / 256 / 256 / 256]
  }

  function De16(s: seq<Byte>, at: nat): (n: int)
    requires at + 2 <= |s|
    ensures 0 <= n < 0x1_0000
  {
    s[at] as int + 256 * (s[at + 1] as int)
  }

  function De32(s: seq<Byte>, at: nat): (n: Uint32)
    requires at + 4 <= |s|
  {
    s[at] as int + 256 * (s[at + 1] as int) + 65536 * (s[at + 2] as int) + 16777216 * (s[at + 3] as int)
  }

  /** `part` stands in `s` at offset `at`. */
  ghost predicate Holds(s: seq<Byte>, at: nat, part: seq<Byte>) {
    at + |part| <= |s| && s[at..at + |part|] == part
  }

  lemma Read32(s: seq<Byte>, at: nat, n: Uint32)
    requires Holds(s, at, Le32(n))
    ensures at + 4 <= |s| && De32(s, at) == n
  {
    forall k | 0 <= k < 4
      ensures s[at + k] == Le32(n)[k]
    {
      assert s[at..at + 4][k] == s[at + k];
    }
    var a := n / 256;
    var b := a / 256;
    assert n == 256 * a + n % 256 && a == 256 * b + a % 256 && b == 256 * (b / 256) + b % 256;
  }

  lemma Read16(s: seq<Byte>, at: nat, n: int)
    requires 0 <= n < 0x1_0000
    requires Holds(s, at, Le16(n))
    ensures at + 2 <= |s| && De16(s, at) == n
  {
    assert s[at..at + 2][0] == s[at] && s[at..at + 2][1] == s[at + 1];
  }

  lemma ReadByte(s: seq<Byte>, at: nat, b: Byte)
    requires Holds(s, at, [b])
    ensures at < |s| && s[at] == b
  {
    assert s[at..at + 1][0] == s[at];
  }

  /** A part of a part that stands at `at` stands at the summed offset. */
  lemma HoldsPart(s: seq<Byte>, at: nat, whole: seq<Byte>, off: nat, part: seq<Byte>)
    requires Holds(s, at, whole)
    requires Holds(whole, off, part)
    ensures Holds(s, at + off, part)
  {
    forall k | 0 <= k < |part|
      ensures s[at + off..at + off + |part|][k] == part[k]
    {
      assert s[at..at + |whole|][off + k] == whole[off + k];
      assert whole[off..off + |part|][k] == part[k];
    }
  }

  lemma De32Slice(s: seq<Byte>, at: nat)
    requires at + 4 <= |s|
    ensures De32(s[at..at + 4], 0) == De32(s, at)
  {
  }

  /** A list of buffers as one. */
  function Flat(buffers: seq<seq<Byte>>): seq<Byte> {
    if buffers == [] then [] else Flat(buffers[..|buffers| - 1]) + buffers[|buffers| - 1]
  }
}
