/**
 Bytes, fixed-width integers in both byte orders, C strings, and optional values.
 The device and its peer exchange big-endian integers; the attribute container keeps
 integers in host order, which is taken to be little-endian.
 */
module Bytes {

  type byte = x: int | 0 <= x < 256 witness 0

  datatype Option<T> = None | Some(value: T)

  const U16 := 0x1_0000
  const U32 := 0x1_0000_0000

  /** The largest value of the `int` in which sizes are computed and bytes are counted. */
  const INT_MAX := 0x7FFF_FFFF

  /** The two bytes of a 16-bit value, least significant first; higher bits are cut off. */
  function LE16(v: int): (s: seq<byte>)
    ensures |s| == 2
  {
    [v % 256, (v / 256) % 256]
  }

  function LE32(v: int): (s: seq<byte>)
    ensures |s| == 4
  {
    LE16(v) + LE16(v / U16)
  }

  function BE16(v: int): (s: seq<byte>)
    ensures |s| == 2
  {
    [(v / 256) % 256, v % 256]
  }

  function BE32(v: int): (s: seq<byte>)
    ensures |s| == 4
  {
    BE16(v / U16) + BE16(v)
  }

  function FromLE16(s: seq<byte>): (v: nat)
    requires |s| == 2
    ensures v < U16
  {
    s[0] as int + 256 * s[1] as int
  }

  function FromLE32(s: seq<byte>): (v: nat)
    requires |s| == 4
    ensures v < U32
  {
    FromLE16(s[..2]) + U16 * FromLE16(s[2..])
  }

  function FromBE16(s: seq<byte>): (v: nat)
    requires |s| == 2
    ensures v < U16
  {
    256 * s[0] as int + s[1] as int
  }

  function FromBE32(s: seq<byte>): (v: nat)
    requires |s| == 4
    ensures v < U32
  {
    U16 * FromBE16(s[..2]) + FromBE16(s[2..])
  }

  /** The remainder of a division is the only one below the divisor. */
  lemma RemainderIs(v: int, m: nat, k: int, r: nat)
    requires r < m && v == m * k + r
    ensures v % m == r
  {
    assert m * (v / m - k) == r - v % m;
    Product(m, v / m - k);
  }

  lemma Product(n: nat, m: int)
    ensures m >= 1 ==> n * m >= n
    ensures m <= -1 ==> n * m + n <= 0
  {
  }

  lemma Stored16(v: int)
    ensures FromLE16(LE16(v)) == FromBE16(BE16(v)) == v % U16
  {
  }

  /** Reading back a stored integer gives it modulo its width. */
  lemma Stored32(v: int)
    ensures FromLE32(LE32(v)) == FromBE32(BE32(v)) == v % U32
  {
    assert LE32(v)[..2] == LE16(v) && LE32(v)[2..] == LE16(v / U16);
    assert BE32(v)[..2] == BE16(v / U16) && BE32(v)[2..] == BE16(v);
    Stored16(v);
    Stored16(v / U16);
  }

  lemma Reread16(s: seq<byte>)
    requires |s| == 2
    ensures LE16(FromLE16(s)) == s && BE16(FromBE16(s)) == s
  {
  }

  /** Storing an integer that was read gives back the same bytes. */
  lemma Reread32(s: seq<byte>)
    requires |s| == 4
    ensures LE32(FromLE32(s)) == s && BE32(FromBE32(s)) == s
  {
    Reread16(s[..2]);
    Reread16(s[2..]);
    LowHalf(FromLE16(s[..2]), FromLE16(s[2..]));
    LowHalf(FromBE16(s[2..]), FromBE16(s[..2]));
    assert s == s[..2] + s[2..];
  }

  lemma LowHalf(lo: nat, hi: nat)
    requires lo < U16
    ensures LE16(lo + U16 * hi) == LE16(lo) && BE16(lo + U16 * hi) == BE16(lo)
    ensures (lo + U16 * hi) / U16 == hi
  {
    var v := lo + U16 * hi;
    assert v == 256 * (256 * hi + lo / 256) + lo % 256;
    assert v / 256 == 256 * hi + lo / 256;
  }

  /** A sequence that can be stored as a C string: no NUL inside. */
  predicate NulFree(s: seq<byte>) {
    0 !in s
  }

  /** The C string that starts at the head of `s`: everything before the first NUL. */
  function CString(s: seq<byte>): (r: seq<byte>)
    ensures NulFree(r) && r <= s
    ensures |r| < |s| ==> s[|r|] == 0
  {
    if s == [] || s[0] == 0 then [] else [s[0]] + CString(s[1..])
  }

  /** Reading a C string stops exactly at the terminator that was written. */
  lemma {:induction false} CStringOfTerminated(s: seq<byte>, rest: seq<byte>)
    requires NulFree(s)
    ensures CString(s + [0] + rest) == s
  {
    if s == [] {
    } else {
      assert (s + [0] + rest)[1..] == s[1..] + [0] + rest;
      CStringOfTerminated(s[1..], rest);
    }
  }
}
