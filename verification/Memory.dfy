/**
 The C library block operations the sources are written with, on byte arrays.
 Each is specified by the whole new content of the array it writes.
 */
module Memory {
  import opened Bytes

  /** memcpy of a block into `a` at offset `at`. */
  method CopyInto(a: array<byte>, at: nat, s: seq<byte>)
    requires at + |s| <= a.Length
    modifies a
    ensures a[..] == old(a[..])[..at] + s + old(a[..])[at + |s|..]
  {
    forall i | 0 <= i < |s| {
      a[at + i] := s[i];
    }
  }

  /** memmove inside one block: `n` bytes from `from` to `to`, the ranges may overlap. */
  method MoveWithin(a: array<byte>, to: nat, from: nat, n: nat)
    requires to + n <= a.Length && from + n <= a.Length
    modifies a
    ensures a[..] == old(a[..])[..to] + old(a[..])[from..from + n] + old(a[..])[to + n..]
  {
    forall i | 0 <= i < n {
      a[to + i] := a[from + i];
    }
  }

  /** memset to zero from `from` up to, not including, `to`. */
  method ZeroFill(a: array<byte>, from: nat, to: nat)
    requires from <= to <= a.Length
    modifies a
    ensures a[..] == old(a[..])[..from] + Zeros(to - from) + old(a[..])[to..]
  {
    forall i | from <= i < to {
      a[i] := 0;
    }
  }

  function Zeros(n: nat): (s: seq<byte>)
    ensures |s| == n
  {
    seq(n, _ => 0)
  }
}
