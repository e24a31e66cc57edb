/**
 How the five ways of setting an attribute change a block, as equations on its bytes: each
 turns a block that holds a container into one that holds the updated container.
 */
module AttrLayout {
  import opened Bytes
  import opened AttrFormat
  import Lists

  /** Where record `i` starts; for the number of attributes, where the records end. */
  function RecordAt(c: Container, i: nat): nat
    requires i <= |c.attrs|
  {
    BeginAt(c.tag) + |EncodeAll(c.attrs[..i])|
  }

  lemma HeaderLength(c: Container, total: nat)
    ensures |Header(c, total)| == BeginAt(c.tag)
  {
  }

  /** A block that is header, records and slack holds its container. */
  lemma HoldsAssembled(m: seq<byte>, c: Container, slack: seq<byte>)
    requires Fits(c) && BeginAt(c.tag) < |m| < U32
    requires m == Header(c, |m| - 2) + EncodeAll(c.attrs) + slack
    ensures Holds(m, c)
  {
    HeaderLength(c, |m| - 2);
    hide Header, EncodeAll, Fits;
  }

  /** And conversely. */
  lemma Disassemble(m: seq<byte>, c: Container)
    requires Holds(m, c)
    ensures m == Header(c, |m| - 2) + EncodeAll(c.attrs) + m[EndAt(c)..]
    ensures |Header(c, |m| - 2)| == BeginAt(c.tag) && EndAt(c) == RecordAt(c, |c.attrs|)
  {
    HeaderLength(c, |m| - 2);
    assert c.attrs[..|c.attrs|] == c.attrs;
    hide Header, EncodeAll, Fits;
    Lists.ThreeParts(m, BeginAt(c.tag), EndAt(c));
  }

  lemma Regroup(h: seq<byte>, a: seq<byte>, x: seq<byte>, b: seq<byte>, r: seq<byte>)
    ensures h + (a + x + b) + r == h + a + x + b + r
  {
  }

  lemma Associate(h: seq<byte>, a: seq<byte>, x: seq<byte>, r: seq<byte>)
    ensures h + a + x + r == h + (a + x) + r
  {
  }

  lemma Cut(m: seq<byte>, h: seq<byte>, a: seq<byte>, x: seq<byte>, b: seq<byte>, r: seq<byte>)
    requires m == h + a + x + b + r
    ensures var p, q := |h| + |a|, |h| + |a| + |x|;
            q + |b| <= |m| && m[..p] == h + a && m[p..q] == x && m[q..q + |b|] == b && m[q + |b|..] == r
  {
  }

  lemma AroundLengths(c: Container, i: nat)
    requires i < |c.attrs|
    ensures var p, x, b := RecordAt(c, i), |EncodeAttr(c.attrs[i])|, |EncodeAll(c.attrs[i + 1..])|;
            p == BeginAt(c.tag) + |EncodeAll(c.attrs[..i])| && RecordAt(c, i + 1) == p + x && EndAt(c) == p + x + b
  {
    EncodeSplit(c.attrs, i);
    EncodeNext(c.attrs, i);
    hide EncodeAll, EncodeAttr;
  }

  /** The block around record `i`. */
  lemma Around(m: seq<byte>, c: Container, i: nat)
    requires Holds(m, c) && i < |c.attrs|
    ensures var p, q := RecordAt(c, i), RecordAt(c, i + 1);
            q == p + |EncodeAttr(c.attrs[i])| && q <= EndAt(c) <= |m| &&
            m[..p] == Header(c, |m| - 2) + EncodeAll(c.attrs[..i]) && m[p..q] == EncodeAttr(c.attrs[i]) &&
            m[q..EndAt(c)] == EncodeAll(c.attrs[i + 1..])
  {
    hide *;
    HoldsBounds(m, c);
    assert |m| >= 2 by { BeginBound(c.tag); }
    Disassemble(m, c);
    AroundLengths(c, i);
    EncodeSplit(c.attrs, i);
    var h, a, x := Header(c, |m| - 2), EncodeAll(c.attrs[..i]), EncodeAttr(c.attrs[i]);
    var b, r := EncodeAll(c.attrs[i + 1..]), m[EndAt(c)..];
    Regroup(h, a, x, b, r);
    Cut(m, h, a, x, b, r);
  }

  lemma RecordOrder(c: Container, i: nat)
    requires i < |c.attrs|
    ensures RecordAt(c, i + 1) == RecordAt(c, i) + |EncodeAttr(c.attrs[i])|
  {
    EncodeNext(c.attrs, i);
  }

  lemma PutFits(c: Container, a: Attr)
    requires Fits(c) && ValidAttr(a) && |c.attrs| + 1 < U16
    ensures Fits(c.(attrs := Put(c.attrs, a)))
  {
    PutMembers(c.attrs, a);
    hide ValidAttr, NulFree, DistinctKeys;
    PutSize(c.attrs, a);
    hide Put;
  }

  lemma PutSize(attrs: seq<Attr>, a: Attr)
    ensures |Put(attrs, a)| == if IndexOf(attrs, a.key) == |attrs| then |attrs| + 1 else |attrs|
  {
  }

  lemma PutAt(attrs: seq<Attr>, a: Attr, i: nat)
    requires i == IndexOf(attrs, a.key) < |attrs|
    ensures EncodeAll(Put(attrs, a)) ==
            if |EncodeAttr(attrs[i])| == |EncodeAttr(a)|
            then EncodeAll(attrs[..i]) + EncodeAttr(a) + EncodeAll(attrs[i + 1..])
            else EncodeAll(attrs[..i]) + EncodeAll(attrs[i + 1..]) + EncodeAttr(a)
  {
    var pre, post := attrs[..i], attrs[i + 1..];
    if |EncodeAttr(attrs[i])| == |EncodeAttr(a)| {
      EncodeSplit(attrs[i := a], i);
      assert attrs[i := a][..i] == pre && attrs[i := a][i + 1..] == post;
    } else {
      EncodeConcat(pre, post);
      EncodeAppend(pre + post, a);
    }
  }

  /** The header depends on the attributes only through their number. */
  lemma SameHeader(c: Container, d: Container, total: nat)
    requires d == c.(attrs := d.attrs) && |d.attrs| == |c.attrs|
    ensures Header(c, total) == Header(d, total)
  {
  }

  /** The new record in the place of an old one of the same size. */
  lemma Replaced(m: seq<byte>, c: Container, a: Attr, slack: seq<byte>)
    requires Fits(c) && ValidAttr(a) && |c.attrs| + 1 < U16 && BeginAt(c.tag) < |m| < U32
    requires var i := IndexOf(c.attrs, a.key);
             i < |c.attrs| && |EncodeAttr(c.attrs[i])| == |EncodeAttr(a)| &&
             m == Header(c, |m| - 2) + EncodeAll(c.attrs[..i]) + EncodeAttr(a) + EncodeAll(c.attrs[i + 1..]) + slack
    ensures Holds(m, c.(attrs := Put(c.attrs, a)))
  {
    var i := IndexOf(c.attrs, a.key);
    var d := c.(attrs := Put(c.attrs, a));
    PutFits(c, a);
    PutSize(c.attrs, a);
    PutAt(c.attrs, a, i);
    SameHeader(c, d, |m| - 2);
    hide Header, EncodeAll, EncodeAttr, Fits, Put;
    Regroup(Header(c, |m| - 2), EncodeAll(c.attrs[..i]), EncodeAttr(a), EncodeAll(c.attrs[i + 1..]), slack);
    HoldsAssembled(m, d, slack);
  }

  /** Overwrite in place, at record `i`. */
  lemma Overwritten(m: seq<byte>, c: Container, a: Attr, i: nat, m': seq<byte>)
    requires Holds(m, c) && ValidAttr(a) && |c.attrs| + 1 < U16
    requires i == IndexOf(c.attrs, a.key) < |c.attrs| && |EncodeAttr(c.attrs[i])| == |EncodeAttr(a)|
    requires var p, q := RecordAt(c, i), RecordAt(c, i) + |EncodeAttr(a)|;
             q <= |m| && m' == m[..p] + EncodeAttr(a) + m[q..]
    ensures Holds(m', c.(attrs := Put(c.attrs, a)))
  {
    hide *;
    HoldsBounds(m, c);
    BeginBound(c.tag);
    Around(m, c, i);
    HeaderPrefix(c, |m| - 2, i);
    var h, e, x, b := Header(c, |m| - 2), EncodeAll(c.attrs[..i]), EncodeAttr(a), EncodeAll(c.attrs[i + 1..]);
    Splice(m, h + e, x, b, RecordAt(c, i + 1), EndAt(c), m');
    Replaced(m', c, a, m[EndAt(c)..]);
  }

  lemma HeaderPrefix(c: Container, total: nat, i: nat)
    requires i <= |c.attrs|
    ensures |Header(c, total) + EncodeAll(c.attrs[..i])| == RecordAt(c, i)
  {
    HeaderLength(c, total);
    hide Header, EncodeAll;
  }

  lemma BeginBound(tag: seq<byte>)
    ensures BeginAt(tag) >= 11
  {
  }

  lemma HoldsBounds(m: seq<byte>, c: Container)
    requires Holds(m, c)
    ensures Fits(c) && BeginAt(c.tag) < |m| < U32 && BeginAt(c.tag) <= EndAt(c) <= |m|
    ensures c.flags < U16 && |c.tag| + 1 < U16
  {
    hide Header, EncodeAll, ValidAttr, DistinctKeys;
  }

  lemma Splice(m: seq<byte>, front: seq<byte>, x: seq<byte>, b: seq<byte>, q: nat, end: nat, m': seq<byte>)
    requires |front| <= q <= end <= |m| && m[..|front|] == front && q == |front| + |x| && m[q..end] == b
    requires m' == m[..|front|] + x + m[q..]
    ensures m' == front + x + b + m[end..] && |m'| == |m|
  {
    assert m[q..] == m[q..end] + m[end..];
  }

  /** The old record deleted and the new one behind the rest, in the same block or in a larger one. */
  lemma Moved(m: seq<byte>, c: Container, a: Attr, slack: seq<byte>)
    requires Fits(c) && ValidAttr(a) && |c.attrs| + 1 < U16 && BeginAt(c.tag) < |m| < U32
    requires var i := IndexOf(c.attrs, a.key);
             i < |c.attrs| && |EncodeAttr(c.attrs[i])| != |EncodeAttr(a)| &&
             m == Header(c, |m| - 2) + EncodeAll(c.attrs[..i]) + EncodeAll(c.attrs[i + 1..]) + EncodeAttr(a) + slack
    ensures Holds(m, c.(attrs := Put(c.attrs, a)))
  {
    hide *;
    var i := IndexOf(c.attrs, a.key);
    var d := c.(attrs := Put(c.attrs, a));
    BeginBound(c.tag);
    PutFits(c, a);
    PutSize(c.attrs, a);
    PutAt(c.attrs, a, i);
    SameHeader(c, d, |m| - 2);
    Regroup(Header(c, |m| - 2), EncodeAll(c.attrs[..i]), EncodeAll(c.attrs[i + 1..]), EncodeAttr(a), slack);
    HoldsAssembled(m, d, slack);
  }

  /** The new record behind all others, and one more counted. */
  lemma Appended(m: seq<byte>, c: Container, a: Attr, slack: seq<byte>)
    requires Fits(c) && ValidAttr(a) && |c.attrs| + 1 < U16 && BeginAt(c.tag) < |m| < U32
    requires IndexOf(c.attrs, a.key) == |c.attrs|
    requires m == Header(c.(attrs := c.attrs + [a]), |m| - 2) + EncodeAll(c.attrs) + EncodeAttr(a) + slack
    ensures Holds(m, c.(attrs := Put(c.attrs, a)))
  {
    var d := c.(attrs := Put(c.attrs, a));
    PutFits(c, a);
    EncodeAppend(c.attrs, a);
    assert d.attrs == c.attrs + [a];
    var h, x, y := Header(d, |m| - 2), EncodeAll(c.attrs), EncodeAttr(a);
    hide Header, EncodeAll, EncodeAttr, Fits, Put;
    Associate(h, x, y, slack);
    HoldsAssembled(m, d, slack);
  }

  /** Storing another total length turns one header into the other. */
  lemma HeaderTotal(m: seq<byte>, c: Container, total: nat, more: seq<byte>, total': nat)
    requires m == Header(c, total) + more
    ensures m[..2] + LE32(total') + m[6..] == Header(c, total') + more
  {
    hide LE16, LE32;
    assert m[..2] == LE16(c.flags);
  }

  /** Storing another count does, too. */
  lemma HeaderCount(m: seq<byte>, c: Container, total: nat, more: seq<byte>, d: Container)
    requires m == Header(c, total) + more && d == c.(attrs := d.attrs)
    ensures m[..CountAt(c.tag)] + LE16(|d.attrs|) + m[BeginAt(c.tag)..] == Header(d, total) + more
  {
    hide LE16, LE32;
    var front := LE16(c.flags) + LE32(total) + LE16(|c.tag| + 1) + c.tag + [0];
    assert m[..CountAt(c.tag)] == front;
  }
}
