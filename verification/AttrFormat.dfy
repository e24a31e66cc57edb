/**
 The packed layout of an attribute container and the ordered map it stands for
 (app-framework/app-native-shared/attr_container.c). A container is one block: 2 flag bytes,
 4 bytes of buffer length, 2 bytes of tag length, the tag with its terminator, 2 bytes of
 attribute count, then the attribute records, then slack.
 */
module AttrFormat {
  import opened Bytes
  import Lists

  const TYPE_UINT64 := 7
  const TYPE_FLOAT := 10
  const TYPE_BOOLEAN := 12
  const TYPE_STRING := 13
  const TYPE_BYTEARRAY := 14

  /** An attribute: key, type, and the bytes of its value. */
  datatype Attr = Attr(key: seq<byte>, ty: nat, value: seq<byte>)

  datatype Container = Container(flags: nat, tag: seq<byte>, attrs: seq<Attr>)

  /** 1 << (type & 3), the size of a scalar value. */
  function ScalarSize(ty: nat): nat {
    match ty % 4
    case 0 => 1
    case 1 => 2
    case 2 => 4
    case _ => 8
  }

  /** The value fits the width its type gives it. */
  predicate ValueFits(ty: nat, value: seq<byte>) {
    ty <= TYPE_BYTEARRAY &&
    if ty <= TYPE_BOOLEAN then |value| == ScalarSize(ty)
    else if ty == TYPE_STRING then |value| < U16 else |value| < U32
  }

  predicate KeyFits(key: seq<byte>) { NulFree(key) && |key| + 1 < U16 }

  predicate ValidAttr(a: Attr) { a.key != [] && KeyFits(a.key) && ValueFits(a.ty, a.value) }

  function EncodeKey(key: seq<byte>): seq<byte> { LE16(|key| + 1) + key + [0] }

  function EncodeValue(ty: nat, value: seq<byte>): seq<byte> {
    if ty <= TYPE_BOOLEAN then value
    else if ty == TYPE_STRING then LE16(|value|) + value
    else LE32(|value|) + value
  }

  /** The record of an attribute. */
  function EncodeAttr(a: Attr): (s: seq<byte>) {
    EncodeKey(a.key) + [a.ty % 256] + EncodeValue(a.ty, a.value)
  }

  function EncodeAll(attrs: seq<Attr>): seq<byte> {
    if attrs == [] then [] else EncodeAttr(attrs[0]) + EncodeAll(attrs[1..])
  }

  function Header(c: Container, total: nat): seq<byte> {
    LE16(c.flags) + LE32(total) + LE16(|c.tag| + 1) + c.tag + [0] + LE16(|c.attrs|)
  }

  /** Where the attribute count of a container with this tag is, and where its attributes begin. */
  function CountAt(tag: seq<byte>): nat { 8 + |tag| + 1 }

  function BeginAt(tag: seq<byte>): nat { CountAt(tag) + 2 }

  function EndAt(c: Container): nat { BeginAt(c.tag) + |EncodeAll(c.attrs)| }

  predicate DistinctKeys(attrs: seq<Attr>) {
    forall i, j :: 0 <= i < j < |attrs| ==> attrs[i].key != attrs[j].key
  }

  /** A container that a block can hold: every count and length fits its field. */
  predicate Fits(c: Container) {
    && c.flags < U16 && NulFree(c.tag) && |c.tag| + 1 < U16 && |c.attrs| < U16
    && DistinctKeys(c.attrs) && (forall a :: a in c.attrs ==> ValidAttr(a))
  }

  /** The block `m` holds the container `c`: header, records, and slack up to the stated length. */
  ghost predicate Holds(m: seq<byte>, c: Container) {
    && Fits(c) && BeginAt(c.tag) < |m| < U32 && EndAt(c) <= |m|
    && m[..BeginAt(c.tag)] == Header(c, |m| - 2)
    && m[BeginAt(c.tag)..EndAt(c)] == EncodeAll(c.attrs)
  }

  // ---------- the ordered map ----------

  /** The position of a key, or the number of attributes. */
  function IndexOf(attrs: seq<Attr>, key: seq<byte>): (i: nat)
    ensures i <= |attrs|
    ensures i < |attrs| ==> attrs[i].key == key
    ensures forall j :: 0 <= j < i ==> attrs[j].key != key
  {
    if attrs == [] || attrs[0].key == key then 0 else 1 + IndexOf(attrs[1..], key)
  }

  function Lookup(attrs: seq<Attr>, key: seq<byte>): Option<Attr> {
    var i := IndexOf(attrs, key); if i < |attrs| then Some(attrs[i]) else None
  }

  function Drop(attrs: seq<Attr>, i: nat): seq<Attr>
    requires i < |attrs|
  {
    attrs[..i] + attrs[i + 1..]
  }

  /** Setting an attribute: a record of the same size is replaced in place, any other goes to the end. */
  function Put(attrs: seq<Attr>, a: Attr): seq<Attr> {
    var i := IndexOf(attrs, a.key);
    if i == |attrs| then attrs + [a]
    else if |EncodeAttr(attrs[i])| == |EncodeAttr(a)| then attrs[i := a]
    else Drop(attrs, i) + [a]
  }

  lemma LookupByMember(attrs: seq<Attr>, x: Attr)
    requires DistinctKeys(attrs) && x in attrs
    ensures Lookup(attrs, x.key) == Some(x)
  {
  }

  lemma LookupAbsent(attrs: seq<Attr>, key: seq<byte>)
    requires forall x :: x in attrs ==> x.key != key
    ensures Lookup(attrs, key) == None
  {
  }

  /** Setting leaves the attribute set and those with another key. */
  lemma PutMembers(attrs: seq<Attr>, a: Attr)
    requires DistinctKeys(attrs)
    ensures DistinctKeys(Put(attrs, a))
    ensures forall x :: x in Put(attrs, a) <==> x == a || (x in attrs && x.key != a.key)
  {
    hide EncodeAttr;
    var i := IndexOf(attrs, a.key);
    var after := Put(attrs, a);
    if i < |attrs| {
      assert after[if after == attrs[i := a] then i else |after| - 1] == a;
      forall x | x in attrs && x.key != a.key ensures x in after {
        var k :| 0 <= k < |attrs| && attrs[k] == x;
        assert after[if after == attrs[i := a] || k < i then k else k - 1] == x;
      }
    }
  }

  /** The attribute that was set is found, every other key keeps its type and bytes, and keys stay distinct. */
  lemma PutIsMapUpdate(attrs: seq<Attr>, a: Attr, key: seq<byte>)
    requires DistinctKeys(attrs)
    ensures DistinctKeys(Put(attrs, a))
    ensures Lookup(Put(attrs, a), key) == if key == a.key then Some(a) else Lookup(attrs, key)
  {
    PutMembers(attrs, a);
    var after := Put(attrs, a);
    hide Put;
    if key == a.key {
      LookupByMember(after, a);
    } else if Lookup(attrs, key).Some? {
      LookupByMember(after, Lookup(attrs, key).value);
    } else {
      assert forall x :: x in attrs ==> x.key != key;
      LookupAbsent(after, key);
    }
  }

  function KeyIs(key: seq<byte>): Attr -> bool { (a: Attr) => a.key == key }

  /** The other attributes keep their order. */
  lemma PutKeepsOthers(attrs: seq<Attr>, a: Attr)
    ensures Lists.Others(Put(attrs, a), KeyIs(a.key)) == Lists.Others(attrs, KeyIs(a.key))
  {
    hide EncodeAttr, IndexOf;
    var i, f := IndexOf(attrs, a.key), KeyIs(a.key);
    if i == |attrs| {
      Lists.OthersOfConcat(attrs, [a], f);
    } else {
      var pre, post := attrs[..i], attrs[i + 1..];
      Lists.SplitAt(attrs, i);
      assert attrs[i := a] == pre + ([a] + post);
      OthersAround(pre, attrs[i], post, a.key);
      OthersAround(pre, a, post, a.key);
      OthersAround(pre + post, a, [], a.key);
      assert [a] + [] == [a] && Lists.Others(pre + post, f) + [] == Lists.Others(pre + post, f);
      Lists.OthersOfConcat(pre, post, f);
      hide Lists.Others;
    }
  }

  lemma OthersAround(pre: seq<Attr>, x: Attr, post: seq<Attr>, key: seq<byte>)
    requires x.key == key
    ensures Lists.Others(pre + ([x] + post), KeyIs(key)) == Lists.Others(pre, KeyIs(key)) + Lists.Others(post, KeyIs(key))
  {
    assert ([x] + post)[1..] == post;
    assert [] + Lists.Others(post, KeyIs(key)) == Lists.Others(post, KeyIs(key));
    Lists.OthersOfConcat(pre, [x] + post, KeyIs(key));
  }

  // ---------- encoding lemmas ----------

  lemma {:induction false} EncodeConcat(a: seq<Attr>, b: seq<Attr>)
    ensures EncodeAll(a + b) == EncodeAll(a) + EncodeAll(b)
  {
    if a == [] {
      assert a + b == b;
    } else {
      assert (a + b)[1..] == a[1..] + b;
      EncodeConcat(a[1..], b);
    }
  }

  lemma EncodeHead(attrs: seq<Attr>, i: nat)
    requires i < |attrs|
    ensures EncodeAll(attrs[i..]) == EncodeAttr(attrs[i]) + EncodeAll(attrs[i + 1..])
  {
    assert attrs[i..][1..] == attrs[i + 1..];
  }

  /** The records before, at and after position `i`. */
  lemma EncodeSplit(attrs: seq<Attr>, i: nat)
    requires i < |attrs|
    ensures EncodeAll(attrs) == EncodeAll(attrs[..i]) + EncodeAttr(attrs[i]) + EncodeAll(attrs[i + 1..])
  {
    assert attrs == attrs[..i] + attrs[i..];
    EncodeConcat(attrs[..i], attrs[i..]);
    EncodeHead(attrs, i);
    hide EncodeAttr, EncodeAll;
  }

  lemma EncodeNext(attrs: seq<Attr>, i: nat)
    requires i < |attrs|
    ensures EncodeAll(attrs[..i + 1]) == EncodeAll(attrs[..i]) + EncodeAttr(attrs[i])
  {
    assert attrs[..i + 1] == attrs[..i] + [attrs[i]];
    EncodeAppend(attrs[..i], attrs[i]);
  }

  lemma EncodeOne(a: Attr)
    ensures EncodeAll([a]) == EncodeAttr(a)
  {
    assert EncodeAll([a]) == EncodeAttr(a) + EncodeAll([]);
  }

  lemma EncodeAppend(attrs: seq<Attr>, a: Attr)
    ensures EncodeAll(attrs + [a]) == EncodeAll(attrs) + EncodeAttr(a)
  {
    EncodeConcat(attrs, [a]);
    EncodeOne(a);
  }

  // ---------- the reader ----------

  /** Reads one record at the head of `s`: the attribute and its length. */
  function ReadAttr(s: seq<byte>): Option<(Attr, nat)> {
    if |s| < 2 then None
    else
      var n := FromLE16(s[..2]);
      if n == 0 || |s| < 2 + n + 1 then None
      else
        var key, ty, at := s[2..2 + n - 1], s[2 + n], 3 + n;
        if ty <= TYPE_BOOLEAN then ReadBytes(s, at, key, ty, ScalarSize(ty))
        else if ty == TYPE_STRING then if |s| < at + 2 then None else ReadBytes(s, at + 2, key, ty, FromLE16(s[at..at + 2]))
        else if ty == TYPE_BYTEARRAY then if |s| < at + 4 then None else ReadBytes(s, at + 4, key, ty, FromLE32(s[at..at + 4]))
        else None
  }

  function ReadBytes(s: seq<byte>, at: nat, key: seq<byte>, ty: nat, n: nat): Option<(Attr, nat)> {
    if |s| < at + n then None else Some((Attr(key, ty, s[at..at + n]), at + n))
  }

  function ReadAll(s: seq<byte>, n: nat): Option<seq<Attr>> {
    if n == 0 then Some([])
    else match ReadAttr(s)
      case None => None
      case Some((a, len)) =>
        if len > |s| then None
        else match ReadAll(s[len..], n - 1)
          case None => None
          case Some(rest) => Some([a] + rest)
  }

  /** Reads a whole block. */
  function Read(m: seq<byte>): Option<Container> {
    if |m| < 8 then None
    else
      var n := FromLE16(m[6..8]);
      if n == 0 || |m| < 8 + n + 2 || FromLE32(m[2..6]) != |m| - 2 then None
      else match ReadAll(m[8 + n + 2..], FromLE16(m[8 + n..8 + n + 2]))
        case None => None
        case Some(attrs) => Some(Container(FromLE16(m[..2]), m[8..8 + n - 1], attrs))
  }

  lemma KeyBytes(a: Attr, s: seq<byte>)
    requires KeyFits(a.key) && a.ty < 256
    requires s == EncodeKey(a.key) + [a.ty % 256] + EncodeValue(a.ty, a.value)
    ensures var n := |a.key| + 1;
            |s| >= 3 + n && FromLE16(s[..2]) == n && s[2..2 + n - 1] == a.key && s[2 + n] == a.ty && s[2 + n - 1] == 0 &&
            s[3 + n..] == EncodeValue(a.ty, a.value)
  {
    Stored16(|a.key| + 1);
    hide LE16, FromLE16, EncodeValue;
    assert s[..2] == LE16(|a.key| + 1);
  }

  /** The same of the record of an attribute. */
  lemma AttrBytes(a: Attr)
    requires ValidAttr(a)
    ensures var e, n := EncodeAttr(a), |a.key| + 1;
            |e| >= 3 + n && FromLE16(e[..2]) == n && e[2..2 + n - 1] == a.key && e[2 + n] == a.ty && e[2 + n - 1] == 0 &&
            e[3 + n..] == EncodeValue(a.ty, a.value)
  {
    KeyBytes(a, EncodeAttr(a));
    hide FromLE16, EncodeKey, EncodeValue;
  }

  /** A value behind its length field, or without one, is read back. */
  lemma ValueBytes(ty: nat, value: seq<byte>, rest: seq<byte>)
    requires ValueFits(ty, value)
    ensures var v := EncodeValue(ty, value) + rest;
            if ty <= TYPE_BOOLEAN then |v| >= |value| && v[..|value|] == value && |EncodeValue(ty, value)| == ScalarSize(ty)
            else if ty == TYPE_STRING
            then |v| >= 2 + |value| && FromLE16(v[..2]) == |value| && v[2..2 + |value|] == value && |EncodeValue(ty, value)| == 2 + |value|
            else |v| >= 4 + |value| && FromLE32(v[..4]) == |value| && v[4..4 + |value|] == value && |EncodeValue(ty, value)| == 4 + |value|
  {
    Stored16(|value|);
    Stored32(|value|);
    hide LE16, LE32, FromLE16, FromLE32;
    var v := EncodeValue(ty, value) + rest;
    if ty == TYPE_STRING {
      assert v[..2] == LE16(|value|);
    } else if ty == TYPE_BYTEARRAY {
      assert v[..4] == LE32(|value|);
    }
  }

  /** Reading by the key part and the value part of a record. */
  lemma ReadByParts(s: seq<byte>, key: seq<byte>, ty: nat, v: seq<byte>)
    requires var n := |key| + 1;
             |s| >= 3 + n && FromLE16(s[..2]) == n && s[2..2 + n - 1] == key && s[2 + n] == ty && s[3 + n..] == v
    ensures var at := |key| + 4;
            (ty <= TYPE_BOOLEAN && |v| >= ScalarSize(ty) ==>
              ReadAttr(s) == Some((Attr(key, ty, v[..ScalarSize(ty)]), at + ScalarSize(ty)))) &&
            (ty == TYPE_STRING && |v| >= 2 && |v| >= 2 + FromLE16(v[..2]) ==>
              ReadAttr(s) == Some((Attr(key, ty, v[2..2 + FromLE16(v[..2])]), at + 2 + FromLE16(v[..2])))) &&
            (ty == TYPE_BYTEARRAY && |v| >= 4 && |v| >= 4 + FromLE32(v[..4]) ==>
              ReadAttr(s) == Some((Attr(key, ty, v[4..4 + FromLE32(v[..4])]), at + 4 + FromLE32(v[..4]))))
  {
    hide FromLE16, FromLE32;
    var at := |key| + 4;
    assert |s| == at + |v|;
    if ty <= TYPE_BOOLEAN && |v| >= ScalarSize(ty) {
      SubSlice(s, at, v, 0, ScalarSize(ty));
    } else if ty == TYPE_STRING && |v| >= 2 {
      SubSlice(s, at, v, 0, 2);
      if |v| >= 2 + FromLE16(v[..2]) { SubSlice(s, at, v, 2, 2 + FromLE16(v[..2])); }
    } else if ty == TYPE_BYTEARRAY && |v| >= 4 {
      SubSlice(s, at, v, 0, 4);
      if |v| >= 4 + FromLE32(v[..4]) { SubSlice(s, at, v, 4, 4 + FromLE32(v[..4])); }
    }
  }

  lemma SubSlice(s: seq<byte>, at: nat, v: seq<byte>, i: nat, j: nat)
    requires at <= |s| && s[at..] == v && i <= j <= |v|
    ensures s[at + i..at + j] == v[i..j]
  {
    assert forall k :: i <= k < j ==> s[at + k] == v[k];
  }

  /** A record is read back, whatever follows it. */
  lemma ReadInvertsEncode(a: Attr, rest: seq<byte>)
    requires ValidAttr(a)
    ensures ReadAttr(EncodeAttr(a) + rest) == Some((a, |EncodeAttr(a)|))
  {
    var e := EncodeAttr(a);
    AttrBytes(a);
    ValueBytes(a.ty, a.value, rest);
    hide FromLE16, FromLE32, EncodeAttr, ReadAttr, EncodeValue, NulFree;
    var n := |a.key| + 1;
    var v := EncodeValue(a.ty, a.value) + rest;
    Extended(e, rest, n);
    assert e[3 + n..] + rest == v;
    ReadByParts(e + rest, a.key, a.ty, v);
    assert |e| == 3 + n + |EncodeValue(a.ty, a.value)|;
  }

  lemma Extended(e: seq<byte>, rest: seq<byte>, n: nat)
    requires n > 0 && |e| >= 3 + n
    ensures var s := e + rest;
            s[..2] == e[..2] && s[2..2 + n - 1] == e[2..2 + n - 1] && s[2 + n] == e[2 + n] && s[3 + n..] == e[3 + n..] + rest
  {
  }

  lemma {:induction false} ReadAllInvertsEncode(attrs: seq<Attr>, rest: seq<byte>)
    requires forall a :: a in attrs ==> ValidAttr(a)
    ensures ReadAll(EncodeAll(attrs) + rest, |attrs|) == Some(attrs)
    decreases |attrs|
  {
    hide EncodeAttr, ReadAttr;
    if attrs != [] {
      var e, tail := EncodeAttr(attrs[0]), EncodeAll(attrs[1..]) + rest;
      assert EncodeAll(attrs) + rest == e + tail;
      ReadInvertsEncode(attrs[0], tail);
      ReadAllInvertsEncode(attrs[1..], rest);
      assert (e + tail)[|e|..] == tail;
      assert [attrs[0]] + attrs[1..] == attrs;
    }
  }

  lemma HeaderFields(m: seq<byte>, c: Container, total: nat)
    requires c.flags < U16 && |c.tag| + 1 < U16 && |c.attrs| < U16 && total < U32
    requires |m| >= BeginAt(c.tag) && m[..BeginAt(c.tag)] == Header(c, total)
    ensures var n := |c.tag| + 1;
            FromLE16(m[..2]) == c.flags && FromLE32(m[2..6]) == total && FromLE16(m[6..8]) == n &&
            m[8..8 + n - 1] == c.tag && m[8 + n - 1] == 0 && FromLE16(m[8 + n..8 + n + 2]) == |c.attrs|
  {
    Stored16(c.flags);
    Stored16(|c.tag| + 1);
    Stored16(|c.attrs|);
    Stored32(total);
    HeaderBytes(m, c, total);
    hide LE16, LE32, FromLE16, FromLE32, Header;
  }

  lemma HeaderBytes(m: seq<byte>, c: Container, total: nat)
    requires |m| >= BeginAt(c.tag) && m[..BeginAt(c.tag)] == Header(c, total)
    ensures var n := |c.tag| + 1;
            m[..2] == LE16(c.flags) && m[2..6] == LE32(total) && m[6..8] == LE16(n) &&
            m[8..8 + n - 1] == c.tag && m[8 + n - 1] == 0 && m[8 + n..8 + n + 2] == LE16(|c.attrs|)
  {
    hide LE16, LE32;
    HeaderSlices(m, LE16(c.flags), LE32(total), LE16(|c.tag| + 1), c.tag, LE16(|c.attrs|));
  }

  lemma HeaderSlices(m: seq<byte>, flags: seq<byte>, total: seq<byte>, length: seq<byte>, tag: seq<byte>, count: seq<byte>)
    requires |flags| == |length| == |count| == 2 && |total| == 4 && |m| >= 11 + |tag|
    requires m[..11 + |tag|] == flags + total + length + tag + [0] + count
    ensures m[..2] == flags && m[2..6] == total && m[6..8] == length
    ensures m[8..8 + |tag|] == tag && m[8 + |tag|] == 0 && m[9 + |tag|..11 + |tag|] == count
  {
    Lists.Suffix(m, flags + total + length + tag + [0], count);
    Lists.Suffix(m, flags + total + length + tag, [0]);
    Lists.Suffix(m, flags + total + length, tag);
    Lists.Suffix(m, flags + total, length);
    Lists.Suffix(m, flags, total);
    assert m[8 + |tag|] == m[8 + |tag|..9 + |tag|][0];
  }

  /** The block determines the container it holds: reading it gives that container. */
  lemma ReadFindsHeld(m: seq<byte>, c: Container)
    requires Holds(m, c)
    ensures Read(m) == Some(c)
  {
    hide Header, EncodeAll, FromLE16, FromLE32, ReadAll;
    var begin := BeginAt(c.tag);
    HeaderFields(m, c, |m| - 2);
    assert m[begin..] == EncodeAll(c.attrs) + m[EndAt(c)..] by {
      assert m[begin..EndAt(c)] + m[EndAt(c)..] == m[begin..];
    }
    ReadAllInvertsEncode(c.attrs, m[EndAt(c)..]);
  }

  /**
   Why the length of a string must fit 16 bits: the stored length is cut to 16 bits, and the
   record is read back as the attribute written exactly when nothing was cut.
   */
  lemma StringLengthMustFit(a: Attr)
    requires a.key != [] && KeyFits(a.key) && a.ty == TYPE_STRING
    ensures ReadAttr(EncodeAttr(a)) == Some((a, |EncodeAttr(a)|)) <==> |a.value| < U16
  {
    var e := EncodeAttr(a);
    if |a.value| < U16 {
      ReadInvertsEncode(a, []);
      assert e + [] == e;
    } else {
      KeyBytes(a, e);
      Stored16(|a.value|);
      hide LE16, FromLE16, EncodeAttr, EncodeKey;
      var n := |a.key| + 1;
      assert e[3 + n..5 + n] == e[3 + n..][..2] == LE16(|a.value|);
    }
  }
}
