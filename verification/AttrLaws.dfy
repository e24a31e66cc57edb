/**
 The attribute container in plain numbers: sizes and codes of types, the bytes of a record and of
 a block, the flags, and when a block has room
 (app-framework/app-native-shared/attr_container.c, bi-inc/attr_container.h).
 */
module AttrLaws {
  import opened Bytes
  import opened AttrFormat
  import opened AttrContainer
  import opened AttrRuns

  /** Values of the scalar types are 1, 2, 4 or 8 bytes long, and those of the other two have a length field. */
  lemma WidthOfTypes(ty: nat, value: seq<byte>)
    ensures ValueFits(ty, value) <==>
            || (ty in {0, 4, 8, 12} && |value| == 1) || (ty in {1, 5, 9} && |value| == 2)
            || (ty in {2, 6, 10} && |value| == 4) || (ty in {3, 7, 11} && |value| == 8)
            || (ty == 13 && |value| < 65536) || (ty == 14 && |value| < 4294967296)
  {
  }

  /** What can be set: any key of at most 65534 bytes that is not empty and has no NUL, with such a value. */
  lemma WhatCanBeSet(a: Attr)
    ensures ValidAttr(a) <==> 0 < |a.key| <= 65534 && 0 !in a.key && ValueFits(a.ty, a.value)
  {
  }

  /** The record of an attribute: length of the key with its terminator, key, type, and the value, behind its length if that varies. */
  lemma RecordBytes(a: Attr)
    requires ValidAttr(a)
    ensures var n, v := |a.key| + 1, |a.value|;
            EncodeAttr(a) == [n % 256, n / 256] + a.key + [0, a.ty] +
              if a.ty <= 12 then a.value
              else if a.ty == 13 then [v % 256, v / 256] + a.value
              else [v % 256, v / 256 % 256, v / 65536 % 256, v / 16777216] + a.value
  {
    hide NulFree;
    FourBytes(|a.value|);
    var v := EncodeValue(a.ty, a.value);
    hide EncodeValue;
    assert [0, a.ty] + v == [0] + [a.ty] + v;
  }

  lemma FourBytes(v: nat)
    requires v < 4294967296
    ensures LE32(v) == [v % 256, v / 256 % 256, v / 65536 % 256, v / 16777216]
    ensures v < 65536 ==> LE16(v) == [v % 256, v / 256]
  {
    var h := v / 65536;
    assert v == 65536 * h + v % 65536 && h == 256 * (h / 256) + h % 256;
    assert v / 16777216 == h / 256;
  }

  /** The block: flags, its length without them, length of the tag with its terminator, tag, number of attributes, records. */
  lemma BlockBytes(m: seq<byte>, c: Container)
    requires Holds(m, c)
    ensures var t, n, l := |c.tag| + 1, |c.attrs|, |m| - 2;
            && m[..11 + |c.tag|] == [c.flags % 256, c.flags / 256] + [l % 256, l / 256 % 256, l / 65536 % 256, l / 16777216]
                 + [t % 256, t / 256] + c.tag + [0] + [n % 256, n / 256]
            && EncodeAll(c.attrs) <= m[11 + |c.tag|..]
  {
    assert EncodeAll(c.attrs) == m[11 + |c.tag|..][..|EncodeAll(c.attrs)|];
    hide EncodeAll, NulFree, DistinctKeys, ValidAttr;
    FourBytes(|m| - 2);
    FourBytes(c.flags);
    FourBytes(|c.tag| + 1);
    FourBytes(|c.attrs|);
  }

  /** Setting is refused by the flag of value 2, a copy is constant by the one of value 4, and serializing sets that one. */
  lemma FlagsInNumbers(flags: nat)
    ensures RefusesSet(flags) <==> flags % 4 >= 2
    ensures ReadonlyFlag(flags) <==> flags % 8 >= 4
    ensures WithReadonly(flags) == if flags % 8 >= 4 then flags else flags + 4
  {
    RefusingBit(flags);
    BitTwo(flags);
    hide RefusesSet, ReadonlyFlag;
  }

  lemma BitTwo(flags: nat)
    ensures ReadonlyFlag(flags) <==> flags % 8 >= 4
  {
  }

  // ---------- room and order ----------

  /** The length of a record. */
  function Size(a: Attr): nat {
    |a.key| + 4 + |a.value| + if a.ty <= 12 then 0 else if a.ty == 13 then 2 else 4
  }

  function Sizes(attrs: seq<Attr>): nat {
    if attrs == [] then 0 else Size(attrs[0]) + Sizes(attrs[1..])
  }

  lemma RecordSize(a: Attr)
    ensures |EncodeAttr(a)| == Size(a)
  {
  }

  lemma {:induction false} RecordSizes(attrs: seq<Attr>)
    ensures |EncodeAll(attrs)| == Sizes(attrs)
  {
    hide EncodeAttr, Size;
    if attrs != [] {
      RecordSize(attrs[0]);
      RecordSizes(attrs[1..]);
    }
  }

  /** The attribute at `i` is the first with the key. */
  predicate KeyAt(attrs: seq<Attr>, key: seq<byte>, i: nat) {
    i < |attrs| && attrs[i].key == key && forall j :: 0 <= j < i ==> attrs[j].key != key
  }

  predicate NoKey(attrs: seq<Attr>, key: seq<byte>) {
    forall j :: 0 <= j < |attrs| ==> attrs[j].key != key
  }

  /** A block has room when header and records, without the one that is replaced, leave enough of it, or that one is of the same size. */
  lemma RoomInNumbers(c: Container, length: nat, a: Attr)
    ensures NoKey(c.attrs, a.key) ==> (HasRoom(c, length, a) <==> 11 + |c.tag| + Sizes(c.attrs) + Size(a) <= length)
    ensures forall i: nat :: KeyAt(c.attrs, a.key, i) ==>
              (HasRoom(c, length, a) <==>
               Size(c.attrs[i]) == Size(a) || 11 + |c.tag| + Sizes(c.attrs) - Size(c.attrs[i]) + Size(a) <= length)
  {
    KeyFound(c.attrs, a.key);
    RoomBySizes(c, length, a);
    hide *;
  }

  lemma RoomBySizes(c: Container, length: nat, a: Attr)
    ensures var i, used := IndexOf(c.attrs, a.key), 11 + |c.tag| + Sizes(c.attrs);
            HasRoom(c, length, a) <==>
            if i == |c.attrs| then used + Size(a) <= length
            else Size(c.attrs[i]) == Size(a) || used - Size(c.attrs[i]) + Size(a) <= length
  {
    RecordSizes(c.attrs);
    RecordSize(a);
    var i := IndexOf(c.attrs, a.key);
    if i < |c.attrs| { RecordSize(c.attrs[i]); }
    hide EncodeAttr, Size, EncodeAll, IndexOf;
  }

  lemma KeyFound(attrs: seq<Attr>, key: seq<byte>)
    ensures NoKey(attrs, key) <==> IndexOf(attrs, key) == |attrs|
    ensures forall i: nat :: KeyAt(attrs, key, i) ==> i == IndexOf(attrs, key) < |attrs|
  {
  }

  /** A value of the same size stays in its place, any other goes to the end. */
  lemma PlaceOfSet(attrs: seq<Attr>, a: Attr)
    ensures NoKey(attrs, a.key) ==> Put(attrs, a) == attrs + [a]
    ensures forall i: nat :: KeyAt(attrs, a.key, i) ==>
              Put(attrs, a) == if Size(attrs[i]) == Size(a) then attrs[..i] + [a] + attrs[i + 1..]
                               else attrs[..i] + attrs[i + 1..] + [a]
  {
    KeyFound(attrs, a.key);
    PutBySizes(attrs, a);
    hide *;
  }

  lemma PutBySizes(attrs: seq<Attr>, a: Attr)
    ensures var i := IndexOf(attrs, a.key);
            Put(attrs, a) == if i == |attrs| then attrs + [a]
                             else if Size(attrs[i]) == Size(a) then attrs[..i] + [a] + attrs[i + 1..]
                             else attrs[..i] + attrs[i + 1..] + [a]
  {
    hide EncodeAttr, Size, IndexOf;
    var i := IndexOf(attrs, a.key);
    if i < |attrs| {
      RecordSize(a);
      RecordSize(attrs[i]);
      Replacing(attrs, i, a);
    }
  }

  lemma Replacing(attrs: seq<Attr>, i: nat, a: Attr)
    requires i < |attrs|
    ensures attrs[i := a] == attrs[..i] + [a] + attrs[i + 1..]
  {
  }

  /** The last attribute of a run with a key, by position. */
  lemma {:induction false} LastSetIsLast(sets: seq<Attr>, key: seq<byte>, i: nat)
    requires i < |sets| && sets[i].key == key && forall j :: i < j < |sets| ==> sets[j].key != key
    ensures LastSet(sets, key) == Some(sets[i])
  {
    var n := |sets| - 1;
    if i < n {
      assert sets[n].key != key;
      LastSetIsLast(sets[..n], key, i);
    }
  }

  lemma {:induction false} NeverSet(sets: seq<Attr>, key: seq<byte>)
    requires NoKey(sets, key)
    ensures LastSet(sets, key) == None
  {
    if sets != [] {
      NeverSet(sets[..|sets| - 1], key);
    }
  }
}
