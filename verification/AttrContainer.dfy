/**
 The attribute container in its own form: one block edited in place, replaced by a larger one
 when it is full (app-framework/app-native-shared/attr_container.c). `mem` is the block the
 container handle points at, its first two bytes are the flags.
 */
module AttrContainer {
  import opened Bytes
  import opened AttrFormat
  import opened AttrLayout
  import Lists
  import Memory

  /** What a grown block has beyond the record that did not fit. */
  const RESERVED := 100

  /** Bit 2 of the flags: the one a serialized copy gets. */
  predicate ReadonlyFlag(flags: nat) { (flags / 4) % 2 == 1 }

  /** The bit that check_set_attr tests: it masks with the shift count, so it sees bit 1. */
  predicate RefusesSet(flags: nat) { (flags / 2) % 2 == 1 }

  lemma RefusingBit(flags: nat)
    ensures RefusesSet(flags) <==> flags % 4 >= 2
  {
  }

  /** The first `n` bytes of a value, with zeros for those it does not have. */
  function Padded(value: seq<byte>, n: nat): (r: seq<byte>)
    ensures |r| == n
  {
    if |value| >= n then value[..n] else value + Memory.Zeros(n - |value|)
  }

  /** The types that the getters know. Codes 8 and 9 stand for none, but setting takes them. */
  predicate Gettable(ty: nat) { ty <= TYPE_UINT64 || TYPE_FLOAT <= ty <= TYPE_BYTEARRAY }

  /** What the byte array getter gives for an attribute. */
  function BytesOf(x: Option<Attr>): Option<seq<byte>> {
    if x.Some? && Gettable(x.value.ty) then Some(x.value.value) else None
  }

  /**
   What a getter `width` bytes wide reads from an attribute. bh_memcpy_s is not part of this
   model; it is taken to copy nothing when the scalar is wider than the getter.
   */
  function ScalarOf(x: Option<Attr>, width: nat): (r: seq<byte>)
    ensures |r| == width
  {
    if x.None? || !Gettable(x.value.ty) || (x.value.ty <= TYPE_BOOLEAN && |x.value.value| > width) then Memory.Zeros(width)
    else Padded(x.value.value, width)
  }

  class Handle {
    var mem: array<byte>
    ghost var model: Container

    ghost predicate Valid()
      reads this, mem
    {
      Holds(mem[..], model)
    }

    /** attr_container_create; a null tag is stored as the empty one. */
    constructor (tag: Option<seq<byte>>)
      requires tag.Some? ==> KeyFits(tag.value)
      ensures Valid() && fresh(mem)
      ensures model == Container(0, if tag.Some? then tag.value else [], [])
      ensures mem.Length == 2 + 4 + 2 + |model.tag| + 1 + 100
    {
      var text := if tag.Some? then tag.value else [];
      var tagLength := |text| + 1;
      var length := 2 + 4 + 2 + tagLength + RESERVED;
      var m := new byte[length];
      mem := m;
      model := Container(0, text, []);
      new;
      FillEmpty(m, text);
      EmptyHeader(m[..], text);
      HoldsAssembled(m[..], model, m[BeginAt(text)..]);
      hide *;
    }

    /** Key found, record of the same size: overwrite it in place. */
    method Overwrite(p: nat, record: seq<byte>, ghost a: Attr, ghost i: nat)
      requires Valid() && Settable(model, mem.Length, a) && record == EncodeAttr(a)
      requires i == IndexOf(model.attrs, a.key) < |model.attrs| && p == RecordAt(model, i)
      requires |EncodeAttr(model.attrs[i])| == |record|
      modifies this, mem
      ensures Valid() && mem == old(mem) && model == old(model).(attrs := Put(old(model.attrs), a))
    {
      hide Holds, Header, EncodeAll, EncodeAttr, Fits, Put, RecordAt, EndAt, BeginAt, CountAt, ValidAttr, IndexOf, LE32;
      ghost var m := mem[..];
      Around(m, model, i);
      Memory.CopyInto(mem, p, record);
      Overwritten(m, model, a, i, mem[..]);
      model := model.(attrs := Put(model.attrs, a));
    }

    /** Key found, another size, and room without the old record: close the gap and append. */
    method Shift(p: nat, p1: nat, end: nat, record: seq<byte>, ghost a: Attr, ghost i: nat)
      requires Valid() && Settable(model, mem.Length, a) && record == EncodeAttr(a)
      requires i == IndexOf(model.attrs, a.key) < |model.attrs| && p == RecordAt(model, i) && p1 == RecordAt(model, i + 1)
      requires end == EndAt(model) && |EncodeAttr(model.attrs[i])| != |record|
      requires mem.Length - end + (p1 - p) >= |record|
      modifies this, mem
      ensures Valid() && mem == old(mem) && model == old(model).(attrs := Put(old(model.attrs), a))
    {
      hide Holds, Header, EncodeAll, EncodeAttr, Fits, Put, RecordAt, EndAt, BeginAt, CountAt, ValidAttr, IndexOf, LE32;
      ghost var m := mem[..];
      Around(m, model, i);
      HoldsBounds(m, model);
      BeginBound(model.tag);
      ghost var slack := CloseGap(mem, p, p1, end, record);
      Moved(mem[..], model, a, slack);
      model := model.(attrs := Put(model.attrs, a));
    }

    /** Key found, no room: a larger block with the other records and then the new one. */
    method GrowAndReplace(p: nat, p1: nat, end: nat, record: seq<byte>, ghost a: Attr, ghost i: nat)
      requires Valid() && Settable(model, mem.Length, a) && record == EncodeAttr(a)
      requires i == IndexOf(model.attrs, a.key) < |model.attrs| && p == RecordAt(model, i) && p1 == RecordAt(model, i + 1)
      requires end == EndAt(model) && |EncodeAttr(model.attrs[i])| != |record|
      modifies this
      ensures Valid() && fresh(mem) && mem.Length == old(mem.Length) + |record| + RESERVED
      ensures model == old(model).(attrs := Put(old(model.attrs), a))
    {
      hide Holds, Header, EncodeAll, EncodeAttr, Fits, Put, RecordAt, EndAt, BeginAt, CountAt, ValidAttr, IndexOf, LE32;
      ghost var m := mem[..];
      Around(m, model, i);
      HoldsBounds(m, model);
      BeginBound(model.tag);
      assert mem[..p] == m[..p] && mem[p1..end] == m[p1..end];
      var grown, slack := NewBlock(mem.Length + |record| + RESERVED, mem[..p], mem[p1..end], record);
      SetTotal(grown, model, |m| - 2, EncodeAll(model.attrs[..i]), EncodeAll(model.attrs[i + 1..]), record, slack);
      Moved(grown[..], model, a, slack);
      mem := grown;
      model := model.(attrs := Put(model.attrs, a));
    }

    /** Key not found, room behind the records. */
    method Append(end: nat, record: seq<byte>, ghost a: Attr)
      requires Valid() && Settable(model, mem.Length, a) && record == EncodeAttr(a)
      requires IndexOf(model.attrs, a.key) == |model.attrs| && end == EndAt(model) && mem.Length - end >= |record|
      modifies this, mem
      ensures Valid() && mem == old(mem) && model == old(model).(attrs := Put(old(model.attrs), a))
    {
      hide Holds, Header, EncodeAll, EncodeAttr, Fits, Put, RecordAt, EndAt, BeginAt, CountAt, ValidAttr, IndexOf, LE32;
      ghost var m := mem[..];
      HoldsBounds(m, model);
      BeginBound(model.tag);
      HeaderRead(m, model);
      Disassemble(m, model);
      Memory.CopyInto(mem, end, record);
      ghost var g := mem[..];
      ghost var slack := m[end + |record|..];
      assert m[..end] == Header(model, |m| - 2) + EncodeAll(model.attrs);
      assert g == Header(model, |m| - 2) + EncodeAll(model.attrs) + record + slack;
      IncAttrNum(mem, model, |m| - 2, EncodeAll(model.attrs), record, slack);
      Appended(mem[..], model, a, slack);
      model := model.(attrs := Put(model.attrs, a));
    }

    /** Key not found, no room: a larger block. */
    method GrowAndAppend(end: nat, record: seq<byte>, ghost a: Attr)
      requires Valid() && Settable(model, mem.Length, a) && record == EncodeAttr(a)
      requires IndexOf(model.attrs, a.key) == |model.attrs| && end == EndAt(model)
      modifies this
      ensures Valid() && fresh(mem) && mem.Length == old(mem.Length) + |record| + RESERVED
      ensures model == old(model).(attrs := Put(old(model.attrs), a))
    {
      hide Holds, Header, EncodeAll, EncodeAttr, Fits, Put, RecordAt, EndAt, BeginAt, CountAt, ValidAttr, IndexOf, LE32;
      ghost var m := mem[..];
      HoldsBounds(m, model);
      BeginBound(model.tag);
      Disassemble(m, model);
      assert mem[..end] == m[..end] == Header(model, |m| - 2) + EncodeAll(model.attrs);
      var grown, slack := NewBlock(mem.Length + |record| + RESERVED, mem[..end], [], record);
      IncAttrNum(grown, model, |m| - 2, EncodeAll(model.attrs), record, slack);
      SetTotal(grown, model.(attrs := model.attrs + [a]), |m| - 2, EncodeAll(model.attrs), [], record, slack);
      Appended(grown[..], model, a, slack);
      mem := grown;
      model := model.(attrs := Put(model.attrs, a));
    }

    /**
     attr_container_set_attr. `gotRecord` and `gotBlock` say whether the allocator serves the
     record and, when the block is full, the larger block. Success sets the attribute as in
     the ordered map; a refusal changes nothing; only a full block is exchanged for a larger one.
     */
    method SetAttr(key: seq<byte>, ty: nat, value: seq<byte>, gotRecord: bool, gotBlock: bool) returns (ok: bool)
      requires Valid() && KeyFits(key) && ValueFits(ty, value)
      requires key != [] ==> Settable(model, mem.Length, Attr(key, ty, value))
      modifies this, mem
      ensures Valid()
      ensures ok <==> key != [] && old(model).flags % 4 < 2 && gotRecord &&
                      (gotBlock || HasRoom(old(model), old(mem.Length), Attr(key, ty, value)))
      ensures ok ==> model == old(model).(attrs := Put(old(model).attrs, Attr(key, ty, value)))
      ensures !ok ==> model == old(model) && mem == old(mem) && mem[..] == old(mem[..])
      ensures if ok && !HasRoom(old(model), old(mem.Length), Attr(key, ty, value))
              then fresh(mem) && mem.Length == old(mem.Length) + |EncodeAttr(Attr(key, ty, value))| + 100
              else mem == old(mem)
    {
      hide Holds, EncodeAll, EncodeAttr, RecordAt, EndAt, FromLE16, FromLE32, ValueFits;
      if key == [] {
        return false;
      }
      HeaderRead(mem[..], model);
      FlagsWord(mem[..]);
      RefusingBit(model.flags);
      if RefusesSet(FromLE32(mem[..4])) {
        return false;
      }
      ghost var a := Attr(key, ty, value);
      ghost var i := IndexOf(model.attrs, key);
      var end := GetAttrEnd(mem[..], model);
      if end.None? || !gotRecord {
        return false;
      }
      var record := EncodeRecord(key, ty, value);
      var found := FindAttr(mem[..], key, model);
      HoldsBounds(mem[..], model);
      if found.Some? {
        RecordOrder(model, i);
        var next := GetAttrNext(mem[..], found.value, model, i);
        var p, p1 := found.value, next.value;
        if p1 - p == |record| {
          Overwrite(p, record, a, i);
        } else if p1 - p + mem.Length - end.value >= |record| {
          Shift(p, p1, end.value, record, a, i);
        } else if gotBlock {
          GrowAndReplace(p, p1, end.value, record, a, i);
        } else {
          return false;
        }
      } else if mem.Length - end.value >= |record| {
        Append(end.value, record, a);
      } else if gotBlock {
        GrowAndAppend(end.value, record, a);
      } else {
        return false;
      }
      return true;
    }

    /** attr_container_get_as_bytearray: the bytes of the value of a key, of whatever type the getters know. */
    method GetAsBytearray(key: seq<byte>) returns (r: Option<seq<byte>>)
      requires Valid() && NulFree(key)
      ensures r == BytesOf(Lookup(model.attrs, key))
      ensures var x := Lookup(model.attrs, key);
              r == if x.None? || x.value.ty == 8 || x.value.ty == 9 || x.value.ty > 14 then None else Some(x.value.value)
    {
      hide Holds, RecordAt, FromLE16, FromLE32;
      var found := FindAttr(mem[..], key, model);
      if found.None? {
        return None;
      }
      ghost var i := IndexOf(model.attrs, key);
      r := ReadValue(mem[..], found.value + 2 + |key| + 1, model, i);
    }

    /**
     The typed getters, before the bytes are taken for a number of `width` bytes. The switch on
     the stored type copies a scalar as a whole and cuts the others to the width.
     */
    method GetAsScalar(key: seq<byte>, width: nat) returns (r: seq<byte>)
      requires Valid() && NulFree(key)
      ensures r == ScalarOf(Lookup(model.attrs, key), width)
      ensures |r| == width
      ensures var x := Lookup(model.attrs, key);
              if x.None? || x.value.ty == 8 || x.value.ty == 9 || x.value.ty > 14 || (x.value.ty <= 12 && |x.value.value| > width)
              then forall k :: 0 <= k < width ==> r[k] == 0
              else if |x.value.value| > width then r == x.value.value[..width]
              else x.value.value <= r && forall k :: |x.value.value| <= k < width ==> r[k] == 0
    {
      hide Holds, RecordAt, FromLE16, FromLE32;
      var found := FindAttr(mem[..], key, model);
      if found.None? {
        return Memory.Zeros(width);
      }
      ghost var i := IndexOf(model.attrs, key);
      r := CopyScalar(mem[..], found.value + 2 + |key| + 1, width, model, i);
    }

    /** attr_container_contain_key. */
    method ContainKey(key: seq<byte>) returns (r: bool)
      requires Valid() && NulFree(key)
      ensures r <==> key != [] && Lookup(model.attrs, key).Some?
    {
      if key == [] {
        return false;
      }
      var found := FindAttr(mem[..], key, model);
      r := found.Some?;
    }

    /** attr_container_get_serialize_length. */
    method GetSerializeLength() returns (n: nat)
      requires Valid()
      ensures n == mem.Length
    {
      HeaderRead(mem[..], model);
      HoldsBounds(mem[..], model);
      ghost var m := mem[..];
      hide *;
      assert mem[2..6] == m[2..6];
      n := 2 + FromLE32(mem[2..6]);
    }

    /** attr_container_serialize: a copy of the block in `out`, with the read-only flag. */
    method Serialize(out: array<byte>)
      requires Valid() && out != mem && out.Length == mem.Length
      modifies out
      ensures Valid() && mem == old(mem) && model == old(model)
      ensures Holds(out[..], Serialized(model))
    {
      HeaderRead(mem[..], model);
      HoldsBounds(mem[..], model);
      BeginBound(model.tag);
      hide *;
      ghost var m := mem[..];
      var length := GetSerializeLength();
      CopyWhole(out, mem[..length]);
      assert mem[..length] == m && mem[..2] == m[..2];
      var flags := FromLE16(mem[..2]);
      CopyFront(out, LE16(WithReadonly(flags)), m);
      Reflagged(m, model, out[..]);
    }
  }

  /** memcpy over a whole block, and over its front. */
  method CopyWhole(a: array<byte>, s: seq<byte>)
    requires |s| == a.Length
    modifies a
    ensures a[..] == s
  {
    Memory.CopyInto(a, 0, s);
  }

  method CopyFront(a: array<byte>, s: seq<byte>, ghost before: seq<byte>)
    requires |s| <= a.Length && a[..] == before
    modifies a
    ensures a[..] == s + before[|s|..]
  {
    Memory.CopyInto(a, 0, s);
  }

  /** The flags with bit 2 set. */
  function WithReadonly(flags: nat): nat { if ReadonlyFlag(flags) then flags else flags + 4 }

  function Serialized(c: Container): Container { c.(flags := WithReadonly(c.flags)) }

  /** The record fits without a larger block. */
  ghost predicate HasRoom(c: Container, length: nat, a: Attr) {
    var i := IndexOf(c.attrs, a.key);
    if i < |c.attrs|
    then |EncodeAttr(c.attrs[i])| == |EncodeAttr(a)| || |EncodeAttr(c.attrs[i])| + length - EndAt(c) >= |EncodeAttr(a)|
    else length - EndAt(c) >= |EncodeAttr(a)|
  }

  /** check_set_attr reads four bytes as flags; the bit it tests is in the first of them. */
  lemma FlagsWord(m: seq<byte>)
    requires |m| >= 4
    ensures RefusesSet(FromLE32(m[..4])) == RefusesSet(FromLE16(m[..2]))
  {
    assert m[..4][..2] == m[..2];
    LowParity(FromLE16(m[..2]), FromLE16(m[..4][2..]));
    hide FromLE16;
  }

  lemma LowParity(lo: nat, hi: nat)
    ensures RefusesSet(lo + U16 * hi) == RefusesSet(lo)
  {
    assert lo + U16 * hi == 2 * (lo / 2 + 0x8000 * hi) + lo % 2;
    assert (lo + U16 * hi) / 2 == lo / 2 + 0x8000 * hi;
  }

  /** The record of the attribute, in a block of its own. */
  method EncodeRecord(key: seq<byte>, ty: nat, value: seq<byte>) returns (record: seq<byte>)
    requires KeyFits(key) && ValueFits(ty, value)
    ensures record == EncodeAttr(Attr(key, ty, value))
  {
    var lengthField := if ty <= TYPE_BOOLEAN then [] else if ty == TYPE_STRING then LE16(|value|) else LE32(|value|);
    var block := new byte[2 + |key| + 1 + 1 + |lengthField| + |value|];
    FillRecord(block, key, ty, lengthField, value);
    record := block[..];
    hide LE16, LE32;
    assert record == EncodeKey(key) + [ty] + (lengthField + value);
  }

  method FillRecord(block: array<byte>, key: seq<byte>, ty: byte, lengthField: seq<byte>, value: seq<byte>)
    requires block.Length == 2 + |key| + 1 + 1 + |lengthField| + |value|
    modifies block
    ensures block[..] == LE16(|key| + 1) + key + [0] + [ty] + lengthField + value
  {
    hide LE16;
    var n := |key| + 1;
    Memory.CopyInto(block, 0, LE16(n));
    Memory.CopyInto(block, 2, key + [0]);
    assert block[..2 + n] == LE16(n) + key + [0];
    Memory.CopyInto(block, 2 + n, [ty]);
    assert block[..3 + n] == LE16(n) + key + [0] + [ty];
    Memory.CopyInto(block, 3 + n, lengthField);
    Memory.CopyInto(block, 3 + n + |lengthField|, value);
  }

  /** The switch of get_as_bytearray on the type at `at`, in front of the value. */
  method ReadValue(m: seq<byte>, at: nat, ghost c: Container, ghost i: nat) returns (value: Option<seq<byte>>)
    requires Holds(m, c) && i < |c.attrs| && at == RecordAt(c, i) + 3 + |c.attrs[i].key|
    ensures value == BytesOf(Some(c.attrs[i]))
  {
    RecordType(m, c, i);
    hide Holds, RecordAt, ValueAt;
    if !Gettable(m[at]) {
      return None;
    }
    var bytes := ReadBytesAt(m, at, c.attrs[i].value, RecordAt(c, i + 1));
    return Some(bytes);
  }

  /** The switch of the typed getters on the type in front of the value. */
  method CopyScalar(m: seq<byte>, at: nat, width: nat, ghost c: Container, ghost i: nat) returns (r: seq<byte>)
    requires Holds(m, c) && i < |c.attrs| && at == RecordAt(c, i) + 3 + |c.attrs[i].key|
    ensures r == ScalarOf(Some(c.attrs[i]), width)
  {
    RecordType(m, c, i);
    hide Holds, RecordAt, ValueAt, Padded;
    if !Gettable(m[at]) {
      return Memory.Zeros(width);
    }
    var bytes := ReadBytesAt(m, at, c.attrs[i].value, RecordAt(c, i + 1));
    r := if m[at] <= TYPE_BOOLEAN && |bytes| > width then Memory.Zeros(width) else Padded(bytes, width);
  }

  /** What both switches do for the types they know: where the value is, and how long. */
  method ReadBytesAt(m: seq<byte>, at: nat, ghost value: seq<byte>, ghost end: nat) returns (bytes: seq<byte>)
    requires at < |m| && ValueAt(m, at + 1, m[at], value, end)
    ensures bytes == value
  {
    hide FromLE16, FromLE32, ScalarSize;
    var ty, q := m[at], at + 1;
    if ty <= TYPE_BOOLEAN {
      return m[q..q + ScalarSize(ty)];
    } else if ty == TYPE_STRING {
      return m[q + 2..q + 2 + FromLE16(m[q..q + 2])];
    } else {
      return m[q + 4..q + 4 + FromLE32(m[q..q + 4])];
    }
  }

  /** The type of record `i` and the value behind it. */
  lemma RecordType(m: seq<byte>, c: Container, i: nat)
    requires Holds(m, c) && i < |c.attrs|
    ensures var at := RecordAt(c, i) + 3 + |c.attrs[i].key|;
            at < |m| && m[at] == c.attrs[i].ty && ValueAt(m, at + 1, m[at], c.attrs[i].value, RecordAt(c, i + 1))
  {
    RecordKey(m, c, i);
    RecordValue(m, c, i);
    hide *;
  }

  lemma Reflagged(m: seq<byte>, c: Container, m': seq<byte>)
    requires Holds(m, c) && |m| >= 2 && m' == LE16(WithReadonly(c.flags)) + m[2..]
    ensures Holds(m', Serialized(c))
  {
    hide *;
    Disassemble(m, c);
    HoldsBounds(m, c);
    FlaggedFits(c);
    HeaderFlags(m, c, |m| - 2, EncodeAll(c.attrs), m[EndAt(c)..]);
    assert |m'| == |m|;
    HoldsAssembled(m', Serialized(c), m[EndAt(c)..]);
  }

  /** Storing other flags turns one header into the other. */
  lemma HeaderFlags(m: seq<byte>, c: Container, total: nat, x: seq<byte>, r: seq<byte>)
    requires m == Header(c, total) + x + r && |m| >= 2
    ensures LE16(Serialized(c).flags) + m[2..] == Header(Serialized(c), total) + x + r
  {
    hide LE16, LE32;
    var tail := LE32(total) + LE16(|c.tag| + 1) + c.tag + [0] + LE16(|c.attrs|);
    assert Header(c, total) == LE16(c.flags) + tail && Header(Serialized(c), total) == LE16(Serialized(c).flags) + tail;
    assert m[2..] == tail + x + r;
  }

  lemma FlaggedFits(c: Container)
    requires Fits(c)
    ensures Serialized(c).flags == WithReadonly(c.flags)
    ensures Fits(Serialized(c)) && Serialized(c).tag == c.tag && Serialized(c).attrs == c.attrs
    ensures EndAt(Serialized(c)) == EndAt(c) && BeginAt(Serialized(c).tag) == BeginAt(c.tag)
  {
    hide ValidAttr, DistinctKeys;
  }

  /**
   A serialized copy reads back as the same tag and attributes and is reported constant. It
   refuses set exactly when the original did: the check tests another bit than the one serialize sets.
   */
  lemma SerializedCopy(m: seq<byte>, c: Container)
    requires Holds(m, Serialized(c))
    ensures Read(m).Some? && Read(m).value.tag == c.tag && Read(m).value.attrs == c.attrs
    ensures ReadonlyFlag(Read(m).value.flags) && (RefusesSet(Read(m).value.flags) <==> RefusesSet(c.flags))
  {
    hide Read, Holds;
    ReadFindsHeld(m, Serialized(c));
    FlagBits(c.flags);
  }

  lemma FlagBits(flags: nat)
    ensures ReadonlyFlag(WithReadonly(flags)) && (RefusesSet(WithReadonly(flags)) <==> RefusesSet(flags))
  {
    Quarter(flags);
    Parity(flags / 4, flags / 2);
  }

  lemma Quarter(n: nat)
    ensures (n + 4) / 2 == n / 2 + 2 && (n + 4) / 4 == n / 4 + 1
  {
  }

  lemma Parity(q: nat, h: nat)
    ensures ((q + 1) % 2 == 1 <==> q % 2 != 1) && (h + 2) % 2 == h % 2
  {
  }

  /** What set_attr asks of its caller: the attribute is well formed, one more can be counted, and the length cannot overflow. */
  ghost predicate Settable(c: Container, length: nat, a: Attr) {
    ValidAttr(a) && |c.attrs| + 1 < U16 && length + |EncodeAttr(a)| + RESERVED < U32
  }

  // ---------- what the block operations add up to ----------

  /** memmove of the records behind a hole into it, then the new record behind them. */
  method CloseGap(m: array<byte>, p: nat, p1: nat, end: nat, record: seq<byte>) returns (ghost slack: seq<byte>)
    requires p <= p1 <= end <= m.Length && p + (end - p1) + |record| <= m.Length
    modifies m
    ensures m[..] == old(m[..])[..p] + old(m[..])[p1..end] + record + slack
  {
    ghost var m0 := m[..];
    Memory.MoveWithin(m, p, p1, end - p1);
    ghost var m1 := m[..];
    slack := m1[p + (end - p1) + |record|..];
    assert m1[..p + (end - p1)] == m0[..p] + m0[p1..end];
    Memory.CopyInto(m, p + (end - p1), record);
  }

  /** A larger block filled from two parts of the old one and the new record. */
  method NewBlock(n: nat, x: seq<byte>, y: seq<byte>, record: seq<byte>) returns (grown: array<byte>, ghost slack: seq<byte>)
    requires |x| + |y| + |record| <= n
    ensures fresh(grown) && grown.Length == n && grown[..] == x + y + record + slack
  {
    grown := new byte[n];
    Memory.CopyInto(grown, 0, x);
    Memory.CopyInto(grown, |x|, y);
    assert grown[..|x| + |y|] == x + y;
    Memory.CopyInto(grown, |x| + |y|, record);
    slack := grown[|x| + |y| + |record|..];
  }

  method SetTotal(m: array<byte>, ghost c: Container, ghost total: nat, ghost x: seq<byte>, ghost y: seq<byte>,
                  ghost record: seq<byte>, ghost slack: seq<byte>)
    requires m[..] == Header(c, total) + x + y + record + slack && m.Length >= 6
    modifies m
    ensures m[..] == Header(c, m.Length - 2) + x + y + record + slack
  {
    hide Header, LE32;
    ghost var g := m[..];
    Memory.CopyInto(m, 2, LE32(m.Length - 2));
    Retotalled(g, m[..], c, total, x, y, record, slack);
  }

  /** Storing the new total length in a block that is header, two runs of records, a record and slack. */
  lemma Retotalled(g: seq<byte>, g': seq<byte>, c: Container, total: nat, x: seq<byte>, y: seq<byte>, record: seq<byte>, slack: seq<byte>)
    requires g == Header(c, total) + x + y + record + slack && |g| >= 6
    requires g' == g[..2] + LE32(|g| - 2) + g[6..]
    ensures |g'| == |g| && g' == Header(c, |g'| - 2) + x + y + record + slack
  {
    var more := x + y + record + slack;
    Lists.Associative5(Header(c, total), x, y, record, slack);
    Lists.Associative5(Header(c, |g| - 2), x, y, record, slack);
    HeaderTotal(g, c, total, more, |g| - 2);
    hide Header, LE32;
  }

  /** attr_container_inc_attr_num, in a block whose records already include the new one. */
  method IncAttrNum(m: array<byte>, ghost c: Container, ghost total: nat, ghost records: seq<byte>, ghost record: seq<byte>, ghost slack: seq<byte>)
    requires |c.attrs| + 1 < U16 && |c.tag| + 1 < U16 && c.flags < U16 && total < U32
    requires m[..] == Header(c, total) + records + record + slack
    modifies m
    ensures forall a: Attr :: m[..] == Header(c.(attrs := c.attrs + [a]), total) + records + record + slack
  {
    ghost var before := m[..];
    CountField(before, c, total, records, record, slack);
    hide *;
    assert m[6..8] == before[6..8];
    var p := 8 + FromLE16(m[6..8]);
    assert m[p..p + 2] == before[p..p + 2];
    var num := FromLE16(m[p..p + 2]) + 1;
    Memory.CopyInto(m, p, LE16(num));
    forall a: Attr ensures m[..] == Header(c.(attrs := c.attrs + [a]), total) + records + record + slack {
      Recounted(before, c, total, records, record, slack, a);
    }
  }

  lemma CountField(m: seq<byte>, c: Container, total: nat, x: seq<byte>, y: seq<byte>, r: seq<byte>)
    requires |c.attrs| < U16 && |c.tag| + 1 < U16 && c.flags < U16 && total < U32
    requires m == Header(c, total) + x + y + r
    ensures |m| >= BeginAt(c.tag) >= 11 && FromLE16(m[6..8]) == |c.tag| + 1 && CountAt(c.tag) == 8 + |c.tag| + 1 &&
            BeginAt(c.tag) == CountAt(c.tag) + 2 && FromLE16(m[CountAt(c.tag)..BeginAt(c.tag)]) == |c.attrs|
  {
    HeaderLength(c, total);
    hide Header, FromLE16, FromLE32;
    assert m[..BeginAt(c.tag)] == Header(c, total);
    HeaderFields(m, c, total);
  }

  lemma Recounted(m: seq<byte>, c: Container, total: nat, x: seq<byte>, y: seq<byte>, r: seq<byte>, a: Attr)
    requires m == Header(c, total) + x + y + r && |m| >= BeginAt(c.tag)
    ensures m[..CountAt(c.tag)] + LE16(|c.attrs| + 1) + m[BeginAt(c.tag)..] ==
            Header(c.(attrs := c.attrs + [a]), total) + x + y + r
  {
    var d := c.(attrs := c.attrs + [a]);
    hide Header, LE16;
    Lists.Associative4(Header(c, total), x, y, r);
    Lists.Associative4(Header(d, total), x, y, r);
    HeaderCount(m, c, total, x + y + r, d);
  }

  // ---------- walking over a block ----------

  /** attr_container_get_attr_begin: total length, attribute count, and where the attributes start. */
  method GetAttrBegin(m: seq<byte>, ghost c: Container) returns (r: Option<(nat, nat, nat)>)
    requires Holds(m, c)
    ensures r == Some((|m| - 2, |c.attrs|, BeginAt(c.tag)))
  {
    HeaderRead(m, c);
    hide FromLE16, FromLE32, Holds;
    var total := FromLE32(m[2..6]);
    if total == 0 {
      return None;
    }
    var tagLength := FromLE16(m[6..8]);
    if tagLength == 0 {
      return None;
    }
    var p := 8 + tagLength;
    if p - 2 >= total {
      return None;
    }
    var num := FromLE16(m[p..p + 2]);
    p := p + 2;
    if p - 2 >= total {
      return None;
    }
    return Some((total, num, p));
  }

  /** attr_container_get_attr_next from record `i`. */
  method GetAttrNext(m: seq<byte>, p: nat, ghost c: Container, ghost i: nat) returns (r: Option<nat>)
    requires Holds(m, c) && i < |c.attrs| && p == RecordAt(c, i)
    ensures r == Some(RecordAt(c, i + 1))
  {
    NextRecord(m, c, i);
    r := WalkOver(m, p, RecordAt(c, i + 1));
  }

  /** The walk of attr_container_get_attr_next over one record. */
  method WalkOver(m: seq<byte>, p: nat, ghost end: nat) returns (r: Option<nat>)
    requires WalksTo(m, p, end)
    ensures r == Some(end)
  {
    hide FromLE16, FromLE32, ScalarSize;
    var q := p + 3 + FromLE16(m[p..p + 2]);
    var ty := m[q - 1];
    if ty <= TYPE_BOOLEAN {
      return Some(q + ScalarSize(ty));
    } else if ty == TYPE_STRING {
      return Some(q + 2 + FromLE16(m[q..q + 2]));
    } else if ty == TYPE_BYTEARRAY {
      return Some(q + 4 + FromLE32(m[q..q + 4]));
    }
    return None;
  }

  /** attr_container_find_attr. */
  method FindAttr(m: seq<byte>, key: seq<byte>, ghost c: Container) returns (r: Option<nat>)
    requires Holds(m, c) && NulFree(key)
    ensures var i := IndexOf(c.attrs, key);
            r == if i < |c.attrs| then Some(RecordAt(c, i)) else None
  {
    hide Holds, RecordAt, FromLE16;
    var begin := GetAttrBegin(m, c);
    var (total, num, p) := begin.value;
    RecordZero(c);
    var i := 0;
    while i < num
      invariant 0 <= i <= num == |c.attrs| && p == RecordAt(c, i) && total == |m| - 2
      invariant forall j :: 0 <= j < i ==> c.attrs[j].key != key
    {
      RecordKey(m, c, i);
      KeyMatch(m, p, c.attrs[i].key, key);
      var n := FromLE16(m[p..p + 2]);
      if n == 0 {
        return None;
      }
      if n == |key| + 1 && m[p + 2..p + 2 + n] == key + [0] {
        if p + 2 + n - 2 >= total {
          return None;
        }
        FirstIndex(c.attrs, key, i);
        return Some(p);
      }
      var next := GetAttrNext(m, p, c, i);
      if next.None? {
        return None;
      }
      p, i := next.value, i + 1;
    }
    return None;
  }

  /** attr_container_get_attr_end. */
  method GetAttrEnd(m: seq<byte>, ghost c: Container) returns (r: Option<nat>)
    requires Holds(m, c)
    ensures r == Some(EndAt(c))
  {
    hide Holds, RecordAt;
    var begin := GetAttrBegin(m, c);
    var (total, num, p) := begin.value;
    RecordZero(c);
    var i := 0;
    while i < num
      invariant 0 <= i <= num == |c.attrs| && p == RecordAt(c, i)
    {
      var next := GetAttrNext(m, p, c, i);
      if next.None? {
        return None;
      }
      p, i := next.value, i + 1;
    }
    RecordEnd(c);
    return Some(p);
  }

  /** memset, then total length, tag length and tag. */
  method FillEmpty(m: array<byte>, text: seq<byte>)
    requires m.Length == 8 + |text| + 1 + RESERVED
    modifies m
    ensures m[..] == [0, 0] + LE32(m.Length - 2) + LE16(|text| + 1) + text + [0] + Memory.Zeros(RESERVED)
  {
    hide LE32, LE16;
    Memory.ZeroFill(m, 0, m.Length);
    Onto([0, 0], LE32(m.Length - 2), m.Length - 2);
    assert m[..] == [0, 0] + Memory.Zeros(m.Length - 2);
    Memory.CopyInto(m, 2, LE32(m.Length - 2));
    ghost var p := [0, 0] + LE32(m.Length - 2);
    Onto(p, LE16(|text| + 1), m.Length - 6);
    Memory.CopyInto(m, 6, LE16(|text| + 1));
    ghost var q := p + LE16(|text| + 1);
    Onto(q, text + [0], m.Length - 8);
    Memory.CopyInto(m, 8, text + [0]);
    assert q + (text + [0]) == q + text + [0];
  }

  /** What a copy behind `p` makes of the zeros there. */
  lemma Onto(p: seq<byte>, s: seq<byte>, k: nat)
    requires |s| <= k
    ensures var m := p + Memory.Zeros(k); m[..|p|] + s + m[|p| + |s|..] == p + s + Memory.Zeros(k - |s|)
  {
  }

  // ---------- what the block says about its container ----------

  lemma EmptyHeader(m: seq<byte>, text: seq<byte>)
    requires |m| == 8 + |text| + 1 + RESERVED
    requires m == [0, 0] + LE32(|m| - 2) + LE16(|text| + 1) + text + [0] + Memory.Zeros(RESERVED)
    ensures m == Header(Container(0, text, []), |m| - 2) + EncodeAll([]) + m[BeginAt(text)..]
  {
    hide LE32;
    assert LE16(0) == [0, 0];
    var front := [0, 0] + LE32(|m| - 2) + LE16(|text| + 1) + text + [0];
    assert front + LE16(0) == Header(Container(0, text, []), |m| - 2);
    assert Memory.Zeros(RESERVED)[..2] == LE16(0);
    assert m[..BeginAt(text)] == front + LE16(0);
  }

  lemma HeaderRead(m: seq<byte>, c: Container)
    requires Holds(m, c)
    ensures var n := |c.tag| + 1;
            |m| >= BeginAt(c.tag) && FromLE32(m[2..6]) == |m| - 2 && FromLE16(m[6..8]) == n &&
            FromLE16(m[8 + n..8 + n + 2]) == |c.attrs| && FromLE16(m[..2]) == c.flags
  {
    HoldsBounds(m, c);
    HeaderFields(m, c, |m| - 2);
    hide FromLE16, FromLE32, Header, EncodeAll;
  }

  lemma RecordZero(c: Container)
    ensures RecordAt(c, 0) == BeginAt(c.tag)
  {
  }

  lemma RecordEnd(c: Container)
    ensures RecordAt(c, |c.attrs|) == EndAt(c)
  {
    assert c.attrs[..|c.attrs|] == c.attrs;
  }

  lemma AttrIsValid(m: seq<byte>, c: Container, i: nat)
    requires Holds(m, c) && i < |c.attrs|
    ensures ValidAttr(c.attrs[i])
  {
    hide ValidAttr, Header, EncodeAll;
  }

  lemma InRecord(m: seq<byte>, p: nat, e: seq<byte>, i: nat, j: nat)
    requires p + |e| <= |m| && m[p..p + |e|] == e && i <= j <= |e|
    ensures m[p + i..p + j] == e[i..j]
  {
    forall k | 0 <= k < j - i ensures m[p + i..p + j][k] == e[i..j][k] {
      assert m[p + i + k] == m[p..p + |e|][i + k];
    }
  }

  /** The key and type of record `i`, where they are in the block. */
  lemma RecordKey(m: seq<byte>, c: Container, i: nat)
    requires Holds(m, c) && i < |c.attrs|
    ensures var a, p := c.attrs[i], RecordAt(c, i);
            var n := |a.key| + 1;
            p + 3 + n <= |m| && FromLE16(m[p..p + 2]) == n && m[p + 2..p + 2 + n] == a.key + [0] &&
            m[p + 2 + n] == a.ty && ValidAttr(a)
  {
    hide *;
    var a, p := c.attrs[i], RecordAt(c, i);
    var n := |a.key| + 1;
    Around(m, c, i);
    AttrIsValid(m, c, i);
    var e := EncodeAttr(a);
    AttrBytes(a);
    KeyInBlock(m, p, e, a.key, n);
  }

  lemma KeyInBlock(m: seq<byte>, p: nat, e: seq<byte>, key: seq<byte>, n: nat)
    requires n == |key| + 1 && |e| >= 3 + n && p + |e| <= |m| && m[p..p + |e|] == e
    requires e[2..2 + n - 1] == key && e[2 + n - 1] == 0
    ensures m[p..p + 2] == e[..2] && m[p + 2..p + 2 + n] == key + [0] && m[p + 2 + n] == e[2 + n]
  {
    InRecord(m, p, e, 0, 2);
    InRecord(m, p, e, 2, 2 + n);
    assert e[2..2 + n] == e[2..2 + n - 1] + [e[2 + n - 1]];
    assert m[p + 2 + n] == m[p..p + |e|][2 + n];
  }

  lemma RecordEncoding(m: seq<byte>, c: Container, i: nat)
    requires Holds(m, c) && i < |c.attrs|
    ensures var a, q, end := c.attrs[i], RecordAt(c, i) + 4 + |c.attrs[i].key|, RecordAt(c, i + 1);
            end == q + |EncodeValue(a.ty, a.value)| && end <= |m| && m[q..end] == EncodeValue(a.ty, a.value) && ValidAttr(a)
  {
    hide *;
    var a := c.attrs[i];
    var p, at, e := RecordAt(c, i), 4 + |a.key|, EncodeAttr(a);
    Around(m, c, i);
    AttrIsValid(m, c, i);
    AttrBytes(a);
    InRecord(m, p, e, at, |e|);
  }

  /** A value in a block, by its type. */
  lemma ValueInBlock(m: seq<byte>, q: nat, ty: nat, value: seq<byte>, end: nat)
    requires ValueFits(ty, value) && end == q + |EncodeValue(ty, value)| && end <= |m| && m[q..end] == EncodeValue(ty, value)
    ensures ValueAt(m, q, ty, value, end)
  {
    var v := EncodeValue(ty, value);
    ValueBytes(ty, value, []);
    hide FromLE16, FromLE32, LE16, LE32, EncodeValue;
    assert v + [] == v;
    if ty == TYPE_STRING {
      InRecord(m, q, v, 0, 2);
      InRecord(m, q, v, 2, |v|);
    } else if ty == TYPE_BYTEARRAY {
      InRecord(m, q, v, 0, 4);
      InRecord(m, q, v, 4, |v|);
    }
  }

  predicate ValueAt(m: seq<byte>, q: nat, ty: nat, value: seq<byte>, end: nat) {
    && q <= end <= |m| && ty <= TYPE_BYTEARRAY
    && if ty <= TYPE_BOOLEAN then |value| == ScalarSize(ty) && end == q + |value| && m[q..end] == value
       else if ty == TYPE_STRING then end == q + 2 + |value| && FromLE16(m[q..q + 2]) == |value| && m[q + 2..end] == value
       else end == q + 4 + |value| && FromLE32(m[q..q + 4]) == |value| && m[q + 4..end] == value
  }

  /** The value of record `i`, and where the next record starts. */
  lemma RecordValue(m: seq<byte>, c: Container, i: nat)
    requires Holds(m, c) && i < |c.attrs|
    ensures ValueAt(m, RecordAt(c, i) + 4 + |c.attrs[i].key|, c.attrs[i].ty, c.attrs[i].value, RecordAt(c, i + 1))
  {
    RecordEncoding(m, c, i);
    ValueInBlock(m, RecordAt(c, i) + 4 + |c.attrs[i].key|, c.attrs[i].ty, c.attrs[i].value, RecordAt(c, i + 1));
    hide *;
  }

  /** What walking over a record at `p` reads, when it ends at `end`. */
  predicate WalksTo(m: seq<byte>, p: nat, end: nat) {
    && p + 2 <= |m| && p + 3 + FromLE16(m[p..p + 2]) <= |m|
    && var q := p + 3 + FromLE16(m[p..p + 2]);
       if m[q - 1] <= TYPE_BOOLEAN then end == q + ScalarSize(m[q - 1])
       else if m[q - 1] == TYPE_STRING then q + 2 <= |m| && end == q + 2 + FromLE16(m[q..q + 2])
       else m[q - 1] == TYPE_BYTEARRAY && q + 4 <= |m| && end == q + 4 + FromLE32(m[q..q + 4])
  }

  lemma NextRecord(m: seq<byte>, c: Container, i: nat)
    requires Holds(m, c) && i < |c.attrs|
    ensures WalksTo(m, RecordAt(c, i), RecordAt(c, i + 1))
  {
    RecordKey(m, c, i);
    RecordValue(m, c, i);
    hide *;
    var x := c.attrs[i];
    WalksBy(m, RecordAt(c, i), |x.key| + 1, x.ty, x.value, RecordAt(c, i + 1));
  }

  lemma WalksBy(m: seq<byte>, p: nat, n: nat, ty: nat, value: seq<byte>, end: nat)
    requires p + 3 + n <= |m| && FromLE16(m[p..p + 2]) == n && m[p + 2 + n] == ty && ValueAt(m, p + 3 + n, ty, value, end)
    ensures WalksTo(m, p, end)
  {
    hide FromLE16, FromLE32, ScalarSize;
  }

  lemma KeyMatch(m: seq<byte>, p: nat, stored: seq<byte>, key: seq<byte>)
    requires p + 2 + |stored| + 1 <= |m| && m[p + 2..p + 2 + |stored| + 1] == stored + [0]
    ensures |stored| == |key| && m[p + 2..p + 2 + |key| + 1] == key + [0] <==> stored == key
  {
    if stored + [0] == key + [0] {
      assert stored == (stored + [0])[..|stored|] && key == (key + [0])[..|key|];
    }
  }

  lemma FirstIndex(attrs: seq<Attr>, key: seq<byte>, i: nat)
    requires i < |attrs| && attrs[i].key == key && forall j :: 0 <= j < i ==> attrs[j].key != key
    ensures IndexOf(attrs, key) == i
  {
  }
}
