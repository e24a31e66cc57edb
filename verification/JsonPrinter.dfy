/**
 The printer in its own form: text is written into a block that grows on demand, behind an
 offset that lags until update_offset catches up (test-tools/host-tool/external/cJSON/cJSON.c).
 */
module JsonPrinter {
  import opened Bytes
  import opened JsonNumber
  import opened JsonText
  import opened JsonTree
  import Lists
  import Memory

  const DEFAULT_BUFFER_SIZE := 256

  class PrintBuffer {
    var buffer: array?<byte>
    var offset: nat
    var depth: nat
    const format: bool
    const noalloc: bool
    /** Whether the allocator serves every request; otherwise it may fail at any of them. */
    const plenty: bool

    constructor (block: array<byte>, format: bool, noalloc: bool, plenty: bool)
      ensures buffer == block && offset == 0 && depth == 0
      ensures this.format == format && this.noalloc == noalloc && this.plenty == plenty
    {
      buffer, offset, depth := block, 0, 0;
      this.format, this.noalloc, this.plenty := format, noalloc, plenty;
    }

    ghost function Footprint(): set<object>
      reads this
    {
      {this} + if buffer == null then {} else {buffer}
    }

    /** The block begins with `text`. */
    ghost predicate Has(text: seq<byte>)
      reads this, buffer
    {
      buffer != null && |text| <= buffer.Length && buffer[..|text|] == text
    }

    /** The block holds `text` as a C string, and the offset is somewhere in it. */
    ghost predicate Holds(text: seq<byte>)
      reads this, buffer
    {
      Has(text) && |text| < buffer.Length && buffer[|text|] == 0 && offset <= |text|
    }

    /** Text is complete up to the offset. */
    ghost predicate At(text: seq<byte>)
      reads this, buffer
    {
      Has(text) && offset == |text| < buffer.Length
    }

    /**
     ensure: room for `needed` bytes and a terminator behind the offset, in this block or in
     one at least twice as large. Text already written is kept.
     */
    method Ensure(needed: nat, ghost text: seq<byte>) returns (ok: bool)
      requires At(text)
      modifies Footprint()
      ensures fresh(Footprint() - old(Footprint())) && offset == old(offset) && depth == old(depth)
      ensures ok ==> At(text) && offset + needed < buffer.Length
      ensures ok && offset + needed < old(buffer.Length) ==> buffer == old(buffer) && buffer[..] == old(buffer[..])
      ensures ok && offset + needed >= old(buffer.Length) ==>
        !noalloc && buffer.Length == if offset + needed + 1 > 0x3FFF_FFFF then 0x7FFF_FFFF else 2 * (offset + needed + 1)
      ensures plenty && !noalloc && offset + needed + 1 <= 0x7FFF_FFFF ==> ok
    {
      if offset >= buffer.Length || needed > INT_MAX {
        return false;
      }
      var total := needed + offset + 1;
      if total <= buffer.Length {
        return true;
      }
      if noalloc {
        return false;
      }
      var newSize;
      if total > INT_MAX / 2 {
        if total > INT_MAX {
          return false;
        }
        newSize := INT_MAX;
      } else {
        newSize := total * 2;
      }
      var served: bool := *;
      if !plenty && !served {
        buffer := null;
        return false;
      }
      var grown := new byte[newSize];
      ghost var kept := buffer[..offset + 1];
      Memory.CopyInto(grown, 0, buffer[..offset + 1]);
      assert grown[..offset + 1] == kept && kept[..offset] == text;
      assert grown[..offset] == grown[..offset + 1][..offset];
      buffer := grown;
      return true;
    }

    /** Bytes stored at the output pointer, without moving the offset. */
    method Store(at: nat, s: seq<byte>, ghost text: seq<byte>)
      requires Has(text) && at == |text| && at + |s| <= buffer.Length
      modifies buffer
      ensures Has(text + s)
    {
      Memory.CopyInto(buffer, at, s);
    }

    /** Bytes and a terminator at the output pointer. */
    method StoreString(s: seq<byte>, ghost text: seq<byte>)
      requires At(text) && offset + |s| < buffer.Length
      modifies buffer
      ensures Holds(text + s)
    {
      Memory.CopyInto(buffer, offset, s + [0]);
      assert buffer[..|text + s|] == text + s;
    }

    /** update_offset: to the terminator. */
    method UpdateOffset(ghost text: seq<byte>)
      requires Holds(text) && NulFree(text[offset..])
      modifies this`offset
      ensures At(text)
    {
      NoZeros(buffer[..], text, offset);
      while buffer[offset] != 0
        invariant old(offset) <= offset <= |text| && Holds(text)
        decreases |text| - offset
      {
        offset := offset + 1;
      }
    }

    /** The words null, true and false. */
    method PrintWord(w: seq<byte>, ghost text: seq<byte>) returns (ok: bool)
      requires At(text)
      modifies Footprint()
      ensures fresh(Footprint() - old(Footprint())) && depth == old(depth)
      ensures ok ==> Holds(text + w) && offset == old(offset)
      ensures plenty && !noalloc && |text| + |w| + 2 <= INT_MAX ==> ok
    {
      ok := Ensure(|w| + 1, text);
      if ok {
        StoreString(w, text);
      }
    }

    /** print_number: the digits come from sprintf; they must fit its block of 26 bytes. */
    method PrintNumber(digits: seq<byte>, ghost text: seq<byte>) returns (ok: bool)
      requires At(text)
      modifies Footprint()
      ensures fresh(Footprint() - old(Footprint())) && depth == old(depth)
      ensures ok ==> Holds(text + digits) && offset >= old(offset)
      ensures |digits| > 25 ==> !ok
      ensures plenty && !noalloc && |digits| <= 25 && |text| + |digits| + 2 <= 0x7FFF_FFFF ==> ok
    {
      if |digits| > PRINT_LENGTH_MAX {
        return false;
      }
      ok := Ensure(|digits| + 1, text);
      if ok {
        StoreString(digits, text);
        offset := offset + |digits|;
      }
    }

    /** The first loop of print_string_ptr: how long the escaped string will be. */
    method MeasureEscapes(s: seq<byte>) returns (length: nat)
      ensures length == |EscapeAll(s)|
    {
      hide EscapeByte;
      var extra := 0;
      var i := 0;
      assert s[0..] == s;
      while i < |s|
        invariant 0 <= i <= |s| && i + extra + |EscapeAll(s[i..])| == |EscapeAll(s)|
      {
        assert s[i..][1..] == s[i + 1..];
        EscapeLength(s[i]);
        if s[i] in {QUOTE, BACKSLASH, 8, 12, 10, 13, 9} {
          extra := extra + 1;
        } else if s[i] < 32 {
          extra := extra + 5;
        }
        i := i + 1;
      }
      length := |s| + extra;
    }

    /** print_string_ptr: measures, makes room, then writes the quoted literal. */
    method PrintString(s: seq<byte>, ghost text: seq<byte>) returns (ok: bool)
      requires At(text)
      modifies Footprint()
      ensures fresh(Footprint() - old(Footprint())) && depth == old(depth)
      ensures ok ==> Holds(text + Quoted(s)) && offset == old(offset)
      ensures plenty && !noalloc && |text| + |Quoted(s)| + 2 <= INT_MAX ==> ok
    {
      hide EscapeByte;
      var length := MeasureEscapes(s);
      ok := Ensure(length + 3, text);
      if !ok {
        return;
      }
      assert |Quoted(s)| == length + 2;
      Store(offset, [QUOTE], text);
      StoreEscaped(s, offset + 1, text + [QUOTE]);
      StoreEnd(offset + 1 + length, text + [QUOTE] + EscapeAll(s));
      assert text + [QUOTE] + EscapeAll(s) + [QUOTE] == text + Quoted(s);
    }

    /** The second loop of print_string_ptr. */
    method StoreEscaped(s: seq<byte>, at: nat, ghost text: seq<byte>)
      requires Has(text) && at == |text| && at + |EscapeAll(s)| <= buffer.Length
      modifies buffer
      ensures Has(text + EscapeAll(s))
    {
      hide EscapeByte;
      var p, i := at, 0;
      ghost var done := [];
      assert s[0..] == s && [] + EscapeAll(s) == EscapeAll(s);
      assert text + [] == text;
      hide EscapeAll;
      while i < |s|
        invariant 0 <= i <= |s| && done + EscapeAll(s[i..]) == EscapeAll(s) && p == at + |done|
        invariant Has(text + done)
      {
        ghost var e := EscapeByte(s[i]);
        EscapeAt(s, i, done);
        Lists.Associative(text, done, e);
        Store(p, EscapeByte(s[i]), text + done);
        done := done + e;
        p, i := p + |EscapeByte(s[i])|, i + 1;
      }
      NothingEscaped(s[i..], done);
    }

    /** The closing quote and the terminator. */
    method StoreEnd(at: nat, ghost text: seq<byte>)
      requires Has(text) && at == |text| && at + 2 <= buffer.Length
      modifies buffer
      ensures Has(text + [QUOTE]) && buffer[|text| + 1] == 0
    {
      Memory.CopyInto(buffer, at, [QUOTE, 0]);
      assert buffer[..|text + [QUOTE]|] == text + [QUOTE];
    }

    /** print_value. On success the text of the value stands behind what was there, terminated. */
    method PrintValue(v: Json, ghost text: seq<byte>) returns (ok: bool)
      requires At(text) && Plain(v)
      modifies Footprint()
      ensures fresh(Footprint() - old(Footprint())) && (ok ==> depth == old(depth))
      ensures ok ==> Holds(text + Text(v, format, depth)) && offset >= old(offset)
      ensures plenty && !noalloc && |text| + |Text(v, format, old(depth))| + 2 <= INT_MAX ==> ok
      decreases v, 0
    {
      match v
      case Null => ok := PrintWord(NULL_TEXT, text);
      case Bool(b) => ok := PrintWord(if b then TRUE_TEXT else FALSE_TEXT, text);
      case Num(t) => ok := PrintNumber(t, text);
      case Str(s) => ok := PrintString(s, text);
      case Arr(items) => ok := PrintArray(items, text);
      case Obj(members) => ok := PrintObject(members, text);
    }

    /** print_array. */
    method PrintArray(items: seq<Json>, ghost text: seq<byte>) returns (ok: bool)
      requires At(text) && PlainItems(items)
      modifies Footprint()
      ensures fresh(Footprint() - old(Footprint())) && (ok ==> depth == old(depth))
      ensures ok ==> Holds(text + Text(Arr(items), format, depth)) && offset >= old(offset)
      ensures plenty && !noalloc && |text| + |Text(Arr(items), format, old(depth))| + 2 <= INT_MAX ==> ok
      decreases items, 1
    {
      hide Text, ItemsText, PlainItems;
      ArrayText(text, items, format, depth);
      ok := Append([OPEN_ARRAY], text);
      if !ok {
        return;
      }
      depth := depth + 1;
      ghost var open := text + [OPEN_ARRAY];
      ok := PrintItems(items, open);
      if !ok {
        return;
      }
      ghost var body := open + ItemsText(items, format, depth);
      ok := Ensure(2, body);
      if !ok {
        return;
      }
      StoreString([CLOSE_ARRAY], body);
      depth := depth - 1;
    }

    /** The loop of print_array. */
    method PrintItems(items: seq<Json>, ghost text: seq<byte>) returns (ok: bool)
      requires At(text) && PlainItems(items)
      modifies Footprint()
      ensures fresh(Footprint() - old(Footprint())) && (ok ==> depth == old(depth))
      ensures ok ==> At(text + ItemsText(items, format, depth)) && offset >= old(offset)
      ensures plenty && !noalloc && |text| + |ItemsText(items, format, old(depth))| + 3 <= INT_MAX ==> ok
      decreases items, 0
    {
      hide Text, ItemsText, Plain, PlainItems, Behind;
      ghost var d, done := depth, [];
      var i := 0;
      Lists.DropNone(items);
      Lists.Nothing(text, ItemsText(items, format, d));
      while i < |items|
        invariant 0 <= i <= |items| && depth == d && offset >= old(offset)
        invariant fresh(Footprint() - old(Footprint())) && At(text + done)
        invariant done + ItemsText(items[i..], format, d) == ItemsText(items, format, d)
        invariant PlainItems(items[i..])
      {
        ghost var before, t := text + done, Text(items[i], format, d);
        ghost var sep := Behind(i + 1 == |items|, format);
        ItemAt(items, i, format, d);
        Lists.Associative4(done, t, sep, ItemsText(items[i + 1..], format, d));
        ok := PrintItem(items[i], i + 1 == |items|, before);
        if !ok {
          return;
        }
        ghost var was := done;
        done := done + t + sep;
        Lists.Associative4(text, was, t, sep);
        i := i + 1;
      }
      AllItems(items, i, format, d);
      Lists.Nothing(done, text);
      ok := true;
    }

    /** One element and the separator behind it, if it is not the last. */
    method PrintItem(v: Json, last: bool, ghost text: seq<byte>) returns (ok: bool)
      requires At(text) && Plain(v)
      modifies Footprint()
      ensures fresh(Footprint() - old(Footprint())) && (ok ==> depth == old(depth))
      ensures ok ==> At(text + Text(v, format, depth) + Behind(last, format)) && offset >= old(offset)
      ensures plenty && !noalloc && |text| + |Text(v, format, old(depth))| + |Behind(last, format)| + 2 <= INT_MAX ==> ok
      decreases v, 1
    {
      hide Text, Plain;
      ghost var t := Text(v, format, depth);
      ok := PrintValue(v, text);
      if !ok {
        return;
      }
      TailNulFree(text, v, format, depth, offset);
      UpdateOffset(text + t);
      assert text + t + [] == text + t;
      if !last {
        ok := AppendString(if format then [COMMA, SPACE] else [COMMA], text + t);
      }
    }

    /** print_object. */
    method PrintObject(members: seq<Member>, ghost text: seq<byte>) returns (ok: bool)
      requires At(text) && PlainMembers(members)
      modifies Footprint()
      ensures fresh(Footprint() - old(Footprint())) && (ok ==> depth == old(depth))
      ensures ok ==> Holds(text + Text(Obj(members), format, depth)) && offset >= old(offset)
      ensures plenty && !noalloc && |text| + |Text(Obj(members), format, old(depth))| + 2 <= INT_MAX ==> ok
      decreases members, 1
    {
      hide Text, MembersText, PlainMembers, Indent;
      ObjectText(text, members, format, depth);
      ghost var d := depth;
      var brace := if format then [OPEN_OBJECT, NEWLINE] else [OPEN_OBJECT];
      ok := Ensure(|brace| + 1, text);
      if !ok {
        return;
      }
      Store(offset, brace, text);
      offset, depth := offset + |brace|, depth + 1;
      ghost var open := text + brace;
      ok := PrintMembers(members, open);
      if !ok {
        return;
      }
      ghost var body := open + MembersText(members, format, depth);
      ghost var closing := Indent(format, d) + [CLOSE_OBJECT];
      ok := PrintClosing(body);
      if !ok {
        return;
      }
      depth := depth - 1;
    }

    /** The closing brace of an object with its indentation. */
    method PrintClosing(ghost text: seq<byte>) returns (ok: bool)
      requires At(text) && depth > 0
      modifies Footprint()
      ensures fresh(Footprint() - old(Footprint())) && depth == old(depth)
      ensures ok ==> Holds(text + (Indent(format, depth - 1) + [CLOSE_OBJECT])) && offset == old(offset)
      ensures plenty && !noalloc && |text| + |Indent(format, depth - 1)| + 3 <= INT_MAX ==> ok
    {
      ok := Ensure(if format then depth + 1 else 2, text);
      if ok {
        StoreString((if format then Tabs(depth - 1) else []) + [CLOSE_OBJECT], text);
      }
    }

    /** The loop of print_object. */
    method PrintMembers(members: seq<Member>, ghost text: seq<byte>) returns (ok: bool)
      requires At(text) && PlainMembers(members)
      modifies Footprint()
      ensures fresh(Footprint() - old(Footprint())) && (ok ==> depth == old(depth))
      ensures ok ==> At(text + MembersText(members, format, depth)) && offset >= old(offset)
      ensures plenty && !noalloc && |text| + |MembersText(members, format, old(depth))| + 3 <= INT_MAX ==> ok
      decreases members, 0
    {
      hide Text, MembersText, NameText, MemberEnd, Plain, PlainMembers;
      ghost var d, done := depth, [];
      var i := 0;
      Lists.DropNone(members);
      Lists.Nothing(text, MembersText(members, format, d));
      while i < |members|
        invariant 0 <= i <= |members| && depth == d && offset >= old(offset)
        invariant fresh(Footprint() - old(Footprint())) && At(text + done)
        invariant done + MembersText(members[i..], format, d) == MembersText(members, format, d)
        invariant PlainMembers(members[i..])
      {
        ghost var before, name := text + done, NameText(members[i].name, format, d);
        ghost var t, end := Text(members[i].value, format, d), MemberEnd(i + 1 == |members|, format);
        MemberAt(members, i, format, d);
        Lists.Associative5(done, name, t, end, MembersText(members[i + 1..], format, d));
        ok := PrintMember(members[i], i + 1 == |members|, before);
        if !ok {
          return;
        }
        ghost var was := done;
        done := done + name + t + end;
        Lists.Associative5(text, was, name, t, end);
        i := i + 1;
      }
      AllMembers(members, i, format, d);
      Lists.Nothing(done, text);
      ok := true;
    }

    /** Name, value and what stands behind it. */
    method PrintMember(m: Member, last: bool, ghost text: seq<byte>) returns (ok: bool)
      requires At(text) && NulFree(m.name) && Plain(m.value)
      modifies Footprint()
      ensures fresh(Footprint() - old(Footprint())) && (ok ==> depth == old(depth))
      ensures ok ==> offset >= old(offset)
      ensures ok ==> At(text + NameText(m.name, format, depth) + Text(m.value, format, depth) + MemberEnd(last, format))
      ensures plenty && !noalloc && |text| + MemberLength(m, last, format, old(depth)) + 2 <= INT_MAX ==> ok
      decreases m, 1
    {
      hide Text, Plain, NameText;
      ghost var t := text + NameText(m.name, format, depth);
      ok := PrintName(m.name, text);
      if !ok {
        return;
      }
      ok := PrintValue(m.value, t);
      if !ok {
        return;
      }
      TailNulFree(t, m.value, format, depth, offset);
      UpdateOffset(t + Text(m.value, format, depth));
      ok := AppendString(MemberEnd(last, format), t + Text(m.value, format, depth));
    }

    /** Indentation, name and colon of a member. */
    method PrintName(name: seq<byte>, ghost text: seq<byte>) returns (ok: bool)
      requires At(text) && NulFree(name)
      modifies Footprint()
      ensures fresh(Footprint() - old(Footprint())) && (ok ==> depth == old(depth))
      ensures ok ==> At(text + NameText(name, format, depth)) && offset >= old(offset)
      ensures plenty && !noalloc && |text| + |NameText(name, format, old(depth))| + 2 <= INT_MAX ==> ok
    {
      hide Quoted;
      NameParts(text, name, format, depth);
      ghost var indented := text + Indent(format, depth);
      ok := true;
      if format {
        ok := PrintTabs(text);
        if !ok {
          return;
        }
      }
      ok := PrintString(name, indented);
      if !ok {
        return;
      }
      QuotedNulFree(indented, name);
      UpdateOffset(indented + Quoted(name));
      ok := Append(if format then [COLON, TAB] else [COLON], indented + Quoted(name));
    }

    /** The indentation of a member. */
    method PrintTabs(ghost text: seq<byte>) returns (ok: bool)
      requires At(text)
      modifies Footprint()
      ensures fresh(Footprint() - old(Footprint())) && depth == old(depth)
      ensures ok ==> At(text + Tabs(depth)) && offset >= old(offset)
      ensures plenty && !noalloc && |text| + depth + 2 <= INT_MAX ==> ok
    {
      ok := Append(Tabs(depth), text);
    }

    /** Room for the bytes and a terminator, both, and the offset moved to the terminator. */
    method AppendString(s: seq<byte>, ghost text: seq<byte>) returns (ok: bool)
      requires At(text)
      modifies Footprint()
      ensures fresh(Footprint() - old(Footprint())) && depth == old(depth)
      ensures ok ==> At(text + s) && offset == old(offset) + |s|
      ensures plenty && !noalloc && |text| + |s| + 2 <= INT_MAX ==> ok
    {
      ok := Ensure(|s| + 1, text);
      if ok {
        StoreString(s, text);
        offset := offset + |s|;
      }
    }

    /** Room for the bytes, the bytes, and the offset moved past them. */
    method Append(s: seq<byte>, ghost text: seq<byte>) returns (ok: bool)
      requires At(text)
      modifies Footprint()
      ensures fresh(Footprint() - old(Footprint())) && depth == old(depth)
      ensures ok ==> At(text + s) && offset == old(offset) + |s|
      ensures plenty && !noalloc && |text| + |s| + 1 <= INT_MAX ==> ok
    {
      ok := Ensure(|s|, text);
      if ok {
        Store(offset, s, text);
        offset := offset + |s|;
      }
    }
  }

  /** print: a block of 256 bytes to begin with; the printed text, or nothing if memory runs out. */
  method Print(v: Json, format: bool, plenty: bool) returns (r: Option<seq<byte>>)
    requires Plain(v)
    ensures r.Some? ==> r.value == Text(v, format, 0)
    ensures plenty && |Text(v, format, 0)| + 2 <= 0x7FFF_FFFF ==> r.Some?
  {
    hide Text;
    var served: bool := *;
    if !plenty && !served {
      return None;
    }
    var block := new byte[DEFAULT_BUFFER_SIZE];
    var p := new PrintBuffer(block, format, false, plenty);
    assert block[..0] == [];
    var ok := p.PrintValue(v, []);
    if !ok {
      return None;
    }
    assert [] + Text(v, format, 0) == Text(v, format, 0);
    TailNulFree([], v, format, 0, p.offset);
    p.UpdateOffset(Text(v, format, 0));
    return Some(p.buffer[..p.offset]);
  }

  // ---------- the texts in steps ----------

  lemma ArrayText(text: seq<byte>, items: seq<Json>, format: bool, depth: nat)
    ensures text + [OPEN_ARRAY] + ItemsText(items, format, depth + 1) + [CLOSE_ARRAY] == text + Text(Arr(items), format, depth)
  {
    hide ItemsText;
  }

  lemma ObjectText(text: seq<byte>, members: seq<Member>, format: bool, depth: nat)
    ensures text + (if format then [OPEN_OBJECT, NEWLINE] else [OPEN_OBJECT]) + MembersText(members, format, depth + 1) +
            (Indent(format, depth) + [CLOSE_OBJECT]) == text + Text(Obj(members), format, depth)
  {
    hide MembersText, Tabs;
    var t := MembersText(members, format, depth + 1);
    assert [OPEN_OBJECT] + [NEWLINE] == [OPEN_OBJECT, NEWLINE] && [OPEN_OBJECT] + [] == [OPEN_OBJECT];
    Regroup(text, if format then [OPEN_OBJECT, NEWLINE] else [OPEN_OBJECT], t, Indent(format, depth), [CLOSE_OBJECT]);
  }

  lemma Regroup(a: seq<byte>, b: seq<byte>, c: seq<byte>, d: seq<byte>, e: seq<byte>)
    ensures a + b + c + (d + e) == a + (b + c + d + e)
  {
  }

  function Behind(last: bool, format: bool): seq<byte> {
    if last then [] else Separator(format)
  }

  ghost function MemberLength(m: Member, last: bool, format: bool, depth: nat): nat {
    |NameText(m.name, format, depth)| + |Text(m.value, format, depth)| + |MemberEnd(last, format)|
  }

  function Indent(format: bool, depth: nat): seq<byte> {
    if format then Tabs(depth) else []
  }

  lemma NameParts(text: seq<byte>, name: seq<byte>, format: bool, depth: nat)
    ensures text + Indent(format, depth) + Quoted(name) + (if format then [COLON, TAB] else [COLON]) ==
            text + NameText(name, format, depth)
    ensures !format ==> text + Indent(format, depth) == text
    ensures format ==> |Indent(format, depth)| == depth
  {
    hide Quoted;
  }

  lemma ItemAt(items: seq<Json>, i: nat, format: bool, depth: nat)
    requires i < |items| && PlainItems(items[i..])
    ensures Plain(items[i]) && PlainItems(items[i + 1..])
    ensures ItemsText(items[i..], format, depth) ==
            Text(items[i], format, depth) + Behind(i + 1 == |items|, format) +
            ItemsText(items[i + 1..], format, depth)
  {
    hide Text, Plain;
    assert items[i..][1..] == items[i + 1..];
    if i + 1 == |items| {
      assert ItemsText(items[i + 1..], format, depth) == [];
    }
  }

  lemma AllItems(items: seq<Json>, i: nat, format: bool, depth: nat)
    requires i == |items|
    ensures ItemsText(items[i..], format, depth) == []
  {
  }

  lemma MemberAt(members: seq<Member>, i: nat, format: bool, depth: nat)
    requires i < |members| && PlainMembers(members[i..])
    ensures NulFree(members[i].name) && Plain(members[i].value) && PlainMembers(members[i + 1..])
    ensures MembersText(members[i..], format, depth) ==
            NameText(members[i].name, format, depth) + Text(members[i].value, format, depth) +
            MemberEnd(i + 1 == |members|, format) + MembersText(members[i + 1..], format, depth)
  {
    hide Text, Plain, NameText, MemberEnd;
    assert members[i..][1..] == members[i + 1..];
  }

  lemma AllMembers(members: seq<Member>, i: nat, format: bool, depth: nat)
    requires i == |members|
    ensures MembersText(members[i..], format, depth) == []
  {
  }

  // ---------- printed text has no NUL ----------

  lemma NulFreeConcat(a: seq<byte>, b: seq<byte>)
    ensures NulFree(a + b) <==> NulFree(a) && NulFree(b)
  {
    if 0 in a { var i :| 0 <= i < |a| && a[i] == 0; assert (a + b)[i] == 0; }
    if 0 in b { var i :| 0 <= i < |b| && b[i] == 0; assert (a + b)[|a| + i] == 0; }
  }

  lemma {:induction false} EscapedNulFree(s: seq<byte>)
    requires NulFree(s)
    ensures NulFree(EscapeAll(s))
  {
    if s != [] {
      EscapedNulFree(s[1..]);
      NulFreeConcat(EscapeByte(s[0]), EscapeAll(s[1..]));
    }
  }

  lemma QuoteIsNulFree(s: seq<byte>)
    requires NulFree(s)
    ensures NulFree(Quoted(s))
  {
    EscapedNulFree(s);
    NulFreeConcat([QUOTE], EscapeAll(s));
    NulFreeConcat([QUOTE] + EscapeAll(s), [QUOTE]);
  }

  lemma QuotedNulFree(text: seq<byte>, s: seq<byte>)
    requires NulFree(s)
    ensures NulFree((text + Quoted(s))[|text|..])
  {
    QuoteIsNulFree(s);
    hide Quoted;
    assert (text + Quoted(s))[|text|..] == Quoted(s);
  }

  lemma NumberNulFree(t: seq<byte>)
    requires NumberText(t)
    ensures NulFree(t)
  {
    hide NumeralText, GoodExponent;
    var n :| JsonNumeral(n) && NumeralText(n) == t;
    NumeralBytes(n);
  }

  lemma {:induction false} TextNulFree(v: Json, format: bool, depth: nat)
    requires Plain(v)
    ensures NulFree(Text(v, format, depth))
    decreases v
  {
    hide NumberText, Quoted;
    match v
    case Null =>
    case Bool(b) =>
    case Num(t) => NumberNulFree(t);
    case Str(s) => QuoteIsNulFree(s);
    case Arr(items) =>
      ItemsNulFree(items, format, depth + 1);
      var t := ItemsText(items, format, depth + 1);
      NulFreeConcat([OPEN_ARRAY], t);
      NulFreeConcat([OPEN_ARRAY] + t, [CLOSE_ARRAY]);
    case Obj(members) =>
      MembersNulFree(members, format, depth + 1);
      var a, t, z := [OPEN_OBJECT] + (if format then [NEWLINE] else []), MembersText(members, format, depth + 1), if format then Tabs(depth) else [];
      NulFreeConcat(a, t);
      NulFreeConcat(a + t, z);
      NulFreeConcat(a + t + z, [CLOSE_OBJECT]);
  }

  lemma {:induction false} ItemsNulFree(items: seq<Json>, format: bool, depth: nat)
    requires PlainItems(items)
    ensures NulFree(ItemsText(items, format, depth))
    decreases items
  {
    if items != [] {
      TextNulFree(items[0], format, depth);
      ItemsNulFree(items[1..], format, depth);
      var t, more := Text(items[0], format, depth), ItemsText(items[1..], format, depth);
      NulFreeConcat(Separator(format), more);
      NulFreeConcat(t, Separator(format) + more);
      NulFreeConcat(t, []);
    }
  }

  lemma {:induction false} MembersNulFree(members: seq<Member>, format: bool, depth: nat)
    requires PlainMembers(members)
    ensures NulFree(MembersText(members, format, depth))
    decreases members
  {
    if members != [] {
      var name, t := NameText(members[0].name, format, depth), Text(members[0].value, format, depth);
      var end, more := MemberEnd(|members| == 1, format), MembersText(members[1..], format, depth);
      NameNulFree(members[0].name, format, depth);
      TextNulFree(members[0].value, format, depth);
      MembersNulFree(members[1..], format, depth);
      NulFreeConcat(name, t);
      NulFreeConcat(name + t, end);
      NulFreeConcat(name + t + end, more);
    }
  }

  lemma NameNulFree(name: seq<byte>, format: bool, depth: nat)
    requires NulFree(name)
    ensures NulFree(NameText(name, format, depth))
  {
    QuoteIsNulFree(name);
    var tabs, k := if format then Tabs(depth) else [], if format then [TAB] else [];
    NulFreeConcat(tabs, Quoted(name));
    NulFreeConcat(tabs + Quoted(name), [COLON]);
    NulFreeConcat(tabs + Quoted(name) + [COLON], k);
  }

  /** Behind any offset in the text of a value there is no NUL. */
  lemma TailNulFree(before: seq<byte>, v: Json, format: bool, depth: nat, o: nat)
    requires Plain(v) && |before| <= o <= |before + Text(v, format, depth)|
    ensures NulFree((before + Text(v, format, depth))[o..])
  {
    hide Text, Plain;
    TextNulFree(v, format, depth);
    var t := Text(v, format, depth);
    TailOfText(before, t, o);
  }

  lemma TailOfText(before: seq<byte>, t: seq<byte>, o: nat)
    requires NulFree(t) && |before| <= o <= |before + t|
    ensures NulFree((before + t)[o..])
  {
    assert (before + t)[o..] == t[o - |before|..];
  }

  lemma NoZeros(m: seq<byte>, text: seq<byte>, o: nat)
    requires o <= |text| <= |m| && m[..|text|] == text && NulFree(text[o..])
    ensures forall k :: o <= k < |text| ==> m[k] != 0
  {
    forall k | o <= k < |text| ensures m[k] != 0 {
      assert m[k] == m[..|text|][k] == text[o..][k - o];
    }
  }

  lemma EscapeAt(s: seq<byte>, i: nat, done: seq<byte>)
    requires i < |s|
    ensures done + EscapeAll(s[i..]) == done + EscapeByte(s[i]) + EscapeAll(s[i + 1..])
  {
    hide EscapeByte;
    assert s[i..][1..] == s[i + 1..];
    Lists.Associative(done, EscapeByte(s[i]), EscapeAll(s[i + 1..]));
  }

  lemma NothingEscaped(s: seq<byte>, done: seq<byte>)
    requires s == []
    ensures done + EscapeAll(s) == done
  {
  }

  lemma EscapeLength(b: byte)
    ensures |EscapeByte(b)| == if b in {QUOTE, BACKSLASH, 8, 12, 10, 13, 9} then 2 else if b < 32 then 6 else 1
  {
  }
}
