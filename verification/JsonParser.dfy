/**
 The parser in its own form: a buffer with an offset and a depth that every call moves, and
 strings decoded into a block of computed size (test-tools/host-tool/external/cJSON/cJSON.c).
 */
module JsonParser {
  import opened Bytes
  import opened JsonNumber
  import opened JsonText
  import opened JsonTree
  import S = SiblingList
  import Memory

  /** How many children an item gets for a value. */
  function Children(v: Json): nat {
    match v
    case Arr(items) => |items|
    case Obj(members) => |members|
    case _ => 0
  }

  class ParseBuffer {
    const content: seq<byte>
    var offset: nat
    var depth: nat

    constructor (content: seq<byte>)
      ensures this.content == content && offset == 0 && depth == 0
    {
      this.content := content;
      offset, depth := 0, 0;
    }

    /** buffer_skip_whitespace. */
    method SkipWhitespace()
      modifies this`offset
      ensures offset == SkipWs(content, old(offset))
    {
      if offset >= |content| {
        return;
      }
      while offset < |content| && content[offset] <= 32
        invariant old(offset) <= offset <= |content|
        invariant offset < |content| ==> SkipWs(content, offset) == SkipWs(content, old(offset))
        invariant offset == |content| ==> SkipWs(content, old(offset)) == offset - 1
        decreases |content| - offset
      {
        offset := offset + 1;
      }
      if offset == |content| {
        offset := offset - 1;
      }
    }

    /** The first loop of parse_string: the end of the literal and the number of escapes in it. */
    method MeasureString(start: nat) returns (end: Option<nat>, skipped: nat)
      requires start <= |content|
      ensures end == ScanEnd(content, start)
      ensures end.Some? ==> skipped == EscapesBefore(content, start, end.value)
    {
      var i := start;
      skipped := 0;
      while i < |content| && content[i] != QUOTE
        invariant start <= i <= |content|
        invariant ScanEnd(content, i) == ScanEnd(content, start)
        invariant forall e :: i <= e <= |content| ==>
          EscapesBefore(content, start, e) == skipped + EscapesBefore(content, i, e)
        decreases |content| - i
      {
        if content[i] == BACKSLASH {
          if i + 1 >= |content| {
            return None, skipped;
          }
          skipped := skipped + 1;
          ghost var j := i;
          i := i + 2;
          forall e | i <= e <= |content| ensures EscapesBefore(content, start, e) == skipped + EscapesBefore(content, i, e) {
            assert EscapesBefore(content, j, e) == 1 + EscapesBefore(content, i, e);
          }
        } else {
          ghost var j := i;
          i := i + 1;
          forall e | i <= e <= |content| ensures EscapesBefore(content, start, e) == skipped + EscapesBefore(content, i, e) {
            assert EscapesBefore(content, j, e) == EscapesBefore(content, i, e);
          }
        }
      }
      if i >= |content| {
        return None, skipped;
      }
      assert EscapesBefore(content, i, i) == 0;
      return Some(i), skipped;
    }

    /**
     The second loop of parse_string: decodes the literal between `start` and `end` into
     `output`, which has the size computed by the first loop. `used` bytes are written.
     */
    method DecodeInto(output: array<byte>, start: nat, end: nat) returns (used: nat, ok: bool)
      requires start <= end < |content| && content[end] == QUOTE
      requires output.Length == end + 1 - start - EscapesBefore(content, start, end) + 1
      modifies output
      ensures ok <==> Decode(content, start, end).Some?
      ensures ok ==> used < output.Length && output[..used] == Decode(content, start, end).value
    {
      hide Decode, EscapesBefore, Utf16Literal, Utf8, ShortEscape;
      ghost var all := Decode(content, start, end);
      var p := start;
      used, ok := 0, false;
      DecodeStart(content, start);
      assert output[..0] == [];
      while p < end
        invariant start <= p <= end + 1 && used <= output.Length
        invariant used + EscapesBefore(content, start, p) <= p - start
        invariant all == Prefix(output[..used], Decode(content, p, end))
        decreases end + 1 - p
      {
        var token := Token(content, p, end);
        DecodeToken(content, start, p, end, token);
        if token.None? {
          return;
        }
        var (s, n) := token.value;
        EscapesGrow(content, start, p + n, end);
        ghost var before := output[..used];
        Memory.CopyInto(output, used, s);
        assert output[..used + |s|] == before + s;
        used, p := used + |s|, p + n;
        PrefixJoin(before, s, Decode(content, p, end));
      }
      DecodeEnd(content, p, end);
      EscapesGrow(content, start, p, end);
      ok := true;
    }

    /** parse_string. The first byte is read whether or not there is one; what comes of a byte behind the buffer is left open. */
    method ReadString() returns (r: Parsed<seq<byte>>)
      modifies this`offset
      ensures r == ParseString(content, old(offset)) && (r.Done? ==> offset == r.next)
    {
      hide Decode, ScanEnd, EscapesBefore;
      if offset >= |content| {
        return Overread;
      }
      if content[offset] != QUOTE {
        return Failed;
      }
      var end, skipped := MeasureString(offset + 1);
      if end.None? {
        return Failed;
      }
      EscapesBound(content, offset + 1, end.value);
      var allocation := end.value - offset - skipped;
      var output := new byte[allocation + 1];
      var used, ok := DecodeInto(output, offset + 1, end.value);
      if !ok {
        return Failed;
      }
      output[used] := 0;
      offset := end.value + 1;
      return Done(output[..used], offset);
    }

    /** The loop of parse_number: the bytes a number can have go to a block of 64. */
    method CopyNumber(block: array<byte>) returns (i: nat)
      requires offset <= |content| && block.Length == READ_LENGTH_MAX + 1
      modifies block
      ensures i == RunFrom(content, offset, READ_LENGTH_MAX) && block[..i] == content[offset..offset + i]
    {
      hide RunFrom, NumberByte;
      i := 0;
      while i < READ_LENGTH_MAX && offset + i < |content| && NumberByte(content[offset + i])
        invariant i <= READ_LENGTH_MAX && offset + i <= |content|
        invariant forall k :: 0 <= k < i ==> block[k] == content[offset + k]
        invariant i + RunFrom(content, offset + i, READ_LENGTH_MAX - i) == RunFrom(content, offset, READ_LENGTH_MAX)
      {
        RunAt(content, offset + i, READ_LENGTH_MAX - i);
        block[i] := content[offset + i];
        i := i + 1;
      }
      RunAt(content, offset + i, READ_LENGTH_MAX - i);
      block[i] := 0;
    }

    /** parse_number: strtod says how many of them it takes. */
    method ReadNumber() returns (r: Parsed<seq<byte>>)
      requires offset <= |content|
      modifies this`offset
      ensures r == ParseNumber(content, old(offset)) && (r.Done? ==> offset == r.next)
    {
      hide RunFrom, StrtodLength, ParseNumber, NumberByte;
      var numberString := new byte[READ_LENGTH_MAX + 1];
      var i := CopyNumber(numberString);
      var taken := StrtodLength(numberString[..i]);
      NumberTaken(content, offset, i, taken);
      if taken == 0 {
        return Failed;
      }
      offset := offset + taken;
      return Done(numberString[..i][..taken], offset);
    }

    /** parse_value, into an item that is zeroed: its children become a list of siblings. */
    method ReadValue(item: S.Item) returns (r: Parsed<Json>)
      requires item.child == null && item.items == []
      modifies this, item`child, item`items
      ensures r == ParseValue(content, old(offset), old(depth)) && (r.Done? ==> offset == r.next && depth == old(depth))
      ensures r.Done? ==> item.Valid() && |item.items| == Children(r.value) && forall x :: x in item.items ==> fresh(x)
      decreases |content| - offset, 2
    {
      hide ParseArray, ParseObject, ParseString, ParseNumber;
      if offset + 4 <= |content| && content[offset..offset + 4] == NULL_TEXT {
        offset := offset + 4;
        return Done(Null, offset);
      }
      if offset + 5 <= |content| && content[offset..offset + 5] == FALSE_TEXT {
        offset := offset + 5;
        return Done(Bool(false), offset);
      }
      if offset + 4 <= |content| && content[offset..offset + 4] == TRUE_TEXT {
        offset := offset + 4;
        return Done(Bool(true), offset);
      }
      if offset < |content| && content[offset] == QUOTE {
        var s := ReadString();
        return if s.Done? then Done(Str(s.value), offset) else Stop(s);
      }
      if offset < |content| && (content[offset] == MINUS || IsDigit(content[offset])) {
        var t := ReadNumber();
        return if t.Done? then Done(Num(t.value), offset) else Stop(t);
      }
      if offset < |content| && content[offset] == OPEN_ARRAY {
        var items := ReadArray(item);
        return if items.Done? then Done(Arr(items.value), offset) else Stop(items);
      }
      if offset < |content| && content[offset] == OPEN_OBJECT {
        var members := ReadObject(item);
        return if members.Done? then Done(Obj(members.value), offset) else Stop(members);
      }
      return Failed;
    }

    /** parse_array. */
    method ReadArray(item: S.Item) returns (r: Parsed<seq<Json>>)
      requires Is(content, offset, OPEN_ARRAY) && item.child == null && item.items == []
      modifies this, item`child, item`items
      ensures r == ParseArray(content, old(offset), old(depth)) && (r.Done? ==> offset == r.next && depth == old(depth))
      ensures r.Done? ==> item.Valid() && |item.items| == |r.value| && forall x :: x in item.items ==> fresh(x)
      decreases |content| - offset, 1
    {
      hide ParseValue, ParseItems, SkipWs;
      if depth >= NESTING_LIMIT {
        return Failed;
      }
      depth := depth + 1;
      offset := offset + 1;
      SkipWhitespace();
      if offset < |content| && content[offset] == CLOSE_ARRAY {
        depth, offset := depth - 1, offset + 1;
        return Done([], offset);
      }
      if offset >= |content| {
        return Failed;
      }
      r := ReadItems(item);
      if r.Done? {
        depth, offset := depth - 1, offset + 1;
      }
    }

    /** Its loop, which stops at the closing bracket, and the links of the elements. */
    method ReadItems(item: S.Item) returns (r: Parsed<seq<Json>>)
      requires offset <= |content| && item.child == null && item.items == []
      modifies this, item`child, item`items
      ensures r == ParseItems(content, old(offset), old(depth)) && (r.Done? ==> offset + 1 == r.next && depth == old(depth))
      ensures r.Done? ==> item.Valid() && |item.items| == |r.value| && forall x :: x in item.items ==> fresh(x)
      decreases |content| - offset, 4
    {
      hide ParseValue, ParseItems, SkipWs, S.Growing, S.Siblings;
      var items: seq<Json> := [];
      ChainStart(ParseItems(content, offset, depth));
      var head: S.Item?, current: S.Item? := null, null;
      ghost var chain: seq<S.Item> := [];
      NothingLinked();
      var more := true;
      while more
        invariant depth == old(depth) && old(offset) <= offset <= |content|
        invariant S.Growing(head, current, chain) && |chain| == |items| && forall x :: x in chain ==> fresh(x)
        invariant more ==> Chained(items, ParseItems(content, offset, depth)) == ParseItems(content, old(offset), depth)
        invariant !more ==> ParseItems(content, old(offset), depth) == Done(items, offset + 1)
        decreases more, |content| - offset
      {
        ItemsStep(content, offset, depth);
        var v, newItem;
        head, newItem, v := ReadItem(head, current, chain);
        current, chain := newItem, chain + [newItem];
        if !v.Done? {
          return Stop(v);
        }
        if offset >= |content| {
          return Failed;
        }
        ChainOne(items, v.value, ParseItems(content, offset + 1, depth));
        items := items + [v.value];
        if content[offset] == COMMA {
          offset := offset + 1;
        } else if content[offset] == CLOSE_ARRAY {
          more := false;
        } else {
          return Failed;
        }
      }
      item.TakeChildren(head, current, chain);
      return Done(items, offset + 1);
    }

    /** One turn of it: a new item is linked behind the others and a value is read into it. */
    method ReadItem(head: S.Item?, current: S.Item?, ghost chain: seq<S.Item>)
      returns (newHead: S.Item, newItem: S.Item, v: Parsed<Json>)
      requires S.Growing(head, current, chain)
      modifies this, (set x | x in chain)`next
      ensures fresh(newItem) && S.Growing(newHead, newItem, chain + [newItem])
      ensures v == ParseValue(content, SkipWs(content, old(offset)), old(depth))
      ensures v.Done? ==> offset == SkipWs(content, v.next) && depth == old(depth)
      decreases |content| - offset, 3
    {
      hide ParseValue, SkipWs, S.Growing, S.Siblings;
      newItem := new S.Item();
      newHead := S.Grow(head, current, newItem, chain);
      SkipWhitespace();
      v := ReadValue(newItem);
      if v.Done? {
        SkipWhitespace();
      }
    }

    /** The name of a member and its colon, up to the value. */
    method ReadName() returns (r: Parsed<seq<byte>>)
      modifies this`offset
      ensures r == ParseName(content, old(offset)) && (r.Done? ==> offset == r.next)
    {
      hide ParseString, SkipWs;
      SkipWhitespace();
      r := ReadString();
      if !r.Done? {
        return Stop(r);
      }
      SkipWhitespace();
      if offset >= |content| || content[offset] != COLON {
        return Failed;
      }
      offset := offset + 1;
      SkipWhitespace();
      return Done(r.value, offset);
    }

    /** parse_object. */
    method ReadObject(item: S.Item) returns (r: Parsed<seq<Member>>)
      requires Is(content, offset, OPEN_OBJECT) && item.child == null && item.items == []
      modifies this, item`child, item`items
      ensures r == ParseObject(content, old(offset), old(depth)) && (r.Done? ==> offset == r.next && depth == old(depth))
      ensures r.Done? ==> item.Valid() && |item.items| == |r.value| && forall x :: x in item.items ==> fresh(x)
      decreases |content| - offset, 1
    {
      hide ParseValue, ParseMembers, SkipWs;
      if depth >= NESTING_LIMIT {
        return Failed;
      }
      depth := depth + 1;
      offset := offset + 1;
      SkipWhitespace();
      if offset < |content| && content[offset] == CLOSE_OBJECT {
        depth, offset := depth - 1, offset + 1;
        return Done([], offset);
      }
      if offset >= |content| {
        return Failed;
      }
      r := ReadMembers(item);
      if r.Done? {
        depth, offset := depth - 1, offset + 1;
      }
    }

    /** Its loop, which stops at the closing brace, and the links of the members. */
    method ReadMembers(item: S.Item) returns (r: Parsed<seq<Member>>)
      requires offset <= |content| && item.child == null && item.items == []
      modifies this, item`child, item`items
      ensures r == ParseMembers(content, old(offset), old(depth)) && (r.Done? ==> offset + 1 == r.next && depth == old(depth))
      ensures r.Done? ==> item.Valid() && |item.items| == |r.value| && forall x :: x in item.items ==> fresh(x)
      decreases |content| - offset, 4
    {
      hide ParseMember, ParseMembers, SkipWs, S.Growing, S.Siblings;
      var members: seq<Member> := [];
      ChainStart(ParseMembers(content, offset, depth));
      var head: S.Item?, current: S.Item? := null, null;
      ghost var chain: seq<S.Item> := [];
      NothingLinked();
      var more := true;
      while more
        invariant depth == old(depth) && old(offset) <= offset <= |content|
        invariant S.Growing(head, current, chain) && |chain| == |members| && forall x :: x in chain ==> fresh(x)
        invariant more ==> Chained(members, ParseMembers(content, offset, depth)) == ParseMembers(content, old(offset), depth)
        invariant !more ==> ParseMembers(content, old(offset), depth) == Done(members, offset + 1)
        decreases more, |content| - offset
      {
        MembersStep(content, offset, depth);
        var m, newItem;
        head, newItem, m := ReadMember(head, current, chain);
        current, chain := newItem, chain + [newItem];
        if !m.Done? {
          return Stop(m);
        }
        if offset >= |content| {
          return Failed;
        }
        ChainOne(members, m.value, ParseMembers(content, offset + 1, depth));
        members := members + [m.value];
        if content[offset] == COMMA {
          offset := offset + 1;
        } else if content[offset] == CLOSE_OBJECT {
          more := false;
        } else {
          return Failed;
        }
      }
      item.TakeChildren(head, current, chain);
      return Done(members, offset + 1);
    }

    /** One turn of it: a new item is linked behind the others, and its name and value are read. */
    method ReadMember(head: S.Item?, current: S.Item?, ghost chain: seq<S.Item>)
      returns (newHead: S.Item, newItem: S.Item, m: Parsed<Member>)
      requires S.Growing(head, current, chain)
      modifies this, (set x | x in chain)`next
      ensures fresh(newItem) && S.Growing(newHead, newItem, chain + [newItem])
      ensures m == ParseMember(content, old(offset), old(depth))
      ensures m.Done? ==> offset == SkipWs(content, m.next) && depth == old(depth)
      decreases |content| - offset, 3
    {
      hide ParseValue, ParseName, SkipWs, S.Growing, S.Siblings;
      newItem := new S.Item();
      newHead := S.Grow(head, current, newItem, chain);
      var name := ReadName();
      if !name.Done? {
        return newHead, newItem, Stop(name);
      }
      var v := ReadValue(newItem);
      if !v.Done? {
        return newHead, newItem, Stop(v);
      }
      SkipWhitespace();
      return newHead, newItem, Done(Member(name.value, v.value), v.next);
    }
  }

  /** cJSON_ParseWithLengthOpts; null when the text is not accepted. */
  method ParseText(content: seq<byte>, terminated: bool) returns (r: Parsed<Json>, root: S.Item?)
    ensures r == ParseOpts(content, terminated) && (root != null <==> r.Done?)
    ensures r.Done? ==> fresh(root) && root.Valid() && |root.items| == Children(r.value)
  {
    hide ParseValue, SkipWs;
    if content == [] {
      return Failed, null;
    }
    var b := new ParseBuffer(content);
    var item := new S.Item();
    if |content| > 4 && content[..3] == [0xEF, 0xBB, 0xBF] {
      b.offset := 3;
    }
    b.SkipWhitespace();
    r := b.ReadValue(item);
    if r.Done? && terminated {
      b.SkipWhitespace();
      if b.offset >= |content| || content[b.offset] != 0 {
        return Failed, null;
      }
    }
    root := if r.Done? then item else null;
  }

  // ---------- the parsing functions in steps ----------

  /** What a list is after some elements have already been read. */
  function Chained<T>(done: seq<T>, r: Parsed<seq<T>>): Parsed<seq<T>> {
    if r.Done? then Done(done + r.value, r.next) else r
  }

  lemma ChainStart<T>(r: Parsed<seq<T>>)
    ensures Chained([], r) == r
  {
    if r.Done? {
      assert [] + r.value == r.value;
    }
  }

  lemma ChainOne<T>(done: seq<T>, x: T, r: Parsed<seq<T>>)
    ensures Chained(done, Following(x, r)) == Chained(done + [x], r)
    ensures done + [x] == done + ([x] + [])
  {
    if r.Done? {
      assert done + ([x] + r.value) == done + [x] + r.value;
    }
  }

  lemma ItemsStep(c: seq<byte>, o: nat, depth: nat)
    ensures var v, r := ParseValue(c, SkipWs(c, o), depth), ParseItems(c, o, depth);
            if !v.Done? then r == Stop(v)
            else
              var e := SkipWs(c, v.next);
              r == if Is(c, e, COMMA) then Following(v.value, ParseItems(c, e + 1, depth))
                   else if Is(c, e, CLOSE_ARRAY) then Done([v.value], e + 1)
                   else Failed
  {
    hide ParseValue, SkipWs;
  }

  /** A member: name and value. */
  function ParseMember(c: seq<byte>, o: nat, depth: nat): (r: Parsed<Member>)
    ensures r.Done? ==> o < r.next <= |c|
  {
    var name := ParseName(c, o);
    if !name.Done? then Stop(name)
    else
      var v := ParseValue(c, name.next, depth);
      if v.Done? then Done(Member(name.value, v.value), v.next) else Stop(v)
  }

  lemma MembersStep(c: seq<byte>, o: nat, depth: nat)
    ensures var m, r := ParseMember(c, o, depth), ParseMembers(c, o, depth);
            if !m.Done? then r == Stop(m)
            else
              var e := SkipWs(c, m.next);
              r == if Is(c, e, COMMA) then Following(m.value, ParseMembers(c, e + 1, depth))
                   else if Is(c, e, CLOSE_OBJECT) then Done([m.value], e + 1)
                   else Failed
  {
    hide ParseValue, ParseName, SkipWs;
  }

  lemma NothingLinked()
    ensures S.Growing(null, null, [])
  {
  }

  lemma RunAt(c: seq<byte>, o: nat, cap: nat)
    requires o <= |c|
    ensures RunFrom(c, o, cap) == if cap == 0 || o == |c| || !NumberByte(c[o]) then 0 else 1 + RunFrom(c, o + 1, cap - 1)
  {
    if o < |c| {
      assert c[o..][0] == c[o] && c[o..][1..] == c[o + 1..];
    }
  }

  lemma NumberTaken(c: seq<byte>, o: nat, i: nat, taken: nat)
    requires o + i <= |c| && i == RunFrom(c, o, READ_LENGTH_MAX) && taken == StrtodLength(c[o..o + i])
    ensures ParseNumber(c, o) == if taken == 0 then Failed else Done(c[o..o + i][..taken], o + taken)
  {
    hide RunFrom, StrtodLength;
    assert c[o..o + i][..taken] == c[o..o + taken];
  }

  /** One turn of the decoding loop: the bytes of a token and its length. */
  function Token(c: seq<byte>, p: nat, end: nat): Option<(seq<byte>, nat)>
    requires p < end < |c|
  {
    if c[p] != BACKSLASH then Some(([c[p]], 1))
    else if c[p + 1] == LETTER_U then Utf16Literal(c[p..end])
    else if ShortEscape(c[p + 1]).Some? then Some(([ShortEscape(c[p + 1]).value], 2))
    else None
  }

  lemma DecodeStart(c: seq<byte>, start: nat)
    requires start <= |c|
    ensures EscapesBefore(c, start, start) == 0
    ensures forall r :: Prefix([], r) == r
  {
    forall r ensures Prefix([], r) == r {
      if r.Some? { assert [] + r.value == r.value; }
    }
  }

  lemma DecodeEnd(c: seq<byte>, p: nat, end: nat)
    requires p >= end && end < |c|
    ensures Decode(c, p, end) == Some([])
  {
  }

  /** A token decodes to its bytes, and to no more of them than the measuring loop leaves room for. */
  lemma DecodeToken(c: seq<byte>, start: nat, p: nat, end: nat, token: Option<(seq<byte>, nat)>)
    requires start <= p < end < |c| && token == Token(c, p, end)
    ensures token.None? ==> Decode(c, p, end).None?
    ensures token.Some? ==>
      var (s, n) := token.value;
      1 <= n && p + n <= end + 1 && Decode(c, p, end) == Prefix(s, Decode(c, p + n, end)) &&
      EscapesBefore(c, start, p + n) + |s| <= EscapesBefore(c, start, p) + n
  {
    if token.Some? {
      if c[p] != BACKSLASH {
        EscapesStep(c, start, p);
      } else if c[p + 1] == LETTER_U {
        TokenFits(c, start, p, end);
      } else {
        EscapesTwo(c, start, p);
      }
    }
    hide Utf16Literal, EscapesBefore;
  }

  /** At any point at or before the closing quote the escapes still to come have their bytes. */
  lemma {:induction false} EscapesGrow(c: seq<byte>, start: nat, p: nat, end: nat)
    requires start <= p <= end + 1 && end < |c| && c[end] == QUOTE
    ensures p - EscapesBefore(c, start, p) <= end + 1 - EscapesBefore(c, start, end)
    decreases end + 1 - p
  {
    if p == end + 1 {
      EscapesStep(c, start, end);
    } else {
      EscapesStep(c, start, p);
      EscapesGrow(c, start, p + 1, end);
    }
  }

  lemma EscapesBound(c: seq<byte>, start: nat, end: nat)
    requires start <= end < |c| && c[end] == QUOTE
    ensures EscapesBefore(c, start, end) <= end + 1 - start
  {
    DecodeStart(c, start);
    EscapesGrow(c, start, start, end);
  }

  lemma PrefixJoin(a: seq<byte>, s: seq<byte>, r: Option<seq<byte>>)
    ensures Prefix(a, Prefix(s, r)) == Prefix(a + s, r)
  {
    if r.Some? {
      assert a + (s + r.value) == a + s + r.value;
    }
  }
}
