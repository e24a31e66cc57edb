/**
 What is printed, spelled out: the words, how lists are joined, line breaks and indentation, and how
 each byte of a string is escaped (test-tools/host-tool/external/cJSON/cJSON.c).
 */
module JsonLaws {
  import opened Bytes
  import opened JsonText
  import opened JsonTree

  /** The parts, with a separator between them. */
  function Join(parts: seq<seq<byte>>, sep: seq<byte>): seq<byte> {
    if parts == [] then [] else if |parts| == 1 then parts[0] else parts[0] + sep + Join(parts[1..], sep)
  }

  function ItemTexts(items: seq<Json>, format: bool, depth: nat): seq<seq<byte>> {
    seq(|items|, i requires 0 <= i < |items| => Text(items[i], format, depth))
  }

  /** A member by itself: indented by tabs and with a tab behind the colon when formatted. */
  function MemberTexts(members: seq<Member>, format: bool, depth: nat): seq<seq<byte>> {
    seq(|members|, i requires 0 <= i < |members| =>
      var m := members[i];
      if format then Repeat(9, depth) + Text(Str(m.name), format, depth) + [0x3A, 9] + Text(m.value, format, depth)
      else Text(Str(m.name), format, depth) + [0x3A] + Text(m.value, format, depth))
  }

  function Repeat(b: byte, n: nat): seq<byte> { if n == 0 then [] else [b] + Repeat(b, n - 1) }

  /** Words and numbers are printed as they are; elements are joined by commas, with a space behind each when formatted. */
  lemma PrintedValues(v: Json, format: bool, depth: nat)
    ensures Text(Null, format, depth) == [0x6E, 0x75, 0x6C, 0x6C]
    ensures Text(Bool(true), format, depth) == [0x74, 0x72, 0x75, 0x65]
    ensures Text(Bool(false), format, depth) == [0x66, 0x61, 0x6C, 0x73, 0x65]
    ensures v.Num? ==> Text(v, format, depth) == v.text
    ensures v.Arr? ==>
      Text(v, format, depth) == [0x5B] + Join(ItemTexts(v.items, format, depth + 1), if format then [0x2C, 0x20] else [0x2C]) + [0x5D]
  {
    if v.Arr? {
      JoinedItems(v.items, format, depth + 1);
    }
    hide ItemsText, Join, ItemTexts, MembersText;
  }

  lemma {:induction false} JoinedItems(items: seq<Json>, format: bool, depth: nat)
    ensures ItemsText(items, format, depth) == Join(ItemTexts(items, format, depth), if format then [0x2C, 0x20] else [0x2C])
  {
    hide Text;
    if items != [] {
      JoinedItems(items[1..], format, depth);
      assert ItemTexts(items, format, depth)[1..] == ItemTexts(items[1..], format, depth);
      var sep := if format then [0x2C, 0x20] else [0x2C];
      assert Separator(format) == sep;
      hide Join, ItemsText;
      assert Text(items[0], format, depth) + sep + Join(ItemTexts(items[1..], format, depth), sep) ==
             Text(items[0], format, depth) + (sep + Join(ItemTexts(items[1..], format, depth), sep));
    }
  }

  /** Members are joined by commas; formatted, each is on a line of its own and the closing brace, too. */
  lemma PrintedObjects(members: seq<Member>, format: bool, depth: nat)
    ensures var parts := MemberTexts(members, format, depth + 1);
            Text(Obj(members), format, depth) ==
            if !format then [0x7B] + Join(parts, [0x2C]) + [0x7D]
            else [0x7B, 10] + Join(parts, [0x2C, 10]) + (if members == [] then [] else [10]) + Repeat(9, depth) + [0x7D]
  {
    JoinedMembers(members, format, depth + 1);
    TabsRepeat(depth);
    ObjectText(members, format, depth);
    hide *;
    var end := if members == [] then [] else [10];
    if format { LinesRegroup(Join(MemberTexts(members, format, depth + 1), [0x2C, 10]), end, Repeat(9, depth)); }
  }

  lemma ObjectText(members: seq<Member>, format: bool, depth: nat)
    ensures Text(Obj(members), format, depth) ==
            if format then [0x7B] + [10] + MembersText(members, format, depth + 1) + Tabs(depth) + [0x7D]
            else [0x7B] + MembersText(members, format, depth + 1) + [0x7D]
  {
    hide MembersText;
    var m := MembersText(members, format, depth + 1);
    assert !format ==> [0x7B] + [] + m + [] + [0x7D] == [0x7B] + m + [0x7D];
  }

  lemma LinesRegroup(j: seq<byte>, end: seq<byte>, tabs: seq<byte>)
    ensures [0x7B] + [10] + (j + end) + tabs + [0x7D] == [0x7B, 10] + j + end + tabs + [0x7D]
  {
    assert [0x7B] + [10] == [0x7B, 10];
  }

  lemma {:induction false} TabsRepeat(n: nat)
    ensures Tabs(n) == Repeat(9, n)
  {
    if n > 0 {
      TabsRepeat(n - 1);
      assert Tabs(n) == [9] + Tabs(n - 1);
    }
  }

  lemma {:induction false} JoinedMembers(members: seq<Member>, format: bool, depth: nat)
    ensures MembersText(members, format, depth) ==
            if format then Join(MemberTexts(members, format, depth), [0x2C, 10]) + (if members == [] then [] else [10])
            else Join(MemberTexts(members, format, depth), [0x2C])
  {
    var sep := if format then [0x2C, 10] else [0x2C];
    if members == [] {
      NoMembers(format, depth);
    } else {
      hide *;
      var x, rest := MemberTexts([members[0]], format, depth)[0], members[1..];
      JoinedMembers(rest, format, depth);
      MembersStep(members, format, depth);
      JoinStep(members, format, depth, sep);
      Regroup(x, sep, Join(MemberTexts(rest, format, depth), sep));
      NoMembers(format, depth);
    }
  }

  lemma NoMembers(format: bool, depth: nat)
    ensures MembersText([], format, depth) == [] && Join(MemberTexts([], format, depth), if format then [0x2C, 10] else [0x2C]) == []
  {
  }

  lemma MembersStep(members: seq<Member>, format: bool, depth: nat)
    requires members != []
    ensures |MemberTexts([members[0]], format, depth)| == 1
    ensures MembersText(members, format, depth) ==
            MemberTexts([members[0]], format, depth)[0]
            + (if |members| == 1 then (if format then [10] else []) else if format then [0x2C, 10] else [0x2C])
            + MembersText(members[1..], format, depth)
  {
    OneMember(members[0], format, depth);
    assert MemberEnd(false, format) == if format then [0x2C, 10] else [0x2C];
    assert MemberEnd(true, format) == if format then [10] else [];
    hide Text, NameText, MemberTexts, MemberEnd;
  }

  lemma JoinStep(members: seq<Member>, format: bool, depth: nat, sep: seq<byte>)
    requires members != []
    ensures |MemberTexts([members[0]], format, depth)| == 1
    ensures Join(MemberTexts(members, format, depth), sep) ==
            if |members| == 1 then MemberTexts([members[0]], format, depth)[0]
            else MemberTexts([members[0]], format, depth)[0] + sep + Join(MemberTexts(members[1..], format, depth), sep)
  {
    assert MemberTexts(members, format, depth)[1..] == MemberTexts(members[1..], format, depth);
    assert MemberTexts(members, format, depth)[0] == MemberTexts([members[0]], format, depth)[0];
  }

  lemma Regroup(x: seq<byte>, sep: seq<byte>, j: seq<byte>)
    ensures x + sep + (j + [10]) == x + sep + j + [10] && x + [10] + [] == x + [10] && x + [] + [] == x
  {
  }

  lemma OneMember(m: Member, format: bool, depth: nat)
    ensures NameText(m.name, format, depth) + Text(m.value, format, depth) == MemberTexts([m], format, depth)[0]
  {
    TabsRepeat(depth);
    assert [COLON] + [9] == [0x3A, 9];
  }

  // ---------- strings ----------

  const HEX: seq<byte> := [0x30, 0x31, 0x32, 0x33, 0x34, 0x35, 0x36, 0x37, 0x38, 0x39, 0x61, 0x62, 0x63, 0x64, 0x65, 0x66]

  /** A string is quoted, and its bytes are escaped one by one. */
  lemma PrintedStrings(a: seq<byte>, b: byte, c: seq<byte>, format: bool, depth: nat)
    ensures Text(Str(a + [b] + c), format, depth) == [0x22] + EscapeAll(a) + EscapeAll([b]) + EscapeAll(c) + [0x22]
    ensures EscapeAll([]) == []
    ensures EscapeAll([b]) ==
            if b == 0x22 then [0x5C, 0x22] else if b == 0x5C then [0x5C, 0x5C]
            else if b == 8 then [0x5C, 0x62] else if b == 9 then [0x5C, 0x74] else if b == 10 then [0x5C, 0x6E]
            else if b == 12 then [0x5C, 0x66] else if b == 13 then [0x5C, 0x72]
            else if b < 32 then [0x5C, 0x75, 0x30, 0x30, HEX[b / 16], HEX[b % 16]]
            else [b]
  {
    EscapeParts(a + [b], c);
    EscapeParts(a, [b]);
    EscapeOne(b);
    hide EscapeAll;
  }

  lemma EscapeOne(b: byte)
    ensures EscapeAll([b]) == EscapeByte(b) && EscapeAll([]) == []
    ensures b < 32 ==> LowerHex(b / 16) == HEX[b / 16] && LowerHex(b % 16) == HEX[b % 16]
  {
    assert [b][1..] == [];
    assert EscapeByte(b) + [] == EscapeByte(b);
  }

  lemma {:induction false} EscapeParts(a: seq<byte>, b: seq<byte>)
    ensures EscapeAll(a + b) == EscapeAll(a) + EscapeAll(b)
  {
    hide EscapeByte;
    if a == [] {
      assert a + b == b;
    } else {
      assert (a + b)[1..] == a[1..] + b;
      EscapeParts(a[1..], b);
    }
  }

  /** What the short escapes stand for, and what the digits are worth. */
  lemma ReadEscapes(b: byte)
    ensures ShortEscape(b) ==
            if b == 0x62 then Some(8) else if b == 0x66 then Some(12) else if b == 0x6E then Some(10)
            else if b == 0x72 then Some(13) else if b == 0x74 then Some(9)
            else if b in {0x22, 0x5C, 0x2F} then Some(b) else None
    ensures forall i :: 0 <= i < 16 ==> HexDigit(HEX[i]) == Some(i)
    ensures forall i :: 10 <= i < 16 ==> HexDigit(HEX[i] - 0x20) == Some(i)
    ensures HexDigit(b).Some? <==> b in HEX || b in {0x41, 0x42, 0x43, 0x44, 0x45, 0x46}
  {
  }
}
