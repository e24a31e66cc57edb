/**
 JSON values, their printed text and the recursive parser, as functions on bytes
 (print_value and parse_value with their array and object cases in
 test-tools/host-tool/external/cJSON/cJSON.c).
 */
module JsonTree {
  import opened Bytes
  import opened JsonNumber
  import opened JsonText

  const NESTING_LIMIT := 1000

  const TAB: byte := 9
  const NEWLINE: byte := 10
  const SPACE: byte := 0x20
  const COMMA: byte := 0x2C
  const COLON: byte := 0x3A
  const OPEN_ARRAY: byte := 0x5B
  const CLOSE_ARRAY: byte := 0x5D
  const OPEN_OBJECT: byte := 0x7B
  const CLOSE_OBJECT: byte := 0x7D

  const NULL_TEXT: seq<byte> := [0x6E, 0x75, 0x6C, 0x6C]
  const TRUE_TEXT: seq<byte> := [0x74, 0x72, 0x75, 0x65]
  const FALSE_TEXT: seq<byte> := [0x66, 0x61, 0x6C, 0x73, 0x65]

  datatype Json =
    | Null
    | Bool(b: bool)
    /** A number, by the text that it is printed as or read from. */
    | Num(text: seq<byte>)
    | Str(s: seq<byte>)
    | Arr(items: seq<Json>)
    | Obj(members: seq<Member>)

  datatype Member = Member(name: seq<byte>, value: Json)

  // ---------- printing ----------

  function Tabs(n: nat): (s: seq<byte>)
    ensures |s| == n
  {
    seq(n, _ => TAB)
  }

  /** The text of a value at nesting depth `depth`; `format` asks for line breaks and indentation. */
  function Text(v: Json, format: bool, depth: nat): seq<byte> {
    match v
    case Null => NULL_TEXT
    case Bool(b) => if b then TRUE_TEXT else FALSE_TEXT
    case Num(t) => t
    case Str(s) => Quoted(s)
    case Arr(items) => [OPEN_ARRAY] + ItemsText(items, format, depth + 1) + [CLOSE_ARRAY]
    case Obj(members) =>
      [OPEN_OBJECT] + (if format then [NEWLINE] else []) + MembersText(members, format, depth + 1) +
      (if format then Tabs(depth) else []) + [CLOSE_OBJECT]
  }

  function Separator(format: bool): seq<byte> { if format then [COMMA, SPACE] else [COMMA] }

  function ItemsText(items: seq<Json>, format: bool, depth: nat): seq<byte> {
    if items == [] then []
    else
      Text(items[0], format, depth) +
      (if |items| == 1 then [] else Separator(format) + ItemsText(items[1..], format, depth))
  }

  /** What precedes the value of a member: indentation, name, colon. */
  function NameText(name: seq<byte>, format: bool, depth: nat): seq<byte> {
    (if format then Tabs(depth) else []) + Quoted(name) + [COLON] + (if format then [TAB] else [])
  }

  /** What follows it: a comma unless it is the last, and a line break. */
  function MemberEnd(last: bool, format: bool): seq<byte> {
    (if last then [] else [COMMA]) + (if format then [NEWLINE] else [])
  }

  function MembersText(members: seq<Member>, format: bool, depth: nat): seq<byte> {
    if members == [] then []
    else
      NameText(members[0].name, format, depth) + Text(members[0].value, format, depth) +
      MemberEnd(|members| == 1, format) + MembersText(members[1..], format, depth)
  }

  // ---------- parsing ----------

  /** buffer_skip_whitespace: every byte up to 32 counts as white space; the end of the buffer is never reached. */
  function SkipWs(c: seq<byte>, o: nat): (r: nat)
    ensures o < |c| ==> o <= r < |c|
    ensures o >= |c| ==> r == o
    decreases |c| - o
  {
    if o >= |c| then o
    else if c[o] > 32 then o
    else if o + 1 == |c| then o
    else SkipWs(c, o + 1)
  }

  predicate Is(c: seq<byte>, o: nat, b: byte) { o < |c| && c[o] == b }

  /** What came in the way of a value comes in the way of what contains it. */
  function Stop<T, U>(r: Parsed<T>): (s: Parsed<U>)
    requires !r.Done?
    ensures s.Overread? <==> r.Overread?
    ensures !s.Done?
  {
    if r.Overread? then Overread else Failed
  }

  /** parse_value at offset `o` inside `depth` arrays and objects. */
  function ParseValue(c: seq<byte>, o: nat, depth: nat): (r: Parsed<Json>)
    ensures r.Done? ==> o < r.next <= |c|
    decreases |c| - o, 2
  {
    if TextAt(c, o, NULL_TEXT) then Done(Null, o + 4)
    else if TextAt(c, o, FALSE_TEXT) then Done(Bool(false), o + 5)
    else if TextAt(c, o, TRUE_TEXT) then Done(Bool(true), o + 4)
    else if Is(c, o, QUOTE) then
      var s := ParseString(c, o);
      if s.Done? then Done(Str(s.value), s.next) else Stop(s)
    else if o < |c| && (c[o] == MINUS || IsDigit(c[o])) then
      var t := ParseNumber(c, o);
      if t.Done? then Done(Num(t.value), t.next) else Stop(t)
    else if Is(c, o, OPEN_ARRAY) then
      var items := ParseArray(c, o, depth);
      if items.Done? then Done(Arr(items.value), items.next) else Stop(items)
    else if Is(c, o, OPEN_OBJECT) then
      var members := ParseObject(c, o, depth);
      if members.Done? then Done(Obj(members.value), members.next) else Stop(members)
    else Failed
  }

  /** parse_array at its opening bracket. */
  function ParseArray(c: seq<byte>, o: nat, depth: nat): (r: Parsed<seq<Json>>)
    requires Is(c, o, OPEN_ARRAY)
    ensures r.Done? ==> o < r.next <= |c|
    decreases |c| - o, 1
  {
    if depth >= NESTING_LIMIT then Failed
    else
      var p := SkipWs(c, o + 1);
      if Is(c, p, CLOSE_ARRAY) then Done([], p + 1)
      else if p >= |c| then Failed
      else ParseItems(c, p, depth + 1)
  }

  /** One element, then a comma and more, or the closing bracket. */
  function ParseItems(c: seq<byte>, o: nat, depth: nat): (r: Parsed<seq<Json>>)
    ensures r.Done? ==> o < r.next <= |c|
    decreases |c| - o, 3
  {
    var v := ParseValue(c, SkipWs(c, o), depth);
    if !v.Done? then Stop(v)
    else
      var e := SkipWs(c, v.next);
      if Is(c, e, COMMA) then Following(v.value, ParseItems(c, e + 1, depth))
      else if Is(c, e, CLOSE_ARRAY) then Done([v.value], e + 1)
      else Failed
  }

  /** A list with one more element in front. */
  function Following<T>(x: T, rest: Parsed<seq<T>>): Parsed<seq<T>> {
    if rest.Done? then Done([x] + rest.value, rest.next) else Stop(rest)
  }

  /** parse_object at its opening brace. */
  function ParseObject(c: seq<byte>, o: nat, depth: nat): (r: Parsed<seq<Member>>)
    requires Is(c, o, OPEN_OBJECT)
    ensures r.Done? ==> o < r.next <= |c|
    decreases |c| - o, 1
  {
    if depth >= NESTING_LIMIT then Failed
    else
      var p := SkipWs(c, o + 1);
      if Is(c, p, CLOSE_OBJECT) then Done([], p + 1)
      else if p >= |c| then Failed
      else ParseMembers(c, p, depth + 1)
  }

  /** A name and its colon: the name, and the offset of the value. */
  function ParseName(c: seq<byte>, o: nat): (r: Parsed<seq<byte>>)
    ensures r.Done? ==> o < r.next
    ensures r.Overread? <==> o >= |c|
  {
    var name := ParseString(c, SkipWs(c, o));
    if !name.Done? then Stop(name)
    else
      var k := SkipWs(c, name.next);
      if Is(c, k, COLON) then Done(name.value, SkipWs(c, k + 1)) else Failed
  }

  /** One member, then a comma and more, or the closing brace. */
  function ParseMembers(c: seq<byte>, o: nat, depth: nat): (r: Parsed<seq<Member>>)
    ensures r.Done? ==> o < r.next <= |c|
    decreases |c| - o, 3
  {
    var name := ParseName(c, o);
    if !name.Done? then Stop(name)
    else
      var v := ParseValue(c, name.next, depth);
      if !v.Done? then Stop(v)
      else
        var e := SkipWs(c, v.next);
        if Is(c, e, COMMA) then Following(Member(name.value, v.value), ParseMembers(c, e + 1, depth))
        else if Is(c, e, CLOSE_OBJECT) then Done([Member(name.value, v.value)], e + 1)
        else Failed
  }

  /** Where a text begins: behind a byte order mark, which is looked for only in buffers of 5 bytes or more, and white space. */
  function Start(c: seq<byte>): nat {
    SkipWs(c, if |c| > 4 && c[..3] == [0xEF, 0xBB, 0xBF] then 3 else 0)
  }

  /** cJSON_ParseWithLengthOpts on a buffer, without asking for a terminator behind the value. */
  function Parse(c: seq<byte>): Parsed<Json> {
    if c == [] then Failed else ParseValue(c, Start(c), 0)
  }

  /** The same with the option to ask for a terminator behind the value, which cJSON_Parse does not. */
  function ParseOpts(c: seq<byte>, terminated: bool): Parsed<Json> {
    var r := Parse(c);
    if r.Done? && terminated && !Is(c, SkipWs(c, r.next), 0) then Failed else r
  }

  // ---------- which trees round-trip ----------

  function Max(a: nat, b: nat): nat { if a > b then a else b }

  /** How many arrays and objects are nested in a value. */
  function Height(v: Json): nat {
    match v
    case Arr(items) => 1 + ItemsHeight(items)
    case Obj(members) => 1 + MembersHeight(members)
    case _ => 0
  }

  function ItemsHeight(items: seq<Json>): nat {
    if items == [] then 0 else Max(Height(items[0]), ItemsHeight(items[1..]))
  }

  function MembersHeight(members: seq<Member>): nat {
    if members == [] then 0 else Max(Height(members[0].value), MembersHeight(members[1..]))
  }

  /** All strings and names are free of NUL, and numbers are as they are printed. */
  ghost predicate Plain(v: Json) {
    match v
    case Num(t) => NumberText(t)
    case Str(s) => NulFree(s)
    case Arr(items) => PlainItems(items)
    case Obj(members) => PlainMembers(members)
    case _ => true
  }

  ghost predicate PlainItems(items: seq<Json>) { items == [] || (Plain(items[0]) && PlainItems(items[1..])) }

  ghost predicate PlainMembers(members: seq<Member>) {
    members == [] || (NulFree(members[0].name) && Plain(members[0].value) && PlainMembers(members[1..]))
  }
}
