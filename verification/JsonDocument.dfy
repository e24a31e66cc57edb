/**
 The texts that the parser accepts, as a grammar: values with white space between their parts, as
 in section 2 of RFC 8259, except that every byte up to 32 is white space
 (parse_value with its array and object cases in test-tools/host-tool/external/cJSON/cJSON.c).
 */
module JsonDocument {
  import opened Bytes
  import opened JsonNumber
  import opened JsonText
  import opened JsonTree

  // ---------- the grammar ----------

  predicate Blank(s: seq<byte>) { forall i :: 0 <= i < |s| ==> s[i] <= 32 }

  /** A string literal: spelled with pieces, or any text that is read as a literal by itself. */
  datatype Lit = Spelled(pieces: seq<Piece>) | Raw(text: seq<byte>, value: seq<byte>)

  datatype Doc =
    | NullDoc
    | BoolDoc(b: bool)
    | NumDoc(text: seq<byte>)
    | StrDoc(lit: Lit)
    /** `gap` is what an empty array or object has between its brackets. */
    | ArrDoc(gap: seq<byte>, elements: seq<Element>)
    | ObjDoc(gap: seq<byte>, fields: seq<Field>)

  /** A value in an array, with the white space around it. */
  datatype Element = Element(before: seq<byte>, value: Doc, after: seq<byte>)

  /** A member of an object, with the white space around its name, its colon and its value. */
  datatype Field = Field(before: seq<byte>, name: Lit, toColon: seq<byte>, toValue: seq<byte>, value: Doc, after: seq<byte>)

  predicate GoodLit(l: Lit) {
    match l
    case Spelled(pieces) => GoodPieces(pieces)
    case Raw(text, value) => ParseString(text, 0) == Done(value, |text|)
  }

  function LitText(l: Lit): seq<byte> { if l.Spelled? then Literal(l.pieces) else l.text }

  function LitValue(l: Lit): seq<byte>
    requires GoodLit(l)
  {
    if l.Spelled? then Meaning(l.pieces) else l.value
  }

  ghost predicate Good(d: Doc) {
    match d
    case NumDoc(t) => IsNumeral(t) && |t| <= 63 && t[0] != 0x2B && t[0] != 0x2E
    case StrDoc(lit) => GoodLit(lit)
    case ArrDoc(gap, elements) => Blank(gap) && GoodElements(elements)
    case ObjDoc(gap, fields) => Blank(gap) && GoodFields(fields)
    case _ => true
  }

  ghost predicate GoodElements(es: seq<Element>) {
    es == [] || (Blank(es[0].before) && Good(es[0].value) && Blank(es[0].after) && GoodElements(es[1..]))
  }

  ghost predicate GoodFields(fs: seq<Field>) {
    fs == [] ||
    (Blank(fs[0].before) && GoodLit(fs[0].name) && Blank(fs[0].toColon) && Blank(fs[0].toValue) &&
     Good(fs[0].value) && Blank(fs[0].after) && GoodFields(fs[1..]))
  }

  function DocText(d: Doc): seq<byte> {
    match d
    case NullDoc => [0x6E, 0x75, 0x6C, 0x6C]
    case BoolDoc(b) => if b then [0x74, 0x72, 0x75, 0x65] else [0x66, 0x61, 0x6C, 0x73, 0x65]
    case NumDoc(text) => text
    case StrDoc(lit) => LitText(lit)
    case ArrDoc(gap, elements) => [0x5B] + (if elements == [] then gap + [0x5D] else ElementsText(elements))
    case ObjDoc(gap, fields) => [0x7B] + (if fields == [] then gap + [0x7D] else FieldsText(fields))
  }

  /** The elements with commas between them, and the closing bracket. */
  function ElementsText(es: seq<Element>): seq<byte>
    decreases es, 0
  {
    if es == [] then [] else es[0].before + (DocText(es[0].value) + (es[0].after + ElementsRest(es[1..])))
  }

  function ElementsRest(es: seq<Element>): seq<byte>
    decreases es, 1
  {
    if es == [] then [0x5D] else [0x2C] + ElementsText(es)
  }

  function FieldsText(fs: seq<Field>): seq<byte>
    decreases fs, 1
  {
    if fs == [] then []
    else fs[0].before + (LitText(fs[0].name) + (fs[0].toColon + ([0x3A] + (fs[0].toValue + FieldValueText(fs)))))
  }

  function FieldValueText(fs: seq<Field>): seq<byte>
    requires fs != []
    decreases fs, 0
  {
    DocText(fs[0].value) + (fs[0].after + FieldsRest(fs[1..]))
  }

  function FieldsRest(fs: seq<Field>): seq<byte>
    decreases fs, 2
  {
    if fs == [] then [0x7D] else [0x2C] + FieldsText(fs)
  }

  /** The value that a text stands for. */
  ghost function Value(d: Doc): Json
    requires Good(d)
  {
    match d
    case NullDoc => Null
    case BoolDoc(b) => Bool(b)
    case NumDoc(text) => Num(text)
    case StrDoc(lit) => Str(LitValue(lit))
    case ArrDoc(_, elements) => Arr(Values(elements))
    case ObjDoc(_, fields) => Obj(Members(fields))
  }

  ghost function Values(es: seq<Element>): seq<Json>
    requires GoodElements(es)
  {
    if es == [] then [] else [Value(es[0].value)] + Values(es[1..])
  }

  ghost function Members(fs: seq<Field>): seq<Member>
    requires GoodFields(fs)
  {
    if fs == [] then [] else [Member(LitValue(fs[0].name), Value(fs[0].value))] + Members(fs[1..])
  }

  // ---------- white space ----------

  /** White space between two offsets is skipped up to the first byte that is none. */
  lemma {:induction false} SkipGap(c: seq<byte>, o: nat, w: seq<byte>)
    requires TextAt(c, o, w) && Blank(w) && o + |w| < |c| && c[o + |w|] > 32
    ensures SkipWs(c, o) == o + |w|
    decreases |w|
  {
    if w != [] {
      TextIndex(c, o, w, 0);
      assert w == [w[0]] + w[1..];
      TextSplit(c, o, [w[0]], w[1..]);
      SkipGap(c, o + 1, w[1..]);
    }
  }

  lemma NoGap(c: seq<byte>, o: nat)
    requires o < |c| && c[o] > 32
    ensures SkipWs(c, o) == o
  {
  }

  /** At the end of the buffer the last byte is not passed, white space or not. */
  lemma {:induction false} SkipToEnd(c: seq<byte>, o: nat)
    requires o < |c| && Blank(c[o..])
    ensures SkipWs(c, o) == |c| - 1
    decreases |c| - o
  {
    assert c[o] == c[o..][0];
    if o + 1 < |c| {
      assert c[o + 1..] == c[o..][1..];
      SkipToEnd(c, o + 1);
    }
  }

  lemma TextRoom(c: seq<byte>, o: nat, t: seq<byte>)
    requires TextAt(c, o, t)
    ensures o + |t| <= |c|
  {
  }

  /** White space and then something that begins with another byte. */
  lemma SkipTo(c: seq<byte>, o: nat, w: seq<byte>, t: seq<byte>)
    requires TextAt(c, o, w + t) && Blank(w) && t != [] && t[0] > 32
    ensures SkipWs(c, o) == o + |w| && TextAt(c, o + |w|, t) && c[o + |w|..] != [] && c[o + |w|] == t[0]
  {
    TextSplit(c, o, w, t);
    TextIndex(c, o + |w|, t, 0);
    TextRoom(c, o + |w|, t);
    hide TextAt, SkipWs;
    SkipGap(c, o, w);
  }

  // ---------- literals ----------

  lemma {:induction false} ScanShift(c: seq<byte>, o: nat, t: seq<byte>, i: nat)
    requires TextAt(c, o, t) && i <= |t|
    ensures ScanEnd(t, i).Some? ==> ScanEnd(c, o + i) == Some(o + ScanEnd(t, i).value)
    ensures ScanEnd(c, o + i).Some? && ScanEnd(c, o + i).value < o + |t| ==> ScanEnd(t, i) == Some(ScanEnd(c, o + i).value - o)
    decreases |t| - i
  {
    if i < |t| {
      TextIndex(c, o, t, i);
      if t[i] == BACKSLASH {
        if i + 2 <= |t| { ScanShift(c, o, t, i + 2); }
      } else if t[i] != QUOTE {
        ScanShift(c, o, t, i + 1);
      }
    }
  }

  lemma SliceAt(c: seq<byte>, o: nat, t: seq<byte>, i: nat, j: nat)
    requires TextAt(c, o, t) && i <= j <= |t|
    ensures c[o + i..o + j] == t[i..j]
  {
    forall k | i <= k < j ensures c[o + k] == t[k] {
      TextIndex(c, o, t, k);
    }
  }

  lemma {:induction false} DecodeShift(c: seq<byte>, o: nat, t: seq<byte>, i: nat, end: nat)
    requires TextAt(c, o, t) && end < |t|
    ensures Decode(c, o + i, o + end) == Decode(t, i, end)
    decreases end - i
  {
    hide Utf16Literal, ShortEscape, Prefix;
    if i < end {
      TextIndex(c, o, t, i);
      TextIndex(c, o, t, i + 1);
      SliceAt(c, o, t, i, end);
      if t[i] != BACKSLASH {
        DecodeShift(c, o, t, i + 1, end);
      } else if t[i + 1] == LETTER_U {
        var u := Utf16Literal(t[i..end]);
        if u.Some? { DecodeShift(c, o, t, i + u.value.1, end); }
      } else {
        DecodeShift(c, o, t, i + 2, end);
      }
    }
  }

  /** A literal is read in any place as it is by itself. */
  lemma StringShift(c: seq<byte>, o: nat, t: seq<byte>)
    requires TextAt(c, o, t) && t != []
    ensures ParseString(t, 0).Done? ==> ParseString(c, o) == Done(ParseString(t, 0).value, o + ParseString(t, 0).next)
    ensures ParseString(c, o).Done? && ParseString(c, o).next <= o + |t| ==>
      ParseString(t, 0) == Done(ParseString(c, o).value, ParseString(c, o).next - o)
  {
    TextIndex(c, o, t, 0);
    TextRoom(c, o, t);
    ScanShift(c, o, t, 1);
    hide ScanEnd, Decode, TextAt;
    var end := ScanEnd(t, 1);
    if end.Some? {
      DecodeShift(c, o, t, 1, end.value);
    }
  }

  lemma ReadsLit(c: seq<byte>, o: nat, l: Lit)
    requires GoodLit(l) && TextAt(c, o, LitText(l))
    ensures ParseString(c, o) == Done(LitValue(l), o + |LitText(l)|)
  {
    hide ParseString, Meaning, PiecesText, GoodPieces;
    match l
    case Spelled(pieces) => ParseReadsLiteral(c, o, pieces);
    case Raw(text, value) =>
      assert text != [];
      StringShift(c, o, text);
  }

  lemma LitHead(l: Lit)
    requires GoodLit(l)
    ensures LitText(l) != [] && LitText(l)[0] == 0x22
  {
    hide PiecesText, Decode, ScanEnd;
  }

  // ---------- a value by its first byte ----------

  function AsStr(p: Parsed<seq<byte>>): Parsed<Json> { if p.Done? then Done(Str(p.value), p.next) else Stop(p) }

  function AsNum(p: Parsed<seq<byte>>): Parsed<Json> { if p.Done? then Done(Num(p.value), p.next) else Stop(p) }

  function AsArr(p: Parsed<seq<Json>>): Parsed<Json> { if p.Done? then Done(Arr(p.value), p.next) else Stop(p) }

  function AsObj(p: Parsed<seq<Member>>): Parsed<Json> { if p.Done? then Done(Obj(p.value), p.next) else Stop(p) }

  /** The first byte of a value that is neither a word nor wrong. */
  predicate Telling(b: byte) { b in {QUOTE, MINUS, OPEN_ARRAY, OPEN_OBJECT} || IsDigit(b) }

  lemma ByFirst(c: seq<byte>, o: nat, depth: nat)
    requires o < |c| && Telling(c[o])
    ensures ParseValue(c, o, depth) ==
            if c[o] == QUOTE then AsStr(ParseString(c, o))
            else if c[o] == OPEN_ARRAY then AsArr(ParseArray(c, o, depth))
            else if c[o] == OPEN_OBJECT then AsObj(ParseObject(c, o, depth))
            else AsNum(ParseNumber(c, o))
  {
    NoWord(c, o, NULL_TEXT);
    NoWord(c, o, TRUE_TEXT);
    NoWord(c, o, FALSE_TEXT);
    hide TextAt, ParseString, ParseNumber, ParseArray, ParseObject;
  }

  lemma NoWord(c: seq<byte>, o: nat, w: seq<byte>)
    requires o < |c| && w != [] && c[o] != w[0]
    ensures !TextAt(c, o, w)
  {
    assert o + |w| <= |c| ==> c[o..o + |w|][0] == c[o];
  }

  lemma ByWord(c: seq<byte>, o: nat, depth: nat, d: Doc)
    requires (d.NullDoc? || d.BoolDoc?) && TextAt(c, o, DocText(d))
    ensures ParseValue(c, o, depth) == Done(Value(d), o + |DocText(d)|)
  {
    TextIndex(c, o, DocText(d), 0);
    TextRoom(c, o, DocText(d));
    if d.BoolDoc? {
      NoWord(c, o, NULL_TEXT);
      NoWord(c, o, if d.b then FALSE_TEXT else TRUE_TEXT);
    }
    hide TextAt;
  }

  // ---------- every text of the grammar is read ----------

  /** No number goes on at an offset. */
  predicate NoNumber(c: seq<byte>, p: nat) {
    p < |c| ==> c[p] !in {0x2B, 0x2D, 0x2E, 0x45, 0x65} && !(0x30 <= c[p] <= 0x39)
  }

  lemma NumHead(t: seq<byte>)
    requires IsNumeral(t)
    ensures t != [] && (IsDigit(t[0]) || t[0] in {0x2B, 0x2D, 0x2E})
  {
    hide AllDigits, GoodExponent;
    var n :| Numeral(n) && NumeralText(n) == t;
    UnsignedHead(n, []);
    StartOf(n);
  }

  lemma StartOf(n: Number)
    requires Numeral(n)
    ensures UnsignedText(n) != [] && (IsDigit(UnsignedText(n)[0]) || UnsignedText(n)[0] == 0x2E)
  {
    assert UnsignedText(n)[0] == if n.whole == [] then 0x2E else n.whole[0];
  }

  lemma DocHead(d: Doc)
    requires Good(d)
    ensures var t := DocText(d);
            t != [] && 32 < t[0] < 128 && t[0] != 0x5D && t[0] != 0x7D
    ensures var b := DocText(d)[0];
            match d
            case NumDoc(_) => IsDigit(b) || b == MINUS
            case StrDoc(_) => b == QUOTE
            case ArrDoc(_, _) => b == OPEN_ARRAY
            case ObjDoc(_, _) => b == OPEN_OBJECT
            case _ => true
  {
    match d
    case NumDoc(t) => NumHead(t);
    case StrDoc(lit) => LitHead(lit);
    case _ =>
  }

  /**
   Every text of the grammar is read as the value it stands for, wherever it stands, unless it is
   nested deeper than 1000 or a number goes on behind it.
   */
  lemma {:induction false} ReadsDocument(c: seq<byte>, o: nat, at: nat, d: Doc)
    requires Good(d) && TextAt(c, o, DocText(d)) && at + Height(Value(d)) <= 1000
    requires d.NumDoc? ==> NoNumber(c, o + |DocText(d)|)
    ensures ParseValue(c, o, at) == Done(Value(d), o + |DocText(d)|)
    decreases d, 1
  {
    hide ParseArray, ParseObject, ParseString, ParseNumber, ParseValue, IsNumeral, GoodLit;
    DocHead(d);
    TextIndex(c, o, DocText(d), 0);
    TextRoom(c, o, DocText(d));
    if !d.NullDoc? && !d.BoolDoc? { ByFirst(c, o, at); }
    match d
    case NullDoc => ByWord(c, o, at, d);
    case BoolDoc(b) => ByWord(c, o, at, d);
    case NumDoc(text) => ParseInvertsNumber(c, o, text);
    case StrDoc(lit) => ReadsLit(c, o, lit);
    case ArrDoc(gap, elements) => ReadsArray(c, o, at, gap, elements);
    case ObjDoc(gap, fields) => ReadsObject(c, o, at, gap, fields);
  }

  lemma {:induction false} ReadsArray(c: seq<byte>, o: nat, at: nat, gap: seq<byte>, es: seq<Element>)
    requires Blank(gap) && GoodElements(es) && TextAt(c, o, DocText(ArrDoc(gap, es))) && at + 1 + ItemsHeight(Values(es)) <= 1000
    requires Is(c, o, OPEN_ARRAY)
    ensures ParseArray(c, o, at) == Done(Values(es), o + |DocText(ArrDoc(gap, es))|)
    decreases es, 1
  {
    hide ParseItems, SkipWs, TextAt, ItemsHeight, GoodElements, ElementsText, Blank;
    if es == [] {
      NoElements();
      TextSplit(c, o, [0x5B], gap + [0x5D]);
      SkipTo(c, o + 1, gap, [0x5D]);
    } else {
      TextSplit(c, o, [0x5B], ElementsText(es));
      FirstElement(c, o + 1, es);
      ItemsFromGap(c, o + 1, at + 1);
      ReadsElements(c, o + 1, at + 1, es);
    }
  }

  lemma NoElements()
    ensures GoodElements([]) && Values([]) == []
  {
  }

  /** The list may as well be read from behind its white space. */
  lemma ItemsFromGap(c: seq<byte>, o: nat, at: nat)
    requires SkipWs(c, SkipWs(c, o)) == SkipWs(c, o)
    ensures ParseItems(c, SkipWs(c, o), at) == ParseItems(c, o, at)
  {
    hide SkipWs, ParseValue;
  }

  lemma FirstElement(c: seq<byte>, o: nat, es: seq<Element>)
    requires es != [] && GoodElements(es) && TextAt(c, o, ElementsText(es))
    ensures var p, e := SkipWs(c, o), es[0];
            var t := DocText(e.value);
            && p == o + |e.before| < |c| && SkipWs(c, p) == p && !Is(c, p, CLOSE_ARRAY)
            && TextAt(c, p, t) && TextAt(c, p + |t|, e.after + ElementsRest(es[1..]))
            && o + |ElementsText(es)| == p + |t| + |e.after| + |ElementsRest(es[1..])|
  {
    var e := es[0];
    var t, z := DocText(e.value), e.after + ElementsRest(es[1..]);
    DocHead(e.value);
    assert ElementsText(es) == e.before + (t + z);
    hide TextAt, SkipWs, DocText, ElementsText, ElementsRest, GoodElements, Good, Blank;
    SkipToFirst(c, o, e.before, t, z);
  }

  lemma SkipToFirst(c: seq<byte>, o: nat, w: seq<byte>, t: seq<byte>, z: seq<byte>)
    requires TextAt(c, o, w + (t + z)) && Blank(w) && t != [] && t[0] > 32
    ensures var p := SkipWs(c, o);
            p == o + |w| < |c| && SkipWs(c, p) == p && c[p] == t[0] && TextAt(c, p, t) && TextAt(c, p + |t|, z)
  {
    hide TextAt, SkipWs, Blank;
    HeadOfBoth(t, z);
    SkipTo(c, o, w, t + z);
    TextRoom(c, o + |w|, t + z);
    TextSplit(c, o + |w|, t, z);
    NoGap(c, o + |w|);
  }

  lemma HeadOfBoth(t: seq<byte>, z: seq<byte>)
    requires t != []
    ensures t + z != [] && (t + z)[0] == t[0]
  {
  }

  /** White space or a bracket or a comma behind a value: no number goes on there, and the next part is found. */
  lemma AfterValue(c: seq<byte>, q: nat, after: seq<byte>, rest: seq<byte>)
    requires TextAt(c, q, after + rest) && Blank(after) && rest != [] && rest[0] in {0x2C, 0x5D, 0x7D}
    ensures NoNumber(c, q) && SkipWs(c, q) == q + |after| && Is(c, q + |after|, rest[0]) && TextAt(c, q + |after|, rest)
  {
    SkipTo(c, q, after, rest);
    TextIndex(c, q, after + rest, 0);
    assert c[q] == if after == [] then rest[0] else after[0];
    hide TextAt, SkipWs;
  }

  /** A list of elements, by the first and the others. */
  lemma ElementParts(es: seq<Element>)
    requires es != [] && GoodElements(es)
    ensures var e, rest := es[0], ElementsRest(es[1..]);
            && Blank(e.before) && Good(e.value) && Blank(e.after) && GoodElements(es[1..])
            && Values(es) == [Value(e.value)] + Values(es[1..])
            && rest != [] && rest[0] in {0x2C, 0x5D}
            && (|es| == 1 ==> rest == [0x5D] && es[1..] == [] && Values(es) == [Value(e.value)])
            && (|es| > 1 ==> rest == [0x2C] + ElementsText(es[1..]))
    ensures Height(Value(es[0].value)) <= ItemsHeight(Values(es)) && ItemsHeight(Values(es[1..])) <= ItemsHeight(Values(es))
  {
    assert Values(es)[1..] == Values(es[1..]);
  }

  lemma {:induction false} ReadsElements(c: seq<byte>, o: nat, at: nat, es: seq<Element>)
    requires es != [] && GoodElements(es) && TextAt(c, o, ElementsText(es)) && at + ItemsHeight(Values(es)) <= 1000
    ensures ParseItems(c, o, at) == Done(Values(es), o + |ElementsText(es)|)
    decreases es, 0
  {
    hide *;
    FirstElement(c, o, es);
    ElementParts(es);
    var e, p, rest := es[0], SkipWs(c, o), ElementsRest(es[1..]);
    var q := p + |DocText(e.value)|;
    AfterValue(c, q, e.after, rest);
    ReadsDocument(c, p, at, e.value);
    var s := q + |e.after|;
    if |es| == 1 {
      LastItem(c, o, at, Value(e.value), q);
    } else {
      TextSplit(c, s, [0x2C], ElementsText(es[1..]));
      ReadsElements(c, s + 1, at, es[1..]);
      FirstItem(c, o, at, Value(e.value), q, Values(es[1..]), s + 1 + |ElementsText(es[1..])|);
    }
  }

  /** The element loop with one element left, and with more. */
  lemma LastItem(c: seq<byte>, o: nat, at: nat, v: Json, q: nat)
    requires ParseValue(c, SkipWs(c, o), at) == Done(v, q) && Is(c, SkipWs(c, q), 0x5D)
    ensures ParseItems(c, o, at) == Done([v], SkipWs(c, q) + 1)
  {
    hide ParseValue, SkipWs;
  }

  lemma FirstItem(c: seq<byte>, o: nat, at: nat, v: Json, q: nat, more: seq<Json>, end: nat)
    requires ParseValue(c, SkipWs(c, o), at) == Done(v, q) && Is(c, SkipWs(c, q), 0x2C)
    requires ParseItems(c, SkipWs(c, q) + 1, at) == Done(more, end)
    ensures ParseItems(c, o, at) == Done([v] + more, end)
  {
    hide ParseValue, SkipWs;
  }

  lemma {:induction false} ReadsObject(c: seq<byte>, o: nat, at: nat, gap: seq<byte>, fs: seq<Field>)
    requires Blank(gap) && GoodFields(fs) && TextAt(c, o, DocText(ObjDoc(gap, fs))) && at + 1 + MembersHeight(Members(fs)) <= 1000
    requires Is(c, o, OPEN_OBJECT)
    ensures ParseObject(c, o, at) == Done(Members(fs), o + |DocText(ObjDoc(gap, fs))|)
    decreases fs, 1
  {
    hide ParseMembers, SkipWs, TextAt, MembersHeight, GoodFields, FieldsText, Blank, Members;
    NoFields();
    if fs == [] {
      TextSplit(c, o, [0x7B], gap + [0x7D]);
      SkipTo(c, o + 1, gap, [0x7D]);
    } else {
      TextSplit(c, o, [0x7B], FieldsText(fs));
      FirstName(c, o + 1, fs);
      MembersFromGap(c, o + 1, at + 1);
      ReadsFields(c, o + 1, at + 1, fs);
    }
  }

  lemma NoFields()
    ensures GoodFields([]) && Members([]) == []
  {
  }

  lemma MembersFromGap(c: seq<byte>, o: nat, at: nat)
    requires SkipWs(c, SkipWs(c, o)) == SkipWs(c, o)
    ensures ParseMembers(c, SkipWs(c, o), at) == ParseMembers(c, o, at)
  {
    assert ParseName(c, SkipWs(c, o)) == ParseName(c, o) by { hide SkipWs, ParseString; }
    hide SkipWs, ParseValue, ParseName;
  }

  /** The name of the first member, and where it is. */
  lemma FirstName(c: seq<byte>, o: nat, fs: seq<Field>)
    requires fs != [] && GoodFields(fs) && TextAt(c, o, FieldsText(fs))
    ensures var p, f := SkipWs(c, o), fs[0];
            var q := p + |LitText(f.name)|;
            && p == o + |f.before| < |c| && SkipWs(c, p) == p && c[p] == 0x22
            && ParseString(c, p) == Done(LitValue(f.name), q)
            && TextAt(c, q, f.toColon + ([0x3A] + (f.toValue + FieldValueText(fs))))
            && o + |FieldsText(fs)| == q + |f.toColon| + 1 + |f.toValue| + |FieldValueText(fs)|
  {
    hide *;
    var f := fs[0];
    var n, z := LitText(f.name), f.toColon + ([0x3A] + (f.toValue + FieldValueText(fs)));
    NameParts(fs);
    LitHead(f.name);
    SkipToFirst(c, o, f.before, n, z);
    ReadsLit(c, o + |f.before|, f.name);
  }

  lemma NameParts(fs: seq<Field>)
    requires fs != [] && GoodFields(fs)
    ensures var f := fs[0];
            && Blank(f.before) && GoodLit(f.name)
            && FieldsText(fs) == f.before + (LitText(f.name) + (f.toColon + ([0x3A] + (f.toValue + FieldValueText(fs)))))
  {
  }

  /** And where its value is. */
  lemma FirstFieldValue(c: seq<byte>, o: nat, fs: seq<Field>)
    requires fs != [] && GoodFields(fs) && TextAt(c, o, FieldsText(fs))
    ensures var f := fs[0];
            var p := o + |f.before| + |LitText(f.name)| + |f.toColon| + 1 + |f.toValue|;
            var t := DocText(f.value);
            && ParseName(c, o) == Done(LitValue(f.name), p)
            && TextAt(c, p, t) && TextAt(c, p + |t|, f.after + FieldsRest(fs[1..]))
            && o + |FieldsText(fs)| == p + |t| + |f.after| + |FieldsRest(fs[1..])|
  {
    hide *;
    FirstName(c, o, fs);
    FieldValueParts(fs);
    var f, q := fs[0], SkipWs(c, o) + |LitText(fs[0].name)|;
    var t, z := DocText(f.value), f.after + FieldsRest(fs[1..]);
    DocHead(f.value);
    HeadOfBoth(t, z);
    ColonThenValue(c, q, f.toColon, f.toValue, t + z);
    NameStep(c, o, LitValue(f.name), q, q + |f.toColon|, q + |f.toColon| + 1 + |f.toValue|);
    TextSplit(c, q + |f.toColon| + 1 + |f.toValue|, t, z);
  }

  lemma FieldValueParts(fs: seq<Field>)
    requires fs != [] && GoodFields(fs)
    ensures var f := fs[0];
            && Blank(f.toColon) && Blank(f.toValue) && GoodLit(f.name) && Good(f.value)
            && FieldValueText(fs) == DocText(f.value) + (f.after + FieldsRest(fs[1..]))
  {
  }

  /** White space, a colon, white space, and a text that begins with another byte. */
  lemma ColonThenValue(c: seq<byte>, q: nat, w: seq<byte>, x: seq<byte>, t: seq<byte>)
    requires Blank(w) && Blank(x) && t != [] && t[0] > 32 && TextAt(c, q, w + ([0x3A] + (x + t)))
    ensures SkipWs(c, q) == q + |w| && Is(c, q + |w|, 0x3A) && SkipWs(c, q + |w| + 1) == q + |w| + 1 + |x|
    ensures TextAt(c, q + |w| + 1 + |x|, t)
  {
    hide TextAt, SkipWs, Blank;
    SkipTo(c, q, w, [0x3A] + (x + t));
    TextSplit(c, q + |w|, [0x3A], x + t);
    SkipTo(c, q + |w| + 1, x, t);
  }

  lemma NameStep(c: seq<byte>, o: nat, name: seq<byte>, q: nat, k: nat, p: nat)
    requires ParseString(c, SkipWs(c, o)) == Done(name, q) && SkipWs(c, q) == k && Is(c, k, 0x3A) && SkipWs(c, k + 1) == p
    ensures ParseName(c, o) == Done(name, p)
  {
    hide ParseString, SkipWs;
  }

  lemma FieldParts(fs: seq<Field>)
    requires fs != [] && GoodFields(fs)
    ensures var f, rest := fs[0], FieldsRest(fs[1..]);
            && GoodLit(f.name) && Good(f.value) && Blank(f.after) && GoodFields(fs[1..])
            && Members(fs) == [Member(LitValue(f.name), Value(f.value))] + Members(fs[1..])
            && rest != [] && rest[0] in {0x2C, 0x7D}
            && (|fs| == 1 ==> rest == [0x7D] && fs[1..] == [] && Members(fs) == [Member(LitValue(f.name), Value(f.value))])
            && (|fs| > 1 ==> rest == [0x2C] + FieldsText(fs[1..]))
  {
    hide Good, Value, Blank, GoodLit, LitValue;
  }

  lemma FieldHeights(v: Json, name: seq<byte>, more: seq<Member>, all: seq<Member>)
    requires all == [Member(name, v)] + more
    ensures Height(v) <= MembersHeight(all) && MembersHeight(more) <= MembersHeight(all)
  {
    assert all[1..] == more;
    hide Height;
  }

  lemma {:induction false} ReadsFields(c: seq<byte>, o: nat, at: nat, fs: seq<Field>)
    requires fs != [] && GoodFields(fs) && TextAt(c, o, FieldsText(fs)) && at + MembersHeight(Members(fs)) <= 1000
    ensures ParseMembers(c, o, at) == Done(Members(fs), o + |FieldsText(fs)|)
    decreases fs, 0
  {
    hide *;
    FirstFieldValue(c, o, fs);
    FieldParts(fs);
    FieldHeights(Value(fs[0].value), LitValue(fs[0].name), Members(fs[1..]), Members(fs));
    var f, p, rest := fs[0], ParseName(c, o).next, FieldsRest(fs[1..]);
    var q := p + |DocText(f.value)|;
    AfterValue(c, q, f.after, rest);
    ReadsDocument(c, p, at, f.value);
    var s, m := q + |f.after|, Member(LitValue(f.name), Value(f.value));
    if |fs| == 1 {
      LastMember(c, o, at, m, p, q);
    } else {
      TextSplit(c, s, [0x2C], FieldsText(fs[1..]));
      ReadsFields(c, s + 1, at, fs[1..]);
      FirstMember(c, o, at, m, p, q, Members(fs[1..]), s + 1 + |FieldsText(fs[1..])|);
    }
  }

  /** The member loop with one member left, and with more. */
  lemma LastMember(c: seq<byte>, o: nat, at: nat, m: Member, p: nat, q: nat)
    requires ParseName(c, o) == Done(m.name, p) && ParseValue(c, p, at) == Done(m.value, q) && Is(c, SkipWs(c, q), 0x7D)
    ensures ParseMembers(c, o, at) == Done([m], SkipWs(c, q) + 1)
  {
    hide ParseValue, ParseName, SkipWs;
  }

  lemma FirstMember(c: seq<byte>, o: nat, at: nat, m: Member, p: nat, q: nat, more: seq<Member>, end: nat)
    requires ParseName(c, o) == Done(m.name, p) && ParseValue(c, p, at) == Done(m.value, q) && Is(c, SkipWs(c, q), 0x2C)
    requires ParseMembers(c, SkipWs(c, q) + 1, at) == Done(more, end)
    ensures ParseMembers(c, o, at) == Done([m] + more, end)
  {
    hide ParseValue, ParseName, SkipWs;
  }

  // ---------- and nothing else is read ----------

  /** What is skipped is white space; nothing more is skipped from there. */
  lemma {:induction false} SkipIsBlank(c: seq<byte>, o: nat)
    requires o <= |c|
    ensures var p := SkipWs(c, o); o <= p <= |c| && Blank(c[o..p]) && SkipWs(c, p) == p && TextAt(c, o, c[o..p])
    decreases |c| - o
  {
    if o + 1 < |c| && c[o] <= 32 {
      SkipIsBlank(c, o + 1);
      assert c[o..SkipWs(c, o)] == [c[o]] + c[o + 1..SkipWs(c, o + 1)];
    } else {
      assert c[o..o] == [];
    }
  }

  lemma TextJoin(c: seq<byte>, o: nat, a: seq<byte>, b: seq<byte>)
    requires TextAt(c, o, a) && TextAt(c, o + |a|, b)
    ensures TextAt(c, o, a + b)
  {
    assert c[o..o + |a + b|] == c[o..o + |a|] + c[o + |a|..o + |a| + |b|];
  }

  lemma OneByte(c: seq<byte>, o: nat, b: byte)
    requires Is(c, o, b)
    ensures TextAt(c, o, [b])
  {
  }

  /** Whatever is read as a value is a text of the grammar, and the value is the one it stands for. */
  lemma {:induction false} ValueIsDocument(c: seq<byte>, o: nat, at: nat) returns (d: Doc)
    requires ParseValue(c, o, at).Done?
    ensures var r := ParseValue(c, o, at);
            Good(d) && Value(d) == r.value && TextAt(c, o, DocText(d)) && r.next == o + |DocText(d)|
    decreases |c| - o, 2
  {
    hide ParseArray, ParseObject, ParseString, ParseNumber, IsNumeral;
    if Telling(c[o]) {
      ByFirst(c, o, at);
      hide ParseValue;
      if c[o] == QUOTE {
        d := StringIsDocument(c, o);
      } else if c[o] == OPEN_ARRAY {
        d := ArrayIsDocument(c, o, at);
      } else if c[o] == OPEN_OBJECT {
        d := ObjectIsDocument(c, o, at);
      } else {
        d := NumberIsDocument(c, o);
      }
    } else {
      d := if TextAt(c, o, NULL_TEXT) then NullDoc else BoolDoc(TextAt(c, o, TRUE_TEXT));
      hide TextAt;
    }
  }

  lemma StringIsDocument(c: seq<byte>, o: nat) returns (d: Doc)
    requires ParseString(c, o).Done?
    ensures Good(d) && Value(d) == Str(ParseString(c, o).value) && TextAt(c, o, DocText(d)) && ParseString(c, o).next == o + |DocText(d)|
  {
    var l := StringIsLit(c, o);
    d := StrDoc(l);
    hide GoodLit, LitValue, LitText, ParseString, TextAt;
  }

  lemma StringIsLit(c: seq<byte>, o: nat) returns (l: Lit)
    requires ParseString(c, o).Done?
    ensures GoodLit(l) && LitValue(l) == ParseString(c, o).value && TextAt(c, o, LitText(l)) && ParseString(c, o).next == o + |LitText(l)|
  {
    var s := ParseString(c, o);
    hide ParseString;
    var t := c[o..s.next];
    l := Raw(t, s.value);
    StringShift(c, o, t);
  }

  lemma NumberIsDocument(c: seq<byte>, o: nat) returns (d: Doc)
    requires o < |c| && (c[o] == MINUS || IsDigit(c[o])) && ParseNumber(c, o).Done?
    ensures Good(d) && Value(d) == Num(ParseNumber(c, o).value) && TextAt(c, o, DocText(d)) && ParseNumber(c, o).next == o + |DocText(d)|
  {
    hide ParseNumber, IsNumeral;
    NumberIsLongest(c, o);
    var t := ParseNumber(c, o).value;
    NumHead(t);
    TextIndex(c, o, t, 0);
    d := NumDoc(t);
  }

  lemma {:induction false} ArrayIsDocument(c: seq<byte>, o: nat, at: nat) returns (d: Doc)
    requires Is(c, o, OPEN_ARRAY) && ParseArray(c, o, at).Done?
    ensures var r := ParseArray(c, o, at);
            Good(d) && Value(d) == Arr(r.value) && TextAt(c, o, DocText(d)) && r.next == o + |DocText(d)|
    decreases |c| - o, 1
  {
    hide ParseItems, SkipWs, TextAt, Blank, ElementsText, GoodElements, Values;
    SkipIsBlank(c, o + 1);
    OneByte(c, o, OPEN_ARRAY);
    var p := SkipWs(c, o + 1);
    if Is(c, p, CLOSE_ARRAY) {
      var gap := c[o + 1..p];
      NoElements();
      OneByte(c, p, CLOSE_ARRAY);
      TextJoin(c, o + 1, gap, [0x5D]);
      TextJoin(c, o, [0x5B], gap + [0x5D]);
      d := ArrDoc(gap, []);
    } else {
      ItemsFromGap(c, o + 1, at + 1);
      var es := ItemsAreElements(c, o + 1, at + 1);
      TextJoin(c, o, [0x5B], ElementsText(es));
      d := ArrDoc([], es);
      NothingIsBlank();
    }
  }

  lemma NothingIsBlank()
    ensures Blank([])
  {
  }

  lemma {:induction false} ItemsAreElements(c: seq<byte>, o: nat, at: nat) returns (es: seq<Element>)
    requires o <= |c| && ParseItems(c, o, at).Done?
    ensures var r := ParseItems(c, o, at);
            es != [] && GoodElements(es) && Values(es) == r.value && TextAt(c, o, ElementsText(es)) && r.next == o + |ElementsText(es)|
    decreases |c| - o, 3
  {
    hide ParseValue, SkipWs, TextAt, Blank, Good, Value, DocText;
    SkipIsBlank(c, o);
    var p := SkipWs(c, o);
    var d := ValueIsDocument(c, p, at);
    var q := ParseValue(c, p, at).next;
    SkipIsBlank(c, q);
    var e := SkipWs(c, q);
    var x := Element(c[o..p], d, c[q..e]);
    var more := [];
    if Is(c, e, COMMA) {
      more := ItemsAreElements(c, e + 1, at);
      OneByte(c, e, COMMA);
      TextJoin(c, e, [0x2C], ElementsText(more));
    } else {
      NoElements();
      OneByte(c, e, CLOSE_ARRAY);
    }
    es := [x] + more;
    ElementJoin(c, o, x, more);
    ElementAdds(x, more);
  }

  lemma ElementAdds(x: Element, more: seq<Element>)
    requires Blank(x.before) && Good(x.value) && Blank(x.after) && GoodElements(more)
    ensures GoodElements([x] + more) && Values([x] + more) == [Value(x.value)] + Values(more)
  {
    assert ([x] + more)[1..] == more;
  }

  lemma ElementJoin(c: seq<byte>, o: nat, x: Element, more: seq<Element>)
    requires TextAt(c, o, x.before) && TextAt(c, o + |x.before|, DocText(x.value))
    requires var q := o + |x.before| + |DocText(x.value)|; TextAt(c, q, x.after) && TextAt(c, q + |x.after|, ElementsRest(more))
    ensures TextAt(c, o, ElementsText([x] + more))
    ensures |ElementsText([x] + more)| == |x.before| + |DocText(x.value)| + |x.after| + |ElementsRest(more)|
  {
    assert ([x] + more)[1..] == more;
    hide TextAt, DocText, ElementsRest;
    var p := o + |x.before|;
    var q := p + |DocText(x.value)|;
    TextJoin(c, q, x.after, ElementsRest(more));
    TextJoin(c, p, DocText(x.value), x.after + ElementsRest(more));
    TextJoin(c, o, x.before, DocText(x.value) + (x.after + ElementsRest(more)));
  }

  lemma {:induction false} ObjectIsDocument(c: seq<byte>, o: nat, at: nat) returns (d: Doc)
    requires Is(c, o, OPEN_OBJECT) && ParseObject(c, o, at).Done?
    ensures var r := ParseObject(c, o, at);
            Good(d) && Value(d) == Obj(r.value) && TextAt(c, o, DocText(d)) && r.next == o + |DocText(d)|
    decreases |c| - o, 1
  {
    hide ParseMembers, SkipWs, TextAt, Blank, FieldsText, GoodFields, Members;
    SkipIsBlank(c, o + 1);
    OneByte(c, o, OPEN_OBJECT);
    var p := SkipWs(c, o + 1);
    if Is(c, p, CLOSE_OBJECT) {
      var gap := c[o + 1..p];
      NoFields();
      OneByte(c, p, CLOSE_OBJECT);
      TextJoin(c, o + 1, gap, [0x7D]);
      TextJoin(c, o, [0x7B], gap + [0x7D]);
      d := ObjDoc(gap, []);
    } else {
      MembersFromGap(c, o + 1, at + 1);
      var fs := MembersAreFields(c, o + 1, at + 1);
      TextJoin(c, o, [0x7B], FieldsText(fs));
      d := ObjDoc([], fs);
      NothingIsBlank();
    }
  }

  lemma {:induction false} MembersAreFields(c: seq<byte>, o: nat, at: nat) returns (fs: seq<Field>)
    requires o <= |c| && ParseMembers(c, o, at).Done?
    ensures var r := ParseMembers(c, o, at);
            fs != [] && GoodFields(fs) && Members(fs) == r.value && TextAt(c, o, FieldsText(fs)) && r.next == o + |FieldsText(fs)|
    decreases |c| - o, 3
  {
    hide ParseValue, ParseName, SkipWs, TextAt, Blank, Good, Value, DocText, GoodLit, LitValue, LitText;
    var p := ParseName(c, o).next;
    var d := ValueIsDocument(c, p, at);
    var x := NameIsField(c, o, d);
    var q := ParseValue(c, p, at).next;
    SkipIsBlank(c, q);
    var e := SkipWs(c, q);
    x := x.(after := c[q..e]);
    var more := [];
    if Is(c, e, COMMA) {
      more := MembersAreFields(c, e + 1, at);
      OneByte(c, e, COMMA);
      TextJoin(c, e, [0x2C], FieldsText(more));
    } else {
      NoFields();
      OneByte(c, e, CLOSE_OBJECT);
    }
    fs := [x] + more;
    FieldJoin(c, o, x, more);
    FieldAdds(x, more);
  }

  /** The part of a member in front of its value. */
  function NamePart(x: Field): seq<byte> { x.before + (LitText(x.name) + (x.toColon + ([0x3A] + x.toValue))) }

  lemma NameIsField(c: seq<byte>, o: nat, d: Doc) returns (x: Field)
    requires o <= |c| && ParseName(c, o).Done?
    ensures Blank(x.before) && GoodLit(x.name) && Blank(x.toColon) && Blank(x.toValue) && x.value == d
    ensures LitValue(x.name) == ParseName(c, o).value && TextAt(c, o, NamePart(x)) && ParseName(c, o).next == o + |NamePart(x)|
  {
    hide SkipWs, TextAt, Blank, GoodLit, LitValue, LitText, ParseString;
    SkipIsBlank(c, o);
    var p := SkipWs(c, o);
    var l := StringIsLit(c, p);
    var q := ParseString(c, p).next;
    SkipIsBlank(c, q);
    var k := SkipWs(c, q);
    SkipIsBlank(c, k + 1);
    var v := SkipWs(c, k + 1);
    OneByte(c, k, COLON);
    x := Field(c[o..p], l, c[q..k], c[k + 1..v], d, []);
    TextJoin(c, k, [0x3A], x.toValue);
    TextJoin(c, q, x.toColon, [0x3A] + x.toValue);
    TextJoin(c, p, LitText(l), x.toColon + ([0x3A] + x.toValue));
    TextJoin(c, o, x.before, LitText(l) + (x.toColon + ([0x3A] + x.toValue)));
  }

  lemma FieldAdds(x: Field, more: seq<Field>)
    requires Blank(x.before) && GoodLit(x.name) && Blank(x.toColon) && Blank(x.toValue) && Good(x.value) && Blank(x.after) && GoodFields(more)
    ensures GoodFields([x] + more) && Members([x] + more) == [Member(LitValue(x.name), Value(x.value))] + Members(more)
  {
    assert ([x] + more)[1..] == more;
  }

  lemma FieldJoin(c: seq<byte>, o: nat, x: Field, more: seq<Field>)
    requires TextAt(c, o, NamePart(x)) && TextAt(c, o + |NamePart(x)|, DocText(x.value))
    requires var q := o + |NamePart(x)| + |DocText(x.value)|; TextAt(c, q, x.after) && TextAt(c, q + |x.after|, FieldsRest(more))
    ensures TextAt(c, o, FieldsText([x] + more))
    ensures |FieldsText([x] + more)| == |NamePart(x)| + |DocText(x.value)| + |x.after| + |FieldsRest(more)|
  {
    FieldsRegroup(x, more);
    hide TextAt, DocText, FieldsRest, FieldsText, NamePart;
    var p := o + |NamePart(x)|;
    var q := p + |DocText(x.value)|;
    TextJoin(c, q, x.after, FieldsRest(more));
    TextJoin(c, p, DocText(x.value), x.after + FieldsRest(more));
    TextJoin(c, o, NamePart(x), DocText(x.value) + (x.after + FieldsRest(more)));
  }

  lemma FieldsRegroup(x: Field, more: seq<Field>)
    ensures FieldsText([x] + more) == NamePart(x) + (DocText(x.value) + (x.after + FieldsRest(more)))
  {
    FieldsUnfold(x, more);
    hide DocText, LitText, FieldsRest, FieldsText;
    Five(x.before, LitText(x.name), x.toColon, [0x3A], x.toValue, DocText(x.value) + (x.after + FieldsRest(more)));
  }

  lemma FieldsUnfold(x: Field, more: seq<Field>)
    ensures FieldsText([x] + more) ==
            x.before + (LitText(x.name) + (x.toColon + ([0x3A] + (x.toValue + (DocText(x.value) + (x.after + FieldsRest(more)))))))
    ensures [x] + more != []
  {
    assert ([x] + more)[1..] == more;
    hide DocText, LitText, FieldsRest;
  }

  lemma Five<T>(a: seq<T>, b: seq<T>, c: seq<T>, d: seq<T>, e: seq<T>, z: seq<T>)
    ensures a + (b + (c + (d + (e + z)))) == a + (b + (c + (d + e))) + z
  {
  }

  // ---------- what is accepted is not nested too deep ----------

  /** Inside `depth` arrays and objects the parser accepts only what fits the limit. */
  lemma {:induction false} AcceptedHeight(c: seq<byte>, o: nat, depth: nat)
    requires depth <= 1000
    ensures var r := ParseValue(c, o, depth); r.Done? ==> depth + Height(r.value) <= 1000
    decreases |c| - o, 2
  {
    hide TextAt, ParseString, ParseItems, ParseMembers;
    if Is(c, o, OPEN_ARRAY) && depth < 1000 {
      var p := SkipWs(c, o + 1);
      if p < |c| { AcceptedItems(c, p, depth + 1); }
    }
    if Is(c, o, OPEN_OBJECT) && depth < 1000 {
      var p := SkipWs(c, o + 1);
      if p < |c| { AcceptedMembers(c, p, depth + 1); }
    }
  }

  lemma {:induction false} AcceptedItems(c: seq<byte>, o: nat, depth: nat)
    requires depth <= 1000
    ensures var r := ParseItems(c, o, depth); r.Done? ==> depth + ItemsHeight(r.value) <= 1000
    decreases |c| - o, 3
  {
    hide ParseValue, Height, SkipWs;
    var v := ParseValue(c, SkipWs(c, o), depth);
    AcceptedHeight(c, SkipWs(c, o), depth);
    if v.Done? && Is(c, SkipWs(c, v.next), COMMA) {
      var rest := ParseItems(c, SkipWs(c, v.next) + 1, depth);
      AcceptedItems(c, SkipWs(c, v.next) + 1, depth);
      if rest.Done? { assert ([v.value] + rest.value)[1..] == rest.value; }
    }
  }

  lemma {:induction false} AcceptedMembers(c: seq<byte>, o: nat, depth: nat)
    requires depth <= 1000
    ensures var r := ParseMembers(c, o, depth); r.Done? ==> depth + MembersHeight(r.value) <= 1000
    decreases |c| - o, 3
  {
    hide ParseValue, ParseName, Height, SkipWs;
    var name := ParseName(c, o);
    if name.Done? {
      var v := ParseValue(c, name.next, depth);
      AcceptedHeight(c, name.next, depth);
      if v.Done? && Is(c, SkipWs(c, v.next), COMMA) {
        var rest := ParseMembers(c, SkipWs(c, v.next) + 1, depth);
        AcceptedMembers(c, SkipWs(c, v.next) + 1, depth);
        if rest.Done? { assert ([Member(name.value, v.value)] + rest.value)[1..] == rest.value; }
      }
    }
  }

  // ---------- whole texts ----------

  /** A byte order mark, or none. */
  predicate Mark(s: seq<byte>) { s in {[], [0xEF, 0xBB, 0xBF]} }

  /**
   A text of the grammar, behind white space and perhaps a byte order mark, is read as what it
   stands for. A mark counts only in a buffer of 5 bytes or more.
   */
  lemma ReadsText(c: seq<byte>, mark: seq<byte>, w: seq<byte>, d: Doc, z: seq<byte>)
    requires c == mark + (w + (DocText(d) + z)) && Mark(mark) && (mark != [] ==> |c| > 4)
    requires Blank(w) && Good(d) && Height(Value(d)) <= 1000
    requires d.NumDoc? ==> NoNumber(c, |mark| + |w| + |DocText(d)|)
    ensures Parse(c) == Done(Value(d), |mark| + |w| + |DocText(d)|)
  {
    hide *;
    DocHead(d);
    StartOfText(c, mark, w, DocText(d), z);
    ReadsDocument(c, |mark| + |w|, 0, d);
    ParseAtStart(c);
  }

  lemma ParseAtStart(c: seq<byte>)
    ensures c != [] ==> Parse(c) == ParseValue(c, Start(c), 0)
    ensures c == [] ==> !Parse(c).Done?
  {
    hide ParseValue, Start;
  }

  lemma StartOfText(c: seq<byte>, mark: seq<byte>, w: seq<byte>, t: seq<byte>, z: seq<byte>)
    requires c == mark + (w + (t + z)) && Mark(mark) && (mark != [] ==> |c| > 4) && Blank(w) && t != [] && 32 < t[0] < 128
    ensures c != [] && Start(c) == |mark| + |w| && TextAt(c, |mark| + |w|, t)
  {
    assert TextAt(c, |mark|, w + (t + z));
    FirstOfText(c, mark, w, t, z);
    hide TextAt, SkipWs, Blank;
    SkipToFirst(c, |mark|, w, t, z);
  }

  lemma FirstOfText(c: seq<byte>, mark: seq<byte>, w: seq<byte>, t: seq<byte>, z: seq<byte>)
    requires c == mark + (w + (t + z)) && Mark(mark) && Blank(w) && t != [] && t[0] < 128
    ensures c != [] && (|c| > 4 ==> (c[..3] == [0xEF, 0xBB, 0xBF] <==> mark != []))
  {
    if mark == [] {
      assert c[0] == if w == [] then t[0] else w[0];
      assert |c| > 4 ==> c[..3][0] == c[0];
    } else {
      assert c[..3] == mark;
    }
  }

  /** And whatever is read is such a text; what follows it is not looked at. */
  lemma AcceptedIsText(c: seq<byte>) returns (mark: seq<byte>, w: seq<byte>, d: Doc)
    requires Parse(c).Done?
    ensures Mark(mark) && Blank(w) && Good(d) && Height(Value(d)) <= 1000
    ensures var r := Parse(c);
            Value(d) == r.value && r.next == |mark| + |w| + |DocText(d)| <= |c| && c == mark + (w + (DocText(d) + c[r.next..]))
  {
    hide *;
    ParseAtStart(c);
    mark := MarkOf(c);
    AcceptedHeight(c, Start(c), 0);
    SkipIsBlank(c, |mark|);
    w := c[|mark|..Start(c)];
    d := ValueIsDocument(c, Start(c), 0);
    TextFirst(c, Start(c), DocText(d));
    FourParts(c, |mark|, Start(c), Start(c) + |DocText(d)|);
  }

  lemma MarkOf(c: seq<byte>) returns (mark: seq<byte>)
    ensures Mark(mark) && mark <= c && Start(c) == SkipWs(c, |mark|)
  {
    hide SkipWs;
    mark := if |c| > 4 && c[..3] == [0xEF, 0xBB, 0xBF] then c[..3] else [];
  }

  lemma TextFirst(c: seq<byte>, o: nat, t: seq<byte>)
    requires TextAt(c, o, t)
    ensures o + |t| <= |c| && c[o..o + |t|] == t
  {
  }

  lemma FourParts(c: seq<byte>, i: nat, j: nat, k: nat)
    requires i <= j <= k <= |c|
    ensures c == c[..i] + (c[i..j] + (c[j..k] + c[k..]))
  {
  }
}
