/**
 Parsing printed text gives back the tree that was printed, formatted or not
 (test-tools/host-tool/external/cJSON/cJSON.c).
 */
module JsonRoundTrip {
  import opened Bytes
  import opened JsonDocument
  import opened JsonNumber
  import opened JsonText
  import opened JsonTree
  import Lists

  // ---------- what is printed is a text of the grammar ----------

  function LineBreak(format: bool): seq<byte> { if format then [10] else [] }

  function Indent(format: bool, depth: nat): seq<byte> { if format then Tabs(depth) else [] }

  function LitOf(s: seq<byte>): Lit { Spelled(PiecesOf(s)) }

  function DocOf(v: Json, format: bool, depth: nat): Doc {
    match v
    case Null => NullDoc
    case Bool(b) => BoolDoc(b)
    case Num(t) => NumDoc(t)
    case Str(s) => StrDoc(LitOf(s))
    case Arr(items) => ArrDoc([], ElementsOf(items, format, depth + 1, []))
    case Obj(members) => ObjDoc(LineBreak(format) + Indent(format, depth), FieldsOf(members, format, depth))
  }

  /** The elements, `before` being in front of the first of them. */
  function ElementsOf(items: seq<Json>, format: bool, depth: nat, before: seq<byte>): seq<Element> {
    if items == [] then []
    else [Element(before, DocOf(items[0], format, depth), [])] + ElementsOf(items[1..], format, depth, if format then [0x20] else [])
  }

  function FieldsOf(members: seq<Member>, format: bool, depth: nat): seq<Field> {
    if members == [] then []
    else
      [Field(LineBreak(format) + Indent(format, depth + 1), LitOf(members[0].name), [], if format then [9] else [],
             DocOf(members[0].value, format, depth + 1),
             if |members| == 1 then LineBreak(format) + Indent(format, depth) else [])]
      + FieldsOf(members[1..], format, depth)
  }

  lemma LitOfText(s: seq<byte>)
    ensures GoodLit(LitOf(s)) && LitText(LitOf(s)) == Quoted(s) && LitValue(LitOf(s)) == s
  {
    PiecesOfBytes(s);
    hide PiecesText, EscapeAll, GoodPieces, Meaning;
  }

  lemma {:induction false} DocOfText(v: Json, format: bool, depth: nat)
    ensures DocText(DocOf(v, format, depth)) == Text(v, format, depth)
    decreases v, 1
  {
    hide LitText, Quoted, ElementsText, FieldsText, ItemsText, MembersText;
    match v
    case Str(s) => LitOfText(s);
    case Arr(items) =>
      if items == [] {
        NothingToPrint(format, depth);
      } else {
        ElementsOfText(items, format, depth + 1, []);
        Lists.Nothing(ItemsText(items, format, depth + 1) + [CLOSE_ARRAY], ItemsText(items, format, depth + 1) + [CLOSE_ARRAY]);
        Lists.Associative([OPEN_ARRAY], ItemsText(items, format, depth + 1), [CLOSE_ARRAY]);
      }
    case Obj(members) =>
      ObjectText(members, format, depth);
      if members == [] {
        NothingToPrint(format, depth);
        EmptyObject(LineBreak(format), Indent(format, depth));
      } else {
        FieldsOfText(members, format, depth);
      }
    case _ =>
  }

  lemma NothingToPrint(format: bool, depth: nat)
    ensures ItemsText([], format, depth + 1) == [] && ElementsOf([], format, depth + 1, []) == []
    ensures MembersText([], format, depth + 1) == [] && FieldsOf([], format, depth) == []
  {
  }

  lemma EmptyObject(w: seq<byte>, x: seq<byte>)
    ensures [OPEN_OBJECT] + (w + ([] + (x + [CLOSE_OBJECT]))) == [OPEN_OBJECT] + (w + x + [CLOSE_OBJECT])
  {
  }

  lemma ObjectText(members: seq<Member>, format: bool, depth: nat)
    ensures Text(Obj(members), format, depth) ==
            [OPEN_OBJECT] + (LineBreak(format) + (MembersText(members, format, depth + 1) + (Indent(format, depth) + [CLOSE_OBJECT])))
  {
    hide MembersText;
  }

  lemma {:induction false} ElementsOfText(items: seq<Json>, format: bool, depth: nat, before: seq<byte>)
    requires items != []
    ensures ElementsText(ElementsOf(items, format, depth, before)) == before + (ItemsText(items, format, depth) + [CLOSE_ARRAY])
    ensures ElementsOf(items, format, depth, before) != []
    decreases items, 0
  {
    hide Text, DocText, DocOf;
    DocOfText(items[0], format, depth);
    var es, gap := ElementsOf(items, format, depth, before), if format then [0x20] else [];
    var more := ElementsOf(items[1..], format, depth, gap);
    assert es[1..] == more;
    var t := Text(items[0], format, depth);
    if |items| == 1 {
      assert items[1..] == [];
    } else {
      ElementsOfText(items[1..], format, depth, gap);
      Regroup(t, gap, ItemsText(items[1..], format, depth));
      assert Separator(format) == [COMMA] + gap;
    }
  }

  lemma Regroup(t: seq<byte>, gap: seq<byte>, more: seq<byte>)
    ensures t + ([] + ([COMMA] + (gap + (more + [CLOSE_ARRAY])))) == t + ([COMMA] + gap + more) + [CLOSE_ARRAY]
  {
  }

  lemma {:induction false} FieldsOfText(members: seq<Member>, format: bool, depth: nat)
    requires members != []
    ensures FieldsText(FieldsOf(members, format, depth)) ==
            LineBreak(format) + (MembersText(members, format, depth + 1) + (Indent(format, depth) + [CLOSE_OBJECT]))
    ensures FieldsOf(members, format, depth) != []
    decreases members, 0
  {
    var m, more := members[0], FieldsOf(members[1..], format, depth);
    var n, i, x, k := LineBreak(format), Indent(format, depth + 1), Indent(format, depth), if format then [9] else [];
    var f := Field(n + i, LitOf(m.name), [], k, DocOf(m.value, format, depth + 1), if |members| == 1 then n + x else []);
    assert FieldsOf(members, format, depth) == [f] + more;
    hide *;
    DocOfText(m.value, format, depth + 1);
    LitOfText(m.name);
    FieldsUnfold(f, more);
    MembersUnfold(members, format, depth, n, i, k);
    var q, t := Quoted(m.name), Text(m.value, format, depth + 1);
    if |members| == 1 {
      NothingToPrint(format, depth);
      LastField();
      LastRegroup(n, i, q, k, t, x);
    } else {
      FieldsOfText(members[1..], format, depth);
      NextField(more);
      MoreRegroup(n, i, q, k, t, MembersText(members[1..], format, depth + 1), x + [CLOSE_OBJECT]);
    }
  }

  lemma LastField()
    ensures FieldsRest([]) == [CLOSE_OBJECT]
  {
  }

  lemma NextField(more: seq<Field>)
    requires more != []
    ensures FieldsRest(more) == [COMMA] + FieldsText(more)
  {
  }

  lemma MembersUnfold(members: seq<Member>, format: bool, depth: nat, n: seq<byte>, i: seq<byte>, k: seq<byte>)
    requires members != [] && n == LineBreak(format) && i == Indent(format, depth + 1) && k == if format then [9] else []
    ensures MembersText(members, format, depth + 1) ==
            i + Quoted(members[0].name) + [COLON] + k + Text(members[0].value, format, depth + 1)
            + (if |members| == 1 then n else [COMMA] + n) + MembersText(members[1..], format, depth + 1)
  {
    hide Quoted, Text;
    MemberEndIs(format);
    NameTextIs(members[0].name, format, depth + 1);
  }

  lemma NameTextIs(name: seq<byte>, format: bool, depth: nat)
    ensures NameText(name, format, depth) == Indent(format, depth) + Quoted(name) + [COLON] + (if format then [9] else [])
  {
    hide Quoted;
  }

  lemma MemberEndIs(format: bool)
    ensures MemberEnd(true, format) == LineBreak(format) && MemberEnd(false, format) == [COMMA] + LineBreak(format)
  {
  }

  lemma LastRegroup(n: seq<byte>, i: seq<byte>, q: seq<byte>, k: seq<byte>, t: seq<byte>, x: seq<byte>)
    ensures n + i + (q + ([] + ([COLON] + (k + (t + (n + x + [CLOSE_OBJECT])))))) ==
            n + (i + q + [COLON] + k + t + n + [] + (x + [CLOSE_OBJECT]))
  {
  }

  lemma MoreRegroup(n: seq<byte>, i: seq<byte>, q: seq<byte>, k: seq<byte>, t: seq<byte>, more: seq<byte>, closing: seq<byte>)
    ensures n + i + (q + ([] + ([COLON] + (k + (t + ([] + ([COMMA] + (n + (more + closing))))))))) ==
            n + (i + q + [COLON] + k + t + ([COMMA] + n) + more + closing)
  {
  }

  // ---------- and stands for what was printed ----------

  lemma BlankParts(format: bool, depth: nat)
    ensures Blank([]) && Blank(LineBreak(format) + Indent(format, depth)) && Blank(if format then [9] else []) && Blank(if format then [0x20] else [])
  {
  }

  lemma {:induction false} DocOfValue(v: Json, format: bool, depth: nat)
    requires Plain(v)
    ensures Good(DocOf(v, format, depth)) && Value(DocOf(v, format, depth)) == v
    decreases v, 1
  {
    hide Blank, IsNumeral, LitOf, GoodLit, LitValue, Numeral, NumeralText;
    BlankParts(format, depth);
    match v
    case Num(t) => NumberTextGood(t);
    case Str(s) => LitOfText(s);
    case Arr(items) => ElementsOfValues(items, format, depth + 1, []);
    case Obj(members) => FieldsOfMembers(members, format, depth);
    case _ =>
  }

  lemma NumberTextGood(t: seq<byte>)
    requires NumberText(t)
    ensures IsNumeral(t) && |t| <= 63 && t != [] && t[0] != 0x2B && t[0] != 0x2E
  {
    hide GoodExponent, TailText;
    var n :| JsonNumeral(n) && NumeralText(n) == t;
    assert t[0] == if n.sign == [] then n.whole[0] else n.sign[0];
  }

  lemma {:induction false} ElementsOfValues(items: seq<Json>, format: bool, depth: nat, before: seq<byte>)
    requires PlainItems(items) && Blank(before)
    ensures GoodElements(ElementsOf(items, format, depth, before)) && Values(ElementsOf(items, format, depth, before)) == items
    decreases items, 0
  {
    hide Blank, DocOf, Plain, Good, Value;
    if items != [] {
      BlankParts(format, depth);
      DocOfValue(items[0], format, depth);
      ElementsOfValues(items[1..], format, depth, if format then [0x20] else []);
      ElementAdds(Element(before, DocOf(items[0], format, depth), []), ElementsOf(items[1..], format, depth, if format then [0x20] else []));
      assert [items[0]] + items[1..] == items;
    }
  }

  lemma {:induction false} FieldsOfMembers(members: seq<Member>, format: bool, depth: nat)
    requires PlainMembers(members)
    ensures GoodFields(FieldsOf(members, format, depth)) && Members(FieldsOf(members, format, depth)) == members
    decreases members, 0
  {
    hide Blank, DocOf, Plain, Good, Value, LitOf, GoodLit, LitValue, LineBreak, Indent;
    if members != [] {
      BlankParts(format, depth);
      BlankParts(format, depth + 1);
      LitOfText(members[0].name);
      DocOfValue(members[0].value, format, depth + 1);
      FieldsOfMembers(members[1..], format, depth);
      FieldAdds(FieldsOf(members, format, depth)[0], FieldsOf(members[1..], format, depth));
      assert [members[0]] + members[1..] == members;
    }
  }

  // ---------- round trip ----------

  /**
   A tree with NUL-free strings and names, and numbers as they are printed, is what parsing its
   printed text, with its terminator, gives back if and only if it is nested at most 1000 deep,
   whether or not the terminator is asked for.
   */
  lemma ParseInvertsPrint(v: Json, format: bool, terminated: bool)
    requires Plain(v)
    ensures ParseOpts(Text(v, format, 0) + [0], terminated) == Done(v, |Text(v, format, 0)|) <==> Height(v) <= 1000
  {
    var c := Text(v, format, 0) + [0];
    if Height(v) <= 1000 {
      ParsesBack(v, format);
      hide Parse, Text;
      assert Is(c, SkipWs(c, |c| - 1), 0);
    } else {
      AcceptedHeight(c, Start(c), 0);
      hide ParseValue, Text, Start, Height;
    }
  }

  lemma ParsesBack(v: Json, format: bool)
    requires Plain(v) && Height(v) <= 1000
    ensures Parse(Text(v, format, 0) + [0]) == Done(v, |Text(v, format, 0)|)
  {
    hide *;
    DocOfText(v, format, 0);
    DocOfValue(v, format, 0);
    BlankParts(format, 0);
    var t := Text(v, format, 0);
    Lists.Nothing(t + [0], t + [0]);
    NoNumberAtEnd(t);
    NoMark();
    ReadsText(t + [0], [], [], DocOf(v, format, 0), [0]);
  }

  lemma NoMark()
    ensures Mark([])
  {
  }

  lemma NoNumberAtEnd(t: seq<byte>)
    ensures NoNumber(t + [0], 0 + 0 + |t|)
  {
  }
}
