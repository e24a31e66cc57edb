/**
 Exactly which string literals are read, and as what: how the end of a literal is found, what may
 stand in it, and which escapes are refused (parse_string and utf16_literal_to_utf8 of
 test-tools/host-tool/external/cJSON/cJSON.c).
 */
module JsonStrings {
  import opened Bytes
  import opened JsonText

  // ---------- where a literal ends ----------

  /** Bytes other than quotes and backslashes, and backslashes with any byte behind them. */
  predicate Units(s: seq<byte>) {
    if s == [] then true
    else if s[0] == 0x5C then |s| > 1 && Units(s[2..])
    else s[0] != 0x22 && Units(s[1..])
  }

  /** A literal ends at the first quote that no backslash stands in front of, backslashes taken in pairs. */
  lemma {:induction false} EndsAtQuote(c: seq<byte>, i: nat, e: nat)
    requires i <= |c|
    ensures ScanEnd(c, i) == Some(e) <==> i <= e < |c| && c[e] == 0x22 && Units(c[i..e])
    decreases |c| - i
  {
    if i < |c| {
      var k := if c[i] == 0x5C then 2 else 1;
      if c[i] != 0x22 && i + k <= |c| {
        EndsAtQuote(c, i + k, e);
      }
      if i < e < |c| {
        assert c[i..e][0] == c[i];
        if i + k <= e { assert c[i..e][k..] == c[i + k..e]; }
      }
    }
  }

  // ---------- what stands in it ----------

  datatype Token = Plain(b: byte) | Letter(letter: byte) | Escape(text: seq<byte>)

  /** The number of four hexadecimal digits; 0 when one of them is none. */
  function FourDigits(s: seq<byte>): nat
    requires |s| == 4
  {
    if forall k :: 0 <= k < 4 ==> HexDigit(s[k]).Some?
    then 4096 * HexDigit(s[0]).value + 256 * HexDigit(s[1]).value + 16 * HexDigit(s[2]).value + HexDigit(s[3]).value
    else 0
  }

  /** An escape of a character that is no half of a pair, or of a high half and the low half behind it. */
  predicate GoodEscape(x: seq<byte>) {
    && (|x| == 6 || |x| == 12) && x[0] == 0x5C && x[1] == 0x75
    && if |x| == 6 then !(0xD800 <= FourDigits(x[2..6]) <= 0xDFFF)
       else 0xD800 <= FourDigits(x[2..6]) <= 0xDBFF && x[6] == 0x5C && x[7] == 0x75 && 0xDC00 <= FourDigits(x[8..12]) <= 0xDFFF
  }

  function EscapeMeaning(x: seq<byte>): seq<byte>
    requires GoodEscape(x)
  {
    DigitsBound(x[2..6]);
    if |x| == 6 then Utf8(FourDigits(x[2..6]))
    else Utf8(0x1_0000 + (FourDigits(x[2..6]) - 0xD800) * 0x400 + (FourDigits(x[8..12]) - 0xDC00))
  }

  lemma DigitsBound(s: seq<byte>)
    requires |s| == 4
    ensures FourDigits(s) < 0x1_0000 && FourDigits(s) == Hex4(s)
  {
  }

  predicate GoodToken(t: Token) {
    match t
    case Plain(b) => b != 0x5C
    case Letter(letter) => letter in {0x22, 0x2F, 0x5C, 0x62, 0x66, 0x6E, 0x72, 0x74}
    case Escape(x) => GoodEscape(x)
  }

  function TokenText(t: Token): seq<byte> {
    match t
    case Plain(b) => [b]
    case Letter(letter) => [0x5C, letter]
    case Escape(x) => x
  }

  function TokenMeaning(t: Token): seq<byte>
    requires GoodToken(t)
  {
    match t
    case Plain(b) => [b]
    case Letter(letter) =>
      if letter == 0x62 then [8] else if letter == 0x66 then [12] else if letter == 0x6E then [10]
      else if letter == 0x72 then [13] else if letter == 0x74 then [9] else [letter]
    case Escape(x) => EscapeMeaning(x)
  }

  predicate GoodTokens(ts: seq<Token>) { ts == [] || (GoodToken(ts[0]) && GoodTokens(ts[1..])) }

  function TokensText(ts: seq<Token>): seq<byte> {
    if ts == [] then [] else TokenText(ts[0]) + TokensText(ts[1..])
  }

  function TokensMeaning(ts: seq<Token>): seq<byte>
    requires GoodTokens(ts)
  {
    if ts == [] then [] else TokenMeaning(ts[0]) + TokensMeaning(ts[1..])
  }

  // ---------- escapes ----------

  lemma ByNumbers(s: seq<byte>)
    requires |s| >= 6
    ensures var v := FourDigits(s[2..6]);
            && v < 0x1_0000
            && Utf16Literal(s) ==
               if 0xDC00 <= v <= 0xDFFF then None
               else if 0xD800 <= v <= 0xDBFF then
                 if |s| < 12 || s[6] != 0x5C || s[7] != 0x75 || !(0xDC00 <= FourDigits(s[8..12]) <= 0xDFFF) then None
                 else Some((Utf8(0x1_0000 + (v - 0xD800) * 0x400 + (FourDigits(s[8..12]) - 0xDC00)), 12))
               else Some((Utf8(v), 6))
  {
    NumberAt(s, 2);
    if |s| >= 12 { NumberAt(s, 8); }
    hide Hex4, FourDigits, Utf8;
    var v := FourDigits(s[2..6]);
    if |s| >= 12 && 0xD800 <= v <= 0xDBFF && 0xDC00 <= FourDigits(s[8..12]) <= 0xDFFF {
      Halves(v, FourDigits(s[8..12]));
    }
  }

  lemma NumberAt(s: seq<byte>, i: nat)
    requires i + 4 <= |s|
    ensures Hex4(s[i..]) == FourDigits(s[i..i + 4]) < 0x1_0000
  {
    DigitsBound(s[i..i + 4]);
    assert s[i..][..4] == s[i..i + 4][..4];
    hide Hex4, FourDigits;
    Hex4Prefix(s[i..], s[i..i + 4]);
  }

  lemma Halves(v: nat, w: nat)
    requires 0xD800 <= v <= 0xDBFF && 0xDC00 <= w <= 0xDFFF
    ensures PairValue(v, w) == 0x1_0000 + (v - 0xD800) * 0x400 + (w - 0xDC00)
  {
  }

  /** A good escape is read as what it means, whatever follows. */
  lemma EscapeReads(x: seq<byte>, rest: seq<byte>)
    requires GoodEscape(x)
    ensures Utf16Literal(x + rest) == Some((EscapeMeaning(x), |x|))
  {
    var s := x + rest;
    ByNumbers(s);
    hide Utf16Literal, FourDigits, Utf8;
    assert s[2..6] == x[2..6] && (|x| == 12 ==> s[8..12] == x[8..12]);
  }

  /** And nothing else is read as an escape. */
  lemma OnlyGoodEscapes(s: seq<byte>)
    requires |s| >= 2 && s[0] == 0x5C && s[1] == 0x75 && Utf16Literal(s).Some?
    ensures var (bytes, n) := Utf16Literal(s).value; GoodEscape(s[..n]) && bytes == EscapeMeaning(s[..n])
  {
    var n := Utf16Literal(s).value.1;
    ByNumbers(s);
    hide Utf16Literal, FourDigits, Utf8;
    var x := s[..n];
    assert x[2..6] == s[2..6] && (n == 12 ==> x[8..12] == s[8..12]);
  }

  // ---------- literals ----------

  /**
   The tokens are the body of a literal that ends at `end`. When an escape hides a backslash from
   the search for the end, the last token may be a backslash and the closing quote.
   */
  predicate Covers(ts: seq<Token>, c: seq<byte>, i: nat, end: nat) {
    || (i <= end < |c| && TokensText(ts) == c[i..end])
    || (i <= end < |c| && ts != [] && ts[|ts| - 1] == Letter(0x22) && TokensText(ts) == c[i..end + 1])
  }

  /** One token of the body and the rest. */
  lemma DecodeToken(c: seq<byte>, i: nat, end: nat, t: Token)
    requires GoodToken(t) && i < end < |c| && TextAt(c, i, TokenText(t)) && (i + |TokenText(t)| <= end || t.Letter?)
    ensures Decode(c, i, end) == Prefix(TokenMeaning(t), Decode(c, i + |TokenText(t)|, end))
  {
    hide Utf16Literal, EscapeMeaning, Utf8, FourDigits;
    TextIndex(c, i, TokenText(t), 0);
    match t
    case Plain(b) =>
    case Letter(letter) => TextIndex(c, i, [0x5C, letter], 1);
    case Escape(x) =>
      TextIndex(c, i, x, 1);
      SliceBegins(c, i, x, end);
      EscapeReads(x, c[i + |x|..end]);
  }

  lemma {:induction false} TokensDecode(c: seq<byte>, i: nat, end: nat, ts: seq<Token>)
    requires GoodTokens(ts) && Covers(ts, c, i, end)
    ensures Decode(c, i, end) == Some(TokensMeaning(ts))
    decreases |ts|
  {
    if ts != [] {
      var t, more := ts[0], ts[1..];
      FirstToken(ts, c, i, end);
      hide Decode, TokenText, TokenMeaning, GoodToken, Covers, TextAt;
      DecodeToken(c, i, end, t);
      if i + |TokenText(t)| <= end {
        TokensDecode(c, i + |TokenText(t)|, end, more);
      } else {
        PastEnd(c, i + |TokenText(t)|, end);
      }
    } else {
      PastEnd(c, i, end);
    }
  }

  lemma PastEnd(c: seq<byte>, i: nat, end: nat)
    requires end < |c|
    ensures i >= end ==> Decode(c, i, end) == Some([])
  {
  }

  lemma FirstToken(ts: seq<Token>, c: seq<byte>, i: nat, end: nat)
    requires ts != [] && GoodTokens(ts) && Covers(ts, c, i, end)
    ensures var n := |TokenText(ts[0])|;
            && i < end < |c| && TextAt(c, i, TokenText(ts[0])) && GoodToken(ts[0])
            && (if i + n <= end then Covers(ts[1..], c, i + n, end) else ts[0].Letter? && ts[1..] == [])
  {
    TokenIsText(ts);
    hide TokenText, TokensText, GoodToken, TextAt;
    if i <= end && TokensText(ts) == c[i..end] {
      TextOfAll(ts, c, i, end);
    } else {
      TextOfAll(ts, c, i, end + 1);
      OverTheEnd(ts, c, i, end);
    }
  }

  lemma OverTheEnd(ts: seq<Token>, c: seq<byte>, i: nat, end: nat)
    requires ts != [] && ts[|ts| - 1] == Letter(0x22) && i <= end < |c|
    requires var n := |TokenText(ts[0])|; i + n <= end + 1 && TokensText(ts[1..]) == c[i + n..end + 1]
    ensures var n := |TokenText(ts[0])|;
            if i + n <= end then Covers(ts[1..], c, i + n, end) && i <= end else ts[1..] == [] && ts[0].Letter? && i < end
  {
    var n, more := |TokenText(ts[0])|, ts[1..];
    if |ts| > 1 {
      assert more[|more| - 1] == ts[|ts| - 1];
      LastText(more);
      hide TokensText;
    } else {
      assert more == [];
    }
  }

  lemma TokenIsText(ts: seq<Token>)
    requires ts != [] && GoodTokens(ts)
    ensures TokenText(ts[0]) != [] && GoodToken(ts[0])
  {
  }

  lemma TextOfAll(ts: seq<Token>, c: seq<byte>, i: nat, e: nat)
    requires ts != [] && i <= e <= |c| && TokensText(ts) == c[i..e]
    ensures var n := |TokenText(ts[0])|;
            TextAt(c, i, TokenText(ts[0])) && i + n <= e && TokensText(ts[1..]) == c[i + n..e]
  {
    var x, more := TokenText(ts[0]), TokensText(ts[1..]);
    assert c[i..e] == x + more;
    hide TokenText, TokensText;
    assert c[i..i + |x|] == c[i..e][..|x|] && c[i + |x|..e] == c[i..e][|x|..];
  }

  lemma {:induction false} LastText(ts: seq<Token>)
    requires ts != []
    ensures |TokensText(ts)| >= |TokenText(ts[|ts| - 1])|
  {
    if |ts| > 1 {
      LastText(ts[1..]);
    }
  }

  lemma {:induction false} DecodedTokens(c: seq<byte>, i: nat, end: nat) returns (ts: seq<Token>)
    requires i <= end < |c| && c[end] == 0x22 && Decode(c, i, end).Some?
    ensures GoodTokens(ts) && Covers(ts, c, i, end) && TokensMeaning(ts) == Decode(c, i, end).value
    decreases end - i
  {
    if i == end {
      ts := [];
      assert c[i..end] == [];
    } else {
      var t := OneToken(c, i, end);
      var n := |TokenText(t)|;
      DecodeToken(c, i, end, t);
      hide Decode, TokenText, TokenMeaning, GoodToken, TextAt;
      hide *;
      var more := [];
      NoTokens();
      if i + n <= end {
        more := DecodedTokens(c, i + n, end);
        JoinCovers(t, more, c, i, end);
      } else {
        PastEnd(c, i + n, end);
        LastOne(t, c, i, end);
      }
      JoinTokens(t, more, Decode(c, i + n, end));
      ts := [t] + more;
    }
  }

  lemma NoTokens()
    ensures GoodTokens([]) && TokensMeaning([]) == []
  {
  }

  lemma JoinTokens(t: Token, more: seq<Token>, rest: Option<seq<byte>>)
    requires GoodToken(t) && GoodTokens(more) && rest == Some(TokensMeaning(more))
    ensures GoodTokens([t] + more) && Prefix(TokenMeaning(t), rest) == Some(TokensMeaning([t] + more))
  {
    assert ([t] + more)[1..] == more;
  }

  lemma OneToken(c: seq<byte>, i: nat, end: nat) returns (t: Token)
    requires i < end < |c| && c[end] == 0x22 && Decode(c, i, end).Some?
    ensures GoodToken(t) && TextAt(c, i, TokenText(t)) && (i + |TokenText(t)| <= end || (t == Letter(0x22) && i + 1 == end))
    ensures TokenText(t) != []
  {
    hide Utf16Literal, FourDigits, EscapeMeaning;
    if c[i] != 0x5C {
      t := Plain(c[i]);
    } else if c[i + 1] == 0x75 {
      var s := c[i..end];
      var n := Utf16Literal(s).value.1;
      OnlyGoodEscapes(s);
      t := Escape(s[..n]);
      assert c[i..i + n] == s[..n];
    } else {
      t := Letter(c[i + 1]);
      assert c[i..i + 2] == [c[i], c[i + 1]];
    }
  }

  lemma JoinCovers(t: Token, more: seq<Token>, c: seq<byte>, i: nat, end: nat)
    requires var n := |TokenText(t)|; i + n <= end && TextAt(c, i, TokenText(t)) && Covers(more, c, i + n, end)
    ensures Covers([t] + more, c, i, end)
  {
    var n := |TokenText(t)|;
    assert ([t] + more)[1..] == more;
    assert c[i..end] == c[i..i + n] + c[i + n..end] && c[i..end + 1] == c[i..i + n] + c[i + n..end + 1];
    hide TokenText, TokensText;
    assert TokensText([t] + more) == TokenText(t) + TokensText(more) by { JoinText(t, more); }
  }

  lemma JoinText(t: Token, more: seq<Token>)
    ensures TokensText([t] + more) == TokenText(t) + TokensText(more)
  {
    assert ([t] + more)[1..] == more;
  }

  lemma LastOne(t: Token, c: seq<byte>, i: nat, end: nat)
    requires t == Letter(0x22) && i + 1 == end < |c| && TextAt(c, i, TokenText(t))
    ensures Covers([t] + [], c, i, end)
  {
    JoinText(t, []);
    assert [t] + [] == [t];
  }

  /**
   A string literal is read exactly when it begins with a quote, ends at the first one that no
   backslash escapes, and is made of bytes, the eight short escapes and good escapes of characters.
   */
  lemma LiteralsExactly(c: seq<byte>, o: nat, v: seq<byte>, next: nat)
    ensures ParseString(c, o) == Done(v, next) <==>
            && o + 1 < next <= |c| && c[o] == 0x22 && c[next - 1] == 0x22 && Units(c[o + 1..next - 1])
            && exists ts :: GoodTokens(ts) && Covers(ts, c, o + 1, next - 1) && TokensMeaning(ts) == v
  {
    hide Units, Covers, Decode, ScanEnd, GoodTokens, TokensMeaning;
    if ParseString(c, o) == Done(v, next) {
      EndsAtQuote(c, o + 1, next - 1);
      var ts := DecodedTokens(c, o + 1, next - 1);
    }
    if o + 1 < next <= |c| && c[o] == 0x22 && c[next - 1] == 0x22 && Units(c[o + 1..next - 1]) {
      EndsAtQuote(c, o + 1, next - 1);
      forall ts | GoodTokens(ts) && Covers(ts, c, o + 1, next - 1) ensures Decode(c, o + 1, next - 1) == Some(TokensMeaning(ts)) {
        TokensDecode(c, o + 1, next - 1, ts);
      }
    }
  }
}
