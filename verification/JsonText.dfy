/**
 JSON string literals: escaping, unescaping and the UTF-16 escapes
 (print_string_ptr, parse_string, utf16_literal_to_utf8 of
 test-tools/host-tool/external/cJSON/cJSON.c), as functions on bytes.
 */
module JsonText {
  import opened Bytes

  const QUOTE: byte := 0x22
  const SLASH: byte := 0x2F
  const BACKSLASH: byte := 0x5C
  const LETTER_B: byte := 0x62
  const LETTER_F: byte := 0x66
  const LETTER_N: byte := 0x6E
  const LETTER_R: byte := 0x72
  const LETTER_T: byte := 0x74
  const LETTER_U: byte := 0x75

  // ---------- UTF-8 ----------

  /** The continuation byte that carries the low six bits of `v`: (v | 0x80) & 0xBF. */
  function Continuation(v: nat): byte { 0x80 + v % 64 }

  /** Code point to UTF-8, as utf16_literal_to_utf8 encodes it. */
  function Utf8(cp: nat): (s: seq<byte>)
    requires cp <= 0x10_FFFF
    ensures 1 <= |s| <= 4
  {
    if cp < 0x80 then [cp]
    else if cp < 0x800 then [0xC0 + cp / 64, Continuation(cp)]
    else if cp < 0x1_0000 then [0xE0 + cp / 4096, Continuation(cp / 64), Continuation(cp)]
    else [0xF0 + cp / 0x4_0000, Continuation(cp / 4096), Continuation(cp / 64), Continuation(cp)]
  }

  predicate IsContinuation(b: byte) { 0x80 <= b < 0xC0 }

  /** The UTF-8 syntax of section 4 of RFC 3629: the byte sequences of one character. */
  predicate WellFormedUtf8(s: seq<byte>) {
    match |s|
    case 1 => s[0] < 0x80
    case 2 => 0xC2 <= s[0] <= 0xDF && IsContinuation(s[1])
    case 3 => IsContinuation(s[1]) && IsContinuation(s[2]) &&
              ((s[0] == 0xE0 && s[1] >= 0xA0) || 0xE1 <= s[0] <= 0xEC || (s[0] == 0xED && s[1] < 0xA0) || 0xEE <= s[0] <= 0xEF)
    case 4 => IsContinuation(s[1]) && IsContinuation(s[2]) && IsContinuation(s[3]) &&
              ((s[0] == 0xF0 && s[1] >= 0x90) || 0xF1 <= s[0] <= 0xF3 || (s[0] == 0xF4 && s[1] < 0x90))
    case _ => false
  }

  /** The character number that such a sequence stands for (section 3 of RFC 3629). */
  function Utf8Value(s: seq<byte>): int {
    match |s|
    case 1 => s[0]
    case 2 => (s[0] as int - 0xC0) * 64 + (s[1] as int - 0x80)
    case 3 => (s[0] as int - 0xE0) * 4096 + (s[1] as int - 0x80) * 64 + (s[2] as int - 0x80)
    case 4 => (s[0] as int - 0xF0) * 0x4_0000 + (s[1] as int - 0x80) * 4096 + (s[2] as int - 0x80) * 64 + (s[3] as int - 0x80)
    case _ => 0
  }

  predicate Surrogate(cp: nat) { 0xD800 <= cp <= 0xDFFF }

  lemma Digits64(cp: nat)
    ensures cp == cp / 64 * 64 + cp % 64 && cp / 64 / 64 == cp / 4096 && cp / 4096 / 64 == cp / 0x4_0000
  {
  }

  /** Every character is encoded as the well-formed sequence that stands for it. */
  lemma Utf8IsStandard(cp: nat)
    requires cp <= 0x10_FFFF && !Surrogate(cp)
    ensures WellFormedUtf8(Utf8(cp)) && Utf8Value(Utf8(cp)) == cp
  {
    Digits64(cp);
    Digits64(cp / 64);
    Digits64(cp / 4096);
  }

  // ---------- UTF-16 escapes ----------

  function HexDigit(b: byte): Option<nat> {
    if 0x30 <= b <= 0x39 then Some(b - 0x30)
    else if 0x41 <= b <= 0x46 then Some(10 + b - 0x41)
    else if 0x61 <= b <= 0x66 then Some(10 + b - 0x61)
    else None
  }

  /** parse_hex4: the value of four hexadecimal digits, 0 if one of them is not a digit. */
  function Hex4(s: seq<byte>): (v: nat)
    requires |s| >= 4
    ensures v < 0x1_0000
    ensures v > 0 ==> forall i :: 0 <= i < 4 ==> HexDigit(s[i]).Some?
  {
    var a, b, c, d := HexDigit(s[0]), HexDigit(s[1]), HexDigit(s[2]), HexDigit(s[3]);
    if a.Some? && b.Some? && c.Some? && d.Some? then a.value * 0x1000 + b.value * 0x100 + c.value * 0x10 + d.value
    else 0
  }

  /** The code point of a surrogate pair, 0x10000 plus the ten low bits of each half. */
  function PairValue(first: nat, second: nat): nat { 0x1_0000 + (first % 0x400) * 0x400 + second % 0x400 }

  /**
   utf16_literal_to_utf8 at the head of `s`, which ends where the string literal ends: the
   bytes of the character and how much of the literal it took.
   */
  function Utf16Literal(s: seq<byte>): (r: Option<(seq<byte>, nat)>)
    ensures r.Some? ==> r.value.1 in {6, 12} && r.value.1 <= |s| && 1 <= |r.value.0| <= 4
  {
    if |s| < 6 then None
    else
      var first := Hex4(s[2..]);
      if 0xDC00 <= first <= 0xDFFF then None
      else if 0xD800 <= first <= 0xDBFF then
        if |s| < 12 || s[6] != BACKSLASH || s[7] != LETTER_U then None
        else
          var second := Hex4(s[8..]);
          if second < 0xDC00 || second > 0xDFFF then None
          else Some((Utf8(PairValue(first, second)), 12))
      else Some((Utf8(first), 6))
  }

  /** The two halves of a character above 0xFFFF (section 2.1 of RFC 2781). */
  function HighHalf(cp: nat): nat { 0xD800 + (cp - 0x1_0000) / 0x400 }

  function LowHalf(cp: nat): nat { 0xDC00 + (cp - 0x1_0000) % 0x400 }

  lemma PairOfHalves(cp: nat)
    requires 0x1_0000 <= cp <= 0x10_FFFF
    ensures 0xD800 <= HighHalf(cp) <= 0xDBFF && 0xDC00 <= LowHalf(cp) <= 0xDFFF
    ensures PairValue(HighHalf(cp), LowHalf(cp)) == cp
  {
    var u := cp - 0x1_0000;
    assert u == (u / 0x400) * 0x400 + u % 0x400;
  }

  /** The digits of an escape, in whatever case. */
  predicate Digits(s: seq<byte>, v: nat) {
    |s| == 4 && (forall i :: 0 <= i < 4 ==> HexDigit(s[i]).Some?) &&
    v == 4096 * HexDigit(s[0]).value + 256 * HexDigit(s[1]).value + 16 * HexDigit(s[2]).value + HexDigit(s[3]).value
  }

  /** An escape of the character `cp`: one \uXXXX, or two for a surrogate pair (section 7 of RFC 8259). */
  predicate Escapes(s: seq<byte>, cp: nat) {
    if cp < 0x1_0000 then |s| == 6 && s[0] == BACKSLASH && s[1] == LETTER_U && Digits(s[2..], cp)
    else |s| == 12 && s[0] == BACKSLASH && s[1] == LETTER_U && Digits(s[2..6], HighHalf(cp)) &&
         s[6] == BACKSLASH && s[7] == LETTER_U && Digits(s[8..], LowHalf(cp))
  }

  lemma Hex4Prefix(s: seq<byte>, t: seq<byte>)
    requires |t| >= 4 && |s| >= 4 && s[..4] == t[..4]
    ensures Hex4(s) == Hex4(t)
  {
    assert forall i :: 0 <= i < 4 ==> s[i] == s[..4][i] && t[i] == t[..4][i];
  }

  /** Every escape of every character decodes to the character's UTF-8 form, whatever follows it. */
  lemma EscapeDecodes(s: seq<byte>, cp: nat, rest: seq<byte>)
    requires cp <= 0x10_FFFF && !Surrogate(cp) && Escapes(s, cp)
    ensures Utf16Literal(s + rest) == Some((Utf8(cp), |s|))
    ensures WellFormedUtf8(Utf8(cp)) && Utf8Value(Utf8(cp)) == cp
  {
    Utf8IsStandard(cp);
    var t := s + rest;
    assert t[2..][..4] == s[2..6];
    if cp < 0x1_0000 {
      Hex4Prefix(t[2..], s[2..]);
    } else {
      PairOfHalves(cp);
      Hex4Prefix(t[2..], s[2..6]);
      assert t[8..][..4] == s[8..];
      Hex4Prefix(t[8..], s[8..]);
    }
    hide Hex4, Utf8, WellFormedUtf8, Utf8Value, HexDigit;
  }

  /**
   Four bytes that are not all digits read as 0, so that such an escape gives a NUL, as \u0000
   does; everything else with the value 0 is an escape of NUL.
   */
  lemma BadDigitsReadAsNul(s: seq<byte>)
    requires |s| >= 6
    ensures Utf16Literal(s) == Some(([0], 6)) <==>
            (exists i :: 2 <= i < 6 && HexDigit(s[i]).None?) || (forall i :: 2 <= i < 6 ==> s[i] == 0x30)
  {
    assert forall i :: 2 <= i < 6 ==> s[i] == s[2..][i - 2];
  }

  // ---------- reading a literal ----------

  /**
   What reading at an offset comes to: a value and the offset behind it, a failure, or a read
   behind the end of the buffer. What the code does after that read is undefined.
   */
  datatype Parsed<T> = Done(value: T, next: nat) | Failed | Overread

  /** The escapes of one character after the backslash. */
  function ShortEscape(b: byte): Option<byte> {
    if b == LETTER_B then Some(8)
    else if b == LETTER_F then Some(12)
    else if b == LETTER_N then Some(10)
    else if b == LETTER_R then Some(13)
    else if b == LETTER_T then Some(9)
    else if b == QUOTE || b == BACKSLASH || b == SLASH then Some(b)
    else None
  }

  /** Where the literal that starts at `i` ends: at its closing quote, escaped bytes skipped over. */
  function ScanEnd(c: seq<byte>, i: nat): (r: Option<nat>)
    requires i <= |c|
    ensures r.Some? ==> i <= r.value < |c| && c[r.value] == QUOTE
    decreases |c| - i
  {
    if i == |c| then None
    else if c[i] == QUOTE then Some(i)
    else if c[i] == BACKSLASH then if i + 1 == |c| then None else ScanEnd(c, i + 2)
    else ScanEnd(c, i + 1)
  }

  /** The bytes of the literal from `i` to its end. The byte at `end` is the closing quote. */
  function Decode(c: seq<byte>, i: nat, end: nat): Option<seq<byte>>
    requires end < |c|
    decreases end - i
  {
    if i >= end then Some([])
    else if c[i] != BACKSLASH then Prefix([c[i]], Decode(c, i + 1, end))
    else if c[i + 1] == LETTER_U then
      match Utf16Literal(c[i..end])
      case None => None
      case Some((s, n)) => Prefix(s, Decode(c, i + n, end))
    else if ShortEscape(c[i + 1]).Some? then Prefix([ShortEscape(c[i + 1]).value], Decode(c, i + 2, end))
    else None
  }

  function Prefix(s: seq<byte>, r: Option<seq<byte>>): Option<seq<byte>> {
    if r.None? then None else Some(s + r.value)
  }

  /** parse_string at offset `o`, whose first byte is read without a look at the length. */
  function ParseString(c: seq<byte>, o: nat): (r: Parsed<seq<byte>>)
    ensures r.Done? ==> o + 1 < r.next <= |c|
    ensures r.Overread? <==> o >= |c|
  {
    if o >= |c| then Overread
    else if c[o] != QUOTE then Failed
    else match ScanEnd(c, o + 1)
      case None => Failed
      case Some(end) =>
        match Decode(c, o + 1, end)
        case None => Failed
        case Some(s) => Done(s, end + 1)
  }

  // ---------- the size of the decoded string ----------

  /** How many escapes the scan that measures the literal meets from `i` on, before position `p`. */
  function EscapesBefore(c: seq<byte>, i: nat, p: nat): nat
    requires p <= |c|
    decreases p - i
  {
    if i >= p then 0
    else if c[i] == BACKSLASH then 1 + EscapesBefore(c, i + 2, p)
    else EscapesBefore(c, i + 1, p)
  }

  /** One more byte adds at most one escape, and only if it is a backslash. */
  lemma {:induction false} EscapesStep(c: seq<byte>, i: nat, p: nat)
    requires p < |c|
    ensures var a, b := EscapesBefore(c, i, p), EscapesBefore(c, i, p + 1);
            a <= b <= a + 1 && (c[p] != BACKSLASH ==> a == b)
    decreases p - i
  {
    if i < p {
      EscapesStep(c, if c[i] == BACKSLASH then i + 2 else i + 1, p);
    }
  }

  /** Two bytes add at most one escape, because an escape covers the byte behind it. */
  lemma {:induction false} EscapesTwo(c: seq<byte>, i: nat, p: nat)
    requires p + 1 < |c|
    ensures EscapesBefore(c, i, p + 2) <= EscapesBefore(c, i, p) + 1
    decreases p - i
  {
    if i < p {
      EscapesTwo(c, if c[i] == BACKSLASH then i + 2 else i + 1, p);
    } else if i == p {
      assert EscapesBefore(c, p + 2, p + 2) == 0;
      EscapesStep(c, p + 1, p + 1);
    } else {
      EscapesStep(c, i, p + 1);
    }
  }

  /** The bytes a token of the literal at `p` decodes to never outnumber its bytes less the escapes counted in it. */
  lemma TokenFits(c: seq<byte>, i: nat, p: nat, end: nat)
    requires p < end < |c| && c[p] == BACKSLASH && c[p + 1] == LETTER_U && Utf16Literal(c[p..end]).Some?
    ensures var (s, n) := Utf16Literal(c[p..end]).value;
            p + n <= end && EscapesBefore(c, i, p + n) + |s| <= EscapesBefore(c, i, p) + n
  {
    hide Hex4, Utf8;
    var t := c[p..end];
    var (s, n) := Utf16Literal(t).value;
    EscapesTwo(c, i, p);
    EscapesTwo(c, i, p + 2);
    EscapesTwo(c, i, p + 4);
    if n == 12 {
      EscapesTwo(c, i, p + 6);
      EscapesTwo(c, i, p + 8);
      EscapesTwo(c, i, p + 10);
    } else if |s| > 3 {
      FourBytesArePairs(t);
    }
  }

  lemma FourBytesArePairs(t: seq<byte>)
    requires Utf16Literal(t).Some? && Utf16Literal(t).value.1 == 6
    ensures |Utf16Literal(t).value.0| <= 3
  {
    hide Hex4;
  }

  /**
   The decoded string fits the block that the first scan sizes: the bytes of the literal less
   one for every escape, and one more.
   */
  lemma {:induction false} DecodedFits(c: seq<byte>, from: nat, i: nat, end: nat)
    requires from <= i <= end + 1 && end < |c| && Decode(c, i, end).Some? && c[end] == QUOTE
    ensures |Decode(c, i, end).value| + EscapesBefore(c, from, end) <= EscapesBefore(c, from, i) + (end + 1 - i)
    decreases end + 1 - i
  {
    if i >= end {
      if i == end + 1 { EscapesStep(c, from, end); }
    } else if c[i] != BACKSLASH {
      EscapesStep(c, from, i);
      DecodedFits(c, from, i + 1, end);
    } else if c[i + 1] == LETTER_U {
      TokenFits(c, from, i, end);
      DecodedFits(c, from, i + Utf16Literal(c[i..end]).value.1, end);
    } else {
      EscapesTwo(c, from, i);
      DecodedFits(c, from, i + 2, end);
    }
  }

  // ---------- writing a literal ----------

  function LowerHex(v: nat): byte
    requires v < 16
  {
    if v < 10 then 0x30 + v else 0x61 + v - 10
  }

  /** How print_string_ptr writes one byte. */
  function EscapeByte(b: byte): (s: seq<byte>)
    ensures s != []
  {
    if b > 31 && b != QUOTE && b != BACKSLASH then [b]
    else if b == BACKSLASH || b == QUOTE then [BACKSLASH, b]
    else if b == 8 then [BACKSLASH, LETTER_B]
    else if b == 12 then [BACKSLASH, LETTER_F]
    else if b == 10 then [BACKSLASH, LETTER_N]
    else if b == 13 then [BACKSLASH, LETTER_R]
    else if b == 9 then [BACKSLASH, LETTER_T]
    else [BACKSLASH, LETTER_U, 0x30, 0x30, LowerHex(b / 16), LowerHex(b % 16)]
  }

  function EscapeAll(s: seq<byte>): seq<byte> {
    if s == [] then [] else EscapeByte(s[0]) + EscapeAll(s[1..])
  }

  /** print_string_ptr: the quoted literal. */
  function Quoted(s: seq<byte>): seq<byte> { [QUOTE] + EscapeAll(s) + [QUOTE] }

  /** A piece of text at an offset. */
  predicate TextAt(c: seq<byte>, o: nat, t: seq<byte>) { o + |t| <= |c| && c[o..o + |t|] == t }

  lemma TextSplit(c: seq<byte>, o: nat, a: seq<byte>, b: seq<byte>)
    requires TextAt(c, o, a + b)
    ensures TextAt(c, o, a) && TextAt(c, o + |a|, b)
  {
    assert c[o..o + |a|] == c[o..o + |a + b|][..|a|];
    assert c[o + |a|..o + |a| + |b|] == c[o..o + |a + b|][|a|..];
  }

  lemma TextIndex(c: seq<byte>, o: nat, t: seq<byte>, k: nat)
    requires TextAt(c, o, t) && k < |t|
    ensures c[o + k] == t[k]
  {
    assert c[o + k] == c[o..o + |t|][k];
  }

  // ---------- literals ----------

  /** What stands between the quotes (section 7 of RFC 8259): bytes as they are, short escapes, escapes of a character. */
  datatype Piece = Byte(b: byte) | Short(letter: byte) | Unicode(escape: seq<byte>, cp: nat)

  predicate GoodPiece(p: Piece) {
    match p
    case Byte(b) => b != QUOTE && b != BACKSLASH
    case Short(letter) => ShortEscape(letter).Some?
    case Unicode(escape, cp) => cp <= 0x10_FFFF && !Surrogate(cp) && Escapes(escape, cp)
  }

  function PieceText(p: Piece): seq<byte> {
    match p
    case Byte(b) => [b]
    case Short(letter) => [BACKSLASH, letter]
    case Unicode(escape, _) => escape
  }

  function PieceMeaning(p: Piece): seq<byte>
    requires GoodPiece(p)
  {
    match p
    case Byte(b) => [b]
    case Short(letter) => [ShortEscape(letter).value]
    case Unicode(_, cp) => Utf8(cp)
  }

  predicate GoodPieces(pieces: seq<Piece>) { forall i :: 0 <= i < |pieces| ==> GoodPiece(pieces[i]) }

  function PiecesText(pieces: seq<Piece>): seq<byte> {
    if pieces == [] then [] else PieceText(pieces[0]) + PiecesText(pieces[1..])
  }

  /** The bytes a literal stands for. */
  function Meaning(pieces: seq<Piece>): seq<byte>
    requires GoodPieces(pieces)
  {
    if pieces == [] then [] else PieceMeaning(pieces[0]) + Meaning(pieces[1..])
  }

  function Literal(pieces: seq<Piece>): seq<byte> { [QUOTE] + PiecesText(pieces) + [QUOTE] }

  /** Backslash, u and four digits. */
  predicate EscapeBlock(c: seq<byte>, o: nat) {
    o + 6 <= |c| && c[o] == BACKSLASH && c[o + 1] == LETTER_U &&
    forall k :: o + 2 <= k < o + 6 ==> HexDigit(c[k]).Some?
  }

  lemma ScanBlock(c: seq<byte>, o: nat)
    requires EscapeBlock(c, o) && o + 6 < |c|
    ensures ScanEnd(c, o) == ScanEnd(c, o + 6)
  {
    assert ScanEnd(c, o) == ScanEnd(c, o + 2);
    assert ScanEnd(c, o + 2) == ScanEnd(c, o + 3);
    assert ScanEnd(c, o + 3) == ScanEnd(c, o + 4);
    assert ScanEnd(c, o + 4) == ScanEnd(c, o + 5);
    assert ScanEnd(c, o + 5) == ScanEnd(c, o + 6);
  }

  /** An escape of a character is one such block, or two. */
  lemma EscapeBlocks(s: seq<byte>, cp: nat)
    requires Escapes(s, cp)
    ensures (|s| == 6 || |s| == 12) && EscapeBlock(s, 0) && (|s| == 12 ==> EscapeBlock(s, 6))
  {
    hide Hex4;
    if |s| == 6 {
      assert forall k :: 2 <= k < 6 ==> s[k] == s[2..][k - 2];
    } else {
      assert forall k :: 2 <= k < 6 ==> s[k] == s[2..6][k - 2];
      assert forall k :: 8 <= k < 12 ==> s[k] == s[8..][k - 8];
    }
  }

  lemma BlockAt(c: seq<byte>, o: nat, s: seq<byte>, i: nat)
    requires TextAt(c, o, s) && EscapeBlock(s, i)
    ensures EscapeBlock(c, o + i)
  {
    forall k | i <= k < i + 6 ensures c[o + k] == s[k] {
      TextIndex(c, o, s, k);
    }
    assert forall k :: o + i + 2 <= k < o + i + 6 ==> c[k] == s[k - o];
  }

  /** The scan passes over a piece as a whole. */
  lemma ScanOverPiece(c: seq<byte>, o: nat, p: Piece)
    requires GoodPiece(p) && TextAt(c, o, PieceText(p)) && o + |PieceText(p)| < |c|
    ensures ScanEnd(c, o) == ScanEnd(c, o + |PieceText(p)|)
  {
    match p
    case Byte(b) =>
      TextIndex(c, o, [b], 0);
    case Short(letter) =>
      TextIndex(c, o, [BACKSLASH, letter], 0);
    case Unicode(s, cp) =>
      ScanOverEscape(c, o, s, cp);
  }

  lemma ScanOverEscape(c: seq<byte>, o: nat, s: seq<byte>, cp: nat)
    requires Escapes(s, cp) && TextAt(c, o, s) && o + |s| < |c|
    ensures ScanEnd(c, o) == ScanEnd(c, o + |s|)
  {
    EscapeBlocks(s, cp);
    hide *;
    BlockAt(c, o, s, 0);
    ScanBlock(c, o);
    if |s| == 12 {
      BlockAt(c, o, s, 6);
      ScanBlock(c, o + 6);
    }
  }

  /** And the decoder turns it into what it means. */
  lemma DecodePiece(c: seq<byte>, o: nat, p: Piece, end: nat)
    requires GoodPiece(p) && TextAt(c, o, PieceText(p)) && o + |PieceText(p)| <= end < |c|
    ensures Decode(c, o, end) == Prefix(PieceMeaning(p), Decode(c, o + |PieceText(p)|, end))
  {
    hide Utf16Literal, Utf8, Escapes;
    match p
    case Byte(b) =>
      TextIndex(c, o, [b], 0);
    case Short(letter) =>
      TextIndex(c, o, [BACKSLASH, letter], 0);
      TextIndex(c, o, [BACKSLASH, letter], 1);
    case Unicode(s, cp) =>
      DecodeEscape(c, o, s, cp, end);
  }

  lemma DecodeEscape(c: seq<byte>, o: nat, s: seq<byte>, cp: nat, end: nat)
    requires GoodPiece(Unicode(s, cp)) && TextAt(c, o, s) && o + |s| <= end < |c|
    ensures Decode(c, o, end) == Prefix(Utf8(cp), Decode(c, o + |s|, end))
  {
    hide Utf16Literal, Utf8, Escapes, HexDigit, Surrogate, TextAt, Digits, Prefix;
    EscapeBlocks(s, cp);
    BlockAt(c, o, s, 0);
    SliceBegins(c, o, s, end);
    EscapeDecodes(s, cp, c[o + |s|..end]);
  }

  lemma SliceBegins(c: seq<byte>, o: nat, s: seq<byte>, end: nat)
    requires TextAt(c, o, s) && o + |s| <= end <= |c|
    ensures c[o..end] == s + c[o + |s|..end]
  {
  }

  lemma {:induction false} ScanOverAll(c: seq<byte>, o: nat, pieces: seq<Piece>)
    requires GoodPieces(pieces) && TextAt(c, o, PiecesText(pieces) + [QUOTE])
    ensures ScanEnd(c, o) == Some(o + |PiecesText(pieces)|)
    decreases |pieces|
  {
    hide PieceText, GoodPiece;
    if pieces == [] {
      TextIndex(c, o, [QUOTE], 0);
      assert PiecesText(pieces) + [QUOTE] == [QUOTE];
    } else {
      var e, more := PieceText(pieces[0]), PiecesText(pieces[1..]) + [QUOTE];
      assert PiecesText(pieces) + [QUOTE] == e + more;
      TextSplit(c, o, e, more);
      ScanOverPiece(c, o, pieces[0]);
      ScanOverAll(c, o + |e|, pieces[1..]);
    }
  }

  lemma {:induction false} DecodeAll(c: seq<byte>, o: nat, pieces: seq<Piece>, end: nat)
    requires GoodPieces(pieces) && TextAt(c, o, PiecesText(pieces)) && end == o + |PiecesText(pieces)| && end < |c|
    ensures Decode(c, o, end) == Some(Meaning(pieces))
    decreases |pieces|
  {
    hide PieceText, PieceMeaning, GoodPiece;
    if pieces != [] {
      var e := PieceText(pieces[0]);
      TextSplit(c, o, e, PiecesText(pieces[1..]));
      DecodePiece(c, o, pieces[0], end);
      DecodeAll(c, o + |e|, pieces[1..], end);
    }
  }

  /** Every string literal, plain bytes and escapes mixed in any way, is read as what it stands for. */
  lemma ParseReadsLiteral(c: seq<byte>, o: nat, pieces: seq<Piece>)
    requires GoodPieces(pieces) && TextAt(c, o, Literal(pieces))
    ensures ParseString(c, o) == Done(Meaning(pieces), o + |Literal(pieces)|)
  {
    hide PiecesText, Decode, ScanEnd, GoodPieces, Meaning;
    var body := PiecesText(pieces);
    assert Literal(pieces) == [QUOTE] + (body + [QUOTE]);
    TextIndex(c, o, Literal(pieces), 0);
    TextSplit(c, o, [QUOTE], body + [QUOTE]);
    TextSplit(c, o + 1, body, [QUOTE]);
    ScanOverAll(c, o + 1, pieces);
    DecodeAll(c, o + 1, pieces, o + 1 + |body|);
  }

  // ---------- written literals ----------

  /** The piece that print_string_ptr writes for a byte. */
  function PieceOf(b: byte): (p: Piece)
    ensures PieceText(p) == EscapeByte(b)
  {
    if b > 31 && b != QUOTE && b != BACKSLASH then Byte(b)
    else if b == BACKSLASH || b == QUOTE then Short(b)
    else if b == 8 then Short(LETTER_B)
    else if b == 12 then Short(LETTER_F)
    else if b == 10 then Short(LETTER_N)
    else if b == 13 then Short(LETTER_R)
    else if b == 9 then Short(LETTER_T)
    else Unicode(EscapeByte(b), b)
  }

  function PiecesOf(s: seq<byte>): seq<Piece> {
    if s == [] then [] else [PieceOf(s[0])] + PiecesOf(s[1..])
  }

  /** It is a good piece and stands for the byte. */
  lemma PieceOfByte(b: byte)
    ensures GoodPiece(PieceOf(b)) && PieceMeaning(PieceOf(b)) == [b]
  {
    if PieceOf(b).Unicode? {
      var d := EscapeByte(b)[2..];
      assert d == [0x30, 0x30, LowerHex(b / 16), LowerHex(b % 16)];
    }
  }

  lemma {:induction false} PiecesOfBytes(s: seq<byte>)
    ensures GoodPieces(PiecesOf(s)) && PiecesText(PiecesOf(s)) == EscapeAll(s) && Meaning(PiecesOf(s)) == s
  {
    if s != [] {
      PieceOfByte(s[0]);
      hide PieceOf, PieceText, EscapeByte, GoodPiece, PieceMeaning;
      PiecesOfBytes(s[1..]);
      assert PiecesOf(s)[1..] == PiecesOf(s[1..]);
      assert s == [s[0]] + s[1..];
    }
  }

  /** Reading a written literal gives the string back. */
  lemma ParseInvertsQuote(c: seq<byte>, o: nat, s: seq<byte>)
    requires TextAt(c, o, Quoted(s))
    ensures ParseString(c, o) == Done(s, o + |Quoted(s)|)
  {
    PiecesOfBytes(s);
    hide EscapeAll, PiecesText, ParseString;
    ParseReadsLiteral(c, o, PiecesOf(s));
  }
}
