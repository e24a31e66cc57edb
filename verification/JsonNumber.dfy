/**
 Number literals, as far as their text goes: which bytes parse_number hands to `strtod`, and which
 of them `strtod` takes (test-tools/host-tool/external/cJSON/cJSON.c). The value is that of the text.
 */
module JsonNumber {
  import opened Bytes
  import opened JsonText
  import Lists

  const PLUS: byte := 0x2B
  const MINUS: byte := 0x2D
  const POINT: byte := 0x2E
  const UPPER_E: byte := 0x45
  const LOWER_E: byte := 0x65

  /** The bytes that fit the buffers of parse_number and print_number, besides the terminator. */
  const READ_LENGTH_MAX := 63
  const PRINT_LENGTH_MAX := 25

  predicate IsDigit(b: byte) { 0x30 <= b <= 0x39 }

  predicate NumberByte(b: byte) { IsDigit(b) || b in {PLUS, MINUS, POINT, UPPER_E, LOWER_E} }

  /** How many bytes of a text can be part of a number, and fit the buffer. */
  function RunLength(s: seq<byte>, cap: nat): (n: nat)
    ensures n <= |s| && n <= cap
    ensures forall i :: 0 <= i < n ==> NumberByte(s[i])
    ensures n < |s| && n < cap ==> !NumberByte(s[n])
  {
    if cap == 0 || s == [] || !NumberByte(s[0]) then 0 else 1 + RunLength(s[1..], cap - 1)
  }

  /** How many bytes are copied for strtod from an offset of the buffer on. */
  function RunFrom(c: seq<byte>, o: nat, cap: nat): (n: nat)
    requires o <= |c|
    ensures o + n <= |c| && n <= cap
  {
    RunLength(c[o..], cap)
  }

  function DigitsLength(s: seq<byte>): (n: nat)
    ensures n <= |s| && forall i :: 0 <= i < n ==> IsDigit(s[i])
    ensures n < |s| ==> !IsDigit(s[n])
  {
    if s == [] || !IsDigit(s[0]) then 0 else 1 + DigitsLength(s[1..])
  }

  function SignLength(s: seq<byte>): (n: nat)
    ensures n <= |s| && n <= 1
  {
    if s != [] && s[0] in {PLUS, MINUS} then 1 else 0
  }

  /** An exponent needs a digit. */
  function ExponentLength(s: seq<byte>): (n: nat)
    ensures n <= |s|
  {
    if s == [] || s[0] !in {UPPER_E, LOWER_E} then 0
    else
      var sign := SignLength(s[1..]);
      var digits := DigitsLength(s[1 + sign..]);
      if digits == 0 then 0 else 1 + sign + digits
  }

  function FractionLength(s: seq<byte>): (n: nat)
    ensures n <= |s|
  {
    if s == [] || s[0] != POINT then 0 else 1 + DigitsLength(s[1..])
  }

  /** A fraction and an exponent, if they are there. */
  function TailLength(s: seq<byte>): (n: nat)
    ensures n <= |s|
  {
    var f := FractionLength(s); f + ExponentLength(s[f..])
  }

  /** Digits with a point among them, and an exponent; nothing without a digit. */
  function UnsignedLength(s: seq<byte>): (n: nat)
    ensures n <= |s|
  {
    var w := DigitsLength(s);
    if w == 0 && FractionLength(s) <= 1 then 0 else w + TailLength(s[w..])
  }

  /** How much of a text of number bytes strtod converts (section 7.22.1.3 of ISO C11). */
  function StrtodLength(s: seq<byte>): (n: nat)
    ensures n <= |s|
  {
    var g := SignLength(s);
    var u := UnsignedLength(s[g..]);
    if u == 0 then 0 else g + u
  }

  /** parse_number at offset `o`: the text of the number. */
  function ParseNumber(c: seq<byte>, o: nat): (r: Parsed<seq<byte>>)
    requires o <= |c|
    ensures !r.Overread?
    ensures r.Done? ==> o < r.next <= |c|
  {
    var n := StrtodLength(c[o..o + RunFrom(c, o, READ_LENGTH_MAX)]);
    if n == 0 then Failed else Done(c[o..o + n], o + n)
  }

  // ---------- the grammar of numbers ----------

  datatype Exponent = NoExponent | Exponent(letter: byte, sign: seq<byte>, digits: seq<byte>)

  /** The parts of a number; `point` tells whether it has a decimal point. */
  datatype Number = Number(sign: seq<byte>, whole: seq<byte>, point: bool, decimals: seq<byte>, exponent: Exponent)

  predicate AllDigits(s: seq<byte>) { forall i :: 0 <= i < |s| ==> 0x30 <= s[i] <= 0x39 }

  predicate GoodExponent(e: Exponent) {
    e.NoExponent? || (e.letter in {0x45, 0x65} && e.sign in {[], [0x2B], [0x2D]} && e.digits != [] && AllDigits(e.digits))
  }

  /** The decimal numbers of section 7.22.1.3 of ISO C11. */
  predicate Numeral(n: Number) {
    && n.sign in {[], [0x2B], [0x2D]} && AllDigits(n.whole) && AllDigits(n.decimals)
    && n.whole + n.decimals != [] && (n.point || n.decimals == []) && GoodExponent(n.exponent)
  }

  /** Those of section 6 of RFC 8259: no plus sign, digits on both sides of the point, no leading zero. */
  predicate JsonNumeral(n: Number) {
    && Numeral(n) && n.sign != [0x2B] && n.whole != [] && (n.point ==> n.decimals != [])
    && (|n.whole| > 1 ==> n.whole[0] != 0x30)
  }

  function ExponentText(e: Exponent): seq<byte> {
    if e.NoExponent? then [] else [e.letter] + (e.sign + e.digits)
  }

  function FractionText(n: Number): seq<byte> { if n.point then [0x2E] + n.decimals else [] }

  function TailText(n: Number): seq<byte> { FractionText(n) + ExponentText(n.exponent) }

  function UnsignedText(n: Number): seq<byte> { n.whole + TailText(n) }

  function NumeralText(n: Number): seq<byte> { n.sign + UnsignedText(n) }

  ghost predicate IsNumeral(t: seq<byte>) { exists n :: Numeral(n) && NumeralText(n) == t }

  /** What print_number writes for a finite number: a number as JSON has them, of at most 25 bytes. */
  ghost predicate NumberText(t: seq<byte>) {
    |t| <= 25 && exists n :: JsonNumeral(n) && NumeralText(n) == t
  }

  // ---------- every number is taken ----------

  lemma DigitsOf(s: seq<byte>, rest: seq<byte>)
    requires AllDigits(s)
    ensures DigitsLength(s + rest) >= |s|
    ensures rest == [] || !IsDigit(rest[0]) ==> DigitsLength(s + rest) == |s|
  {
    var t := s + rest;
    var n := DigitsLength(t);
    assert forall i :: 0 <= i < |s| ==> t[i] == s[i] && IsDigit(t[i]);
    if rest != [] {
      assert t[|s|] == rest[0];
    }
  }

  lemma SignOf(sign: seq<byte>, rest: seq<byte>)
    requires sign in {[], [0x2B], [0x2D]} && rest != [] && rest[0] !in {0x2B, 0x2D}
    ensures SignLength(sign + rest) == |sign| && (sign + rest)[|sign|..] == rest
  {
    assert (sign + rest)[0] == if sign == [] then rest[0] else sign[0];
  }

  lemma ExponentTakes(e: Exponent, rest: seq<byte>)
    requires GoodExponent(e)
    ensures ExponentLength(ExponentText(e) + rest) >= |ExponentText(e)|
  {
    if e.Exponent? {
      var after := e.digits + rest;
      var s := [e.letter] + (e.sign + after);
      Lists.Associative([e.letter], e.sign + e.digits, rest);
      Lists.Associative(e.sign, e.digits, rest);
      assert ExponentText(e) + rest == s && s[1..] == e.sign + after && after[0] == e.digits[0];
      SignOf(e.sign, after);
      DigitsOf(e.digits, rest);
      hide DigitsLength, SignLength, AllDigits;
      Lists.DropDrop(s, 1, |e.sign|);
    }
  }

  lemma TailTakes(n: Number, rest: seq<byte>)
    requires Numeral(n)
    ensures TailLength(TailText(n) + rest) >= |TailText(n)|
    ensures n.point ==> FractionLength(TailText(n) + rest) >= 1 + |n.decimals|
  {
    var e := ExponentText(n.exponent) + rest;
    Lists.Associative(FractionText(n), ExponentText(n.exponent), rest);
    ExponentTakes(n.exponent, rest);
    if n.point {
      PointAndMore(n.decimals, e);
      hide ExponentLength, FractionLength, AllDigits;
      assert FractionText(n) + e == [0x2E] + (n.decimals + e);
      if n.exponent.Exponent? {
        assert ([0x2E] + (n.decimals + e))[1 + |n.decimals|..] == e;
      }
    } else {
      assert [] + e == e && e[0..] == e;
    }
  }

  lemma PointAndMore(decimals: seq<byte>, rest: seq<byte>)
    requires AllDigits(decimals)
    ensures FractionLength([0x2E] + (decimals + rest)) >= 1 + |decimals|
    ensures rest != [] && !IsDigit(rest[0]) ==> FractionLength([0x2E] + (decimals + rest)) == 1 + |decimals|
  {
    DigitsOf(decimals, rest);
    assert ([0x2E] + (decimals + rest))[1..] == decimals + rest;
  }

  lemma UnsignedTakes(n: Number, rest: seq<byte>)
    requires Numeral(n)
    ensures UnsignedLength(UnsignedText(n) + rest) >= |UnsignedText(n)|
  {
    var tail := TailText(n) + rest;
    var s := n.whole + tail;
    Lists.Associative(n.whole, TailText(n), rest);
    DigitsOf(n.whole, tail);
    TailTakes(n, rest);
    if TailText(n) != [] { TailHead(n, rest); }
    hide DigitsLength, TailLength, FractionLength, AllDigits;
    if TailText(n) != [] {
      assert s[|n.whole|..] == tail;
      assert n.whole == [] ==> s == tail;
    }
  }

  lemma TailHead(n: Number, rest: seq<byte>)
    requires Numeral(n) && TailText(n) != []
    ensures !IsDigit((TailText(n) + rest)[0])
  {
    assert (TailText(n) + rest)[0] == TailText(n)[0];
  }

  lemma UnsignedHead(n: Number, rest: seq<byte>)
    requires Numeral(n)
    ensures var s := UnsignedText(n) + rest; s != [] && s[0] !in {0x2B, 0x2D}
  {
    assert UnsignedText(n)[0] == if n.whole == [] then 0x2E else n.whole[0];
    assert (UnsignedText(n) + rest)[0] == UnsignedText(n)[0];
  }

  /** strtod takes at least every number that the text begins with. */
  lemma StrtodTakes(n: Number, rest: seq<byte>)
    requires Numeral(n)
    ensures StrtodLength(NumeralText(n) + rest) >= |NumeralText(n)| > 0
  {
    Lists.Associative(n.sign, UnsignedText(n), rest);
    UnsignedHead(n, rest);
    UnsignedTakes(n, rest);
    UnsignedHead(n, []);
    hide UnsignedLength, SignLength, UnsignedText, AllDigits, GoodExponent;
    SignOf(n.sign, UnsignedText(n) + rest);
  }

  // ---------- and only numbers ----------

  lemma TakenExponent(s: seq<byte>) returns (e: Exponent)
    ensures GoodExponent(e) && ExponentText(e) == s[..ExponentLength(s)]
  {
    e := NoExponent;
    if ExponentLength(s) > 0 {
      var sign := SignLength(s[1..]);
      var digits := DigitsLength(s[1 + sign..]);
      e := Exponent(s[0], s[1..][..sign], s[1 + sign..][..digits]);
      TakenSign(s[1..]);
      hide DigitsLength, SignLength;
      assert [s[0]] + (s[1..][..sign] + s[1 + sign..][..digits]) == s[..1 + sign + digits];
    }
  }

  lemma TakenSign(s: seq<byte>)
    ensures s[..SignLength(s)] in {[], [0x2B], [0x2D]}
  {
    assert SignLength(s) == 1 ==> s[..1] == [s[0]];
  }

  /** The fraction and the exponent of what is taken. */
  lemma TakenTail(s: seq<byte>) returns (n: Number)
    ensures AllDigits(n.decimals) && (n.point || n.decimals == []) && GoodExponent(n.exponent)
    ensures TailText(n) == s[..TailLength(s)] && |n.decimals| + (if n.point then 1 else 0) == FractionLength(s)
  {
    var f := FractionLength(s);
    var e := TakenExponent(s[f..]);
    n := Number([], [], f > 0, if f > 0 then s[1..][..f - 1] else [], e);
    TakenFraction(s, n);
    hide ExponentLength, ExponentText, GoodExponent, DigitsLength, FractionText, FractionLength;
    Lists.HeadJoin(s, f, ExponentLength(s[f..]));
  }

  lemma TakenFraction(s: seq<byte>, n: Number)
    requires var f := FractionLength(s); n.point == (f > 0) && n.decimals == if f > 0 then s[1..][..f - 1] else []
    ensures AllDigits(n.decimals) && FractionText(n) == s[..FractionLength(s)]
  {
    var f := FractionLength(s);
    if f > 0 {
      assert s[..1] == [0x2E];
      Lists.HeadJoin(s, 1, f - 1);
    }
  }

  /** What strtod takes is a number. */
  lemma StrtodIsNumeral(s: seq<byte>)
    requires StrtodLength(s) > 0
    ensures IsNumeral(s[..StrtodLength(s)])
  {
    var g := SignLength(s);
    var u := s[g..];
    TakenSign(s);
    var n := TakenUnsigned(u, s[..g]);
    Lists.HeadJoin(s, g, UnsignedLength(u));
    hide UnsignedLength, SignLength, Numeral, UnsignedText;
    assert NumeralText(n) == s[..StrtodLength(s)];
  }

  lemma TakenUnsigned(u: seq<byte>, sign: seq<byte>) returns (n: Number)
    requires UnsignedLength(u) > 0 && sign in {[], [0x2B], [0x2D]}
    ensures Numeral(n) && n.sign == sign && UnsignedText(n) == u[..UnsignedLength(u)]
  {
    var w := DigitsLength(u);
    var tail := TakenTail(u[w..]);
    NoDigits(u);
    TakenDigits(u);
    n := tail.(sign := sign, whole := u[..w]);
    hide TailLength, GoodExponent, DigitsLength, FractionLength, TailText, AllDigits;
    SameTail(n, tail);
    Lists.HeadJoin(u, w, TailLength(u[w..]));
  }

  lemma TakenDigits(u: seq<byte>)
    ensures AllDigits(u[..DigitsLength(u)])
  {
  }

  lemma SameTail(n: Number, tail: Number)
    requires n.point == tail.point && n.decimals == tail.decimals && n.exponent == tail.exponent
    ensures TailText(n) == TailText(tail)
  {
  }

  lemma NoDigits(u: seq<byte>)
    requires UnsignedLength(u) > 0
    ensures DigitsLength(u) == 0 ==> u[0..] == u && FractionLength(u) > 1
  {
  }

  /** A number is made of number bytes. */
  lemma NumeralBytes(n: Number)
    requires Numeral(n)
    ensures forall b :: b in NumeralText(n) ==> NumberByte(b)
  {
    assert forall b :: b in n.sign ==> NumberByte(b);
    assert forall b :: b in n.whole || b in n.decimals ==> NumberByte(b);
    assert forall b :: b in ExponentText(n.exponent) ==> NumberByte(b);
    hide NumberByte, AllDigits, GoodExponent, ExponentText;
    assert NumberByte(0x2E) by { PointByte(); }
  }

  lemma PointByte()
    ensures NumberByte(0x2E)
  {
  }

  /**
   What parse_number reads is a number, and the longest one of up to 63 bytes that stands at the
   offset; when it fails there is none.
   */
  lemma NumberIsLongest(c: seq<byte>, o: nat)
    requires o <= |c|
    ensures var r := ParseNumber(c, o);
            r.Done? ==> IsNumeral(r.value) && |r.value| <= 63 && TextAt(c, o, r.value) && r.next == o + |r.value|
    ensures forall t :: IsNumeral(t) && |t| <= 63 && TextAt(c, o, t) ==> ParseNumber(c, o).Done? && |t| <= |ParseNumber(c, o).value|
  {
    hide StrtodLength, IsNumeral, RunFrom;
    var s := c[o..o + RunFrom(c, o, READ_LENGTH_MAX)];
    if StrtodLength(s) > 0 {
      StrtodIsNumeral(s);
      assert c[o..o + StrtodLength(s)] == s[..StrtodLength(s)];
    }
    hide TextAt;
    forall t | IsNumeral(t) && |t| <= 63 && TextAt(c, o, t) ensures ParseNumber(c, o).Done? && |t| <= |ParseNumber(c, o).value| {
      NumeralIsTaken(c, o, t);
    }
  }

  lemma NumeralIsTaken(c: seq<byte>, o: nat, t: seq<byte>)
    requires IsNumeral(t) && |t| <= 63 && TextAt(c, o, t)
    ensures ParseNumber(c, o).Done? && |t| <= |ParseNumber(c, o).value|
  {
    hide StrtodLength, NumberByte, RunFrom, Numeral, NumeralText;
    var n :| Numeral(n) && NumeralText(n) == t;
    NumeralBytes(n);
    RunCovers(c, o, t);
    var s := c[o..o + RunFrom(c, o, READ_LENGTH_MAX)];
    assert s == t + s[|t|..];
    StrtodTakes(n, s[|t|..]);
  }

  lemma RunCovers(c: seq<byte>, o: nat, t: seq<byte>)
    requires (forall b :: b in t ==> NumberByte(b)) && |t| <= 63 && TextAt(c, o, t)
    ensures |t| <= RunFrom(c, o, READ_LENGTH_MAX)
  {
    hide NumberByte, RunLength;
    forall k | 0 <= k < |t| ensures NumberByte(c[o..][k]) {
      TextIndex(c, o, t, k);
      assert t[k] in t;
    }
  }

  /** A number of up to 63 bytes is read whole when no byte of a number follows. */
  lemma ParseInvertsNumber(c: seq<byte>, o: nat, t: seq<byte>)
    requires IsNumeral(t) && |t| <= 63 && TextAt(c, o, t)
    requires o + |t| < |c| ==> c[o + |t|] !in {0x2B, 0x2D, 0x2E, 0x45, 0x65} && !(0x30 <= c[o + |t|] <= 0x39)
    ensures ParseNumber(c, o) == Done(t, o + |t|)
  {
    assert o <= |c|;
    hide ParseNumber, IsNumeral, TextAt;
    NumberIsLongest(c, o);
    var v := ParseNumber(c, o).value;
    EndsThere(c, o, t, v);
  }

  /** A number does not go on with a byte that no number has. */
  lemma EndsThere(c: seq<byte>, o: nat, t: seq<byte>, v: seq<byte>)
    requires TextAt(c, o, t) && TextAt(c, o, v) && IsNumeral(v) && |t| <= |v|
    requires o + |t| < |c| ==> c[o + |t|] !in {0x2B, 0x2D, 0x2E, 0x45, 0x65} && !(0x30 <= c[o + |t|] <= 0x39)
    ensures v == t
  {
    hide IsNumeral;
    if |t| < |v| {
      NumeralByteAt(c, o, v, |t|);
    }
  }

  lemma NumeralByteAt(c: seq<byte>, o: nat, v: seq<byte>, k: nat)
    requires IsNumeral(v) && TextAt(c, o, v) && k < |v|
    ensures NumberByte(c[o + k])
  {
    hide Numeral, NumeralText, NumberByte;
    var n :| Numeral(n) && NumeralText(n) == v;
    NumeralBytes(n);
    assert v[k] in v;
    TextIndex(c, o, v, k);
  }

  /** A run that ends before the end of the text does not depend on what follows. */
  lemma {:induction false} RunStable(s: seq<byte>, x: seq<byte>, cap: nat)
    requires s != [] && !NumberByte(s[|s| - 1])
    ensures RunLength(s + x, cap) == RunLength(s, cap)
  {
    assert (s + x)[0] == s[0];
    if cap > 0 && |s| > 1 {
      assert (s + x)[1..] == s[1..] + x;
      RunStable(s[1..], x, cap - 1);
    }
  }
}
