/**
 When the parser reads behind its buffer: exactly on texts that break off behind a comma
 between the members of an object (parse_object and parse_string of
 test-tools/host-tool/external/cJSON/cJSON.c).
 */
module JsonOverread {
  import opened Bytes
  import opened JsonDocument
  import opened JsonNumber
  import opened JsonText
  import opened JsonTree

  // ---------- what is read stays read when more text follows ----------

  /** The text ends with a byte that ends whatever is before it. */
  predicate Firm(c: seq<byte>) { c != [] && c[|c| - 1] in {COMMA, CLOSE_ARRAY, CLOSE_OBJECT} }

  lemma {:induction false} SkipStable(c: seq<byte>, d: seq<byte>, o: nat)
    requires Firm(c) && c <= d && o < |c|
    ensures SkipWs(d, o) == SkipWs(c, o)
    decreases |c| - o
  {
    if c[o] <= 32 {
      SkipStable(c, d, o + 1);
    }
  }

  /** A word, which has none of those bytes, does not reach over the end. */
  lemma WordStable(c: seq<byte>, d: seq<byte>, o: nat, w: seq<byte>)
    requires Firm(c) && c <= d && o < |c|
    requires COMMA !in w && CLOSE_ARRAY !in w && CLOSE_OBJECT !in w
    ensures TextAt(d, o, w) <==> TextAt(c, o, w)
  {
    if TextAt(c, o, w) {
      assert d[o..o + |w|] == c[o..o + |w|];
    }
    if TextAt(d, o, w) {
      forall k | 0 <= k < |w| ensures d[o + k] == w[k] && w[k] in w {
        TextIndex(d, o, w, k);
      }
      assert o + |w| <= |c|;
      assert d[o..o + |w|] == c[o..o + |w|];
    }
  }

  lemma {:induction false} ScanStable(c: seq<byte>, d: seq<byte>, i: nat)
    requires Firm(c) && c <= d && i <= |c|
    ensures ScanEnd(d, i) == if ScanEnd(c, i).Some? then ScanEnd(c, i) else ScanEnd(d, |c|)
    decreases |c| - i
  {
    if i < |c| && c[i] != QUOTE {
      ScanStable(c, d, if c[i] == BACKSLASH then i + 2 else i + 1);
    }
  }

  lemma {:induction false} DecodeStable(c: seq<byte>, d: seq<byte>, i: nat, end: nat)
    requires c <= d && end < |c|
    ensures Decode(d, i, end) == Decode(c, i, end)
    decreases end - i
  {
    hide Utf16Literal, ShortEscape, Prefix;
    if i < end {
      assert c[i..end] == d[i..end];
      if c[i] != BACKSLASH {
        DecodeStable(c, d, i + 1, end);
      } else if c[i + 1] == LETTER_U {
        var u := Utf16Literal(c[i..end]);
        if u.Some? { DecodeStable(c, d, i + u.value.1, end); }
      } else {
        DecodeStable(c, d, i + 2, end);
      }
    }
  }

  /** A string that is cut off can only go on to a quote behind the end. */
  lemma StringStable(c: seq<byte>, d: seq<byte>, o: nat)
    requires Firm(c) && c <= d && o < |c|
    ensures ParseString(c, o).Done? ==> ParseString(d, o) == ParseString(c, o)
    ensures ParseString(c, o).Failed? && ParseString(d, o).Done? ==> ScanEnd(d, |c|) == Some(ParseString(d, o).next - 1)
  {
    hide ScanEnd, Decode;
    if c[o] == QUOTE {
      ScanStable(c, d, o + 1);
      var end := ScanEnd(c, o + 1);
      if end.Some? {
        DecodeStable(c, d, o + 1, end.value);
      }
    }
  }

  lemma NumberStable(c: seq<byte>, d: seq<byte>, o: nat)
    requires Firm(c) && c <= d && o < |c|
    ensures ParseNumber(d, o) == ParseNumber(c, o)
  {
    hide StrtodLength, RunFrom;
    RunFromStable(c, d, o);
    var n := RunFrom(c, o, READ_LENGTH_MAX);
    SameSlice(c, d, o, n);
    SameSlice(c, d, o, StrtodLength(c[o..o + n]));
  }

  lemma RunFromStable(c: seq<byte>, d: seq<byte>, o: nat)
    requires Firm(c) && c <= d && o < |c|
    ensures RunFrom(d, o, READ_LENGTH_MAX) == RunFrom(c, o, READ_LENGTH_MAX)
  {
    TailSplits(c, d, o);
    hide RunLength;
    RunStable(c[o..], d[|c|..], READ_LENGTH_MAX);
  }

  lemma TailSplits(c: seq<byte>, d: seq<byte>, o: nat)
    requires c <= d && o < |c|
    ensures d[o..] == c[o..] + d[|c|..] && c[o..][|c[o..]| - 1] == c[|c| - 1]
  {
  }

  lemma SameSlice(c: seq<byte>, d: seq<byte>, o: nat, n: nat)
    requires c <= d && o + n <= |c|
    ensures d[o..o + n] == c[o..o + n]
  {
  }

  lemma NameStable(c: seq<byte>, d: seq<byte>, o: nat)
    requires Firm(c) && c <= d && o < |c| && ParseName(c, o).Done?
    ensures ParseName(d, o) == ParseName(c, o) && ParseName(c, o).next < |c|
  {
    hide ParseString;
    SkipStable(c, d, o);
    StringStable(c, d, SkipWs(c, o));
    var name := ParseString(c, SkipWs(c, o));
    SkipStable(c, d, name.next);
    SkipStable(c, d, SkipWs(c, name.next) + 1);
  }

  /** A word, or something wrong, is the same in both. */
  lemma WordOrWrong(c: seq<byte>, d: seq<byte>, o: nat, depth: nat)
    requires Firm(c) && c <= d && o < |c| && !Telling(c[o])
    ensures ParseValue(d, o, depth) == ParseValue(c, o, depth) && !ParseValue(c, o, depth).Overread?
  {
    WordStable(c, d, o, NULL_TEXT);
    WordStable(c, d, o, FALSE_TEXT);
    WordStable(c, d, o, TRUE_TEXT);
    hide TextAt;
  }

  /** What is read from a text is read from it whatever follows. */
  lemma {:induction false} ValueStable(c: seq<byte>, d: seq<byte>, o: nat, depth: nat)
    requires Firm(c) && c <= d && o < |c| && ParseValue(c, o, depth).Done?
    ensures ParseValue(d, o, depth) == ParseValue(c, o, depth)
    decreases |c| - o, 2
  {
    if Telling(c[o]) {
      ByFirst(c, o, depth);
      ByFirst(d, o, depth);
      hide ParseValue, ParseString, ParseNumber, ParseArray, ParseObject;
      if c[o] == QUOTE {
        StringStable(c, d, o);
      } else if c[o] == OPEN_ARRAY {
        ArrayStable(c, d, o, depth);
      } else if c[o] == OPEN_OBJECT {
        ObjectStable(c, d, o, depth);
      } else {
        NumberStable(c, d, o);
      }
    } else {
      WordOrWrong(c, d, o, depth);
    }
  }

  lemma {:induction false} ArrayStable(c: seq<byte>, d: seq<byte>, o: nat, depth: nat)
    requires Firm(c) && c <= d && Is(c, o, OPEN_ARRAY) && ParseArray(c, o, depth).Done?
    ensures ParseArray(d, o, depth) == ParseArray(c, o, depth)
    decreases |c| - o, 1
  {
    hide ParseItems, SkipWs;
    SkipStable(c, d, o + 1);
    var p := SkipWs(c, o + 1);
    if !Is(c, p, CLOSE_ARRAY) { ItemsStable(c, d, p, depth + 1); }
  }

  lemma {:induction false} ObjectStable(c: seq<byte>, d: seq<byte>, o: nat, depth: nat)
    requires Firm(c) && c <= d && Is(c, o, OPEN_OBJECT) && ParseObject(c, o, depth).Done?
    ensures ParseObject(d, o, depth) == ParseObject(c, o, depth)
    decreases |c| - o, 1
  {
    hide ParseMembers, SkipWs;
    SkipStable(c, d, o + 1);
    var p := SkipWs(c, o + 1);
    if !Is(c, p, CLOSE_OBJECT) { MembersStable(c, d, p, depth + 1); }
  }

  lemma {:induction false} ItemsStable(c: seq<byte>, d: seq<byte>, o: nat, depth: nat)
    requires Firm(c) && c <= d && o < |c| && ParseItems(c, o, depth).Done?
    ensures ParseItems(d, o, depth) == ParseItems(c, o, depth)
    decreases |c| - o, 3
  {
    hide ParseValue, SkipWs;
    SkipStable(c, d, o);
    ValueStable(c, d, SkipWs(c, o), depth);
    var q := ParseValue(c, SkipWs(c, o), depth).next;
    if q < |c| {
      SkipStable(c, d, q);
      if Is(c, SkipWs(c, q), COMMA) { ItemsStable(c, d, SkipWs(c, q) + 1, depth); }
    }
  }

  lemma {:induction false} MembersStable(c: seq<byte>, d: seq<byte>, o: nat, depth: nat)
    requires Firm(c) && c <= d && o < |c| && ParseMembers(c, o, depth).Done?
    ensures ParseMembers(d, o, depth) == ParseMembers(c, o, depth)
    decreases |c| - o, 3
  {
    hide ParseValue, ParseName, SkipWs;
    NameStable(c, d, o);
    var p := ParseName(c, o).next;
    ValueStable(c, d, p, depth);
    var q := ParseValue(c, p, depth).next;
    if q < |c| {
      SkipStable(c, d, q);
      if Is(c, SkipWs(c, q), COMMA) { MembersStable(c, d, SkipWs(c, q) + 1, depth); }
    }
  }

  // ---------- a text that breaks off behind a comma between members ----------

  /** A member that could follow. */
  const MEMBER: seq<byte> := [0x22, 0x22, 0x3A, 0x6E, 0x75, 0x6C, 0x6C]

  /** With a member and `z` behind it the text is one value and nothing else. */
  predicate Completes(c: seq<byte>, z: seq<byte>) {
    var r := Parse(c + MEMBER + z); r.Done? && r.next == |c + MEMBER + z|
  }

  predicate EndsWithComma(c: seq<byte>) { c != [] && c[|c| - 1] == 0x2C }

  /** Reading behind the buffer takes a comma at its end. */
  lemma {:induction false} ValueOverreads(c: seq<byte>, o: nat, depth: nat)
    requires ParseValue(c, o, depth).Overread?
    ensures EndsWithComma(c)
    decreases |c| - o, 2
  {
    hide TextAt, ParseString, ParseNumber, ParseItems, ParseMembers, SkipWs;
    if Is(c, o, OPEN_ARRAY) { ItemsOverread(c, SkipWs(c, o + 1), depth + 1); }
    if Is(c, o, OPEN_OBJECT) { MembersOverread(c, SkipWs(c, o + 1), depth + 1); }
  }

  lemma {:induction false} ItemsOverread(c: seq<byte>, o: nat, depth: nat)
    requires ParseItems(c, o, depth).Overread?
    ensures EndsWithComma(c)
    decreases |c| - o, 3
  {
    hide ParseValue, SkipWs;
    var v := ParseValue(c, SkipWs(c, o), depth);
    if v.Overread? {
      ValueOverreads(c, SkipWs(c, o), depth);
    } else {
      ItemsOverread(c, SkipWs(c, v.next) + 1, depth);
    }
  }

  lemma {:induction false} MembersOverread(c: seq<byte>, o: nat, depth: nat)
    requires ParseMembers(c, o, depth).Overread? && o < |c|
    ensures EndsWithComma(c)
    decreases |c| - o, 3
  {
    hide ParseValue, ParseName, SkipWs;
    var p := ParseName(c, o).next;
    var v := ParseValue(c, p, depth);
    if v.Overread? {
      ValueOverreads(c, p, depth);
    } else if SkipWs(c, v.next) + 1 < |c| {
      MembersOverread(c, SkipWs(c, v.next) + 1, depth);
    }
  }

  lemma Append(c: seq<byte>, m: seq<byte>, x: seq<byte>)
    ensures c <= c + m + x && c + m <= c + m + x && |c + m + x| == |c| + |m| + |x|
  {
  }

  lemma OneMore(c: seq<byte>, m: seq<byte>, z: seq<byte>, b: byte)
    ensures c + m + (z + [b]) == c + m + z + [b] && c + m + z <= c + m + z + [b]
  {
  }

  /** The member itself, in a place where members are read. */
  lemma MemberReads(c: seq<byte>, depth: nat)
    ensures var d := c + MEMBER + [CLOSE_OBJECT];
            ParseMembers(d, |c|, depth) == Done([Member([], Null)], |d|) && Firm(d)
  {
    var d := c + MEMBER + [CLOSE_OBJECT];
    var n := |c|;
    assert d[n..n + 2] == Quoted([]);
    assert d[n + 3..n + 7] == NULL_TEXT;
    ParseInvertsQuote(d, n, []);
    NoGap(d, n);
    NoGap(d, n + 2);
    NoGap(d, n + 3);
    NoGap(d, n + 7);
    assert d[n] == QUOTE && d[n + 2] == COLON && d[n + 3] == 0x6E && d[n + 7] == CLOSE_OBJECT;
    hide ParseString, SkipWs;
    assert ParseName(d, n) == Done([], n + 3);
    assert ParseValue(d, n + 3, depth) == Done(Null, n + 7);
    LastMember(d, n, depth, Member([], Null), n + 3, n + 7);
  }

  /** Where reading breaks off behind a comma between members, a member and closing brackets complete it. */
  lemma {:induction false} ValueCompletes(c: seq<byte>, o: nat, depth: nat) returns (z: seq<byte>)
    requires EndsWithComma(c) && ParseValue(c, o, depth).Overread?
    ensures var d := c + MEMBER + z;
            ParseValue(d, o, depth).Done? && ParseValue(d, o, depth).next == |d| && Firm(d)
    decreases |c| - o, 2
  {
    if Is(c, o, OPEN_ARRAY) {
      ByFirst(c, o, depth);
      z := ArrayCompletes(c, o, depth);
      Append(c, MEMBER, z);
      ByFirst(c + MEMBER + z, o, depth);
    } else if Is(c, o, OPEN_OBJECT) {
      ByFirst(c, o, depth);
      z := ObjectCompletes(c, o, depth);
      Append(c, MEMBER, z);
      ByFirst(c + MEMBER + z, o, depth);
    } else {
      assert false;
    }
  }

  lemma {:induction false} ArrayCompletes(c: seq<byte>, o: nat, depth: nat) returns (z: seq<byte>)
    requires EndsWithComma(c) && Is(c, o, OPEN_ARRAY) && ParseArray(c, o, depth).Overread?
    ensures var d := c + MEMBER + z;
            ParseArray(d, o, depth).Done? && ParseArray(d, o, depth).next == |d| && Firm(d)
    decreases |c| - o, 1
  {
    hide ParseItems, SkipWs;
    z := ItemsComplete(c, SkipWs(c, o + 1), depth + 1);
    Append(c, MEMBER, z);
    SkipStable(c, c + MEMBER + z, o + 1);
  }

  lemma {:induction false} ObjectCompletes(c: seq<byte>, o: nat, depth: nat) returns (z: seq<byte>)
    requires EndsWithComma(c) && Is(c, o, OPEN_OBJECT) && ParseObject(c, o, depth).Overread?
    ensures var d := c + MEMBER + z;
            ParseObject(d, o, depth).Done? && ParseObject(d, o, depth).next == |d| && Firm(d)
    decreases |c| - o, 1
  {
    hide ParseMembers, SkipWs;
    z := MembersComplete(c, SkipWs(c, o + 1), depth + 1);
    Append(c, MEMBER, z);
    SkipStable(c, c + MEMBER + z, o + 1);
  }

  lemma {:induction false} ItemsComplete(c: seq<byte>, o: nat, depth: nat) returns (z: seq<byte>)
    requires EndsWithComma(c) && o <= |c| && ParseItems(c, o, depth).Overread?
    ensures var d := c + MEMBER + z;
            ParseItems(d, o, depth).Done? && ParseItems(d, o, depth).next == |d| && Firm(d)
    decreases |c| - o, 3
  {
    hide ParseValue, SkipWs;
    AtEnd(c, depth);
    var p := SkipWs(c, o);
    var v := ParseValue(c, p, depth);
    if v.Overread? {
      var y := ValueCompletes(c, p, depth);
      z := y + [CLOSE_ARRAY];
      var d0, d := c + MEMBER + y, c + MEMBER + z;
      Append(c, MEMBER, z);
      OneMore(c, MEMBER, y, CLOSE_ARRAY);
      SkipStable(c, d, o);
      ValueStable(d0, d, p, depth);
      NoGap(d, |d0|);
    } else {
      z := ItemsComplete(c, SkipWs(c, v.next) + 1, depth);
      var d := c + MEMBER + z;
      Append(c, MEMBER, z);
      SkipStable(c, d, o);
      ValueStable(c, d, p, depth);
      SkipStable(c, d, v.next);
    }
  }

  lemma {:induction false} MembersComplete(c: seq<byte>, o: nat, depth: nat) returns (z: seq<byte>)
    requires EndsWithComma(c) && o <= |c| && ParseMembers(c, o, depth).Overread?
    ensures var d := c + MEMBER + z;
            ParseMembers(d, o, depth).Done? && ParseMembers(d, o, depth).next == |d| && Firm(d)
    decreases |c| - o, 3
  {
    hide ParseValue, ParseName, SkipWs;
    if o == |c| {
      z := [CLOSE_OBJECT];
      MemberReads(c, depth);
    } else {
      var p := ParseName(c, o).next;
      var v := ParseValue(c, p, depth);
      if v.Overread? {
        var y := ValueCompletes(c, p, depth);
        z := y + [CLOSE_OBJECT];
        var d0, d := c + MEMBER + y, c + MEMBER + z;
        Append(c, MEMBER, z);
        OneMore(c, MEMBER, y, CLOSE_OBJECT);
        NameStable(c, d, o);
        ValueStable(d0, d, p, depth);
        NoGap(d, |d0|);
      } else {
        z := MembersComplete(c, SkipWs(c, v.next) + 1, depth);
        var d := c + MEMBER + z;
        Append(c, MEMBER, z);
        NameStable(c, d, o);
        ValueStable(c, d, p, depth);
        SkipStable(c, d, v.next);
      }
    }
  }

  /** At the end of the buffer there is no value. */
  lemma AtEnd(c: seq<byte>, depth: nat)
    ensures ParseValue(c, |c|, depth) == Failed && SkipWs(c, |c|) == |c|
  {
  }

  // ---------- and nothing else reads behind the buffer ----------

  /** The text goes on with a member behind its last comma. */
  predicate Continued(c: seq<byte>, d: seq<byte>) { EndsWithComma(c) && c + MEMBER <= d }

  lemma Continuation(c: seq<byte>, d: seq<byte>)
    requires Continued(c, d)
    ensures var n := |c|; c <= d && n + 7 <= |d| && d[n] == QUOTE && d[n + 1] == QUOTE && d[n + 2] == COLON
    ensures forall q :: |c| <= q <= |c| + 2 ==> SkipWs(d, q) == q && !Is(d, q, COMMA) && !Is(d, q, CLOSE_ARRAY) && !Is(d, q, CLOSE_OBJECT)
    ensures ScanEnd(d, |c|) == Some(|c|)
  {
    var m := c + MEMBER;
    assert d[..|m|] == m;
    assert forall k :: 0 <= k < 3 ==> d[|c| + k] == m[|c| + k] == MEMBER[k];
  }

  /** A value that fails on the text can only be a string cut off, which the quote ends. */
  lemma {:induction false} ValueFails(c: seq<byte>, d: seq<byte>, o: nat, depth: nat)
    requires Continued(c, d) && o <= |c| && ParseValue(c, o, depth).Failed?
    ensures var r := ParseValue(d, o, depth); r.Done? ==> |c| < r.next <= |c| + 2
    decreases |c| - o, 2
  {
    Continuation(c, d);
    if o == |c| {
      ByFirst(d, o, depth);
      assert ParseString(d, o).Done? ==> ParseString(d, o).next == |c| + 2;
    } else if Telling(c[o]) {
      ByFirst(c, o, depth);
      ByFirst(d, o, depth);
      hide ParseValue, ParseString, ParseNumber, ParseArray, ParseObject;
      if c[o] == QUOTE {
        StringStable(c, d, o);
      } else if c[o] == OPEN_ARRAY {
        ArrayFails(c, d, o, depth);
      } else if c[o] == OPEN_OBJECT {
        ObjectFails(c, d, o, depth);
      } else {
        NumberStable(c, d, o);
      }
    } else {
      WordOrWrong(c, d, o, depth);
    }
  }

  lemma {:induction false} ArrayFails(c: seq<byte>, d: seq<byte>, o: nat, depth: nat)
    requires Continued(c, d) && Is(c, o, OPEN_ARRAY) && Is(d, o, OPEN_ARRAY) && ParseArray(c, o, depth).Failed?
    ensures !ParseArray(d, o, depth).Done?
    decreases |c| - o, 1
  {
    hide ParseItems, SkipWs;
    Continuation(c, d);
    SkipStable(c, d, o + 1);
    if depth < NESTING_LIMIT { ItemsFail(c, d, SkipWs(c, o + 1), depth + 1); }
  }

  lemma {:induction false} ObjectFails(c: seq<byte>, d: seq<byte>, o: nat, depth: nat)
    requires Continued(c, d) && Is(c, o, OPEN_OBJECT) && Is(d, o, OPEN_OBJECT) && ParseObject(c, o, depth).Failed?
    ensures !ParseObject(d, o, depth).Done?
    decreases |c| - o, 1
  {
    hide ParseMembers, SkipWs;
    Continuation(c, d);
    SkipStable(c, d, o + 1);
    if depth < NESTING_LIMIT { MembersFail(c, d, SkipWs(c, o + 1), depth + 1); }
  }

  lemma {:induction false} ItemsFail(c: seq<byte>, d: seq<byte>, o: nat, depth: nat)
    requires Continued(c, d) && o <= |c| && ParseItems(c, o, depth).Failed?
    ensures !ParseItems(d, o, depth).Done?
    decreases |c| - o, 3
  {
    hide ParseValue, SkipWs;
    Continuation(c, d);
    AtEnd(c, depth);
    if o < |c| { SkipStable(c, d, o); }
    var p := SkipWs(c, o);
    var v := ParseValue(c, p, depth);
    if v.Done? {
      ValueStable(c, d, p, depth);
      if v.next < |c| {
        SkipStable(c, d, v.next);
        if Is(c, SkipWs(c, v.next), COMMA) { ItemsFail(c, d, SkipWs(c, v.next) + 1, depth); }
      }
    } else {
      ValueFails(c, d, p, depth);
    }
  }

  lemma {:induction false} MembersFail(c: seq<byte>, d: seq<byte>, o: nat, depth: nat)
    requires Continued(c, d) && o < |c| && ParseMembers(c, o, depth).Failed?
    ensures !ParseMembers(d, o, depth).Done?
    decreases |c| - o, 3
  {
    hide ParseValue, SkipWs, ParseString;
    Continuation(c, d);
    if ParseName(c, o).Done? {
      NameStable(c, d, o);
      var p := ParseName(c, o).next;
      var v := ParseValue(c, p, depth);
      if v.Done? {
        ValueStable(c, d, p, depth);
        if v.next < |c| {
          SkipStable(c, d, v.next);
          if Is(c, SkipWs(c, v.next), COMMA) && SkipWs(c, v.next) + 1 < |c| { MembersFail(c, d, SkipWs(c, v.next) + 1, depth); }
        }
      } else {
        ValueFails(c, d, p, depth);
      }
    } else {
      NameFails(c, d, o);
    }
  }

  lemma NameFails(c: seq<byte>, d: seq<byte>, o: nat)
    requires Continued(c, d) && o < |c| && ParseName(c, o).Failed?
    ensures !ParseName(d, o).Done?
  {
    hide ParseString, SkipWs;
    Continuation(c, d);
    SkipStable(c, d, o);
    var p := SkipWs(c, o);
    StringStable(c, d, p);
    if ParseString(c, p).Done? && ParseString(c, p).next < |c| {
      SkipStable(c, d, ParseString(c, p).next);
    }
  }

  /** Reading a continued text begins where reading the text does, or fails in both. */
  lemma StartStable(c: seq<byte>, d: seq<byte>)
    requires Continued(c, d)
    ensures Start(c) < |c|
    ensures Start(d) == Start(c) || (ParseValue(c, Start(c), 0) == Failed && ParseValue(d, Start(d), 0) == Failed)
  {
    Continuation(c, d);
    SkipStable(c, d, 0);
    if |c| > 4 {
      assert d[..3] == c[..3];
      SkipStable(c, d, 3);
    } else if d[..3] == [0xEF, 0xBB, 0xBF] {
      assert d[0] == d[..3][0] && d[1] == d[..3][1] && d[2] == d[..3][2] && c[|c| - 1] == d[|c| - 1];
      NoGap(c, 0);
      NoGap(d, 3);
      WordOrWrong(c, d, 0, 0);
      assert d[3] == COMMA;
    }
  }

  /**
   The parser reads behind the buffer if and only if the text ends with a comma and is what
   comes before a member: with one behind it, and then more, it would be a single value.
   */
  lemma OverreadsAtComma(c: seq<byte>)
    ensures Parse(c).Overread? <==> EndsWithComma(c) && exists z :: Completes(c, z)
  {
    hide ParseValue, Start;
    if Parse(c).Overread? {
      ValueOverreads(c, Start(c), 0);
      var z := ValueCompletes(c, Start(c), 0);
      Append(c, MEMBER, z);
      StartStable(c, c + MEMBER + z);
      assert Completes(c, z);
    }
    if EndsWithComma(c) && exists z :: Completes(c, z) {
      var z :| Completes(c, z);
      Append(c, MEMBER, z);
      NotOtherwise(c, z);
    }
  }

  lemma NotOtherwise(c: seq<byte>, z: seq<byte>)
    requires EndsWithComma(c) && Completes(c, z)
    ensures Parse(c).Overread?
  {
    hide ParseValue, Start;
    var d := c + MEMBER + z;
    Append(c, MEMBER, z);
    StartStable(c, d);
    if Parse(c).Done? {
      ValueStable(c, d, Start(c), 0);
    } else if Parse(c).Failed? {
      ValueFails(c, d, Start(c), 0);
    }
  }

  /** {"a":null, is such a text; with its terminator it is not. */
  lemma OverreadExample()
    ensures var c := [0x7B, 0x22, 0x61, 0x22, 0x3A, 0x6E, 0x75, 0x6C, 0x6C, 0x2C];
            Parse(c).Overread? && !Parse(c + [0]).Overread?
  {
    var c := [0x7B, 0x22, 0x61, 0x22, 0x3A, 0x6E, 0x75, 0x6C, 0x6C, 0x2C];
    ExampleBytes(c);
    hide *;
    ByFirst(c, 0, 0);
    OverreadsAtComma(c + [0]);
    NoCommaAtEnd(c);
    ObjectOverreads(c);
  }

  lemma NoCommaAtEnd(c: seq<byte>)
    ensures !EndsWithComma(c + [0])
  {
  }

  /** What the reader finds in it. */
  lemma ExampleBytes(c: seq<byte>)
    requires c == [0x7B, 0x22, 0x61, 0x22, 0x3A, 0x6E, 0x75, 0x6C, 0x6C, 0x2C]
    ensures Start(c) == 0 && Telling(c[0]) && Parse(c) == ParseValue(c, 0, 0)
    ensures SkipWs(c, 1) == 1 && ParseName(c, 1) == Done([0x61], 5) && ParseValue(c, 5, 1) == Done(Null, 9)
    ensures SkipWs(c, 9) == 9 && |c| == 10
  {
    NoGap(c, 0);
    NoGap(c, 1);
    NoGap(c, 4);
    NoGap(c, 5);
    NoGap(c, 9);
    ExampleName(c);
    assert c[5..9] == NULL_TEXT;
    hide ParseString, SkipWs;
  }

  lemma ExampleName(c: seq<byte>)
    requires |c| == 10 && c[1..4] == [0x22, 0x61, 0x22]
    ensures ParseString(c, 1) == Done([0x61], 4)
  {
    assert Quoted([0x61]) == [0x22, 0x61, 0x22];
    ParseInvertsQuote(c, 1, [0x61]);
  }

  lemma ObjectOverreads(c: seq<byte>)
    requires c == [0x7B, 0x22, 0x61, 0x22, 0x3A, 0x6E, 0x75, 0x6C, 0x6C, 0x2C] && SkipWs(c, 1) == 1
    requires ParseName(c, 1) == Done([0x61], 5) && ParseValue(c, 5, 1) == Done(Null, 9) && SkipWs(c, 9) == 9
    requires ParseValue(c, 0, 0) == AsObj(ParseObject(c, 0, 0))
    ensures ParseValue(c, 0, 0).Overread?
  {
    hide SkipWs, ParseValue, ParseString;
    assert ParseMembers(c, 10, 1).Overread?;
  }
}
