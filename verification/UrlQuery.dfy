/**
 URL prefix matching and query-string lookup
 (check_url_start and find_key_value of app-framework/app-native-shared/restful_utils.c).
 */
module UrlQuery {
  import opened Bytes
  import Memory

  const SPACE: byte := 0x20
  const SLASH: byte := 0x2F
  const EQUALS: byte := 0x3D
  const QUESTION: byte := 0x3F

  // ---------- check_url_start ----------

  function DropLeadingSlash(s: seq<byte>): seq<byte> {
    if s != [] && s[0] == SLASH then s[1..] else s
  }

  function DropTrailingSlash(s: seq<byte>): seq<byte> {
    if s != [] && s[|s| - 1] == SLASH then s[..|s| - 1] else s
  }

  /** The path a leading string stands for, without the slash at either end. */
  function Path(leading: seq<byte>): seq<byte> {
    DropTrailingSlash(DropLeadingSlash(leading))
  }

  /** `url` starts with `leading` on a segment boundary; the result is where the rest of the URL starts, or 0. */
  function CheckUrlStart(url: seq<byte>, leading: seq<byte>): (r: nat)
    ensures r <= |url|
  {
    var u := DropLeadingSlash(url);
    var offset := |url| - |u|;
    var path := Path(leading);
    var len := |path|;
    if len == 0 then 0
    else if |u| == len then if u == path then offset + len else 0
    else if |u| < len then 0
    else if u[..len] != path then 0
    else if u[len] != SLASH && u[len] != QUESTION then 0
    else offset + len + 1
  }

  /** The URL, without its leading slash, is the path itself, or the path, a boundary byte and the rest. */
  predicate StartsWith(url: seq<byte>, path: seq<byte>, rest: seq<byte>) {
    var u := DropLeadingSlash(url);
    path != [] &&
    ((u == path && rest == []) || u == path + [0x2F] + rest || u == path + [0x3F] + rest)
  }

  /** A positive result points at the one rest that splits the URL at a segment boundary; 0 means there is none. */
  lemma CheckUrlStartSplits(url: seq<byte>, leading: seq<byte>)
    ensures var r := CheckUrlStart(url, leading);
            (r > 0 ==> StartsWith(url, Path(leading), url[r..])) &&
            (forall rest :: StartsWith(url, Path(leading), rest) ==> r > 0 && rest == url[r..])
  {
    var u := DropLeadingSlash(url);
    var path := Path(leading);
    var r := CheckUrlStart(url, leading);
    if r > 0 && |u| > |path| {
      assert u == path + [u[|path|]] + url[r..];
    }
    forall rest | StartsWith(url, path, rest) ensures r > 0 && rest == url[r..] {
      assert u[..|path|] == path;
    }
  }

  /** Where the rest of a URL starts that is the path, or goes on behind it with a slash or a question mark; or 0. */
  function RestAt(u: seq<byte>, path: seq<byte>): nat {
    if u == path then |path| else if path + [0x2F] <= u || path + [0x3F] <= u then |path| + 1 else 0
  }

  /** One slash in front of the URL and one at either end of the leading string make no difference, but that it counts. */
  lemma CheckUrlStartMatches(u: seq<byte>, path: seq<byte>)
    requires path != []
    ensures var n := RestAt(u, path);
            var behindSlash := if n == 0 then 0 else 1 + n;
            && CheckUrlStart([0x2F] + u, [0x2F] + path + [0x2F]) == behindSlash
            && (u == [] || u[0] != 0x2F ==> CheckUrlStart(u, [0x2F] + path + [0x2F]) == n)
            && (path[0] != 0x2F ==> CheckUrlStart([0x2F] + u, path + [0x2F]) == behindSlash)
            && (path[|path| - 1] != 0x2F ==> CheckUrlStart([0x2F] + u, [0x2F] + path) == behindSlash)
  {
    OneSlashOff(u, path);
    assert |[0x2F] + u| == 1 + |u|;
    RestIsThere(u, path);
    hide DropLeadingSlash, DropTrailingSlash, Path, RestAt;
  }

  lemma RestIsThere(u: seq<byte>, path: seq<byte>)
    requires path != []
    ensures RestAt(u, path) ==
            if u == path then |path|
            else if |u| <= |path| || u[..|path|] != path || (u[|path|] != 0x2F && u[|path|] != 0x3F) then 0
            else |path| + 1
  {
    if |path| < |u| {
      assert u[..|path| + 1] == u[..|path|] + [u[|path|]];
    }
  }

  lemma OneSlashOff(u: seq<byte>, path: seq<byte>)
    requires path != []
    ensures DropLeadingSlash([0x2F] + u) == u && (u == [] || u[0] != 0x2F ==> DropLeadingSlash(u) == u)
    ensures Path([0x2F] + path + [0x2F]) == path
    ensures path[0] != 0x2F ==> Path(path + [0x2F]) == path
    ensures path[|path| - 1] != 0x2F ==> Path([0x2F] + path) == path
  {
    assert ([0x2F] + path + [0x2F])[1..] == path + [0x2F];
    assert ([0x2F] + path)[1..] == path;
  }

  /** A path without slashes at its ends may be given with or without them; no URL starts with the empty path. */
  lemma CheckUrlStartIgnoresSlashes(url: seq<byte>, path: seq<byte>)
    requires path != [] && path[0] != 0x2F && path[|path| - 1] != 0x2F
    ensures CheckUrlStart(url, [0x2F] + path + [0x2F]) == CheckUrlStart(url, path + [0x2F]) == CheckUrlStart(url, path)
    ensures CheckUrlStart(url, []) == CheckUrlStart(url, [0x2F]) == CheckUrlStart(url, [0x2F, 0x2F]) == 0
  {
    OneSlashOff([], path);
    hide DropLeadingSlash;
  }

  // ---------- find_key_value ----------

  function SkipSeparators(b: seq<byte>, delimiter: byte): (r: seq<byte>)
    ensures |r| <= |b| && r == b[|b| - |r|..]
    ensures r == [] || (r[0] != SPACE && r[0] != delimiter)
  {
    if b != [] && (b[0] == SPACE || b[0] == delimiter) then SkipSeparators(b[1..], delimiter) else b
  }

  /** The bytes before the first delimiter. */
  function Field(b: seq<byte>, delimiter: byte): (f: seq<byte>)
    ensures f <= b && delimiter !in f
    ensures |f| < |b| ==> b[|f|] == delimiter
  {
    if b == [] || b[0] == delimiter then [] else [b[0]] + Field(b[1..], delimiter)
  }

  function Min(a: nat, b: nat): nat { if a < b then a else b }

  /** What the lookup loop finds in the rest `b` of the buffer, at most `room` bytes of it. */
  function Lookup(b: seq<byte>, key: seq<byte>, room: nat, delimiter: byte): Option<seq<byte>>
    decreases |b|
  {
    if b == [] || b[0] == 0 then None
    else
      var p := SkipSeparators(b, delimiter);
      if |p| <= |key| then None
      else if p[..|key|] == key && p[|key|] == EQUALS then
        var v := Field(p[|key| + 1..], delimiter);
        Some(v[..Min(|v|, room)])
      else
        var next := p[|Field(p, delimiter)|..];
        assert Field(p, delimiter) != [];
        Lookup(next, key, room, delimiter)
  }

  lemma SkipStep(b: seq<byte>, delimiter: byte)
    requires b != []
    ensures SkipSeparators(b, delimiter) ==
            if b[0] == SPACE || b[0] == delimiter then SkipSeparators(b[1..], delimiter) else b
  {
  }

  /** One round of the lookup loop at a field that starts at `p`. */
  lemma LookupStep(b: seq<byte>, p: seq<byte>, key: seq<byte>, room: nat, delimiter: byte)
    requires b != [] && b[0] != 0 && p == SkipSeparators(b, delimiter)
    ensures |p| <= |key| ==> Lookup(b, key, room, delimiter) == None
    ensures |p| > |key| && p[..|key|] == key && p[|key|] == EQUALS ==>
      var v := Field(p[|key| + 1..], delimiter); Lookup(b, key, room, delimiter) == Some(v[..Min(|v|, room)])
    ensures |p| > |key| && !(p[..|key|] == key && p[|key|] == EQUALS) ==>
      Lookup(b, key, room, delimiter) == Lookup(p[|Field(p, delimiter)|..], key, room, delimiter)
  {
  }

  lemma FieldStep(b: seq<byte>, delimiter: byte, n: nat)
    requires n <= |b| && delimiter !in b[..n]
    ensures n <= |Field(b, delimiter)| && Field(b[n..], delimiter) == Field(b, delimiter)[n..]
  {
    if n > 0 {
      var f := Field(b[1..], delimiter);
      assert b[0] in b[..n] && Field(b, delimiter) == [b[0]] + f;
      hide Field;
      assert b[1..][..n - 1] == b[..n][1..];
      FieldStep(b[1..], delimiter, n - 1);
      assert b[1..][n - 1..] == b[n..] && ([b[0]] + f)[n..] == f[n - 1..];
    }
  }

  /** A C string in a block: `text` and then its terminator. */
  predicate Terminated(buffer: seq<byte>, text: seq<byte>) {
    |buffer| == |text| + 1 && buffer[..|text|] == text && buffer[|text|] == 0
  }

  /** The first inner loop of find_key_value: past spaces and delimiters. The terminator stops it. */
  method SkipLoop(buffer: seq<byte>, ghost text: seq<byte>, start: nat, delimiter: byte) returns (p: nat)
    requires Terminated(buffer, text) && start <= |text| && delimiter != 0
    ensures start <= p <= |text| && text[p..] == SkipSeparators(text[start..], delimiter)
  {
    hide SkipSeparators, Terminated;
    p := start;
    TextAt(buffer, text, p);
    while buffer[p] == SPACE || buffer[p] == delimiter
      invariant start <= p <= |text| && p < |buffer| && buffer[p] == if p < |text| then text[p] else 0
      invariant SkipSeparators(text[p..], delimiter) == SkipSeparators(text[start..], delimiter)
      decreases |text| - p
    {
      SkipAt(text, p, delimiter);
      p := p + 1;
      TextAt(buffer, text, p);
    }
    if p < |text| { SkipAt(text, p, delimiter); }
  }

  lemma TextAt(buffer: seq<byte>, text: seq<byte>, p: nat)
    requires Terminated(buffer, text) && p <= |text|
    ensures |buffer| == |text| + 1 && buffer[p] == if p < |text| then text[p] else 0
  {
  }

  lemma SkipAt(text: seq<byte>, p: nat, delimiter: byte)
    requires p < |text|
    ensures SkipSeparators(text[p..], delimiter) ==
            if text[p] == SPACE || text[p] == delimiter then SkipSeparators(text[p + 1..], delimiter) else text[p..]
  {
    assert text[p..][1..] == text[p + 1..];
  }

  /** The last inner loop of find_key_value: up to the next delimiter. */
  method NextFieldLoop(buffer: seq<byte>, ghost text: seq<byte>, start: nat, delimiter: byte) returns (p: nat)
    requires Terminated(buffer, text) && start <= |text|
    ensures start <= p <= |text| && text[p..] == text[start..][|Field(text[start..], delimiter)|..]
  {
    hide Field;
    p := start;
    ghost var here := text[start..];
    while buffer[p] != delimiter && p < |buffer| - 1
      invariant start <= p <= |text|
      invariant delimiter !in here[..p - start]
      decreases |text| - p
    {
      assert here[..p + 1 - start] == here[..p - start] + [text[p]];
      p := p + 1;
    }
    CopiedPart(here, delimiter, p - start, |here|);
  }

  /** The string `s` and NULs up to the end of the block. */
  ghost predicate Copied(block: seq<byte>, s: seq<byte>) {
    |s| < |block| && block == s + Memory.Zeros(|block| - |s|)
  }

  lemma HeadAt(buffer: seq<byte>, text: seq<byte>, q: nat, key: seq<byte>)
    requires Terminated(buffer, text) && q + |key| < |text|
    ensures q + |key| < |buffer| && (Fits(text, q, key) <==> buffer[q..q + |key|] == key && buffer[q + |key|] == EQUALS)
  {
    var n := |key|;
    assert text[q..][..n] == text[q..q + n] == buffer[..|text|][q..q + n];
  }

  /**
   find_key_value. `buffer` holds a C string with its terminator; `value` is the output
   block, which keeps a NUL after the copied bytes.
   */
  method FindKeyValue(buffer: seq<byte>, ghost text: seq<byte>, key: seq<byte>, value: array<byte>, delimiter: byte)
    returns (found: bool)
    requires Terminated(buffer, text) && NulFree(key) && value.Length > 0 && delimiter != 0
    modifies value
    ensures var r := Lookup(text, key, value.Length - 1, delimiter);
            found == r.Some? && if found then Copied(value[..], r.value) else value[..] == old(value[..])
  {
    hide Lookup, SkipSeparators, Field, Copied, Terminated, NulFree, SameSearch, Fits;
    var room, p := value.Length - 1, 0;
    TextAt(buffer, text, 0);
    TextAt(buffer, text, |text|);
    SearchBegins(text, key, room, delimiter);
    while buffer[p] != 0 && p < |buffer| - 1
      invariant p <= |text| && |buffer| == |text| + 1 && buffer[p] == (if p < |text| then text[p] else 0)
      invariant value[..] == old(value[..]) && SameSearch(text, p, key, room, delimiter)
      decreases |text| - p
    {
      var q := SkipLoop(buffer, text, p, delimiter);
      SearchStep(text, p, q, key, room, delimiter);
      if |buffer| - 1 - q <= |key| {
        return false;
      }
      HeadAt(buffer, text, q, key);
      if buffer[q..q + |key|] == key && buffer[q + |key|] == EQUALS {
        found := CopyValue(buffer, text, q + |key| + 1, value, delimiter);
        return;
      }
      var next := NextFieldLoop(buffer, text, q, delimiter);
      SearchGoesOn(text, p, q, next, key, room, delimiter);
      p := next;
      TextAt(buffer, text, p);
    }
    SearchEnds(text, p, key, room, delimiter);
    found := false;
  }

  /** The search from `p` on finds what the whole search finds. */
  predicate SameSearch(text: seq<byte>, p: nat, key: seq<byte>, room: nat, delimiter: byte) {
    p <= |text| && Lookup(text[p..], key, room, delimiter) == Lookup(text, key, room, delimiter)
  }

  /** The key and an equals sign stand at `q`. */
  predicate Fits(text: seq<byte>, q: nat, key: seq<byte>) {
    q + |key| < |text| && text[q..][..|key|] == key && text[q..][|key|] == EQUALS
  }

  lemma SearchBegins(text: seq<byte>, key: seq<byte>, room: nat, delimiter: byte)
    ensures SameSearch(text, 0, key, room, delimiter)
  {
    assert text[0..] == text;
  }

  /** One round of the search from `p`, with the next field at `q`. */
  lemma SearchStep(text: seq<byte>, p: nat, q: nat, key: seq<byte>, room: nat, delimiter: byte)
    requires SameSearch(text, p, key, room, delimiter) && p < |text| && text[p] != 0
    requires q <= |text| && text[q..] == SkipSeparators(text[p..], delimiter)
    ensures |text| - q <= |key| ==> Lookup(text, key, room, delimiter) == None
    ensures Fits(text, q, key) ==>
      var v := Field(text[q + |key| + 1..], delimiter); Lookup(text, key, room, delimiter) == Some(v[..Min(|v|, room)])
  {
    LookupStep(text[p..], text[q..], key, room, delimiter);
    hide Lookup, SkipSeparators, Field;
    if Fits(text, q, key) {
      assert text[q..][|key| + 1..] == text[q + |key| + 1..];
    }
  }

  lemma SearchGoesOn(text: seq<byte>, p: nat, q: nat, next: nat, key: seq<byte>, room: nat, delimiter: byte)
    requires SameSearch(text, p, key, room, delimiter) && p < |text| && text[p] != 0
    requires q + |key| < |text| && text[q..] == SkipSeparators(text[p..], delimiter) && !Fits(text, q, key)
    requires next <= |text| && text[next..] == text[q..][|Field(text[q..], delimiter)|..]
    ensures SameSearch(text, next, key, room, delimiter) && p < next
  {
    LookupStep(text[p..], text[q..], key, room, delimiter);
    assert Field(text[q..], delimiter) != [];
    hide Lookup, SkipSeparators, Field;
    assert |text[next..]| < |text[p..]|;
  }

  lemma SearchEnds(text: seq<byte>, p: nat, key: seq<byte>, room: nat, delimiter: byte)
    requires SameSearch(text, p, key, room, delimiter) && (p < |text| ==> text[p] == 0)
    ensures Lookup(text, key, room, delimiter) == None
  {
  }

  /** The copy loop of find_key_value, for a value that starts at `at`. */
  method CopyValue(buffer: seq<byte>, ghost text: seq<byte>, at: nat, value: array<byte>, delimiter: byte)
    returns (found: bool)
    requires Terminated(buffer, text) && at <= |text| && value.Length > 0
    modifies value
    ensures found
    ensures var v := Field(text[at..], delimiter); Copied(value[..], v[..Min(|v|, value.Length - 1)])
  {
    hide Field;
    ghost var rest := text[at..];
    Memory.ZeroFill(value, 0, value.Length);
    var v: nat, room: nat := 0, value.Length - 1;
    while buffer[at + v] != delimiter && at + v < |buffer| - 1 && room > 0
      invariant at + v <= |text| && v + room == value.Length - 1
      invariant delimiter !in rest[..v]
      invariant Copied(value[..], rest[..v])
      decreases room
    {
      assert rest[..v + 1] == rest[..v] + [buffer[at + v]];
      CopiedOne(value[..], rest[..v], buffer[at + v]);
      value[v] := buffer[at + v];
      v, room := v + 1, room - 1;
    }
    hide Copied;
    CopiedPart(rest, delimiter, v, value.Length - 1);
    found := true;
  }

  lemma CopiedOne(block: seq<byte>, s: seq<byte>, b: byte)
    requires Copied(block, s) && |s| + 1 < |block|
    ensures Copied(block[|s| := b], s + [b])
  {
  }

  lemma CopiedPart(rest: seq<byte>, delimiter: byte, v: nat, room: nat)
    requires v <= |rest| && v <= room && delimiter !in rest[..v]
    requires v == room || v == |rest| || rest[v] == delimiter
    ensures var f := Field(rest, delimiter); v == Min(|f|, room) && f[..v] == rest[..v]
  {
    FieldStep(rest, delimiter, v);
  }

  // ---------- what the lookup means on a well-formed query ----------

  datatype Pair = Pair(key: seq<byte>, value: seq<byte>)

  /** A pair as the query format admits it. */
  predicate Admissible(p: Pair, delimiter: byte) {
    && 0x3D !in p.key && delimiter !in p.key && 0x20 !in p.key && NulFree(p.key)
    && delimiter !in p.value
  }

  function Query(pairs: seq<Pair>, delimiter: byte): seq<byte> {
    if pairs == [] then []
    else
      var field := pairs[0].key + [0x3D] + pairs[0].value;
      if |pairs| == 1 then field else field + [delimiter] + Query(pairs[1..], delimiter)
  }

  function FirstValue(pairs: seq<Pair>, key: seq<byte>): Option<seq<byte>> {
    if pairs == [] then None
    else if pairs[0].key == key then Some(pairs[0].value)
    else FirstValue(pairs[1..], key)
  }

  function Truncate(v: Option<seq<byte>>, room: nat): Option<seq<byte>> {
    if v.None? then None else Some(v.value[..Min(|v.value|, room)])
  }

  lemma FieldOf(f: seq<byte>, rest: seq<byte>, delimiter: byte)
    requires delimiter !in f && (rest == [] || rest[0] == delimiter)
    ensures Field(f + rest, delimiter) == f
  {
    if f == [] {
      assert f + rest == rest;
    } else {
      assert (f + rest)[1..] == f[1..] + rest;
      FieldOf(f[1..], rest, delimiter);
    }
  }

  lemma SkipOf(rest: seq<byte>, delimiter: byte)
    requires rest != [] && rest[0] == delimiter && rest[1..] != [] && rest[1] != 0x20 && rest[1] != delimiter
    ensures SkipSeparators(rest, delimiter) == rest[1..]
  {
    assert SkipSeparators(rest[1..], delimiter) == rest[1..];
  }

  /** A separator in front changes nothing. */
  lemma SeparatorsAreSkipped(x: byte, b: seq<byte>, key: seq<byte>, room: nat, delimiter: byte)
    requires (x == 0x20 || x == delimiter) && delimiter != 0 && (b == [] || b[0] != 0)
    ensures Lookup([x] + b, key, room, delimiter) == Lookup(b, key, room, delimiter)
  {
    var c := [x] + b;
    assert c[1..] == b;
    SkipStep(c, delimiter);
    hide SkipSeparators, Field;
    LookupAgain(c, b, key, room, delimiter);
  }

  lemma LookupAgain(c: seq<byte>, b: seq<byte>, key: seq<byte>, room: nat, delimiter: byte)
    requires c != [] && c[0] != 0 && (b == [] || b[0] != 0) && SkipSeparators(c, delimiter) == SkipSeparators(b, delimiter)
    ensures Lookup(c, key, room, delimiter) == Lookup(b, key, room, delimiter)
  {
    hide Field;
    if b == [] {
      assert SkipSeparators(b, delimiter) == [];
    }
  }

  /**
   One field and what follows it: when the field begins with the key and an equals sign its value
   is what follows, cut to the room, and else the search goes on behind it.
   */
  lemma LookupField(f: seq<byte>, rest: seq<byte>, key: seq<byte>, room: nat, delimiter: byte)
    requires f != [] && f[0] !in {0, 0x20, delimiter} && delimiter !in f && (rest == [] || rest[0] == delimiter)
    requires StaysInField(f, key, delimiter)
    ensures Lookup(f + rest, key, room, delimiter) ==
            if key + [0x3D] <= f then Some(f[|key| + 1..][..Min(|f| - |key| - 1, room)]) else Lookup(rest, key, room, delimiter)
  {
    FieldBegins(f, rest, key, delimiter);
    Unseparated(f, rest, delimiter);
    hide *;
    if key + [0x3D] <= f {
      KeyIsHere(f, rest, key, room, delimiter);
    } else {
      KeyIsElsewhere(f, rest, key, room, delimiter);
    }
  }

  /** A key with its equals sign cannot match across the end of the field. */
  predicate StaysInField(f: seq<byte>, key: seq<byte>, delimiter: byte) {
    delimiter != 0x3D && (delimiter !in key || (0x3D in f && 0x3D !in key))
  }

  lemma Unseparated(f: seq<byte>, rest: seq<byte>, delimiter: byte)
    requires f != [] && f[0] !in {0, 0x20, delimiter}
    ensures var b := f + rest; b != [] && b[0] != 0 && SkipSeparators(b, delimiter) == b
  {
  }

  lemma KeyIsHere(f: seq<byte>, rest: seq<byte>, key: seq<byte>, room: nat, delimiter: byte)
    requires f + rest != [] && (f + rest)[0] != 0 && SkipSeparators(f + rest, delimiter) == f + rest
    requires delimiter !in f && (rest == [] || rest[0] == delimiter) && key + [0x3D] <= f
    ensures Lookup(f + rest, key, room, delimiter) == Some(f[|key| + 1..][..Min(|f| - |key| - 1, room)])
  {
    hide Lookup, Field, SkipSeparators;
    var b, v := f + rest, f[|key| + 1..];
    LookupStep(b, b, key, room, delimiter);
    BehindKey(f, rest, key);
    assert delimiter !in v;
    FieldOf(v, rest, delimiter);
  }

  lemma BehindKey(f: seq<byte>, rest: seq<byte>, key: seq<byte>)
    requires key + [0x3D] <= f
    ensures var b := f + rest; |b| > |key| && b[..|key|] == key && b[|key|] == 0x3D && b[|key| + 1..] == f[|key| + 1..] + rest
  {
    assert f[..|key| + 1] == key + [0x3D];
  }

  lemma KeyIsElsewhere(f: seq<byte>, rest: seq<byte>, key: seq<byte>, room: nat, delimiter: byte)
    requires f + rest != [] && (f + rest)[0] != 0 && SkipSeparators(f + rest, delimiter) == f + rest
    requires delimiter !in f && (rest == [] || rest[0] == delimiter)
    requires var b := f + rest; !(|b| > |key| && b[..|key|] == key && b[|key|] == 0x3D)
    ensures Lookup(f + rest, key, room, delimiter) == Lookup(rest, key, room, delimiter)
  {
    hide Lookup, Field, SkipSeparators;
    var b := f + rest;
    LookupStep(b, b, key, room, delimiter);
    FieldOf(f, rest, delimiter);
    assert b[|f|..] == rest;
    if |b| <= |key| {
      LookupShort(rest, key, room, delimiter);
    }
  }

  lemma FieldBegins(f: seq<byte>, rest: seq<byte>, key: seq<byte>, delimiter: byte)
    requires StaysInField(f, key, delimiter) && (rest == [] || rest[0] == delimiter)
    ensures var b := f + rest; |b| > |key| && b[..|key|] == key && b[|key|] == 0x3D <==> key + [0x3D] <= f
  {
    var b := f + rest;
    if key + [0x3D] <= f {
      BehindKey(f, rest, key);
    } else if |b| > |key| && b[..|key|] == key && b[|key|] == 0x3D {
      ReachesBehind(f, rest, key);
    }
  }

  /** What a match across the end of the field would mean. */
  lemma ReachesBehind(f: seq<byte>, rest: seq<byte>, key: seq<byte>)
    requires var b := f + rest; |b| > |key| && b[..|key|] == key && b[|key|] == 0x3D && !(key + [0x3D] <= f)
    ensures rest != [] && f <= key && if |f| == |key| then rest[0] == 0x3D else key[|f|] == rest[0]
    ensures 0x3D in f ==> 0x3D in key
  {
    var b := f + rest;
    if |f| <= |key| {
      assert b[..|key|][..|f|] == f;
      assert |f| < |key| ==> b[..|key|][|f|] == rest[0];
    }
  }

  lemma PairStart(p: Pair, key: seq<byte>, delimiter: byte)
    requires Admissible(p, delimiter) && delimiter !in {0, 0x3D, 0x20} && 0x3D !in key
    ensures var f := p.key + [0x3D] + p.value;
            && 0x3D in f && f[0] !in {0, 0x20, delimiter} && delimiter !in f && (key + [0x3D] <= f <==> p.key == key)
            && f[|p.key| + 1..] == p.value
  {
    var f := p.key + [0x3D] + p.value;
    assert f[0] == (if p.key == [] then 0x3D else p.key[0]) && f[|p.key|] == 0x3D;
    if key + [0x3D] <= f {
      assert f[|key|] == 0x3D && f[|p.key|] == 0x3D && f[..|key|] == key && f[..|p.key|] == p.key;
    }
  }

  /** One pair and what follows it: either the key matches here, or the search goes on behind the pair. */
  lemma LookupPair(b: seq<byte>, p: Pair, rest: seq<byte>, key: seq<byte>, room: nat, delimiter: byte)
    requires Admissible(p, delimiter) && 0x3D !in key && delimiter !in {0, 0x3D, 0x20}
    requires rest == [] || rest[0] == delimiter
    requires b == p.key + [0x3D] + p.value + rest
    ensures Lookup(b, key, room, delimiter) ==
            if p.key == key then Some(p.value[..Min(|p.value|, room)]) else Lookup(rest, key, room, delimiter)
  {
    PairStart(p, key, delimiter);
    hide Lookup, Admissible;
    LookupField(p.key + [0x3D] + p.value, rest, key, room, delimiter);
  }

  lemma LookupShort(b: seq<byte>, key: seq<byte>, room: nat, delimiter: byte)
    requires |b| <= |key|
    ensures Lookup(b, key, room, delimiter) == None
  {
  }

  lemma LookupSkips(b: seq<byte>, key: seq<byte>, room: nat, delimiter: byte)
    requires delimiter != 0 && b != [] && b[0] != 0 && b[0] != 0x20 && b[0] != delimiter
    ensures Lookup([delimiter] + b, key, room, delimiter) == Lookup(b, key, room, delimiter)
  {
    var c := [delimiter] + b;
    assert c[1..] == b;
    SkipOf(c, delimiter);
    assert SkipSeparators(b, delimiter) == b;
  }

  lemma QueryHead(pairs: seq<Pair>, delimiter: byte)
    requires pairs != [] && Admissible(pairs[0], delimiter) && delimiter !in {0, 0x3D, 0x20}
    ensures var b := Query(pairs, delimiter); b != [] && b[0] != 0 && b[0] != 0x20 && b[0] != delimiter
    ensures Query(pairs, delimiter) == pairs[0].key + [0x3D] + pairs[0].value + QueryRest(pairs, delimiter)
  {
    var b, k := Query(pairs, delimiter), pairs[0].key;
    assert b == k + [0x3D] + pairs[0].value + QueryRest(pairs, delimiter) by {
      hide Admissible;
    }
    assert b[0] == if k == [] then 0x3D else k[0];
  }

  function QueryRest(pairs: seq<Pair>, delimiter: byte): seq<byte>
    requires pairs != []
  {
    if |pairs| == 1 then [] else [delimiter] + Query(pairs[1..], delimiter)
  }

  /** On every delimiter-joined list of pairs the lookup returns the first value of the key, cut to the room. */
  lemma {:induction false} LookupFindsFirstValue(pairs: seq<Pair>, key: seq<byte>, room: nat, delimiter: byte)
    requires delimiter !in {0, 0x3D, 0x20} && 0x3D !in key
    requires forall p :: p in pairs ==> Admissible(p, delimiter)
    ensures Lookup(Query(pairs, delimiter), key, room, delimiter) == Truncate(FirstValue(pairs, key), room)
  {
    hide Lookup;
    if pairs == [] {
      LookupShort([], key, room, delimiter);
    } else {
      QueryHead(pairs, delimiter);
      LookupPair(Query(pairs, delimiter), pairs[0], QueryRest(pairs, delimiter), key, room, delimiter);
      LookupFindsFirstValue(pairs[1..], key, room, delimiter);
      if |pairs| > 1 {
        QueryHead(pairs[1..], delimiter);
        LookupSkips(Query(pairs[1..], delimiter), key, room, delimiter);
      }
    }
  }
}
