/**
 The streaming receiver and the whole-image parser agree on every image.
 */
module InstallAgreement {
  import opened Bytes
  import opened InstallState
  import opened InstallImage
  import Lists
  import Memory

  /**
   The receiver answers a section list as the parser reads it: the sections are posted with the
   very last byte, something malformed is rejected, a beginning is waited on, and an empty
   block with bytes behind it overruns.
   */
  ghost predicate Delivers(f: Fed, c: Ctx, sections: Reading<seq<Section>>) {
    match sections
    case Read(more) => f == Posted(Posting(c.(sections := c.sections + more)), [])
    case Malformed => f.Rejected?
    case Truncated => f.Waiting?
    case Empty => f.Overran?
  }

  lemma WithSection(c: Ctx, s: Section, more: seq<Section>)
    ensures c.sections + [s] + more == c.sections + ([s] + more)
    ensures UpdateCurrent(c.sections + [Section(s.ty, 0, [])], s) == c.sections + [s]
    ensures Current(c.(sections := c.sections + [s])) == s
  {
  }

  // ---------- bytecode sections ----------

  /** The context of a section whose LEB128 size, after `k` bytes, is worth `acc`. */
  function InSize(c: Ctx, ty: nat, acc: nat, groups: seq<byte>): Ctx {
    c.(phase := WasmSectionSize, partial := groups, total := c.total + 1 + |groups|,
       sections := c.sections + [Section(ty, acc, [])])
  }

  function InContent(c: Ctx, ty: nat, size: nat, used: nat): Ctx {
    c.(phase := WasmSectionContent, partial := [], total := c.total + used,
       sections := c.sections + [Section(ty, size, [])])
  }

  lemma SizeStep(cfg: Config, c: Ctx, ty: nat, acc: nat, groups: seq<byte>, ch: byte, total: int)
    ensures var v := acc + Group(ch, |groups|);
            Step(cfg, InSize(c, ty, acc, groups), ch, total) ==
            if |groups| + 1 > MAX_LEB_BYTES then Fail()
            else if ch < 128 then Go(InContent(c, ty, v, |groups| + 2))
            else Go(InSize(c, ty, v, groups + [ch]))
  {
    hide Group;
    var v := acc + Group(ch, |groups|);
    assert UpdateCurrent(c.sections + [Section(ty, acc, [])], Section(ty, v, [])) == c.sections + [Section(ty, v, [])];
  }

  lemma {:induction false} FeedSize(cfg: Config, c: Ctx, ty: nat, acc: nat, groups: seq<byte>, s: seq<byte>, total: int)
    ensures match Leb(s, |groups|, acc)
            case Read((v, n)) =>
              Feed(cfg, InSize(c, ty, acc, groups), s, total) ==
              Feed(cfg, InContent(c, ty, v, 1 + |groups| + n), s[n..], total)
            case Malformed => Feed(cfg, InSize(c, ty, acc, groups), s, total).Rejected?
            case Truncated => Feed(cfg, InSize(c, ty, acc, groups), s, total).Waiting?
            case Empty => true
    decreases |s|
  {
    hide Step, Group, Feed;
    NothingFed(cfg, InSize(c, ty, acc, groups), total);
    if s != [] {
      SizeStep(cfg, c, ty, acc, groups, s[0], total);
      StepFeeds(cfg, InSize(c, ty, acc, groups), s, total, Step(cfg, InSize(c, ty, acc, groups), s[0], total));
      hide InContent, InSize;
      if |groups| < MAX_LEB_BYTES && s[0] >= 128 {
        FeedSize(cfg, c, ty, acc + Group(s[0], |groups|), groups + [s[0]], s[1..], total);
        LebStep(s, |groups|, acc);
      }
    }
  }

  lemma LebStep(s: seq<byte>, k: nat, acc: nat)
    requires s != [] && s[0] >= 128 && k < MAX_LEB_BYTES
    ensures var r := Leb(s[1..], k + 1, acc + Group(s[0], k));
            if r.Read? then Leb(s, k, acc) == Read((r.value.0, r.value.1 + 1)) && s[1..][r.value.1..] == s[r.value.1 + 1..]
            else Leb(s, k, acc) == r
  {
    hide Group;
  }

  /** The context at the start of a section list. */
  predicate AtSection(c: Ctx, phase: Phase) {
    c.phase == phase && c.partial == []
  }

  lemma FeedType(cfg: Config, c: Ctx, s: seq<byte>, total: int)
    requires AtSection(c, WasmSectionType) && s != []
    ensures if s[0] > cfg.sectionTypeMax then Feed(cfg, c, s, total).Rejected?
            else Feed(cfg, c, s, total) == Feed(cfg, InSize(c, s[0], 0, []), s[1..], total)
  {
    hide Feed;
    Collect(cfg, c, s, total);
  }

  /** The context after `s` was received in full and another section follows. */
  function NextSection(c: Ctx, s: Section, used: nat): Ctx {
    c.(total := c.total + used, sections := c.sections + [s])
  }

  lemma FeedContent(cfg: Config, c: Ctx, ty: nat, size: nat, used: nat, s: seq<byte>, total: int)
    requires AtSection(c, WasmSectionType) && c.total + used + |s| == total
    ensures var f := Feed(cfg, InContent(c, ty, size, used), s, total);
            var fault := BodyFault(s, size);
            if fault.Some? then Delivers(f, c, fault.value)
            else
              var d := NextSection(c, Section(ty, size, s[..size]), used + size);
              if |s| == size then f == Posted(Posting(d), []) else f == Feed(cfg, d, s[size..], total)
  {
    hide Feed, Posting;
    var e := InContent(c, ty, size, used);
    if size == 0 {
      EmptyBlock(cfg, e, s, total);
    } else {
      Collect(cfg, e, s, total);
      if |s| >= size {
        var done := Section(ty, size, s[..size]);
        WithSection(c, done, []);
        var d := NextSection(c, done, used + size);
        var o := Finish(cfg, After(e, size), s[..size], total);
        assert UpdateCurrent(e.sections, done) == d.sections;
        if |s| > size {
          assert o == Go(d);
        } else {
          PostingIgnores(After(e, size).(sections := d.sections), d);
        }
      }
    }
  }

  lemma PostingIgnores(c: Ctx, d: Ctx)
    requires c.(phase := d.phase, partial := d.partial, total := d.total) == d
    ensures Posting(c) == Posting(d)
  {
  }

  /** The parse of a bytecode list by its first section. */
  lemma ParseSectionsHead(cfg: Config, s: seq<byte>)
    requires s != []
    ensures s[0] > cfg.sectionTypeMax ==> ParseSections(cfg, s).Malformed?
    ensures s[0] <= cfg.sectionTypeMax ==>
      match Leb(s[1..], 0, 0)
      case Read((size, n)) =>
        var fault := BodyFault(s[1 + n..], size);
        if fault.Some? then ParseSections(cfg, s) == fault.value
        else ParseSections(cfg, s) ==
             Prepend(Section(s[0], size, s[1 + n..1 + n + size]), ParseSections(cfg, s[1 + n + size..]))
      case Malformed => ParseSections(cfg, s).Malformed?
      case Truncated => ParseSections(cfg, s).Truncated?
      case Empty => true
  {
    hide Leb, BodyFault;
  }

  lemma {:induction false} FeedSections(cfg: Config, c: Ctx, s: seq<byte>, total: int)
    requires AtSection(c, WasmSectionType) && s != [] && c.total + |s| == total
    ensures Delivers(Feed(cfg, c, s, total), c, ParseSections(cfg, s))
    decreases |s|
  {
    hide Feed, Posting, InContent, InSize, ParseSections;
    ParseSectionsHead(cfg, s);
    FeedType(cfg, c, s, total);
    if s[0] <= cfg.sectionTypeMax {
      FeedSize(cfg, c, s[0], 0, [], s[1..], total);
      var leb := Leb(s[1..], 0, 0);
      if leb.Read? {
        var (size, n) := leb.value;
        var at := 1 + n;
        assert s[1..][n..] == s[at..];
        FeedContent(cfg, c, s[0], size, at, s[at..], total);
        if 0 < size <= |s| - at {
          assert s[at..][..size] == s[at..at + size] && s[at..][size..] == s[at + size..];
          FeedSectionsTail(cfg, c, s, Section(s[0], size, s[at..at + size]), at + size, total);
        }
      }
    }
  }

  /** The first section is complete; the rest of the list is received by induction. */
  lemma FeedSectionsTail(cfg: Config, c: Ctx, s: seq<byte>, first: Section, used: nat, total: int)
    requires AtSection(c, WasmSectionType) && c.total + |s| == total && 0 < used <= |s|
    ensures var d := NextSection(c, first, used);
            Delivers(if |s| == used then Posted(Posting(d), []) else Feed(cfg, d, s[used..], total), c,
                     Prepend(first, ParseSections(cfg, s[used..])))
    decreases |s|, 0
  {
    hide Feed, Posting;
    var d := NextSection(c, first, used);
    var tail := s[used..];
    var more := ParseSections(cfg, tail);
    if tail == [] {
      assert [first] + [] == [first];
      PostingIgnores(d, c.(sections := c.sections + [first]));
    } else {
      FeedSections(cfg, d, tail, total);
      if more.Read? {
        WithSection(c, first, more.value);
        PostingIgnores(d.(sections := d.sections + more.value), c.(sections := c.sections + ([first] + more.value)));
      }
    }
  }

  // ---------- AOT sections ----------

  lemma {:induction false} FeedPadding(cfg: Config, c: Ctx, s: seq<byte>, total: int)
    requires AtSection(c, AotSectionId) && c.total >= REQUEST_FIX_PART_LEN + c.urlLen
    ensures var n := PadLength(c.total - REQUEST_FIX_PART_LEN - c.urlLen);
            if |s| < n then Feed(cfg, c, s, total).Waiting?
            else Feed(cfg, c, s, total) == Feed(cfg, c.(total := c.total + n), s[n..], total)
    decreases |s|
  {
    hide Step, Feed, PadLength;
    var off := c.total - REQUEST_FIX_PART_LEN - c.urlLen;
    NothingFed(cfg, c, total);
    if PadLength(off) == 0 {
      Lists.DropNone(s);
    } else if s != [] {
      var d := c.(total := c.total + 1);
      PaddingStep(cfg, c, s[0], total);
      StepFeeds(cfg, c, s, total, Go(d));
      PadStep(off);
      FeedPadding(cfg, d, s[1..], total);
      if |s| >= PadLength(off) {
        Lists.DropOneMore(s, PadLength(off));
      }
    }
  }

  lemma PadStep(off: nat)
    requires PadLength(off) > 0
    ensures PadLength(off + 1) == PadLength(off) - 1
  {
  }

  lemma PaddingStep(cfg: Config, c: Ctx, ch: byte, total: int)
    requires AtSection(c, AotSectionId) && c.total >= REQUEST_FIX_PART_LEN + c.urlLen
    requires PadLength(c.total - REQUEST_FIX_PART_LEN - c.urlLen) > 0
    ensures Step(cfg, c, ch, total) == Go(c.(total := c.total + 1))
  {
    hide CollectByte;
  }

  /** The context once an AOT section's type is known, and once its size is. */
  function InAotSize(c: Ctx, ty: nat, used: nat): Ctx {
    c.(phase := AotSectionSize, partial := [], total := c.total + used, sections := c.sections + [Section(ty, 0, [])])
  }

  function InAotContent(c: Ctx, ty: nat, size: nat, used: nat): Ctx {
    c.(phase := AotSectionContent, partial := [], total := c.total + used, sections := c.sections + [Section(ty, size, [])])
  }

  lemma FeedAotType(cfg: Config, c: Ctx, s: seq<byte>, used: nat, total: int)
    requires AtSection(c, AotSectionId) && (c.total + used - REQUEST_FIX_PART_LEN - c.urlLen) % 4 == 0
    ensures var f := Feed(cfg, c.(total := c.total + used), s, total);
            if |s| < 4 then f.Waiting?
            else if !AotType(FromLE32(s[..4])) then f.Rejected?
            else f == Feed(cfg, InAotSize(c, FromLE32(s[..4]), used + 4), s[4..], total)
  {
    hide Feed, FromLE32;
    var e := c.(total := c.total + used);
    Collect(cfg, e, s, total);
    if |s| >= 4 {
      var o := Finish(cfg, After(e, 4), s[..4], total);
      if o.ok {
        assert o.ctx == InAotSize(c, FromLE32(s[..4]), used + 4);
      }
    }
  }

  lemma FeedAotSize(cfg: Config, c: Ctx, ty: nat, used: nat, s: seq<byte>, total: int)
    requires c.phase.AotSectionId?
    ensures var f := Feed(cfg, InAotSize(c, ty, used), s, total);
            if |s| < 4 then f.Waiting?
            else
              var size := FromLE32(s[..4]);
              if !AotSizeOk(cfg, ty, size) then f.Rejected?
              else f == Feed(cfg, InAotContent(c, ty, size, used + 4), s[4..], total)
  {
    hide Feed, FromLE32;
    var e := InAotSize(c, ty, used);
    Collect(cfg, e, s, total);
    if |s| >= 4 {
      var o := Finish(cfg, After(e, 4), s[..4], total);
      if o.ok {
        WithSection(c, Section(ty, FromLE32(s[..4]), []), []);
        assert o.ctx == InAotContent(c, ty, FromLE32(s[..4]), used + 4);
      }
    }
  }

  lemma FinishedIsAotSection(cfg: Config, ty: nat, body: seq<byte>)
    requires AotSizeOk(cfg, ty, |body|) && body != []
    ensures FinishedAot(cfg, Section(ty, |body|, []), body) == AotSection(cfg, ty, body)
  {
    if ty == AOT_SECTION_TYPE_TEXT {
      ZeroFillStaysMapped(cfg, Section(ty, |body|, []), body);
      assert body + Memory.Zeros(0) == body;
    }
  }

  lemma FeedAotContent(cfg: Config, c: Ctx, ty: nat, size: nat, used: nat, s: seq<byte>, total: int)
    requires AtSection(c, AotSectionId) && c.total + used + |s| == total && AotSizeOk(cfg, ty, size)
    ensures var f := Feed(cfg, InAotContent(c, ty, size, used), s, total);
            var fault := BodyFault(s, size);
            if fault.Some? then Delivers(f, c, fault.value)
            else
              var d := NextSection(c, AotSection(cfg, ty, s[..size]), used + size);
              if |s| == size then f == Posted(Posting(d), []) else f == Feed(cfg, d, s[size..], total)
  {
    hide Feed, Posting, AotSection, FinishedAot;
    var e := InAotContent(c, ty, size, used);
    if size == 0 {
      EmptyBlock(cfg, e, s, total);
    } else {
      Collect(cfg, e, s, total);
      if |s| >= size {
        FinishedIsAotSection(cfg, ty, s[..size]);
        var done := AotSection(cfg, ty, s[..size]);
        var d := NextSection(c, done, used + size);
        var o := Finish(cfg, After(e, size), s[..size], total);
        assert UpdateCurrent(e.sections, done) == d.sections;
        if |s| > size {
          assert o == Go(d);
        } else {
          PostingIgnores(After(e, size).(sections := d.sections), d);
        }
      }
    }
  }

  /** The parse of an AOT list by its first section. */
  lemma ParseAotHead(cfg: Config, s: seq<byte>, off: nat, at: nat)
    requires s != [] && at == PadLength(off) + 4
    ensures |s| < at ==> ParseAot(cfg, s, off).Truncated?
    ensures |s| >= at && !AotType(FromLE32(s[at - 4..at])) ==> ParseAot(cfg, s, off).Malformed?
    ensures at <= |s| < at + 4 && AotType(FromLE32(s[at - 4..at])) ==> ParseAot(cfg, s, off).Truncated?
    ensures |s| >= at + 4 && AotType(FromLE32(s[at - 4..at])) ==>
      var ty, size, body := FromLE32(s[at - 4..at]), FromLE32(s[at..at + 4]), at + 4;
      var fault := BodyFault(s[body..], size);
      if !AotSizeOk(cfg, ty, size) then ParseAot(cfg, s, off).Malformed?
      else if fault.Some? then ParseAot(cfg, s, off) == fault.value
      else ParseAot(cfg, s, off) ==
           Prepend(AotSection(cfg, ty, s[body..body + size]), ParseAot(cfg, s[body + size..], off + body + size))
  {
    hide FromLE32, AotSizeOk, AotSection, BodyFault;
  }

  lemma {:induction false} FeedAot(cfg: Config, c: Ctx, s: seq<byte>, off: nat, total: int)
    requires AtSection(c, AotSectionId) && s != [] && c.total + |s| == total
    requires off == c.total - REQUEST_FIX_PART_LEN - c.urlLen
    ensures Delivers(Feed(cfg, c, s, total), c, ParseAot(cfg, s, off))
    decreases |s|
  {
    hide Feed, Posting, InAotContent, InAotSize, ParseAot, FromLE32, AotSizeOk, AotSection;
    var n := PadLength(off);
    ParseAotHead(cfg, s, off, n + 4);
    FeedPadding(cfg, c, s, total);
    if |s| >= n {
      FeedAotType(cfg, c, s[n..], n, total);
      if |s| >= n + 4 {
        assert s[n..][..4] == s[n..n + 4] && s[n..][4..] == s[n + 4..];
        var ty := FromLE32(s[n..n + 4]);
        if AotType(ty) {
          FeedAotSize(cfg, c, ty, n + 4, s[n + 4..], total);
          FeedAotRest(cfg, c, s, off, n, ty, total);
        }
      }
    }
  }

  /** The type of the first section was read; its size, its body and the rest of the list remain. */
  lemma FeedAotRest(cfg: Config, c: Ctx, s: seq<byte>, off: nat, n: nat, ty: nat, total: int)
    requires AtSection(c, AotSectionId) && c.total + |s| == total
    requires off == c.total - REQUEST_FIX_PART_LEN - c.urlLen && n == PadLength(off)
    requires |s| >= n + 4 && ty == FromLE32(s[n..n + 4]) && AotType(ty)
    requires Feed(cfg, c, s, total) == Feed(cfg, InAotSize(c, ty, n + 4), s[n + 4..], total)
    ensures Delivers(Feed(cfg, c, s, total), c, ParseAot(cfg, s, off))
    decreases |s|, 1
  {
    hide Feed, Posting, InAotContent, InAotSize, ParseAot, FromLE32, AotSection, AotSizeOk;
    var at := n + 8;
    ParseAotHead(cfg, s, off, n + 4);
    FeedAotSize(cfg, c, ty, n + 4, s[n + 4..], total);
    if |s| >= at {
      assert s[n + 4..][..4] == s[n + 4..at] && s[n + 4..][4..] == s[at..];
      var size := FromLE32(s[n + 4..at]);
      if AotSizeOk(cfg, ty, size) {
        FeedAotContent(cfg, c, ty, size, at, s[at..], total);
        if 0 < size <= |s| - at {
          assert s[at..][..size] == s[at..at + size] && s[at..][size..] == s[at + size..];
          FeedAotTail(cfg, c, s, off, AotSection(cfg, ty, s[at..at + size]), at + size, total);
        }
      }
    }
  }

  lemma FeedAotTail(cfg: Config, c: Ctx, s: seq<byte>, off: nat, first: Section, used: nat, total: int)
    requires AtSection(c, AotSectionId) && c.total + |s| == total
    requires off == c.total - REQUEST_FIX_PART_LEN - c.urlLen && 0 < used <= |s|
    ensures var d := NextSection(c, first, used);
            Delivers(if |s| == used then Posted(Posting(d), []) else Feed(cfg, d, s[used..], total), c,
                     Prepend(first, ParseAot(cfg, s[used..], off + used)))
    decreases |s|, 0
  {
    hide Feed, Posting;
    var d := NextSection(c, first, used);
    var tail := s[used..];
    var more := ParseAot(cfg, tail, off + used);
    if tail == [] {
      assert [first] + [] == [first];
      PostingIgnores(d, c.(sections := c.sections + [first]));
    } else {
      FeedAot(cfg, d, tail, off + used, total);
      if more.Read? {
        WithSection(c, first, more.value);
        PostingIgnores(d.(sections := d.sections + more.value), c.(sections := c.sections + ([first] + more.value)));
      }
    }
  }

  // ---------- the whole image ----------

  lemma VersionStep(cfg: Config, c: Ctx, ch: byte, total: int)
    requires c.phase.WasmVersion? || c.phase.AotVersion?
    ensures Step(cfg, c, ch, total) ==
            if c.phase.WasmVersion? then VersionByte(c.(total := c.total + 1), ch, BYTECODE_VERSION, WasmSectionType)
            else VersionByte(c.(total := c.total + 1), ch, AOT_VERSION, AotSectionId)
  {
  }

  function VersionOf(c: Ctx): (v: seq<byte>)
    ensures |v| == 4
  {
    if c.phase.WasmVersion? then BYTECODE_VERSION else AOT_VERSION
  }

  function AfterVersion(c: Ctx): Phase { if c.phase.WasmVersion? then WasmSectionType else AotSectionId }

  /** The rest of a version: every byte must be the expected one. */
  lemma {:induction false} FeedVersion(cfg: Config, c: Ctx, s: seq<byte>, total: int)
    requires (c.phase.WasmVersion? || c.phase.AotVersion?) && |c.partial| < 4
    ensures var n := 4 - |c.partial|;
            if !Agrees(s, VersionOf(c)[|c.partial|..]) then Feed(cfg, c, s, total).Rejected?
            else if |s| < n then Feed(cfg, c, s, total).Waiting?
            else Feed(cfg, c, s, total) == Feed(cfg, Enter(After(c, n), AfterVersion(c)), s[n..], total)
    decreases |s|
  {
    hide Agrees, VersionOf, Feed;
    var k := |c.partial|;
    VersionFeeds(cfg, c, s, total);
    if s != [] && s[0] == VersionOf(c)[k] && k < 3 {
      var d := c.(partial := c.partial + [s[0]], total := c.total + 1);
      FeedVersion(cfg, d, s[1..], total);
      assert |s| >= 4 - k ==> s[1..][3 - k..] == s[4 - k..];
    }
  }

  /** One byte of a version. */
  lemma VersionFeeds(cfg: Config, c: Ctx, s: seq<byte>, total: int)
    requires (c.phase.WasmVersion? || c.phase.AotVersion?) && |c.partial| < 4
    ensures var k, f := |c.partial|, Feed(cfg, c, s, total);
            var v, d := VersionOf(c)[k..], if s == [] then c else c.(partial := c.partial + [s[0]], total := c.total + 1);
            if s == [] then f.Waiting? && Agrees(s, v)
            else if s[0] != VersionOf(c)[k] then f.Rejected? && !Agrees(s, v)
            else if k == 3 then f == Feed(cfg, Enter(After(c, 1), AfterVersion(c)), s[1..], total) && Agrees(s, v)
            else f == Feed(cfg, d, s[1..], total) && (Agrees(s, v) <==> Agrees(s[1..], VersionOf(d)[k + 1..]))
  {
    NothingFed(cfg, c, total);
    if s != [] {
      var k := |c.partial|;
      VersionStep(cfg, c, s[0], total);
      StepFeeds(cfg, c, s, total, Step(cfg, c, s[0], total));
      AgreesStep(s, VersionOf(c)[k..]);
      assert VersionOf(c)[k..][1..] == VersionOf(c)[k + 1..];
      hide Step, Agrees, Feed;
    }
  }

  lemma AgreesStep(s: seq<byte>, v: seq<byte>)
    requires s != [] && v != []
    ensures Agrees(s, v) <==> s[0] == v[0] && Agrees(s[1..], v[1..])
    ensures |v| == 1 ==> Agrees(s[1..], v[1..])
  {
    if s[0] == v[0] && Agrees(s[1..], v[1..]) {
      forall i | 0 <= i < |s| && i < |v| ensures s[i] == v[i] {
        if i > 0 { assert s[1..][i - 1] == v[1..][i - 1]; }
      }
    }
    if Agrees(s, v) {
      forall i | 0 <= i < |s| - 1 && i < |v| - 1 ensures s[1..][i] == v[1..][i] {
        assert s[i + 1] == v[i + 1];
      }
    }
  }

  lemma DeliversIgnores(f: Fed, c: Ctx, d: Ctx, sections: Reading<seq<Section>>)
    requires Delivers(f, c, sections)
    requires c.(phase := d.phase, partial := d.partial, total := d.total) == d
    ensures Delivers(f, d, sections)
  {
    hide Posting;
    if sections.Read? {
      PostingIgnores(c.(sections := c.sections + sections.value), d.(sections := d.sections + sections.value));
    }
  }

  /** The sections behind magic and version. */
  lemma FeedBody(cfg: Config, c: Ctx, s: seq<byte>, total: int)
    requires AtSection(c, WasmSectionType) || (AtSection(c, AotSectionId) && c.total == REQUEST_FIX_PART_LEN + c.urlLen + 8)
    requires c.total + |s| == total
    ensures var sections := if c.phase.WasmSectionType? then ParseSections(cfg, s) else ParseAot(cfg, s, 8);
            var f := Feed(cfg, c, s, total);
            if s == [] then f.Waiting? else Delivers(f, c, sections)
  {
    if s == [] {
    } else if c.phase.WasmSectionType? {
      FeedSections(cfg, c, s, total);
    } else {
      FeedAot(cfg, c, s, 8, total);
    }
    hide ParseSections, ParseAot, Delivers;
  }

  /** The context behind the magic. */
  function AtVersion(c: Ctx, magic: seq<byte>): Ctx {
    After(c, 4).(magic := magic, phase := if PackageType(magic).Bytecode? then WasmVersion else AotVersion)
  }

  lemma FeedMagic(cfg: Config, c: Ctx, s: seq<byte>, total: int)
    requires AtSection(c, AppMagic)
    ensures var f := Feed(cfg, c, s, total);
            if |s| < 4 then f.Waiting?
            else if PackageType(s[..4]).Unknown? then f.Rejected?
            else f == Feed(cfg, AtVersion(c, s[..4]), s[4..], total)
  {
    hide Feed, PackageType;
    Collect(cfg, c, s, total);
  }

  /** The app file: magic, version, sections. */
  lemma FeedFile(cfg: Config, c: Ctx, s: seq<byte>, total: int)
    requires AtSection(c, AppMagic) && c.total + |s| == total
    requires c.total == REQUEST_FIX_PART_LEN + c.urlLen
    ensures Delivers(Feed(cfg, c, s, total), if |s| < 4 then c else c.(magic := s[..4]), ParseFile(cfg, s))
  {
    hide Feed, Posting, ParseSections, ParseAot, PackageType, Agrees;
    FeedMagic(cfg, c, s, total);
    if |s| >= 4 && !PackageType(s[..4]).Unknown? {
      var d := AtVersion(c, s[..4]);
      FeedVersion(cfg, d, s[4..], total);
      var v := VersionOf(d);
      assert v[0..] == v;
      if Agrees(s[4..], v) && |s| >= 8 {
        var e := Enter(After(d, 4), AfterVersion(d));
        assert s[4..][4..] == s[8..];
        FeedBody(cfg, e, s[8..], total);
        if |s| > 8 {
          DeliversIgnores(Feed(cfg, e, s[8..], total), e, c.(magic := s[..4]), ParseFile(cfg, s));
        }
      }
    }
  }

  /** One header integer is complete. */
  lemma FeedField(cfg: Config, c: Ctx, s: seq<byte>, d: Ctx, total: int)
    requires Collecting(c) && c.partial == [] && Width(c) > 0 && |s| >= Width(c)
    requires Finish(cfg, After(c, Width(c)), s[..Width(c)], total) == Go(d)
    ensures Feed(cfg, c, s, total) == Feed(cfg, d, s[Width(c)..], total)
  {
    hide Finish, Feed;
    Collect(cfg, c, s, total);
  }

  /** The context after the 18 header bytes. */
  function HeaderCtx(img: seq<byte>): Ctx
    requires |img| >= REQUEST_FIX_PART_LEN
  {
    Ctx(ReqUrl, [], REQUEST_FIX_PART_LEN, img[1], FromBE16(img[2..4]), FromBE32(img[4..8]), FromBE32(img[8..12]),
        FromBE16(img[12..14]), FromBE32(img[14..18]), [], [], [])
  }

  /** The header context when only the fields before file position `n` are in. */
  function HeaderPrefix(img: seq<byte>, n: nat): Ctx
    requires |img| >= REQUEST_FIX_PART_LEN && n in {1, 2, 4, 8, 12, 14, 18}
  {
    var h := HeaderCtx(img);
    Ctx(if n == 1 then ReqAction else if n == 2 then ReqFmt else if n == 4 then ReqMid else if n == 8 then ReqSender
        else if n == 12 then ReqUrlLen else if n == 14 then ReqPayloadLen else ReqUrl, [], n,
        if n >= 2 then h.action else 0, if n >= 4 then h.fmt else 0, if n >= 8 then h.mid else 0,
        if n >= 12 then h.sender else 0, if n >= 14 then h.urlLen else 0, if n >= 18 then h.appSize else 0, [], [], [])
  }

  function FieldEnd(n: nat): nat {
    if n == 1 then 2 else if n == 2 then 4 else if n == 4 then 8 else if n == 8 then 12 else if n == 12 then 14 else 18
  }

  lemma FeedHeaderField(cfg: Config, img: seq<byte>, n: nat, total: int)
    requires |img| >= REQUEST_FIX_PART_LEN && n in {1, 2, 4, 8, 12, 14}
    ensures Feed(cfg, HeaderPrefix(img, n), img[n..], total) ==
            Feed(cfg, HeaderPrefix(img, FieldEnd(n)), img[FieldEnd(n)..], total)
  {
    hide Feed, FromBE16, FromBE32;
    var c, d, m := HeaderPrefix(img, n), HeaderPrefix(img, FieldEnd(n)), FieldEnd(n);
    assert Width(c) == m - n;
    assert img[n..][..m - n] == img[n..m] && img[n..][m - n..] == img[m..];
    assert Finish(cfg, After(c, m - n), img[n..m], total) == Go(d);
    FeedField(cfg, c, img[n..], d, total);
  }

  lemma FeedHeader(cfg: Config, img: seq<byte>, total: int)
    requires |img| >= REQUEST_FIX_PART_LEN && img[0] == 1
    ensures Feed(cfg, INITIAL, img, total) == Feed(cfg, HeaderCtx(img), img[18..], total)
  {
    FeedVersionByte(cfg, img, total);
    hide Feed;
    FeedHeaderField(cfg, img, 1, total);
    FeedHeaderField(cfg, img, 2, total);
    FeedHeaderField(cfg, img, 4, total);
    FeedHeaderField(cfg, img, 8, total);
    FeedHeaderField(cfg, img, 12, total);
    FeedHeaderField(cfg, img, 14, total);
  }

  lemma FeedVersionByte(cfg: Config, img: seq<byte>, total: int)
    requires |img| >= REQUEST_FIX_PART_LEN
    ensures if img[0] == 1 then Feed(cfg, INITIAL, img, total) == Feed(cfg, HeaderPrefix(img, 1), img[1..], total)
            else Feed(cfg, INITIAL, img, total) == Rejected(img[1..])
  {
    var o := Step(cfg, INITIAL, img[0], total);
    if img[0] == 1 {
      assert o == Go(HeaderPrefix(img, 1));
    }
  }

  /** Feeding in two pieces is feeding the whole. */
  lemma {:induction false} FeedSplit(cfg: Config, c: Ctx, a: seq<byte>, b: seq<byte>, total: int)
    ensures Feed(cfg, c, a + b, total) ==
            match Feed(cfg, c, a, total)
            case Waiting(d) => Feed(cfg, d, b, total)
            case Rejected(rest) => Rejected(rest + b)
            case Posted(install, rest) => Posted(install, rest + b)
            case Overran(rest) => Overran(rest + b)
    decreases |a|
  {
    hide Step;
    if a == [] {
      assert a + b == b;
    } else {
      var o := Step(cfg, c, a[0], total);
      assert (a + b)[1..] == a[1..] + b;
      if o.ok && o.posted.None? {
        FeedSplit(cfg, o.ctx, a[1..], b, total);
      }
    }
  }

  /** Fewer bytes than a header are waited on, unless the first is no version. */
  lemma ShortImage(cfg: Config, img: seq<byte>, total: int)
    requires |img| < REQUEST_FIX_PART_LEN || img[0] != 1
    ensures if img == [] || img[0] == 1 then Feed(cfg, INITIAL, img, total).Waiting? else Feed(cfg, INITIAL, img, total).Rejected?
  {
    var filler := Memory.Zeros(REQUEST_FIX_PART_LEN);
    var padded := if img == [] then [1] + filler else img + filler;
    if padded[0] != 1 {
      FeedSplit(cfg, INITIAL, img, filler, total);
      FeedVersionByte(cfg, padded, total);
    } else {
      var head := padded[..18];
      FeedHeader(cfg, head, total);
      FeedSplit(cfg, INITIAL, img, head[|img|..], total);
      assert img + head[|img|..] == head;
      assert Feed(cfg, HeaderCtx(head), [], total) == Waiting(HeaderCtx(head));
    }
  }

  /** The answer of the receiver to a whole image, by what the image amounts to. */
  ghost predicate Answers(f: Fed, r: Reading<Install>) {
    match r
    case Read(install) => f == Posted(install, [])
    case Malformed => f.Rejected?
    case Truncated => f.Waiting?
    case Empty => f.Overran?
  }

  /**
   On every byte string, fed byte by byte as a whole image, the receiver and the recursive
   parser agree: it posts a request with the last byte, and then the one parsed; or it rejects;
   or it waits for more; or it is given a byte for an empty block. The size of the image is
   an `int`.
   */
  lemma StreamingAgreesWithParser(cfg: Config, img: seq<byte>)
    requires |img| <= INT_MAX
    ensures Answers(Feed(cfg, INITIAL, img, |img|), ParseImage(cfg, img))
  {
    hide Feed, Posting, ParseFile;
    if |img| < 18 || img[0] != 1 {
      ShortImage(cfg, img, |img|);
    } else {
      FeedHeader(cfg, img, |img|);
      FeedUrl(cfg, HeaderCtx(img), img, |img|);
    }
  }

  /** Every byte is written inside its block if and only if the image announces no empty URL or section with bytes behind it. */
  lemma WritesStayInside(cfg: Config, img: seq<byte>)
    requires |img| <= INT_MAX
    ensures Feed(cfg, INITIAL, img, |img|).Overran? <==> ParseImage(cfg, img).Empty?
  {
    hide Feed, ParseImage;
    StreamingAgreesWithParser(cfg, img);
  }

  /** The smallest image that overruns: a header of zeros announces no URL, and two bytes follow. */
  lemma EmptyUrlOverruns(cfg: Config, x: byte, y: byte)
    ensures Feed(cfg, INITIAL, [1] + Memory.Zeros(17) + [x, y], 20).Overran?
  {
    var img := [1] + Memory.Zeros(17) + [x, y];
    assert img[12..14] == [0, 0];
    hide Feed;
    WritesStayInside(cfg, img);
  }

  lemma FeedUrl(cfg: Config, c: Ctx, img: seq<byte>, total: int)
    requires |img| >= 18 && img[0] == 1 && c == HeaderCtx(img) && total == |img|
    ensures Answers(Feed(cfg, c, img[18..], total), ParseImage(cfg, img))
  {
    hide Feed, Posting, ParseFile;
    var urlLen, s := c.urlLen, img[18..];
    if urlLen == 0 {
      EmptyBlock(cfg, c, s, total);
    } else {
      Collect(cfg, c, s, total);
      if |s| >= urlLen {
        var at := 18 + urlLen;
        var d := Enter(After(c, urlLen).(url := s[..urlLen]), AppMagic);
        FeedField(cfg, c, s, d, total);
        assert s[urlLen..] == img[at..] && s[..urlLen] == img[18..at];
        FeedFile(cfg, d, img[at..], total);
        FileAnswers(cfg, Feed(cfg, d, img[at..], total), d, img, at);
      }
    }
  }

  /** The request posted for the file behind header and URL is the one parsed. */
  lemma FileAnswers(cfg: Config, f: Fed, d: Ctx, img: seq<byte>, at: nat)
    requires |img| >= 18 && |img| >= at == 18 + FromBE16(img[12..14]) && img[0] == 1 && at > 18
    requires d == Enter(HeaderCtx(img).(url := img[18..at], total := at), AppMagic)
    requires var s := img[at..]; Delivers(f, if |s| < 4 then d else d.(magic := s[..4]), ParseFile(cfg, s))
    ensures Answers(f, ParseImage(cfg, img))
  {
    hide ParseFile;
    var r := ParseFile(cfg, img[at..]);
    if r.Read? {
      ReadHasMagic(cfg, img[at..]);
      assert [] + r.value == r.value;
    }
  }

  lemma ReadHasMagic(cfg: Config, s: seq<byte>)
    ensures ParseFile(cfg, s).Read? ==> |s| > 8
  {
  }
}
