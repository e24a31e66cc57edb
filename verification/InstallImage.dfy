/**
 The install image as a whole: a recursive parser that says of every byte string whether it is
 a request, malformed, cut off or announces an empty block, and the feeding of bytes to the
 receiver, which stops where a byte has no room. Section sizes are unsigned LEB128
 (section 5.2.2 of the WebAssembly Core Specification).
 */
module InstallImage {
  import opened Bytes
  import opened InstallState
  import Memory

  // ---------- the whole-image parser ----------

  /**
   What a byte string amounts to: a value, something malformed, a beginning that needs more
   bytes, or an announcement of an empty URL or section with bytes behind it.
   */
  datatype Reading<T> = Read(value: T) | Malformed | Truncated | Empty

  /** A LEB128 size from group number `k` on: its value added to `acc`, and the bytes it takes. */
  function Leb(s: seq<byte>, k: nat, acc: nat): (r: Reading<(nat, nat)>)
    ensures !r.Empty?
    ensures r.Read? ==> 0 < r.value.1 <= |s| && k + r.value.1 <= MAX_LEB_BYTES
  {
    if s == [] then Truncated
    else if k >= MAX_LEB_BYTES then Malformed
    else if s[0] < 128 then Read((acc + Group(s[0], k), 1))
    else
      var r := Leb(s[1..], k + 1, acc + Group(s[0], k));
      if r.Read? then Read((r.value.0, r.value.1 + 1)) else r
  }

  function Prepend(s: Section, rest: Reading<seq<Section>>): Reading<seq<Section>> {
    if rest.Read? then Read([s] + rest.value) else rest
  }

  /** A body of `size` bytes cannot be read from `s`: what is wrong with it, if anything. */
  function BodyFault(s: seq<byte>, size: nat): (r: Option<Reading<seq<Section>>>)
    ensures r.None? <==> 0 < size <= |s|
    ensures r.Some? ==> !r.value.Read?
  {
    if size == 0 then Some(if s == [] then Truncated else Empty)
    else if |s| < size then Some(Truncated)
    else None
  }

  /** Type byte, LEB128 size, body; repeated up to the end. */
  function ParseSections(cfg: Config, s: seq<byte>): Reading<seq<Section>>
    decreases |s|
  {
    if s == [] then Read([])
    else if s[0] > cfg.sectionTypeMax then Malformed
    else
      var leb := Leb(s[1..], 0, 0);
      if leb.Malformed? then Malformed
      else if !leb.Read? then Truncated
      else
        var size, at := leb.value.0, 1 + leb.value.1;
        var fault := BodyFault(s[at..], size);
        if fault.Some? then fault.value
        else Prepend(Section(s[0], size, s[at..at + size]), ParseSections(cfg, s[at + size..]))
  }

  /** Bytes between file offset `off` and the next multiple of 4. */
  function PadLength(off: nat): (n: nat)
    ensures n < 4 && (off + n) % 4 == 0
  {
    (4 - off % 4) % 4
  }

  predicate AotType(ty: nat) { ty < AOT_SECTION_TYPE_SIGNATURE || ty == AOT_SECTION_TYPE_CUSTOM }

  /** The section an AOT body becomes: text occupies its whole mapping, zero behind the body. */
  function AotSection(cfg: Config, ty: nat, body: seq<byte>): Section {
    var mapped := MappedSize(cfg, |body|);
    if ty == AOT_SECTION_TYPE_TEXT && mapped >= |body|
    then Section(ty, mapped, body + Memory.Zeros(mapped - |body|))
    else Section(ty, |body|, body)
  }

  /** Text can be mapped. */
  predicate AotSizeOk(cfg: Config, ty: nat, size: nat) {
    size > 0 && ty == AOT_SECTION_TYPE_TEXT ==> MappedSize(cfg, size) < UINT32_MAX
  }

  /** Padding to a 4-byte file offset, little-endian type and size, body; repeated up to the end. */
  function ParseAot(cfg: Config, s: seq<byte>, off: nat): Reading<seq<Section>>
    decreases |s|
  {
    if s == [] then Read([])
    else
      var at := PadLength(off) + 4;
      if |s| < at then Truncated
      else if !AotType(FromLE32(s[at - 4..at])) then Malformed
      else if |s| < at + 4 then Truncated
      else
        var ty, size, body := FromLE32(s[at - 4..at]), FromLE32(s[at..at + 4]), at + 4;
        var fault := BodyFault(s[body..], size);
        if !AotSizeOk(cfg, ty, size) then Malformed
        else if fault.Some? then fault.value
        else Prepend(AotSection(cfg, ty, s[body..body + size]), ParseAot(cfg, s[body + size..], off + body + size))
  }

  /** Magic, version and at least one section. */
  function ParseFile(cfg: Config, s: seq<byte>): Reading<seq<Section>> {
    if |s| < 4 then Truncated
    else if PackageType(s[..4]).Unknown? then Malformed
    else
      var bytecode := PackageType(s[..4]).Bytecode?;
      var version := if bytecode then BYTECODE_VERSION else AOT_VERSION;
      if !Agrees(s[4..], version) then Malformed
      else if |s| <= 8 then Truncated
      else if bytecode then ParseSections(cfg, s[8..]) else ParseAot(cfg, s[8..], 8)
  }

  /** The bytes begin like the version, as far as they go. */
  predicate Agrees(s: seq<byte>, version: seq<byte>) {
    forall i :: 0 <= i < |s| && i < |version| ==> s[i] == version[i]
  }

  /** The request in a whole image: 18 header bytes, URL and app file. The URL block has one byte more than the URL. */
  function ParseImage(cfg: Config, img: seq<byte>): Reading<Install> {
    if img == [] then Truncated
    else if img[0] != 1 then Malformed
    else if |img| < 18 then Truncated
    else
      var urlLen := FromBE16(img[12..14]);
      var at := 18 + urlLen;
      if urlLen == 0 then if |img| <= 19 then Truncated else Empty
      else if |img| < at then Truncated
      else match ParseFile(cfg, img[at..])
        case Read(sections) => Read(Install(
          img[1], FromBE16(img[2..4]), FromBE32(img[4..8]), CString(img[18..at]), PackageType(img[at..][..4]), sections))
        case Malformed => Malformed
        case Truncated => Truncated
        case Empty => Empty
  }

  // ---------- feeding bytes to the receiver ----------

  /** The size of the block that a URL or a section body is received in. */
  function Room(cfg: Config, c: Ctx): nat {
    if c.phase.ReqUrl? then c.urlLen + 1
    else if c.phase.AotSectionContent? && Current(c).ty == AOT_SECTION_TYPE_TEXT && Current(c).size > 0
    then MappedSize(cfg, Current(c).size)
    else Current(c).size
  }

  predicate InBlock(c: Ctx) { c.phase.ReqUrl? || c.phase.WasmSectionContent? || c.phase.AotSectionContent? }

  /** The next byte would be written behind its block. What the code then does is undefined. */
  predicate Overruns(cfg: Config, c: Ctx) { InBlock(c) && |c.partial| >= Room(cfg, c) }

  /** `rest` is what was not fed: the receiver stops at its first rejection, posting or overrun. */
  datatype Fed =
    | Waiting(ctx: Ctx) | Rejected(rest: seq<byte>) | Posted(install: Install, rest: seq<byte>) | Overran(rest: seq<byte>)

  function Feed(cfg: Config, c: Ctx, s: seq<byte>, total: int): Fed
    decreases |s|, 0
  {
    if s == [] then Waiting(c)
    else if Overruns(cfg, c) then Overran(s)
    else Resume(cfg, Step(cfg, c, s[0], total), s[1..], total)
  }

  function Resume(cfg: Config, o: Outcome, rest: seq<byte>, total: int): Fed
    decreases |rest|, 1
  {
    if !o.ok then Rejected(rest)
    else if o.posted.Some? then Posted(o.posted.value, rest)
    else Feed(cfg, o.ctx, rest, total)
  }

  lemma NothingFed(cfg: Config, c: Ctx, total: int)
    ensures Feed(cfg, c, [], total) == Waiting(c)
  {
  }

  /** An accepted byte, and a rejected one. */
  lemma StepFeeds(cfg: Config, c: Ctx, s: seq<byte>, total: int, o: Outcome)
    requires s != [] && !Overruns(cfg, c) && Step(cfg, c, s[0], total) == o
    ensures !o.ok ==> Feed(cfg, c, s, total) == Rejected(s[1..])
    ensures o.ok && o.posted.None? ==> Feed(cfg, c, s, total) == Feed(cfg, o.ctx, s[1..], total)
  {
    hide Step, Overruns;
  }

  /** A fixed-width field never takes more bytes than it has. */
  predicate FieldsFit(c: Ctx) {
    match c.phase
    case WasmVersion => |c.partial| < 4
    case AotVersion => |c.partial| < 4
    case WasmSectionSize => |c.partial| <= MAX_LEB_BYTES
    case _ => InBlock(c) || c.phase.ReqVer? || |c.partial| < Width(c)
  }

  /** Of a receiver that starts idle, every write to a fixed-width field stays inside it. */
  lemma StepKeepsFieldsFit(cfg: Config, c: Ctx, ch: byte, total: int)
    requires FieldsFit(c)
    ensures FieldsFit(Step(cfg, c, ch, total).ctx)
  {
    var d := Counted(c);
    if |d.partial + [ch]| == Width(d) {
      FinishFits(cfg, d, d.partial + [ch], total);
    }
    hide Finish, UpdateCurrent, Current, Group;
  }

  lemma FinishFits(cfg: Config, c: Ctx, b: seq<byte>, total: int)
    requires |b| == Width(c) > 0
    ensures FieldsFit(Finish(cfg, c, b, total).ctx)
  {
    hide Posting, FinishedAot, PackageType, UpdateCurrent, Current, MappedSize, FromBE16, FromBE32, FromLE32, Width;
    Widths(Finish(cfg, c, b, total).ctx);
  }

  lemma Widths(c: Ctx)
    ensures c.partial == [] ==> FieldsFit(c)
  {
    hide Current;
  }

  /** The context `n` bytes later, with nothing collected. */
  function After(c: Ctx, n: nat): Ctx { c.(partial := [], total := c.total + n) }

  predicate Collecting(c: Ctx) {
    && !c.phase.ReqVer? && !c.phase.WasmVersion? && !c.phase.AotVersion? && !c.phase.WasmSectionSize?
    && (c.phase.AotSectionId? && c.partial == [] ==> (c.total - REQUEST_FIX_PART_LEN - c.urlLen) % 4 == 0)
  }

  lemma CollectOne(cfg: Config, c: Ctx, ch: byte, total: int)
    requires Collecting(c)
    ensures var b := c.partial + [ch];
            Step(cfg, c, ch, total) ==
            if |b| == Width(c) then Finish(cfg, After(c, 1), b, total)
            else Go(c.(partial := b, total := c.total + 1))
  {
    StepCollects(cfg, c, ch, total);
    hide Step, Finish;
    if |c.partial + [ch]| == Width(c) {
      FinishIgnoresPartial(cfg, c.(total := c.total + 1), c.partial + [ch], total);
    }
  }

  lemma StepCollects(cfg: Config, c: Ctx, ch: byte, total: int)
    requires Collecting(c)
    ensures Step(cfg, c, ch, total) == CollectByte(cfg, c.(total := c.total + 1), ch, total)
  {
    hide CollectByte;
  }

  lemma FinishIgnoresPartial(cfg: Config, c: Ctx, b: seq<byte>, total: int)
    requires |b| == Width(c) > 0
    ensures Finish(cfg, c, b, total) == Finish(cfg, c.(partial := []), b, total)
  {
    hide FinishedAot, PackageType, UpdateCurrent, MappedSize;
  }

  lemma WidthHasRoom(cfg: Config, c: Ctx)
    requires |c.partial| < Width(c)
    ensures !Overruns(cfg, c)
  {
  }

  /** A collecting phase takes the bytes it lacks and acts on the last of them; with fewer it waits. */
  lemma {:induction false} CollectRest(cfg: Config, c: Ctx, s: seq<byte>, total: int)
    requires Collecting(c) && |c.partial| < Width(c)
    ensures var n := Width(c) - |c.partial|;
            if |s| < n then Feed(cfg, c, s, total).Waiting?
            else Feed(cfg, c, s, total) == Resume(cfg, Finish(cfg, After(c, n), c.partial + s[..n], total), s[n..], total)
    decreases |s|
  {
    hide Finish, Step, Overruns, Feed;
    NothingFed(cfg, c, total);
    if s != [] {
      CollectOne(cfg, c, s[0], total);
      WidthHasRoom(cfg, c);
      var n := Width(c) - |c.partial|;
      if n == 1 {
        assert s[..1] == [s[0]];
        assert Feed(cfg, c, s, total) == Resume(cfg, Step(cfg, c, s[0], total), s[1..], total) by { OneByte(cfg, c, s, total); }
      } else {
        var d := c.(partial := c.partial + [s[0]], total := c.total + 1);
        StepFeeds(cfg, c, s, total, Go(d));
        CollectRest(cfg, d, s[1..], total);
        if |s| >= n {
          TakeOne(c.partial, s, n);
          assert After(d, n - 1) == After(c, n);
        }
      }
    }
  }

  lemma OneByte(cfg: Config, c: Ctx, s: seq<byte>, total: int)
    requires s != [] && !Overruns(cfg, c)
    ensures Feed(cfg, c, s, total) == Resume(cfg, Step(cfg, c, s[0], total), s[1..], total)
  {
    hide Step, Overruns, Resume;
  }

  lemma TakeOne<T>(p: seq<T>, s: seq<T>, n: nat)
    requires 1 < n <= |s|
    ensures p + [s[0]] + s[1..][..n - 1] == p + s[..n] && s[1..][n - 1..] == s[n..]
  {
  }

  lemma Collect(cfg: Config, c: Ctx, s: seq<byte>, total: int)
    requires Collecting(c) && c.partial == [] && Width(c) > 0
    ensures var n := Width(c);
            if |s| < n then Feed(cfg, c, s, total).Waiting?
            else Feed(cfg, c, s, total) == Resume(cfg, Finish(cfg, After(c, n), s[..n], total), s[n..], total)
  {
    hide Finish, Step, Feed;
    CollectRest(cfg, c, s, total);
    assert forall n | 0 <= n <= |s| :: c.partial + s[..n] == s[..n];
  }

  /** An empty URL block takes one byte, an empty section block none; then the next byte has no room. */
  lemma EmptyBlock(cfg: Config, c: Ctx, s: seq<byte>, total: int)
    requires InBlock(c) && c.partial == [] && Width(c) == 0
    ensures var f := Feed(cfg, c, s, total);
            if |s| <= (if c.phase.ReqUrl? then 1 else 0) then f.Waiting? else f.Overran?
  {
    hide Finish, Step;
    if s != [] && c.phase.ReqUrl? {
      CollectOne(cfg, c, s[0], total);
      var d := c.(partial := c.partial + [s[0]], total := c.total + 1);
      assert Feed(cfg, c, s, total) == Feed(cfg, d, s[1..], total);
      assert |s| > 1 ==> Overruns(cfg, d);
    }
  }

  /** Once a block is full of more than it is wide the receiver, where the code goes on, never gets out of it. */
  lemma StaysInBlock(cfg: Config, c: Ctx, ch: byte, total: int)
    requires InBlock(c) && |c.partial| >= Width(c)
    ensures var o := Step(cfg, c, ch, total);
            o.ok && o.posted.None? && InBlock(o.ctx) && |o.ctx.partial| >= Width(o.ctx)
  {
    CollectOne(cfg, c, ch, total);
    hide Finish, Step;
  }
}
