/**
 The byte-at-a-time receiver of install requests as a transition function
 (wasm_app_module_on_install_request_byte_arrive in app-mgr/app-manager/module_wasm_app.c).
 */
module InstallState {
  import opened Bytes
  import Memory

  const REQUEST_FIX_PART_LEN := 18
  const AOT_SECTION_TYPE_TEXT := 2
  const AOT_SECTION_TYPE_SIGNATURE := 6
  const AOT_SECTION_TYPE_CUSTOM := 100
  const UINT32_MAX := 0xFFFF_FFFF

  const BYTECODE_VERSION: seq<byte> := [1, 0, 0, 0]
  const AOT_VERSION: seq<byte> := [2, 0, 0, 0]

  /**
   Build options: the highest section type of a bytecode file, and the size of the AOT
   procedure linkage table of the target.
   */
  datatype Config = Config(sectionTypeMax: byte, pltSize: nat)

  datatype Package = Bytecode | Aot | Unknown

  /** get_package_type on the four magic bytes: "\0asm" or "\0aot". */
  function PackageType(magic: seq<byte>): Package {
    if magic == [0, 0x61, 0x73, 0x6D] then Bytecode
    else if magic == [0, 0x61, 0x6F, 0x74] then Aot
    else Unknown
  }

  datatype Phase =
    | ReqVer | ReqAction | ReqFmt | ReqMid | ReqSender | ReqUrlLen | ReqPayloadLen | ReqUrl
    | AppMagic
    | WasmVersion | WasmSectionType | WasmSectionSize | WasmSectionContent
    | AotVersion | AotSectionId | AotSectionSize | AotSectionContent

  datatype Section = Section(ty: nat, size: nat, body: seq<byte>)

  /** What is posted to the app manager: the request with its parsed section list. */
  datatype Install = Install(action: nat, fmt: nat, mid: nat, url: seq<byte>, package: Package, sections: seq<Section>)

  /**
   The receive context. `partial` holds the bytes received in the current phase, so its
   length is size_in_phase; the section being received is the last one of `sections`.
   */
  datatype Ctx = Ctx(
    phase: Phase, partial: seq<byte>, total: nat,
    action: nat, fmt: nat, mid: nat, sender: nat, urlLen: nat, appSize: nat,
    url: seq<byte>, magic: seq<byte>, sections: seq<Section>)

  /** The context after memset to zero. */
  const INITIAL := Ctx(ReqVer, [], 0, 0, 0, 0, 0, 0, 0, [], [], [])

  /** One call: the new context, the returned flag, and the request posted, if any. */
  datatype Outcome = Outcome(ctx: Ctx, ok: bool, posted: Option<Install>)

  function Go(c: Ctx): Outcome { Outcome(c, true, None) }

  /** The fail label: everything is released and the context zeroed. */
  function Fail(): Outcome { Outcome(INITIAL, false, None) }

  function Enter(c: Ctx, phase: Phase): Ctx { c.(phase := phase, partial := []) }

  /** The posted request; its URL is the C string in the URL buffer. */
  function Posting(c: Ctx): Install {
    Install(c.action, c.fmt, c.mid, CString(c.url), PackageType(c.magic), c.sections)
  }

  /** The section being received, section_end. */
  function Last(sections: seq<Section>): Section {
    if sections == [] then Section(0, 0, []) else sections[|sections| - 1]
  }

  function Current(c: Ctx): Section { Last(c.sections) }

  function UpdateCurrent(sections: seq<Section>, s: Section): seq<Section> {
    if sections == [] then [s] else sections[..|sections| - 1] + [s]
  }

  /** The number of bytes a phase collects before anything else happens; 0 for the other phases. */
  function Width(c: Ctx): nat {
    match c.phase
    case ReqAction => 1
    case ReqFmt => 2
    case ReqMid => 4
    case ReqSender => 4
    case ReqUrlLen => 2
    case ReqPayloadLen => 4
    case ReqUrl => c.urlLen
    case AppMagic => 4
    case WasmSectionType => 1
    case WasmSectionContent => Current(c).size
    case AotSectionId => 4
    case AotSectionSize => 4
    case AotSectionContent => Current(c).size
    case _ => 0
  }

  function RoundUp4(n: int): int { (n + 3) / 4 * 4 }

  /** The size mapped for a text section, computed in 64 bits. */
  function MappedSize(cfg: Config, size: nat): nat { RoundUp4(size + cfg.pltSize) }

  /** The size up to which a text section is zero filled, computed in 32 bits. */
  function FilledSize(cfg: Config, size: nat): nat { RoundUp4((size + cfg.pltSize) % U32) % U32 }

  /** A finished AOT section: text is zero filled behind its body and its size becomes the filled size. */
  function FinishedAot(cfg: Config, s: Section, body: seq<byte>): Section {
    var filled := FilledSize(cfg, s.size);
    if s.ty == AOT_SECTION_TYPE_TEXT && filled > s.size && |body| <= filled
    then Section(s.ty, filled, body + Memory.Zeros(filled - |body|))
    else s.(body := body)
  }

  /** After the last byte of a section: post when the request is complete, else expect another section. */
  function SectionDone(c: Ctx, s: Section, requestTotal: int, next: Phase): Outcome {
    var d := c.(sections := UpdateCurrent(c.sections, s));
    if c.total == requestTotal then Outcome(INITIAL, true, Some(Posting(d))) else Go(Enter(d, next))
  }

  /** What a collecting phase does with its complete bytes. */
  function Finish(cfg: Config, c: Ctx, b: seq<byte>, requestTotal: int): Outcome
    requires |b| == Width(c) > 0
  {
    match c.phase
    case ReqAction => Go(Enter(c.(action := b[0]), ReqFmt))
    case ReqFmt => Go(Enter(c.(fmt := FromBE16(b)), ReqMid))
    case ReqMid => Go(Enter(c.(mid := FromBE32(b)), ReqSender))
    case ReqSender => Go(Enter(c.(sender := FromBE32(b)), ReqUrlLen))
    case ReqUrlLen => Go(Enter(c.(urlLen := FromBE16(b)), ReqPayloadLen))
    case ReqPayloadLen => Go(Enter(c.(appSize := FromBE32(b)), ReqUrl))
    case ReqUrl => Go(Enter(c.(url := b), AppMagic))
    case AppMagic =>
      if PackageType(b).Bytecode? then Go(Enter(c.(magic := b), WasmVersion))
      else if PackageType(b).Aot? then Go(Enter(c.(magic := b), AotVersion))
      else Fail()
    case WasmSectionType =>
      if b[0] <= cfg.sectionTypeMax
      then Go(Enter(c.(sections := c.sections + [Section(b[0], 0, [])]), WasmSectionSize))
      else Fail()
    case WasmSectionContent => SectionDone(c, Current(c).(body := b), requestTotal, WasmSectionType)
    case AotSectionId =>
      var ty := FromLE32(b);
      if ty < AOT_SECTION_TYPE_SIGNATURE || ty == AOT_SECTION_TYPE_CUSTOM
      then Go(Enter(c.(sections := c.sections + [Section(ty, 0, [])]), AotSectionSize))
      else Fail()
    case AotSectionSize =>
      var s := Current(c).(size := FromLE32(b));
      if s.size > 0 && s.ty == AOT_SECTION_TYPE_TEXT && MappedSize(cfg, s.size) >= UINT32_MAX then Fail()
      else Go(Enter(c.(sections := UpdateCurrent(c.sections, s)), AotSectionContent))
    case AotSectionContent => SectionDone(c, FinishedAot(cfg, Current(c), b), requestTotal, AotSectionId)
  }

  function Pow128(k: nat): (p: nat)
    ensures p > 0
  {
    if k == 0 then 1 else 128 * Pow128(k - 1)
  }

  /** The contribution of LEB128 byte number `k`, cut to 32 bits. */
  function Group(b: byte, k: nat): nat { (b % 128) * Pow128(k) % U32 }

  /** The most bytes a section size may take: 32 bits in groups of 7. */
  const MAX_LEB_BYTES := 5

  /** One byte of a LEB128 size; the groups do not overlap, so joining them is adding them. */
  function SizeByte(c: Ctx, ch: byte): Outcome {
    var s := Current(c);
    var k := |c.partial|;
    var d := c.(partial := c.partial + [ch],
                sections := UpdateCurrent(c.sections, s.(size := s.size + Group(ch, k))));
    if k + 1 > MAX_LEB_BYTES then Fail()
    else if ch < 128 then Go(Enter(d, WasmSectionContent))
    else Go(d)
  }

  function VersionByte(c: Ctx, ch: byte, version: seq<byte>, next: Phase): Outcome
    requires |version| == 4
  {
    var d := c.(partial := c.partial + [ch]);
    if |c.partial| >= 4 || ch != version[|c.partial|] then Fail()
    else if |d.partial| == 4 then Go(Enter(d, next))
    else Go(d)
  }

  /** The offset in the app file of the byte that was just counted in `total`. */
  function FileOffset(c: Ctx): int { c.total - 1 - REQUEST_FIX_PART_LEN - c.urlLen }

  /** A byte skipped because no AOT section starts off a 4-byte file offset. */
  predicate Padding(c: Ctx) {
    c.phase.AotSectionId? && c.partial == [] && FileOffset(c) % 4 != 0
  }

  /** A byte for a collecting phase. */
  function CollectByte(cfg: Config, c: Ctx, ch: byte, requestTotal: int): Outcome {
    var b := c.partial + [ch];
    if |b| == Width(c) then Finish(cfg, c, b, requestTotal) else Go(c.(partial := b))
  }

  /** The effect of one byte on a context whose counters are already up to date. */
  function Receive(cfg: Config, c: Ctx, ch: byte, requestTotal: int): Outcome {
    match c.phase
    case ReqVer => if ch != 1 then Outcome(c, false, None) else Go(Enter(c, ReqAction))
    case WasmVersion => VersionByte(c, ch, BYTECODE_VERSION, WasmSectionType)
    case AotVersion => VersionByte(c, ch, AOT_VERSION, AotSectionId)
    case WasmSectionSize => SizeByte(c, ch)
    case _ => if Padding(c) then Go(c) else CollectByte(cfg, c, ch, requestTotal)
  }

  /** The receiver starts its counters over in the first phase and counts the byte. */
  function Counted(c: Ctx): Ctx {
    if c.phase.ReqVer? then c.(partial := [], total := 1) else c.(total := c.total + 1)
  }

  /** One call of the receiver. */
  function Step(cfg: Config, c: Ctx, ch: byte, requestTotal: int): Outcome {
    Receive(cfg, Counted(c), ch, requestTotal)
  }

  /** Idle: what the receiver holds between requests; the counters are stale but never looked at. */
  predicate Idle(c: Ctx) {
    c.(partial := [], total := 0) == INITIAL
  }

  /** From any idle context a request is received as from the zeroed one. */
  lemma IdleIsInitial(cfg: Config, c: Ctx, ch: byte, requestTotal: int)
    requires Idle(c)
    ensures Step(cfg, c, ch, requestTotal) == Step(cfg, INITIAL, ch, requestTotal)
  {
  }

  /** What every outcome keeps, for a context already counted. */
  predicate Keeps(c: Ctx, o: Outcome, requestTotal: int) {
    && (o.ctx.phase.ReqVer? ==> Idle(o.ctx))
    && (!o.ok || o.posted.Some? ==> o.ctx.phase.ReqVer?)
    && (o.posted.Some? ==> o.ok && c.total == requestTotal)
    && (o.ok && o.posted.None? ==> !o.ctx.phase.ReqVer? && o.ctx.total == c.total)
  }

  lemma FinishKeeps(cfg: Config, c: Ctx, b: seq<byte>, requestTotal: int)
    requires |b| == Width(c) > 0
    ensures Keeps(c, Finish(cfg, c, b, requestTotal), requestTotal)
  {
    hide Posting, FinishedAot, PackageType, UpdateCurrent, Current, MappedSize, Width;
  }

  /** A rejected byte and a completed request leave the receiver idle; any other byte leaves it counting. */
  lemma StepKeeps(cfg: Config, c: Ctx, ch: byte, requestTotal: int)
    requires c.phase.ReqVer? ==> Idle(c)
    ensures Keeps(Counted(c), Step(cfg, c, ch, requestTotal), requestTotal)
  {
    var d := Counted(c);
    if |d.partial + [ch]| == Width(d) {
      FinishKeeps(cfg, d, d.partial + [ch], requestTotal);
    }
    hide Finish, Width, UpdateCurrent, Current, Group;
  }

  /** A request is posted only by an accepted byte. */
  lemma PostedIsOk(cfg: Config, c: Ctx, ch: byte, requestTotal: int)
    ensures Step(cfg, c, ch, requestTotal).posted.Some? ==> Step(cfg, c, ch, requestTotal).ok
  {
    var d := Counted(c);
    if |d.partial + [ch]| == Width(d) {
      FinishKeeps(cfg, d, d.partial + [ch], requestTotal);
    }
    hide Finish, Width, UpdateCurrent, Current, Group;
  }

  /** Once the mapping size of a text section was accepted, the 32-bit zero fill ends exactly at the mapping. */
  lemma ZeroFillStaysMapped(cfg: Config, s: Section, body: seq<byte>)
    requires s.ty == AOT_SECTION_TYPE_TEXT && |body| == s.size && MappedSize(cfg, s.size) < UINT32_MAX
    ensures var f := FinishedAot(cfg, s, body);
            |f.body| == f.size == MappedSize(cfg, s.size) && f.body[..|body|] == body &&
            (forall i :: |body| <= i < f.size ==> f.body[i] == 0) && f.size % 4 == 0 &&
            s.size + cfg.pltSize <= f.size < s.size + cfg.pltSize + 4
  {
  }
}
