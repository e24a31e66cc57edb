/**
 Which byte the receiver of install requests rejects, in plain numbers
 (app-mgr/app-manager/module_wasm_app.c, app-mgr/app-manager/module_wasm_app.h).
 */
module InstallLaws {
  import opened Bytes
  import opened InstallEncoding
  import opened InstallImage
  import opened InstallState

  /**
   A byte is rejected exactly when it is a wrong version of the request or of the file, completes a
   wrong magic or a section type that is not known, makes a section size longer than 5 bytes, or
   completes the size of a text section that cannot be mapped.
   */
  lemma RejectedBytes(cfg: Config, c: Ctx, ch: byte, total: int)
    ensures var n := |c.partial|;
            Step(cfg, c, ch, total).ok <==>
            match c.phase
            case ReqVer => ch == 1
            case AppMagic => n == 3 ==> c.partial + [ch] in {[0, 0x61, 0x73, 0x6D], [0, 0x61, 0x6F, 0x74]}
            case WasmVersion => n < 4 && ch == [1, 0, 0, 0][n]
            case AotVersion => n < 4 && ch == [2, 0, 0, 0][n]
            case WasmSectionType => n == 0 ==> ch <= cfg.sectionTypeMax
            case WasmSectionSize => n < 5
            case AotSectionId => n == 3 ==> LittleEndian(c.partial + [ch]) in {0, 1, 2, 3, 4, 5, 100}
            case AotSectionSize =>
              n == 3 && c.sections != [] && c.sections[|c.sections| - 1].ty == 2 ==>
                var size := LittleEndian(c.partial + [ch]);
                size == 0 || (size + cfg.pltSize + 3) / 4 * 4 < 4294967295
            case _ => true
  {
    hide Posting, FinishedAot, UpdateCurrent, Group;
    if |c.partial| == 3 {
      ReadLittleEndian(c.partial + [ch]);
    }
  }

  /** An image with one section of each type the loader knows is received whole, if its text can be mapped. */
  lemma EveryKnownTypeInstalls(cfg: Config, r: Install, body: seq<byte>, sender: nat, payloadLen: nat)
    requires HeaderFits(r) && r.package.Aot? && body != [] && (|body| + cfg.pltSize + 3) / 4 * 4 < 4294967295
    requires r.sections == Loaded(cfg, OneOfEach(body))
    requires |EncodeHeader(r, sender, payloadLen) + ([0, 0x61, 0x6F, 0x74] + [2, 0, 0, 0] + EncodeAot(OneOfEach(body), 8))| < 2147483648
    ensures var img := EncodeHeader(r, sender, payloadLen) + ([0, 0x61, 0x6F, 0x74] + [2, 0, 0, 0] + EncodeAot(OneOfEach(body), 8));
            Feed(cfg, INITIAL, img, |img|) == Posted(r, [])
  {
    forall s | s in OneOfEach(body) ensures AotWritable(cfg, s) {
    }
    hide EncodeHeader, EncodeAot, Loaded, Feed, AotWritable, HeaderFits;
    AotImageInstalls(cfg, r, OneOfEach(body), sender, payloadLen);
  }

  function OneOfEach(body: seq<byte>): seq<AotInput> {
    [AotInput(0, body), AotInput(1, body), AotInput(2, body), AotInput(3, body), AotInput(4, body), AotInput(5, body), AotInput(100, body)]
  }

  /** The number four bytes stand for, least significant first. */
  function LittleEndian(s: seq<byte>): nat
    requires |s| == 4
  {
    s[0] as int + 256 * s[1] as int + 65536 * s[2] as int + 16777216 * s[3] as int
  }

  lemma ReadLittleEndian(s: seq<byte>)
    requires |s| == 4
    ensures FromLE32(s) == LittleEndian(s)
  {
  }
}
