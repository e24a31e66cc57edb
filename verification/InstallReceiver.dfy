/**
 The install request receiver in its own form: a context that each call updates in place
 (app-mgr/app-manager/module_wasm_app.c). Every method is tied to the transition function
 of InstallState.
 */
module InstallReceiver {
  import opened Bytes
  import opened InstallState

  /** What an outcome adds to the queue. */
  function Queued(o: Outcome): seq<Install> { if o.posted.Some? then [o.posted.value] else [] }

  class Receiver {
    const cfg: Config
    var phase: Phase
    /** What RECV_INTEGER and its relatives have stored in the current phase; its length is size_in_phase. */
    var partial: seq<byte>
    var total: nat
    var action: nat
    var fmt: nat
    var mid: nat
    var sender: nat
    var urlLen: nat
    var appSize: nat
    var url: seq<byte>
    var magic: seq<byte>
    var sections: seq<Section>
    /** The app manager's queue, where complete requests are posted. */
    var queue: seq<Install>

    ghost function State(): Ctx
      reads this
    {
      Ctx(phase, partial, total, action, fmt, mid, sender, urlLen, appSize, url, magic, sections)
    }

    constructor (cfg: Config)
      ensures this.cfg == cfg && State() == INITIAL && queue == []
    {
      this.cfg := cfg;
      phase, partial, total, queue := ReqVer, [], 0, [];
      action, fmt, mid, sender, urlLen, appSize := 0, 0, 0, 0, 0, 0;
      url, magic, sections := [], [], [];
    }

    /** memset of the whole context to zero. */
    method Reset()
      modifies this`phase, this`partial, this`total, this`action, this`fmt, this`mid, this`sender, this`urlLen, this`appSize,
               this`url, this`magic, this`sections
      ensures State() == INITIAL
    {
      phase, partial, total := ReqVer, [], 0;
      action, fmt, mid, sender, urlLen, appSize := 0, 0, 0, 0, 0, 0;
      url, magic, sections := [], [], [];
    }

    method NextPhase(p: Phase)
      modifies this`phase, this`partial
      ensures phase == p && partial == []
    {
      phase, partial := p, [];
    }

    /** One byte of a field of `n` bytes; true when the field is complete. */
    method RecvField(ch: byte, n: nat) returns (complete: bool)
      modifies this`partial
      ensures partial == old(partial) + [ch] && (complete <==> |partial| == n)
    {
      partial := partial + [ch];
      complete := |partial| == n;
    }

    /** The request version. */
    method OnVersionByte(ch: byte, requestTotal: int) returns (ok: bool)
      requires phase == ReqVer
      modifies this
      ensures var o := Receive(cfg, old(State()), ch, requestTotal);
              State() == o.ctx && ok == o.ok && queue == old(queue) + Queued(o)
    {
      ok := ch == 1;
      if ok {
        NextPhase(ReqAction);
      }
    }

    /** The action. */
    method OnActionByte(ch: byte, requestTotal: int) returns (ok: bool)
      requires phase == ReqAction
      modifies this
      ensures var o := Receive(cfg, old(State()), ch, requestTotal);
              State() == o.ctx && ok == o.ok && queue == old(queue) + Queued(o)
    {
      hide FromBE16, FromBE32;
      ok := true;
      var complete := RecvField(ch, 1);
      if complete {
        action := partial[0];
        NextPhase(ReqFmt);
      }
    }

    /** The payload format. */
    method OnFmtByte(ch: byte, requestTotal: int) returns (ok: bool)
      requires phase == ReqFmt
      modifies this
      ensures var o := Receive(cfg, old(State()), ch, requestTotal);
              State() == o.ctx && ok == o.ok && queue == old(queue) + Queued(o)
    {
      hide FromBE16, FromBE32;
      ok := true;
      var complete := RecvField(ch, 2);
      if complete {
        fmt := FromBE16(partial);
        NextPhase(ReqMid);
      }
    }

    /** The message id. */
    method OnMidByte(ch: byte, requestTotal: int) returns (ok: bool)
      requires phase == ReqMid
      modifies this
      ensures var o := Receive(cfg, old(State()), ch, requestTotal);
              State() == o.ctx && ok == o.ok && queue == old(queue) + Queued(o)
    {
      hide FromBE16, FromBE32;
      ok := true;
      var complete := RecvField(ch, 4);
      if complete {
        mid := FromBE32(partial);
        NextPhase(ReqSender);
      }
    }

    /** The sender. */
    method OnSenderByte(ch: byte, requestTotal: int) returns (ok: bool)
      requires phase == ReqSender
      modifies this
      ensures var o := Receive(cfg, old(State()), ch, requestTotal);
              State() == o.ctx && ok == o.ok && queue == old(queue) + Queued(o)
    {
      hide FromBE16, FromBE32;
      ok := true;
      var complete := RecvField(ch, 4);
      if complete {
        sender := FromBE32(partial);
        NextPhase(ReqUrlLen);
      }
    }

    /** The length of the URL; a block of one byte more is allocated. */
    method OnUrlLenByte(ch: byte, requestTotal: int) returns (ok: bool)
      requires phase == ReqUrlLen
      modifies this
      ensures var o := Receive(cfg, old(State()), ch, requestTotal);
              State() == o.ctx && ok == o.ok && queue == old(queue) + Queued(o)
    {
      hide FromBE16, FromBE32;
      ok := true;
      var complete := RecvField(ch, 2);
      if complete {
        urlLen := FromBE16(partial);
        NextPhase(ReqPayloadLen);
      }
    }

    /** The size of the app file, which is not looked at. */
    method OnPayloadLenByte(ch: byte, requestTotal: int) returns (ok: bool)
      requires phase == ReqPayloadLen
      modifies this
      ensures var o := Receive(cfg, old(State()), ch, requestTotal);
              State() == o.ctx && ok == o.ok && queue == old(queue) + Queued(o)
    {
      hide FromBE16, FromBE32;
      ok := true;
      var complete := RecvField(ch, 4);
      if complete {
        appSize := FromBE32(partial);
        NextPhase(ReqUrl);
      }
    }

    /** The URL. */
    method OnUrlByte(ch: byte, requestTotal: int) returns (ok: bool)
      requires phase == ReqUrl
      modifies this
      ensures var o := Receive(cfg, old(State()), ch, requestTotal);
              State() == o.ctx && ok == o.ok && queue == old(queue) + Queued(o)
    {
      hide FromBE16, FromBE32;
      ok := true;
      var complete := RecvField(ch, urlLen);
      if complete {
        url := partial;
        NextPhase(AppMagic);
      }
    }

    /** The magic of the app file. */
    method OnMagicByte(ch: byte, requestTotal: int) returns (ok: bool)
      requires phase == AppMagic
      modifies this
      ensures var o := Receive(cfg, old(State()), ch, requestTotal);
              State() == o.ctx && ok == o.ok && queue == old(queue) + Queued(o)
    {
      ok := true;
      var complete := RecvField(ch, 4);
      if complete {
        match PackageType(partial)
        case Bytecode =>
          magic := partial;
          NextPhase(WasmVersion);
        case Aot =>
          magic := partial;
          NextPhase(AotVersion);
        case Unknown =>
          Reset();
          ok := false;
      }
    }

    /** The version of the kind of file the magic announced. */
    method OnFileVersionByte(ch: byte, requestTotal: int) returns (ok: bool)
      requires phase in {WasmVersion, AotVersion}
      modifies this
      ensures var o := Receive(cfg, old(State()), ch, requestTotal);
              State() == o.ctx && ok == o.ok && queue == old(queue) + Queued(o)
    {
      var version := if phase == WasmVersion then BYTECODE_VERSION else AOT_VERSION;
      if |partial| >= 4 || ch != version[|partial|] {
        Reset();
        return false;
      }
      ok := true;
      var complete := RecvField(ch, 4);
      if complete {
        NextPhase(if phase == WasmVersion then WasmSectionType else AotSectionId);
      }
    }

    /** A section is complete: post the request if it was the last, else expect another one. */
    method OnSectionEnd(s: Section, requestTotal: int, next: Phase)
      modifies this
      ensures var o := SectionDone(old(State()), s, requestTotal, next);
              State() == o.ctx && o.ok && queue == old(queue) + Queued(o)
    {
      hide CString, PackageType, UpdateCurrent;
      sections := UpdateCurrent(sections, s);
      if total == requestTotal {
        queue := queue + [Install(action, fmt, mid, CString(url), PackageType(magic), sections)];
        Reset();
      } else {
        NextPhase(next);
      }
    }

    /** The type of a bytecode section. */
    method OnSectionTypeByte(ch: byte, requestTotal: int) returns (ok: bool)
      requires phase == WasmSectionType
      modifies this
      ensures var o := Receive(cfg, old(State()), ch, requestTotal);
              State() == o.ctx && ok == o.ok && queue == old(queue) + Queued(o)
    {
      ok := true;
      var complete := RecvField(ch, 1);
      if complete {
        if partial[0] > cfg.sectionTypeMax {
          Reset();
          return false;
        }
        sections := sections + [Section(partial[0], 0, [])];
        NextPhase(WasmSectionSize);
      }
    }

    /** The LEB128 size of a bytecode section. */
    method OnSectionSizeByte(ch: byte, requestTotal: int) returns (ok: bool)
      requires phase == WasmSectionSize
      modifies this
      ensures var o := Receive(cfg, old(State()), ch, requestTotal);
              State() == o.ctx && ok == o.ok && queue == old(queue) + Queued(o)
    {
      hide UpdateCurrent, Group;
      var section := Last(sections);
      sections := UpdateCurrent(sections, section.(size := section.size + Group(ch, |partial|)));
      partial := partial + [ch];
      if |partial| > MAX_LEB_BYTES {
        Reset();
        return false;
      }
      ok := true;
      if ch < 128 {
        NextPhase(WasmSectionContent);
      }
    }

    /** The body of a bytecode section. */
    method OnSectionBodyByte(ch: byte, requestTotal: int) returns (ok: bool)
      requires phase == WasmSectionContent
      modifies this
      ensures var o := Receive(cfg, old(State()), ch, requestTotal);
              State() == o.ctx && ok == o.ok && queue == old(queue) + Queued(o)
    {
      hide SectionDone;
      ok := true;
      var section := Last(sections);
      FinishIgnoresCollected(cfg, State(), ch, requestTotal);
      var complete := RecvField(ch, section.size);
      if complete {
        OnSectionEnd(section.(body := partial), requestTotal, WasmSectionType);
      }
    }

    /** Padding, then the type of an AOT section. */
    method OnAotIdByte(ch: byte, requestTotal: int) returns (ok: bool)
      requires phase == AotSectionId
      modifies this
      ensures var o := Receive(cfg, old(State()), ch, requestTotal);
              State() == o.ctx && ok == o.ok && queue == old(queue) + Queued(o)
    {
      hide FromLE32;
      ok := true;
      if partial == [] && (total - 1 - REQUEST_FIX_PART_LEN - urlLen) % 4 != 0 {
        return;
      }
      var complete := RecvField(ch, 4);
      if complete {
        var ty := FromLE32(partial);
        if !(ty < AOT_SECTION_TYPE_SIGNATURE || ty == AOT_SECTION_TYPE_CUSTOM) {
          Reset();
          return false;
        }
        sections := sections + [Section(ty, 0, [])];
        NextPhase(AotSectionSize);
      }
    }

    /** The size of an AOT section; text must be mapped. */
    method OnAotSizeByte(ch: byte, requestTotal: int) returns (ok: bool)
      requires phase == AotSectionSize
      modifies this
      ensures var o := Receive(cfg, old(State()), ch, requestTotal);
              State() == o.ctx && ok == o.ok && queue == old(queue) + Queued(o)
    {
      hide FromLE32, UpdateCurrent, MappedSize;
      ok := true;
      var section := Last(sections);
      var complete := RecvField(ch, 4);
      if complete {
        section := section.(size := FromLE32(partial));
        if section.size > 0 && section.ty == AOT_SECTION_TYPE_TEXT && MappedSize(cfg, section.size) >= UINT32_MAX {
          Reset();
          return false;
        }
        sections := UpdateCurrent(sections, section);
        NextPhase(AotSectionContent);
      }
    }

    /** The body of an AOT section; text is zero filled. */
    method OnAotBodyByte(ch: byte, requestTotal: int) returns (ok: bool)
      requires phase == AotSectionContent
      modifies this
      ensures var o := Receive(cfg, old(State()), ch, requestTotal);
              State() == o.ctx && ok == o.ok && queue == old(queue) + Queued(o)
    {
      hide SectionDone, FinishedAot;
      ok := true;
      var section := Last(sections);
      FinishIgnoresCollected(cfg, State(), ch, requestTotal);
      var complete := RecvField(ch, section.size);
      if complete {
        OnSectionEnd(FinishedAot(cfg, section, partial), requestTotal, AotSectionId);
      }
    }

    /** wasm_app_module_on_install_request_byte_arrive. */
    method OnByteArrive(ch: byte, requestTotal: int) returns (ok: bool, received: nat)
      modifies this
      ensures var o := Step(cfg, old(State()), ch, requestTotal);
              State() == o.ctx && ok == o.ok && queue == old(queue) + Queued(o)
      ensures received == Counted(old(State())).total
    {
      hide Receive;
      if phase == ReqVer {
        partial, total := [], 0;
      }
      total := total + 1;
      received := total;
      assert State() == Counted(old(State()));
      match phase
      case ReqVer => ok := OnVersionByte(ch, requestTotal);
      case ReqAction => ok := OnActionByte(ch, requestTotal);
      case ReqFmt => ok := OnFmtByte(ch, requestTotal);
      case ReqMid => ok := OnMidByte(ch, requestTotal);
      case ReqSender => ok := OnSenderByte(ch, requestTotal);
      case ReqUrlLen => ok := OnUrlLenByte(ch, requestTotal);
      case ReqPayloadLen => ok := OnPayloadLenByte(ch, requestTotal);
      case ReqUrl => ok := OnUrlByte(ch, requestTotal);
      case AppMagic => ok := OnMagicByte(ch, requestTotal);
      case WasmVersion => ok := OnFileVersionByte(ch, requestTotal);
      case WasmSectionType => ok := OnSectionTypeByte(ch, requestTotal);
      case WasmSectionSize => ok := OnSectionSizeByte(ch, requestTotal);
      case WasmSectionContent => ok := OnSectionBodyByte(ch, requestTotal);
      case AotVersion => ok := OnFileVersionByte(ch, requestTotal);
      case AotSectionId => ok := OnAotIdByte(ch, requestTotal);
      case AotSectionSize => ok := OnAotSizeByte(ch, requestTotal);
      case AotSectionContent => ok := OnAotBodyByte(ch, requestTotal);
    }
  }

  /** What follows a complete body does not look at the bytes collected. */
  lemma FinishIgnoresCollected(cfg: Config, c: Ctx, ch: byte, requestTotal: int)
    requires c.phase.WasmSectionContent? || c.phase.AotSectionContent?
    ensures var b := c.partial + [ch];
            Receive(cfg, c, ch, requestTotal) ==
            if |b| != Current(c).size then Go(c.(partial := b))
            else if c.phase.WasmSectionContent?
            then SectionDone(c.(partial := b), Current(c).(body := b), requestTotal, WasmSectionType)
            else SectionDone(c.(partial := b), FinishedAot(cfg, Current(c), b), requestTotal, AotSectionId)
  {
    hide FinishedAot, UpdateCurrent;
  }
}
