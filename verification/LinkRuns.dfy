/**
 What the device makes of whole frames and whole streams: every clean frame produces its
 events and leaves the device as it found it, so frames do not disturb each other.
 */
module LinkRuns {
  import opened Bytes
  import Inst = InstallState
  import opened RestfulUtils
  import opened LinkState
  import InstallAgreement
  import InstallImage

  // ---------- stale state does not matter ----------

  /** The part of a link context that can still be read before it is overwritten. */
  function CanonLink(l: Link): Link {
    match l.phase
    case NonStart => if l.sizeInPhase == 0 then INITIAL_LINK else l
    case Leading => if l.sizeInPhase == 0 then INITIAL_LINK.(phase := Leading) else l
    case Type => if l.sizeInPhase == 0 then INITIAL_LINK.(phase := Type) else Link(Type, l.ty, [], 0, None, l.sizeInPhase)
    case Size => Link(Size, l.ty, l.sizeBytes, 0, None, l.sizeInPhase)
    case _ => l
  }

  function Canon(d: Device): Device {
    Device(CanonLink(d.link), if Inst.Idle(d.install) then Inst.INITIAL else d.install)
  }

  lemma ReadyIsCanonicallyInitial(d: Device)
    ensures Ready(d) <==> Canon(d) == INITIAL
  {
  }

  lemma CanonInstall(cfg: Inst.Config, d: Device, ch: byte)
    requires d.link.phase.Payload?
    ensures var a, b := InstallByte(cfg, d, ch), InstallByte(cfg, Canon(d), ch);
            a.complete == b.complete && a.posted == b.posted && a.device == b.device
  {
    if Inst.Idle(d.install) {
      Inst.IdleIsInitial(cfg, d.install, ch, d.link.payloadSize);
    }
    hide Inst.Receive;
  }

  /** A byte has the same effect on two devices that differ only in stale state. */
  lemma StepCanon(cfg: Inst.Config, d: Device, ch: byte)
    ensures var t, u := Step(cfg, d, ch), Step(cfg, Canon(d), ch);
            t.events == u.events && t.message == u.message && Canon(t.device) == Canon(u.device)
  {
    hide Inst.Idle, InstallByte, UnpackedRequest;
    if d.link.phase.Payload? && (d.link.ty == INSTALL_WASM_APP || d.link.payload.None?) {
      CanonInstall(cfg, d, ch);
    }
    assert Inst.Idle(Inst.INITIAL) by { IdleInitial(); }
  }

  lemma IdleInitial()
    ensures Inst.Idle(Inst.INITIAL)
  {
  }

  lemma {:induction false} RunCanon(cfg: Inst.Config, d: Device, e: Device, s: seq<byte>)
    requires Canon(d) == Canon(e)
    ensures Run(cfg, d, s).events == Run(cfg, e, s).events
    ensures Canon(Run(cfg, d, s).device) == Canon(Run(cfg, e, s).device)
    decreases |s|
  {
    hide Step, Canon;
    if s != [] {
      StepCanon(cfg, d, s[0]);
      StepCanon(cfg, e, s[0]);
      RunCanon(cfg, Step(cfg, d, s[0]).device, Step(cfg, e, s[0]).device, s[1..]);
    }
  }

  // ---------- one frame ----------

  /** A byte without events. */
  lemma Quiet(cfg: Inst.Config, d: Device, ch: byte, e: Device, s: seq<byte>)
    requires Step(cfg, d, ch).events == [] && Step(cfg, d, ch).device == e
    ensures Run(cfg, d, [ch] + s) == Run(cfg, e, s)
  {
    assert ([ch] + s)[1..] == s;
    hide Step;
  }

  /** The device when the payload of a message of type `ty` and length `n` begins. */
  function AtPayload(ty: nat, n: nat, install: Inst.Ctx): Device {
    Device(Link(Payload, ty, [], n, if ty == INSTALL_WASM_APP then None else Some([]), 0), install)
  }

  lemma LeadingRun(cfg: Inst.Config, d: Device, s: seq<byte>)
    requires Ready(d)
    ensures Run(cfg, d, LEADINGS + s) ==
            Run(cfg, d.(link := d.link.(phase := Type, payloadSize := 0, payload := None)), s)
  {
    hide Run;
    var l := d.link.(payloadSize := 0, payload := None);
    assert LEADINGS + s == [LEADING0] + ([LEADING1] + s);
    Quiet(cfg, d, LEADING0, d.(link := l.(phase := Leading)), [LEADING1] + s);
    Quiet(cfg, d.(link := l.(phase := Leading)), LEADING1, d.(link := l.(phase := Type)), s);
  }

  lemma TypeRun(cfg: Inst.Config, d: Device, ty: nat, s: seq<byte>)
    requires d.link.phase.Type? && d.link.sizeInPhase == 0 && ty < U16
    ensures Run(cfg, d, BE16(ty) + s) ==
            Run(cfg, d.(link := d.link.(phase := Size, ty := ty, sizeBytes := [])), s)
  {
    hide Run;
    var b := BE16(ty);
    assert b + s == [b[0]] + ([b[1]] + s);
    var e := d.(link := d.link.(ty := b[0], sizeInPhase := 1));
    Quiet(cfg, d, b[0], e, [b[1]] + s);
    assert JoinType(b[0], b[1]) == ty;
    Quiet(cfg, e, b[1], d.(link := d.link.(phase := Size, ty := ty, sizeBytes := [])), s);
  }

  lemma SizeRun(cfg: Inst.Config, d: Device, b: seq<byte>, s: seq<byte>)
    requires |b| == 4 && d.link.phase.Size? && d.link.sizeBytes == [] && d.link.sizeInPhase == 0
    ensures var n := FromBE32(b);
            Run(cfg, d, b + s) == Run(cfg, if n == 0 then Device(INITIAL_LINK, d.install) else AtPayload(d.link.ty, n, d.install), s)
  {
    hide Run, FromBE32;
    assert b + s == [b[0]] + ([b[1]] + ([b[2]] + ([b[3]] + s)));
    var d1 := d.(link := d.link.(sizeBytes := b[..1], sizeInPhase := 1));
    var d2 := d.(link := d.link.(sizeBytes := b[..2], sizeInPhase := 2));
    var d3 := d.(link := d.link.(sizeBytes := b[..3], sizeInPhase := 3));
    assert b[..1] == [b[0]] && b[..2] == b[..1] + [b[1]] && b[..3] == b[..2] + [b[2]] && b == b[..3] + [b[3]];
    Quiet(cfg, d, b[0], d1, [b[1]] + ([b[2]] + ([b[3]] + s)));
    Quiet(cfg, d1, b[1], d2, [b[2]] + ([b[3]] + s));
    Quiet(cfg, d2, b[2], d3, [b[3]] + s);
    var n := FromBE32(b);
    Quiet(cfg, d3, b[3], if n == 0 then Device(INITIAL_LINK, d.install) else AtPayload(d.link.ty, n, d.install), s);
  }

  /** The 8 header bytes of a frame bring a ready device to the payload. */
  lemma HeaderRun(cfg: Inst.Config, d: Device, ty: nat, n: nat, s: seq<byte>)
    requires Ready(d) && ty < U16 && n < U32
    ensures Run(cfg, d, LEADINGS + BE16(ty) + BE32(n) + s) ==
            Run(cfg, if n == 0 then Device(INITIAL_LINK, d.install) else AtPayload(ty, n, d.install), s)
  {
    Stored32(n);
    hide Run, BE16, BE32, FromBE32;
    var rest := BE16(ty) + (BE32(n) + s);
    assert LEADINGS + BE16(ty) + BE32(n) + s == LEADINGS + rest;
    LeadingRun(cfg, d, rest);
    var e := d.(link := d.link.(phase := Type, payloadSize := 0, payload := None));
    TypeRun(cfg, e, ty, BE32(n) + s);
    SizeRun(cfg, e.(link := e.link.(phase := Size, ty := ty, sizeBytes := [])), BE32(n), s);
  }

  /** The rest of a payload that is not an install request. */
  lemma {:induction false} PayloadRun(cfg: Inst.Config, d: Device, q: seq<byte>, s: seq<byte>)
    requires d.link.phase.Payload? && d.link.ty != INSTALL_WASM_APP && d.link.payload == Some(q)
    requires d.link.sizeInPhase == |q| && |q| + |s| == d.link.payloadSize && s != []
    ensures var (l, events) := Handle(d.link.(phase := NonStart, payload := Some(q + s), sizeInPhase := d.link.payloadSize));
            Run(cfg, d, s) == Ran(Device(l, d.install), events)
    decreases |s|
  {
    hide Handle;
    var q' := q + [s[0]];
    if |s| == 1 {
      assert q + s == q' && s[1..] == [];
      assert Run(cfg, Step(cfg, d, s[0]).device, []) == Ran(Step(cfg, d, s[0]).device, []);
    } else {
      var e := d.(link := d.link.(payload := Some(q'), sizeInPhase := |q'|));
      assert Step(cfg, d, s[0]) == Stepped(e, [], None);
      PayloadRun(cfg, e, q', s[1..]);
      assert q' + s[1..] == q + s;
    }
  }

  /** The rest of a rejected install payload is skipped. */
  lemma {:induction false} IgnoreRun(cfg: Inst.Config, d: Device, s: seq<byte>)
    requires d.link.phase.Ignoring? && d.link.sizeInPhase + |s| == d.link.payloadSize && s != []
    ensures Run(cfg, d, s) == Ran(Device(INITIAL_LINK, d.install), [])
    decreases |s|
  {
    var e := d.(link := d.link.(sizeInPhase := d.link.sizeInPhase + 1));
    if |s| == 1 {
      assert s[1..] == [];
    } else {
      assert Step(cfg, d, s[0]) == Stepped(e, [], None);
      IgnoreRun(cfg, e, s[1..]);
    }
  }

  /** The install receiver is in step with the link: idle at the start, else it has counted the same bytes. */
  predicate InStep(d: Device) {
    if d.link.sizeInPhase == 0 then Inst.Idle(d.install)
    else !d.install.phase.ReqVer? && d.install.total == d.link.sizeInPhase
  }

  /** What the rest of an install payload leads to, given how the install receiver takes it. */
  ghost predicate InstallResult(f: InstallImage.Fed, r: Ran) {
    match f
    case Posted(install, rest) => rest == [] && Ready(r.device) && r.events == [Installed(install)]
    case Rejected(_) => Ready(r.device) && r.events == []
    case Waiting(c) => r == Ran(Device(INITIAL_LINK, c), []) && !c.phase.ReqVer?
    case Overran(_) => !r.device.install.phase.ReqVer? && r.events == []
  }

  lemma IdleFeed(cfg: Inst.Config, c: Inst.Ctx, s: seq<byte>, total: int)
    requires Inst.Idle(c) && s != []
    ensures InstallImage.Feed(cfg, c, s, total) == InstallImage.Feed(cfg, Inst.INITIAL, s, total)
  {
    Inst.IdleIsInitial(cfg, c, s[0], total);
  }

  lemma {:induction false} InstallRun(cfg: Inst.Config, d: Device, s: seq<byte>)
    requires d.link.phase.Payload? && d.link.ty == INSTALL_WASM_APP && d.link.payload.None? && InStep(d)
    requires d.link.sizeInPhase + |s| == d.link.payloadSize && s != []
    ensures InstallResult(InstallImage.Feed(cfg, d.install, s, d.link.payloadSize), Run(cfg, d, s))
    decreases |s|
  {
    var n := d.link.payloadSize;
    if InstallImage.Overruns(cfg, d.install) {
      Overfull(cfg, d.install);
      StuckRun(cfg, d, s);
    } else {
      var o := Inst.Step(cfg, d.install, s[0], n);
      Inst.StepKeeps(cfg, d.install, s[0], n);
      InstallStepRun(cfg, d, s);
      hide Inst.Step, Run, Step, InstallImage.Overruns;
      InstallImage.OneByte(cfg, d.install, s, n);
      if |s| > 1 {
        if o.ok {
          InstallRun(cfg, Device(d.link.(sizeInPhase := d.link.sizeInPhase + 1), o.ctx), s[1..]);
        } else {
          IgnoreRun(cfg, Device(d.link.(phase := Ignoring, sizeInPhase := d.link.sizeInPhase + 1), o.ctx), s[1..]);
        }
      }
    }
  }

  lemma Overfull(cfg: Inst.Config, c: Inst.Ctx)
    requires InstallImage.Overruns(cfg, c)
    ensures InstallImage.InBlock(c) && |c.partial| >= Inst.Width(c)
  {
  }

  /** Where the code would write behind a block, the model goes on collecting and never gets out of it. */
  lemma {:induction false} StuckRun(cfg: Inst.Config, d: Device, s: seq<byte>)
    requires d.link.phase.Payload? && d.link.ty == INSTALL_WASM_APP && d.link.payload.None? && InStep(d)
    requires d.link.sizeInPhase + |s| == d.link.payloadSize && s != []
    requires InstallImage.InBlock(d.install) && |d.install.partial| >= Inst.Width(d.install)
    ensures !Run(cfg, d, s).device.install.phase.ReqVer? && Run(cfg, d, s).events == []
    decreases |s|
  {
    var n := d.link.payloadSize;
    var o := Inst.Step(cfg, d.install, s[0], n);
    Inst.StepKeeps(cfg, d.install, s[0], n);
    InstallImage.StaysInBlock(cfg, d.install, s[0], n);
    InstallStepRun(cfg, d, s);
    hide Inst.Step, Run, Step, Inst.Width;
    if |s| > 1 {
      StuckRun(cfg, Device(d.link.(sizeInPhase := d.link.sizeInPhase + 1), o.ctx), s[1..]);
    }
  }

  /** One byte of an install payload, by the receiver's answer. */
  lemma InstallStepRun(cfg: Inst.Config, d: Device, s: seq<byte>)
    requires d.link.phase.Payload? && d.link.ty == INSTALL_WASM_APP && d.link.payload.None? && InStep(d)
    requires d.link.sizeInPhase + |s| == d.link.payloadSize && s != []
    requires Inst.Keeps(Inst.Counted(d.install), Inst.Step(cfg, d.install, s[0], d.link.payloadSize), d.link.payloadSize)
    ensures var o := Inst.Step(cfg, d.install, s[0], d.link.payloadSize);
            var r := Run(cfg, d, s);
            var l := d.link.(sizeInPhase := d.link.sizeInPhase + 1);
            if !o.ok then
              if |s| == 1 then r == Ran(Device(l.(phase := NonStart, sizeInPhase := 0), o.ctx), [])
              else r == Run(cfg, Device(l.(phase := Ignoring), o.ctx), s[1..])
            else
              if |s| == 1 then
                r == Ran(Device(INITIAL_LINK, o.ctx), if o.posted.Some? then [Installed(o.posted.value)] else [])
              else o.posted.None? && r == Run(cfg, Device(l, o.ctx), s[1..])
  {
    hide Inst.Step;
    assert |s| == 1 ==> s[1..] == [];
  }

  /** An install image that breaks off, or that has an empty URL or section. */
  predicate CutShort(cfg: Inst.Config, payload: seq<byte>) {
    InstallImage.ParseImage(cfg, payload).Truncated? || InstallImage.ParseImage(cfg, payload).Empty?
  }

  /** The frames the device recovers from: everything but requests that do not unpack and installs cut short. */
  predicate Clean(cfg: Inst.Config, m: Message) {
    m.payload == [] ||
    if m.ty == 4 then !CutShort(cfg, m.payload)
    else m.ty == 2 ==> UnpackedRequest(m.payload).Accepted?
  }

  /** What a frame amounts to. */
  function FrameEvents(cfg: Inst.Config, m: Message): seq<Event> {
    if m.payload == [] then []
    else if m.ty == 4 then
      var r := InstallImage.ParseImage(cfg, m.payload);
      if r.Read? then [Installed(r.value)] else []
    else if m.ty == 2 then
      var u := UnpackedRequest(m.payload);
      if u.Accepted? then [Dispatched(u.value.(sender := 4294967293))] else []
    else [Unexpected(m.ty)]
  }

  /** A frame produces its events, and the device is ready for the next one exactly when the frame was clean. */
  lemma FrameRun(cfg: Inst.Config, d: Device, m: Message)
    requires Ready(d) && Framable(m)
    ensures var r := Run(cfg, d, Frame(m));
            r.events == FrameEvents(cfg, m) && (Ready(r.device) <==> Clean(cfg, m))
  {
    hide Run, InstallImage.Feed, InstallImage.ParseImage, UnpackedRequest, BE16, BE32;
    HeaderRun(cfg, d, m.ty, |m.payload|, m.payload);
    var e := AtPayload(m.ty, |m.payload|, d.install);
    if m.payload == [] {
      RunNothing(cfg, Device(INITIAL_LINK, d.install));
    } else if m.ty == 4 {
      InstallRun(cfg, e, m.payload);
      IdleFeed(cfg, d.install, m.payload, |m.payload|);
      InstallAgreement.StreamingAgreesWithParser(cfg, m.payload);
    } else {
      PayloadRun(cfg, e, [], m.payload);
      assert [] + m.payload == m.payload;
    }
  }

  lemma RunNothing(cfg: Inst.Config, d: Device)
    ensures Run(cfg, d, []) == Ran(d, [])
  {
  }

  /** Bytes in which no frame starts: a first leading byte is followed by one that is not the second. */
  predicate Noise(s: seq<byte>) {
    if s == [] then true
    else if s[0] != 0x12 then Noise(s[1..])
    else |s| > 1 && s[1] != 0x34 && Noise(s[2..])
  }

  /** Bytes between frames are skipped unless they start a frame. */
  lemma {:induction false} NoiseRun(cfg: Inst.Config, d: Device, noise: seq<byte>)
    requires Ready(d) && Noise(noise)
    ensures var r := Run(cfg, d, noise); r.events == [] && Ready(r.device)
    decreases |noise|
  {
    hide Run;
    var e := d.(link := d.link.(payloadSize := 0, payload := None));
    if noise == [] {
      RunNothing(cfg, d);
    } else if noise[0] != 0x12 {
      assert noise == [noise[0]] + noise[1..];
      Quiet(cfg, d, noise[0], e, noise[1..]);
      NoiseRun(cfg, e, noise[1..]);
    } else {
      var l := e.(link := e.link.(phase := Leading));
      assert noise == [noise[0]] + ([noise[1]] + noise[2..]);
      Quiet(cfg, d, noise[0], l, [noise[1]] + noise[2..]);
      Quiet(cfg, l, noise[1], e, noise[2..]);
      NoiseRun(cfg, e, noise[2..]);
    }
  }

  // ---------- streams of frames ----------

  /** A frame and the noise before it. */
  datatype Item = Item(noise: seq<byte>, message: Message)

  function Stream(items: seq<Item>): seq<byte> {
    if items == [] then [] else items[0].noise + Frame(items[0].message) + Stream(items[1..])
  }

  function StreamEvents(cfg: Inst.Config, items: seq<Item>): seq<Event> {
    if items == [] then [] else FrameEvents(cfg, items[0].message) + StreamEvents(cfg, items[1..])
  }

  predicate GoodItem(cfg: Inst.Config, item: Item) {
    Noise(item.noise) && Framable(item.message) && Clean(cfg, item.message)
  }

  /** A stream of clean frames produces the events of its frames in order, whatever the noise between them. */
  lemma {:induction false} StreamRun(cfg: Inst.Config, d: Device, items: seq<Item>)
    requires Ready(d) && forall i :: i in items ==> GoodItem(cfg, i)
    ensures var r := Run(cfg, d, Stream(items));
            r.events == StreamEvents(cfg, items) && Ready(r.device)
    decreases |items|
  {
    hide Run, Clean, FrameEvents, Ready;
    if items == [] {
      RunNothing(cfg, d);
    } else {
      var i := items[0];
      assert GoodItem(cfg, i);
      var tail := Stream(items[1..]);
      assert Stream(items) == i.noise + (Frame(i.message) + tail);
      var e := Run(cfg, d, i.noise).device;
      NoiseRun(cfg, d, i.noise);
      RunSplit(cfg, d, i.noise, Frame(i.message) + tail);
      FrameRun(cfg, e, i.message);
      RunSplit(cfg, e, Frame(i.message), tail);
      StreamRun(cfg, Run(cfg, e, Frame(i.message)).device, items[1..]);
    }
  }

  /** A request and the noise before its frame. */
  datatype Sent = Sent(noise: seq<byte>, request: Request)

  function AsItems(sent: seq<Sent>): (items: seq<Item>)
    ensures |items| == |sent|
  {
    if sent == [] then []
    else [Item(sent[0].noise, Message(2, PackedRequest(sent[0].request)))] + AsItems(sent[1..])
  }

  function Dispatches(sent: seq<Sent>): seq<Event> {
    if sent == [] then [] else [Dispatched(sent[0].request.(sender := 4294967293))] + Dispatches(sent[1..])
  }

  predicate Sendable(s: Sent) {
    Noise(s.noise) && NulFree(s.request.url) && RequestFits(s.request) && |PackedRequest(s.request)| < 2147483648
  }

  lemma {:induction false} RequestItems(cfg: Inst.Config, sent: seq<Sent>)
    requires forall s :: s in sent ==> Sendable(s)
    ensures forall i :: i in AsItems(sent) ==> GoodItem(cfg, i)
    ensures StreamEvents(cfg, AsItems(sent)) == Dispatches(sent)
    decreases |sent|
  {
    if sent != [] {
      var x := sent[0];
      assert Sendable(x);
      UnpackInvertsPackRequest(x.request);
      PackedRequestShape(x.request, RequestHeader(x.request.action, x.request.fmt, x.request.mid, x.request.sender,
                                                  |x.request.url| + 1, |x.request.payload|));
      hide PackedRequest, UnpackedRequest, Sendable, RequestHeader;
      RequestItems(cfg, sent[1..]);
      var items := AsItems(sent);
      assert items[1..] == AsItems(sent[1..]);
      assert GoodItem(cfg, items[0]);
    }
  }

  /**
   Every list of packable requests, framed, separated by arbitrary bytes in which no frame
   starts and cut into arbitrary chunks, is dispatched: exactly those requests, in order,
   with the host as their sender.
   */
  lemma RequestsAreDispatched(cfg: Inst.Config, d: Device, sent: seq<Sent>, chunks: seq<seq<byte>>)
    requires Ready(d) && forall s :: s in sent ==> Sendable(s)
    requires Flatten(chunks) == Stream(AsItems(sent))
    ensures var r := RunChunks(cfg, d, chunks); r.events == Dispatches(sent) && Ready(r.device)
  {
    RequestItems(cfg, sent);
    ChunksDoNotMatter(cfg, d, chunks);
    StreamRun(cfg, d, AsItems(sent));
  }

  /**
   An install frame that the install receiver rejects, at whatever byte, takes exactly its
   declared length and leaves no trace: what follows is received as if the frame had not been there.
   */
  lemma RejectedInstallIsAbsent(cfg: Inst.Config, d: Device, payload: seq<byte>, rest: seq<byte>)
    requires Ready(d) && Framable(Message(4, payload))
    requires InstallImage.ParseImage(cfg, payload).Malformed?
    ensures var r := Run(cfg, d, Frame(Message(4, payload)) + rest);
            r.events == Run(cfg, d, rest).events && Canon(r.device) == Canon(Run(cfg, d, rest).device)
  {
    hide Run, InstallImage.ParseImage, Canon;
    var m := Message(4, payload);
    FrameRun(cfg, d, m);
    var e := Run(cfg, d, Frame(m)).device;
    RunSplit(cfg, d, Frame(m), rest);
    ReadyIsCanonicallyInitial(d);
    ReadyIsCanonicallyInitial(e);
    RunCanon(cfg, e, d, rest);
  }

  /** The shortest frame of the kind: an install request of its version byte only leaves the device mid-request. */
  lemma CutShortFrame(cfg: Inst.Config, d: Device)
    requires Ready(d)
    ensures !Ready(Run(cfg, d, Frame(Message(4, [1]))).device)
  {
    hide Run;
    FrameRun(cfg, d, Message(4, [1]));
  }

  /**
   The code as it stands: after a request that does not unpack the context is not cleared,
   and the frame behind it is misread. An empty frame of type 0 completes one byte early, as type 512.
   */
  lemma BadRequestMisleadsNextFrame(cfg: Inst.Config, payload: seq<byte>)
    requires payload != [] && Framable(Message(2, payload)) && !UnpackedRequest(payload).Accepted?
    ensures var d := Run(cfg, INITIAL, Frame(Message(2, payload))).device;
            !Ready(d) && Trace(cfg, d, Frame(Message(0, []))) ==
                         [None, None, None, None, None, None,
                          Some(Message(512, [])), None]
  {
    var m := Message(2, payload);
    IdleInitial();
    FrameRun(cfg, INITIAL, m);
    HeaderRun(cfg, INITIAL, 2, |payload|, payload);
    PayloadRun(cfg, AtPayload(2, |payload|, Inst.INITIAL), [], payload);
    assert [] + payload == payload;
    var l := Link(NonStart, 2, [], |payload|, Some(payload), |payload|);
    assert Run(cfg, INITIAL, Frame(m)).device == Device(l, Inst.INITIAL);
    StaleTrace(cfg, l);
  }

  lemma StaleTrace(cfg: Inst.Config, l: Link)
    requires l.phase.NonStart? && l.ty == 2 && l.sizeInPhase > 0
    ensures Trace(cfg, Device(l, Inst.INITIAL), Frame(Message(0, []))) ==
            [None, None, None, None, None, None, Some(Message(512, [])), None]
  {
    hide Trace;
    assert Frame(Message(0, [])) == [LEADING0, LEADING1, 0, 0, 0, 0, 0, 0];
    var d0 := Device(l, Inst.INITIAL);
    var d1 := d0.(link := l.(phase := Leading, payloadSize := 0, payload := None));
    var d2 := d1.(link := d1.link.(phase := Type));
    var d3 := d2.(link := d2.link.(phase := Size, ty := 512, sizeInPhase := 0, sizeBytes := []));
    TraceOne(cfg, d0, Frame(Message(0, [])), [LEADING1, 0, 0, 0, 0, 0, 0], Stepped(d1, [], None));
    TraceOne(cfg, d1, [LEADING1, 0, 0, 0, 0, 0, 0], [0, 0, 0, 0, 0, 0], Stepped(d2, [], None));
    TraceOne(cfg, d2, [0, 0, 0, 0, 0, 0], [0, 0, 0, 0, 0], Stepped(d3, [], None));
    ZeroSizeTrace(cfg, d3);
  }

  lemma ZeroSizeTrace(cfg: Inst.Config, d: Device)
    requires d.link.phase.Size? && d.link.sizeBytes == [] && d.link.sizeInPhase == 0
    ensures Trace(cfg, d, [0, 0, 0, 0, 0]) ==
            [None, None, None, Some(Message(d.link.ty, [])), None]
  {
    var d1 := d.(link := d.link.(sizeBytes := [0], sizeInPhase := 1));
    var d2 := d.(link := d.link.(sizeBytes := [0, 0], sizeInPhase := 2));
    var d3 := d.(link := d.link.(sizeBytes := [0, 0, 0], sizeInPhase := 3));
    var d4 := d.(link := INITIAL_LINK);
    ZeroSizeSteps(cfg, d, d1, d2, d3, d4);
    hide *;
    TraceOne(cfg, d, [0, 0, 0, 0, 0], [0, 0, 0, 0], Stepped(d1, [], None));
    TraceOne(cfg, d1, [0, 0, 0, 0], [0, 0, 0], Stepped(d2, [], None));
    TraceOne(cfg, d2, [0, 0, 0], [0, 0], Stepped(d3, [], None));
    TraceOne(cfg, d3, [0, 0], [0], Stepped(d4, [], Some(Message(d.link.ty, []))));
    TraceOne(cfg, d4, [0], [], Stepped(d4, [], None));
    TraceNothing(cfg, d4);
    Five(None, None, None, Some(Message(d.link.ty, [])), None);
  }

  lemma Five<T>(a: T, b: T, c: T, d: T, e: T)
    ensures [a] + ([b] + ([c] + ([d] + ([e] + [])))) == [a, b, c, d, e]
  {
  }

  lemma ZeroSizeSteps(cfg: Inst.Config, d: Device, d1: Device, d2: Device, d3: Device, d4: Device)
    requires d.link.phase.Size? && d.link.sizeBytes == [] && d.link.sizeInPhase == 0
    requires d1 == d.(link := d.link.(sizeBytes := [0], sizeInPhase := 1))
    requires d2 == d.(link := d.link.(sizeBytes := [0, 0], sizeInPhase := 2))
    requires d3 == d.(link := d.link.(sizeBytes := [0, 0, 0], sizeInPhase := 3)) && d4 == d.(link := INITIAL_LINK)
    ensures Step(cfg, d, 0) == Stepped(d1, [], None) && Step(cfg, d1, 0) == Stepped(d2, [], None)
    ensures Step(cfg, d2, 0) == Stepped(d3, [], None) && Step(cfg, d3, 0) == Stepped(d4, [], Some(Message(d.link.ty, [])))
    ensures Step(cfg, d4, 0) == Stepped(d4, [], None)
  {
    hide InstallByte, PayloadByte, IgnoredByte, TypeByte, UnpackedRequest;
  }

  lemma TraceNothing(cfg: Inst.Config, d: Device)
    ensures Trace(cfg, d, []) == []
  {
  }

  lemma TraceOne(cfg: Inst.Config, d: Device, s: seq<byte>, rest: seq<byte>, t: Stepped)
    requires s != [] && rest == s[1..] && Step(cfg, d, s[0]) == t
    ensures Trace(cfg, d, s) == [t.message] + Trace(cfg, t.device, rest)
  {
  }
}
