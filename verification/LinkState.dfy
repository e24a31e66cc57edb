/**
 The IMRT link: frames of two leading bytes, a 16-bit type, a 32-bit payload length (both
 big-endian) and the payload. This module has the device's receiver as a transition function
 (app-mgr/app-manager/app_manager_host.c), together with what its callback does with a
 complete message.
 */
module LinkState {
  import opened Bytes
  import Inst = InstallState
  import opened RestfulUtils

  const LEADING0: byte := 0x12
  const LEADING1: byte := 0x34
  const REQUEST_PACKET := 2
  const INSTALL_WASM_APP := 4

  /** The sender a dispatched request gets; the low 32 bits of -3. */
  const ID_HOST := 0xFFFF_FFFD

  datatype Phase = NonStart | Leading | Type | Size | Payload | Ignoring

  /** `sizeBytes` are the bytes of the length field received so far; a null payload is None. */
  datatype Link = Link(phase: Phase, ty: nat, sizeBytes: seq<byte>, payloadSize: nat,
                       payload: Option<seq<byte>>, sizeInPhase: nat)

  /** The receive context after memset to zero. */
  const INITIAL_LINK := Link(NonStart, 0, [], 0, None, 0)

  /** The receive contexts of the link and of the install receiver it feeds. */
  datatype Device = Device(link: Link, install: Inst.Ctx)

  const INITIAL := Device(INITIAL_LINK, Inst.INITIAL)

  /** Result of a byte: the return code 1 or 0, and a request posted by the install receiver. */
  datatype Arrival = Arrival(device: Device, complete: bool, posted: Option<Inst.Install>)

  function Incomplete(l: Link, install: Inst.Ctx): Arrival { Arrival(Device(l, install), false, None) }

  /**
   The second type byte is or-ed above the first and the bytes are swapped. The high byte of
   the stored type is 0 whenever this runs: it holds the first type byte or a request type.
   */
  function JoinType(stored: nat, ch: byte): nat { (stored % 256) * 256 + ch }

  function TypeByte(l: Link, ch: byte): Link {
    if l.sizeInPhase == 0 then l.(ty := ch, sizeInPhase := 1)
    else l.(ty := JoinType(l.ty, ch), phase := Size, sizeInPhase := 0, sizeBytes := [])
  }

  /** A byte of the length field; a message without payload is complete with the last one. */
  function SizeByte(l: Link, ch: byte): (Link, bool) {
    var b := l.sizeBytes + [ch];
    if |b| != 4 then (l.(sizeBytes := b, sizeInPhase := l.sizeInPhase + 1), false)
    else
      var size := FromBE32(b);
      var m := l.(sizeBytes := [], payloadSize := size, payload := None);
      if size == 0 then (m.(phase := NonStart, sizeInPhase := 4), true)
      else (m.(phase := Payload, sizeInPhase := 0,
               payload := if l.ty != INSTALL_WASM_APP then Some([]) else None), false)
  }

  /** A payload byte of an install message goes to the install receiver. */
  function InstallByte(cfg: Inst.Config, d: Device, ch: byte): Arrival {
    var l := d.link.(sizeInPhase := d.link.sizeInPhase + 1);
    var o := Inst.Step(cfg, d.install, ch, l.payloadSize);
    if !o.ok then
      if l.sizeInPhase < l.payloadSize then Incomplete(l.(phase := Ignoring), o.ctx)
      else Incomplete(l.(phase := NonStart, sizeInPhase := 0), o.ctx)
    else if Inst.Counted(d.install).total == l.payloadSize
    then Arrival(Device(l.(phase := NonStart), o.ctx), true, o.posted)
    else Arrival(Device(l, o.ctx), false, o.posted)
  }

  function PayloadByte(l: Link, ch: byte): (Link, bool)
    requires l.payload.Some?
  {
    var m := l.(payload := Some(l.payload.value + [ch]), sizeInPhase := l.sizeInPhase + 1);
    if m.sizeInPhase == m.payloadSize then (m.(phase := NonStart), true) else (m, false)
  }

  function IgnoredByte(l: Link): Link {
    if l.sizeInPhase + 1 == l.payloadSize then INITIAL_LINK else l.(sizeInPhase := l.sizeInPhase + 1)
  }

  /** on_imrt_link_byte_arrive of the device. */
  function Arrive(cfg: Inst.Config, d: Device, ch: byte): Arrival {
    var l := d.link;
    match l.phase
    case NonStart =>
      var m := l.(payloadSize := 0, payload := None);
      Incomplete(if ch == LEADING0 then m.(phase := Leading) else m, d.install)
    case Leading => Incomplete(l.(phase := if ch == LEADING1 then Type else NonStart), d.install)
    case Type => Incomplete(TypeByte(l, ch), d.install)
    case Size => var (m, complete) := SizeByte(l, ch); Arrival(Device(m, d.install), complete, None)
    case Payload =>
      if l.ty == INSTALL_WASM_APP || l.payload.None? then InstallByte(cfg, d, ch)
      else var (m, complete) := PayloadByte(l, ch); Arrival(Device(m, d.install), complete, None)
    case Ignoring => Incomplete(IgnoredByte(l), d.install)
  }

  datatype Event =
    | Dispatched(request: Request)
    | Unexpected(ty: nat)
    | Installed(install: Inst.Install)

  /** The message in a context that has just completed. */
  datatype Message = Message(ty: nat, payload: seq<byte>)

  function Completed(l: Link): Message { Message(l.ty, if l.payload.Some? then l.payload.value else []) }

  /** What the callback does with a complete message: dispatch it, and clear the context unless unpacking fails. */
  function Handle(l: Link): (Link, seq<Event>) {
    if l.payload.None? then (INITIAL_LINK, [])
    else if l.ty != REQUEST_PACKET then (INITIAL_LINK, [Unexpected(l.ty)])
    else
      var u := UnpackedRequest(l.payload.value);
      if u.Accepted? then (INITIAL_LINK, [Dispatched(u.value.(sender := ID_HOST))]) else (l, [])
  }

  /** One byte through the callback: the next state, the events, and the message it completed. */
  datatype Stepped = Stepped(device: Device, events: seq<Event>, message: Option<Message>)

  function Step(cfg: Inst.Config, d: Device, ch: byte): Stepped {
    var a := Arrive(cfg, d, ch);
    var installed := if a.posted.Some? then [Installed(a.posted.value)] else [];
    if a.complete then
      var (l, events) := Handle(a.device.link);
      Stepped(a.device.(link := l), installed + events, Some(Completed(a.device.link)))
    else Stepped(a.device, installed, None)
  }

  /** The whole callback loop. */
  datatype Ran = Ran(device: Device, events: seq<Event>)

  function Run(cfg: Inst.Config, d: Device, s: seq<byte>): Ran
    decreases |s|
  {
    if s == [] then Ran(d, [])
    else
      var t := Step(cfg, d, s[0]);
      var r := Run(cfg, t.device, s[1..]);
      Ran(r.device, t.events + r.events)
  }

  /** Which bytes completed which message. */
  function Trace(cfg: Inst.Config, d: Device, s: seq<byte>): (t: seq<Option<Message>>)
    ensures |t| == |s|
    decreases |s|
  {
    if s == [] then []
    else var t := Step(cfg, d, s[0]); [t.message] + Trace(cfg, t.device, s[1..])
  }

  /** Between frames; whatever else the contexts hold is overwritten before it is used. */
  predicate Ready(d: Device) {
    d.link.phase.NonStart? && d.link.sizeInPhase == 0 && Inst.Idle(d.install)
  }

  // ---------- frames ----------

  const LEADINGS: seq<byte> := [LEADING0, LEADING1]

  /** A frame as it travels: the framing of app_manager_host_send_msg. */
  function Frame(m: Message): seq<byte> {
    [0x12, 0x34] + BE16(m.ty) + BE32(|m.payload|) + m.payload
  }

  /** The type has 16 bits; the size is an `int`, at the sender as well as in the receivers' counters. */
  predicate Framable(m: Message) { m.ty < 65536 && |m.payload| < 2147483648 }

  /** Processing in two pieces is processing the whole, so the cut into callbacks does not matter. */
  lemma {:induction false} RunSplit(cfg: Inst.Config, d: Device, a: seq<byte>, b: seq<byte>)
    ensures var r := Run(cfg, d, a);
            var q := Run(cfg, r.device, b);
            Run(cfg, d, a + b) == Ran(q.device, r.events + q.events)
    decreases |a|
  {
    hide Step;
    if a == [] {
      assert a + b == b;
    } else {
      var t := Step(cfg, d, a[0]);
      assert (a + b)[1..] == a[1..] + b;
      RunSplit(cfg, t.device, a[1..], b);
    }
  }

  function Flatten(chunks: seq<seq<byte>>): seq<byte> {
    if chunks == [] then [] else chunks[0] + Flatten(chunks[1..])
  }

  /** One callback per chunk. */
  function RunChunks(cfg: Inst.Config, d: Device, chunks: seq<seq<byte>>): Ran
    decreases |chunks|
  {
    if chunks == [] then Ran(d, [])
    else
      var r := Run(cfg, d, chunks[0]);
      var q := RunChunks(cfg, r.device, chunks[1..]);
      Ran(q.device, r.events + q.events)
  }

  lemma {:induction false} ChunksDoNotMatter(cfg: Inst.Config, d: Device, chunks: seq<seq<byte>>)
    ensures RunChunks(cfg, d, chunks) == Run(cfg, d, Flatten(chunks))
    decreases |chunks|
  {
    if chunks != [] {
      RunSplit(cfg, d, chunks[0], Flatten(chunks[1..]));
      ChunksDoNotMatter(cfg, Run(cfg, d, chunks[0]).device, chunks[1..]);
    }
  }
}
