/**
 The host tool's receiver of the same link (test-tools/host-tool/src/transport.c), and the
 proof that it and the device's receiver complete the same messages at the same bytes.
 */
module LinkPeer {
  import opened Bytes
  import Inst = InstallState
  import opened RestfulUtils
  import opened LinkState
  import opened LinkRuns

  datatype HostPhase = HNonStart | HLeading | HType | HSize | HPayload

  /** `raw` holds the bytes of the integer being received; its length is then size_in_phase. */
  datatype Host = Host(phase: HostPhase, raw: seq<byte>, ty: nat, payloadSize: nat, payload: Option<seq<byte>>)

  const INITIAL_HOST := Host(HNonStart, [], 0, 0, None)

  /** The return codes: -1 invalid sync byte, 0 packet complete, 1 byte taken, 2 in the payload. */
  datatype HostStep = HostStep(host: Host, code: int)

  function HostSizeByte(h: Host, ch: byte): HostStep {
    var b := h.raw + [ch];
    if |b| != 4 then HostStep(h.(raw := b), 1)
    else if FromBE32(b) == 0 then HostStep(h.(phase := HNonStart, raw := [], payloadSize := 0, payload := None), 0)
    else HostStep(h.(phase := HPayload, raw := [], payloadSize := FromBE32(b), payload := Some([])), 1)
  }

  function HostPayloadByte(h: Host, ch: byte): HostStep {
    var q := (if h.payload.Some? then h.payload.value else []) + [ch];
    var k := h.(payload := Some(q));
    if |q| == h.payloadSize then HostStep(k.(phase := HNonStart, raw := []), 0) else HostStep(k, 2)
  }

  /** on_imrt_link_byte_arrive of the host tool. */
  function HostArrive(h: Host, ch: byte): HostStep {
    match h.phase
    case HNonStart =>
      var k := if h.payload.Some? then h.(payload := None, payloadSize := 0) else h;
      if ch == LEADING0 then HostStep(k.(phase := HLeading), 1) else HostStep(k, -1)
    case HLeading =>
      if ch == LEADING1 then HostStep(h.(phase := HType, raw := []), 1) else HostStep(h.(phase := HNonStart), -1)
    case HType =>
      var b := h.raw + [ch];
      if |b| == 2 then HostStep(h.(phase := HSize, raw := [], ty := FromBE16(b)), 1) else HostStep(h.(raw := b), 1)
    case HSize => HostSizeByte(h, ch)
    case HPayload => HostPayloadByte(h, ch)
  }

  function HostCompleted(s: HostStep): Option<Message> {
    if s.code == 0
    then Some(Message(s.host.ty, if s.host.payload.Some? then s.host.payload.value else []))
    else None
  }

  /** Which bytes completed which message at the host tool. */
  function HostTrace(h: Host, s: seq<byte>): (t: seq<Option<Message>>)
    ensures |t| == |s|
    decreases |s|
  {
    if s == [] then []
    else var t := HostArrive(h, s[0]); [HostCompleted(t)] + HostTrace(t.host, s[1..])
  }

  function HostRun(h: Host, s: seq<byte>): Host
    decreases |s|
  {
    if s == [] then h else HostRun(HostArrive(h, s[0]).host, s[1..])
  }

  // ---------- the two receivers agree ----------

  /** Both receivers are in the middle of the same install frame, whatever the device makes of its bytes. */
  predicate SameInstall(d: Device, h: Host) {
    && (d.link.phase.Payload? || d.link.phase.Ignoring?) && h.phase.HPayload? && h.payload.Some?
    && d.link.ty == h.ty == INSTALL_WASM_APP && d.link.payload.None?
    && d.link.payloadSize == h.payloadSize && d.link.sizeInPhase == |h.payload.value| < h.payloadSize
    && (d.link.phase.Payload? ==> InStep(d))
    && (d.link.phase.Ignoring? ==> Inst.Idle(d.install) && d.link.sizeInPhase > 0)
  }

  /** The two receivers are at the same point of the same frame. */
  predicate Same(d: Device, h: Host) {
    || SameInstall(d, h)
    || (Inst.Idle(d.install) &&
        match d.link.phase
        case NonStart => h.phase.HNonStart? && d.link.sizeInPhase == 0
        case Leading => h.phase.HLeading? && d.link.sizeInPhase == 0
        case Type => h.phase.HType? && d.link.sizeInPhase == |h.raw| < 2 && (|h.raw| == 1 ==> d.link.ty == h.raw[0])
        case Size => h.phase.HSize? && d.link.sizeBytes == h.raw && d.link.sizeInPhase == |h.raw| < 4 && d.link.ty == h.ty
        case Payload =>
          h.phase.HPayload? && d.link.ty == h.ty != INSTALL_WASM_APP && d.link.payload.Some? && h.payload == d.link.payload &&
          d.link.payloadSize == h.payloadSize && d.link.sizeInPhase == |h.payload.value| < h.payloadSize
        case Ignoring => false)
  }

  /** The messages the comparison is about: no install frame, requests that unpack, and sizes an `int` holds. */
  predicate Comparable(m: Message) {
    m.ty != 4 && |m.payload| < 2147483648 && (m.ty == 2 && m.payload != [] ==> UnpackedRequest(m.payload).Accepted?)
  }

  lemma SameInstallStep(cfg: Inst.Config, d: Device, h: Host, ch: byte)
    requires SameInstall(d, h)
    ensures var t, u := Step(cfg, d, ch), HostArrive(h, ch);
            if HostCompleted(u).Some? then HostCompleted(u).value.ty == INSTALL_WASM_APP
            else t.message.None? && SameInstall(t.device, u.host)
  {
    if d.link.phase.Payload? {
      Inst.StepKeeps(cfg, d.install, ch, d.link.payloadSize);
    }
    hide Inst.Step;
  }

  lemma SameStep(cfg: Inst.Config, d: Device, h: Host, ch: byte)
    requires Same(d, h)
    requires HostCompleted(HostArrive(h, ch)).Some? ==> Comparable(HostCompleted(HostArrive(h, ch)).value)
    ensures var t, u := Step(cfg, d, ch), HostArrive(h, ch);
            t.message == HostCompleted(u) && Same(t.device, u.host)
  {
    if SameInstall(d, h) {
      SameInstallStep(cfg, d, h, ch);
      hide *;
    } else {
      hide Inst.Step, UnpackedRequest, FromBE32;
    }
  }

  /** All frames of the stream are comparable, and what is left unfinished fits an `int`, too. */
  ghost predicate ComparableStream(h: Host, s: seq<byte>) {
    && (forall m :: Some(m) in HostTrace(h, s) ==> Comparable(m))
    && var p := HostRun(h, s).payload; p.Some? ==> |p.value| < 2147483648
  }

  lemma ComparableTail(h: Host, s: seq<byte>)
    requires ComparableStream(h, s) && s != []
    ensures var u := HostArrive(h, s[0]);
            ComparableStream(u.host, s[1..]) && (HostCompleted(u).Some? ==> Comparable(HostCompleted(u).value))
  {
    hide HostArrive, Comparable;
    var u := HostArrive(h, s[0]);
    var tail := HostTrace(u.host, s[1..]);
    assert HostTrace(h, s) == [HostCompleted(u)] + tail;
    assert HostTrace(h, s)[0] == HostCompleted(u);
    forall m | Some(m) in tail ensures Comparable(m) {
      assert Some(m) in HostTrace(h, s);
    }
  }

  /**
   On every byte stream, garbage included, whose completed frames are comparable, the device
   completes exactly the messages the host tool completes, with the same bytes.
   */
  lemma {:induction false} ReceiversAgree(cfg: Inst.Config, d: Device, h: Host, s: seq<byte>)
    requires Same(d, h) && ComparableStream(h, s)
    ensures Trace(cfg, d, s) == HostTrace(h, s)
    decreases |s|
  {
    hide Step, HostArrive, Same, ComparableStream, Comparable;
    if s != [] {
      ComparableTail(h, s);
      SameStep(cfg, d, h, s[0]);
      ReceiversAgree(cfg, Step(cfg, d, s[0]).device, HostArrive(h, s[0]).host, s[1..]);
    }
  }

  /** Where the device stands after the first `k` bytes, no `int` that counts bytes has overflowed. */
  lemma {:induction false} CountersFit(cfg: Inst.Config, d: Device, h: Host, s: seq<byte>, k: nat)
    requires Same(d, h) && ComparableStream(h, s) && k <= |s|
    ensures var e := Run(cfg, d, s[..k]).device;
            e.link.sizeInPhase < 2147483648 && (Inst.Idle(e.install) || e.install.total < 2147483648)
    decreases k
  {
    if k == 0 {
      PendingFits(h, s);
    } else {
      ComparableTail(h, s);
      SameStep(cfg, d, h, s[0]);
      hide Step, HostArrive, Same, ComparableStream, Comparable;
      assert s[..k][1..] == s[1..][..k - 1];
      CountersFit(cfg, Step(cfg, d, s[0]).device, HostArrive(h, s[0]).host, s[1..], k - 1);
    }
  }

  /** A payload only grows until it is completed, so it fits all along. */
  lemma {:induction false} PendingFits(h: Host, s: seq<byte>)
    requires ComparableStream(h, s)
    ensures h.phase.HPayload? && h.payload.Some? ==> |h.payload.value| < 2147483648
    decreases |s|
  {
    if s != [] {
      ComparableTail(h, s);
      hide ComparableStream;
      PendingFits(HostArrive(h, s[0]).host, s[1..]);
    }
  }

  /** So do two receivers that have just been reset. */
  lemma ReceiversAgreeFromTheStart(cfg: Inst.Config, s: seq<byte>)
    requires ComparableStream(INITIAL_HOST, s)
    ensures Trace(cfg, INITIAL, s) == HostTrace(INITIAL_HOST, s)
  {
    ReceiversAgree(cfg, INITIAL, INITIAL_HOST, s);
  }

  // ---------- the host tool inverts the device's framing ----------

  function Nones(n: nat): (t: seq<Option<Message>>)
    ensures |t| == n
  {
    seq(n, _ => None)
  }

  lemma HostOne(h: Host, s: seq<byte>, rest: seq<byte>, u: HostStep)
    requires s != [] && rest == s[1..] && HostArrive(h, s[0]) == u
    ensures HostTrace(h, s) == [HostCompleted(u)] + HostTrace(u.host, rest)
  {
  }

  /** A byte that completes nothing, in front of others. */
  lemma HostQuiet(h: Host, s: seq<byte>, rest: seq<byte>, k: Host, n: nat, more: seq<Option<Message>>)
    requires s != [] && rest == s[1..] && HostArrive(h, s[0]).host == k && HostArrive(h, s[0]).code != 0
    requires HostTrace(k, rest) == Nones(n) + more
    ensures HostTrace(h, s) == Nones(n + 1) + more
  {
    hide HostArrive;
    HostOne(h, s, rest, HostArrive(h, s[0]));
    assert [None] + Nones(n) == Nones(n + 1);
  }

  /** From the first payload byte on: the message completes with its last byte. */
  lemma {:induction false} HostPayloadTrace(h: Host, q: seq<byte>, s: seq<byte>, rest: seq<byte>)
    requires h.phase.HPayload? && h.payload == Some(q) && h.raw == []
    requires |q| + |s| == h.payloadSize && s != []
    ensures var k := h.(phase := HNonStart, payload := Some(q + s));
            HostTrace(h, s + rest) == Nones(|s| - 1) + ([Some(Message(h.ty, q + s))] + HostTrace(k, rest))
    decreases |s|
  {
    var k := h.(phase := HNonStart, payload := Some(q + s));
    assert (s + rest)[1..] == s[1..] + rest;
    if |s| == 1 {
      assert q + s == q + [s[0]] && s[1..] + rest == rest;
      HostOne(h, s + rest, rest, HostStep(k, 0));
      assert Nones(0) + ([Some(Message(h.ty, q + s))] + HostTrace(k, rest)) ==
             [Some(Message(h.ty, q + s))] + HostTrace(k, rest);
    } else {
      var g := h.(payload := Some(q + [s[0]]));
      assert q + [s[0]] + s[1..] == q + s;
      HostPayloadTrace(g, q + [s[0]], s[1..], rest);
      HostQuiet(h, s + rest, s[1..] + rest, g, |s| - 2, [Some(Message(h.ty, q + s))] + HostTrace(k, rest));
    }
  }

  /** From the length field on. */
  lemma HostSizeTrace(h: Host, payload: seq<byte>, rest: seq<byte>) returns (k: Host)
    requires h.phase.HSize? && h.raw == [] && |payload| < U32
    ensures k.phase.HNonStart?
    ensures HostTrace(h, BE32(|payload|) + payload + rest) ==
            Nones(3 + |payload|) + ([Some(Message(h.ty, payload))] + HostTrace(k, rest))
  {
    var b := BE32(|payload|);
    Stored32(|payload|);
    var s := b + payload + rest;
    var tail := payload + rest;
    hide BE32, FromBE32, HostTrace;
    assert b[..1] == [b[0]] && b[..2] == b[..1] + [b[1]] && b[..3] == b[..2] + [b[2]] && b == b[..3] + [b[3]];
    var h1, h2, h3 := h.(raw := b[..1]), h.(raw := b[..2]), h.(raw := b[..3]);
    var more;
    k, more := HostSizeEnd(h, h3, b, payload, rest, s[3..]);
    HostQuiet(h2, s[2..], s[3..], h3, |payload|, more);
    HostQuiet(h1, s[1..], s[2..], h2, |payload| + 1, more);
    HostQuiet(h, s, s[1..], h1, |payload| + 2, more);
  }

  /** The last byte of the length field, and the payload if there is one. */
  lemma HostSizeEnd(h: Host, h3: Host, b: seq<byte>, payload: seq<byte>, rest: seq<byte>, s: seq<byte>)
    returns (k: Host, more: seq<Option<Message>>)
    requires h.phase.HSize? && |b| == 4 && h3 == h.(raw := b[..3]) && FromBE32(b) == |payload|
    requires s == [b[3]] + (payload + rest)
    ensures k.phase.HNonStart? && more == [Some(Message(h.ty, payload))] + HostTrace(k, rest)
    ensures HostTrace(h3, s) == Nones(|payload|) + more
  {
    hide FromBE32, HostTrace;
    assert b == b[..3] + [b[3]];
    if payload == [] {
      k := h.(phase := HNonStart, raw := [], payloadSize := 0, payload := None);
      more := [Some(Message(h.ty, payload))] + HostTrace(k, rest);
      assert payload + rest == rest;
      HostOne(h3, s, rest, HostStep(k, 0));
      assert Nones(0) + more == more;
    } else {
      var p := h.(phase := HPayload, raw := [], payloadSize := |payload|, payload := Some([]));
      assert [] + payload == payload;
      k := p.(phase := HNonStart, payload := Some(payload));
      more := [Some(Message(h.ty, payload))] + HostTrace(k, rest);
      HostPayloadTrace(p, [], payload, rest);
      HostQuiet(h3, s, payload + rest, p, |payload| - 1, more);
    }
  }

  /** The host tool completes a frame with its last byte, with the type and payload that were framed. */
  lemma HostFrameTrace(h: Host, m: Message, rest: seq<byte>) returns (k: Host)
    requires h.phase.HNonStart? && Framable(m)
    ensures k.phase.HNonStart?
    ensures HostTrace(h, Frame(m) + rest) == Nones(|Frame(m)| - 1) + ([Some(m)] + HostTrace(k, rest))
  {
    hide HostTrace, BE32, FromBE32;
    var b := BE16(m.ty);
    Stored16(m.ty);
    var s := Frame(m) + rest;
    var tail := BE32(|m.payload|) + m.payload + rest;
    assert s == [LEADING0, LEADING1, b[0], b[1]] + tail;
    var h1 := (if h.payload.Some? then h.(payload := None, payloadSize := 0) else h).(phase := HLeading);
    var h2 := h1.(phase := HType, raw := []);
    var h3 := h2.(raw := [b[0]]);
    var h4 := h2.(phase := HSize, raw := [], ty := m.ty);
    k := HostSizeTrace(h4, m.payload, rest);
    var more := [Some(m)] + HostTrace(k, rest);
    assert [b[0]] + [b[1]] == b;
    HostQuiet(h3, s[3..], tail, h4, 3 + |m.payload|, more);
    HostQuiet(h2, s[2..], s[3..], h3, 4 + |m.payload|, more);
    HostQuiet(h1, s[1..], s[2..], h2, 5 + |m.payload|, more);
    HostQuiet(h, s, s[1..], h1, 6 + |m.payload|, more);
    assert |Frame(m)| == 8 + |m.payload|;
  }

  /** The messages of a trace, in order. */
  function Messages(t: seq<Option<Message>>): seq<Message> {
    if t == [] then [] else (if t[0].Some? then [t[0].value] else []) + Messages(t[1..])
  }

  lemma {:induction false} MessagesAfterNones(n: nat, t: seq<Option<Message>>)
    ensures Messages(Nones(n) + t) == Messages(t)
  {
    if n == 0 {
      assert Nones(0) + t == t;
    } else {
      assert (Nones(n) + t)[1..] == Nones(n - 1) + t;
      MessagesAfterNones(n - 1, t);
    }
  }

  lemma {:induction false} HostNoiseTrace(h: Host, noise: seq<byte>, rest: seq<byte>) returns (k: Host)
    requires h.phase.HNonStart? && Noise(noise)
    ensures k.phase.HNonStart? && HostTrace(h, noise + rest) == Nones(|noise|) + HostTrace(k, rest)
    decreases |noise|
  {
    hide HostTrace;
    var g := if h.payload.Some? then h.(payload := None, payloadSize := 0) else h;
    if noise == [] {
      k := h;
      assert noise + rest == rest && Nones(0) + HostTrace(h, rest) == HostTrace(h, rest);
    } else if noise[0] != 0x12 {
      assert (noise + rest)[1..] == noise[1..] + rest;
      k := HostNoiseTrace(g, noise[1..], rest);
      HostQuiet(h, noise + rest, noise[1..] + rest, g, |noise| - 1, HostTrace(k, rest));
    } else {
      var l := g.(phase := HLeading);
      assert (noise + rest)[1..] == noise[1..] + rest && (noise[1..] + rest)[1..] == noise[2..] + rest;
      k := HostNoiseTrace(g, noise[2..], rest);
      HostQuiet(l, noise[1..] + rest, noise[2..] + rest, g, |noise| - 2, HostTrace(k, rest));
      HostQuiet(h, noise + rest, noise[1..] + rest, l, |noise| - 1, HostTrace(k, rest));
    }
  }

  lemma FrameLength(m: Message)
    ensures |Frame(m)| == 8 + |m.payload|
  {
  }

  function StreamMessages(items: seq<Item>): seq<Message> {
    if items == [] then [] else [items[0].message] + StreamMessages(items[1..])
  }

  /** The host tool receives exactly the messages the device framed, in order, whatever noise is between them. */
  lemma {:induction false} HostInvertsFraming(h: Host, items: seq<Item>)
    requires h.phase.HNonStart?
    requires forall i :: i in items ==> Noise(i.noise) && Framable(i.message)
    ensures Messages(HostTrace(h, Stream(items))) == StreamMessages(items)
    decreases |items|
  {
    hide Frame;
    if items != [] {
      var i, tail := items[0], Stream(items[1..]);
      assert Stream(items) == i.noise + (Frame(i.message) + tail);
      var k := HostNoiseTrace(h, i.noise, Frame(i.message) + tail);
      var g := HostFrameTrace(k, i.message, tail);
      FrameLength(i.message);
      MessagesAfterNones(|i.noise|, HostTrace(k, Frame(i.message) + tail));
      MessagesAfterNones(|Frame(i.message)| - 1, [Some(i.message)] + HostTrace(g, tail));
      HostInvertsFraming(g, items[1..]);
      assert ([Some(i.message)] + HostTrace(g, tail))[1..] == HostTrace(g, tail);
    }
  }
}
