/**
 The device end of the link in its own form: a receive context updated in place, a payload
 block filled byte by byte, and the sender (app-mgr/app-manager/app_manager_host.c).
 */
module HostLink {
  import opened Bytes
  import Inst = InstallState
  import opened InstallReceiver
  import opened RestfulUtils
  import opened LinkState
  import Memory

  class LinkReceiver {
    const install: Receiver
    var phase: Phase
    var ty: nat
    var sizeBytes: seq<byte>
    var payloadSize: nat
    var payload: array?<byte>
    var sizeInPhase: nat
    /** What the callback has done so far: requests dispatched, messages refused, installs posted. */
    var events: seq<Event>

    ghost function Footprint(): set<object>
      reads this
    {
      {this, install} + if payload == null then {} else {payload}
    }

    /** A payload block has the announced size, and there is room in it while the payload is received. */
    ghost predicate Valid()
      reads this, payload
    {
      payload != null ==>
        payload.Length == payloadSize && sizeInPhase <= payloadSize && phase in {NonStart, Payload} &&
        (phase == Payload ==> sizeInPhase < payloadSize && ty != INSTALL_WASM_APP)
    }

    ghost function LinkPart(): Link
      requires Valid()
      reads this, payload
    {
      Link(phase, ty, sizeBytes, payloadSize,
           if payload == null then None else Some(payload[..sizeInPhase]), sizeInPhase)
    }

    ghost function State(): Device
      requires Valid()
      reads this, payload, install
    {
      Device(LinkPart(), install.State())
    }

    constructor (cfg: Inst.Config)
      ensures Valid() && fresh(Footprint()) && install.cfg == cfg && State() == INITIAL && events == []
    {
      install := new Receiver(cfg);
      phase, ty, sizeBytes, payloadSize, payload, sizeInPhase, events := NonStart, 0, [], 0, null, 0, [];
    }

    /** memset of the receive context to zero. */
    method Clear()
      modifies this
      ensures Valid() && LinkPart() == INITIAL_LINK && payload == null && events == old(events)
    {
      phase, ty, sizeBytes, payloadSize, payload, sizeInPhase := NonStart, 0, [], 0, null, 0;
    }

    /** Leading bytes, type and length. */
    method OnHeadByte(ch: byte) returns (complete: bool)
      requires Valid() && phase in {NonStart, Leading, Type, Size}
      modifies this
      ensures Valid() && events == old(events) && (payload != null ==> fresh(payload))
      ensures var a := Arrive(install.cfg, old(State()), ch);
              LinkPart() == a.device.link && install.State() == a.device.install && complete == a.complete && a.posted.None?
    {
      complete := false;
      if phase == NonStart {
        payloadSize, payload := 0, null;
        if ch == LEADING0 {
          phase := Leading;
        }
      } else if phase == Leading {
        phase := if ch == LEADING1 then Type else NonStart;
      } else if phase == Type {
        if sizeInPhase == 0 {
          ty, sizeInPhase := ch, 1;
        } else {
          ty := JoinType(ty, ch);
          phase, sizeInPhase, sizeBytes := Size, 0, [];
        }
      } else {
        complete := OnSizeByte(ch);
      }
    }

    method OnSizeByte(ch: byte) returns (complete: bool)
      requires Valid() && phase == Size
      modifies this
      ensures Valid() && events == old(events) && (payload != null ==> fresh(payload))
      ensures (LinkPart(), complete) == SizeByte(old(LinkPart()), ch)
    {
      hide FromBE32;
      sizeBytes, sizeInPhase := sizeBytes + [ch], sizeInPhase + 1;
      if |sizeBytes| != 4 {
        return false;
      }
      payloadSize, sizeBytes, payload := FromBE32(sizeBytes), [], null;
      if payloadSize == 0 {
        phase, sizeInPhase := NonStart, 4;
        return true;
      }
      phase, sizeInPhase := Payload, 0;
      if ty != INSTALL_WASM_APP {
        payload := new byte[payloadSize];
      }
      return false;
    }

    /** A payload byte for the install receiver. */
    method OnInstallByte(ch: byte) returns (complete: bool)
      requires Valid() && phase == Payload && payload == null
      modifies this, install
      ensures Valid() && payload == null
      ensures var a := InstallByte(install.cfg, old(State()), ch);
              State() == a.device && complete == a.complete &&
              events == old(events) + (if a.posted.Some? then [Installed(a.posted.value)] else [])
    {
      hide Inst.Step;
      Inst.PostedIsOk(install.cfg, install.State(), ch, payloadSize);
      sizeInPhase := sizeInPhase + 1;
      var posted := |install.queue|;
      var ok, received := install.OnByteArrive(ch, payloadSize);
      if |install.queue| > posted {
        events := events + [Installed(install.queue[posted])];
      }
      complete := false;
      if ok {
        if received == payloadSize {
          phase := NonStart;
          complete := true;
        }
      } else if sizeInPhase < payloadSize {
        phase := Ignoring;
      } else {
        phase, sizeInPhase := NonStart, 0;
      }
    }

    /** A byte stored into the payload block. */
    method OnPayloadByte(ch: byte) returns (complete: bool)
      requires Valid() && phase == Payload && payload != null
      modifies this, payload
      ensures Valid() && payload == old(payload) && events == old(events)
      ensures old(LinkPart()).payload.Some? && (LinkPart(), complete) == PayloadByte(old(LinkPart()), ch)
    {
      ghost var before := payload[..sizeInPhase];
      payload[sizeInPhase] := ch;
      sizeInPhase := sizeInPhase + 1;
      assert payload[..sizeInPhase] == before + [ch];
      complete := sizeInPhase == payloadSize;
      if complete {
        phase := NonStart;
      }
    }

    /** on_imrt_link_byte_arrive. */
    method OnByteArrive(ch: byte) returns (complete: bool)
      requires Valid()
      modifies Footprint()
      ensures Valid() && fresh(Footprint() - old(Footprint()))
      ensures var a := Arrive(install.cfg, old(State()), ch);
              State() == a.device && complete == a.complete &&
              events == old(events) + (if a.posted.Some? then [Installed(a.posted.value)] else [])
    {
      hide InstallByte, PayloadByte, SizeByte, TypeByte;
      if phase in {NonStart, Leading, Type, Size} {
        complete := OnHeadByte(ch);
      } else if phase == Payload && payload == null {
        complete := OnInstallByte(ch);
      } else if phase == Payload {
        complete := OnPayloadByte(ch);
      } else {
        complete := false;
        sizeInPhase := sizeInPhase + 1;
        if sizeInPhase == payloadSize {
          Clear();
        }
      }
    }

    /** What the callback does with a complete message. */
    method OnMessage()
      requires Valid() && (payload != null ==> sizeInPhase == payloadSize)
      modifies this
      ensures Valid() && (payload == null || payload == old(payload)) && install.State() == old(install.State())
      ensures var (l, es) := Handle(old(LinkPart()));
              LinkPart() == l && events == old(events) + es
    {
      hide UnpackedRequest;
      if payload != null {
        if ty == REQUEST_PACKET {
          var u := UnpackedRequest(payload[..]);
          assert payload[..] == payload[..sizeInPhase];
          if !u.Accepted? {
            return;
          }
          events := events + [Dispatched(u.value.(sender := ID_HOST))];
        } else {
          events := events + [Unexpected(ty)];
        }
      }
      Clear();
    }

    /** One byte through the callback. */
    method OnByte(ch: byte)
      requires Valid()
      modifies Footprint()
      ensures Valid() && fresh(Footprint() - old(Footprint()))
      ensures var t := Step(install.cfg, old(State()), ch);
              State() == t.device && events == old(events) + t.events
    {
      hide Arrive, Handle;
      ghost var d := State();
      var complete := OnByteArrive(ch);
      if complete {
        CompleteIsFull(install.cfg, ch, d);
        OnMessage();
      }
    }

    /** aee_host_msg_callback: every byte of the chunk, handling each message as it completes. */
    method HostMsgCallback(msg: seq<byte>)
      requires Valid()
      modifies Footprint()
      ensures Valid() && fresh(Footprint() - old(Footprint()))
      ensures var r := Run(install.cfg, old(State()), msg);
              State() == r.device && events == old(events) + r.events
    {
      hide Step, Run;
      ghost var d0, e0 := State(), events;
      var p := 0;
      assert msg[0..] == msg;
      while p < |msg|
        invariant 0 <= p <= |msg| && Valid() && fresh(Footprint() - old(Footprint()))
        invariant var r, q := Run(install.cfg, d0, msg), Run(install.cfg, State(), msg[p..]);
                  r.device == q.device && e0 + r.events == events + q.events
      {
        ghost var d, e := State(), events;
        OnByte(msg[p]);
        RunStep(install.cfg, d, msg, p, State(), e, events);
        p := p + 1;
      }
      assert msg[p..] == [];
      RunEnd(install.cfg, State());
    }
  }

  lemma CompleteIsFull(cfg: Inst.Config, ch: byte, d: Device)
    requires d.link.phase.Payload? && d.link.payload.Some? ==> d.link.ty != INSTALL_WASM_APP
    ensures var a := Arrive(cfg, d, ch);
            a.complete && a.device.link.payload.Some? ==> a.device.link.sizeInPhase == a.device.link.payloadSize
  {
    hide Inst.Step;
  }

  lemma RunEnd(cfg: Inst.Config, d: Device)
    ensures Run(cfg, d, []) == Ran(d, [])
  {
  }

  /** The callback loop by one byte. */
  lemma RunStep(cfg: Inst.Config, d: Device, msg: seq<byte>, p: nat, next: Device, e: seq<Event>, events: seq<Event>)
    requires p < |msg| && next == Step(cfg, d, msg[p]).device && events == e + Step(cfg, d, msg[p]).events
    ensures var q, q' := Run(cfg, d, msg[p..]), Run(cfg, next, msg[p + 1..]);
            q.device == q'.device && e + q.events == events + q'.events
  {
    hide Step;
    assert msg[p..][1..] == msg[p + 1..];
  }

  /** The wire towards the host: what the send callbacks have been given. */
  class Sender {
    var wire: seq<byte>

    constructor ()
      ensures wire == []
    {
      wire := [];
    }

    /**
     app_manager_host_send_msg: an 8-byte header, then the payload unless the header did not
     go out whole. `headerSent` is how much of the header the transport takes.
     */
    method SendMsg(m: Message, headerSent: nat) returns (sent: nat)
      requires Framable(m) && headerSent <= 8
      modifies this
      ensures headerSent == 8 ==> wire == old(wire) + Frame(m) && sent == |m.payload|
      ensures headerSent < 8 ==> wire == old(wire) + Frame(m)[..headerSent] && sent == 0
    {
      var header := new byte[16];
      Memory.CopyInto(header, 0, LEADINGS);
      Memory.CopyInto(header, 2, BE16(m.ty));
      Memory.CopyInto(header, 4, BE32(|m.payload|));
      hide BE16, BE32;
      assert header[..8] == LEADINGS + BE16(m.ty) + BE32(|m.payload|);
      assert Frame(m) == header[..8] + m.payload;
      wire := wire + header[..headerSent];
      if headerSent != 8 {
        return 0;
      }
      wire := wire + m.payload;
      return |m.payload|;
    }
  }
}
