/**
 The frames of the link byte by byte, what is dispatched with which numbers, and the return codes
 of the host tool (app-mgr/app-manager/app_manager_host.c, test-tools/host-tool/src/transport.c).
 */
module LinkLaws {
  import opened Bytes
  import InstallImage
  import Inst = InstallState
  import opened LinkPeer
  import opened LinkRuns
  import opened LinkState
  import opened PacketLaws
  import opened RestfulUtils

  /** Two leading bytes, two bytes of type, four bytes of length, payload. */
  lemma FrameBytes(m: Message)
    requires m.ty < 65536
    ensures var f := Frame(m);
            && |f| == 8 + |m.payload| && f[0] == 0x12 && f[1] == 0x34 && f[2] == m.ty / 256 && f[3] == m.ty % 256
            && BigEndianAt(f, 4, |m.payload|) && f[8..] == m.payload
  {
    var f := Frame(m);
    FrameParts(m);
    hide BE16, BE32, Frame, BigEndianAt;
    FourBytes(f, 4, |m.payload|);
  }

  lemma FrameParts(m: Message)
    requires m.ty < 65536
    ensures var f := Frame(m);
            && |f| == 8 + |m.payload| && f[0] == 0x12 && f[1] == 0x34 && f[2] == m.ty / 256 && f[3] == m.ty % 256
            && f[4..8] == BE32(|m.payload|) && f[8..] == m.payload
  {
    hide BE32;
  }

  /** A frame of type 2 is dispatched with the sender -3 in 32 bits; one of type 4 goes to the installer; the device tells of any other. */
  lemma WhatFramesDo(cfg: Inst.Config, d: Device, m: Message)
    requires Ready(d) && m.ty < 65536 && 0 < |m.payload| < 2147483648
    ensures var events := Run(cfg, d, Frame(m)).events;
            && (m.ty == 2 && UnpackedRequest(m.payload).Accepted? ==>
                 events == [Dispatched(UnpackedRequest(m.payload).value.(sender := 4294967293))])
            && (m.ty == 2 && !UnpackedRequest(m.payload).Accepted? ==> events == [])
            && (m.ty == 4 ==> forall e :: e in events ==> e.Installed?)
            && (m.ty != 2 && m.ty != 4 ==> events == [Unexpected(m.ty)])
  {
    hide Run, Frame, Ready, UnpackedRequest, InstallImage.ParseImage;
    FrameRun(cfg, d, m);
  }

  /**
   The host tool returns -1 for a wrong leading byte, 0 for the last byte of a message, 2 for any other
   byte of a payload and 1 for any other byte.
   */
  lemma HostCodes(h: Host, ch: byte)
    requires |h.raw| < 4 && (h.phase.HPayload? ==> h.payload.Some? && |h.payload.value| < h.payloadSize)
    ensures var code := HostArrive(h, ch).code;
            match h.phase
            case HNonStart => code == if ch == 0x12 then 1 else -1
            case HLeading => code == if ch == 0x34 then 1 else -1
            case HType => code == 1
            case HSize => code == if h.raw + [ch] == [0, 0, 0, 0] then 0 else 1
            case HPayload => code == if |h.payload.value| + 1 == h.payloadSize then 0 else 2
  {
    if h.phase.HSize? && |h.raw| == 3 {
      ZeroSize(h.raw + [ch]);
    }
  }

  lemma ZeroSize(b: seq<byte>)
    requires |b| == 4
    ensures FromBE32(b) == 0 <==> b == [0, 0, 0, 0]
  {
    ReadFour(b, 0);
    assert b[0..4] == b;
  }
}
