/**
 The host tool's receiver in its own form: the context is updated in place and the payload
 is stored byte by byte into a block (test-tools/host-tool/src/transport.c).
 */
module Transport {
  import opened Bytes
  import opened LinkState
  import opened LinkPeer

  class HostReceiver {
    var phase: HostPhase
    var sizeInPhase: nat
    /** The bytes of the integer being received. */
    var raw: seq<byte>
    var ty: nat
    var payloadSize: nat
    var payload: array?<byte>

    ghost function Footprint(): set<object>
      reads this
    {
      {this} + if payload == null then {} else {payload}
    }

    ghost predicate Valid()
      reads this, payload
    {
      && (payload != null ==>
            payload.Length == payloadSize && phase in {HNonStart, HPayload} &&
            (phase == HPayload ==> sizeInPhase < payloadSize))
      && (phase == HPayload ==> payload != null && raw == [])
      && (phase in {HType, HSize} ==> sizeInPhase == |raw|)
    }

    ghost function State(): Host
      requires Valid()
      reads this, payload
    {
      Host(phase, raw, ty, payloadSize,
           if payload == null then None
           else if phase == HPayload then Some(payload[..sizeInPhase]) else Some(payload[..]))
    }

    constructor ()
      ensures Valid() && fresh(Footprint()) && State() == INITIAL_HOST
    {
      phase, sizeInPhase, raw, ty, payloadSize, payload := HNonStart, 0, [], 0, 0, null;
    }

    /** The SET_RECV_PHASE macro. */
    method SetPhase(p: HostPhase)
      modifies this`phase, this`sizeInPhase, this`raw
      ensures phase == p && sizeInPhase == 0 && raw == []
    {
      phase, sizeInPhase, raw := p, 0, [];
    }

    /** on_imrt_link_byte_arrive. */
    method OnByteArrive(ch: byte) returns (code: int)
      requires Valid()
      modifies Footprint()
      ensures Valid() && fresh(Footprint() - old(Footprint()))
      ensures HostStep(State(), code) == HostArrive(old(State()), ch)
    {
      hide FromBE16, FromBE32;
      if phase == HNonStart {
        if payload != null {
          payload, payloadSize := null, 0;
        }
        if ch != LEADING0 {
          return -1;
        }
        phase := HLeading;
      } else if phase == HLeading {
        if ch != LEADING1 {
          phase := HNonStart;
          return -1;
        }
        SetPhase(HType);
      } else if phase == HType {
        raw, sizeInPhase := raw + [ch], sizeInPhase + 1;
        if sizeInPhase == 2 {
          ty := FromBE16(raw);
          SetPhase(HSize);
        }
      } else if phase == HSize {
        raw, sizeInPhase := raw + [ch], sizeInPhase + 1;
        if sizeInPhase == 4 {
          payloadSize, payload := FromBE32(raw), null;
          if payloadSize == 0 {
            SetPhase(HNonStart);
            return 0;
          }
          payload := new byte[payloadSize];
          SetPhase(HPayload);
        }
      } else {
        ghost var before := payload[..sizeInPhase];
        payload[sizeInPhase] := ch;
        sizeInPhase := sizeInPhase + 1;
        assert payload[..sizeInPhase] == before + [ch];
        if sizeInPhase == payloadSize {
          assert payload[..] == payload[..sizeInPhase];
          SetPhase(HNonStart);
          return 0;
        }
        return 2;
      }
      return 1;
    }
  }
}
