/**
 Request and response packets (app-framework/app-native-shared/restful_utils.c).
 */
module RestfulUtils {
  import opened Bytes
  import Memory

  // ---------- packets ----------

  const VERSION: byte := 1
  const REQUEST_FIX_PART_LEN := 18
  const RESPONSE_FIX_PART_LEN := 16

  /** A request; an empty payload stands for a null payload pointer of length 0. */
  datatype Request = Request(mid: int, url: seq<byte>, action: int, fmt: int, payload: seq<byte>, sender: int)

  datatype Response = Response(mid: int, status: int, fmt: int, payload: seq<byte>, receiver: int)

  /** Overread: the unpacker reads past the end of the packet it was given. */
  datatype Unpacked<T> = Accepted(value: T) | Rejected | Overread

  function RequestHeader(action: int, fmt: int, mid: int, sender: int, urlLen: int, payloadLen: int): (h: seq<byte>)
    ensures |h| == REQUEST_FIX_PART_LEN
  {
    [VERSION, action % 256] + BE16(fmt) + BE32(mid) + BE32(sender) + BE16(urlLen) + BE32(payloadLen)
  }

  /** The bytes of a packed request: header, URL with its terminator, payload. */
  function PackedRequest(r: Request): seq<byte> {
    RequestHeader(r.action, r.fmt, r.mid, r.sender, |r.url| + 1, |r.payload|) + r.url + [0] + r.payload
  }

  function ResponseHeader(status: int, fmt: int, mid: int, receiver: int, payloadLen: int): (h: seq<byte>)
    ensures |h| == RESPONSE_FIX_PART_LEN
  {
    [VERSION, status % 256] + BE16(fmt) + BE32(mid) + BE32(receiver) + BE32(payloadLen)
  }

  function PackedResponse(r: Response): seq<byte> {
    ResponseHeader(r.status, r.fmt, r.mid, r.receiver, |r.payload|) + r.payload
  }

  /** The fields fit the widths the packet gives them. */
  predicate RequestFits(r: Request) {
    && 0 <= r.action < 256 && 0 <= r.fmt < 65536
    && 0 <= r.mid < 4294967296 && 0 <= r.sender < 4294967296
    && |r.url| + 1 < 65536
  }

  predicate ResponseFits(r: Response) {
    && 0 <= r.status < 256 && 0 <= r.fmt < 65536
    && 0 <= r.mid < 4294967296 && 0 <= r.receiver < 4294967296
  }

  /** The 12 bytes both packets begin with: version, code, format, message id and peer. */
  method FillWords(p: array<byte>, code: byte, fmt: int, mid: int, peer: int)
    requires p.Length >= 12
    modifies p
    ensures p[..12] == [VERSION, code] + BE16(fmt) + BE32(mid) + BE32(peer)
  {
    hide BE16, BE32;
    p[0], p[1] := VERSION, code;
    assert p[..2] == [VERSION, code];
    Memory.CopyInto(p, 2, BE16(fmt));
    Memory.CopyInto(p, 4, BE32(mid));
    assert p[..8] == [VERSION, code] + BE16(fmt) + BE32(mid);
    Memory.CopyInto(p, 8, BE32(peer));
  }

  /** pack_request: fills a fresh block field by field; null when the block cannot be gotMemory. */
  method PackRequest(r: Request, gotMemory: bool) returns (packet: array?<byte>)
    requires NulFree(r.url) && REQUEST_FIX_PART_LEN + |r.url| + 1 + |r.payload| <= INT_MAX
    ensures gotMemory <==> packet != null
    ensures packet != null ==> fresh(packet) && packet[..] == PackedRequest(r)
  {
    if !gotMemory {
      return null;
    }
    var urlLen := |r.url| + 1;
    var p := new byte[REQUEST_FIX_PART_LEN + urlLen + |r.payload|];
    FillWords(p, r.action % 256, r.fmt, r.mid, r.sender);
    hide BE16, BE32;
    Memory.CopyInto(p, 12, BE16(urlLen));
    Memory.CopyInto(p, 14, BE32(|r.payload|));
    assert p[..18] == RequestHeader(r.action, r.fmt, r.mid, r.sender, urlLen, |r.payload|);
    Memory.CopyInto(p, 18, r.url + [0]);
    assert p[..18 + urlLen] == RequestHeader(r.action, r.fmt, r.mid, r.sender, urlLen, |r.payload|) + r.url + [0];
    Memory.CopyInto(p, 18 + urlLen, r.payload);
    return p;
  }

  /** pack_response. */
  method PackResponse(r: Response, gotMemory: bool) returns (packet: array?<byte>)
    requires RESPONSE_FIX_PART_LEN + |r.payload| <= INT_MAX
    ensures gotMemory <==> packet != null
    ensures packet != null ==> fresh(packet) && packet[..] == PackedResponse(r)
  {
    if !gotMemory {
      return null;
    }
    var p := new byte[RESPONSE_FIX_PART_LEN + |r.payload|];
    FillWords(p, r.status % 256, r.fmt, r.mid, r.receiver);
    hide BE16, BE32;
    Memory.CopyInto(p, 12, BE32(|r.payload|));
    assert p[..16] == ResponseHeader(r.status, r.fmt, r.mid, r.receiver, |r.payload|);
    Memory.CopyInto(p, 16, r.payload);
    return p;
  }

  function UrlLength(p: seq<byte>): (n: nat)
    requires |p| >= REQUEST_FIX_PART_LEN
    ensures n < U16
  {
    FromBE16(p[12..14])
  }

  function PayloadLength(p: seq<byte>): (n: nat)
    requires |p| >= REQUEST_FIX_PART_LEN
    ensures n < U32
  {
    FromBE32(p[14..18])
  }

  /**
   unpack_request. The size is an `int`, negative for a packet above INT_MAX bytes; it is compared
   in 32-bit unsigned arithmetic, and the first byte is read before it is looked at.
   */
  function UnpackedRequest(p: seq<byte>): Unpacked<Request> {
    if p == [] then Overread
    else if p[0] != VERSION || !(REQUEST_FIX_PART_LEN <= |p| <= INT_MAX) then Rejected
    else if |p| != (REQUEST_FIX_PART_LEN + UrlLength(p) + PayloadLength(p)) % U32 then Rejected
    else if REQUEST_FIX_PART_LEN + UrlLength(p) - 1 >= |p| then Overread
    else if p[REQUEST_FIX_PART_LEN + UrlLength(p) - 1] != 0 then Rejected
    else Accepted(Request(
      FromBE32(p[4..8]), CString(p[18..]), p[1], FromBE16(p[2..4]), p[18 + UrlLength(p)..], FromBE32(p[8..12])))
  }

  /** unpack_response. */
  function UnpackedResponse(p: seq<byte>): Unpacked<Response> {
    if p == [] then Overread
    else if p[0] != VERSION || !(RESPONSE_FIX_PART_LEN <= |p| <= INT_MAX) then Rejected
    else if |p| != (RESPONSE_FIX_PART_LEN + FromBE32(p[12..16])) % U32 then Rejected
    else Accepted(Response(FromBE32(p[4..8]), p[1], FromBE16(p[2..4]), p[16..], FromBE32(p[8..12])))
  }

  lemma HeaderFields(h: seq<byte>, rest: seq<byte>, action: int, fmt: int, mid: int, sender: int, urlLen: int, payloadLen: int)
    requires h == RequestHeader(action, fmt, mid, sender, urlLen, payloadLen)
    ensures var p := h + rest;
            p[0] == VERSION && p[1] == action % 256 && FromBE16(p[2..4]) == fmt % U16 &&
            FromBE32(p[4..8]) == mid % U32 && FromBE32(p[8..12]) == sender % U32 &&
            UrlLength(p) == urlLen % U16 && PayloadLength(p) == payloadLen % U32 && p[18..] == rest
  {
    var p := h + rest;
    assert p[2..4] == BE16(fmt) && p[4..8] == BE32(mid) && p[8..12] == BE32(sender);
    assert p[12..14] == BE16(urlLen) && p[14..18] == BE32(payloadLen);
    Stored16(fmt);
    Stored32(mid);
    Stored32(sender);
    Stored16(urlLen);
    Stored32(payloadLen);
  }

  lemma PackedRequestShape(r: Request, h: seq<byte>)
    requires h == RequestHeader(r.action, r.fmt, r.mid, r.sender, |r.url| + 1, |r.payload|)
    ensures var p := PackedRequest(r);
            |p| == 18 + |r.url| + 1 + |r.payload| && p == h + (r.url + [0] + r.payload) &&
            p[18 + |r.url|] == 0 && p[18 + |r.url| + 1..] == r.payload
  {
  }

  lemma PackedRequestFields(r: Request)
    requires NulFree(r.url) && |r.payload| < U32
    ensures var p := PackedRequest(r);
            |p| == 18 + |r.url| + 1 + |r.payload| && p[0] == VERSION && p[1] == r.action % 256 &&
            FromBE16(p[2..4]) == r.fmt % U16 && FromBE32(p[4..8]) == r.mid % U32 &&
            FromBE32(p[8..12]) == r.sender % U32 &&
            UrlLength(p) == (|r.url| + 1) % U16 && PayloadLength(p) == |r.payload| &&
            CString(p[18..]) == r.url && p[18 + |r.url|] == 0 && p[18 + |r.url| + 1..] == r.payload
  {
    hide RequestHeader, PackedRequest, UrlLength, PayloadLength, FromBE16, FromBE32, CString;
    var h := RequestHeader(r.action, r.fmt, r.mid, r.sender, |r.url| + 1, |r.payload|);
    PackedRequestShape(r, h);
    HeaderFields(h, r.url + [0] + r.payload, r.action, r.fmt, r.mid, r.sender, |r.url| + 1, |r.payload|);
    CStringOfTerminated(r.url, r.payload);
  }

  /** Accepting depends only on the header fields, the terminator and the size. */
  lemma UnpackByFields(p: seq<byte>, urlLen: nat, payloadLen: nat)
    requires REQUEST_FIX_PART_LEN <= |p| <= INT_MAX && p[0] == VERSION
    requires UrlLength(p) == urlLen && PayloadLength(p) == payloadLen
    ensures 18 + urlLen + payloadLen < |p| ==> UnpackedRequest(p) == Rejected
    ensures 18 + urlLen + payloadLen == |p| && p[17 + urlLen] == 0 ==>
      UnpackedRequest(p) == Accepted(Request(
        FromBE32(p[4..8]), CString(p[18..]), p[1], FromBE16(p[2..4]), p[18 + urlLen..], FromBE32(p[8..12])))
  {
  }

  /** Unpacking a packed request gives the request back exactly when its fields fit their widths. */
  lemma UnpackInvertsPackRequest(r: Request)
    requires NulFree(r.url) && |PackedRequest(r)| <= INT_MAX
    ensures UnpackedRequest(PackedRequest(r)) == Accepted(r) <==> RequestFits(r)
  {
    hide RequestHeader, PackedRequest, UrlLength, PayloadLength, UnpackedRequest, RequestFits, FromBE16, FromBE32, CString;
    PackedRequestSize(r);
    PackedRequestFields(r);
    RequestFitsWidths(r);
    UnpackByFields(PackedRequest(r), (|r.url| + 1) % U16, |r.payload|);
  }

  lemma PackedRequestSize(r: Request)
    ensures |PackedRequest(r)| == 18 + |r.url| + 1 + |r.payload|
  {
    hide RequestHeader;
  }

  lemma RequestFitsWidths(r: Request)
    ensures RequestFits(r) <==>
            (|r.url| + 1) % U16 == |r.url| + 1 &&
            Request(r.mid % U32, r.url, r.action % 256, r.fmt % U16, r.payload, r.sender % U32) == r
  {
  }

  lemma PackedResponseFields(r: Response)
    requires |PackedResponse(r)| <= INT_MAX
    ensures var p := PackedResponse(r);
            |p| == 16 + |r.payload| && p[0] == VERSION && p[1] == r.status % 256 &&
            FromBE16(p[2..4]) == r.fmt % U16 && FromBE32(p[4..8]) == r.mid % U32 &&
            FromBE32(p[8..12]) == r.receiver % U32 && FromBE32(p[12..16]) == |r.payload| && p[16..] == r.payload
  {
    PackedResponseSlices(r);
    Stored16(r.fmt);
    Stored32(r.mid);
    Stored32(r.receiver);
    Stored32(|r.payload|);
    hide PackedResponse, BE16, BE32, FromBE16, FromBE32;
  }

  lemma PackedResponseSlices(r: Response)
    ensures var p := PackedResponse(r);
            |p| == 16 + |r.payload| && p[0] == VERSION && p[1] == r.status % 256 &&
            p[2..4] == BE16(r.fmt) && p[4..8] == BE32(r.mid) && p[8..12] == BE32(r.receiver) &&
            p[12..16] == BE32(|r.payload|) && p[16..] == r.payload
  {
    hide BE16, BE32;
  }

  lemma UnpackInvertsPackResponse(r: Response)
    requires |PackedResponse(r)| <= INT_MAX
    ensures UnpackedResponse(PackedResponse(r)) == Accepted(r) <==> ResponseFits(r)
  {
    PackedResponseFields(r);
    UnpackResponseByFields(PackedResponse(r));
    hide *;
    var p := PackedResponse(r);
    var u := UnpackedResponse(p);
    assert u == Accepted(Response(r.mid % U32, r.status % 256, r.fmt % U16, r.payload, r.receiver % U32));
    ResponseFitsWidths(r);
  }

  lemma ResponseFitsWidths(r: Response)
    ensures Response(r.mid % U32, r.status % 256, r.fmt % U16, r.payload, r.receiver % U32) == r <==> ResponseFits(r)
  {
  }

  lemma UnpackResponseByFields(p: seq<byte>)
    requires RESPONSE_FIX_PART_LEN <= |p| <= INT_MAX && p[0] == VERSION && |p| == 16 + FromBE32(p[12..16])
    ensures UnpackedResponse(p) ==
      Accepted(Response(FromBE32(p[4..8]), p[1], FromBE16(p[2..4]), p[16..], FromBE32(p[8..12])))
  {
    hide FromBE16, FromBE32;
  }

  /**
   Repacking an accepted packet reproduces it byte for byte exactly when its URL field
   is non-empty and has its only NUL at the end.
   */
  lemma RepackAcceptedRequest(p: seq<byte>)
    requires UnpackedRequest(p).Accepted?
    ensures PackedRequest(UnpackedRequest(p).value) == p <==> |CString(p[18..])| + 1 == UrlLength(p)
  {
    AcceptedFields(p);
    var r := UnpackedRequest(p).value;
    hide UnpackedRequest, RequestHeader, UrlLength, PayloadLength, CString;
    var url := CString(p[18..]);
    if |url| + 1 == UrlLength(p) {
      assert p[18..18 + |url|] == p[18..][..|url|] == url;
      assert p == p[..18] + p[18..18 + |url|] + [p[17 + UrlLength(p)]] + p[18 + UrlLength(p)..];
    } else {
      assert |PackedRequest(r)| == 18 + |url| + 1 + |r.payload| != |p|;
    }
  }

  /** The header of an accepted packet is the header of the request it is accepted as. */
  lemma AcceptedFields(p: seq<byte>)
    requires UnpackedRequest(p).Accepted?
    ensures var r, n := UnpackedRequest(p).value, UrlLength(p);
            |p| == 18 + n + |r.payload| && r.url == CString(p[18..]) && p[17 + n] == 0 && r.payload == p[18 + n..] &&
            RequestHeader(r.action, r.fmt, r.mid, r.sender, n, |r.payload|) == p[..18]
  {
    assert |p| == 18 + UrlLength(p) + PayloadLength(p);
    HeaderRebuilt(p);
    hide RequestHeader, BE16, BE32, FromBE16, FromBE32, CString;
  }

  /** Writing the header fields of a packet gives its header. */
  lemma HeaderRebuilt(p: seq<byte>)
    requires |p| >= REQUEST_FIX_PART_LEN && p[0] == VERSION
    ensures RequestHeader(p[1], FromBE16(p[2..4]), FromBE32(p[4..8]), FromBE32(p[8..12]), FromBE16(p[12..14]), FromBE32(p[14..18]))
            == p[..18]
  {
    Reread16(p[2..4]);
    Reread32(p[4..8]);
    Reread32(p[8..12]);
    Reread16(p[12..14]);
    Reread32(p[14..18]);
    hide BE16, BE32, FromBE16, FromBE32;
    HeaderSlices(p);
  }

  lemma HeaderSlices(p: seq<byte>)
    requires |p| >= REQUEST_FIX_PART_LEN
    ensures [p[0], p[1]] + p[2..4] + p[4..8] + p[8..12] + p[12..14] + p[14..18] == p[..18]
  {
    assert [p[0], p[1]] == p[..2] && p[..2] + p[2..4] == p[..4] && p[..4] + p[4..8] == p[..8] && p[..8] + p[8..12] == p[..12];
    assert p[..12] + p[12..14] == p[..14] && p[..14] + p[14..18] == p[..18];
  }

  lemma ResponseHeaderRebuilt(p: seq<byte>)
    requires |p| >= RESPONSE_FIX_PART_LEN && p[0] == VERSION
    ensures ResponseHeader(p[1], FromBE16(p[2..4]), FromBE32(p[4..8]), FromBE32(p[8..12]), FromBE32(p[12..16])) == p[..16]
  {
    Reread16(p[2..4]);
    Reread32(p[4..8]);
    Reread32(p[8..12]);
    Reread32(p[12..16]);
    hide BE16, BE32, FromBE16, FromBE32;
    assert [p[0], p[1]] == p[..2] && p[..2] + p[2..4] == p[..4] && p[..4] + p[4..8] == p[..8] && p[..8] + p[8..12] == p[..12];
    assert p[..12] + p[12..16] == p[..16];
  }

  /** An accepted response always repacks to the same bytes. */
  lemma RepackAcceptedResponse(p: seq<byte>)
    requires UnpackedResponse(p).Accepted?
    ensures PackedResponse(UnpackedResponse(p).value) == p
  {
    assert |p| == 16 + FromBE32(p[12..16]);
    ResponseHeaderRebuilt(p);
    hide ResponseHeader, FromBE16, FromBE32;
    assert p == p[..16] + p[16..];
  }

  /**
   The unpacker leaves its packet in exactly two cases: the packet is empty, or the
   announced URL is longer than what follows the header and the announced payload
   length makes the sum wrap around to the packet size.
   */
  lemma RequestOverreads(p: seq<byte>)
    ensures UnpackedRequest(p).Overread? <==>
            p == [] ||
            (REQUEST_FIX_PART_LEN <= |p| <= INT_MAX && p[0] == VERSION && REQUEST_FIX_PART_LEN + UrlLength(p) > |p| &&
             REQUEST_FIX_PART_LEN + UrlLength(p) + PayloadLength(p) == |p| + U32)
  {
    if REQUEST_FIX_PART_LEN <= |p| <= INT_MAX {
      var sum := REQUEST_FIX_PART_LEN + UrlLength(p) + PayloadLength(p);
      assert sum < 2 * U32;
      if |p| == sum % U32 {
        assert sum == |p| || sum == |p| + U32;
      }
    }
  }

  /**
   The URL of an accepted request ends inside its packet if and only if the URL field is not
   empty or some later byte happens to be NUL; else the URL pointer runs out of the packet.
   */
  lemma UrlEndsInside(p: seq<byte>)
    requires UnpackedRequest(p).Accepted?
    ensures REQUEST_FIX_PART_LEN + |UnpackedRequest(p).value.url| < |p| <==> UrlLength(p) > 0 || 0 in p[18..]
  {
    AcceptedFields(p);
    EndsAtNul(p[18..]);
    hide UnpackedRequest, RequestHeader, UrlLength, CString;
    var n := UrlLength(p);
    if n > 0 {
      assert p[18..][n - 1] == 0;
    }
  }

  /** A header alone reaches outside in both ways: with lengths that wrap around, and with an empty URL. */
  lemma OutsideExamples()
    ensures UnpackedRequest(RequestHeader(1, 0, 0, 0, 5, U32 - 5)).Overread?
    ensures var u := UnpackedRequest(RequestHeader(1, 0, 0, 0, 0, 0)); u.Accepted? && u.value.url == []
  {
    BareHeader(5, U32 - 5);
    BareHeader(0, 0);
    hide RequestHeader, UrlLength, PayloadLength, FromBE16, FromBE32, BE16, BE32;
    UnpackByFields(RequestHeader(1, 0, 0, 0, 0, 0), 0, 0);
  }

  /** A packet of a header only. */
  lemma BareHeader(urlLen: nat, payloadLen: nat)
    requires urlLen < U16 && payloadLen < U32
    ensures var p := RequestHeader(1, 0, 0, 0, urlLen, payloadLen);
            p[0] == VERSION && UrlLength(p) == urlLen && PayloadLength(p) == payloadLen && p[17] == payloadLen % 256
  {
    var p := RequestHeader(1, 0, 0, 0, urlLen, payloadLen);
    HeaderFields(p, [], 1, 0, 0, 0, urlLen, payloadLen);
    assert p + [] == p;
  }

  lemma {:induction false} EndsAtNul(s: seq<byte>)
    ensures |CString(s)| < |s| <==> 0 in s
  {
    if s != [] {
      EndsAtNul(s[1..]);
      assert s == [s[0]] + s[1..];
    }
  }
}
