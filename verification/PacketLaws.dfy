/**
 The packets of requests and responses byte by byte, and exactly which bytes are accepted
 (app-framework/app-native-shared/restful_utils.c).
 */
module PacketLaws {
  import opened Bytes
  import opened RestfulUtils

  /** The four bytes from `i` on are a value, most significant first. */
  predicate BigEndianAt(p: seq<byte>, i: nat, v: int) {
    && i + 4 <= |p|
    && p[i] == v / 16777216 % 256 && p[i + 1] == v / 65536 % 256 && p[i + 2] == v / 256 % 256 && p[i + 3] == v % 256
  }

  lemma FourBytes(p: seq<byte>, i: nat, v: int)
    requires i + 4 <= |p| && p[i..i + 4] == BE32(v)
    ensures BigEndianAt(p, i, v)
  {
    assert p[i] == p[i..i + 4][0] && p[i + 1] == p[i..i + 4][1] && p[i + 2] == p[i..i + 4][2] && p[i + 3] == p[i..i + 4][3];
    HighBytes(v);
  }

  lemma HighBytes(v: int)
    ensures v / 65536 / 256 == v / 16777216
  {
    var q := v / 16777216;
    assert v == 65536 * (v / 65536) + v % 65536;
    assert v / 65536 == 256 * (v / 65536 / 256) + v / 65536 % 256;
  }

  lemma RequestBytes(r: Request)
    ensures var p, n := PackedRequest(r), |r.url|;
            && |p| == 19 + n + |r.payload| && p[0] == 1 && p[1] == r.action % 256
            && p[2] == r.fmt / 256 % 256 && p[3] == r.fmt % 256
            && BigEndianAt(p, 4, r.mid) && BigEndianAt(p, 8, r.sender)
            && p[12] == (n + 1) / 256 % 256 && p[13] == (n + 1) % 256 && BigEndianAt(p, 14, |r.payload|)
            && p[18..18 + n] == r.url && p[18 + n] == 0 && p[19 + n..] == r.payload
  {
    var p := PackedRequest(r);
    RequestParts(r);
    FourBytes(p, 4, r.mid);
    FourBytes(p, 8, r.sender);
    FourBytes(p, 14, |r.payload|);
    hide BigEndianAt, BE32, RequestHeader, PackedRequest;
  }

  lemma RequestParts(r: Request)
    ensures var p, n := PackedRequest(r), |r.url|;
            && |p| == 19 + n + |r.payload| && p[0] == 1 && p[1] == r.action % 256
            && p[2] == r.fmt / 256 % 256 && p[3] == r.fmt % 256 && p[4..8] == BE32(r.mid) && p[8..12] == BE32(r.sender)
            && p[12] == (n + 1) / 256 % 256 && p[13] == (n + 1) % 256 && p[14..18] == BE32(|r.payload|)
            && p[18..18 + n] == r.url && p[18 + n] == 0 && p[19 + n..] == r.payload
  {
    hide BE32;
  }

  lemma ResponseBytes(r: Response)
    ensures var p := PackedResponse(r);
            && |p| == 16 + |r.payload| && p[0] == 1 && p[1] == r.status % 256
            && p[2] == r.fmt / 256 % 256 && p[3] == r.fmt % 256
            && BigEndianAt(p, 4, r.mid) && BigEndianAt(p, 8, r.receiver) && BigEndianAt(p, 12, |r.payload|)
            && p[16..] == r.payload
  {
    var p := PackedResponse(r);
    PackedResponseSlices(r);
    TwoBytes(p, 2, r.fmt);
    FourBytes(p, 4, r.mid);
    FourBytes(p, 8, r.receiver);
    FourBytes(p, 12, |r.payload|);
    hide BigEndianAt, BE32, BE16, PackedResponse;
  }

  lemma TwoBytes(p: seq<byte>, i: nat, v: int)
    requires i + 2 <= |p| && p[i..i + 2] == BE16(v)
    ensures p[i] == v / 256 % 256 && p[i + 1] == v % 256
  {
    assert p[i] == p[i..i + 2][0] && p[i + 1] == p[i..i + 2][1];
  }

  /** A packet is accepted as a request exactly when its version is 1, its lengths add up, and its URL field ends with NUL. */
  lemma AcceptedRequests(p: seq<byte>)
    ensures UnpackedRequest(p).Accepted? <==>
            && 18 <= |p| < 2147483648 && p[0] == 1
            && var url, payload := 256 * p[12] as int + p[13] as int, 16777216 * p[14] as int + 65536 * p[15] as int + 256 * p[16] as int + p[17] as int;
               |p| == 18 + url + payload && p[17 + url] == 0
  {
    if |p| >= 18 {
      ReadFour(p, 14);
    }
  }

  lemma AcceptedResponses(p: seq<byte>)
    ensures UnpackedResponse(p).Accepted? <==>
            && 16 <= |p| < 2147483648 && p[0] == 1
            && |p| == 16 + 16777216 * p[12] as int + 65536 * p[13] as int + 256 * p[14] as int + p[15] as int
  {
    if |p| >= 16 {
      ReadFour(p, 12);
    }
  }

  lemma ReadFour(p: seq<byte>, i: nat)
    requires i + 4 <= |p|
    ensures FromBE32(p[i..i + 4]) == 16777216 * p[i] as int + 65536 * p[i + 1] as int + 256 * p[i + 2] as int + p[i + 3] as int
  {
  }
}
