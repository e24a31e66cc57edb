/**
 How install images are written, and that the parser reads them back: LEB128 sizes for
 bytecode (section 5.2.2 of the WebAssembly Core Specification), padded little-endian
 section headers for AOT files.
 */
module InstallEncoding {
  import opened Bytes
  import opened InstallState
  import opened InstallImage
  import opened InstallAgreement
  import Memory

  // ---------- LEB128 ----------

  function EncodeLeb(v: nat): (s: seq<byte>)
    ensures s != []
  {
    if v < 128 then [v] else [128 + v % 128] + EncodeLeb(v / 128)
  }

  /** The number a LEB128 group sequence stands for, without any bound on its width. */
  function LebValue(s: seq<byte>): nat {
    if s == [] then 0 else s[0] % 128 + 128 * LebValue(s[1..])
  }

  lemma GroupExact(b: byte, k: nat)
    requires (b % 128) * Pow128(k) < U32
    ensures Group(b, k) == (b % 128) * Pow128(k)
  {
  }

  lemma SplitGroup(v: nat, k: nat)
    ensures (v % 128) * Pow128(k) + (v / 128) * Pow128(k + 1) == v * Pow128(k)
    ensures (v % 128) * Pow128(k) <= v * Pow128(k) && (v / 128) * Pow128(k + 1) <= v * Pow128(k)
  {
    var p, lo, hi := Pow128(k), v % 128, v / 128;
    assert Pow128(k + 1) == 128 * p;
    assert v == lo + 128 * hi;
    assert v * p == lo * p + hi * (128 * p);
  }

  lemma FourGroups()
    ensures Pow128(1) == 128 && Pow128(2) == 0x4000 && Pow128(3) == 0x20_0000 && Pow128(4) == 0x1000_0000
  {
    assert Pow128(0) == 1;
  }

  lemma LastGroup(v: nat, k: nat)
    requires 128 <= v && v * Pow128(k) < U32 && k < MAX_LEB_BYTES
    ensures k + 1 < MAX_LEB_BYTES
  {
    FourGroups();
    assert k == 4 ==> v * Pow128(k) == v * 0x1000_0000;
  }

  /** Every 32-bit size is written in at most 5 groups and read back with whatever follows it. */
  lemma {:induction false} LebRoundTrip(v: nat, rest: seq<byte>, k: nat, acc: nat)
    requires k < MAX_LEB_BYTES && v * Pow128(k) < U32
    ensures k + |EncodeLeb(v)| <= MAX_LEB_BYTES
    ensures Leb(EncodeLeb(v) + rest, k, acc) == Read((acc + v * Pow128(k), |EncodeLeb(v)|))
    decreases v
  {
    hide Group, Pow128;
    var s := EncodeLeb(v) + rest;
    SplitGroup(v, k);
    GroupExact(s[0], k);
    if v >= 128 {
      LastGroup(v, k);
      assert s[1..] == EncodeLeb(v / 128) + rest;
      LebRoundTrip(v / 128, rest, k + 1, acc + Group(s[0], k));
    }
  }

  /**
   What the receiver makes of any size field, well-formed or not: the value of the groups
   modulo 2^32. So it is the value written exactly when that value fits 32 bits.
   */
  lemma LebIsValueModulo32(s: seq<byte>)
    ensures Leb(s, 0, 0).Read? ==>
      var (v, n) := Leb(s, 0, 0).value; n <= MAX_LEB_BYTES && v == LebValue(s[..n]) % U32
  {
    LebModulo(s, 0, 0);
    assert Pow128(0) == 1;
  }

  lemma {:induction false} LebModulo(s: seq<byte>, k: nat, acc: nat)
    requires k <= MAX_LEB_BYTES && acc < Pow128(k) && acc < U32
    ensures Leb(s, k, acc).Read? ==>
      var (v, n) := Leb(s, k, acc).value; v == (acc + LebValue(s[..n]) * Pow128(k)) % U32
    decreases |s|
  {
    hide Group, Pow128;
    var r := Leb(s, k, acc);
    if r.Read? {
      var n := r.value.1;
      GroupFits(s[0], k, acc);
      assert s[..n][0] == s[0] && s[..n][1..] == s[1..n];
      if s[0] < 128 {
        assert LebValue([]) == 0 && LebValue(s[..n]) == s[0];
      } else {
        var tail := LebValue(s[1..][..n - 1]);
        assert s[1..][..n - 1] == s[1..n];
        assert LebValue(s[..n]) == s[0] % 128 + 128 * tail;
        GroupCarry(s[0], k, acc, tail);
        LebModulo(s[1..], k + 1, acc + Group(s[0], k));
      }
    }
  }

  lemma GroupFits(b: byte, k: nat, acc: nat)
    requires k < MAX_LEB_BYTES && acc < Pow128(k) && acc < U32
    ensures acc + Group(b, k) == (acc + (b % 128) * Pow128(k)) % U32
    ensures acc + Group(b, k) < Pow128(k + 1) && acc + Group(b, k) < U32
  {
    FourGroups();
    var p, d := Pow128(k), b % 128;
    assert Pow128(0) == 1;
    assert Pow128(k + 1) == 128 * p;
    assert d * p <= 127 * p;
    if k == 4 {
      assert d * 0x1000_0000 == (d / 16) * U32 + (d % 16) * 0x1000_0000;
    }
  }

  lemma GroupCarry(b: byte, k: nat, acc: nat, tail: nat)
    requires k < MAX_LEB_BYTES && acc < Pow128(k) && acc < U32
    ensures (acc + Group(b, k) + tail * Pow128(k + 1)) % U32 == (acc + (b % 128 + 128 * tail) * Pow128(k)) % U32
  {
    GroupFits(b, k, acc);
    var p, d := Pow128(k), b % 128;
    var x := acc + d * p;
    assert Pow128(k + 1) == 128 * p;
    assert (d + 128 * tail) * p == d * p + tail * (128 * p);
    var y := tail * (128 * p);
    ModCarry(x, y);
  }

  lemma ModCarry(x: nat, y: nat)
    ensures (x % U32 + y) % U32 == (x + y) % U32
  {
    assert x + y == x % U32 + y + (x / U32) * U32;
  }

  // ---------- section lists ----------

  predicate Writable(cfg: Config, s: Section) {
    s.ty <= cfg.sectionTypeMax && 0 < |s.body| < 4294967296 && s.size == |s.body|
  }

  function EncodeSections(sections: seq<Section>): seq<byte>
  {
    if sections == [] then []
    else [sections[0].ty % 256] + EncodeLeb(|sections[0].body|) + sections[0].body + EncodeSections(sections[1..])
  }

  /** Writing sections and parsing them gives the same sections. */
  lemma {:induction false} ParseInvertsEncode(cfg: Config, sections: seq<Section>)
    requires forall s :: s in sections ==> Writable(cfg, s)
    ensures ParseSections(cfg, EncodeSections(sections)) == Read(sections)
  {
    hide ParseSections, EncodeLeb;
    if sections == [] {
      NoSections(cfg);
    } else {
      var x, tail := sections[0], EncodeSections(sections[1..]);
      assert Writable(cfg, x);
      ParseInvertsEncode(cfg, sections[1..]);
      SectionParses(cfg, EncodeSections(sections), x.ty, x.body, tail);
      assert [x] + sections[1..] == sections;
    }
  }

  lemma NoSections(cfg: Config)
    ensures ParseSections(cfg, []) == Read([])
  {
  }

  lemma SectionParses(cfg: Config, s: seq<byte>, ty: byte, body: seq<byte>, tail: seq<byte>)
    requires ty <= cfg.sectionTypeMax && 0 < |body| < U32 && s == [ty] + EncodeLeb(|body|) + body + tail
    ensures ParseSections(cfg, s) == Prepend(Section(ty, |body|, body), ParseSections(cfg, tail))
  {
    hide ParseSections, Leb, EncodeLeb;
    var n, leb := |body|, EncodeLeb(|body|);
    assert n * Pow128(0) == n;
    LebRoundTrip(n, body + tail, 0, 0);
    SectionBytes(s, ty, leb, body, tail);
    ParseSectionsHead(cfg, s);
  }

  lemma SectionBytes(s: seq<byte>, ty: byte, leb: seq<byte>, body: seq<byte>, tail: seq<byte>)
    requires s == [ty] + leb + body + tail
    ensures var at := 1 + |leb|;
            |s| >= at + |body| && s[0] == ty && s[1..] == leb + (body + tail) && |s[at..]| >= |body| &&
            s[at..at + |body|] == body && s[at + |body|..] == tail
  {
  }

  datatype AotInput = AotInput(ty: nat, body: seq<byte>)

  /** The section types the loader knows, and text that can be mapped. */
  predicate AotWritable(cfg: Config, s: AotInput) {
    && s.ty in {0, 1, 2, 3, 4, 5, 100} && 0 < |s.body| < 4294967296
    && (s.ty == 2 ==> TextSize(cfg, |s.body|) < 4294967295)
  }

  /** Text and the linkage table behind it, rounded up to a multiple of 4. */
  function TextSize(cfg: Config, size: nat): nat { (size + cfg.pltSize + 3) / 4 * 4 }

  /** An AOT section list as the compiler writes it from file offset `off`. */
  function EncodeAot(sections: seq<AotInput>, off: nat): seq<byte> {
    if sections == [] then []
    else
      var body := sections[0].body;
      var head := Memory.Zeros(PadLength(off)) + LE32(sections[0].ty) + LE32(|body|);
      head + body + EncodeAot(sections[1..], off + |head| + |body|)
  }

  /** The sections as they are posted: text fills its mapping up with zeros. */
  function Loaded(cfg: Config, sections: seq<AotInput>): seq<Section> {
    if sections == [] then []
    else
      var ty, body := sections[0].ty, sections[0].body;
      var size := if ty == 2 then TextSize(cfg, |body|) else |body|;
      [Section(ty, size, body + Memory.Zeros(size - |body|))] + Loaded(cfg, sections[1..])
  }

  /** The parser skips exactly the padding and rebuilds the sections in order. */
  lemma {:induction false} ParseInvertsEncodeAot(cfg: Config, sections: seq<AotInput>, off: nat)
    requires forall s :: s in sections ==> AotWritable(cfg, s)
    ensures ParseAot(cfg, EncodeAot(sections, off), off) == Read(Loaded(cfg, sections))
    decreases |sections|
  {
    if sections != [] {
      hide ParseAot, AotSection, LE32, AotWritable;
      var x := sections[0];
      LoadedHead(cfg, sections);
      assert AotWritable(cfg, x);
      var tail := EncodeAot(sections[1..], off + PadLength(off) + 8 + |x.body|);
      ParseInvertsEncodeAot(cfg, sections[1..], off + PadLength(off) + 8 + |x.body|);
      ParseWritten(cfg, EncodeAot(sections, off), off, x, tail);
    }
  }

  lemma LoadedHead(cfg: Config, sections: seq<AotInput>)
    requires sections != []
    ensures Loaded(cfg, sections) == [AotSection(cfg, sections[0].ty, sections[0].body)] + Loaded(cfg, sections[1..])
  {
    var ty, body := sections[0].ty, sections[0].body;
    assert body + Memory.Zeros(0) == body;
    hide Memory.Zeros;
  }

  lemma ParseWritten(cfg: Config, s: seq<byte>, off: nat, x: AotInput, tail: seq<byte>)
    requires AotWritable(cfg, x)
    requires s == Memory.Zeros(PadLength(off)) + LE32(x.ty) + LE32(|x.body|) + x.body + tail
    ensures ParseAot(cfg, s, off) ==
            Prepend(AotSection(cfg, x.ty, x.body), ParseAot(cfg, tail, off + PadLength(off) + 8 + |x.body|))
  {
    hide ParseAot, AotSection, LE32, FromLE32;
    var at := PadLength(off) + 4;
    AotBytes(s, Memory.Zeros(PadLength(off)), x.ty, x.body, tail);
    ParseAotHead(cfg, s, off, at);
  }

  lemma AotBytes(s: seq<byte>, pad: seq<byte>, ty: nat, body: seq<byte>, tail: seq<byte>)
    requires ty < U32 && |body| < U32
    requires s == pad + LE32(ty) + LE32(|body|) + body + tail
    ensures var at := |pad| + 8;
            |s| >= at + |body| && FromLE32(s[at - 8..at - 4]) == ty && FromLE32(s[at - 4..at]) == |body| &&
            s[at..at + |body|] == body && s[at + |body|..] == tail
  {
    Stored32(ty);
    Stored32(|body|);
    hide LE32, FromLE32;
    var at := |pad| + 8;
    assert s[at - 8..at - 4] == LE32(ty) && s[at - 4..at] == LE32(|body|);
  }

  // ---------- whole images ----------

  /** The header and URL of an install request; the payload length field is not looked at. */
  function EncodeHeader(r: Install, sender: nat, payloadLen: nat): seq<byte> {
    [1, r.action % 256] + BE16(r.fmt) + BE32(r.mid) + BE32(sender) + BE16(|r.url| + 1) + BE32(payloadLen) + r.url + [0]
  }

  predicate HeaderFits(r: Install) {
    r.action < 256 && r.fmt < 65536 && r.mid < 4294967296 && |r.url| + 1 < 65536 && NulFree(r.url)
  }

  lemma HeaderBytes(r: Install, sender: nat, payloadLen: nat, file: seq<byte>)
    requires HeaderFits(r)
    ensures var img := EncodeHeader(r, sender, payloadLen) + file;
            var at := 18 + |r.url| + 1;
            |img| >= at && img[0] == 1 && img[1] == r.action && FromBE16(img[2..4]) == r.fmt && FromBE32(img[4..8]) == r.mid &&
            FromBE16(img[12..14]) == |r.url| + 1 && CString(img[18..at]) == r.url && img[at..] == file
  {
    var img := EncodeHeader(r, sender, payloadLen) + file;
    Stored16(r.fmt);
    Stored32(r.mid);
    Stored16(|r.url| + 1);
    hide BE16, BE32, FromBE16, FromBE32, CString;
    assert img[2..4] == BE16(r.fmt) && img[4..8] == BE32(r.mid) && img[12..14] == BE16(|r.url| + 1);
    assert img[18..18 + |r.url| + 1] == r.url + [0] + [];
    CStringOfTerminated(r.url, []);
  }

  /** The magic of each kind of file. */
  function Magic(p: Package): seq<byte> {
    if p.Bytecode? then [0, 0x61, 0x73, 0x6D] else [0, 0x61, 0x6F, 0x74]
  }

  lemma FileParses(cfg: Config, r: Install, sender: nat, payloadLen: nat, version: seq<byte>, body: seq<byte>)
    requires HeaderFits(r) && !r.package.Unknown? && |version| == 4 && body != []
    requires ParseFile(cfg, Magic(r.package) + version + body) == Read(r.sections)
    ensures ParseImage(cfg, EncodeHeader(r, sender, payloadLen) + (Magic(r.package) + version + body)) == Read(r)
  {
    hide ParseFile, EncodeHeader, FromBE16, FromBE32, CString;
    var file := Magic(r.package) + version + body;
    HeaderBytes(r, sender, payloadLen, file);
    assert file[..4] == Magic(r.package);
  }

  /** Behind the right version a file is its section list. */
  lemma FileIsSections(cfg: Config, p: Package, body: seq<byte>)
    requires !p.Unknown? && body != []
    ensures ParseFile(cfg, Magic(p) + (if p.Bytecode? then [1, 0, 0, 0] else [2, 0, 0, 0]) + body) ==
            if p.Bytecode? then ParseSections(cfg, body) else ParseAot(cfg, body, 8)
  {
    hide ParseSections, ParseAot;
    var version := if p.Bytecode? then [1, 0, 0, 0] else [2, 0, 0, 0];
    var s := Magic(p) + version + body;
    assert s[..4] == Magic(p) && s[8..] == body;
    assert s[4..] == version + body;
  }

  /** Every well-formed bytecode image is received whole: the request posted with its last byte is the one written. */
  lemma BytecodeImageInstalls(cfg: Config, r: Install, sender: nat, payloadLen: nat)
    requires HeaderFits(r) && r.package.Bytecode? && r.sections != []
    requires forall s :: s in r.sections ==> Writable(cfg, s)
    requires |EncodeHeader(r, sender, payloadLen) + (Magic(Bytecode) + [1, 0, 0, 0] + EncodeSections(r.sections))| <= 0x7FFF_FFFF
    ensures var img := EncodeHeader(r, sender, payloadLen) + (Magic(Bytecode) + [1, 0, 0, 0] + EncodeSections(r.sections));
            Feed(cfg, INITIAL, img, |img|) == Posted(r, [])
  {
    hide Feed, ParseImage, ParseSections, EncodeHeader;
    var body := EncodeSections(r.sections);
    ParseInvertsEncode(cfg, r.sections);
    FileIsSections(cfg, Bytecode, body);
    FileParses(cfg, r, sender, payloadLen, [1, 0, 0, 0], body);
    StreamingAgreesWithParser(cfg, EncodeHeader(r, sender, payloadLen) + (Magic(Bytecode) + [1, 0, 0, 0] + body));
  }

  /** Every padded AOT image is received whole, its text sections rounded up and zero filled. */
  lemma AotImageInstalls(cfg: Config, r: Install, inputs: seq<AotInput>, sender: nat, payloadLen: nat)
    requires HeaderFits(r) && r.package.Aot? && inputs != [] && r.sections == Loaded(cfg, inputs)
    requires forall s :: s in inputs ==> AotWritable(cfg, s)
    requires |EncodeHeader(r, sender, payloadLen) + (Magic(Aot) + [2, 0, 0, 0] + EncodeAot(inputs, 8))| <= 0x7FFF_FFFF
    ensures var img := EncodeHeader(r, sender, payloadLen) + (Magic(Aot) + [2, 0, 0, 0] + EncodeAot(inputs, 8));
            Feed(cfg, INITIAL, img, |img|) == Posted(r, [])
  {
    hide Feed, ParseImage, ParseAot, EncodeHeader, Loaded;
    var body := EncodeAot(inputs, 8);
    ParseInvertsEncodeAot(cfg, inputs, 8);
    FileIsSections(cfg, Aot, body);
    FileParses(cfg, r, sender, payloadLen, [2, 0, 0, 0], body);
    StreamingAgreesWithParser(cfg, EncodeHeader(r, sender, payloadLen) + (Magic(Aot) + [2, 0, 0, 0] + body));
  }
}
