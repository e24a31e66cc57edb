/**
 Whole runs of set_attr on a created container, and what the getters give back
 (app-framework/app-native-shared/attr_container.c).
 */
module AttrRuns {
  import opened Bytes
  import opened AttrFormat
  import opened AttrLayout
  import opened AttrContainer

  /** The ordered map after a run. */
  function Replayed(attrs: seq<Attr>, sets: seq<Attr>): seq<Attr>
    decreases |sets|
  {
    if sets == [] then attrs else Replayed(Put(attrs, sets[0]), sets[1..])
  }

  /** The last attribute of a run with the key. */
  function LastSet(sets: seq<Attr>, key: seq<byte>): Option<Attr> {
    if sets == [] then None
    else if sets[|sets| - 1].key == key then Some(sets[|sets| - 1])
    else LastSet(sets[..|sets| - 1], key)
  }

  lemma {:induction false} ReplayedLast(attrs: seq<Attr>, sets: seq<Attr>)
    requires sets != []
    ensures Replayed(attrs, sets) == Put(Replayed(attrs, sets[..|sets| - 1]), sets[|sets| - 1])
    decreases |sets|
  {
    hide Put;
    if |sets| > 1 {
      ReplayedLast(Put(attrs, sets[0]), sets[1..]);
      assert sets[..|sets| - 1][1..] == sets[1..][..|sets| - 2];
    }
  }

  /** After any run on an empty container every key has the value it was last set to, and keys are distinct. */
  lemma {:induction false} ReplayedIsLastWriter(sets: seq<Attr>, key: seq<byte>)
    ensures DistinctKeys(Replayed([], sets))
    ensures Lookup(Replayed([], sets), key) == LastSet(sets, key)
  {
    if sets != [] {
      var before, a := sets[..|sets| - 1], sets[|sets| - 1];
      ReplayedIsLastWriter(before, key);
      ReplayedLast([], sets);
      PutIsMapUpdate(Replayed([], before), a, key);
    }
    hide Put, DistinctKeys;
  }

  /** How much a run can add to the block. */
  function Budget(sets: seq<Attr>): nat {
    if sets == [] then 0 else |EncodeAttr(sets[0])| + RESERVED + Budget(sets[1..])
  }

  lemma {:induction false} ReplayedCount(attrs: seq<Attr>, sets: seq<Attr>)
    ensures |Replayed(attrs, sets)| <= |attrs| + |sets|
    decreases |sets|
  {
    hide EncodeAttr;
    if sets != [] {
      PutSize(attrs, sets[0]);
      ReplayedCount(Put(attrs, sets[0]), sets[1..]);
    }
  }

  /** A created container after any run of sets, with memory available: its block reads back as the map model. */
  method Replay(tag: seq<byte>, sets: seq<Attr>) returns (h: Handle)
    requires KeyFits(tag) && forall a :: a in sets ==> ValidAttr(a)
    requires |sets| + 1 < U16 && 2 + 4 + 2 + |tag| + 1 + RESERVED + Budget(sets) < U32
    ensures h.Valid() && h.model == Container(0, tag, Replayed([], sets))
    ensures Read(h.mem[..]) == Some(Container(0, tag, Replayed([], sets)))
  {
    hide Put, EncodeAttr, Read, Holds, ValidAttr, KeyFits;
    h := new Handle(Some(tag));
    var i := 0;
    assert sets[..0] == [] && sets[0..] == sets;
    while i < |sets|
      invariant 0 <= i <= |sets| && fresh(h) && fresh(h.mem) && h.Valid()
      invariant h.model == Container(0, tag, Replayed([], sets[..i]))
      invariant h.mem.Length + Budget(sets[i..]) < U32
    {
      var a := sets[i];
      Prepared(sets, i, a);
      ReplayedCount([], sets[..i]);
      ReplayedLast([], sets[..i + 1]);
      assert sets[..i + 1][..i] == sets[..i];
      var ok := h.SetAttr(a.key, a.ty, a.value, true, true);
      i := i + 1;
    }
    assert sets[..i] == sets;
    ReadFindsHeld(h.mem[..], h.model);
  }

  lemma Prepared(sets: seq<Attr>, i: nat, a: Attr)
    requires i < |sets| && a == sets[i] && forall x :: x in sets ==> ValidAttr(x)
    ensures ValidAttr(a) && a.key != [] && KeyFits(a.key) && ValueFits(a.ty, a.value) && a == Attr(a.key, a.ty, a.value)
    ensures Budget(sets[i..]) == |EncodeAttr(a)| + RESERVED + Budget(sets[i + 1..])
    ensures !RefusesSet(0)
  {
    hide EncodeAttr, KeyFits, ValueFits;
    assert sets[i..][1..] == sets[i + 1..];
  }

  /**
   After any run of sets every getter reads, out of the block, what its key was last set to:
   the typed getters a number of bytes, the byte array getter all of them.
   */
  method GetAfterRun(tag: seq<byte>, sets: seq<Attr>, key: seq<byte>, width: nat)
    returns (scalar: seq<byte>, bytes: Option<seq<byte>>, contained: bool)
    requires KeyFits(tag) && NulFree(key) && forall a :: a in sets ==> ValidAttr(a)
    requires |sets| + 1 < U16 && 2 + 4 + 2 + |tag| + 1 + RESERVED + Budget(sets) < U32
    ensures var last := LastSet(sets, key);
            && scalar == ScalarOf(last, width)
            && bytes == BytesOf(last)
            && (contained <==> key != [] && last.Some?)
    ensures var last := LastSet(sets, key);
            bytes == if last.None? || last.value.ty == 8 || last.value.ty == 9 || last.value.ty > 14 then None else Some(last.value.value)
    ensures |scalar| == width
    ensures var last := LastSet(sets, key);
            if last.None? || last.value.ty == 8 || last.value.ty == 9 || last.value.ty > 14 || (last.value.ty <= 12 && |last.value.value| > width)
            then forall k :: 0 <= k < width ==> scalar[k] == 0
            else if |last.value.value| > width then scalar == last.value.value[..width]
            else last.value.value <= scalar && forall k :: |last.value.value| <= k < width ==> scalar[k] == 0
  {
    ReplayedIsLastWriter(sets, key);
    hide Lookup, LastSet, ScalarOf, BytesOf, Replayed, Budget, Read;
    var h := Replay(tag, sets);
    scalar := h.GetAsScalar(key, width);
    bytes := h.GetAsBytearray(key);
    contained := h.ContainKey(key);
  }

  // ---------- integers ----------

  /** The `n` bytes of an integer, least significant first. */
  function Stored(v: int, n: nat): (s: seq<byte>)
    ensures |s| == n
    decreases n
  {
    if n == 0 then [] else [v % 256] + Stored(v / 256, n - 1)
  }

  /** The number a byte string stands for. */
  function Unsigned(s: seq<byte>): nat {
    if s == [] then 0 else s[0] as int + 256 * Unsigned(s[1..])
  }

  function Pow256(n: nat): (p: nat)
    ensures p > 0
  {
    if n == 0 then 1 else 256 * Pow256(n - 1)
  }

  /** The same, with the highest bit as the sign. */
  function Signed(s: seq<byte>): int {
    var v := Unsigned(s); if 2 * v < Pow256(|s|) then v else v - Pow256(|s|)
  }

  lemma {:induction false} StoredIsRemainder(v: int, n: nat)
    ensures Unsigned(Stored(v, n)) == v % Pow256(n)
    decreases n
  {
    if n > 0 {
      StoredIsRemainder(v / 256, n - 1);
      var p, q := Pow256(n - 1), v / 256;
      assert Stored(v, n)[1..] == Stored(q, n - 1);
      DivideRemainder(v, p);
    }
  }

  /** The remainder by 256 p, by its lowest byte. */
  lemma DivideRemainder(v: int, p: nat)
    requires p > 0
    ensures v % 256 + 256 * (v / 256 % p) == v % (256 * p)
  {
    var q := v / 256;
    var k, r := q / p, v % 256 + 256 * (q % p);
    assert q == p * k + q % p;
    assert v == 256 * (p * k + q % p) + v % 256;
    assert v == (256 * p) * k + r;
    assert q % p <= p - 1;
    RemainderIs(v, 256 * p, k, r);
  }

  /**
   An integer of any width that a key was set to, signed or unsigned, is what the getter of that
   width returns if and only if it fits.
   */
  lemma IntegersReadBack(key: seq<byte>, ty: nat, v: int, n: nat)
    requires 0 < n && (ty <= 7 || 10 <= ty <= 14)
    ensures var s, p := ScalarOf(Some(Attr(key, ty, Stored(v, n))), n), Pow256(n) as int;
            && (0 <= v < p <==> Unsigned(s) == v)
            && (-p <= 2 * v < p <==> Signed(s) == v)
  {
    var s := Stored(v, n);
    assert Padded(s, n) == s;
    StoredIsRemainder(v, n);
    assert Pow256(n) == 2 * (128 * Pow256(n - 1));
    SignedRemainder(v, Pow256(n));
    hide Stored, Unsigned, Pow256;
  }

  lemma SignedRemainder(v: int, p: int)
    requires p > 0
    ensures var u := v % p;
            && (0 <= v < p <==> u == v)
            && (-p <= 2 * v < p <==> (if 2 * u < p then u else u - p) == v)
  {
    if 0 <= v < p { RemainderIs(v, p, 0, v); }
    if -p <= v < 0 { RemainderIs(v, p, -1, v + p); }
  }
}
