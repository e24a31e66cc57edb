/**
 The children of an array or object as a chain of siblings
 (test-tools/host-tool/external/cJSON/cJSON.c). The last sibling's `next` is null, every
 other `next.prev` points back, and the first sibling's `prev` is the last one, which is
 how an item is appended without a walk.
 */
module SiblingList {

  /** `s` is the chain that starts at `child`. */
  ghost predicate Siblings(child: Item?, s: seq<Item>)
    reads s
  {
    Linked(child, s, Nexts(s), Prevs(s))
  }

  /** The same of the links as values: `n` and `p` hold the `next` and `prev` of each item. */
  ghost predicate Linked(child: Item?, s: seq<Item>, n: seq<Item?>, p: seq<Item?>) {
    && |n| == |p| == |s|
    && child == At(s, 0)
    && (forall i {:trigger n[i]} :: 0 <= i < |s| ==> n[i] == At(s, i + 1))
    && (forall i {:trigger p[i]} :: 0 <= i < |s| ==> p[i] == Before(s, i))
  }

  ghost function Nexts(s: seq<Item>): (n: seq<Item?>)
    reads s
    ensures |n| == |s| && forall k {:trigger n[k]} :: 0 <= k < |s| ==> n[k] == s[k].next
  {
    seq(|s|, k requires 0 <= k < |s| reads s => s[k].next)
  }

  ghost function Prevs(s: seq<Item>): (p: seq<Item?>)
    reads s
    ensures |p| == |s| && forall k {:trigger p[k]} :: 0 <= k < |s| ==> p[k] == s[k].prev
  {
    seq(|s|, k requires 0 <= k < |s| reads s => s[k].prev)
  }

  function At(s: seq<Item>, i: nat): Item? {
    if i < |s| then s[i] else null
  }

  /** The item before, which for the first is the last. */
  function Before(s: seq<Item>, i: nat): Item
    requires i < |s|
  {
    if i == 0 then s[|s| - 1] else s[i - 1]
  }

  function Without<T>(s: seq<T>, i: nat): seq<T>
    requires i < |s|
  {
    s[..i] + s[i + 1..]
  }

  function With<T>(s: seq<T>, i: nat, x: T): seq<T> {
    if i < |s| then s[..i] + [x] + s[i..] else s + [x]
  }

  /** Inserting undoes detaching and the other way round; replacing is one after the other. */
  lemma OperationsMatch(s: seq<Item>, i: nat, x: Item)
    ensures i < |s| ==> With(Without(s, i), i, s[i]) == s && With(Without(s, i), i, x) == s[i := x]
    ensures Without(With(s, i, x), if i < |s| then i else |s|) == s
  {
    if i < |s| {
      OutAndIn(s, i, x);
      InAndOut(s, i, x);
    } else {
      assert (s + [x])[..|s|] == s;
    }
  }

  lemma OutAndIn(s: seq<Item>, i: nat, x: Item)
    requires i < |s|
    ensures With(Without(s, i), i, s[i]) == s && With(Without(s, i), i, x) == s[i := x]
  {
    var t := Without(s, i);
    assert t[..i] == s[..i] && t[i..] == s[i + 1..];
    assert s[i := x] == s[..i] + [x] + s[i + 1..] && s == s[..i] + [s[i]] + s[i + 1..];
  }

  lemma InAndOut(s: seq<Item>, i: nat, x: Item)
    requires i < |s|
    ensures Without(With(s, i, x), i) == s
  {
    var w := With(s, i, x);
    assert w[..i] == s[..i] && w[i + 1..] == s[i..];
  }

  /** The links of a sibling list: forward to null, backward to the one before, and from the first to the last. */
  lemma LinksOfSiblings(child: Item?, s: seq<Item>)
    requires Siblings(child, s)
    ensures s == [] ==> child == null
    ensures s != [] ==> child == s[0] && s[0].prev == s[|s| - 1] && s[|s| - 1].next == null
    ensures forall k {:trigger s[k].next} :: 0 <= k < |s| - 1 ==> s[k].next == s[k + 1] && s[k + 1].prev == s[k]
  {
    forall k {:trigger s[k].next} | 0 <= k < |s| ensures s[k].next == At(s, k + 1) && (k + 1 < |s| ==> s[k + 1].prev == s[k]) {
      LinksAt(child, s, k);
      LinksAt(child, s, k + 1);
    }
    LinksAt(child, s, 0);
  }

  // ---------- the links after each operation ----------

  lemma LinksAt(child: Item?, s: seq<Item>, i: nat)
    requires Siblings(child, s)
    ensures child == At(s, 0)
    ensures i < |s| ==> s[i].next == At(s, i + 1) && s[i].prev == Before(s, i)
  {
    if i < |s| {
      assert Nexts(s)[i] == s[i].next && Prevs(s)[i] == s[i].prev;
    }
  }

  ghost function NextsWithout(n: seq<Item?>, i: nat): seq<Item?>
    requires i < |n|
  {
    Without(if i > 0 then n[i - 1 := n[i]] else n, i)
  }

  ghost function PrevsWithout(p: seq<Item?>, i: nat): seq<Item?>
    requires i < |p|
  {
    Without(if i + 1 < |p| then p[i + 1 := p[i]] else p[0 := p[i]], i)
  }

  lemma WithoutIndex<T>(s: seq<T>, i: nat)
    requires i < |s|
    ensures |Without(s, i)| == |s| - 1
    ensures forall k {:trigger Without(s, i)[k]} :: 0 <= k < |s| - 1 ==> Without(s, i)[k] == s[if k < i then k else k + 1]
  {
  }

  lemma WithoutAt(s: seq<Item>, n: seq<Item?>, p: seq<Item?>, i: nat)
    requires i < |s| == |n| == |p|
    ensures |Without(s, i)| == |NextsWithout(n, i)| == |PrevsWithout(p, i)| == |s| - 1
    ensures forall k {:trigger Without(s, i)[k]} :: 0 <= k < |s| - 1 ==> Without(s, i)[k] == s[if k < i then k else k + 1]
    ensures forall k {:trigger NextsWithout(n, i)[k]} :: 0 <= k < |s| - 1 ==>
      NextsWithout(n, i)[k] == n[if k < i - 1 then k else k + 1]
    ensures forall k {:trigger PrevsWithout(p, i)[k]} :: 0 <= k < |s| - 1 ==>
      PrevsWithout(p, i)[k] == p[if k < i && !(k == 0 && i + 1 == |s|) then k else if k <= i then i else k + 1]
  {
  }

  lemma WithIndex<T>(s: seq<T>, i: nat, x: T)
    requires i < |s|
    ensures |With(s, i, x)| == |s| + 1
    ensures forall k {:trigger With(s, i, x)[k]} :: 0 <= k <= |s| ==>
      With(s, i, x)[k] == if k == i then x else s[if k < i then k else k - 1]
  {
  }

  lemma WithAt(s: seq<Item>, n: seq<Item?>, p: seq<Item?>, i: nat, x: Item)
    requires i < |s| == |n| == |p|
    ensures |With(s, i, x)| == |NextsWith(n, s, i, x)| == |PrevsWith(p, i, x)| == |s| + 1
    ensures forall k {:trigger With(s, i, x)[k]} :: 0 <= k <= |s| ==>
      With(s, i, x)[k] == if k == i then x else s[if k < i then k else k - 1]
    ensures forall k {:trigger NextsWith(n, s, i, x)[k]} :: 0 <= k <= |s| ==>
      NextsWith(n, s, i, x)[k] == if k == i - 1 then x else if k == i then s[i] else n[if k < i then k else k - 1]
    ensures forall k {:trigger PrevsWith(p, i, x)[k]} :: 0 <= k <= |s| ==>
      PrevsWith(p, i, x)[k] == if k == i + 1 then x else p[if k <= i then k else k - 1]
  {
    WithIndex(s, i, x);
    WithIndex(if i > 0 then n[i - 1 := x] else n, i, s[i]);
    WithIndex(p[i := x], i, p[i]);
    hide With;
  }

  /** Apart from item `out`, the `next` links are those of `n` but for item `j`, which has `x`. */
  ghost predicate NextsRelinked(s: seq<Item>, n: seq<Item?>, j: int, x: Item?, out: nat)
    requires |n| == |s|
    reads s
  {
    forall k {:trigger s[k].next} :: 0 <= k < |s| && k != out ==> s[k].next == if k == j then x else n[k]
  }

  ghost predicate PrevsRelinked(s: seq<Item>, p: seq<Item?>, j: int, x: Item?, out: nat)
    requires |p| == |s|
    reads s
  {
    forall k {:trigger s[k].prev} :: 0 <= k < |s| && k != out ==> s[k].prev == if k == j then x else p[k]
  }

  lemma RelinkedWithout(s: seq<Item>, n: seq<Item?>, p: seq<Item?>, i: nat)
    requires i < |s| == |n| == |p| && NextsRelinked(s, n, i - 1, n[i], i)
    requires PrevsRelinked(s, p, if i + 1 < |s| then i + 1 else 0, p[i], i)
    ensures Nexts(Without(s, i)) == NextsWithout(n, i) && Prevs(Without(s, i)) == PrevsWithout(p, i)
  {
    WithoutAt(s, n, p, i);
    hide Without, NextsWithout, PrevsWithout;
  }

  lemma RelinkedWith(s: seq<Item>, n: seq<Item?>, p: seq<Item?>, i: nat, x: Item)
    requires i < |s| == |n| == |p| && NextsRelinked(s, n, i - 1, x, |s|) && PrevsRelinked(s, p, i, x, |s|)
    requires x.next == s[i] && x.prev == p[i]
    ensures Nexts(With(s, i, x)) == NextsWith(n, s, i, x) && Prevs(With(s, i, x)) == PrevsWith(p, i, x)
  {
    WithAt(s, n, p, i, x);
    hide With, NextsWith, PrevsWith;
  }

  lemma LinkedAt(child: Item?, s: seq<Item>, n: seq<Item?>, p: seq<Item?>, i: nat)
    requires Linked(child, s, n, p) && i < |s|
    ensures n[i] == At(s, i + 1) && p[i] == Before(s, i) && p[0] == s[|s| - 1] && (i > 0 ==> n[i - 1] == s[i])
  {
  }

  /** Apart from `x` itself and item `out`, the `next` links are those of `n` but for item `j`, which has `x`. */
  ghost predicate NextsBut(s: seq<Item>, n: seq<Item?>, j: int, x: Item, out: int)
    requires |n| == |s|
    reads s`next
  {
    forall k {:trigger s[k].next} :: 0 <= k < |s| && s[k] != x && k != out ==> s[k].next == if k == j then x else n[k]
  }

  ghost predicate PrevsBut(s: seq<Item>, p: seq<Item?>, j: int, x: Item, out: int)
    requires |p| == |s|
    reads s`prev
  {
    forall k {:trigger s[k].prev} :: 0 <= k < |s| && s[k] != x && k != out ==> s[k].prev == if k == j then x else p[k]
  }

  /** What putting `x` in front of item `i` makes of the links `n` and `p`, whether or not it is in the list already. */
  ghost predicate LinkedBefore(s: seq<Item>, n: seq<Item?>, p: seq<Item?>, i: nat, x: Item)
    requires i < |s| == |n| == |p|
    reads s, x
  {
    && NextsBut(s, n, i - 1, x, -1) && PrevsBut(s, p, i, x, -1)
    && x.next == (if i > 0 && s[i - 1] == x then x else s[i])
    && x.prev == (if s[i] == x then x else p[i])
  }

  /** The links when item `j` has been put in front of item `i` of the same list. */
  ghost predicate Twisted(s: seq<Item>, i: nat, j: nat)
    requires i < |s| && j < |s|
    reads s
  {
    && (forall k {:trigger s[k].next} :: 0 <= k < |s| ==>
         s[k].next == if k == i - 1 then s[j] else if k == j then s[i] else At(s, k + 1))
    && s[j].prev == if i == j then s[j] else Before(s, i)
  }

  lemma LinkedTwice(child: Item?, s: seq<Item>, n: seq<Item?>, p: seq<Item?>, i: nat, j: nat)
    requires Distinct(s) && Linked(child, s, n, p) && i < |s| && j < |s| && LinkedBefore(s, n, p, i, s[j])
    ensures Twisted(s, i, j)
  {
    Indexed(s);
    hide Distinct, IndexOf;
    forall k {:trigger s[k].next} | 0 <= k < |s|
      ensures s[k].next == if k == i - 1 then s[j] else if k == j then s[i] else At(s, k + 1)
    {
      assert n[k] == At(s, k + 1);
      assert s[k] == s[j] <==> k == j;
    }
    assert p[i] == Before(s, i);
  }

  /** Along the links a chain `t` that meets `s` goes on with it. */
  lemma {:induction false} Follows(child: Item?, t: seq<Item>, a: nat, s: seq<Item>, b: nat, e: nat)
    requires Siblings(child, t) && a < |t| && b <= e < |s| && t[a] == s[b]
    requires forall k {:trigger s[k].next} :: b <= k < e ==> s[k].next == s[k + 1]
    ensures a + e - b < |t| && t[a + e - b] == s[e]
    decreases e - b
  {
    if b < e {
      LinksAt(child, t, a);
      hide Siblings, Linked;
      Follows(child, t, a + 1, s, b + 1, e);
    }
  }

  /** Such links are no chain of siblings. */
  lemma TwiceIsNoChain(child: Item?, s: seq<Item>, i: nat, j: nat)
    requires Distinct(s) && i < |s| && j < |s| && Twisted(s, i, j) && child == if i == 0 then s[j] else s[0]
    ensures forall t :: !Siblings(child, t)
  {
    forall t ensures !Siblings(child, t) {
      TwistedTwice(child, t, s, i, j);
    }
  }

  lemma TwistedTwice(child: Item?, t: seq<Item>, s: seq<Item>, i: nat, j: nat)
    requires Distinct(s) && i < |s| && j < |s| && Twisted(s, i, j) && child == if i == 0 then s[j] else s[0]
    ensures !Siblings(child, t)
  {
    Indexed(s);
    hide Siblings, Linked, IndexOf, Distinct;
    if Siblings(child, t) {
      LinksAt(child, t, 0);
      var m := if i <= j then i else j;
      if i > 0 {
        var e := if m == 0 then 0 else m - 1;
        Follows(child, t, 0, s, 0, e);
        LinksAt(child, t, e);
      }
      assert m < |t| && t[m] == s[j];
      LinksAt(child, t, m);
      if j < i {
        LinksAt(child, t, |t| - 1);
      } else if j == i {
        Apart(child, t, m, m + 1);
      } else {
        Follows(child, t, m + 1, s, i, j - 1);
        LinksAt(child, t, j);
        Apart(child, t, m, j + 1);
      }
    }
  }

  /** So putting an item in front of another makes a longer chain, or none if it is there already. */
  lemma AfterLinkBefore(first: Item?, child: Item?, s: seq<Item>, n: seq<Item?>, p: seq<Item?>, i: nat, x: Item)
    requires Linked(first, s, n, p) && Distinct(s) && i < |s| && LinkedBefore(s, n, p, i, x)
    requires child == if i == 0 then x else first
    ensures if x !in s then Siblings(child, With(s, i, x)) else forall t :: !Siblings(child, t)
  {
    if x in s {
      LinkedTwice(first, s, n, p, i, IndexOf(s, x));
      TwiceIsNoChain(child, s, i, IndexOf(s, x));
    } else {
      LinkedWith(first, s, n, p, i, x);
      assert p[i] == Before(s, i);
      RelinkedWith(s, n, p, i, x);
      Conclude(child, With(s, i, x), NextsWith(n, s, i, x), PrevsWith(p, i, x));
    }
  }

  /** What putting `x` in the place of item `i` makes of the links `n` and `p`, whether or not it is in the list already. */
  ghost predicate Exchanged(s: seq<Item>, n: seq<Item?>, p: seq<Item?>, i: nat, x: Item)
    requires i < |s| == |n| == |p|
    reads s, x
  {
    var before, behind := i > 0 && s[i - 1] == x, At(s, i + 1) == x;
    var atEnd := i > 0 && i + 1 == |s| && !before;
    && NextsBut(s, n, if behind then -1 else i - 1, x, i) && PrevsBut(s, p, if atEnd then 0 else i + 1, x, i)
    && s[i].next == null && s[i].prev == null
    && x.next == (if before || behind then x else n[i])
    && x.prev == (if |s| == 1 || behind || (atEnd && s[0] == x) then x else p[i])
  }

  /** The one case in which a child can replace another. */
  predicate FirstForLast(s: seq<Item>, i: nat, x: Item) { 1 < i == |s| - 1 && s[0] == x }

  ghost function NextsReplaced(n: seq<Item?>, i: nat, x: Item): seq<Item?>
    requires i < |n|
  {
    if i > 0 then n[i - 1 := x] else n
  }

  ghost function PrevsReplaced(p: seq<Item?>, i: nat, x: Item): seq<Item?>
    requires i < |p|
  {
    p[if i + 1 < |p| then i + 1 else 0 := x]
  }

  lemma LinkedReplace(child: Item?, s: seq<Item>, n: seq<Item?>, p: seq<Item?>, i: nat, x: Item)
    requires Linked(child, s, n, p) && i < |s|
    ensures Linked(if i == 0 then x else child, s[i := x], NextsReplaced(n, i, x), PrevsReplaced(p, i, x))
  {
  }

  lemma RelinkedReplace(s: seq<Item>, n: seq<Item?>, p: seq<Item?>, i: nat, x: Item)
    requires i < |s| == |n| == |p| && NextsRelinked(s, n, i - 1, x, i)
    requires PrevsRelinked(s, p, if i + 1 < |s| then i + 1 else 0, x, i)
    requires x.next == n[i] && x.prev == if |s| == 1 then x else p[i]
    ensures Nexts(s[i := x]) == NextsReplaced(n, i, x) && Prevs(s[i := x]) == PrevsReplaced(p, i, x)
  {
  }

  /** So putting an item in the place of another keeps the chain; a child of the same list breaks it, but for the one case. */
  lemma AfterExchange(first: Item?, child: Item?, s: seq<Item>, n: seq<Item?>, p: seq<Item?>, i: nat, x: Item)
    requires Linked(first, s, n, p) && Distinct(s) && i < |s| && s[i] != x && Exchanged(s, n, p, i, x)
    requires child == if i == 0 then x else first
    ensures x !in s ==> Siblings(child, s[i := x]) && s[i] !in s[i := x] && x in s[i := x] && forall y :: y in s[i := x] ==> y in s || y == x
    ensures x in s ==> if FirstForLast(s, i, x) then Siblings(child, [x]) else forall t :: !Siblings(child, t)
  {
    if x !in s {
      NewInPlace(first, child, s, n, p, i, x);
    } else if FirstForLast(s, i, x) {
      LastAlone(first, s, n, p, i, x);
    } else {
      forall t ensures !Siblings(child, t) {
        ExchangedTwice(first, child, t, s, n, p, i, IndexOf(s, x));
      }
    }
  }

  lemma NewInPlace(first: Item?, child: Item?, s: seq<Item>, n: seq<Item?>, p: seq<Item?>, i: nat, x: Item)
    requires Linked(first, s, n, p) && Distinct(s) && i < |s| && x !in s && Exchanged(s, n, p, i, x)
    requires child == if i == 0 then x else first
    ensures Siblings(child, s[i := x]) && s[i] !in s[i := x] && x in s[i := x] && forall y :: y in s[i := x] ==> y in s || y == x
  {
    LinkedReplace(first, s, n, p, i, x);
    Replaced(s, i, x);
    assert s[i := x][i] == x;
    hide Linked, Siblings, Distinct, IndexOf;
    RelinkedReplace(s, n, p, i, x);
    Conclude(child, s[i := x], NextsReplaced(n, i, x), PrevsReplaced(p, i, x));
  }

  lemma LastAlone(first: Item?, s: seq<Item>, n: seq<Item?>, p: seq<Item?>, i: nat, x: Item)
    requires Linked(first, s, n, p) && Distinct(s) && i < |s| && FirstForLast(s, i, x) && Exchanged(s, n, p, i, x)
    ensures Siblings(first, [x])
  {
    Indexed(s);
    hide Distinct, IndexOf;
    assert n[i] == At(s, i + 1) && s[i - 1] != x;
  }

  /** Where the links lead after such an exchange. */
  lemma ExchangedNexts(first: Item?, s: seq<Item>, n: seq<Item?>, p: seq<Item?>, i: nat, j: nat)
    requires Linked(first, s, n, p) && Distinct(s) && i < |s| && j < |s| && i != j && Exchanged(s, n, p, i, s[j])
    ensures forall k {:trigger s[k].next} :: 0 <= k < |s| && k != j && k != i ==>
      s[k].next == if k == i - 1 && j != i + 1 then s[j] else At(s, k + 1)
    ensures s[j].next == if j == i + 1 || j == i - 1 then s[j] else At(s, i + 1)
    ensures j < i - 1 && !FirstForLast(s, i, s[j]) ==> s[j].prev == s[i - 1]
    ensures s[i].prev == null
  {
    Indexed(s);
    hide Distinct, IndexOf;
    forall k {:trigger s[k].next} | 0 <= k < |s| && k != j && k != i
      ensures s[k].next == if k == i - 1 && j != i + 1 then s[j] else At(s, k + 1)
    {
      assert n[k] == At(s, k + 1);
      assert s[k] != s[j];
    }
    assert n[i] == At(s, i + 1) && p[i] == Before(s, i);
  }

  lemma ExchangedTwice(first: Item?, child: Item?, t: seq<Item>, s: seq<Item>, n: seq<Item?>, p: seq<Item?>, i: nat, j: nat)
    requires Linked(first, s, n, p) && Distinct(s) && i < |s| && j < |s| && i != j && Exchanged(s, n, p, i, s[j])
    requires child == (if i == 0 then s[j] else first) && !FirstForLast(s, i, s[j])
    ensures !Siblings(child, t)
  {
    ExchangedNexts(first, s, n, p, i, j);
    hide Siblings, IndexOf, Distinct, Exchanged;
    if j < i {
      BeforeItself(child, t, s, i, j);
    } else {
      BehindItself(child, t, s, i, j);
    }
  }

  /** An earlier child in the place of a later one. */
  lemma BeforeItself(child: Item?, t: seq<Item>, s: seq<Item>, i: nat, j: nat)
    requires j < i < |s| && Distinct(s) && child == s[0] && !FirstForLast(s, i, s[j])
    requires forall k {:trigger s[k].next} :: 0 <= k < i && k != j ==> s[k].next == if k == i - 1 then s[j] else s[k + 1]
    requires s[j].next == if j == i - 1 then s[j] else At(s, i + 1)
    requires j < i - 1 ==> s[j].prev == s[i - 1]
    ensures !Siblings(child, t)
  {
    Indexed(s);
    hide Siblings, Linked, IndexOf, Distinct;
    if Siblings(child, t) {
      LinksAt(child, t, 0);
      var e := if j == 0 then 0 else j - 1;
      Follows(child, t, 0, s, 0, e);
      LinksAt(child, t, e);
      assert t[j] == s[j];
      LinksAt(child, t, j);
      LinksAt(child, t, |t| - 1);
      if j == i - 1 { Apart(child, t, j, j + 1); }
    }
  }

  /** A later child in the place of an earlier one. */
  lemma BehindItself(child: Item?, t: seq<Item>, s: seq<Item>, i: nat, j: nat)
    requires i < j < |s| && Distinct(s) && child == if i == 0 then s[j] else s[0]
    requires forall k {:trigger s[k].next} :: 0 <= k < j && k != i ==> s[k].next == if k == i - 1 && j != i + 1 then s[j] else s[k + 1]
    requires s[j].next == (if j == i + 1 then s[j] else At(s, i + 1)) && s[i].prev == null
    ensures !Siblings(child, t)
  {
    Indexed(s);
    hide Siblings, Linked, IndexOf, Distinct;
    if Siblings(child, t) {
      LinksAt(child, t, 0);
      if i > 0 {
        Follows(child, t, 0, s, 0, i - 1);
        LinksAt(child, t, i - 1);
      }
      LinksAt(child, t, i);
      if j == i + 1 {
        if i == 0 { Apart(child, t, 0, 1); }
      } else {
        Follows(child, t, i + 1, s, i + 1, j - 1);
        LinksAt(child, t, j - 1);
        Apart(child, t, i, j);
      }
    }
  }

  ghost function NextsAppend(n: seq<Item?>, x: Item, next: Item?): seq<Item?>
    requires n != []
  {
    n[|n| - 1 := x] + [next]
  }

  ghost function PrevsAppend(p: seq<Item?>, x: Item): seq<Item?>
    requires p != []
  {
    p[0 := x] + [p[0]]
  }

  lemma LinkedAppend(child: Item?, s: seq<Item>, n: seq<Item?>, p: seq<Item?>, x: Item, next: Item?)
    requires Linked(child, s, n, p) && s != []
    ensures next == null ==> Linked(child, s + [x], NextsAppend(n, x, next), PrevsAppend(p, x))
  {
  }

  lemma RelinkedAppend(child: Item?, s: seq<Item>, n: seq<Item?>, p: seq<Item?>, x: Item)
    requires 0 < |s| == |n| == |p| && child == s[0] && x.next == null
    requires NextsRelinked(s, n, |s| - 1, x, |s|) && PrevsRelinked(s, p, 0, x, |s|) && x.prev == p[0]
    requires Linked(child, s + [x], NextsAppend(n, x, null), PrevsAppend(p, x))
    ensures Siblings(child, s + [x])
  {
    assert Nexts(s + [x]) == NextsAppend(n, x, null) && Prevs(s + [x]) == PrevsAppend(p, x);
  }

  /** Behind the item that the first one takes for the last nothing may follow, or there is no chain. */
  lemma NoChain(child: Item, x: Item)
    requires child.prev == x && x.next != null
    ensures forall t :: !Siblings(child, t)
  {
    forall t ensures !Siblings(child, t) {
      if Siblings(child, t) {
        LinksAt(child, t, 0);
        LinksAt(child, t, |t| - 1);
      }
    }
  }

  lemma Conclude(child: Item?, s: seq<Item>, n: seq<Item?>, p: seq<Item?>)
    requires Linked(child, s, n, p) && Nexts(s) == n && Prevs(s) == p
    ensures Siblings(child, s)
  {
  }

  lemma LinkedWithout(child: Item?, s: seq<Item>, n: seq<Item?>, p: seq<Item?>, i: nat)
    requires Linked(child, s, n, p) && i < |s|
    ensures Linked(if i == 0 then n[0] else child, Without(s, i), NextsWithout(n, i), PrevsWithout(p, i))
  {
  }

  ghost function NextsWith(n: seq<Item?>, s: seq<Item>, i: nat, x: Item): seq<Item?>
    requires i < |s| == |n|
  {
    With(if i > 0 then n[i - 1 := x] else n, i, s[i])
  }

  ghost function PrevsWith(p: seq<Item?>, i: nat, x: Item): seq<Item?>
    requires i < |p|
  {
    With(p[i := x], i, p[i])
  }

  lemma LinkedWith(child: Item?, s: seq<Item>, n: seq<Item?>, p: seq<Item?>, i: nat, x: Item)
    requires Linked(child, s, n, p) && i < |s|
    ensures Linked(if i == 0 then x else child, With(s, i, x), NextsWith(n, s, i, x), PrevsWith(p, i, x))
  {
  }

  /** A chain that ends visits no item twice. */
  lemma {:induction false} Apart(child: Item?, s: seq<Item>, i: nat, j: nat)
    requires Siblings(child, s) && i < j < |s|
    ensures s[i] != s[j]
    decreases |s| - j
  {
    if s[i] == s[j] {
      LinksAt(child, s, i);
      LinksAt(child, s, j);
      assert At(s, i + 1) == At(s, j + 1);
      if j + 1 < |s| {
        Apart(child, s, i + 1, j + 1);
      }
    }
  }

  ghost function IndexOf(s: seq<Item>, x: Item): (i: nat)
    ensures x in s ==> i < |s| && s[i] == x
  {
    if s == [] || s[0] == x then 0 else 1 + IndexOf(s[1..], x)
  }

  ghost predicate Distinct(s: seq<Item>) {
    forall i :: 0 <= i < |s| ==> IndexOf(s, s[i]) == i
  }

  lemma AllApart(child: Item?, s: seq<Item>)
    requires Siblings(child, s)
    ensures Distinct(s)
  {
    forall i | 0 <= i < |s| ensures IndexOf(s, s[i]) == i {
      var j := IndexOf(s, s[i]);
      if i < j {
        Apart(child, s, i, j);
      } else if j < i {
        Apart(child, s, j, i);
      }
    }
  }

  lemma Indexed(s: seq<Item>)
    requires Distinct(s)
    ensures forall i {:trigger s[i]} :: 0 <= i < |s| ==> IndexOf(s, s[i]) == i
  {
  }

  lemma FirstIs(child: Item?, s: seq<Item>, i: nat)
    requires Siblings(child, s) && i < |s|
    ensures child == s[i] <==> i == 0
  {
    LinksAt(child, s, 0);
    if i > 0 {
      Apart(child, s, 0, i);
    }
  }

  lemma Leaves(s: seq<Item>, i: nat)
    requires Distinct(s) && i < |s|
    ensures s[i] !in Without(s, i)
    ensures forall x :: x in Without(s, i) ==> x in s
  {
    WithoutIndex(s, i);
    hide Without;
    forall k | 0 <= k < |s| - 1 ensures Without(s, i)[k] != s[i] {
      assert IndexOf(s, s[if k < i then k else k + 1]) != i;
    }
  }

  lemma Replaced(s: seq<Item>, i: nat, y: Item)
    requires Distinct(s) && i < |s| && y !in s
    ensures s[i] !in s[i := y]
    ensures forall x :: x in s[i := y] ==> x in s || x == y
  {
    var t := s[i := y];
    forall k | 0 <= k < |t| ensures t[k] != s[i] {
      assert IndexOf(s, s[k]) == k && IndexOf(s, s[i]) == i;
    }
  }

  lemma Joins(s: seq<Item>, i: nat, y: Item)
    requires i < |s|
    ensures y in With(s, i, y) && forall x :: x in With(s, i, y) ==> x in s || x == y
  {
    assert With(s, i, y)[i] == y;
  }

  /** The links leave one possible order only. */
  lemma {:induction false} ChainIsUnique(child: Item?, s: seq<Item>, t: seq<Item>)
    requires Siblings(child, s) && Siblings(child, t)
    ensures s == t
  {
    var i := 0;
    LinksAt(child, s, 0);
    LinksAt(child, t, 0);
    while i < |s|
      invariant i <= |s| && i <= |t| && s[..i] == t[..i] && At(s, i) == At(t, i)
    {
      LinksAt(child, s, i);
      LinksAt(child, t, i);
      i := i + 1;
    }
    assert s == s[..i] && t == t[..i];
  }

  // ---------- the links that parsing builds ----------

  /** What the loops of parse_array and parse_object have linked so far: all but the `prev` of the first. */
  ghost predicate Growing(head: Item?, current: Item?, s: seq<Item>)
    reads s`next, s`prev
  {
    && head == At(s, 0) && current == (if s == [] then null else s[|s| - 1])
    && (forall k {:trigger s[k].next} :: 0 <= k < |s| ==> s[k].next == At(s, k + 1))
    && (forall k {:trigger s[k].prev} :: 0 < k < |s| ==> s[k].prev == s[k - 1])
  }

  /** A new item behind the current one. */
  method Grow(head: Item?, current: Item?, item: Item, ghost s: seq<Item>) returns (newHead: Item)
    requires Growing(head, current, s) && item !in s && item.next == null
    modifies (set x | x in s)`next, item`prev
    ensures Growing(newHead, item, s + [item])
  {
    forall k {:trigger s[k]} | 0 <= k < |s| - 1 ensures s[k] != s[|s| - 1] { GrowingApart(head, current, s, k, |s| - 1); }
    if head == null || current == null {
      return item;
    }
    current.next := item;
    item.prev := current;
    newHead := head;
    ghost var t := s + [item];
    forall k {:trigger t[k].next} | 0 <= k < |t| ensures t[k].next == At(t, k + 1) {
      if k < |s| { assert t[k] == s[k]; }
    }
    forall k {:trigger t[k].prev} | 0 < k < |t| ensures t[k].prev == t[k - 1] {
      if k < |s| { assert t[k] == s[k]; }
    }
  }

  /** No item is linked twice. */
  lemma {:induction false} GrowingApart(head: Item?, current: Item?, s: seq<Item>, i: nat, j: nat)
    requires Growing(head, current, s) && i < j < |s|
    ensures s[i] != s[j]
    decreases |s| - j
  {
    if s[i] == s[j] {
      assert s[i].next == At(s, i + 1) && s[j].next == At(s, j + 1);
      if j + 1 < |s| {
        GrowingApart(head, current, s, i + 1, j + 1);
      }
    }
  }

  class Item {
    var next: Item?
    var prev: Item?
    var child: Item?
    /** The children in order. */
    ghost var items: seq<Item>

    constructor ()
      ensures next == null && prev == null && child == null && items == []
    {
      next, prev, child, items := null, null, null, [];
    }

    ghost predicate Valid()
      reads this, items
    {
      this !in items && Siblings(child, items)
    }

    ghost function Links(item: Item?): set<Item?>
      reads this
    {
      (set x | x in items) + {item}
    }

    /** The end of parse_array and parse_object: the first item points to the last one, and the parent to the first. */
    method TakeChildren(head: Item?, current: Item?, ghost s: seq<Item>)
      requires Growing(head, current, s) && this !in s
      modifies this`child, this`items, (set x | x in s)`prev
      ensures Valid() && items == s
    {
      forall k {:trigger s[k]} | 0 < k < |s| ensures s[k] != s[0] { GrowingApart(head, current, s, 0, k); }
      if head != null {
        head.prev := current;
      }
      child, items := head, s;
    }

    /** get_array_item. */
    method GetArrayItem(index: nat) returns (r: Item?)
      requires Valid()
      ensures r == At(items, index)
    {
      LinksAt(child, items, 0);
      var left: nat := index;
      r := child;
      ghost var i: nat := 0;
      while r != null && left > 0
        invariant i <= |items| && left + i == index && r == At(items, i)
        decreases left
      {
        LinksAt(child, items, i);
        left, r, i := left - 1, r.next, i + 1;
      }
    }

    /** cJSON_GetArraySize. */
    method GetArraySize() returns (size: nat)
      requires Valid()
      ensures size == |items|
    {
      size := 0;
      LinksAt(child, items, 0);
      var c := child;
      while c != null
        invariant size <= |items| && c == At(items, size)
        decreases |items| - size
      {
        LinksAt(child, items, size);
        size, c := size + 1, c.next;
      }
    }

    /**
     add_item_to_array. The new last item keeps its own `next`; when that is not null, or the
     item is already in the list, what hangs from `child` is no chain of siblings at all.
     */
    method Add(item: Item?) returns (ok: bool)
      requires Valid()
      modifies this`child, this`items, Links(item)`next, Links(item)`prev
      ensures ok <==> item != null && item != this
      ensures !ok ==> Valid() && items == old(items)
      ensures ok ==> items == old(items) + [item]
      ensures ok ==> (Valid() <==> old(items == [] || (item !in items && item.next == null)))
      ensures ok && !Valid() ==> forall s :: !Siblings(child, s)
    {
      if item == null || item == this {
        return false;
      }
      ghost var s, n, p := items, Nexts(items), Prevs(items);
      LinksAt(child, s, 0);
      if child == null {
        child := item;
        item.prev := item;
        item.next := null;
        items := [item];
      } else {
        LinkedAppend(child, s, n, p, item, item.next);
        AppendLinks(item);
        items := s + [item];
        if item in s || item.next != null {
          NoChain(child, item);
        } else {
          RelinkedAppend(child, s, n, p, item);
        }
      }
      return true;
    }

    /** What add_item_to_array does to the links of a list that is not empty. */
    method AppendLinks(item: Item)
      requires Valid() && child != null && item != this
      modifies Links(item)`next, Links(item)`prev
      ensures child.prev == item && (item in items ==> item.next != null)
      ensures item !in items ==>
        && item.next == old(item.next) && item.prev == old(child.prev) && |items| > 0
        && NextsRelinked(items, old(Nexts(items)), |items| - 1, item, |items|)
        && PrevsRelinked(items, old(Prevs(items)), 0, item, |items|)
    {
      LinksAt(child, items, 0);
      LinksAt(child, items, |items| - 1);
      AllApart(child, items);
      Indexed(items);
      if item in items {
        LinksAt(child, items, IndexOf(items, item));
      }
      hide Linked, Siblings, IndexOf, Distinct;
      var last := child.prev;
      if last != null {
        last.next := item;
        item.prev := last;
        child.prev := item;
      }
    }

    /** cJSON_DetachItemViaPointer. */
    method Detach(item: Item?, ghost i: nat) returns (r: Item?)
      requires Valid() && (item != null ==> i < |items| && items[i] == item)
      modifies this`child, this`items, (set x | x in items)`next, (set x | x in items)`prev
      ensures Valid() && r == item
      ensures items == if item == null then old(items) else Without(old(items), i)
      ensures item != null ==> items == old(items)[..i] + old(items)[i + 1..]
      ensures item != null ==> item.next == null && item.prev == null && item !in items
    {
      if item == null {
        return null;
      }
      AllApart(child, items);
      Leaves(items, i);
      LinkedWithout(child, items, Nexts(items), Prevs(items), i);
      ghost var n, p := Nexts(items), Prevs(items);
      Unlink(item, i);
      items := Without(items, i);
      Conclude(child, items, NextsWithout(n, i), PrevsWithout(p, i));
      return item;
    }

    /** What cJSON_DetachItemViaPointer does to the links. */
    method Unlink(item: Item, ghost i: nat)
      requires Valid() && i < |items| && items[i] == item
      modifies this`child, (set x | x in items)`next, (set x | x in items)`prev
      ensures child == if i == 0 then old(item.next) else old(child)
      ensures Nexts(Without(items, i)) == NextsWithout(old(Nexts(items)), i)
      ensures Prevs(Without(items, i)) == PrevsWithout(old(Prevs(items)), i)
      ensures item.next == null && item.prev == null
    {
      AllApart(child, items);
      FirstIs(child, items, i);
      LinksAt(child, items, i);
      ghost var n, p := Nexts(items), Prevs(items);
      hide Linked, Siblings, IndexOf, Distinct, Without, NextsWithout, PrevsWithout;
      if item != child {
        item.prev.next := item.next;
      }
      if item.next != null {
        item.next.prev := item.prev;
      }
      if item == child {
        child := item.next;
      } else if item.next == null {
        child.prev := item.prev;
      }
      item.prev, item.next := null, null;
      hide At, Before;
      assert NextsRelinked(items, n, i - 1, n[i], i) by {
        Indexed(items);
      }
      assert PrevsRelinked(items, p, if i + 1 < |items| then i + 1 else 0, p[i], i) by {
        Indexed(items);
      }
      RelinkedWithout(items, n, p, i);
    }

    /** cJSON_DetachItemFromArray. */
    method DetachAt(which: int) returns (r: Item?)
      requires Valid()
      modifies this`child, this`items, (set x | x in items)`next, (set x | x in items)`prev
      ensures Valid()
      ensures r == if 0 <= which then At(old(items), which) else null
      ensures items == if r == null then old(items) else Without(old(items), which)
      ensures r != null ==> items == old(items)[..which] + old(items)[which + 1..]
      ensures r != null ==> r.next == null && r.prev == null && r !in items
    {
      if which < 0 {
        return null;
      }
      var item := GetArrayItem(which);
      r := Detach(item, which);
    }

    /**
     cJSON_InsertItemInArray. When there is no item at `which`, the new one goes to the end,
     with the same care as in Add. In front of another item its links are not looked at, but an
     item that is a child already makes the links run in a circle or leaves them torn; one that
     is null is dereferenced.
     */
    method InsertAt(which: int, item: Item?) returns (ok: bool)
      requires Valid() && (0 <= which < |items| ==> item != null)
      modifies this`child, this`items, Links(item)`next, Links(item)`prev
      ensures ok <==> which >= 0 && (which < |old(items)| || (item != null && item != this))
      ensures items == if ok then With(old(items), which, item) else old(items)
      ensures ok ==> items == if which < |old(items)| then old(items)[..which] + [item] + old(items)[which..] else old(items) + [item]
      ensures !ok ==> Valid()
      ensures ok ==> (Valid() <==> old(item !in items && item != this && (which < |items| || items == [] || item.next == null)))
      ensures ok && !Valid() ==> if item == this then Siblings(child, items) else forall s :: !Siblings(child, s)
    {
      if which < 0 {
        return false;
      }
      var after := GetArrayItem(which);
      if after == null {
        ok := Add(item);
        return;
      }
      InsertBefore(after, item, which);
      return true;
    }

    /** Its case of an item at that place. */
    method InsertBefore(after: Item, item: Item, ghost i: nat)
      requires Valid() && i < |items| && items[i] == after
      modifies this`child, this`items, Links(item)`next, Links(item)`prev
      ensures items == With(old(items), i, item)
      ensures if item !in old(items) then Siblings(child, items) && (this in items <==> item == this) else forall s :: !Siblings(child, s)
    {
      ghost var s, n, p, first := items, Nexts(items), Prevs(items), child;
      AllApart(child, s);
      assert Linked(first, s, n, p);
      Joins(s, i, item);
      LinkBefore(after, item, i, n, p);
      hide Linked, Siblings, Distinct, IndexOf, With;
      items := With(s, i, item);
      AfterLinkBefore(first, child, s, n, p, i, item);
    }

    /** What cJSON_InsertItemInArray does to the links. */
    method LinkBefore(after: Item, item: Item, ghost i: nat, ghost n: seq<Item?>, ghost p: seq<Item?>)
      requires Valid() && i < |items| && items[i] == after && n == Nexts(items) && p == Prevs(items)
      modifies this`child, Links(item)`next, Links(item)`prev
      ensures child == if i == 0 then item else old(child)
      ensures LinkedBefore(items, n, p, i, item)
    {
      AllApart(child, items);
      FirstIs(child, items, i);
      LinksAt(child, items, i);
      if i > 0 { LinksAt(child, items, i - 1); }
      hide Linked, Siblings, IndexOf, Distinct, NextsBut, PrevsBut;
      PointBack(after, item, i, n, p);
      if after == child {
        child := item;
      } else {
        PointForward(after, item, i, n, p);
      }
    }

    /** Its first part: the new item points to both sides, and the one behind points back to it. */
    method PointBack(after: Item, item: Item, ghost i: nat, ghost n: seq<Item?>, ghost p: seq<Item?>)
      requires i < |items| && items[i] == after && n == Nexts(items) && p == Prevs(items) && Distinct(items)
      modifies item`next, item`prev, after`prev
      ensures item.next == after && item.prev == if items[i] == item then item else p[i]
      ensures NextsBut(items, n, -1, item, -1) && PrevsBut(items, p, i, item, -1)
    {
      Indexed(items);
      hide Distinct, IndexOf;
      item.next, item.prev := after, after.prev;
      after.prev := item;
    }

    /** Its last part: the one in front points to it. */
    method PointForward(after: Item, item: Item, ghost i: nat, ghost n: seq<Item?>, ghost p: seq<Item?>)
      requires 0 < i < |items| == |n| == |p| && items[i] == after && Distinct(items) && p[i] == items[i - 1] && n[i - 1] == after
      requires item.next == after && item.prev == if items[i] == item then item else p[i]
      requires NextsBut(items, n, -1, item, -1)
      modifies Links(item)`next
      ensures item.next == if items[i - 1] == item then item else after
      ensures NextsBut(items, n, i - 1, item, -1)
    {
      Indexed(items);
      hide Distinct, IndexOf;
      item.prev.next := item;
    }

    /**
     cJSON_ReplaceItemViaPointer. The item replaced is left without links. A replacement that is
     another child leaves no chain, but for one case: when the first child replaces the last of
     three or more, it is left alone in the list.
     */
    method Replace(item: Item?, replacement: Item?, ghost i: nat) returns (ok: bool)
      requires Valid() && (item != null ==> i < |items| && items[i] == item)
      modifies this`child, this`items, Links(replacement)`next, Links(replacement)`prev
      ensures ok <==> item != null && replacement != null
      ensures !ok || replacement == item ==> Valid() && items == old(items)
      ensures ok && replacement != item ==> item.next == null && item.prev == null
      ensures ok && replacement !in old(items) ==>
        items == old(items)[i := replacement] && item !in items && Siblings(child, items) && (Valid() <==> replacement != this)
      ensures ok && replacement in old(items) && replacement != item ==>
        if FirstForLast(old(items), i, replacement) then Valid() && items == [replacement] else forall s :: !Siblings(child, s)
    {
      if child == null || replacement == null || item == null {
        return false;
      }
      if replacement == item {
        return true;
      }
      ghost var s, n, p, first := items, Nexts(items), Prevs(items), child;
      AllApart(child, s);
      assert Linked(first, s, n, p);
      Exchange(item, replacement, i, n, p);
      hide Linked, Siblings, Distinct, IndexOf;
      items := if FirstForLast(s, i, replacement) then [replacement] else s[i := replacement];
      AfterExchange(first, child, s, n, p, i, replacement);
      return true;
    }

    /** What cJSON_ReplaceItemViaPointer does to the links. */
    method Exchange(item: Item, replacement: Item, ghost i: nat, ghost n: seq<Item?>, ghost p: seq<Item?>)
      requires Valid() && i < |items| && items[i] == item && replacement != item && n == Nexts(items) && p == Prevs(items)
      modifies this`child, Links(replacement)`next, Links(replacement)`prev
      ensures child == if i == 0 then replacement else old(child)
      ensures Exchanged(items, n, p, i, replacement)
    {
      AllApart(child, items);
      FirstIs(child, items, i);
      FirstIs(child, items, |items| - 1);
      LinksAt(child, items, 0);
      LinksAt(child, items, i);
      LinkedAt(child, items, n, p, i);
      hide Linked, Siblings, IndexOf, Distinct, NextsBut, PrevsBut;
      Adopt(item, replacement, i, n, p);
      if child == item {
        PutFirst(replacement, n, p);
      } else {
        PutInside(replacement, i, n, p);
      }
      ClearLinks(item, i, n, p, replacement);
    }

    /** Its first part: the replacement takes the links, and the item behind points back to it. */
    method Adopt(item: Item, replacement: Item, ghost i: nat, ghost n: seq<Item?>, ghost p: seq<Item?>)
      requires i < |items| && items[i] == item && n == Nexts(items) && p == Prevs(items) && Distinct(items) && replacement != item
      requires n[i] == At(items, i + 1)
      modifies Links(replacement)`next, Links(replacement)`prev
      ensures NextsBut(items, n, -1, replacement, -1) && PrevsBut(items, p, i + 1, replacement, -1)
      ensures replacement.next == n[i]
      ensures replacement.prev == if At(items, i + 1) == replacement then replacement else p[i]
    {
      Indexed(items);
      hide Distinct, IndexOf;
      replacement.next, replacement.prev := item.next, item.prev;
      if replacement.next != null {
        replacement.next.prev := replacement;
      }
    }

    /** Its next part, for the first child. */
    method PutFirst(replacement: Item, ghost n: seq<Item?>, ghost p: seq<Item?>)
      requires 0 < |items| == |n| == |p| && child == items[0] && replacement != items[0] && Distinct(items)
      requires p[0] == items[|items| - 1] && PrevsBut(items, p, 1, replacement, -1)
      modifies this`child, replacement`prev
      ensures child == replacement && PrevsBut(items, p, 1, replacement, -1)
      ensures replacement.prev == if |items| == 1 then replacement else old(replacement.prev)
    {
      Indexed(items);
      hide Distinct, IndexOf;
      if child.prev == child {
        replacement.prev := replacement;
      }
      child := replacement;
    }

    /** The same for another: the item in front points to the replacement. */
    method PutInside(replacement: Item, ghost i: nat, ghost n: seq<Item?>, ghost p: seq<Item?>)
      requires 0 < i < |items| == |n| == |p| && Distinct(items) && child == items[0] && replacement != items[i]
      requires n[i] == At(items, i + 1) && p[i] == items[i - 1] && n[i - 1] == items[i]
      requires NextsBut(items, n, -1, replacement, -1) && PrevsBut(items, p, i + 1, replacement, -1)
      requires replacement.next == n[i] && replacement.prev == if n[i] == replacement then replacement else p[i]
      modifies Links(replacement)`next, Links(replacement)`prev
      ensures var before, behind := items[i - 1] == replacement, n[i] == replacement;
              var atEnd := i + 1 == |items| && !before;
              && NextsBut(items, n, if behind then -1 else i - 1, replacement, -1)
              && PrevsBut(items, p, if atEnd then 0 else i + 1, replacement, -1)
              && replacement.next == (if before || behind then replacement else n[i])
              && replacement.prev == (if behind || (atEnd && items[0] == replacement) then replacement else p[i])
    {
      Indexed(items);
      hide Distinct, IndexOf;
      if replacement.prev != null {
        replacement.prev.next := replacement;
      }
      if replacement.next == null {
        child.prev := replacement;
      }
    }

    /** Its end: the item replaced points nowhere. */
    method ClearLinks(item: Item, ghost i: nat, ghost n: seq<Item?>, ghost p: seq<Item?>, ghost x: Item)
      requires i < |items| == |n| == |p| && items[i] == item && Distinct(items) && x != item
      modifies item`next, item`prev
      ensures item.next == null && item.prev == null
      ensures forall j :: old(NextsBut(items, n, j, x, -1)) ==> NextsBut(items, n, j, x, i)
      ensures forall j :: old(PrevsBut(items, p, j, x, -1)) ==> PrevsBut(items, p, j, x, i)
    {
      Indexed(items);
      hide IndexOf, Distinct;
      item.next, item.prev := null, null;
    }

    /** A child that is detached and inserted where it was leaves the children as they were. */
    method DetachAndInsert(which: int)
      requires Valid()
      modifies this`child, this`items, (set x | x in items)`next, (set x | x in items)`prev
      ensures Valid() && items == old(items)
    {
      var r := DetachAt(which);
      if r != null {
        OperationsMatch(old(items), which, r);
        var ok := InsertAt(which, r);
      }
    }

    /** An item that is inserted and detached again leaves the children as they were, and has no links. */
    method InsertAndDetach(which: nat, item: Item)
      requires Valid() && item !in items && item != this && item.next == null
      modifies this`child, this`items, Links(item)`next, Links(item)`prev
      ensures Valid() && items == old(items) && item.next == null && item.prev == null
    {
      OperationsMatch(items, which, item);
      var size := GetArraySize();
      var ok := InsertAt(which, item);
      var r := DetachAt(if which < size then which else size);
    }

    /** cJSON_ReplaceItemInArray. */
    method ReplaceAt(which: int, replacement: Item?) returns (ok: bool)
      requires Valid()
      modifies this`child, this`items, Links(replacement)`next, Links(replacement)`prev
      ensures ok <==> 0 <= which < |old(items)| && replacement != null
      ensures !ok ==> Valid() && items == old(items)
      ensures ok ==>
        if replacement !in old(items) || replacement == old(items)[which]
        then items == old(items)[which := replacement] && (Valid() <==> replacement != this)
        else if FirstForLast(old(items), which, replacement) then Valid() && items == [replacement]
        else forall s :: !Siblings(child, s)
    {
      if which < 0 {
        return false;
      }
      var item := GetArrayItem(which);
      hide Siblings;
      ok := Replace(item, replacement, which);
    }
  }
}
