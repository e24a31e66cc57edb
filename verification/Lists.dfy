/**
 What the loops over linked lists look for and leave: the first element of a kind, the list
 without it, and the list without all of them; and some facts of concatenation.
 */
module Lists {

  /** The position of the first element that satisfies `f`, or the length of the list. */
  function Find<T>(s: seq<T>, f: T -> bool): (i: nat)
    ensures i <= |s|
    ensures i < |s| ==> f(s[i])
    ensures forall j :: 0 <= j < i ==> !f(s[j])
  {
    if s == [] || f(s[0]) then 0 else 1 + Find(s[1..], f)
  }

  /** The list without the element at `i`, if there is one. */
  function Cut<T>(s: seq<T>, i: nat): seq<T> {
    if i < |s| then s[..i] + s[i + 1..] else s
  }

  /** The list with the first such element unlinked. */
  function Unlinked<T>(s: seq<T>, f: T -> bool): seq<T> { Cut(s, Find(s, f)) }

  /** The list without any such element. */
  function Others<T>(s: seq<T>, f: T -> bool): seq<T> {
    if s == [] then [] else (if f(s[0]) then [] else [s[0]]) + Others(s[1..], f)
  }

  predicate AtMostOne<T>(s: seq<T>, f: T -> bool) {
    forall i, j :: 0 <= i < j < |s| ==> !(f(s[i]) && f(s[j]))
  }

  /** One step of a search that has reached `i`. */
  lemma FindFrom<T>(s: seq<T>, f: T -> bool, i: nat)
    requires i < |s|
    ensures Find(s[i..], f) == if f(s[i]) then 0 else 1 + Find(s[i + 1..], f)
  {
    assert s[i..][1..] == s[i + 1..];
  }

  lemma UnlinkedStep<T>(s: seq<T>, f: T -> bool)
    requires s != []
    ensures Unlinked(s, f) == if f(s[0]) then s[1..] else [s[0]] + Unlinked(s[1..], f)
  {
    var i := Find(s[1..], f);
    assert Find(s, f) == if f(s[0]) then 0 else i + 1;
    CutStep(s, i);
    hide Find, Cut;
  }

  lemma CutStep<T>(s: seq<T>, i: nat)
    requires s != []
    ensures Cut(s, 0) == s[1..] && Cut(s, i + 1) == [s[0]] + Cut(s[1..], i)
  {
    if i + 1 < |s| {
      var t := s[1..];
      CutParts(s, i);
      Associative([s[0]], t[..i], t[i + 1..]);
    }
  }

  lemma CutParts<T>(s: seq<T>, i: nat)
    requires i + 1 < |s|
    ensures s[..i + 1] == [s[0]] + s[1..][..i] && s[i + 2..] == s[1..][i + 1..]
  {
  }

  lemma {:induction false} NoneToRemove<T>(s: seq<T>, f: T -> bool)
    requires forall x :: x in s ==> !f(x)
    ensures Others(s, f) == s
  {
    if s != [] {
      assert forall x :: x in s[1..] ==> x in s;
      NoneToRemove(s[1..], f);
    }
  }

  /** When there is at most one, unlinking the first leaves exactly the others, in order. */
  lemma {:induction false} UnlinkedIsOthers<T>(s: seq<T>, f: T -> bool)
    requires AtMostOne(s, f)
    ensures Unlinked(s, f) == Others(s, f)
  {
    if s != [] {
      UnlinkedStep(s, f);
      assert forall k :: 0 <= k < |s| - 1 ==> s[1..][k] == s[k + 1];
      if f(s[0]) {
        NoneToRemove(s[1..], f);
      } else {
        UnlinkedIsOthers(s[1..], f);
      }
    }
  }

  lemma {:induction false} OthersMembers<T(!new)>(s: seq<T>, f: T -> bool)
    ensures forall x :: x in Others(s, f) <==> x in s && !f(x)
  {
    if s != [] {
      OthersMembers(s[1..], f);
      assert s == [s[0]] + s[1..];
    }
  }

  lemma {:induction false} OthersOfConcat<T>(a: seq<T>, b: seq<T>, f: T -> bool)
    ensures Others(a + b, f) == Others(a, f) + Others(b, f)
  {
    if a == [] {
      assert a + b == b;
    } else {
      assert (a + b)[1..] == a[1..] + b;
      OthersOfConcat(a[1..], b, f);
    }
  }

  /** What holds of any two elements in order holds of any two that are left. */
  predicate Pairwise<T>(s: seq<T>, p: (T, T) -> bool) {
    forall i, j :: 0 <= i < j < |s| ==> p(s[i], s[j])
  }

  lemma {:induction false} OthersPairwise<T(!new)>(s: seq<T>, f: T -> bool, p: (T, T) -> bool)
    requires Pairwise(s, p)
    ensures Pairwise(Others(s, f), p)
  {
    if s != [] {
      var rest := Others(s[1..], f);
      assert forall k :: 0 <= k < |s| - 1 ==> s[1..][k] == s[k + 1];
      OthersPairwise(s[1..], f, p);
      OthersMembers(s[1..], f);
      forall j | 0 <= j < |rest| ensures p(s[0], rest[j]) {
        assert rest[j] in rest;
        var k :| 0 <= k < |s[1..]| && s[1..][k] == rest[j];
        assert p(s[0], s[k + 1]);
      }
    }
  }

  /** The last part of a beginning. */
  lemma Suffix<T>(m: seq<T>, p: seq<T>, x: seq<T>)
    requires p + x <= m
    ensures p <= m && m[|p|..|p| + |x|] == x
  {
    assert m[..|p + x|] == p + x;
    assert m[..|p|] == (p + x)[..|p|] && m[|p|..|p| + |x|] == (p + x)[|p|..];
  }

  lemma ThreeParts<T>(m: seq<T>, i: nat, j: nat)
    requires i <= j <= |m|
    ensures m == m[..i] + m[i..j] + m[j..]
  {
  }

  lemma Nothing<T>(a: seq<T>, b: seq<T>)
    ensures a + [] == a && [] + b == b
  {
  }

  lemma DropNone<T>(s: seq<T>)
    ensures s[0..] == s
  {
  }

  lemma DropOneMore<T>(s: seq<T>, k: nat)
    requires 0 < k <= |s|
    ensures s[1..][k - 1..] == s[k..]
  {
  }

  lemma DropDrop<T>(s: seq<T>, a: nat, b: nat)
    requires a + b <= |s|
    ensures s[a..][b..] == s[a + b..]
  {
  }

  lemma HeadJoin<T>(s: seq<T>, a: nat, b: nat)
    requires a + b <= |s|
    ensures s[..a] + s[a..][..b] == s[..a + b]
  {
  }

  lemma Associative<T>(a: seq<T>, b: seq<T>, c: seq<T>)
    ensures a + (b + c) == a + b + c
  {
  }

  lemma Associative4<T>(a: seq<T>, b: seq<T>, c: seq<T>, d: seq<T>)
    ensures a + (b + c + d) == a + b + c + d
  {
  }

  lemma Associative5<T>(a: seq<T>, b: seq<T>, c: seq<T>, d: seq<T>, e: seq<T>)
    ensures a + (b + c + d + e) == a + b + c + d + e
  {
  }

  lemma SplitAt<T>(s: seq<T>, i: nat)
    requires i < |s|
    ensures s == s[..i] + ([s[i]] + s[i + 1..])
  {
  }

  /** The parts of a concatenation. */
  lemma Parts<T>(a: seq<T>, b: seq<T>, c: seq<T>)
    ensures (a + b + c)[..|a| + |b|] == a + b && (a + b + c)[|a| + |b|..] == c
  {
  }
}
