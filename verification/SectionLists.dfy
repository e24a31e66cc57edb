/**
 Section lists given up after or instead of an installation: all of a list, or one section of
 each of some types (app-mgr/app-manager/module_wasm_app.c).
 */
module SectionLists {
  import opened Chains
  import opened InstallState
  import opened Lists

  function TypeIs(ty: nat): Section -> bool { (s: Section) => s.ty == ty }

  /** The sections left when the first of each of the types, one after the other, is taken out. */
  function Left(sections: seq<Section>, types: seq<nat>): seq<Section>
    decreases |types|
  {
    if types == [] then sections else Left(Rest(sections, types[0]), types[1..])
  }

  function Rest(sections: seq<Section>, ty: nat): seq<Section> { Unlinked(sections, TypeIs(ty)) }

  /** The sections taken out, in that order. */
  function Taken(sections: seq<Section>, types: seq<nat>): seq<Section>
    decreases |types|
  {
    if types == [] then [] else First(sections, types[0]) + Taken(Rest(sections, types[0]), types[1..])
  }

  function First(sections: seq<Section>, ty: nat): seq<Section> {
    var i := Find(sections, TypeIs(ty));
    if i < |sections| then [sections[i]] else []
  }

  function Count(sections: seq<Section>, ty: nat): nat {
    if sections == [] then 0 else (if sections[0].ty == ty then 1 else 0) + Count(sections[1..], ty)
  }

  function Times(types: seq<nat>, ty: nat): nat {
    if types == [] then 0 else (if types[0] == ty then 1 else 0) + Times(types[1..], ty)
  }

  /** `a` is what remains of `b` when some of its sections are taken out. */
  predicate Subsequence(a: seq<Section>, b: seq<Section>)
    decreases |b|
  {
    if a == [] then true
    else if b == [] then false
    else (a[0] == b[0] && Subsequence(a[1..], b[1..])) || Subsequence(a, b[1..])
  }

  lemma {:induction false} CountRest(sections: seq<Section>, ty: nat, t: nat)
    ensures Count(Rest(sections, ty), t) == if t == ty && Count(sections, t) > 0 then Count(sections, t) - 1 else Count(sections, t)
  {
    if sections != [] {
      UnlinkedStep(sections, TypeIs(ty));
      if sections[0].ty != ty {
        CountRest(sections[1..], ty, t);
        assert ([sections[0]] + Rest(sections[1..], ty))[1..] == Rest(sections[1..], ty);
      }
    }
  }

  /** Of each type exactly as many sections are taken out as it is named, as far as there are any. */
  lemma {:induction false} LeftPerType(sections: seq<Section>, types: seq<nat>, t: nat)
    ensures Count(Left(sections, types), t) ==
            if Count(sections, t) >= Times(types, t) then Count(sections, t) - Times(types, t) else 0
    decreases |types|
  {
    if types != [] {
      CountRest(sections, types[0], t);
      LeftPerType(Rest(sections, types[0]), types[1..], t);
    }
  }

  lemma {:induction false} RestIsSubsequence(sections: seq<Section>, ty: nat)
    ensures Subsequence(Rest(sections, ty), sections)
  {
    if sections != [] {
      UnlinkedStep(sections, TypeIs(ty));
      if sections[0].ty == ty {
        SubsequenceOfItself(sections[1..]);
      } else {
        RestIsSubsequence(sections[1..], ty);
        assert Rest(sections, ty)[1..] == Rest(sections[1..], ty);
      }
    }
  }

  lemma {:induction false} SubsequenceOfItself(s: seq<Section>)
    ensures Subsequence(s, s)
  {
    if s != [] {
      SubsequenceOfItself(s[1..]);
    }
  }

  lemma {:induction false} SubsequenceTransitive(a: seq<Section>, b: seq<Section>, c: seq<Section>)
    requires Subsequence(a, b) && Subsequence(b, c)
    ensures Subsequence(a, c)
    decreases |b| + |c|
  {
    if a != [] && b != [] {
      if b[0] == c[0] && Subsequence(b[1..], c[1..]) {
        if a[0] == b[0] && Subsequence(a[1..], b[1..]) {
          SubsequenceTransitive(a[1..], b[1..], c[1..]);
        } else {
          SubsequenceTransitive(a, b[1..], c[1..]);
        }
      } else {
        SubsequenceTransitive(a, b, c[1..]);
      }
    }
  }

  /** The sections left keep their order. */
  lemma {:induction false} LeftInOrder(sections: seq<Section>, types: seq<nat>)
    ensures Subsequence(Left(sections, types), sections)
    decreases |types|
  {
    if types == [] {
      SubsequenceOfItself(sections);
    } else {
      RestIsSubsequence(sections, types[0]);
      LeftInOrder(Rest(sections, types[0]), types[1..]);
      SubsequenceTransitive(Left(sections, types), Rest(sections, types[0]), sections);
    }
  }

  /** How a section body is given back: text of AOT code was mapped, everything else allocated. */
  datatype Release = Freed(section: Section) | Unmapped(section: Section)

  function ReleaseOf(s: Section, aot: bool): Release {
    if aot && s.ty == AOT_SECTION_TYPE_TEXT then Unmapped(s) else Freed(s)
  }

  function Releases(sections: seq<Section>, aot: bool): (r: seq<Release>)
    ensures |r| == |sections| && forall i :: 0 <= i < |r| ==> r[i] == ReleaseOf(sections[i], aot)
  {
    if sections == [] then [] else [ReleaseOf(sections[0], aot)] + Releases(sections[1..], aot)
  }

  class SectionList {
    const aot: bool
    var head: Node?<Section>
    ghost var nodes: seq<Node<Section>>
    /** What has been given back so far. */
    var released: seq<Release>

    constructor (aot: bool, head: Node?<Section>, ghost nodes: seq<Node<Section>>)
      requires Linked(head, nodes)
      ensures this.aot == aot && Valid() && this.nodes == nodes && released == []
    {
      this.aot, this.head, this.nodes, released := aot, head, nodes, [];
    }

    ghost predicate Valid()
      reads this, nodes
    {
      Linked(head, nodes)
    }

    /** destroy_all_wasm_sections, destroy_all_aot_sections. */
    method DestroyAll()
      requires Valid()
      modifies this
      ensures Valid() && nodes == [] && released == old(released) + Releases(old(Values(nodes)), aot)
    {
      var cur := head;
      ghost var i: nat, all := 0, Values(nodes);
      DropNone(all);
      LinkAtHead(head, nodes);
      hide ReleaseOf, Releases, Values, Linked;
      while cur != null
        invariant i <= |nodes| == |all| && cur == At(nodes, i) && nodes == old(nodes) && Linked(head, nodes)
        invariant released + Releases(all[i..], aot) == old(released) + Releases(all, aot)
        decreases |nodes| - i
      {
        LinkAt(head, nodes, i);
        ValueAt(nodes, i);
        var next := cur.next;
        ReleasesHead(all, i, aot);
        Associative(released, [ReleaseOf(all[i], aot)], Releases(all[i + 1..], aot));
        released := released + [ReleaseOf(cur.value, aot)];
        cur, i := next, i + 1;
      }
      NothingReleased(all[i..], released, aot);
      head, nodes := null, [];
    }

    /** destroy_part_wasm_sections, destroy_part_aot_sections. */
    method DestroyPart(types: seq<nat>)
      requires Valid()
      modifies this, nodes
      ensures Valid() && Values(nodes) == Left(old(Values(nodes)), types)
      ensures released == old(released) + Releases(Taken(old(Values(nodes)), types), aot)
    {
      var i := 0;
      ghost var all := nodes;
      assert types[0..] == types;
      hide Left, Taken, Releases, First, Rest, Values, Linked;
      while i < |types|
        invariant i <= |types| && Valid() && Within(nodes, all)
        invariant Left(Values(nodes), types[i..]) == Left(old(Values(nodes)), types)
        invariant released + Releases(Taken(Values(nodes), types[i..]), aot) ==
                  old(released) + Releases(Taken(old(Values(nodes)), types), aot)
      {
        TakeStep(Values(nodes), types, i, aot, released);
        TakeFirst(types[i], all);
        i := i + 1;
      }
      NothingToTake(Values(nodes), types[i..], aot, released);
    }

    /** The walk for one type: the first section of it, at position `i`, and the node before. */
    method FindType(ty: nat) returns (cur: Node?<Section>, prev: Node?<Section>, ghost i: nat)
      requires Valid()
      ensures i == Find(Values(nodes), TypeIs(ty)) && cur == At(nodes, i)
      ensures prev == if i == 0 then null else nodes[i - 1]
    {
      prev, cur, i := null, head, 0;
      ghost var v := Values(nodes);
      assert v[0..] == v;
      hide Values, Find, Linked;
      LinkAtHead(head, nodes);
      while cur != null
        invariant i <= |nodes| && cur == At(nodes, i) && prev == if i == 0 then null else nodes[i - 1]
        invariant |v| == |nodes| && Find(v, TypeIs(ty)) == i + Find(v[i..], TypeIs(ty))
        decreases |nodes| - i
      {
        LinkAt(head, nodes, i);
        ValueAt(nodes, i);
        FindFrom(v, TypeIs(ty), i);
        if cur.value.ty == ty {
          return;
        }
        prev, cur, i := cur, cur.next, i + 1;
      }
    }

    /** What is done with it: it is unlinked behind the node before, or at the head, and given back. */
    method TakeFirst(ty: nat, ghost all: seq<Node<Section>>)
      requires Valid() && Within(nodes, all)
      modifies this, all
      ensures Valid() && Values(nodes) == Rest(old(Values(nodes)), ty) && Within(nodes, all)
      ensures released == old(released) + Releases(First(old(Values(nodes)), ty), aot)
    {
      hide Find, Rest, First, Releases, Values, Linked;
      var cur, prev, i := FindType(ty);
      if cur != null {
        ValueAt(nodes, i);
        FirstFound(Values(nodes), ty, i, aot);
        released := released + [ReleaseOf(cur.value, aot)];
        UnlinkNode(cur, prev, i, all);
      } else {
        ValuesCount(nodes);
        NoneFound(Values(nodes), ty, released, aot);
      }
    }

    method UnlinkNode(cur: Node<Section>, prev: Node?<Section>, ghost i: nat, ghost all: seq<Node<Section>>)
      requires Valid() && Within(nodes, all) && i < |nodes| && cur == nodes[i] && prev == if i == 0 then null else nodes[i - 1]
      modifies this`head, this`nodes, all
      ensures Valid() && Values(nodes) == Cut(old(Values(nodes)), i) && Within(nodes, all)
    {
      ValuesCut(nodes, i);
      LinkAt(head, nodes, i);
      var next := cur.next;
      ghost var rest := nodes[..i] + nodes[i + 1..];
      if prev != null {
        assert prev in nodes;
        Unlink(prev, next, head, nodes, i);
      } else {
        Tail(head, nodes);
        head := next;
        assert rest == nodes[1..];
      }
      nodes := rest;
    }
  }

  lemma LinkAtHead(head: Node?<Section>, nodes: seq<Node<Section>>)
    requires Linked(head, nodes)
    ensures head == At(nodes, 0)
  {
  }

  lemma ValuesCount(nodes: seq<Node<Section>>)
    ensures |Values(nodes)| == |nodes|
  {
  }

  lemma NothingReleased(sections: seq<Section>, released: seq<Release>, aot: bool)
    requires sections == []
    ensures released + Releases(sections, aot) == released
  {
  }

  lemma FirstFound(all: seq<Section>, ty: nat, i: nat, aot: bool)
    requires i < |all| && Find(all, TypeIs(ty)) == i
    ensures Releases(First(all, ty), aot) == [ReleaseOf(all[i], aot)] && Rest(all, ty) == Cut(all, i)
  {
  }

  lemma NoneFound(all: seq<Section>, ty: nat, released: seq<Release>, aot: bool)
    requires Find(all, TypeIs(ty)) >= |all|
    ensures released + Releases(First(all, ty), aot) == released && Rest(all, ty) == all
  {
  }

  lemma TakeStep(sections: seq<Section>, types: seq<nat>, i: nat, aot: bool, released: seq<Release>)
    requires i < |types|
    ensures var first, rest := First(sections, types[i]), Rest(sections, types[i]);
            && Left(sections, types[i..]) == Left(rest, types[i + 1..])
            && released + Releases(Taken(sections, types[i..]), aot) ==
               released + Releases(first, aot) + Releases(Taken(rest, types[i + 1..]), aot)
  {
    hide First, Rest;
    assert types[i..][1..] == types[i + 1..];
    var first, more := First(sections, types[i]), Taken(Rest(sections, types[i]), types[i + 1..]);
    ReleasesJoin(first, more, aot);
    Associative(released, Releases(first, aot), Releases(more, aot));
  }

  lemma NothingToTake(sections: seq<Section>, types: seq<nat>, aot: bool, released: seq<Release>)
    requires types == []
    ensures Left(sections, types) == sections && released + Releases(Taken(sections, types), aot) == released
  {
  }

  lemma ReleasesHead(sections: seq<Section>, i: nat, aot: bool)
    requires i < |sections|
    ensures Releases(sections[i..], aot) == [ReleaseOf(sections[i], aot)] + Releases(sections[i + 1..], aot)
  {
    assert sections[i..][1..] == sections[i + 1..];
  }

  lemma {:induction false} ReleasesJoin(a: seq<Section>, b: seq<Section>, aot: bool)
    ensures Releases(a + b, aot) == Releases(a, aot) + Releases(b, aot)
  {
  }

  lemma RestAndFirst(sections: seq<Section>, ty: nat, aot: bool)
    ensures multiset(Releases(sections, aot)) ==
            multiset(Releases(First(sections, ty), aot)) + multiset(Releases(Rest(sections, ty), aot))
  {
    var i := Find(sections, TypeIs(ty));
    if i < |sections| {
      var a, x, z := sections[..i], [sections[i]], sections[i + 1..];
      SplitAt(sections, i);
      ReleasesJoin(a, x + z, aot);
      ReleasesJoin(x, z, aot);
      ReleasesJoin(a, z, aot);
      hide Releases;
    }
  }

  /**
   Nothing is given back twice and nothing is lost: a list given up in part and then as a whole
   gives back each section once, in the way it has to be given back.
   */
  lemma {:induction false} EverySectionOnce(sections: seq<Section>, types: seq<nat>, aot: bool)
    ensures multiset(Releases(sections, aot)) ==
            multiset(Releases(Taken(sections, types), aot)) + multiset(Releases(Left(sections, types), aot))
    decreases |types|
  {
    if types != [] {
      var rest := Rest(sections, types[0]);
      RestAndFirst(sections, types[0], aot);
      EverySectionOnce(rest, types[1..], aot);
      ReleasesJoin(First(sections, types[0]), Taken(rest, types[1..]), aot);
      hide Releases, First, Rest;
    }
  }

  /** One type after the other: the first section of it goes, if there is one, and the rest stays as it is. */
  lemma OneTypeAtATime(sections: seq<Section>, ty: nat, more: seq<nat>)
    ensures Left(sections, []) == sections && Taken(sections, []) == []
    ensures forall i: nat :: IsFirst(sections, ty, i) ==>
              var rest := sections[..i] + sections[i + 1..];
              Left(sections, [ty] + more) == Left(rest, more) && Taken(sections, [ty] + more) == [sections[i]] + Taken(rest, more)
    ensures (forall j :: 0 <= j < |sections| ==> sections[j].ty != ty) ==>
              Left(sections, [ty] + more) == Left(sections, more) && Taken(sections, [ty] + more) == Taken(sections, more)
  {
    FirstAndRest(sections, ty);
    assert ([ty] + more)[1..] == more;
    hide First, Rest, IsFirst;
    Nothing(Taken(sections, more), Taken(sections, more));
  }

  /** The section at `i` is the first of the type. */
  predicate IsFirst(sections: seq<Section>, ty: nat, i: nat) {
    i < |sections| && sections[i].ty == ty && forall j :: 0 <= j < i ==> sections[j].ty != ty
  }

  lemma FirstAndRest(sections: seq<Section>, ty: nat)
    ensures forall i: nat :: IsFirst(sections, ty, i) ==>
              First(sections, ty) == [sections[i]] && Rest(sections, ty) == sections[..i] + sections[i + 1..]
    ensures (forall j :: 0 <= j < |sections| ==> sections[j].ty != ty) ==> First(sections, ty) == [] && Rest(sections, ty) == sections
  {
  }

  /** Text of AOT code, which has type 2, was mapped, and everything else allocated. */
  lemma MappedIsText(s: Section, aot: bool)
    ensures ReleaseOf(s, aot) == if aot && s.ty == 2 then Unmapped(s) else Freed(s)
  {
  }
}
