/**
 Singly linked lists of nodes, as the C code keeps its requests and resources: a head pointer
 and `next` links that end in null.
 */
module Chains {

  class Node<T> {
    const value: T
    var next: Node?<T>

    constructor (value: T)
      ensures this.value == value && next == null
    {
      this.value, next := value, null;
    }
  }

  function At<T>(s: seq<Node<T>>, i: nat): Node?<T> {
    if i < |s| then s[i] else null
  }

  /** `s` is the chain that starts at `head`. */
  ghost predicate Linked<T>(head: Node?<T>, s: seq<Node<T>>)
    reads s
  {
    head == At(s, 0) && forall i {:trigger s[i].next} :: 0 <= i < |s| ==> s[i].next == At(s, i + 1)
  }

  function Values<T>(s: seq<Node<T>>): (v: seq<T>)
    ensures |v| == |s| && forall i :: 0 <= i < |s| ==> v[i] == s[i].value
  {
    if s == [] then [] else [s[0].value] + Values(s[1..])
  }

  lemma LinkAt<T>(head: Node?<T>, s: seq<Node<T>>, i: nat)
    requires Linked(head, s) && i < |s|
    ensures s[i].next == At(s, i + 1)
  {
  }

  /** A chain that ends visits no node twice. */
  lemma {:induction false} Apart<T>(head: Node?<T>, s: seq<Node<T>>, i: nat, j: nat)
    requires Linked(head, s) && i < j < |s|
    ensures s[i] != s[j]
    decreases |s| - j
  {
    if s[i] == s[j] {
      LinkAt(head, s, i);
      LinkAt(head, s, j);
      assert At(s, i + 1) == At(s, j + 1);
      if j + 1 < |s| {
        Apart(head, s, i + 1, j + 1);
      }
    }
  }

  /** The node at `i` is in no other place. */
  lemma OnlyAt<T>(head: Node?<T>, s: seq<Node<T>>, i: nat)
    requires Linked(head, s) && i < |s|
    ensures forall j {:trigger s[j]} :: 0 <= j < |s| && j != i ==> s[j] != s[i]
  {
    forall j | 0 <= j < |s| && j != i ensures s[j] != s[i] {
      if j < i { Apart(head, s, j, i); } else { Apart(head, s, i, j); }
    }
  }

  lemma NotInTail<T>(head: Node?<T>, s: seq<Node<T>>)
    requires Linked(head, s) && s != []
    ensures s[0] !in s[1..] && forall n :: n in s[1..] ==> n in s
  {
    var t := s[1..];
    OnlyAt(head, s, 0);
    forall k | 0 <= k < |t| ensures t[k] != s[0] && t[k] in s { assert t[k] == s[k + 1]; }
  }

  /** `prev->next = next`: the node behind `prev` is unlinked. */
  method Unlink<T>(prev: Node<T>, next: Node?<T>, ghost head: Node?<T>, ghost s: seq<Node<T>>, ghost i: nat)
    requires Linked(head, s) && 0 < i < |s| && prev == s[i - 1] && next == At(s, i + 1)
    modifies prev`next
    ensures Linked(head, s[..i] + s[i + 1..])
  {
    OnlyAt(head, s, i - 1);
    prev.next := next;
    ghost var t := s[..i] + s[i + 1..];
    forall k {:trigger t[k].next} | 0 <= k < |t| ensures t[k].next == At(t, k + 1) {
      assert t[k] == s[if k < i then k else k + 1];
    }
  }

  /** Without its first node a chain begins at the second. */
  lemma Tail<T>(head: Node?<T>, s: seq<Node<T>>)
    requires Linked(head, s) && s != []
    ensures Linked(s[0].next, s[1..])
  {
    var t := s[1..];
    LinkAt(head, s, 0);
    forall k {:trigger t[k].next} | 0 <= k < |t| ensures t[k].next == At(t, k + 1) {
      LinkAt(head, s, k + 1);
    }
  }

  /** A node in front of a chain. */
  lemma Prepended<T>(node: Node<T>, s: seq<Node<T>>)
    requires Linked(node.next, s)
    ensures Linked(node, [node] + s) && Values([node] + s) == [node.value] + Values(s)
  {
    var t := [node] + s;
    assert t[1..] == s;
    forall k {:trigger t[k].next} | 0 <= k < |t| ensures t[k].next == At(t, k + 1) {
      if k > 0 { LinkAt(node.next, s, k - 1); }
    }
  }

  /** A node behind the last one, whose `next` was null. */
  method Attach<T>(last: Node<T>, node: Node<T>, ghost head: Node?<T>, ghost s: seq<Node<T>>)
    requires Linked(head, s) && s != [] && last == s[|s| - 1] && node !in s && node.next == null
    modifies last`next
    ensures Linked(head, s + [node])
  {
    OnlyAt(head, s, |s| - 1);
    last.next := node;
    ghost var t := s + [node];
    forall k {:trigger t[k].next} | 0 <= k < |t| ensures t[k].next == At(t, k + 1) {
      if k < |s| { assert t[k] == s[k]; }
    }
  }

  lemma {:induction false} ValuesOfParts<T>(a: seq<Node<T>>, b: seq<Node<T>>)
    ensures Values(a + b) == Values(a) + Values(b)
  {
  }

  lemma ValueAt<T>(nodes: seq<Node<T>>, k: nat)
    requires k < |nodes|
    ensures |Values(nodes)| == |nodes| && Values(nodes)[k] == nodes[k].value
  {
  }

  lemma ValuesSplit<T>(nodes: seq<Node<T>>, n: nat)
    requires n <= |nodes|
    ensures Values(nodes[n..]) == Values(nodes)[n..] && Values(nodes[..n]) == Values(nodes)[..n]
  {
    assert nodes == nodes[..n] + nodes[n..];
    ValuesOfParts(nodes[..n], nodes[n..]);
    hide Values;
  }

  /** The values of a chain without one of its nodes. */
  lemma ValuesCut<T>(nodes: seq<Node<T>>, i: nat)
    requires i < |nodes|
    ensures Values(nodes[..i] + nodes[i + 1..]) == Values(nodes)[..i] + Values(nodes)[i + 1..]
  {
    hide Values;
    ValuesOfParts(nodes[..i], nodes[i + 1..]);
    ValuesSplit(nodes, i);
    ValuesSplit(nodes, i + 1);
  }

  /** All nodes of one list are in the other. */
  ghost predicate Within<T>(a: seq<Node<T>>, b: seq<Node<T>>) {
    forall n :: n in a ==> n in b
  }
}
