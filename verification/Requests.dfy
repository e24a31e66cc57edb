/**
 The request layer of an app in its own form: a chain of pending transactions, a timer and
 handler calls, changed step by step (app-framework/base/app/request.c). Appending follows the
 comment on the list, a walk to its tail; TransactionAddAsWritten is the loop that is there.
 */
module Requests {
  import opened Bytes
  import opened Chains
  import opened TransactionState

  class Client {
    /** g_transactions and g_trans_timer. */
    var head: Node?<Pending>
    var timer: Timer
    /** Handler calls, with a response and with none. */
    var answered: seq<nat>
    var timedOut: seq<nat>
    ghost var nodes: seq<Node<Pending>>
    ghost var born: seq<nat>
    ghost var sent: seq<nat>
    ghost var now: nat

    constructor ()
      ensures Valid() && AsState() == INITIAL
    {
      head, nodes, timer, answered, timedOut, born, sent, now := null, [], Off, [], [], [], [], 0;
    }

    ghost predicate Valid()
      reads this, nodes
    {
      Linked(head, nodes) && |born| == |nodes|
    }

    ghost function AsState(): State
      reads this
    {
      State(Values(nodes), born, timer, now, sent, answered, timedOut)
    }

    /** transaction_find: the first transaction with this message id, at position `i`. */
    method TransactionFind(mid: nat) returns (t: Node?<Pending>, ghost i: nat)
      requires Valid()
      ensures i == Find(Values(nodes), mid) && t == At(nodes, i)
    {
      ghost var v := Values(nodes);
      t, i := head, 0;
      assert v[0..] == v;
      while t != null
        invariant i <= |nodes| && t == At(nodes, i) && Find(v, mid) == i + Find(v[i..], mid)
        decreases |nodes| - i
      {
        if t.value.mid == mid {
          return;
        }
        LinkAt(head, nodes, i);
        assert v[i..][1..] == v[i + 1..];
        t, i := t.next, i + 1;
      }
    }

    /** transaction_add, as the comment above it says: behind the last transaction. */
    method TransactionAdd(trans: Node<Pending>)
      requires Linked(head, nodes) && trans !in nodes && trans.next == null
      modifies this`head, this`nodes, nodes
      ensures nodes == old(nodes) + [trans] && Linked(head, nodes)
    {
      if head == null {
        Prepended(trans, nodes);
        head, nodes := trans, [trans];
        return;
      }
      var t := head;
      ghost var i: nat := 0;
      while t.next != null
        invariant i < |nodes| && t == nodes[i]
        modifies {}
        decreases |nodes| - i
      {
        LinkAt(head, nodes, i);
        t, i := t.next, i + 1;
      }
      LinkAt(head, nodes, i);
      Attach(t, trans, head, nodes);
      nodes := nodes + [trans];
    }

    /**
     transaction_add as it is written: the loop looks at the first transaction and never moves
     on. After any number of rounds it has come back exactly when at most one was pending.
     */
    method TransactionAddAsWritten(trans: Node<Pending>, rounds: nat) returns (back: bool)
      requires Linked(head, nodes) && trans !in nodes && trans.next == null
      modifies this`head, this`nodes, nodes
      ensures back <==> |old(nodes)| == 0 || (|old(nodes)| == 1 && rounds > 0)
      ensures nodes == (if back then old(nodes) + [trans] else old(nodes)) && Linked(head, nodes)
    {
      if head == null {
        Prepended(trans, nodes);
        head, nodes := trans, [trans];
        return true;
      }
      var t := head;
      LinkAt(head, nodes, 0);
      for round := 0 to rounds
        invariant nodes != [] && t == nodes[0] && nodes == old(nodes) && head == old(head) && Linked(head, nodes)
        invariant round > 0 ==> |nodes| > 1
      {
        LinkAt(head, nodes, 0);
        if t.next == null {
          Attach(t, trans, head, nodes);
          nodes := nodes + [trans];
          return true;
        }
      }
      return false;
    }

    /** transaction_remove, of the transaction at position `i`. */
    method TransactionRemove(trans: Node<Pending>, ghost i: nat)
      requires Linked(head, nodes) && i < |nodes| && nodes[i] == trans
      modifies this`head, this`nodes, nodes
      ensures nodes == Remove(old(nodes), i) && Linked(head, nodes)
    {
      var prev: Node?<Pending>, current: Node?<Pending> := null, head;
      ghost var k: nat := 0;
      while current != null
        invariant k <= i && current == At(nodes, k) && prev == if k == 0 then null else nodes[k - 1]
        modifies {}
        decreases |nodes| - k
      {
        LinkAt(head, nodes, k);
        if current == trans {
          break;
        }
        prev, current, k := current, current.next, k + 1;
      }
      SamePlace(head, nodes, k, i);
      if prev == null {
        Tail(head, nodes);
        head := current.next;
        nodes := nodes[1..];
      } else {
        LinkAt(head, nodes, k);
        Unlink(prev, current.next, head, nodes, k);
        nodes := nodes[..k] + nodes[k + 1..];
      }
    }

    /**
     api_send_request at true time `t`. Without memory, or for a request that does not pack,
     nothing is sent and nothing changes.
     */
    method SendRequest(mid: nat, user: nat, alloc: bool, packs: bool, t: nat)
      requires Valid() && t == now
      modifies this, nodes
      ensures Valid() && AsState() == if alloc && packs then Send(old(AsState()), mid, user) else old(AsState())
    {
      if !alloc {
        return;
      }
      var trans := new Node(Pending(mid, Clock(t), user));
      if !packs {
        return;
      }
      ghost var before, v := nodes, Values(nodes);
      TransactionAdd(trans);
      ValueAdded(before, trans);
      OnlyFirst(head, nodes, |before|);
      hide Linked, Values;
      if trans == head {
        if timer.Off? {
          timer := Armed(t + TIMEOUT_MS);
        }
      }
      born, sent := born + [t], sent + [user];
    }

    /**
     on_response at true time `t`, for a response that unpacks: the handler of the first pending
     request with its message id is called, and that request leaves the list.
     */
    method OnResponse(mid: nat, t: nat)
      requires Valid() && t == now
      modifies this, nodes
      ensures Valid() && AsState() == Respond(old(AsState()), mid)
      ensures forall k :: 0 <= k < |old(nodes)| && FirstWith(old(Values(nodes)), mid, k) ==>
        answered == old(answered) + [old(Values(nodes))[k].user] && Values(nodes) == old(Values(nodes))[..k] + old(Values(nodes))[k + 1..]
      ensures (forall k :: 0 <= k < |old(nodes)| ==> !FirstWith(old(Values(nodes)), mid, k)) ==> AsState() == old(AsState())
    {
      ghost var s := AsState();
      RespondsToFirst(s, mid);
      hide Find, Remove, Rearmed, FirstWith;
      var trans, i := TransactionFind(mid);
      if trans != null {
        ValueAt(nodes, i);
        Answer(trans, t, i);
      }
    }

    /** What it does with the transaction it found: timer, handler, removal. */
    method Answer(trans: Node<Pending>, t: nat, ghost i: nat)
      requires Valid() && i < |nodes| && trans == nodes[i]
      modifies this, nodes
      ensures Valid() && now == old(now) && sent == old(sent) && timedOut == old(timedOut)
      ensures Values(nodes) == Remove(old(Values(nodes)), i) && born == Remove(old(born), i)
      ensures timer == if i > 0 then old(timer) else if |old(nodes)| > 1 then Rearmed(old(Values(nodes))[1], t) else Off
      ensures answered == old(answered) + [trans.value.user]
    {
      ValuesCut(nodes, i);
      born := Remove(born, i);
      UpdateTimer(trans, t, i);
      hide Linked, Values, Rearmed;
      answered := answered + [trans.value.user];
      TransactionRemove(trans, i);
    }

    /** Its timer part: when the first transaction goes, the timer is set for the second or stopped. */
    method UpdateTimer(trans: Node<Pending>, t: nat, ghost i: nat)
      requires Linked(head, nodes) && i < |nodes| && trans == nodes[i]
      modifies this`timer
      ensures timer == if i > 0 then old(timer) else if |nodes| > 1 then Rearmed(Values(nodes)[1], t) else Off
    {
      LinkAt(head, nodes, i);
      OnlyFirst(head, nodes, i);
      hide Elapsed, Clock;
      if trans == head {
        if trans.next != null {
          ValueAt(nodes, 1);
          var elapsed := Elapsed(Clock(t), trans.next.value.time);
          timer := Armed(t + (TIMEOUT_MS - elapsed) % U32);
        } else {
          timer := Off;
        }
      }
    }

    /** One round of the scan: the first transaction goes over to the front of the expired ones. */
    method TakeOne(cur: Node<Pending>, expired: Node?<Pending>, ghost all: seq<Node<Pending>>, ghost k: nat, ghost taken: seq<Node<Pending>>)
      requires k < |all| && cur == all[k] && head == cur && Linked(head, all[k..]) && Linked(expired, taken)
      requires forall n :: n in taken ==> n !in all[k..]
      modifies this`head, all
      ensures head == At(all, k + 1) && Linked(head, all[k + 1..]) && Linked(cur, [cur] + taken)
      ensures forall n :: n in [cur] + taken ==> n !in all[k + 1..]
    {
      ghost var rest := all[k..];
      assert rest[1..] == all[k + 1..] && cur in rest;
      NotInTail(head, rest);
      Tail(head, rest);
      head := cur.next;
      cur.next := expired;
      Prepended(cur, taken);
    }

    /** Moves the expired transactions at the front to a chain of their own, last one first. */
    method TakeExpired(t: nat) returns (expired: Node?<Pending>, ghost taken: seq<Node<Pending>>)
      requires Linked(head, nodes)
      modifies this`head, this`nodes, nodes
      ensures var n := ExpiredPrefix(Values(old(nodes)), t);
              && nodes == old(nodes)[n..] && Linked(head, nodes) && Linked(expired, taken)
              && Users(Values(taken)) == Reverse(Users(Values(old(nodes))[..n]))
    {
      hide Linked, Elapsed, Clock, Values, Users, Reverse, ExpiredPrefix;
      ghost var all, k: nat, list := nodes, 0, Values(nodes);
      expired, taken := null, [];
      NothingTaken(all, head, t);
      var cur := head;
      while cur != null
        invariant k <= |all| && cur == head == At(all, k) && Linked(head, all[k..]) && Linked(expired, taken)
        invariant forall n :: n in taken ==> n !in all[k..]
        invariant ExpiredPrefix(list, t) == k + ExpiredPrefix(list[k..], t)
        invariant Users(Values(taken)) == Reverse(Users(list[..k]))
        decreases |all| - k
      {
        ValueAt(all, k);
        if Elapsed(Clock(t), cur.value.time) >= TIMEOUT_MS {
          ScanStep(list, t, k);
          TakeOne(cur, expired, all, k, taken);
          UsersStep(cur, taken);
          expired, taken := cur, [cur] + taken;
          cur, k := head, k + 1;
        } else {
          break;
        }
      }
      ScanEnds(list, t, k);
      nodes := all[k..];
    }

    /** transaction_timeout_handler: the clock is read at true time `t`, and again at `later`. */
    method TimeoutHandler(t: nat, later: nat)
      requires Valid() && t == now
      modifies this, nodes
      ensures Valid() && AsState() == Expire(old(AsState()), later)
    {
      ghost var s, n := AsState(), ExpiredPrefix(Values(nodes), t);
      ValuesSplit(nodes, n);
      hide Linked, Rearmed, Users, Reverse, ExpiredPrefix, Values, Expire;
      Fire(t, later);
      born, now := born[n..], later;
      ExpiryParts(s, n, later, AsState());
    }

    /** The handler itself, apart from the history kept beside it. */
    method Fire(t: nat, later: nat)
      requires Linked(head, nodes)
      modifies this`head, this`nodes, this`timer, this`timedOut, nodes
      ensures var list := old(Values(nodes));
              var n := ExpiredPrefix(list, t);
              && nodes == old(nodes)[n..] && Linked(head, nodes)
              && timedOut == old(timedOut) + Reverse(Users(list[..n]))
              && timer == if nodes == [] then Off else Rearmed(Values(nodes)[0], later)
    {
      hide Values, Rearmed, Users, Reverse, ExpiredPrefix;
      var cur, taken := TakeExpired(t);
      CallHandlers(cur, taken);
      RestartTimer(later);
    }

    /** Its last part: the timer is set for the first transaction left, or stopped. */
    method RestartTimer(later: nat)
      requires Linked(head, nodes)
      modifies this`timer
      ensures timer == if nodes == [] then Off else Rearmed(Values(nodes)[0], later)
    {
      hide Elapsed, Clock;
      if head != null {
        ValueAt(nodes, 0);
        var elapsed := Elapsed(Clock(later), head.value.time);
        timer := Armed(later + (TIMEOUT_MS - elapsed) % U32);
      } else {
        timer := Off;
      }
    }

    /** Its second loop: the handlers of the expired transactions are called without a response. */
    method CallHandlers(expired: Node?<Pending>, ghost taken: seq<Node<Pending>>)
      requires Linked(expired, taken)
      modifies this`timedOut
      ensures timedOut == old(timedOut) + Users(Values(taken))
    {
      var cur := expired;
      ghost var k: nat := 0;
      assert taken[..0] == [];
      while cur != null
        invariant k <= |taken| && cur == At(taken, k) && timedOut == old(timedOut) + Users(Values(taken[..k]))
        decreases |taken| - k
      {
        UsersAppend(taken, k);
        LinkAt(expired, taken, k);
        timedOut := timedOut + [cur.value.user];
        cur, k := cur.next, k + 1;
      }
      assert taken[..k] == taken;
    }
  }

  /** The transaction at `k` is the first with the message id. */
  predicate FirstWith(list: seq<Pending>, mid: nat, k: nat)
    requires k < |list|
  {
    list[k].mid == mid && forall j :: 0 <= j < k ==> list[j].mid != mid
  }

  lemma RespondsToFirst(s: State, mid: nat)
    requires |s.born| == |s.list|
    ensures var t := Respond(s, mid);
            && (forall k :: 0 <= k < |s.list| && FirstWith(s.list, mid, k) ==>
                 t.answered == s.answered + [s.list[k].user] && t.list == s.list[..k] + s.list[k + 1..])
            && ((forall k :: 0 <= k < |s.list| ==> !FirstWith(s.list, mid, k)) ==> t == s)
  {
    var i := Find(s.list, mid);
    assert i < |s.list| ==> FirstWith(s.list, mid, i);
    assert forall k :: 0 <= k < |s.list| && FirstWith(s.list, mid, k) ==> k == i;
  }

  /** The parts of the state after the handler make up the expiry step. */
  lemma ExpiryParts(s: State, n: nat, later: nat, r: State)
    requires |s.born| == |s.list| && n == ExpiredPrefix(s.list, s.now) && r.list == s.list[n..] && r.born == s.born[n..]
    requires r.timer == (if r.list == [] then Off else Rearmed(r.list[0], later)) && r.now == later
    requires r.sent == s.sent && r.answered == s.answered && r.timedOut == s.timedOut + Reverse(Users(s.list[..n]))
    ensures r == Expire(s, later)
  {
    hide ExpiredPrefix, Rearmed, Reverse, Users;
  }

  lemma SamePlace(head: Node?<Pending>, nodes: seq<Node<Pending>>, k: nat, i: nat)
    requires Linked(head, nodes) && i < |nodes| && k <= i && nodes[k] == nodes[i]
    ensures k == i
  {
    if k < i {
      Apart(head, nodes, k, i);
    }
  }

  lemma ValueAdded(nodes: seq<Node<Pending>>, trans: Node<Pending>)
    ensures Values(nodes + [trans]) == Values(nodes) + [trans.value]
  {
    ValuesOfParts(nodes, [trans]);
    assert Values([trans]) == [trans.value];
  }

  lemma OnlyFirst(head: Node?<Pending>, nodes: seq<Node<Pending>>, i: nat)
    requires Linked(head, nodes) && i < |nodes|
    ensures nodes[i] == head <==> i == 0
  {
    if i > 0 {
      Apart(head, nodes, 0, i);
    }
  }

  lemma UsersStep(cur: Node<Pending>, taken: seq<Node<Pending>>)
    ensures Users(Values([cur] + taken)) == [cur.value.user] + Users(Values(taken))
  {
    assert ([cur] + taken)[1..] == taken;
    assert Values([cur] + taken)[1..] == Values(taken);
  }

  lemma UsersAppend(taken: seq<Node<Pending>>, k: nat)
    requires k < |taken|
    ensures Users(Values(taken[..k + 1])) == Users(Values(taken[..k])) + [taken[k].value.user]
  {
    assert Values(taken[..k + 1]) == Values(taken[..k]) + [taken[k].value];
    UsersOfParts(Values(taken[..k]), taken[k].value);
  }

  lemma {:induction false} UsersOfParts(list: seq<Pending>, p: Pending)
    ensures Users(list + [p]) == Users(list) + [p.user]
  {
    if list == [] {
      assert list + [p] == [p] && Users([p]) == [p.user];
    } else {
      assert (list + [p])[1..] == list[1..] + [p];
      UsersOfParts(list[1..], p);
    }
  }

  lemma NothingTaken(all: seq<Node<Pending>>, head: Node?<Pending>, t: nat)
    requires Linked(head, all)
    ensures all[0..] == all && Linked<Pending>(null, []) && head == At(all, 0) && |Values(all)| == |all|
    ensures Values(all)[0..] == Values(all) && Users(Values<Pending>([])) == Reverse(Users(Values(all)[..0]))
  {
  }

  lemma {:induction false} ReverseUsers(list: seq<Pending>, p: Pending)
    ensures Reverse(Users(list + [p])) == [p.user] + Reverse(Users(list))
  {
    if list == [] {
      assert list + [p] == [p] && Users([p]) == [p.user] && Reverse([p.user]) == [p.user];
    } else {
      assert (list + [p])[1..] == list[1..] + [p];
      ReverseUsers(list[1..], p);
      assert Users(list + [p]) == [list[0].user] + Users(list[1..] + [p]);
    }
  }

  /** A step of the scan that has come to the transaction at `n`. */
  lemma ScanStep(list: seq<Pending>, t: nat, n: nat)
    requires n < |list| && Expired(list[n], t)
    ensures ExpiredPrefix(list[n..], t) == 1 + ExpiredPrefix(list[n + 1..], t)
    ensures Reverse(Users(list[..n + 1])) == [list[n].user] + Reverse(Users(list[..n]))
  {
    hide Expired;
    assert list[n..][1..] == list[n + 1..] && list[..n + 1] == list[..n] + [list[n]];
    ReverseUsers(list[..n], list[n]);
  }

  lemma ScanEnds(list: seq<Pending>, t: nat, n: nat)
    requires n <= |list| && (n < |list| ==> !Expired(list[n], t))
    ensures ExpiredPrefix(list[n..], t) == 0
  {
    hide Expired;
  }
}
