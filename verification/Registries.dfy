/**
 The event and resource registries in their own form, lists searched and relinked by loops
 (app-mgr/app-manager/event.c, app-mgr/app-manager/resource_reg.c), and the cleanup of a module
 that goes (app-mgr/app-manager/module_wasm_app.c).
 */
module Registries {
  import opened Bytes
  import opened Chains
  import E = EventRegistry
  import Lists
  import R = ResourceRegistry
  import SensorState
  import Sensors
  import UrlQuery

  class Events {
    /** g_events. */
    var events: seq<E.Event>

    constructor ()
      ensures events == []
    {
      events := [];
    }

    /** find_subscriber on the event at `e`. */
    method FindSubscriber(e: nat, id: nat, remove: bool) returns (found: bool)
      requires e < |events|
      modifies this
      ensures found <==> id in old(events)[e].subscribers
      ensures events == if remove then old(events)[e := old(events)[e].(subscribers := E.Unlinked(old(events)[e].subscribers, id))]
                        else old(events)
    {
      var c := events[e].subscribers;
      var i := 0;
      assert events == events[e := events[e].(subscribers := c)];
      while i < |c|
        invariant i <= |c| && E.FindSubscriber(c, id) == i + E.FindSubscriber(c[i..], id)
        invariant events == old(events)
      {
        if c[i] == id {
          if remove {
            events := events[e := events[e].(subscribers := c[..i] + c[i + 1..])];
          }
          return true;
        }
        assert c[i..][1..] == c[i + 1..];
        i := i + 1;
      }
      return false;
    }

    /** am_register_event; the flags tell whether memory is left for the event and for the subscriber. */
    method AmRegisterEvent(url: seq<byte>, id: nat, nodeAlloc: bool, linkAlloc: bool) returns (ok: bool)
      modifies this
      ensures events == E.Register(old(events), url, id, nodeAlloc, linkAlloc)
      ensures ok <==> E.Registers(old(events), url, id, nodeAlloc, linkAlloc)
    {
      if url == [] {
        return false;
      }
      var current := FindEvent(url);
      if current == |events| {
        if !nodeAlloc {
          return false;
        }
        current := 0;
        events := [E.Event(url, [])] + events;
      }
      var found := FindSubscriber(current, id, false);
      if found {
        return true;
      }
      if !linkAlloc {
        return false;
      }
      events := events[current := events[current].(subscribers := [id] + events[current].subscribers)];
      return true;
    }

    /** The walk to the event with a URL. */
    method FindEvent(url: seq<byte>) returns (i: nat)
      ensures i == E.Find(events, url)
    {
      i := 0;
      assert events[0..] == events;
      while i < |events|
        invariant i <= |events| && E.Find(events, url) == i + E.Find(events[i..], url)
      {
        if events[i].url == url {
          return;
        }
        assert events[i..][1..] == events[i + 1..];
        i := i + 1;
      }
    }

    /** am_unregister_event: events the client leaves without subscribers are unlinked on the way. */
    method AmUnregisterEvent(filter: E.Filter, id: nat)
      modifies this
      ensures events == E.Unregister(old(events), filter, id)
    {
      var i := 0;
      hide E.Unlinked;
      assert events[..0] + E.Unregister(events[0..], filter, id) == E.Unregister(events, filter, id);
      while i < |events|
        invariant i <= |events| && events[..i] + E.Unregister(events[i..], filter, id) == E.Unregister(old(events), filter, id)
        decreases |events| - i
      {
        ghost var was := events;
        hide E.Unregister;
        if E.Matches(filter, events[i].url) {
          var found := FindSubscriber(i, id, true);
          if events[i].subscribers == [] {
            events := events[..i] + events[i + 1..];
            Passed(was, filter, id, i, events);
            continue;
          }
        }
        Passed(was, filter, id, i, events);
        i := i + 1;
      }
    }

    /** am_publish_event: whom the event is sent to, in order. */
    method AmPublishEvent(url: seq<byte>) returns (sent: seq<nat>)
      ensures sent == E.Publish(events, url)
    {
      sent := [];
      var current := FindEvent(url);
      if current < |events| {
        var c := events[current].subscribers;
        var i := 0;
        while i < |c|
          invariant i <= |c| && sent == c[..i]
        {
          sent := sent + [c[i]];
          i := i + 1;
        }
      }
    }
  }

  /** One event of the unregistering walk is done: it is kept, perhaps with fewer subscribers, or gone. */
  lemma Passed(was: seq<E.Event>, filter: E.Filter, id: nat, i: nat, now: seq<E.Event>)
    requires i < |was|
    requires now == was[..i] + E.Kept(was[i], filter, id) + was[i + 1..]
    ensures var next := i + |E.Kept(was[i], filter, id)|;
            && next <= |now|
            && now[..next] + E.Unregister(now[next..], filter, id) == was[..i] + E.Unregister(was[i..], filter, id)
  {
    WalkStep(was, filter, id, i);
    hide *;
    var k, more := E.Kept(was[i], filter, id), E.Unregister(was[i + 1..], filter, id);
    Lists.Parts(was[..i], k, was[i + 1..]);
    Lists.Associative(was[..i], k, more);
  }

  lemma WalkStep(was: seq<E.Event>, filter: E.Filter, id: nat, i: nat)
    requires i < |was|
    ensures E.Unregister(was[i..], filter, id) == E.Kept(was[i], filter, id) + E.Unregister(was[i + 1..], filter, id)
  {
    hide E.Kept;
    assert was[i..][1..] == was[i + 1..];
  }

  class Resources {
    /** g_resources: nodes linked by `next`, the newest first. */
    var head: Node?<R.Resource>
    ghost var nodes: seq<Node<R.Resource>>

    constructor ()
      ensures Valid() && Contents() == []
    {
      head, nodes := null, [];
    }

    ghost predicate Valid()
      reads this, nodes
    {
      Linked(head, nodes)
    }

    ghost function Contents(): seq<R.Resource>
      reads this
    {
      Values(nodes)
    }

    /** am_register_resource. */
    method AmRegisterResource(url: seq<byte>, handler: nat, owner: nat, alloc: bool) returns (ok: bool)
      requires Valid()
      modifies this
      ensures Valid() && (ok <==> R.Registers(old(Contents()), url, owner, alloc))
      ensures Contents() == R.Register(old(Contents()), url, handler, owner, alloc)
    {
      ghost var v := Contents();
      var registered := 0;
      var r := head;
      ghost var i: nat := 0;
      assert v[0..] == v;
      while r != null
        invariant i <= |nodes| && r == At(nodes, i) && registered + R.Count(v[i..], owner) == R.Count(v, owner)
        invariant forall j :: 0 <= j < i ==> v[j].url != url
        modifies {}
        decreases |nodes| - i
      {
        LinkAt(head, nodes, i);
        if r.value.url == url {
          assert v[i] in v;
          return false;
        }
        assert v[i..][1..] == v[i + 1..];
        if r.value.owner == owner {
          registered := registered + 1;
        }
        r, i := r.next, i + 1;
      }
      if |url| > R.RESOURCE_EVENT_URL_LEN_MAX {
        return false;
      }
      if registered >= R.RESOURCE_REGISTRATION_NUM_MAX {
        return false;
      }
      if !alloc {
        return false;
      }
      var node := new Node(R.Resource(url, handler, owner));
      node.next := head;
      Prepended(node, nodes);
      head, nodes := node, [node] + nodes;
      return true;
    }

    /**
     Of `all` nodes those before `i` have been looked at, and `kept` of them stay, the last one
     being `prev`; they and the nodes from `i` on are what hangs from the head.
     */
    ghost predicate Cleaning(all: seq<Node<R.Resource>>, kept: seq<Node<R.Resource>>, i: nat, prev: Node?<R.Resource>, owner: nat)
      reads this, all, kept
    {
      && i <= |all| && Within(kept, all) && prev == Back(kept)
      && Linked(head, kept + all[i..])
      && Values(kept) + R.Cleanup(Values(all[i..]), owner) == R.Cleanup(Values(all), owner)
    }

    /** am_cleanup_registeration. */
    method AmCleanupRegisteration(owner: nat)
      requires Valid()
      modifies this, nodes
      ensures Valid() && Contents() == R.Cleanup(old(Contents()), owner)
      ensures Within(nodes, old(nodes))
    {
      CleaningBegins(owner);
      hide Cleaning;
      ghost var kept, prev := CleanupLoop(owner, nodes);
      CleaningEnds(nodes, kept, |nodes|, prev, owner);
      nodes := kept;
    }

    /** Its loop: `prev` is the last node that stays. */
    method CleanupLoop(owner: nat, ghost all: seq<Node<R.Resource>>)
      returns (ghost kept: seq<Node<R.Resource>>, prev: Node?<R.Resource>)
      requires head == At(all, 0) && Cleaning(all, [], 0, null, owner)
      modifies this`head, all
      ensures Cleaning(all, kept, |all|, prev, owner)
    {
      hide Cleaning;
      ghost var i: nat := 0;
      kept := [];
      var r := head;
      prev := null;
      while r != null
        invariant i <= |all| && r == At(all, i) && Cleaning(all, kept, i, prev, owner)
        decreases |all| - i
      {
        r, prev, kept := CleanupNode(r, prev, owner, all, kept, i);
        i := i + 1;
      }
    }

    lemma CleaningBegins(owner: nat)
      requires Valid()
      ensures Cleaning(nodes, [], 0, null, owner) && head == At(nodes, 0)
    {
      assert nodes[0..] == nodes && [] + nodes == nodes;
      assert [] + R.Cleanup(Values(nodes), owner) == R.Cleanup(Values(nodes), owner);
    }

    lemma CleaningEnds(all: seq<Node<R.Resource>>, kept: seq<Node<R.Resource>>, i: nat, prev: Node?<R.Resource>, owner: nat)
      requires i == |all| && Cleaning(all, kept, i, prev, owner)
      ensures Linked(head, kept) && Values(kept) == R.Cleanup(Values(all), owner) && Within(kept, all)
    {
      assert kept + all[i..] == kept;
      assert R.Cleanup(Values(all[i..]), owner) == [];
    }

    /** One round of its loop: the node goes, or it is the last that stays. */
    method CleanupNode(r: Node<R.Resource>, prev: Node?<R.Resource>, owner: nat,
                       ghost all: seq<Node<R.Resource>>, ghost kept: seq<Node<R.Resource>>, ghost i: nat)
      returns (next: Node?<R.Resource>, last: Node?<R.Resource>, ghost left: seq<Node<R.Resource>>)
      requires i < |all| && r == all[i] && Cleaning(all, kept, i, prev, owner)
      modifies this`head, all
      ensures next == At(all, i + 1) && Cleaning(all, left, i + 1, last, owner)
    {
      CleanedStep(kept, all, i, owner);
      WalkedOver(kept, all, i);
      hide R.Cleanup, Values;
      next, last, left := r.next, prev, kept;
      if r.value.owner == owner {
        UnlinkNode(r, prev, all, kept, i);
      } else {
        LinkAt(head, kept + all[i..], |kept|);
        hide Linked;
        last, left := r, kept + [all[i]];
      }
    }

    /** The node is taken out of the chain, behind `prev` or at the head. */
    method UnlinkNode(r: Node<R.Resource>, prev: Node?<R.Resource>,
                      ghost all: seq<Node<R.Resource>>, ghost kept: seq<Node<R.Resource>>, ghost i: nat)
      requires i < |all| && r == all[i] && Within(kept, all) && prev == Back(kept) && Linked(head, kept + all[i..])
      modifies this`head, all
      ensures old(r.next) == At(all, i + 1) && Linked(head, kept + all[i + 1..])
    {
      ghost var chain := kept + all[i..];
      WalkedOver(kept, all, i);
      LinkAt(head, chain, |kept|);
      hide Linked;
      var next := r.next;
      if prev != null {
        assert prev in kept;
        Unlink(prev, next, head, chain, |kept|);
      } else {
        Tail(head, chain);
        head := next;
      }
    }

    /** am_dispatch_request: the resource whose handler is called, at position `i`. */
    method AmDispatchRequest(url: seq<byte>) returns (r: Node?<R.Resource>, ghost i: nat)
      requires Valid()
      ensures i == R.Dispatch(Contents(), url) && r == At(nodes, i)
    {
      hide UrlQuery.CheckUrlStart;
      ghost var v := Contents();
      r, i := head, 0;
      assert v[0..] == v;
      while r != null
        invariant i <= |nodes| && r == At(nodes, i) && R.Dispatch(v, url) == i + R.Dispatch(v[i..], url)
        decreases |nodes| - i
      {
        if UrlQuery.CheckUrlStart(url, r.value.url) > 0 {
          return;
        }
        LinkAt(head, nodes, i);
        Lists.FindFrom(v, R.Serves(url), i);
        r, i := r.next, i + 1;
      }
    }
  }

  /** The chain of the nodes that stay and those still to be looked at, around the one at `i`. */
  lemma WalkedOver<T>(kept: seq<Node<T>>, all: seq<Node<T>>, i: nat)
    requires i < |all|
    ensures var s, k := kept + all[i..], |kept|;
            && s[k] == all[i] && At(s, k + 1) == At(all, i + 1) && (k > 0 ==> s[k - 1] == kept[k - 1])
            && s[..k] + s[k + 1..] == kept + all[i + 1..] && (k == 0 ==> s[1..] == all[i + 1..])
            && kept + [all[i]] + all[i + 1..] == s
    ensures Within(kept, all) ==> Within(kept + [all[i]], all)
  {
  }

  function Back<T>(s: seq<Node<T>>): Node?<T> { if s == [] then null else s[|s| - 1] }

  lemma CleanedStep(kept: seq<Node<R.Resource>>, all: seq<Node<R.Resource>>, i: nat, owner: nat)
    requires i < |all|
    ensures Values(kept) + R.Cleanup(Values(all[i..]), owner) ==
            Values(if all[i].value.owner == owner then kept else kept + [all[i]]) + R.Cleanup(Values(all[i + 1..]), owner)
  {
    var x, rest := all[i].value, Values(all[i + 1..]);
    assert all[i..][1..] == all[i + 1..];
    assert Values(all[i..]) == [x] + rest;
    ValuesOfParts(kept, [all[i]]);
    assert Values([all[i]]) == [x];
    CleanupStep(x, rest, owner);
    hide R.Cleanup, Values;
    Lists.Associative(Values(kept), [x], R.Cleanup(rest, owner));
  }

  lemma CleanupStep(x: R.Resource, rest: seq<R.Resource>, owner: nat)
    ensures R.Cleanup([x] + rest, owner) == if x.owner == owner then R.Cleanup(rest, owner) else [x] + R.Cleanup(rest, owner)
  {
    assert ([x] + rest)[1..] == rest;
  }

  /** cleanup_app_resource, with the callback of the sensors: what a module that goes leaves behind. */
  method CleanupAppResource(resources: Resources, events: Events, sensors: Sensors.Framework, id: nat)
    requires resources.Valid() && sensors.Valid() && R.Inv(resources.Contents()) && E.Inv(events.events) && SensorState.Inv(sensors.State())
    modifies resources, resources.nodes, events, sensors.sensors
    ensures resources.Valid() && sensors.Valid() && R.Inv(resources.Contents()) && E.Inv(events.events) && SensorState.Inv(sensors.State())
    ensures resources.Contents() == R.Cleanup(old(resources.Contents()), id)
    ensures events.events == E.Unregister(old(events.events), E.Every, id)
    ensures sensors.State() == SensorState.Apply(old(sensors.State()), SensorState.Cleanup(id))
  {
    CleanupRegistries(resources, events, id);
    SensorState.StepKeepsInv(sensors.State(), SensorState.Cleanup(id));
    hide *;
    sensors.SensorCleanupCallback(id);
  }

  /** The callbacks of the two registries. */
  method CleanupRegistries(resources: Resources, events: Events, id: nat)
    requires resources.Valid() && R.Inv(resources.Contents()) && E.Inv(events.events)
    modifies resources, resources.nodes, events
    ensures resources.Valid() && R.Inv(resources.Contents()) && E.Inv(events.events)
    ensures resources.Contents() == R.Cleanup(old(resources.Contents()), id)
    ensures events.events == E.Unregister(old(events.events), E.Every, id)
  {
    R.CleanupKeepsInv(resources.Contents(), id);
    E.UnregisterKeepsInv(events.events, E.Every, id);
    hide *;
    resources.AmCleanupRegisteration(id);
    events.AmUnregisterEvent(E.Every, id);
  }

  /** After the cleanup nothing of the module is left, and everything of the others is, in order. */
  lemma ModuleIsGone(resources: seq<R.Resource>, events: seq<E.Event>, sensors: SensorState.State, id: nat)
    requires E.Inv(events) && SensorState.Inv(sensors)
    ensures forall r :: r in R.Cleanup(resources, id) <==> r in resources && r.owner != id
    ensures forall u :: E.Publish(E.Unregister(events, E.Every, id), u) == E.Others(E.Publish(events, u), id)
    ensures forall u :: id !in E.Publish(E.Unregister(events, E.Every, id), u)
    ensures forall i :: 0 <= i < |sensors.sensors| ==>
      SensorState.Apply(sensors, SensorState.Cleanup(id)).sensors[i].clients == Lists.Others(sensors.sensors[i].clients, SensorState.ClientIs(id))
  {
    R.CleanupErases(resources, id, id);
    forall u ensures E.Publish(E.Unregister(events, E.Every, id), u) == E.Others(E.Publish(events, u), id) {
      E.PublishAfterUnregister(events, E.Every, id, u);
    }
    forall u ensures id !in E.Publish(E.Unregister(events, E.Every, id), u) {
      Lists.OthersMembers(E.Publish(events, u), E.ClientIs(id));
    }
    forall i | 0 <= i < |sensors.sensors|
      ensures SensorState.Apply(sensors, SensorState.Cleanup(id)).sensors[i].clients == Lists.Others(sensors.sensors[i].clients, SensorState.ClientIs(id))
    {
      SensorState.CleanupErases(sensors, id, i);
    }
  }
}
