/**
 What registering and unregistering do to the event and resource registries, told entry by entry
 (app-mgr/app-manager/event.c, app-mgr/app-manager/resource_reg.c).
 */
module RegistryLaws {
  import opened Bytes
  import E = EventRegistry
  import Lists
  import R = ResourceRegistry

  // ---------- events ----------

  /** The event at `i` is the first with the URL. */
  predicate EventAt(events: seq<E.Event>, url: seq<byte>, i: nat) {
    i < |events| && events[i].url == url && forall j :: 0 <= j < i ==> events[j].url != url
  }

  predicate NoEvent(events: seq<E.Event>, url: seq<byte>) {
    forall j :: 0 <= j < |events| ==> events[j].url != url
  }

  /** A new event stands first, with its subscriber if there is memory for it; without memory for the event nothing happens. */
  lemma FirstSubscriber(events: seq<E.Event>, url: seq<byte>, id: nat, nodeAlloc: bool, linkAlloc: bool)
    requires url != [] && NoEvent(events, url)
    ensures E.Registers(events, url, id, nodeAlloc, linkAlloc) <==> nodeAlloc && linkAlloc
    ensures E.Register(events, url, id, nodeAlloc, linkAlloc) ==
            if !nodeAlloc then events else [E.Event(url, if linkAlloc then [id] else [])] + events
  {
    assert E.Find([E.Event(url, [])] + events, url) == 0;
    assert [id] + [] == [id];
  }

  /** The newest subscriber of an event stands first; one that is subscribed already stays where it is, and that is a success. */
  lemma NextSubscriber(events: seq<E.Event>, url: seq<byte>, id: nat, nodeAlloc: bool, linkAlloc: bool, i: nat)
    requires url != [] && EventAt(events, url, i)
    ensures var known := id in events[i].subscribers;
            && (E.Registers(events, url, id, nodeAlloc, linkAlloc) <==> known || linkAlloc)
            && E.Register(events, url, id, nodeAlloc, linkAlloc) ==
               if known || !linkAlloc then events
               else events[..i] + [E.Event(url, [id] + events[i].subscribers)] + events[i + 1..]
  {
    assert E.Find(events, url) == i;
  }

  /** The empty URL is refused. */
  lemma NoEmptyUrl(events: seq<E.Event>, id: nat, nodeAlloc: bool, linkAlloc: bool)
    ensures !E.Registers(events, [], id, nodeAlloc, linkAlloc) && E.Register(events, [], id, nodeAlloc, linkAlloc) == events
  {
  }

  /** Publishing goes to the subscribers of the URL, in order, and to nobody when there is no such event. */
  lemma PublishedTo(events: seq<E.Event>, url: seq<byte>)
    ensures forall i: nat :: EventAt(events, url, i) ==> E.Publish(events, url) == events[i].subscribers
    ensures NoEvent(events, url) ==> E.Publish(events, url) == []
  {
  }

  /** Unregistering goes through the events in order. */
  lemma {:induction false} UnregisterInParts(a: seq<E.Event>, b: seq<E.Event>, f: E.Filter, id: nat)
    ensures E.Unregister(a + b, f, id) == E.Unregister(a, f, id) + E.Unregister(b, f, id)
  {
    hide E.Kept;
    if a == [] {
      assert a + b == b;
    } else {
      assert (a + b)[1..] == a[1..] + b;
      UnregisterInParts(a[1..], b, f, id);
    }
  }

  /**
   An event of another URL stays; one that is meant, by its URL or because all are, loses the client,
   and goes when it has no subscribers left.
   */
  lemma UnregisterOne(url: seq<byte>, subscribers: seq<nat>, id: nat, all: bool, wanted: seq<byte>)
    ensures var after := E.Unregister([E.Event(url, subscribers)], if all then E.Every else E.Only(wanted), id);
            && (!all && url != wanted ==> after == [E.Event(url, subscribers)])
            && (all || url == wanted ==>
                 && (forall c :: 0 <= c < |subscribers| && FirstAt(subscribers, id, c) ==>
                      after == if |subscribers| == 1 then [] else [E.Event(url, subscribers[..c] + subscribers[c + 1..])])
                 && (id !in subscribers ==> after == if subscribers == [] then [] else [E.Event(url, subscribers)]))
  {
    var e := E.Event(url, subscribers);
    assert [e][1..] == [];
    Without(subscribers, id);
    hide E.Unlinked;
  }

  predicate FirstAt(subscribers: seq<nat>, id: nat, c: nat)
    requires c < |subscribers|
  {
    subscribers[c] == id && forall j :: 0 <= j < c ==> subscribers[j] != id
  }

  lemma Without(subscribers: seq<nat>, id: nat)
    ensures forall c :: 0 <= c < |subscribers| && FirstAt(subscribers, id, c) ==>
              E.Unlinked(subscribers, id) == subscribers[..c] + subscribers[c + 1..]
    ensures id !in subscribers ==> E.Unlinked(subscribers, id) == subscribers
  {
    var i := E.FindSubscriber(subscribers, id);
    assert forall c :: 0 <= c < |subscribers| && FirstAt(subscribers, id, c) ==> c == i;
  }

  // ---------- resources ----------

  /** The owners of the resources, in order. */
  function Owners(resources: seq<R.Resource>): seq<nat> {
    seq(|resources|, i requires 0 <= i < |resources| => resources[i].owner)
  }

  lemma {:induction false} CountIsTheirNumber(resources: seq<R.Resource>, owner: nat)
    ensures R.Count(resources, owner) == multiset(Owners(resources))[owner]
  {
    if resources != [] {
      CountIsTheirNumber(resources[1..], owner);
      assert Owners(resources) == [resources[0].owner] + Owners(resources[1..]);
      hide R.Count, Owners;
      OneMoreOwner(resources[0].owner, Owners(resources[1..]));
    }
  }

  lemma OneMoreOwner(x: nat, rest: seq<nat>)
    ensures multiset([x] + rest) == multiset{x} + multiset(rest)
  {
  }

  /**
   A resource is registered exactly when its URL is free and no longer than 256 bytes, its module
   has fewer than 16 and there is memory; it then stands first, and else nothing changes.
   */
  lemma RegisteringResource(resources: seq<R.Resource>, url: seq<byte>, handler: nat, owner: nat, alloc: bool)
    ensures R.Registers(resources, url, owner, alloc) <==>
            && (forall i :: 0 <= i < |resources| ==> resources[i].url != url)
            && |url| <= 256 && multiset(Owners(resources))[owner] < 16 && alloc
    ensures R.Register(resources, url, handler, owner, alloc) ==
            if R.Registers(resources, url, owner, alloc) then [R.Resource(url, handler, owner)] + resources else resources
  {
    CountIsTheirNumber(resources, owner);
    hide Owners, R.Count;
    assert forall i :: 0 <= i < |resources| ==> resources[i] in resources;
  }

  /** Cleanup goes through the resources in order and drops those of the module. */
  lemma CleanupDropsTheirs(a: seq<R.Resource>, r: R.Resource, b: seq<R.Resource>, owner: nat)
    ensures R.Cleanup([], owner) == []
    ensures R.Cleanup(a + [r] + b, owner) == R.Cleanup(a, owner) + (if r.owner == owner then [] else [r]) + R.Cleanup(b, owner)
  {
    CleanupOfOne(r, owner);
    hide R.Cleanup;
    CleanupInParts(a + [r], b, owner);
    CleanupInParts(a, [r], owner);
  }

  lemma CleanupOfOne(r: R.Resource, owner: nat)
    ensures R.Cleanup([], owner) == [] && R.Cleanup([r], owner) == if r.owner == owner then [] else [r]
  {
    var rest := [r][1..];
    assert rest == [] && R.Cleanup(rest, owner) == [];
  }

  lemma CleanupInParts(a: seq<R.Resource>, b: seq<R.Resource>, owner: nat)
    ensures R.Cleanup(a + b, owner) == R.Cleanup(a, owner) + R.Cleanup(b, owner)
  {
    Lists.OthersOfConcat(a, b, R.OwnedBy(owner));
  }

  /** A request goes to the first resource whose URL it starts with. */
  lemma DispatchedTo(resources: seq<R.Resource>, url: seq<byte>, i: nat)
    requires i < |resources| && R.UrlQuery.CheckUrlStart(url, resources[i].url) > 0
    requires forall j :: 0 <= j < i ==> R.UrlQuery.CheckUrlStart(url, resources[j].url) == 0
    ensures R.Dispatch(resources, url) == i && R.Target(resources, url) == [resources[i]]
  {
    hide R.UrlQuery.CheckUrlStart;
  }
}
