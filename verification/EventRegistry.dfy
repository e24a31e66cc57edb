/**
 Events and who subscribed to them (app-mgr/app-manager/event.c). The registry is a list of
 URLs with subscriber lists; what it stands for is a set of (URL, client) pairs.
 */
module EventRegistry {
  import opened Bytes
  import L = Lists

  /** An event URL and its subscribers, the newest first. */
  datatype Event = Event(url: seq<byte>, subscribers: seq<nat>)

  function UrlIs(url: seq<byte>): Event -> bool { (e: Event) => e.url == url }

  function ClientIs(id: nat): nat -> bool { (c: nat) => c == id }

  function Find(events: seq<Event>, url: seq<byte>): (i: nat)
    ensures i <= |events|
    ensures i < |events| ==> events[i].url == url
    ensures forall j :: 0 <= j < i ==> events[j].url != url
  {
    L.Find(events, UrlIs(url))
  }

  function FindSubscriber(subscribers: seq<nat>, id: nat): (i: nat)
    ensures i <= |subscribers|
    ensures i < |subscribers| ==> subscribers[i] == id
    ensures forall j :: 0 <= j < i ==> subscribers[j] != id
  {
    L.Find(subscribers, ClientIs(id))
  }

  /** The list with the first occurrence of `id` unlinked. */
  function Unlinked(subscribers: seq<nat>, id: nat): seq<nat> { L.Unlinked(subscribers, ClientIs(id)) }

  /** The list without the client. */
  function Others(subscribers: seq<nat>, id: nat): seq<nat> { L.Others(subscribers, ClientIs(id)) }

  /** The registry with a node for the URL, if there was none and there is memory for it. */
  function WithNode(events: seq<Event>, url: seq<byte>, nodeAlloc: bool): seq<Event> {
    if Find(events, url) == |events| && nodeAlloc then [Event(url, [])] + events else events
  }

  predicate Registers(events: seq<Event>, url: seq<byte>, id: nat, nodeAlloc: bool, linkAlloc: bool) {
    var i := Find(events, url);
    url != [] && (i < |events| || nodeAlloc) && (linkAlloc || (i < |events| && id in events[i].subscribers))
  }

  /** am_register_event; the two flags tell whether memory is left for the event and for the subscriber. */
  function Register(events: seq<Event>, url: seq<byte>, id: nat, nodeAlloc: bool, linkAlloc: bool): seq<Event> {
    var e := WithNode(events, url, nodeAlloc);
    var i := Find(e, url);
    if url == [] || i == |e| then events
    else if id in e[i].subscribers || !linkAlloc then e
    else e[i := e[i].(subscribers := [id] + e[i].subscribers)]
  }

  datatype Filter = Every | Only(url: seq<byte>)

  predicate Matches(f: Filter, url: seq<byte>) { f.Every? || f.url == url }

  /** am_unregister_event, for one URL or for every URL. Events without subscribers go. */
  function Unregister(events: seq<Event>, f: Filter, id: nat): seq<Event> {
    if events == [] then [] else Kept(events[0], f, id) + Unregister(events[1..], f, id)
  }

  function Kept(e: Event, f: Filter, id: nat): seq<Event> {
    if !Matches(f, e.url) then [e]
    else
      var rest := Unlinked(e.subscribers, id);
      if rest == [] then [] else [e.(subscribers := rest)]
  }

  /** am_publish_event: the clients the event is sent to, in order. */
  function Publish(events: seq<Event>, url: seq<byte>): seq<nat> {
    var i := Find(events, url);
    if i < |events| then events[i].subscribers else []
  }

  // ---------- invariant ----------

  predicate NoDuplicates(s: seq<nat>) {
    forall i, j :: 0 <= i < j < |s| ==> s[i] != s[j]
  }

  predicate DistinctUrls(events: seq<Event>) {
    forall i, j :: 0 <= i < j < |events| ==> events[i].url != events[j].url
  }

  predicate Sound(e: Event) { e.url != [] && NoDuplicates(e.subscribers) }

  /** URLs are distinct and not empty, and no client subscribes twice to one. */
  predicate Consistent(events: seq<Event>) {
    DistinctUrls(events) && forall e :: e in events ==> Sound(e)
  }

  /** And no event is without subscribers. */
  predicate Inv(events: seq<Event>) {
    Consistent(events) && forall e :: e in events ==> e.subscribers != []
  }

  lemma NodeIsConsistent(events: seq<Event>, url: seq<byte>, nodeAlloc: bool)
    requires Consistent(events) && url != []
    ensures Consistent(WithNode(events, url, nodeAlloc))
  {
  }

  lemma RegisterKeepsConsistent(events: seq<Event>, url: seq<byte>, id: nat, nodeAlloc: bool, linkAlloc: bool)
    requires Consistent(events)
    ensures Consistent(Register(events, url, id, nodeAlloc, linkAlloc))
  {
    if url != [] {
      NodeIsConsistent(events, url, nodeAlloc);
      hide WithNode;
      var e := WithNode(events, url, nodeAlloc);
      var i := Find(e, url);
      if i < |e| && id !in e[i].subscribers {
        assert e[i] in e;
        assert Sound(e[i].(subscribers := [id] + e[i].subscribers));
      }
    }
  }

  /** Registering leaves an event without subscribers exactly when memory runs out between its two allocations. */
  lemma RegisterKeepsInv(events: seq<Event>, url: seq<byte>, id: nat, nodeAlloc: bool, linkAlloc: bool)
    requires Inv(events)
    ensures Inv(Register(events, url, id, nodeAlloc, linkAlloc)) <==>
            !(url != [] && Find(events, url) == |events| && nodeAlloc && !linkAlloc)
  {
    RegisterKeepsConsistent(events, url, id, nodeAlloc, linkAlloc);
    var r := Register(events, url, id, nodeAlloc, linkAlloc);
    if url != [] && Find(events, url) == |events| && nodeAlloc {
      var e := [Event(url, [])] + events;
      assert Find(e, url) == 0;
      if linkAlloc {
        assert [id] + e[0].subscribers == [id];
        assert r == e[0 := Event(url, [id])];
      } else {
        assert r == e && e[0] in r;
      }
    }
  }

  lemma UnlinkedIsSound(s: seq<nat>, id: nat)
    requires NoDuplicates(s)
    ensures NoDuplicates(Unlinked(s, id))
    ensures forall x :: x in Unlinked(s, id) <==> x in s && x != id
  {
    L.UnlinkedIsOthers(s, ClientIs(id));
    L.OthersMembers(s, ClientIs(id));
    L.OthersPairwise(s, ClientIs(id), (c: nat, d: nat) => c != d);
  }

  lemma KeptIsSound(e: Event, f: Filter, id: nat)
    requires Sound(e) && e.subscribers != []
    ensures forall k :: k in Kept(e, f, id) ==> Sound(k) && k.subscribers != [] && k.url == e.url
  {
    UnlinkedIsSound(e.subscribers, id);
  }

  lemma {:induction false} UnregisterKeepsInv(events: seq<Event>, f: Filter, id: nat)
    requires Inv(events)
    ensures Inv(Unregister(events, f, id))
    ensures forall e :: e in Unregister(events, f, id) ==> exists k :: 0 <= k < |events| && events[k].url == e.url
  {
    if events != [] {
      var rest := events[1..];
      TailInv(events);
      UnregisterKeepsInv(rest, f, id);
      KeptIsSound(events[0], f, id);
      hide Kept, Sound;
      var first, more := Kept(events[0], f, id), Unregister(rest, f, id);
      KeptOnce(events[0], f, id);
      forall e | e in more ensures e.url != events[0].url && exists k :: 0 <= k < |events| && events[k].url == e.url {
        var k :| 0 <= k < |rest| && rest[k].url == e.url;
        assert events[k + 1] == rest[k];
      }
      Joined(first, more, events[0].url);
    }
  }

  lemma KeptOnce(e: Event, f: Filter, id: nat)
    ensures |Kept(e, f, id)| <= 1
  {
  }

  lemma TailInv(events: seq<Event>)
    requires Inv(events) && events != []
    ensures Inv(events[1..]) && Sound(events[0]) && events[0].subscribers != []
  {
    hide Sound;
    var rest := events[1..];
    assert forall k :: 0 <= k < |rest| ==> rest[k] == events[k + 1];
  }

  lemma Joined(first: seq<Event>, more: seq<Event>, url: seq<byte>)
    requires |first| <= 1 && Inv(more)
    requires forall e :: e in first ==> Sound(e) && e.subscribers != [] && e.url == url
    requires forall e :: e in more ==> e.url != url
    ensures Inv(first + more)
  {
    hide Sound;
  }

  // ---------- the set of subscriptions ----------

  ghost predicate Subscribed(events: seq<Event>, url: seq<byte>, id: nat) {
    exists e :: e in events && e.url == url && id in e.subscribers
  }

  lemma SubscribedAtFind(events: seq<Event>, url: seq<byte>, id: nat)
    requires DistinctUrls(events)
    ensures Subscribed(events, url, id) <==> Find(events, url) < |events| && id in events[Find(events, url)].subscribers
  {
    var i := Find(events, url);
    if Subscribed(events, url, id) {
      var e :| e in events && e.url == url && id in e.subscribers;
      var k :| 0 <= k < |events| && events[k] == e;
      assert i == k;
    } else if i < |events| {
      assert events[i] in events;
    }
  }

  /** Publishing reaches each subscriber once and nobody else. */
  lemma PublishReachesSubscribers(events: seq<Event>, url: seq<byte>, id: nat)
    requires Consistent(events)
    ensures multiset(Publish(events, url))[id] == if Subscribed(events, url, id) then 1 else 0
  {
    SubscribedAtFind(events, url, id);
    var i := Find(events, url);
    if i < |events| {
      assert Sound(events[i]);
      CountOnce(events[i].subscribers, id);
    }
  }

  lemma {:induction false} CountOnce(s: seq<nat>, x: nat)
    requires NoDuplicates(s)
    ensures multiset(s)[x] == if x in s then 1 else 0
  {
    if s != [] {
      var rest := s[1..];
      assert s == [s[0]] + rest;
      assert forall k :: 0 <= k < |rest| ==> rest[k] == s[k + 1];
      CountOnce(rest, x);
    }
  }

  /** Registering adds one subscription when it succeeds and changes none when it does not. */
  lemma RegisterAdds(events: seq<Event>, url: seq<byte>, id: nat, nodeAlloc: bool, linkAlloc: bool, u: seq<byte>, c: nat)
    requires Consistent(events)
    ensures Subscribed(Register(events, url, id, nodeAlloc, linkAlloc), u, c) <==>
            Subscribed(events, u, c) || (Registers(events, url, id, nodeAlloc, linkAlloc) && u == url && c == id)
  {
    var r := Register(events, url, id, nodeAlloc, linkAlloc);
    RegisterKeepsConsistent(events, url, id, nodeAlloc, linkAlloc);
    SubscribedAtFind(events, u, c);
    SubscribedAtFind(r, u, c);
    if url != [] {
      RegisterAt(events, url, id, nodeAlloc, linkAlloc, u);
    }
  }

  lemma RegisterAt(events: seq<Event>, url: seq<byte>, id: nat, nodeAlloc: bool, linkAlloc: bool, u: seq<byte>)
    requires Consistent(events) && url != []
    ensures var r := Register(events, url, id, nodeAlloc, linkAlloc);
            var before, after := Publish(events, u), Publish(r, u);
            after == if u == url && Registers(events, url, id, nodeAlloc, linkAlloc) && id !in before then [id] + before else before
  {
    var e := WithNode(events, url, nodeAlloc);
    if Find(events, url) == |events| && nodeAlloc {
      assert e[1..] == events;
    }
    assert Publish(e, u) == Publish(events, u);
    var i := Find(e, url);
    if i < |e| && id !in e[i].subscribers && linkAlloc {
      FindUpdated(e, i, [id] + e[i].subscribers, u);
    }
  }

  lemma {:induction false} FindUpdated(e: seq<Event>, i: nat, s: seq<nat>, u: seq<byte>)
    requires i < |e|
    ensures Find(e[i := e[i].(subscribers := s)], u) == Find(e, u)
  {
    var f := e[i := e[i].(subscribers := s)];
    if i > 0 {
      FindUpdated(e[1..], i - 1, s, u);
      assert f[1..] == e[1..][i - 1 := e[1..][i - 1].(subscribers := s)];
    } else {
      assert f[1..] == e[1..];
    }
  }

  /** Unregistering takes away exactly the client's subscriptions it asks for. */
  lemma {:induction false} UnregisterRemoves(events: seq<Event>, f: Filter, id: nat, u: seq<byte>, c: nat)
    requires Inv(events)
    ensures Subscribed(Unregister(events, f, id), u, c) <==> Subscribed(events, u, c) && !(c == id && Matches(f, u))
  {
    if events != [] {
      TailInv(events);
      UnregisterRemoves(events[1..], f, id, u, c);
      UnlinkedIsSound(events[0].subscribers, id);
      assert events == [events[0]] + events[1..];
      SubscribedJoin([events[0]], events[1..], u, c);
      SubscribedJoin(Kept(events[0], f, id), Unregister(events[1..], f, id), u, c);
      SubscribedKept(events[0], f, id, u, c);
    }
  }

  lemma SubscribedJoin(a: seq<Event>, b: seq<Event>, u: seq<byte>, c: nat)
    ensures Subscribed(a + b, u, c) <==> Subscribed(a, u, c) || Subscribed(b, u, c)
  {
  }

  lemma SubscribedKept(e: Event, f: Filter, id: nat, u: seq<byte>, c: nat)
    requires Sound(e)
    ensures Subscribed(Kept(e, f, id), u, c) <==> Subscribed([e], u, c) && !(c == id && Matches(f, u))
  {
    UnlinkedIsSound(e.subscribers, id);
    hide Unlinked;
    var rest := Unlinked(e.subscribers, id);
    if Subscribed([e], u, c) {
      assert e.url == u && c in e.subscribers;
      if !(c == id && Matches(f, u)) {
        var k := if Matches(f, e.url) then e.(subscribers := rest) else e;
        assert k in Kept(e, f, id);
      }
    }
  }

  /** Who hears of an event after unregistering: the same clients in the same order, without the one that left. */
  lemma {:induction false} PublishAfterUnregister(events: seq<Event>, f: Filter, id: nat, u: seq<byte>)
    requires Inv(events)
    ensures Publish(Unregister(events, f, id), u) ==
            if Matches(f, u) then Others(Publish(events, u), id) else Publish(events, u)
  {
    if events != [] {
      var e, rest := events[0], events[1..];
      TailInv(events);
      PublishAfterUnregister(rest, f, id, u);
      PublishCons(e, rest, u);
      assert events == [e] + rest;
      if e.url == u {
        Absent(events, f, id);
      }
      hide Inv, Publish, Kept, Others;
      PublishKept(e, Unregister(rest, f, id), f, id, u);
    }
  }

  lemma PublishKept(e: Event, more: seq<Event>, f: Filter, id: nat, u: seq<byte>)
    requires Sound(e) && (e.url == u ==> Publish(more, u) == [])
    ensures Publish(Kept(e, f, id) + more, u) ==
            if e.url != u then Publish(more, u) else if Matches(f, u) then Others(e.subscribers, id) else e.subscribers
  {
    L.UnlinkedIsOthers(e.subscribers, ClientIs(id));
    hide Unlinked, Others, Publish;
    PublishCons(e, more, u);
    PublishCons(e.(subscribers := Unlinked(e.subscribers, id)), more, u);
    assert [] + more == more;
  }

  lemma PublishCons(e: Event, rest: seq<Event>, u: seq<byte>)
    ensures Publish([e] + rest, u) == if e.url == u then e.subscribers else Publish(rest, u)
  {
    assert ([e] + rest)[1..] == rest;
  }

  /** The URL of the first event does not occur in what unregistering leaves of the others. */
  lemma Absent(events: seq<Event>, f: Filter, id: nat)
    requires Inv(events) && events != []
    ensures Publish(Unregister(events[1..], f, id), events[0].url) == []
  {
    var rest, u := events[1..], events[0].url;
    TailInv(events);
    UnregisterKeepsInv(rest, f, id);
    var more := Unregister(rest, f, id);
    forall j | 0 <= j < |more| ensures more[j].url != u {
      assert more[j] in more;
      var k :| 0 <= k < |rest| && rest[k].url == more[j].url;
      assert rest[k] == events[k + 1];
    }
  }

  // ---------- runs ----------

  datatype Step = Registering(url: seq<byte>, id: nat) | Unregistering(filter: Filter, id: nat)

  /** A step for which memory is found. */
  function Apply(events: seq<Event>, step: Step): seq<Event> {
    match step
    case Registering(url, id) => Register(events, url, id, true, true)
    case Unregistering(f, id) => Unregister(events, f, id)
  }

  function Run(events: seq<Event>, steps: seq<Step>): seq<Event>
    decreases |steps|
  {
    if steps == [] then events else Run(Apply(events, steps[0]), steps[1..])
  }

  /** Whether the last step about a URL and a client was to register. */
  predicate LastRegistered(steps: seq<Step>, u: seq<byte>, c: nat, before: bool)
    decreases |steps|
  {
    if steps == [] then before
    else
      var now := match steps[0]
                 case Registering(url, id) => before || (url != [] && url == u && id == c)
                 case Unregistering(f, id) => before && !(id == c && Matches(f, u));
      LastRegistered(steps[1..], u, c, now)
  }

  /**
   Over every run: the invariant holds, and an event reaches a client, once, exactly when the
   client's last word on it was to register.
   */
  lemma {:induction false} RunsFollowLastWord(events: seq<Event>, steps: seq<Step>, u: seq<byte>, c: nat)
    requires Inv(events)
    ensures Inv(Run(events, steps))
    ensures multiset(Publish(Run(events, steps), u))[c] ==
            if LastRegistered(steps, u, c, Subscribed(events, u, c)) then 1 else 0
    decreases |steps|
  {
    if steps == [] {
      PublishReachesSubscribers(events, u, c);
    } else {
      match steps[0] {
        case Registering(url, id) =>
          RegisterKeepsInv(events, url, id, true, true);
          RegisterAdds(events, url, id, true, true, u, c);
        case Unregistering(f, id) =>
          UnregisterKeepsInv(events, f, id);
          UnregisterRemoves(events, f, id, u, c);
      }
      hide Subscribed, Inv, Register, Unregister;
      RunsFollowLastWord(Apply(events, steps[0]), steps[1..], u, c);
    }
  }
}
