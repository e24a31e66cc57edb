/**
 URLs that apps serve and the dispatch of requests to them (app-mgr/app-manager/resource_reg.c).
 */
module ResourceRegistry {
  import opened Bytes
  import opened Lists
  import UrlQuery

  const RESOURCE_REGISTRATION_NUM_MAX := 16
  const RESOURCE_EVENT_URL_LEN_MAX := 256

  datatype Resource = Resource(url: seq<byte>, handler: nat, owner: nat)

  /** How many resources a module has registered. */
  function Count(resources: seq<Resource>, owner: nat): (n: nat)
    ensures n <= |resources|
  {
    if resources == [] then 0 else (if resources[0].owner == owner then 1 else 0) + Count(resources[1..], owner)
  }

  predicate Taken(resources: seq<Resource>, url: seq<byte>) {
    exists r :: r in resources && r.url == url
  }

  /** Whether am_register_resource succeeds. */
  predicate Registers(resources: seq<Resource>, url: seq<byte>, owner: nat, alloc: bool) {
    && !Taken(resources, url)
    && |url| <= RESOURCE_EVENT_URL_LEN_MAX
    && Count(resources, owner) < RESOURCE_REGISTRATION_NUM_MAX
    && alloc
  }

  function Register(resources: seq<Resource>, url: seq<byte>, handler: nat, owner: nat, alloc: bool): seq<Resource> {
    if Registers(resources, url, owner, alloc) then [Resource(url, handler, owner)] + resources else resources
  }

  function OwnedBy(owner: nat): Resource -> bool { (r: Resource) => r.owner == owner }

  /** am_cleanup_registeration: what other modules registered, in order. */
  function Cleanup(resources: seq<Resource>, owner: nat): seq<Resource> { Others(resources, OwnedBy(owner)) }

  function Serves(url: seq<byte>): Resource -> bool { (r: Resource) => UrlQuery.CheckUrlStart(url, r.url) > 0 }

  /** am_dispatch_request: the position of the resource whose handler is called, or their number. */
  function Dispatch(resources: seq<Resource>, url: seq<byte>): (i: nat)
    ensures i <= |resources|
    ensures i < |resources| ==> UrlQuery.CheckUrlStart(url, resources[i].url) > 0
    ensures forall j :: 0 <= j < i ==> UrlQuery.CheckUrlStart(url, resources[j].url) == 0
  {
    Find(resources, Serves(url))
  }

  // ---------- invariant ----------

  predicate DistinctUrls(resources: seq<Resource>) {
    forall i, j :: 0 <= i < j < |resources| ==> resources[i].url != resources[j].url
  }

  /** URLs are distinct and bounded, and no module holds more than its share. */
  ghost predicate Inv(resources: seq<Resource>) {
    && DistinctUrls(resources)
    && (forall r :: r in resources ==> |r.url| <= RESOURCE_EVENT_URL_LEN_MAX)
    && forall owner :: Count(resources, owner) <= RESOURCE_REGISTRATION_NUM_MAX
  }

  lemma RegisterKeepsInv(resources: seq<Resource>, url: seq<byte>, handler: nat, owner: nat, alloc: bool)
    requires Inv(resources)
    ensures Inv(Register(resources, url, handler, owner, alloc))
  {
    if Registers(resources, url, owner, alloc) {
      var r := Register(resources, url, handler, owner, alloc);
      assert r[1..] == resources;
      forall o ensures Count(r, o) <= RESOURCE_REGISTRATION_NUM_MAX {
        assert Count(r, o) == (if o == owner then 1 else 0) + Count(resources, o);
      }
    }
  }

  /** Cleanup erases one module and nothing else. */
  lemma {:induction false} CleanupErases(resources: seq<Resource>, owner: nat, other: nat)
    ensures forall r :: r in Cleanup(resources, owner) <==> r in resources && r.owner != owner
    ensures Count(Cleanup(resources, owner), other) == if other == owner then 0 else Count(resources, other)
  {
    if resources != [] {
      var rest := Cleanup(resources[1..], owner);
      CleanupErases(resources[1..], owner, other);
      assert resources == [resources[0]] + resources[1..];
      if resources[0].owner != owner {
        assert ([resources[0]] + rest)[1..] == rest;
      } else {
        assert [] + rest == rest;
      }
    }
  }

  lemma CleanupKeepsDistinct(resources: seq<Resource>, owner: nat)
    requires DistinctUrls(resources)
    ensures DistinctUrls(Cleanup(resources, owner))
  {
    OthersPairwise(resources, OwnedBy(owner), (a: Resource, b: Resource) => a.url != b.url);
  }

  lemma CleanupKeepsInv(resources: seq<Resource>, owner: nat)
    requires Inv(resources)
    ensures Inv(Cleanup(resources, owner))
  {
    CleanupKeepsDistinct(resources, owner);
    forall o ensures Count(Cleanup(resources, owner), o) <= RESOURCE_REGISTRATION_NUM_MAX {
      CleanupErases(resources, owner, o);
    }
    CleanupErases(resources, owner, owner);
  }

  datatype Step = Registering(url: seq<byte>, handler: nat, owner: nat, alloc: bool) | Cleaning(owner: nat)

  function Apply(resources: seq<Resource>, step: Step): seq<Resource> {
    match step
    case Registering(url, handler, owner, alloc) => Register(resources, url, handler, owner, alloc)
    case Cleaning(owner) => Cleanup(resources, owner)
  }

  function Run(resources: seq<Resource>, steps: seq<Step>): seq<Resource>
    decreases |steps|
  {
    if steps == [] then resources else Run(Apply(resources, steps[0]), steps[1..])
  }

  lemma {:induction false} RunKeepsInv(resources: seq<Resource>, steps: seq<Step>)
    requires Inv(resources)
    ensures Inv(Run(resources, steps))
    decreases |steps|
  {
    if steps != [] {
      match steps[0] {
        case Registering(url, handler, owner, alloc) => RegisterKeepsInv(resources, url, handler, owner, alloc);
        case Cleaning(owner) => CleanupKeepsInv(resources, owner);
      }
      hide Inv;
      RunKeepsInv(Apply(resources, steps[0]), steps[1..]);
    }
  }

  // ---------- dispatch ----------

  /** The resource a request is dispatched to, if any. */
  function Target(resources: seq<Resource>, url: seq<byte>): seq<Resource> {
    var i := Dispatch(resources, url);
    if i < |resources| then [resources[i]] else []
  }

  /** A new resource takes over exactly the requests that start with its URL. */
  lemma RegisteredFirst(resources: seq<Resource>, url: seq<byte>, handler: nat, owner: nat, request: seq<byte>)
    requires Registers(resources, url, owner, true)
    ensures Target(Register(resources, url, handler, owner, true), request) ==
            if UrlQuery.CheckUrlStart(request, url) > 0 then [Resource(url, handler, owner)] else Target(resources, request)
  {
    hide UrlQuery.CheckUrlStart;
    var r := Register(resources, url, handler, owner, true);
    assert r[1..] == resources;
  }

  /** Cleanup leaves requests to other modules where they were; those to the module find the next resource that fits. */
  lemma {:induction false} CleanupRedirects(resources: seq<Resource>, owner: nat, request: seq<byte>)
    ensures var t := Target(resources, request);
            (t != [] && t[0].owner == owner) || Target(Cleanup(resources, owner), request) == t
    ensures forall r :: r in Target(Cleanup(resources, owner), request) ==> r.owner != owner
  {
    CleanupErases(resources, owner, owner);
    hide UrlQuery.CheckUrlStart;
    if resources != [] {
      var x, rest := resources[0], resources[1..];
      CleanupRedirects(rest, owner, request);
      assert resources == [x] + rest;
      TargetStep(x, rest, request);
      TargetStep(x, Cleanup(rest, owner), request);
      hide Target;
      assert Cleanup(resources, owner) == if x.owner == owner then Cleanup(rest, owner) else [x] + Cleanup(rest, owner);
    }
  }

  lemma TargetStep(x: Resource, rest: seq<Resource>, request: seq<byte>)
    ensures Target([x] + rest, request) ==
            if UrlQuery.CheckUrlStart(request, x.url) > 0 then [x] else Target(rest, request)
  {
    hide UrlQuery.CheckUrlStart;
    assert ([x] + rest)[1..] == rest;
  }

  /** Steps in which one module registers, and no one else does anything. */
  predicate OwnRun(steps: seq<Step>, owner: nat) {
    forall i :: 0 <= i < |steps| ==> steps[i].Registering? && steps[i].owner == owner
  }

  /** A registration moves a request to the new resource or not at all, and cleanup forgets it. */
  lemma RegisterIsForgotten(resources: seq<Resource>, url: seq<byte>, handler: nat, owner: nat, alloc: bool, request: seq<byte>)
    ensures var after := Register(resources, url, handler, owner, alloc);
            && Cleanup(after, owner) == Cleanup(resources, owner)
            && (Target(after, request) == Target(resources, request) || Target(after, request) == [Resource(url, handler, owner)])
  {
    if Registers(resources, url, owner, alloc) {
      RegisteredFirst(resources, url, handler, owner, request);
      assert ([Resource(url, handler, owner)] + resources)[1..] == resources;
    }
  }

  /**
   Whatever a module registers, a request goes to it or where it went before; and when the module
   is cleaned up the registry is as if it had not registered anything.
   */
  lemma {:induction false} OwnRunIsForgotten(resources: seq<Resource>, steps: seq<Step>, owner: nat, request: seq<byte>)
    requires OwnRun(steps, owner)
    ensures var after := Run(resources, steps);
            && Cleanup(after, owner) == Cleanup(resources, owner)
            && (Target(after, request) == Target(resources, request) ||
                (Target(after, request) != [] && Target(after, request)[0].owner == owner))
    decreases |steps|
  {
    hide Target, Cleanup, Register;
    if steps != [] {
      var x := steps[0];
      RegisterIsForgotten(resources, x.url, x.handler, owner, x.alloc, request);
      OwnRunIsForgotten(Apply(resources, x), steps[1..], owner, request);
    }
  }
}
