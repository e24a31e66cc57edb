/**
 What each call does to the sensors and their clients, told field by field
 (app-framework/sensor/native/runtime_sensor.c).
 */
module SensorLaws {
  import opened Bytes
  import opened SensorState

  // ---------- which sensor and which client is meant ----------

  /** The sensor at `i` is the first with the name and instance. */
  predicate HasName(st: State, name: seq<byte>, instance: int, i: nat) {
    && i < |st.sensors| && st.sensors[i].name == name && st.sensors[i].instance == instance
    && forall j :: 0 <= j < i ==> st.sensors[j].name != name || st.sensors[j].instance != instance
  }

  /** The sensor at `i` is the first with the id. */
  predicate HasId(st: State, id: u32, i: nat) {
    i < |st.sensors| && st.sensors[i].id == id && forall j :: 0 <= j < i ==> st.sensors[j].id != id
  }

  /** The client at `c` is the first of the module. */
  predicate IsOf(s: Sensor, client: nat, c: nat) {
    c < |s.clients| && s.clients[c].id == client && forall j :: 0 <= j < c ==> s.clients[j].id != client
  }

  predicate NotAmong(s: Sensor, client: nat) {
    forall j :: 0 <= j < |s.clients| ==> s.clients[j].id != client
  }

  lemma NameIsFound(st: State, name: seq<byte>, instance: int)
    ensures forall i: nat :: HasName(st, name, instance, i) ==> FindName(st.sensors, name, instance) == i
    ensures FindName(st.sensors, name, instance) < |st.sensors| ==> HasName(st, name, instance, FindName(st.sensors, name, instance))
  {
    var i := FindName(st.sensors, name, instance);
    assert forall j :: 0 <= j < i ==> !Named(name, instance)(st.sensors[j]);
    assert i < |st.sensors| ==> HasName(st, name, instance, i);
  }

  lemma IdIsFound(st: State, id: u32)
    ensures forall i: nat :: HasId(st, id, i) ==> FindId(st.sensors, id) == i
    ensures FindId(st.sensors, id) < |st.sensors| ==> HasId(st, id, FindId(st.sensors, id))
  {
  }

  lemma ClientIsFound(s: Sensor, client: nat)
    ensures forall c: nat :: IsOf(s, client, c) ==> FindClient(s.clients, client) == c
    ensures FindClient(s.clients, client) == |s.clients| <==> NotAmong(s, client)
    ensures FindClient(s.clients, client) < |s.clients| ==> IsOf(s, client, FindClient(s.clients, client))
  {
  }

  lemma ClientIsUnlinked(s: Sensor, client: nat)
    ensures forall c: nat :: IsOf(s, client, c) ==> WithoutClient(s.clients, client) == s.clients[..c] + s.clients[c + 1..]
    ensures NotAmong(s, client) ==> WithoutClient(s.clients, client) == s.clients
    ensures NotAmong(s, client) <==> forall c: nat :: !IsOf(s, client, c)
  {
    ClientIsFound(s, client);
  }

  // ---------- opening, configuring, closing ----------

  /** `r` is the smallest interval of the clients. */
  predicate Smallest(r: u32, clients: seq<Client>) {
    (exists c :: c in clients && c.interval == r) && forall c :: c in clients ==> r <= c.interval
  }

  /** Only the sensor at `i` changes: it gets these clients, and the smallest of their intervals. */
  ghost predicate NowHas(st: State, t: State, i: nat, clients: seq<Client>)
    requires i < |st.sensors|
  {
    && |t.sensors| == |st.sensors| && t.idMax == st.idMax
    && (forall j :: 0 <= j < |st.sensors| && j != i ==> t.sensors[j] == st.sensors[j])
    && t.sensors[i] == st.sensors[i].(clients := clients, readInterval := t.sensors[i].readInterval)
    && if clients == [] then t.sensors[i].readInterval == st.sensors[i].defaultInterval
       else Smallest(t.sensors[i].readInterval, clients)
  }

  lemma RefreshedHas(st: State, i: nat, clients: seq<Client>)
    requires i < |st.sensors|
    ensures NowHas(st, st.(sensors := st.sensors[i := Refresh(st.sensors[i].(clients := clients))]), i, clients)
  {
    if clients != [] {
      assert clients[0] in clients;
    }
  }

  /** A module that opens a sensor stands first among its clients, with the default interval. */
  lemma OpeningAddsClient(st: State, client: nat, name: seq<byte>, instance: int, i: nat)
    requires HasName(st, name, instance, i) && NotAmong(st.sensors[i], client)
    ensures Opens(st, client, name, instance, true)
    ensures NowHas(st, Apply(st, Open(client, name, instance, true)), i,
                   [Client(client, st.sensors[i].defaultInterval, 0, 0)] + st.sensors[i].clients)
  {
    NameIsFound(st, name, instance);
    ClientIsFound(st.sensors[i], client);
    hide NowHas, FindName, FindClient;
    RefreshedHas(st, i, [Client(client, st.sensors[i].defaultInterval, 0, 0)] + st.sensors[i].clients);
  }

  /** Nothing is opened exactly without such a sensor or without memory, or when the module has opened it. */
  lemma OpeningIsRefused(st: State, client: nat, name: seq<byte>, instance: int, alloc: bool)
    ensures !Opens(st, client, name, instance, alloc) <==>
            !alloc || forall i: nat :: HasName(st, name, instance, i) ==> exists c: nat :: IsOf(st.sensors[i], client, c)
    ensures !Opens(st, client, name, instance, alloc) ==> Apply(st, Open(client, name, instance, alloc)) == st
  {
    NameIsFound(st, name, instance);
    var i := FindName(st.sensors, name, instance);
    if i < |st.sensors| {
      ClientIsFound(st.sensors[i], client);
    }
    hide HasName, IsOf, NotAmong, FindName, FindClient;
  }

  /** Configuring gives the client of the module exactly what was asked for; the other clients and their order stay. */
  lemma ConfiguringStores(st: State, client: nat, id: u32, interval: u32, bitCfg: int, delay: u32, i: nat, c: nat)
    requires HasId(st, id, i) && IsOf(st.sensors[i], client, c)
    ensures Configures(st, client, id)
    ensures NowHas(st, Apply(st, Config(client, id, interval, bitCfg, delay)), i,
                   st.sensors[i].clients[..c] + [Client(client, interval, bitCfg, delay)] + st.sensors[i].clients[c + 1..])
  {
    IdIsFound(st, id);
    ClientIsFound(st.sensors[i], client);
    var cs := st.sensors[i].clients;
    var after := cs[..c] + [Client(client, interval, bitCfg, delay)] + cs[c + 1..];
    assert cs[c := cs[c].(interval := interval, bitCfg := bitCfg, delay := delay)] == after;
    hide NowHas, FindId, FindClient;
    RefreshedHas(st, i, after);
  }

  /** Nothing is configured exactly without such a sensor, or when the module has not opened it. */
  lemma ConfiguringIsRefused(st: State, client: nat, id: u32, interval: u32, bitCfg: int, delay: u32)
    ensures !Configures(st, client, id) <==> forall i: nat :: HasId(st, id, i) ==> NotAmong(st.sensors[i], client)
    ensures !Configures(st, client, id) ==> Apply(st, Config(client, id, interval, bitCfg, delay)) == st
  {
    IdIsFound(st, id);
    var i := FindId(st.sensors, id);
    if i < |st.sensors| {
      ClientIsFound(st.sensors[i], client);
    }
    hide HasId, NotAmong, FindId, FindClient;
  }

  /** Closing drops the client of the module; the others stay in order. */
  lemma ClosingDropsClient(st: State, client: nat, id: u32, i: nat, c: nat)
    requires HasId(st, id, i) && IsOf(st.sensors[i], client, c)
    ensures NowHas(st, Apply(st, Close(client, id)), i, st.sensors[i].clients[..c] + st.sensors[i].clients[c + 1..])
  {
    IdIsFound(st, id);
    ClientIsUnlinked(st.sensors[i], client);
    hide NowHas, FindId, WithoutClient, Refresh;
    RefreshedHas(st, i, st.sensors[i].clients[..c] + st.sensors[i].clients[c + 1..]);
  }

  /** A module that is no client drops none, and a sensor that does not exist changes nothing. */
  lemma ClosingDropsNoOther(st: State, client: nat, id: u32)
    ensures forall i: nat :: HasId(st, id, i) && NotAmong(st.sensors[i], client) ==>
              NowHas(st, Apply(st, Close(client, id)), i, st.sensors[i].clients)
    ensures (forall i: nat :: !HasId(st, id, i)) ==> Apply(st, Close(client, id)) == st
  {
    IdIsFound(st, id);
    var i := FindId(st.sensors, id);
    if i < |st.sensors| {
      ClientIsUnlinked(st.sensors[i], client);
      RefreshedHas(st, i, st.sensors[i].clients);
    }
    hide NowHas, HasId, NotAmong, FindId, WithoutClient, Refresh;
  }

  // ---------- new sensors, cleanup, the check ----------

  /** A new sensor stands first, with the next id, which is never 2^32 - 1; without memory nothing changes. */
  lemma AddingComesFirst(st: State, name: seq<byte>, instance: int, interval: u32)
    ensures var id: u32 := if st.idMax >= 4294967294 then 0 else st.idMax + 1;
            Apply(st, AddSensor(name, instance, interval, true)) == State([Sensor(id, name, instance, interval, [], 0, 0)] + st.sensors, id)
    ensures Apply(st, AddSensor(name, instance, interval, false)) == st
  {
  }

  /** Cleanup takes a module out of a sensor it is a client of, and does nothing else to any. */
  lemma CleanupDropsClient(st: State, client: nat, i: nat)
    requires i < |st.sensors|
    ensures var s, t := st.sensors[i], Apply(st, Cleanup(client));
            && |t.sensors| == |st.sensors| && t.idMax == st.idMax
            && (forall c: nat :: IsOf(s, client, c) ==> t.sensors[i] == s.(clients := s.clients[..c] + s.clients[c + 1..]))
            && (NotAmong(s, client) ==> t.sensors[i] == s)
  {
    ClientIsUnlinked(st.sensors[i], client);
    hide WithoutClient, IsOf, NotAmong;
  }

  /** A sensor with clients and an interval is due when the clock shows that the interval is over. */
  predicate IsDue(s: Sensor, now: u32) {
    s.clients != [] && s.readInterval > 0 && (now - s.lastRead) % 4294967296 >= s.readInterval
  }

  /** The check notes the time of reading in the sensors that are due, and does nothing else to any. */
  lemma CheckNotesReadings(st: State, now: u32, i: nat)
    requires i < |st.sensors|
    ensures var s, t := st.sensors[i], Apply(st, Check(now));
            && |t.sensors| == |st.sensors| && t.idMax == st.idMax
            && t.sensors[i] == (if IsDue(s, now) then s.(lastRead := now) else s)
  {
  }

  /** One sensor that is due is read, and the data go to its clients in order. */
  lemma OneSensorsActions(s: Sensor, now: u32, data: bool)
    ensures Actions([s], now, [data]) ==
            if !IsDue(s, now) then []
            else if !data then [Read(s.id)]
            else [Read(s.id)] + seq(|s.clients|, j requires 0 <= j < |s.clients| => Deliver(s.clients[j].id, s.id))
  {
    assert [s][1..] == [] && [data][1..] == [];
    assert Deliveries(s.clients, s.id) == seq(|s.clients|, j requires 0 <= j < |s.clients| => Deliver(s.clients[j].id, s.id));
  }

  /** The sensors are served in the order of the list. */
  lemma {:induction false} ActionsInOrder(a: seq<Sensor>, b: seq<Sensor>, now: u32, dataA: seq<bool>, dataB: seq<bool>)
    requires |dataA| == |a| && |dataB| == |b|
    ensures Actions(a + b, now, dataA + dataB) == Actions(a, now, dataA) + Actions(b, now, dataB)
  {
    hide ActionsOf;
    if a == [] {
      assert a + b == b && dataA + dataB == dataB;
    } else {
      assert (a + b)[1..] == a[1..] + b && (dataA + dataB)[1..] == dataA[1..] + dataB;
      ActionsInOrder(a[1..], b, now, dataA[1..], dataB);
    }
  }
}
