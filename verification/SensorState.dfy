/**
 System sensors and their clients: what opening, configuring, closing, module cleanup and the
 timer check do to them (app-framework/sensor/native/runtime_sensor.c). bh_get_elpased_ms is
 not part of this model; it is taken to be the difference of two 32-bit clock readings.
 */
module SensorState {
  import opened Bytes
  import opened Lists

  type u32 = x: int | 0 <= x < U32 witness 0

  const UINT32_MAX: u32 := U32 - 1

  datatype Client = Client(id: nat, interval: u32, bitCfg: int, delay: u32)

  datatype Sensor = Sensor(id: u32, name: seq<byte>, instance: int, defaultInterval: u32,
                           clients: seq<Client>, lastRead: u32, readInterval: u32)

  /** g_sys_sensors and g_sensor_id_max. */
  datatype State = State(sensors: seq<Sensor>, idMax: u32)

  const INITIAL := State([], 0)

  function ClientIs(id: nat): Client -> bool { (c: Client) => c.id == id }

  /** The position of a module among the clients, or their number. */
  function FindClient(clients: seq<Client>, id: nat): (i: nat)
    ensures i <= |clients|
    ensures i < |clients| ==> clients[i].id == id
    ensures forall j :: 0 <= j < i ==> clients[j].id != id
  {
    Find(clients, ClientIs(id))
  }

  function WithoutClient(clients: seq<Client>, id: nat): seq<Client> { Unlinked(clients, ClientIs(id)) }

  function FindId(sensors: seq<Sensor>, id: u32): (i: nat)
    ensures i <= |sensors|
    ensures i < |sensors| ==> sensors[i].id == id
    ensures forall j :: 0 <= j < i ==> sensors[j].id != id
  {
    Find(sensors, SensorIs(id))
  }

  function SensorIs(id: u32): Sensor -> bool { (s: Sensor) => s.id == id }

  function Named(name: seq<byte>, instance: int): Sensor -> bool { (s: Sensor) => s.name == name && s.instance == instance }

  function FindName(sensors: seq<Sensor>, name: seq<byte>, instance: int): (i: nat)
    ensures i <= |sensors|
    ensures i < |sensors| ==> sensors[i].name == name && sensors[i].instance == instance
  {
    Find(sensors, Named(name, instance))
  }

  /** The smallest of `least` and the intervals of the clients. */
  function Lowest(clients: seq<Client>, least: u32): (r: u32)
    ensures r <= least && forall c :: c in clients ==> r <= c.interval
    ensures r == least || exists c :: c in clients && c.interval == r
  {
    if clients == [] then least
    else Lowest(clients[1..], if clients[0].interval < least then clients[0].interval else least)
  }

  /** refresh_read_interval. */
  function Refresh(s: Sensor): Sensor {
    s.(readInterval := Lowest(s.clients, if s.clients == [] then s.defaultInterval else s.clients[0].interval))
  }

  /** Ids are given out in turn; the largest 32-bit value is passed over. */
  function NextId(idMax: u32): u32 {
    if idMax + 1 == UINT32_MAX then 0 else (idMax + 1) % U32
  }

  datatype Step =
    | AddSensor(name: seq<byte>, instance: int, defaultInterval: u32, alloc: bool)
    | Open(client: nat, name: seq<byte>, instance: int, alloc: bool)
    | Config(client: nat, id: u32, interval: u32, bitCfg: int, delay: u32)
    | Close(client: nat, id: u32)
    | Cleanup(client: nat)
    | Check(now: u32)

  function Opened(s: Sensor, client: nat): Sensor {
    Refresh(s.(clients := [Client(client, s.defaultInterval, 0, 0)] + s.clients))
  }

  function Configured(s: Sensor, i: nat, interval: u32, bitCfg: int, delay: u32): Sensor
    requires i < |s.clients|
  {
    Refresh(s.(clients := s.clients[i := s.clients[i].(interval := interval, bitCfg := bitCfg, delay := delay)]))
  }

  function Closed(s: Sensor, client: nat): Sensor {
    Refresh(s.(clients := WithoutClient(s.clients, client)))
  }

  /** Cleanup drops the client and leaves the read interval as it is. */
  function Cleaned(s: Sensor, client: nat): Sensor { s.(clients := WithoutClient(s.clients, client)) }

  function CleanAll(sensors: seq<Sensor>, client: nat): (r: seq<Sensor>)
    ensures |r| == |sensors| && forall i :: 0 <= i < |r| ==> r[i] == Cleaned(sensors[i], client)
  {
    if sensors == [] then [] else [Cleaned(sensors[0], client)] + CleanAll(sensors[1..], client)
  }

  // ---------- the timer check ----------

  /** bh_get_elpased_ms. */
  function Age(now: u32, last: u32): u32 { (now - last) % U32 }

  predicate Active(s: Sensor) { s.readInterval > 0 && s.clients != [] }

  predicate Due(s: Sensor, now: u32) { Active(s) && Age(now, s.lastRead) >= s.readInterval }

  function Checked(s: Sensor, now: u32): Sensor { if Due(s, now) then s.(lastRead := now) else s }

  function CheckAll(sensors: seq<Sensor>, now: u32): (r: seq<Sensor>)
    ensures |r| == |sensors| && forall i :: 0 <= i < |r| ==> r[i] == Checked(sensors[i], now)
  {
    if sensors == [] then [] else [Checked(sensors[0], now)] + CheckAll(sensors[1..], now)
  }

  /** How long an active sensor leaves until its next reading, counted from this check. */
  function Remaining(s: Sensor, now: u32): u32
    requires Active(s)
  {
    if Due(s, now) then s.readInterval else s.readInterval - Age(now, s.lastRead)
  }

  /** ms_to_next_check after the sensors, starting from `least`. */
  function Wait(sensors: seq<Sensor>, now: u32, least: u32): u32 {
    if sensors == [] then least
    else
      var s := sensors[0];
      Wait(sensors[1..], now, if Active(s) && Remaining(s, now) < least then Remaining(s, now) else least)
  }

  /** A sensor is read, or the data it gave is handed to a client. */
  datatype Action = Read(sensor: u32) | Deliver(client: nat, sensor: u32)

  function Deliveries(clients: seq<Client>, sensor: u32): (d: seq<Action>)
    ensures |d| == |clients| && forall i :: 0 <= i < |d| ==> d[i] == Deliver(clients[i].id, sensor)
  {
    if clients == [] then [] else [Deliver(clients[0].id, sensor)] + Deliveries(clients[1..], sensor)
  }

  /** What a check does with one sensor, `data` telling whether reading it gives data. */
  function ActionsOf(s: Sensor, now: u32, data: bool): seq<Action> {
    if Due(s, now) then [Read(s.id)] + (if data then Deliveries(s.clients, s.id) else []) else []
  }

  function Actions(sensors: seq<Sensor>, now: u32, data: seq<bool>): seq<Action>
    requires |data| == |sensors|
  {
    if sensors == [] then [] else ActionsOf(sensors[0], now, data[0]) + Actions(sensors[1..], now, data[1..])
  }

  // ---------- steps ----------

  /** Whether opening succeeds: the sensor exists and the module has not opened it yet. */
  predicate Opens(st: State, client: nat, name: seq<byte>, instance: int, alloc: bool) {
    var i := FindName(st.sensors, name, instance);
    i < |st.sensors| && FindClient(st.sensors[i].clients, client) == |st.sensors[i].clients| && alloc
  }

  /** Whether configuring succeeds: the sensor exists and the module has opened it. */
  predicate Configures(st: State, client: nat, id: u32) {
    var i := FindId(st.sensors, id);
    i < |st.sensors| && FindClient(st.sensors[i].clients, client) < |st.sensors[i].clients|
  }

  function Apply(st: State, step: Step): State {
    match step
    case AddSensor(name, instance, defaultInterval, alloc) =>
      if !alloc then st
      else
        var id := NextId(st.idMax);
        State([Sensor(id, name, instance, defaultInterval, [], 0, 0)] + st.sensors, id)
    case Open(client, name, instance, alloc) =>
      var i := FindName(st.sensors, name, instance);
      if Opens(st, client, name, instance, alloc) then st.(sensors := st.sensors[i := Opened(st.sensors[i], client)]) else st
    case Config(client, id, interval, bitCfg, delay) =>
      var i := FindId(st.sensors, id);
      if Configures(st, client, id) then
        st.(sensors := st.sensors[i := Configured(st.sensors[i], FindClient(st.sensors[i].clients, client), interval, bitCfg, delay)])
      else st
    case Close(client, id) =>
      var i := FindId(st.sensors, id);
      if i == |st.sensors| then st else st.(sensors := st.sensors[i := Closed(st.sensors[i], client)])
    case Cleanup(client) => st.(sensors := CleanAll(st.sensors, client))
    case Check(now) => st.(sensors := CheckAll(st.sensors, now))
  }

  function Run(st: State, steps: seq<Step>): State
    decreases |steps|
  {
    if steps == [] then st else Run(Apply(st, steps[0]), steps[1..])
  }

  // ---------- what every step keeps ----------

  predicate DistinctClients(clients: seq<Client>) {
    forall i, j :: 0 <= i < j < |clients| ==> clients[i].id != clients[j].id
  }

  /** No module twice, and the sensor is read at least as often as any client asks for. */
  predicate Sound(s: Sensor) {
    DistinctClients(s.clients) && forall c :: c in s.clients ==> s.readInterval <= c.interval
  }

  /** The id of the k-th sensor ever added. */
  function IdOf(k: nat): u32 { k % (U32 - 1) }

  predicate Inv(st: State) {
    && (forall s :: s in st.sensors ==> Sound(s))
    && (forall i :: 0 <= i < |st.sensors| ==> st.sensors[i].id == IdOf(|st.sensors| - i))
    && st.idMax == IdOf(|st.sensors|)
  }

  lemma RefreshIsSound(s: Sensor)
    requires DistinctClients(s.clients)
    ensures Sound(Refresh(s))
  {
  }

  lemma WithoutIsDistinct(clients: seq<Client>, id: nat)
    requires DistinctClients(clients)
    ensures DistinctClients(WithoutClient(clients, id)) && WithoutClient(clients, id) == Others(clients, ClientIs(id))
    ensures forall c :: c in WithoutClient(clients, id) <==> c in clients && c.id != id
  {
    UnlinkedIsOthers(clients, ClientIs(id));
    OthersMembers(clients, ClientIs(id));
    OthersPairwise(clients, ClientIs(id), (c: Client, d: Client) => c.id != d.id);
  }

  lemma ClosedIsSound(s: Sensor, client: nat)
    requires Sound(s)
    ensures Sound(Closed(s, client)) && Closed(s, client).id == s.id
  {
    WithoutIsDistinct(s.clients, client);
    RefreshIsSound(s.(clients := WithoutClient(s.clients, client)));
  }

  lemma OpenedIsSound(s: Sensor, client: nat)
    requires Sound(s) && FindClient(s.clients, client) == |s.clients|
    ensures Sound(Opened(s, client)) && Opened(s, client).id == s.id
  {
    RefreshIsSound(s.(clients := [Client(client, s.defaultInterval, 0, 0)] + s.clients));
  }

  lemma ConfiguredIsSound(s: Sensor, i: nat, interval: u32, bitCfg: int, delay: u32)
    requires Sound(s) && i < |s.clients|
    ensures Sound(Configured(s, i, interval, bitCfg, delay)) && Configured(s, i, interval, bitCfg, delay).id == s.id
  {
    RefreshIsSound(s.(clients := s.clients[i := s.clients[i].(interval := interval, bitCfg := bitCfg, delay := delay)]));
  }

  lemma NextIdCycles(k: nat)
    ensures NextId(IdOf(k)) == IdOf(k + 1)
  {
    var n := U32 - 1;
    assert k + 1 == n * (k / n) + IdOf(k) + 1;
    if IdOf(k) + 1 == n {
      assert k + 1 == n * (k / n + 1);
    }
  }

  lemma UpdateKeepsInv(st: State, i: nat, s: Sensor)
    requires Inv(st) && i < |st.sensors| && Sound(s) && s.id == st.sensors[i].id
    ensures Inv(st.(sensors := st.sensors[i := s]))
  {
    hide Sound, IdOf;
  }

  lemma AddKeepsInv(st: State, name: seq<byte>, instance: int, defaultInterval: u32)
    requires Inv(st)
    ensures Inv(Apply(st, AddSensor(name, instance, defaultInterval, true)))
  {
    hide IdOf, NextId;
    NextIdCycles(|st.sensors|);
  }

  lemma CleanupKeepsInv(st: State, client: nat)
    requires Inv(st)
    ensures Inv(Apply(st, Cleanup(client)))
  {
    hide IdOf, WithoutClient;
    forall i | 0 <= i < |st.sensors| ensures Sound(Cleaned(st.sensors[i], client)) {
      SensorIsSound(st, i);
      WithoutIsDistinct(st.sensors[i].clients, client);
    }
  }

  lemma StepKeepsInv(st: State, step: Step)
    requires Inv(st)
    ensures Inv(Apply(st, step))
  {
    hide Inv, Sound, Opened, Configured, WithoutClient, Refresh;
    match step
    case AddSensor(name, instance, defaultInterval, alloc) =>
      if alloc { AddKeepsInv(st, name, instance, defaultInterval); }
    case Open(client, name, instance, alloc) =>
      var i := FindName(st.sensors, name, instance);
      if i < |st.sensors| && FindClient(st.sensors[i].clients, client) == |st.sensors[i].clients| {
        SensorIsSound(st, i);
        OpenedIsSound(st.sensors[i], client);
        UpdateKeepsInv(st, i, Opened(st.sensors[i], client));
      }
    case Config(client, id, interval, bitCfg, delay) =>
      var i := FindId(st.sensors, id);
      if i < |st.sensors| && FindClient(st.sensors[i].clients, client) < |st.sensors[i].clients| {
        SensorIsSound(st, i);
        var c := FindClient(st.sensors[i].clients, client);
        ConfiguredIsSound(st.sensors[i], c, interval, bitCfg, delay);
        UpdateKeepsInv(st, i, Configured(st.sensors[i], c, interval, bitCfg, delay));
      }
    case Close(client, id) =>
      var i := FindId(st.sensors, id);
      if i < |st.sensors| {
        SensorIsSound(st, i);
        ClosedIsSound(st.sensors[i], client);
        UpdateKeepsInv(st, i, Closed(st.sensors[i], client));
      }
    case Cleanup(client) => CleanupKeepsInv(st, client);
    case Check(now) => CheckKeepsInv(st, now);
  }

  lemma SensorIsSound(st: State, i: nat)
    requires Inv(st) && i < |st.sensors|
    ensures Sound(st.sensors[i])
  {
  }

  lemma CheckKeepsInv(st: State, now: u32)
    requires Inv(st)
    ensures Inv(Apply(st, Check(now)))
  {
    hide IdOf, Due;
    forall i | 0 <= i < |st.sensors| ensures Sound(Checked(st.sensors[i], now)) {
      SensorIsSound(st, i);
    }
  }

  lemma {:induction false} RunKeepsInv(st: State, steps: seq<Step>)
    requires Inv(st)
    ensures Inv(Run(st, steps))
    decreases |steps|
  {
    if steps != [] {
      StepKeepsInv(st, steps[0]);
      RunKeepsInv(Apply(st, steps[0]), steps[1..]);
    }
  }

  /** The read interval is the smallest one asked for; without clients it is the default. */
  ghost predicate Exact(s: Sensor) {
    if s.clients == [] then s.readInterval == s.defaultInterval
    else Sound(s) && exists c :: c in s.clients && c.interval == s.readInterval
  }

  lemma RefreshIsExact(s: Sensor)
    requires DistinctClients(s.clients)
    ensures Exact(Refresh(s))
  {
    if s.clients != [] {
      RefreshIsSound(s);
      assert s.clients[0] in s.clients;
    }
  }

  /** The sensor that a step opens, configures or closes, if it does. */
  function Target(st: State, step: Step): Option<nat> {
    match step
    case Open(client, name, instance, alloc) =>
      if Opens(st, client, name, instance, alloc) then Some(FindName(st.sensors, name, instance)) else None
    case Config(client, id, _, _, _) => if Configures(st, client, id) then Some(FindId(st.sensors, id)) else None
    case Close(_, id) => if FindId(st.sensors, id) < |st.sensors| then Some(FindId(st.sensors, id)) else None
    case _ => None
  }

  /**
   The sensor that was opened, configured or closed ends up with the exact read interval,
   whether or not that changes it; the other sensors stay as they are.
   */
  lemma StepIsExact(st: State, step: Step, i: nat)
    requires Inv(st) && (step.Open? || step.Config? || step.Close?) && i < |st.sensors|
    ensures |Apply(st, step).sensors| == |st.sensors|
    ensures if Target(st, step) == Some(i) then Exact(Apply(st, step).sensors[i])
            else Apply(st, step).sensors[i] == st.sensors[i]
  {
    SensorIsSound(st, i);
    hide *;
    match step
    case Open(client, name, instance, alloc) => OpenIsExact(st, client, name, instance, alloc, i);
    case Config(client, id, interval, bitCfg, delay) => ConfigIsExact(st, client, id, interval, bitCfg, delay, i);
    case Close(client, id) => CloseIsExact(st, client, id, i);
  }

  lemma OpenIsExact(st: State, client: nat, name: seq<byte>, instance: int, alloc: bool, i: nat)
    requires i < |st.sensors| && Sound(st.sensors[i])
    ensures var step := Open(client, name, instance, alloc);
            && |Apply(st, step).sensors| == |st.sensors|
            && if Target(st, step) == Some(i) then Exact(Apply(st, step).sensors[i])
               else Apply(st, step).sensors[i] == st.sensors[i]
  {
    hide Exact, Refresh, Sound, FindName;
    if Target(st, Open(client, name, instance, alloc)) == Some(i) {
      OpenedIsExact(st.sensors[i], client);
    }
  }

  lemma OpenedIsExact(s: Sensor, client: nat)
    requires Sound(s) && FindClient(s.clients, client) == |s.clients|
    ensures Exact(Opened(s, client))
  {
    RefreshIsExact(s.(clients := [Client(client, s.defaultInterval, 0, 0)] + s.clients));
  }

  lemma ConfigIsExact(st: State, client: nat, id: u32, interval: u32, bitCfg: int, delay: u32, i: nat)
    requires i < |st.sensors| && Sound(st.sensors[i])
    ensures var step := Config(client, id, interval, bitCfg, delay);
            && |Apply(st, step).sensors| == |st.sensors|
            && if Target(st, step) == Some(i) then Exact(Apply(st, step).sensors[i])
               else Apply(st, step).sensors[i] == st.sensors[i]
  {
    hide Exact, Refresh, Sound, FindId;
    if Target(st, Config(client, id, interval, bitCfg, delay)) == Some(i) {
      ConfiguredIsExact(st.sensors[i], FindClient(st.sensors[i].clients, client), interval, bitCfg, delay);
    }
  }

  lemma ConfiguredIsExact(s: Sensor, c: nat, interval: u32, bitCfg: int, delay: u32)
    requires Sound(s) && c < |s.clients|
    ensures Exact(Configured(s, c, interval, bitCfg, delay))
  {
    RefreshIsExact(s.(clients := s.clients[c := s.clients[c].(interval := interval, bitCfg := bitCfg, delay := delay)]));
  }

  lemma CloseIsExact(st: State, client: nat, id: u32, i: nat)
    requires i < |st.sensors| && Sound(st.sensors[i])
    ensures var step := Close(client, id);
            && |Apply(st, step).sensors| == |st.sensors|
            && if Target(st, step) == Some(i) then Exact(Apply(st, step).sensors[i])
               else Apply(st, step).sensors[i] == st.sensors[i]
  {
    hide Exact, Refresh, Sound, FindId, WithoutClient;
    if Target(st, Close(client, id)) == Some(i) {
      ClosedIsExact(st.sensors[i], client);
    }
  }

  lemma ClosedIsExact(s: Sensor, client: nat)
    requires Sound(s)
    ensures Exact(Closed(s, client))
  {
    WithoutIsDistinct(s.clients, client);
    hide Exact, Refresh, WithoutClient;
    RefreshIsExact(s.(clients := WithoutClient(s.clients, client)));
  }

  /** Sensor ids identify sensors until 2^32 - 1 of them have been added, and no longer. */
  lemma IdsAreDistinct(st: State)
    requires Inv(st)
    ensures (forall i, j :: 0 <= i < j < |st.sensors| ==> st.sensors[i].id != st.sensors[j].id) <==> |st.sensors| < U32
  {
    var n := |st.sensors|;
    if n < U32 {
      forall i, j | 0 <= i < j < n ensures st.sensors[i].id != st.sensors[j].id {
        IdsApart(n - j, n - i);
      }
    } else {
      assert IdOf(1) == IdOf(U32);
      assert st.sensors[n - U32].id == IdOf(U32) && st.sensors[n - 1].id == IdOf(1);
    }
  }

  lemma IdsApart(a: nat, b: nat)
    requires 0 < a < b < U32
    ensures IdOf(a) != IdOf(b)
  {
  }

  /** Cleanup takes the module out of every sensor and leaves the other clients in order. */
  lemma CleanupErases(st: State, client: nat, i: nat)
    requires Inv(st) && i < |st.sensors|
    ensures var cs, after := st.sensors[i].clients, Apply(st, Cleanup(client)).sensors[i].clients;
            after == Others(cs, ClientIs(client)) && FindClient(after, client) == |after|
  {
    SensorIsSound(st, i);
    WithoutIsDistinct(st.sensors[i].clients, client);
  }
}
