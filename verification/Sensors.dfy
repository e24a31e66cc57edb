/**
 The sensor framework in its own form: sensor objects whose client lists, read interval and
 last reading are changed in place by the calls of apps and by the timer check
 (app-framework/sensor/native/runtime_sensor.c).
 */
module Sensors {
  import opened Bytes
  import Lists
  import M = SensorState

  class SysSensor {
    const id: M.u32
    const name: seq<byte>
    const instance: int
    const defaultInterval: M.u32
    var clients: seq<M.Client>
    var lastRead: M.u32
    var readInterval: M.u32

    constructor (id: M.u32, name: seq<byte>, instance: int, defaultInterval: M.u32)
      ensures Value() == M.Sensor(id, name, instance, defaultInterval, [], 0, 0)
    {
      this.id, this.name, this.instance, this.defaultInterval := id, name, instance, defaultInterval;
      clients, lastRead, readInterval := [], 0, 0;
    }

    function Value(): M.Sensor
      reads this
    {
      M.Sensor(id, name, instance, defaultInterval, clients, lastRead, readInterval)
    }

    /** find_sensor_client: the position of a client, which is taken out of the list if asked for. */
    method FindSensorClient(client: nat, remove: bool) returns (i: nat)
      modifies this`clients
      ensures i == M.FindClient(old(clients), client)
      ensures i < |old(clients)| ==> old(clients)[i].id == client
      ensures forall j :: 0 <= j < i ==> old(clients)[j].id != client
      ensures clients == if remove && i < |old(clients)| then old(clients)[..i] + old(clients)[i + 1..] else old(clients)
      ensures remove ==> clients == M.WithoutClient(old(clients), client)
    {
      i := 0;
      while i < |clients|
        invariant i <= |clients| && M.FindClient(clients, client) == i + M.FindClient(clients[i..], client)
        invariant clients == old(clients)
      {
        if clients[i].id == client {
          if remove {
            clients := clients[..i] + clients[i + 1..];
          }
          return;
        }
        assert clients[i..][1..] == clients[i + 1..];
        i := i + 1;
      }
    }

    /** What the cleanup of a module does to one sensor. */
    method DropClient(client: nat)
      modifies this`clients
      ensures Value() == M.Cleaned(old(Value()), client)
    {
      var c := FindSensorClient(client, true);
    }

    /** What closing does to the sensor. */
    method CloseFor(client: nat)
      modifies this
      ensures Value() == M.Closed(old(Value()), client)
    {
      var c := FindSensorClient(client, true);
      RefreshReadInterval();
    }

    /** refresh_read_interval. */
    method RefreshReadInterval()
      modifies this`readInterval
      ensures Value() == M.Refresh(old(Value()))
    {
      var interval := defaultInterval;
      if clients != [] {
        interval := clients[0].interval;
      }
      ghost var start := interval;
      var c := 0;
      assert clients[0..] == clients;
      while c < |clients|
        invariant c <= |clients| && M.Lowest(clients[c..], interval) == M.Lowest(clients, start)
      {
        assert clients[c..][1..] == clients[c + 1..];
        if clients[c].interval < interval {
          interval := clients[c].interval;
        }
        c := c + 1;
      }
      readInterval := interval;
    }

    /** The check of one sensor: the wait so far may get shorter. */
    method Check(now: M.u32, data: bool, wait: M.u32) returns (w: M.u32, done: seq<M.Action>)
      modifies this`lastRead
      ensures Value() == M.Checked(old(Value()), now) && done == M.ActionsOf(old(Value()), now, data)
      ensures w == Shorter(old(Value()), now, wait)
    {
      w, done := wait, [];
      var elapsed := M.Age(now, lastRead);
      if readInterval <= 0 || clients == [] {
        return;
      }
      if elapsed >= readInterval {
        done := Read(now, data);
        if readInterval < w {
          w := readInterval;
        }
      } else {
        var remaining := readInterval - elapsed;
        if remaining < w {
          w := remaining;
        }
      }
    }

    /** What the check does with a sensor that is due; `data` tells whether reading it gives data. */
    method Read(now: M.u32, data: bool) returns (done: seq<M.Action>)
      modifies this`lastRead
      ensures lastRead == now && done == [M.Read(id)] + if data then M.Deliveries(clients, id) else []
    {
      done := [M.Read(id)];
      if data {
        var c := 0;
        assert clients[0..] == clients;
        while c < |clients|
          invariant c <= |clients| && done + M.Deliveries(clients[c..], id) == [M.Read(id)] + M.Deliveries(clients, id)
        {
          assert clients[c..][1..] == clients[c + 1..];
          done := done + [M.Deliver(clients[c].id, id)];
          c := c + 1;
        }
      }
      lastRead := now;
    }
  }

  class Framework {
    /** g_sys_sensors, the newest first, and g_sensor_id_max. */
    var sensors: seq<SysSensor>
    var idMax: M.u32

    constructor ()
      ensures Valid() && State() == M.INITIAL && M.Inv(State())
    {
      sensors, idMax := [], 0;
    }

    ghost predicate Valid()
      reads this
    {
      forall i, j :: 0 <= i < j < |sensors| ==> sensors[i] != sensors[j]
    }

    ghost function State(): M.State
      reads this, sensors
    {
      M.State(Values(sensors), idMax)
    }

    /** add_sys_sensor. */
    method AddSysSensor(name: seq<byte>, instance: int, defaultInterval: M.u32, alloc: bool) returns (s: SysSensor?)
      requires Valid()
      modifies this
      ensures Valid() && State() == M.Apply(old(State()), M.AddSensor(name, instance, defaultInterval, alloc))
      ensures if alloc then s != null && fresh(s) && sensors == [s] + old(sensors) else s == null && sensors == old(sensors)
    {
      if !alloc {
        return null;
      }
      ghost var was := Values(sensors);
      idMax := (idMax + 1) % U32;
      if idMax == M.UINT32_MAX {
        idMax := (idMax + 1) % U32;
      }
      assert idMax == M.NextId(old(idMax));
      hide M.NextId;
      s := new SysSensor(idMax, name, instance, defaultInterval);
      sensors := [s] + sensors;
      assert Values(sensors) == [s.Value()] + was;
    }

    /** find_sys_sensor_id. */
    method FindSysSensorId(id: M.u32) returns (i: nat)
      ensures i == M.FindId(Values(sensors), id)
    {
      i := 0;
      ghost var v := Values(sensors);
      while i < |sensors|
        invariant i <= |sensors| && M.FindId(v, id) == i + M.FindId(v[i..], id)
      {
        if sensors[i].id == id {
          return;
        }
        assert v[i..][1..] == v[i + 1..];
        i := i + 1;
      }
    }

    /** find_sys_sensor. */
    method FindSysSensor(name: seq<byte>, instance: int) returns (i: nat)
      ensures i == M.FindName(Values(sensors), name, instance)
    {
      i := 0;
      ghost var v := Values(sensors);
      while i < |sensors|
        invariant i <= |sensors| && M.FindName(v, name, instance) == i + M.FindName(v[i..], name, instance)
      {
        if sensors[i].name == name && sensors[i].instance == instance {
          return;
        }
        assert v[i..][1..] == v[i + 1..];
        i := i + 1;
      }
    }

    /** wasm_sensor_open: the sensor id, or the largest 32-bit value. */
    method WasmSensorOpen(client: nat, name: seq<byte>, instance: int, alloc: bool) returns (r: M.u32)
      requires Valid()
      modifies sensors
      ensures Valid() && State() == M.Apply(old(State()), M.Open(client, name, instance, alloc))
      ensures r == if M.Opens(old(State()), client, name, instance, alloc)
                   then sensors[M.FindName(old(State()).sensors, name, instance)].id else 0xFFFF_FFFF
    {
      ghost var v := Values(sensors);
      var i := FindSysSensor(name, instance);
      if i == |sensors| {
        return M.UINT32_MAX;
      }
      var s := sensors[i];
      var c := s.FindSensorClient(client, false);
      if c < |s.clients| {
        return M.UINT32_MAX;
      }
      if !alloc {
        return M.UINT32_MAX;
      }
      s.clients := [M.Client(client, s.defaultInterval, 0, 0)] + s.clients;
      s.RefreshReadInterval();
      Changed(sensors, v, i);
      return s.id;
    }

    /** wasm_sensor_config. */
    method WasmSensorConfig(client: nat, id: M.u32, interval: M.u32, bitCfg: int, delay: M.u32) returns (ok: bool)
      requires Valid()
      modifies sensors
      ensures Valid() && State() == M.Apply(old(State()), M.Config(client, id, interval, bitCfg, delay))
      ensures ok == M.Configures(old(State()), client, id)
    {
      ghost var v := Values(sensors);
      var i := FindSysSensorId(id);
      if i == |sensors| {
        return false;
      }
      var s := sensors[i];
      var c := s.FindSensorClient(client, false);
      if c == |s.clients| {
        return false;
      }
      s.clients := s.clients[c := s.clients[c].(interval := interval, bitCfg := bitCfg, delay := delay)];
      s.RefreshReadInterval();
      Changed(sensors, v, i);
      return true;
    }

    /** wasm_sensor_close: true whenever the sensor exists. */
    method WasmSensorClose(client: nat, id: M.u32) returns (ok: bool)
      requires Valid()
      modifies sensors
      ensures Valid() && State() == M.Apply(old(State()), M.Close(client, id))
      ensures ok <==> M.FindId(old(State()).sensors, id) < |sensors|
    {
      ghost var v := Values(sensors);
      var i := FindSysSensorId(id);
      if i == |sensors| {
        return false;
      }
      var s := sensors[i];
      hide M.Closed, M.FindId;
      s.CloseFor(client);
      Changed(sensors, v, i);
      return true;
    }

    /** sensor_cleanup_callback. */
    method SensorCleanupCallback(client: nat)
      requires Valid()
      modifies sensors
      ensures Valid() && State() == M.Apply(old(State()), M.Cleanup(client))
    {
      hide M.Cleaned;
      var i := 0;
      while i < |sensors|
        invariant i <= |sensors| && Valid() && idMax == old(idMax) && sensors == old(sensors)
        invariant forall j :: 0 <= j < i ==> sensors[j].Value() == M.Cleaned(old(sensors[j].Value()), client)
        invariant forall j :: i <= j < |sensors| ==> sensors[j].Value() == old(sensors[j].Value())
      {
        sensors[i].DropClient(client);
        i := i + 1;
      }
    }

    /**
     check_sensor_timers at the clock reading `now`; `data` tells of each sensor whether reading
     it gives data. `done` lists the readings and the callbacks.
     */
    method CheckSensorTimers(now: M.u32, data: seq<bool>) returns (wait: M.u32, done: seq<M.Action>)
      requires Valid() && |data| == |sensors|
      modifies sensors
      ensures Valid() && State() == M.Apply(old(State()), M.Check(now))
      ensures wait == M.Wait(old(State()).sensors, now, M.UINT32_MAX)
      ensures done == M.Actions(old(State()).sensors, now, data)
    {
      hide M.Checked, M.Wait, M.Actions;
      ghost var v := Values(sensors);
      wait, done := CheckLoop(now, data, v);
      AllChecked(sensors, v, now);
    }

    /** Its loop; `v` are the sensors as they were. */
    method CheckLoop(now: M.u32, data: seq<bool>, ghost v: seq<M.Sensor>) returns (wait: M.u32, done: seq<M.Action>)
      requires Valid() && |data| == |sensors| && Midway(sensors, v, 0, now)
      modifies sensors
      ensures Midway(sensors, v, |v|, now) && wait == M.Wait(v, now, M.UINT32_MAX) && done == M.Actions(v, now, data)
    {
      wait, done := M.UINT32_MAX, [];
      Begun(v, data, now);
      hide Progress;
      var i: nat := 0;
      while i < |sensors|
        invariant i <= |sensors| && Valid() && Midway(sensors, v, i, now) && Progress(v, data, i, now, wait, done)
      {
        wait, done := CheckNext(i, now, data, wait, done, v);
        i := i + 1;
      }
      Done(v, data, i, now, wait, done);
    }

    /** One round of its loop. */
    method CheckNext(i: nat, now: M.u32, data: seq<bool>, wait: M.u32, done: seq<M.Action>, ghost v: seq<M.Sensor>)
      returns (w: M.u32, d: seq<M.Action>)
      requires Valid() && i < |sensors| == |data| == |v| && Midway(sensors, v, i, now) && Progress(v, data, i, now, wait, done)
      modifies sensors[i]
      ensures Midway(sensors, v, i + 1, now) && Progress(v, data, i + 1, now, w, d)
    {
      Proceeded(v, data, i, now, wait, done);
      hide Progress, M.Checked, M.ActionsOf, Shorter;
      assert forall j :: 0 <= j < |sensors| && j != i ==> sensors[j] != sensors[i];
      var more;
      w, more := sensors[i].Check(now, data[i], wait);
      d := done + more;
    }
  }

  /** The sensors before `i` have been checked. */
  ghost predicate Midway(sensors: seq<SysSensor>, v: seq<M.Sensor>, i: nat, now: M.u32)
    reads sensors
  {
    |v| == |sensors| &&
    forall j :: 0 <= j < |v| ==> sensors[j].Value() == if j < i then M.Checked(v[j], now) else v[j]
  }

  lemma AllChecked(sensors: seq<SysSensor>, v: seq<M.Sensor>, now: M.u32)
    requires Midway(sensors, v, |v|, now)
    ensures Values(sensors) == M.CheckAll(v, now)
  {
    hide M.Checked;
  }

  /** What is left to do from sensor `i` on completes `wait` and `done` to the whole result. */
  predicate Progress(v: seq<M.Sensor>, data: seq<bool>, i: nat, now: M.u32, wait: M.u32, done: seq<M.Action>)
    requires i <= |v| == |data|
  {
    && M.Wait(v[i..], now, wait) == M.Wait(v, now, M.UINT32_MAX)
    && done + M.Actions(v[i..], now, data[i..]) == M.Actions(v, now, data)
  }

  lemma Begun(v: seq<M.Sensor>, data: seq<bool>, now: M.u32)
    requires |v| == |data|
    ensures Progress(v, data, 0, now, M.UINT32_MAX, [])
  {
    assert v[0..] == v && data[0..] == data;
  }

  lemma Proceeded(v: seq<M.Sensor>, data: seq<bool>, i: nat, now: M.u32, wait: M.u32, done: seq<M.Action>)
    requires i < |v| == |data| && Progress(v, data, i, now, wait, done)
    ensures Progress(v, data, i + 1, now, Shorter(v[i], now, wait), done + M.ActionsOf(v[i], now, data[i]))
  {
    Unfold(v, data, i, now, wait);
    hide M.ActionsOf, M.Actions, M.Wait, Shorter;
    Lists.Associative(done, M.ActionsOf(v[i], now, data[i]), M.Actions(v[i + 1..], now, data[i + 1..]));
  }

  ghost function Values(sensors: seq<SysSensor>): (v: seq<M.Sensor>)
    reads sensors
    ensures |v| == |sensors| && forall i :: 0 <= i < |v| ==> v[i] == sensors[i].Value()
  {
    seq(|sensors|, i requires 0 <= i < |sensors| reads sensors => sensors[i].Value())
  }

  /** Only the sensor at `i` has changed since the values were `v`. */
  lemma Changed(sensors: seq<SysSensor>, v: seq<M.Sensor>, i: nat)
    requires |v| == |sensors| && i < |v| && forall j :: 0 <= j < |v| && j != i ==> sensors[j].Value() == v[j]
    ensures Values(sensors) == v[i := sensors[i].Value()]
  {
  }

  function Shorter(s: M.Sensor, now: M.u32, wait: M.u32): M.u32 {
    if M.Active(s) && M.Remaining(s, now) < wait then M.Remaining(s, now) else wait
  }

  lemma Done(v: seq<M.Sensor>, data: seq<bool>, i: nat, now: M.u32, wait: M.u32, done: seq<M.Action>)
    requires i == |v| == |data| && Progress(v, data, i, now, wait, done)
    ensures wait == M.Wait(v, now, M.UINT32_MAX) && done == M.Actions(v, now, data)
  {
  }

  lemma Unfold(v: seq<M.Sensor>, data: seq<bool>, i: nat, now: M.u32, wait: M.u32)
    requires i < |v| == |data|
    ensures M.Wait(v[i..], now, wait) == M.Wait(v[i + 1..], now, Shorter(v[i], now, wait))
    ensures M.Actions(v[i..], now, data[i..]) == M.ActionsOf(v[i], now, data[i]) + M.Actions(v[i + 1..], now, data[i + 1..])
  {
    assert v[i..][1..] == v[i + 1..] && data[i..][1..] == data[i + 1..];
    hide M.ActionsOf, M.Remaining, M.Active;
  }
}
