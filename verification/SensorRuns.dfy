/**
 What the timer check promises: who is read and told, how long the returned wait is, and how
 regular the readings are when no check comes late
 (app-framework/sensor/native/runtime_sensor.c).
 */
module SensorRuns {
  import opened Bytes
  import opened SensorState

  // ---------- who is read and told ----------

  predicate DistinctIds(sensors: seq<Sensor>) {
    forall i, j :: 0 <= i < j < |sensors| ==> sensors[i].id != sensors[j].id
  }

  /** A check reads exactly the sensors that are due, each once, and hands data to each of their clients once. */
  lemma {:induction false} EachClientOnce(sensors: seq<Sensor>, now: u32, data: seq<bool>, i: nat, client: nat)
    requires |data| == |sensors| && i < |sensors| && DistinctIds(sensors) && DistinctClients(sensors[i].clients)
    ensures var s, done := sensors[i], multiset(Actions(sensors, now, data));
            && done[Read(s.id)] == (if Due(s, now) then 1 else 0)
            && done[Deliver(client, s.id)] ==
               (if Due(s, now) && data[i] && FindClient(s.clients, client) < |s.clients| then 1 else 0)
  {
    var s, first, rest := sensors[i], ActionsOf(sensors[0], now, data[0]), Actions(sensors[1..], now, data[1..]);
    assert multiset(first + rest) == multiset(first) + multiset(rest);
    hide Due;
    if i == 0 {
      Strangers(sensors[1..], now, data[1..], s.id, client);
      OwnActions(s, now, data[0], client);
    } else {
      EachClientOnce(sensors[1..], now, data[1..], i - 1, client);
      OtherActions(sensors[0], now, data[0], s.id, client);
    }
  }

  lemma {:induction false} Strangers(sensors: seq<Sensor>, now: u32, data: seq<bool>, id: u32, client: nat)
    requires |data| == |sensors| && forall s :: s in sensors ==> s.id != id
    ensures var done := multiset(Actions(sensors, now, data)); done[Read(id)] == 0 && done[Deliver(client, id)] == 0
  {
    if sensors != [] {
      var first, rest := ActionsOf(sensors[0], now, data[0]), Actions(sensors[1..], now, data[1..]);
      assert multiset(first + rest) == multiset(first) + multiset(rest);
      OtherActions(sensors[0], now, data[0], id, client);
      Strangers(sensors[1..], now, data[1..], id, client);
    }
  }

  lemma OtherActions(s: Sensor, now: u32, data: bool, id: u32, client: nat)
    requires s.id != id
    ensures var done := multiset(ActionsOf(s, now, data)); done[Read(id)] == 0 && done[Deliver(client, id)] == 0
  {
    assert Read(id) !in ActionsOf(s, now, data) && Deliver(client, id) !in ActionsOf(s, now, data);
  }

  lemma OwnActions(s: Sensor, now: u32, data: bool, client: nat)
    requires DistinctClients(s.clients)
    ensures var done := multiset(ActionsOf(s, now, data));
            && done[Read(s.id)] == (if Due(s, now) then 1 else 0)
            && done[Deliver(client, s.id)] == (if Due(s, now) && data && FindClient(s.clients, client) < |s.clients| then 1 else 0)
  {
    hide Due;
    if Due(s, now) {
      var d := Deliveries(s.clients, s.id);
      assert Read(s.id) !in d;
      assert multiset([Read(s.id)] + d) == multiset([Read(s.id)]) + multiset(d);
      DeliveredOnce(s.clients, s.id, client);
    }
  }

  lemma FindStep(clients: seq<Client>, client: nat)
    requires clients != []
    ensures FindClient(clients, client) == if clients[0].id == client then 0 else 1 + FindClient(clients[1..], client)
  {
  }

  lemma {:induction false} DeliveredOnce(clients: seq<Client>, id: u32, client: nat)
    requires DistinctClients(clients)
    ensures multiset(Deliveries(clients, id))[Deliver(client, id)] == if FindClient(clients, client) < |clients| then 1 else 0
  {
    if clients != [] {
      var rest := Deliveries(clients[1..], id);
      assert multiset([Deliver(clients[0].id, id)] + rest) == multiset([Deliver(clients[0].id, id)]) + multiset(rest);
      DeliveredOnce(clients[1..], id, client);
      FindStep(clients, client);
      hide FindClient;
      if clients[0].id == client {
        assert forall k :: 0 <= k < |clients| - 1 ==> clients[1..][k] == clients[k + 1];
      }
    }
  }

  // ---------- how long the wait is ----------

  /** The clock shows true time modulo 2^32. */
  function Clock(t: nat): u32 { t % U32 }

  lemma AgeGrows(now: u32, last: u32, d: nat)
    requires Age(now, last) + d < U32
    ensures Age(Clock(now + d), last) == Age(now, last) + d
  {
    var x := now + d;
    assert x == U32 * (x / U32) + Clock(x);
    if last <= now {
      assert Age(now, last) == now - last;
    } else {
      assert Age(now, last) == now - last + U32;
    }
  }

  /** A sensor just checked comes due when what remains of its interval is over, and not earlier. */
  lemma DueWhenOver(s: Sensor, now: u32, d: nat)
    requires Active(s) && d <= Remaining(s, now)
    ensures Due(Checked(s, now), Clock(now + d)) <==> d == Remaining(s, now)
  {
    AgeGrows(now, Checked(s, now).lastRead, d);
  }

  lemma {:induction false} WaitIsLowest(sensors: seq<Sensor>, now: u32, least: u32)
    ensures Wait(sensors, now, least) <= least
    ensures forall s :: s in sensors && Active(s) ==> Wait(sensors, now, least) <= Remaining(s, now)
    ensures Wait(sensors, now, least) == least ||
            exists s :: s in sensors && Active(s) && Wait(sensors, now, least) == Remaining(s, now)
  {
    hide Active, Remaining;
    if sensors != [] {
      var s := sensors[0];
      var next := if Active(s) && Remaining(s, now) < least then Remaining(s, now) else least;
      WaitIsLowest(sensors[1..], now, next);
      assert sensors == [s] + sensors[1..];
    }
  }

  /** After the check at `now` some active sensor is due `d` milliseconds later. */
  ghost predicate DueAfter(sensors: seq<Sensor>, now: u32, d: nat) {
    exists i :: 0 <= i < |sensors| && Due(CheckAll(sensors, now)[i], Clock(now + d))
  }

  ghost predicate AnyActive(sensors: seq<Sensor>) {
    exists s :: s in sensors && Active(s)
  }

  /**
   The wait overshoots no active sensor, and it is not shorter than it need be: at its end some
   active sensor is due, or there is no active sensor and the wait is the largest possible.
   */
  lemma WaitIsExact(sensors: seq<Sensor>, now: u32)
    ensures forall d: nat :: d < Wait(sensors, now, UINT32_MAX) ==> !DueAfter(sensors, now, d)
    ensures AnyActive(sensors) ==> DueAfter(sensors, now, Wait(sensors, now, UINT32_MAX))
    ensures !AnyActive(sensors) ==> Wait(sensors, now, UINT32_MAX) == UINT32_MAX
  {
    forall d: nat | d < Wait(sensors, now, UINT32_MAX) ensures !DueAfter(sensors, now, d) {
      NotBefore(sensors, now, d);
    }
    WaitIsLowest(sensors, now, UINT32_MAX);
    if AnyActive(sensors) {
      DueThen(sensors, now);
    }
  }

  lemma NotBefore(sensors: seq<Sensor>, now: u32, d: nat)
    requires d < Wait(sensors, now, UINT32_MAX)
    ensures !DueAfter(sensors, now, d)
  {
    WaitIsLowest(sensors, now, UINT32_MAX);
    hide Remaining, Wait, Due;
    forall i | 0 <= i < |sensors| ensures !Due(CheckAll(sensors, now)[i], Clock(now + d)) {
      assert sensors[i] in sensors;
      if Active(sensors[i]) {
        DueWhenOver(sensors[i], now, d);
      } else {
        NeverDue(sensors[i], now, d);
      }
    }
  }

  lemma NeverDue(s: Sensor, now: u32, d: nat)
    requires !Active(s)
    ensures !Due(Checked(s, now), Clock(now + d))
  {
  }

  lemma DueThen(sensors: seq<Sensor>, now: u32)
    requires AnyActive(sensors)
    ensures DueAfter(sensors, now, Wait(sensors, now, UINT32_MAX))
  {
    var wait := Wait(sensors, now, UINT32_MAX);
    WaitIsLowest(sensors, now, UINT32_MAX);
    hide Wait, Due, Remaining;
    var a :| a in sensors && Active(a);
    var t := if wait == Remaining(a, now) then a else var b :| b in sensors && Active(b) && wait == Remaining(b, now); b;
    var i :| 0 <= i < |sensors| && sensors[i] == t;
    DueWhenOver(t, now, wait);
    assert Due(CheckAll(sensors, now)[i], Clock(now + wait));
  }

  // ---------- how regular the readings are ----------

  /** `read` are true times of the last readings; no active sensor is overdue at the time `t`. */
  predicate OnSchedule(sensors: seq<Sensor>, read: seq<nat>, t: nat) {
    && |read| == |sensors|
    && forall i :: 0 <= i < |sensors| && Active(sensors[i]) ==>
         sensors[i].lastRead == Clock(read[i]) && read[i] <= t <= read[i] + sensors[i].readInterval
  }

  function Readings(sensors: seq<Sensor>, read: seq<nat>, t: nat): (r: seq<nat>)
    requires |read| == |sensors|
    ensures |r| == |sensors| && forall i :: 0 <= i < |r| ==> r[i] == if Due(sensors[i], Clock(t)) then t else read[i]
  {
    seq(|sensors|, i requires 0 <= i < |sensors| => if Due(sensors[i], Clock(t)) then t else read[i])
  }

  lemma TrueAge(t: nat, r: nat)
    requires r <= t < r + U32
    ensures Age(Clock(t), Clock(r)) == t - r
  {
    assert t == U32 * (t / U32) + Clock(t) && r == U32 * (r / U32) + Clock(r);
    assert t / U32 == r / U32 || t / U32 == r / U32 + 1;
  }

  /** A sensor on schedule is read exactly when its interval is over, in true time. */
  lemma ReadOnTheDot(sensors: seq<Sensor>, read: seq<nat>, t: nat, i: nat)
    requires OnSchedule(sensors, read, t) && i < |sensors| && Active(sensors[i])
    ensures Due(sensors[i], Clock(t)) <==> t == read[i] + sensors[i].readInterval
  {
    TrueAge(t, read[i]);
  }

  /** A check, followed by another one no later than the wait it returned, keeps every sensor on schedule. */
  lemma CheckKeepsSchedule(sensors: seq<Sensor>, read: seq<nat>, t: nat, d: nat)
    requires OnSchedule(sensors, read, t) && d <= Wait(sensors, Clock(t), UINT32_MAX)
    ensures OnSchedule(CheckAll(sensors, Clock(t)), Readings(sensors, read, t), t + d)
  {
    WaitIsLowest(sensors, Clock(t), UINT32_MAX);
    forall i | 0 <= i < |sensors| && Active(sensors[i])
      ensures Readings(sensors, read, t)[i] <= t + d <= Readings(sensors, read, t)[i] + sensors[i].readInterval
    {
      assert sensors[i] in sensors;
      TrueAge(t, read[i]);
    }
  }

  /** Each sleep is at most the wait returned by the check before it. */
  predicate Punctual(sensors: seq<Sensor>, t: nat, sleeps: seq<nat>)
    decreases |sleeps|
  {
    sleeps == [] ||
    (sleeps[0] <= Wait(sensors, Clock(t), UINT32_MAX) && Punctual(CheckAll(sensors, Clock(t)), t + sleeps[0], sleeps[1..]))
  }

  /** The true times of the last readings after a run of checks with sleeps in between. */
  function ReadingsAfter(sensors: seq<Sensor>, read: seq<nat>, t: nat, sleeps: seq<nat>): (r: seq<nat>)
    requires |read| == |sensors|
    ensures |r| == |sensors|
    decreases |sleeps|
  {
    if sleeps == [] then read
    else ReadingsAfter(CheckAll(sensors, Clock(t)), Readings(sensors, read, t), t + sleeps[0], sleeps[1..])
  }

  function Sum(s: seq<nat>): nat {
    if s == [] then 0 else s[0] + Sum(s[1..])
  }

  /** `d` is a multiple of `n`. */
  predicate Whole(d: int, n: nat) { n > 0 && d % n == 0 }

  /** From the reading at `first` to the one at `last` whole intervals pass, and after it not even one until `end`. */
  predicate Regular(interval: nat, first: nat, last: nat, end: nat) {
    first <= last <= end <= last + interval && Whole(last - first, interval)
  }

  /**
   When no check comes late an active sensor is read every `readInterval` milliseconds, neither
   early nor late: its readings are whole intervals apart, and none is missing at the end.
   */
  lemma {:induction false} ReadingsAreRegular(sensors: seq<Sensor>, read: seq<nat>, t: nat, sleeps: seq<nat>, i: nat)
    requires OnSchedule(sensors, read, t) && Punctual(sensors, t, sleeps) && i < |sensors| && Active(sensors[i])
    ensures Regular(sensors[i].readInterval, read[i], ReadingsAfter(sensors, read, t, sleeps)[i], t + Sum(sleeps))
    decreases |sleeps|
  {
    hide Due, Age, Wait, OnSchedule, CheckAll, Readings, Active, Regular, ReadingsAfter, Sum, Punctual, Clock;
    NoChecks(sensors, read, t, i);
    if sleeps != [] {
      var after, next, d := CheckAll(sensors, Clock(t)), Readings(sensors, read, t), sleeps[0];
      RunStep(sensors, read, t, sleeps);
      CheckKeepsSchedule(sensors, read, t, d);
      OneCheck(sensors, read, t, i);
      ReadingsAreRegular(after, next, t + d, sleeps[1..], i);
      OneMore(sensors[i].readInterval, read[i], next[i], ReadingsAfter(after, next, t + d, sleeps[1..])[i], t + Sum(sleeps));
    }
  }

  lemma NoChecks(sensors: seq<Sensor>, read: seq<nat>, t: nat, i: nat)
    requires OnSchedule(sensors, read, t) && i < |sensors| && Active(sensors[i])
    ensures ReadingsAfter(sensors, read, t, []) == read && Sum([]) == 0
    ensures Regular(sensors[i].readInterval, read[i], read[i], t)
  {
  }

  lemma RunStep(sensors: seq<Sensor>, read: seq<nat>, t: nat, sleeps: seq<nat>)
    requires |read| == |sensors| && sleeps != [] && Punctual(sensors, t, sleeps)
    ensures var after, next := CheckAll(sensors, Clock(t)), Readings(sensors, read, t);
            && sleeps[0] <= Wait(sensors, Clock(t), UINT32_MAX) && Punctual(after, t + sleeps[0], sleeps[1..])
            && ReadingsAfter(sensors, read, t, sleeps) == ReadingsAfter(after, next, t + sleeps[0], sleeps[1..])
            && Sum(sleeps) == sleeps[0] + Sum(sleeps[1..])
  {
    hide Wait, CheckAll, Readings, Clock;
  }

  lemma OneMore(interval: nat, first: nat, next: nat, last: nat, end: nat)
    requires Regular(interval, next, last, end) && (next == first || next == first + interval)
    ensures Regular(interval, first, last, end)
  {
    hide Whole;
    WholeIntervals(last, next, first, interval);
  }

  lemma OneCheck(sensors: seq<Sensor>, read: seq<nat>, t: nat, i: nat)
    requires OnSchedule(sensors, read, t) && i < |sensors| && Active(sensors[i])
    ensures var after, next := CheckAll(sensors, Clock(t))[i], Readings(sensors, read, t)[i];
            && Active(after) && after.readInterval == sensors[i].readInterval > 0
            && (next == read[i] || next == read[i] + sensors[i].readInterval)
  {
    ReadOnTheDot(sensors, read, t, i);
  }

  lemma WholeIntervals(a: nat, b: nat, c: nat, n: nat)
    requires a >= b && Whole(a - b, n) && (b == c || b == c + n)
    ensures Whole(a - c, n)
  {
    if b == c + n {
      var k := (a - b) / n;
      assert a - c == n * k + n;
      assert a - c == n * (k + 1);
      RemainderIs(a - c, n, k + 1, 0);
    }
  }
}
