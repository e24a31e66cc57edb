/**
 Pending requests of an app: a list in sending order, one timer for all of them, and a
 32-bit millisecond clock that wraps around (app-framework/base/app/request.c).
 */
module TransactionState {
  import opened Bytes
  import Lists

  const TIMEOUT_MS := 5000

  /** A transaction: message id, start time as read from the clock, and the handler's user data. */
  datatype Pending = Pending(mid: nat, time: nat, user: nat)

  /** g_trans_timer: null, or going off at a point in true time. */
  datatype Timer = Off | Armed(deadline: nat)

  /**
   The state of the request layer. `now` is true time, which the clock shows modulo 2^32;
   `born` are the true start times of the pending transactions. `sent`, `answered` and
   `timedOut` list the user data of every request sent and of every handler call, in order.
   */
  datatype State = State(list: seq<Pending>, born: seq<nat>, timer: Timer, now: nat,
                         sent: seq<nat>, answered: seq<nat>, timedOut: seq<nat>)

  const INITIAL := State([], [], Off, 0, [], [], [])

  /** wasm_get_sys_tick_ms. */
  function Clock(now: nat): nat { now % U32 }

  /** The elapsed time between two clock readings, as the source computes it. */
  function Elapsed(now: nat, time: nat): int {
    if now < time then now + (0xFFFF_FFFF - time) + 1 else now - time
  }

  /** As long as less than 2^32 ms have passed the computed elapsed time is the true age. */
  lemma ElapsedIsAge(now: nat, born: nat)
    requires born <= now
    ensures Elapsed(Clock(now), Clock(born)) == now - born <==> now - born < U32
  {
    var age := now - born;
    assert now == U32 * (now / U32) + Clock(now) && born == U32 * (born / U32) + Clock(born);
    if age < U32 {
      assert now / U32 == born / U32 || now / U32 == born / U32 + 1;
    }
  }

  predicate Expired(p: Pending, now: nat) { Elapsed(Clock(now), p.time) >= TIMEOUT_MS }

  /** The delay until a transaction expires, in 32-bit unsigned arithmetic. */
  function MsToExpiry(p: Pending, now: nat): nat { (TIMEOUT_MS - Elapsed(Clock(now), p.time)) % U32 }

  function Rearmed(p: Pending, now: nat): Timer { Armed(now + MsToExpiry(p, now)) }

  /** How many transactions the scan takes that stops at the first one not expired. */
  function ExpiredPrefix(list: seq<Pending>, now: nat): (n: nat)
    ensures n <= |list|
  {
    if list == [] || !Expired(list[0], now) then 0 else 1 + ExpiredPrefix(list[1..], now)
  }

  function MidIs(mid: nat): Pending -> bool { (p: Pending) => p.mid == mid }

  /** The position of a message id, or the length of the list. */
  function Find(list: seq<Pending>, mid: nat): (i: nat)
    ensures i <= |list|
    ensures i < |list| ==> list[i].mid == mid
    ensures forall j :: 0 <= j < i ==> list[j].mid != mid
  {
    Lists.Find(list, MidIs(mid))
  }

  function Remove<T>(s: seq<T>, i: nat): seq<T>
    requires i < |s|
  {
    s[..i] + s[i + 1..]
  }

  function Users(list: seq<Pending>): (u: seq<nat>)
    ensures |u| == |list|
  {
    if list == [] then [] else [list[0].user] + Users(list[1..])
  }

  function Reverse(s: seq<nat>): (r: seq<nat>)
    ensures |r| == |s|
  {
    if s == [] then [] else Reverse(s[1..]) + [s[0]]
  }

  /** api_send_request, for a request that packs; the new transaction goes to the end of the list. */
  function Send(s: State, mid: nat, user: nat): State {
    s.(list := s.list + [Pending(mid, Clock(s.now), user)], born := s.born + [s.now], sent := s.sent + [user],
       timer := if s.list == [] && s.timer.Off? then Armed(s.now + TIMEOUT_MS) else s.timer)
  }

  /** on_response, for a response that unpacks. */
  function Respond(s: State, mid: nat): State
    requires |s.born| == |s.list|
  {
    var i := Find(s.list, mid);
    if i == |s.list| then s
    else
      s.(list := Remove(s.list, i), born := Remove(s.born, i), answered := s.answered + [s.list[i].user],
         timer := if i > 0 then s.timer else if |s.list| > 1 then Rearmed(s.list[1], s.now) else Off)
  }

  /**
   transaction_timeout_handler: the handlers of the expired prefix are called in reverse order;
   the clock is read again, at `later`, before the timer is armed for the first one left.
   */
  function Expire(s: State, later: nat): State
    requires |s.born| == |s.list|
  {
    var n := ExpiredPrefix(s.list, s.now);
    s.(list := s.list[n..], born := s.born[n..], timedOut := s.timedOut + Reverse(Users(s.list[..n])), now := later,
       timer := if n < |s.list| then Rearmed(s.list[n], later) else Off)
  }

  // ---------- steps and runs ----------

  datatype Step = Sending(mid: nat, user: nat) | Responding(mid: nat) | Expiring(later: nat) | Ticking(ms: nat)

  function Apply(s: State, step: Step): State
    requires |s.born| == |s.list|
  {
    match step
    case Sending(mid, user) => Send(s, mid, user)
    case Responding(mid) => Respond(s, mid)
    case Expiring(later) => Expire(s, later)
    case Ticking(ms) => s.(now := s.now + ms)
  }

  /** No pending transaction is 2^32 ms old at the time `t`. */
  predicate Young(s: State, t: nat) {
    forall i :: 0 <= i < |s.born| ==> t - s.born[i] < U32
  }

  /**
   What may happen in a state: message ids and user data of pending requests are distinct,
   the handler runs when the timer is due, and no transaction gets too old for the clock.
   */
  predicate Allowed(s: State, step: Step) {
    match step
    case Sending(mid, user) => (forall p :: p in s.list ==> p.mid != mid) && user !in s.sent
    case Responding(_) => true
    case Expiring(later) => s.timer.Armed? && s.timer.deadline <= s.now <= later && Young(s, later)
    case Ticking(ms) => Young(s, s.now + ms)
  }

  /** What every step keeps: true start times are in order and match the clock readings. */
  predicate Dated(s: State) {
    && |s.born| == |s.list|
    && (forall i :: 0 <= i < |s.list| ==> s.list[i].time == Clock(s.born[i]) && s.born[i] <= s.now)
    && (forall i, j :: 0 <= i < j < |s.born| ==> s.born[i] <= s.born[j])
    && Young(s, s.now)
  }

  predicate DistinctMids(list: seq<Pending>) {
    forall i, j :: 0 <= i < j < |list| ==> list[i].mid != list[j].mid
  }

  /** Every request sent is answered, timed out or pending, exactly once; the timer is armed when requests are pending. */
  ghost predicate Accounted(s: State) {
    && multiset(s.sent) == multiset(s.answered) + multiset(s.timedOut) + multiset(Users(s.list))
    && (forall u :: u in multiset(s.sent) ==> multiset(s.sent)[u] == 1)
  }

  ghost predicate Inv(s: State) {
    Dated(s) && DistinctMids(s.list) && Accounted(s) && (s.timer.Off? <==> s.list == [])
  }

  ghost predicate AllowedRun(s: State, steps: seq<Step>)
    decreases |steps|
  {
    steps == [] || (|s.born| == |s.list| && Allowed(s, steps[0]) && AllowedRun(Apply(s, steps[0]), steps[1..]))
  }

  function Run(s: State, steps: seq<Step>): State
    requires AllowedRun(s, steps)
    decreases |steps|
  {
    if steps == [] then s else Run(Apply(s, steps[0]), steps[1..])
  }
}
