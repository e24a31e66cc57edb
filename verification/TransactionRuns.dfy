/**
 Properties of whole runs of the request layer: the expiry scan, the accounting of handlers,
 the timer and its deadline (app-framework/base/app/request.c).
 */
module TransactionRuns {
  import opened Bytes
  import opened TransactionState
  import Lists

  // ---------- the scan that stops at the first unexpired transaction ----------

  /** The transactions whose expiry is as wanted, in order. */
  function Filter(list: seq<Pending>, now: nat, wanted: bool): seq<Pending> {
    if list == [] then []
    else (if Expired(list[0], now) == wanted then [list[0]] else []) + Filter(list[1..], now, wanted)
  }

  lemma AgeDecides(s: State, i: nat)
    requires Dated(s) && i < |s.list|
    ensures Expired(s.list[i], s.now) <==> s.now - s.born[i] >= TIMEOUT_MS
  {
    ElapsedIsAge(s.now, s.born[i]);
  }

  lemma {:induction false} PrefixBound(list: seq<Pending>, now: nat)
    ensures var n := ExpiredPrefix(list, now);
            (forall i :: 0 <= i < n ==> Expired(list[i], now)) && (n < |list| ==> !Expired(list[n], now))
  {
    hide Expired;
    if list != [] && Expired(list[0], now) {
      PrefixBound(list[1..], now);
      var n := ExpiredPrefix(list[1..], now);
      forall i | 0 <= i < n + 1 ensures Expired(list[i], now) {
        if i > 0 { assert list[i] == list[1..][i - 1]; }
      }
    }
  }

  lemma {:induction false} FilterUniform(list: seq<Pending>, now: nat, state: bool)
    requires forall i :: 0 <= i < |list| ==> Expired(list[i], now) == state
    ensures Filter(list, now, state) == list && Filter(list, now, !state) == []
  {
    hide Expired;
    if list != [] {
      FilterUniform(list[1..], now, state);
    }
  }

  lemma {:induction false} FilterConcat(a: seq<Pending>, b: seq<Pending>, now: nat, wanted: bool)
    ensures Filter(a + b, now, wanted) == Filter(a, now, wanted) + Filter(b, now, wanted)
  {
    hide Expired;
    if a == [] {
      assert a + b == b;
    } else {
      assert (a + b)[1..] == a[1..] + b;
      FilterConcat(a[1..], b, now, wanted);
    }
  }

  lemma PrefixIsExpired(s: State, i: nat)
    requires Dated(s) && i < |s.list|
    ensures Expired(s.list[i], s.now) <==> i < ExpiredPrefix(s.list, s.now)
  {
    var n := ExpiredPrefix(s.list, s.now);
    PrefixBound(s.list, s.now);
    if n <= i {
      AgeDecides(s, n);
      AgeDecides(s, i);
    }
    hide Expired, Clock;
  }

  /**
   Because the list is in order of age, the scan takes exactly the transactions that a
   filter over the whole list would take, which are those at least 5000 ms old.
   */
  lemma ScanIsFilter(s: State)
    requires Dated(s)
    ensures var n := ExpiredPrefix(s.list, s.now);
            s.list[..n] == Filter(s.list, s.now, true) && s.list[n..] == Filter(s.list, s.now, false) &&
            forall i :: 0 <= i < |s.list| ==> (i < n <==> s.now - s.born[i] >= 5000)
  {
    var n := ExpiredPrefix(s.list, s.now);
    forall i | 0 <= i < |s.list|
      ensures (Expired(s.list[i], s.now) <==> i < n) && (i < n <==> s.now - s.born[i] >= TIMEOUT_MS)
    {
      PrefixIsExpired(s, i);
      AgeDecides(s, i);
    }
    FilterByPrefix(s.list, s.now, n);
    hide Expired, Filter;
  }

  lemma FilterByPrefix(list: seq<Pending>, now: nat, n: nat)
    requires n <= |list| && forall i :: 0 <= i < |list| ==> (Expired(list[i], now) <==> i < n)
    ensures list[..n] == Filter(list, now, true) && list[n..] == Filter(list, now, false)
  {
    hide Expired, Filter;
    var a, b := list[..n], list[n..];
    assert list == a + b;
    FilterUniform(a, now, true);
    FilterUniform(b, now, false);
    FilterConcat(a, b, now, true);
    FilterConcat(a, b, now, false);
  }

  // ---------- accounting ----------

  lemma {:induction false} UsersConcat(a: seq<Pending>, b: seq<Pending>)
    ensures Users(a + b) == Users(a) + Users(b)
  {
    if a == [] {
      assert a + b == b;
    } else {
      assert (a + b)[1..] == a[1..] + b;
      UsersConcat(a[1..], b);
    }
  }

  lemma {:induction false} ReverseKeepsMembers(s: seq<nat>)
    ensures multiset(Reverse(s)) == multiset(s)
  {
    if s != [] {
      ReverseKeepsMembers(s[1..]);
      assert s == [s[0]] + s[1..];
    }
  }

  lemma SendAccounted(s: State, mid: nat, user: nat)
    requires Accounted(s) && user !in s.sent
    ensures Accounted(Send(s, mid, user))
  {
    var p := Pending(mid, Clock(s.now), user);
    UsersConcat(s.list, [p]);
    assert Users([p]) == [user];
    assert user !in multiset(s.sent);
    hide Users, Clock;
    OneMore(s.sent, user);
    MultisetAdd(multiset(s.answered) + multiset(s.timedOut), Users(s.list), user);
  }

  lemma MultisetAdd(m: multiset<nat>, users: seq<nat>, user: nat)
    ensures m + multiset(users + [user]) == m + multiset(users) + multiset{user}
  {
  }

  lemma OneMore(sent: seq<nat>, user: nat)
    requires user !in multiset(sent) && forall u :: u in multiset(sent) ==> multiset(sent)[u] == 1
    ensures var m := multiset(sent + [user]);
            m == multiset(sent) + multiset{user} && forall u :: u in m ==> m[u] == 1
  {
  }

  lemma RespondAccounted(s: State, mid: nat)
    requires Accounted(s) && |s.born| == |s.list|
    ensures Accounted(Respond(s, mid))
  {
    var i := Find(s.list, mid);
    if i < |s.list| {
      UsersWithout(s.list, i);
      hide Find, Users, Remove;
      OneLess(s.answered, multiset(s.timedOut), multiset(Users(s.list)), multiset(Users(Remove(s.list, i))), s.list[i].user);
    }
  }

  lemma UsersWithout(list: seq<Pending>, i: nat)
    requires i < |list|
    ensures multiset(Users(list)) == multiset(Users(Remove(list, i))) + multiset{list[i].user}
  {
    UsersSplit(list, i);
    hide Users, Remove;
    OneWithin(Users(list[..i]), list[i].user, Users(list[i + 1..]));
  }

  lemma UsersSplit(list: seq<Pending>, i: nat)
    requires i < |list|
    ensures var a, b := Users(list[..i]), Users(list[i + 1..]);
            Users(list) == a + ([list[i].user] + b) && Users(Remove(list, i)) == a + b
  {
    var a, p, b := list[..i], list[i], list[i + 1..];
    Lists.SplitAt(list, i);
    UsersConcat(a, [p] + b);
    UsersConcat(a, b);
    assert ([p] + b)[1..] == b;
    assert Users([p] + b) == [p.user] + Users(b);
  }

  lemma OneWithin(a: seq<nat>, user: nat, b: seq<nat>)
    ensures multiset(a + ([user] + b)) == multiset(a + b) + multiset{user}
  {
  }

  lemma OneLess(answered: seq<nat>, t: multiset<nat>, m: multiset<nat>, less: multiset<nat>, user: nat)
    requires m == less + multiset{user}
    ensures multiset(answered) + t + m == multiset(answered + [user]) + t + less
  {
  }

  lemma ExpireAccounted(s: State, later: nat)
    requires Accounted(s) && |s.born| == |s.list|
    ensures Accounted(Expire(s, later))
  {
    var n := ExpiredPrefix(s.list, s.now);
    var a, b := s.list[..n], s.list[n..];
    assert s.list == a + b;
    UsersConcat(a, b);
    ReverseKeepsMembers(Users(a));
  }

  // ---------- every step keeps the invariant ----------

  lemma SendDated(s: State, mid: nat, user: nat)
    requires Dated(s)
    ensures Dated(Send(s, mid, user))
  {
  }

  lemma RespondDated(s: State, mid: nat)
    requires Dated(s)
    ensures Dated(Respond(s, mid))
  {
    var i := Find(s.list, mid);
    if i < |s.list| {
      RemoveDated(s, i, Respond(s, mid));
    }
  }

  lemma RemoveDated(s: State, i: nat, t: State)
    requires Dated(s) && i < |s.list| && t.list == Remove(s.list, i) && t.born == Remove(s.born, i) && t.now == s.now
    ensures Dated(t)
  {
    hide Clock;
  }

  lemma ExpireDated(s: State, later: nat)
    requires Dated(s) && s.now <= later && Young(s, later)
    ensures Dated(Expire(s, later))
  {
    hide Clock, Rearmed;
    var n := ExpiredPrefix(s.list, s.now);
    var t := Expire(s, later);
    assert forall i :: 0 <= i < |t.list| ==> t.list[i] == s.list[i + n] && t.born[i] == s.born[i + n];
  }

  /** Each step that may happen keeps the invariant. */
  lemma StepKeepsInv(s: State, step: Step)
    requires Inv(s) && Allowed(s, step)
    ensures Inv(Apply(s, step))
  {
    hide Dated, Accounted, Rearmed;
    match step
    case Sending(mid, user) =>
      SendDated(s, mid, user);
      SendAccounted(s, mid, user);
    case Responding(mid) =>
      RespondLengths(s);
      RespondDated(s, mid);
      RespondAccounted(s, mid);
      RearmedIsArmed(s);
    case Expiring(later) =>
      RespondLengths(s);
      ExpireDated(s, later);
      ExpireAccounted(s, later);
      RearmedIsArmed(s);
    case Ticking(ms) =>
      TickKeeps(s, ms);
  }

  lemma RespondLengths(s: State)
    requires Dated(s)
    ensures |s.born| == |s.list|
  {
  }

  lemma RearmedIsArmed(s: State)
    ensures forall p, now :: Rearmed(p, now).Armed?
  {
  }

  lemma TickKeeps(s: State, ms: nat)
    requires Dated(s) && Accounted(s) && Young(s, s.now + ms)
    ensures Dated(s.(now := s.now + ms)) && Accounted(s.(now := s.now + ms))
  {
  }

  lemma InitialInv()
    ensures Inv(INITIAL)
  {
  }

  /** Over every run the invariant holds at the end. */
  lemma {:induction false} RunKeepsInv(s: State, steps: seq<Step>)
    requires Inv(s) && AllowedRun(s, steps)
    ensures Inv(Run(s, steps))
    decreases |steps|
  {
    hide Inv, Apply, Allowed;
    if steps != [] {
      StepKeepsInv(s, steps[0]);
      RunKeepsInv(Apply(s, steps[0]), steps[1..]);
    }
  }

  /**
   Over every run from the start: requests sent are the disjoint union of those answered,
   those timed out and those pending, no handler is called twice, and the timer is armed
   exactly when something is pending.
   */
  lemma EveryRequestIsAccountedFor(steps: seq<Step>, user: nat)
    requires AllowedRun(INITIAL, steps)
    ensures var s := Run(INITIAL, steps);
            |s.sent| == |s.answered| + |s.timedOut| + |s.list| && (s.timer.Armed? <==> s.list != []) &&
            (if user in s.sent
             then multiset(s.answered)[user] + multiset(s.timedOut)[user] + multiset(Users(s.list))[user] == 1
             else user !in s.answered && user !in s.timedOut && user !in Users(s.list))
  {
    InitialInv();
    RunKeepsInv(INITIAL, steps);
    var s := Run(INITIAL, steps);
    assert |multiset(s.sent)| == |s.sent|;
    assert user in s.sent <==> user in multiset(s.sent);
    hide Run, AllowedRun, Dated;
  }

  // ---------- the deadline ----------

  /** The timer goes off when the oldest pending transaction expires, and has not gone off late. */
  predicate OnTime(s: State) {
    s.timer.Armed? ==> s.born != [] && s.timer.deadline == s.born[0] + 5000 && s.now <= s.timer.deadline
  }

  /** Steps of a run in which the clock never passes an armed deadline. */
  predicate Punctual(s: State, step: Step) {
    match step
    case Expiring(later) => later == s.now
    case Ticking(ms) => s.timer.Armed? ==> s.now + ms <= s.timer.deadline
    case _ => true
  }

  ghost predicate PunctualRun(s: State, steps: seq<Step>)
    requires AllowedRun(s, steps)
    decreases |steps|
  {
    steps == [] || (Punctual(s, steps[0]) && PunctualRun(Apply(s, steps[0]), steps[1..]))
  }

  /** Arming for a transaction hits its expiry exactly when it is not yet older than the timeout. */
  lemma RearmIsExact(p: Pending, born: nat, now: nat)
    requires born <= now && now - born < U32 && p.time == Clock(born)
    ensures Rearmed(p, now) == Armed(born + 5000) <==> now - born <= 5000
  {
    ElapsedIsAge(now, born);
    hide Elapsed, Clock;
  }

  lemma StepKeepsOnTime(s: State, step: Step)
    requires Inv(s) && OnTime(s) && Allowed(s, step) && Punctual(s, step)
    ensures OnTime(Apply(s, step))
  {
    hide Accounted, DistinctMids, Rearmed, Expired;
    match step
    case Sending(mid, user) =>
    case Responding(mid) =>
      if |s.list| > 1 {
        RearmIsExact(s.list[1], s.born[1], s.now);
      }
    case Expiring(later) =>
      ScanIsFilter(s);
      var n := ExpiredPrefix(s.list, s.now);
      if n < |s.list| {
        RearmIsExact(s.list[n], s.born[n], later);
      }
    case Ticking(ms) =>
  }

  /** In a punctual run the armed deadline is always the oldest start time plus 5000 ms. */
  lemma {:induction false} DeadlineIsOldestExpiry(s: State, steps: seq<Step>)
    requires Inv(s) && OnTime(s) && AllowedRun(s, steps) && PunctualRun(s, steps)
    ensures OnTime(Run(s, steps))
    decreases |steps|
  {
    hide Inv, Apply, Allowed, OnTime, Punctual;
    if steps != [] {
      StepKeepsInv(s, steps[0]);
      StepKeepsOnTime(s, steps[0]);
      DeadlineIsOldestExpiry(Apply(s, steps[0]), steps[1..]);
    }
  }

  /** So whatever times out in a punctual run is then exactly 5000 ms old. */
  lemma TimesOutOnTheDot(s: State, later: nat, i: nat)
    requires Inv(s) && OnTime(s) && Allowed(s, Expiring(later)) && i < |s.list|
    ensures i < ExpiredPrefix(s.list, s.now) <==> s.now - s.born[i] == 5000
    ensures 0 < ExpiredPrefix(s.list, s.now)
  {
    ScanIsFilter(s);
    hide Accounted, DistinctMids, Expired;
  }
}
