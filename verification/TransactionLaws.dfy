/**
 What becomes of each request, told by the steps of a run alone: which response answers it, or
 that it times out when the timer goes off 5000 ms or more after it was sent
 (app-framework/base/app/request.c).
 */
module TransactionLaws {
  import opened TransactionState
  import opened TransactionRuns
  import Lists

  // ---------- one step ----------

  /** A response goes to the handler of the pending request with its message id, which leaves the list; nothing else changes there. */
  lemma ResponseAnswersItsRequest(s: State, mid: nat, k: nat)
    requires |s.born| == |s.list| && k < |s.list| && s.list[k].mid == mid
    requires forall j :: 0 <= j < k ==> s.list[j].mid != mid
    ensures var t := Apply(s, Responding(mid));
            && t.answered == s.answered + [s.list[k].user]
            && t.list == s.list[..k] + s.list[k + 1..] && t.born == s.born[..k] + s.born[k + 1..]
            && t.timedOut == s.timedOut && t.sent == s.sent && t.now == s.now
  {
    assert Find(s.list, mid) == k;
  }

  /** A response with an id that no pending request has changes nothing. */
  lemma UnknownResponseIsIgnored(s: State, mid: nat)
    requires |s.born| == |s.list| && forall j :: 0 <= j < |s.list| ==> s.list[j].mid != mid
    ensures Apply(s, Responding(mid)) == s
  {
  }

  /** Those at least 5000 ms old go, the newest handler first; the others stay in order. */
  lemma ExpiryTakesTheOld(s: State, later: nat, n: nat)
    requires Inv(s) && n <= |s.list| && forall i :: 0 <= i < |s.list| ==> (i < n <==> s.now - s.born[i] >= 5000)
    ensures var t := Apply(s, Expiring(later));
            && t.list == s.list[n..] && t.born == s.born[n..] && t.sent == s.sent && t.answered == s.answered && t.now == later
            && t.timedOut == s.timedOut + seq(n, j requires 0 <= j < n => s.list[n - 1 - j].user)
  {
    hide Accounted, DistinctMids, Filter, Rearmed, ExpiredPrefix, Reverse, Users;
    ScanIsFilter(s);
    SamePrefix(|s.list|, s, n, ExpiredPrefix(s.list, s.now));
    assert Apply(s, Expiring(later)) == Expire(s, later);
    hide Inv, Apply;
    LastFirst(s.list, n);
  }

  lemma LastFirst(list: seq<Pending>, n: nat)
    requires n <= |list|
    ensures Reverse(Users(list[..n])) == seq(n, j requires 0 <= j < n => list[n - 1 - j].user)
  {
    hide Reverse, Users;
    var users := Users(list[..n]);
    forall j | 0 <= j < n ensures Reverse(users)[j] == list[n - 1 - j].user {
      ReverseAt(users, j);
      UserAt(list[..n], n - 1 - j);
    }
  }

  lemma SamePrefix(count: nat, s: State, n: nat, m: nat)
    requires |s.born| == count && n <= count && m <= count
    requires forall i :: 0 <= i < count ==> (i < n <==> s.now - s.born[i] >= 5000)
    requires forall i :: 0 <= i < count ==> (i < m <==> s.now - s.born[i] >= TIMEOUT_MS)
    ensures n == m
  {
    assert n < count ==> s.now - s.born[n] < 5000;
    assert m < count ==> s.now - s.born[m] < TIMEOUT_MS;
  }

  lemma {:induction false} ReverseAt(s: seq<nat>, j: nat)
    requires j < |s|
    ensures Reverse(s)[j] == s[|s| - 1 - j]
  {
    if j < |s| - 1 { ReverseAt(s[1..], j); }
  }

  lemma {:induction false} UserAt(list: seq<Pending>, j: nat)
    requires j < |list|
    ensures Users(list)[j] == list[j].user
  {
    if j > 0 { UserAt(list[1..], j - 1); }
  }

  // ---------- runs ----------

  datatype Fate = Waits | Answered | TimedOut

  /** What the steps do to a request sent at `born`, from the time `now` on. */
  function FateOf(steps: seq<Step>, mid: nat, born: nat, now: nat): Fate
    decreases |steps|
  {
    if steps == [] then Waits
    else match steps[0]
      case Sending(_, _) => FateOf(steps[1..], mid, born, now)
      case Responding(m) => if m == mid then Answered else FateOf(steps[1..], mid, born, now)
      case Expiring(later) => if now - born >= 5000 then TimedOut else FateOf(steps[1..], mid, born, later)
      case Ticking(ms) => FateOf(steps[1..], mid, born, now + ms)
  }

  /** The handlers called so far stay called. */
  lemma {:induction false} HandlersStay(s: State, steps: seq<Step>)
    requires Inv(s) && AllowedRun(s, steps)
    ensures s.answered <= Run(s, steps).answered && s.timedOut <= Run(s, steps).timedOut && s.sent <= Run(s, steps).sent
    decreases |steps|
  {
    hide Inv, Allowed;
    if steps != [] {
      StepKeepsInv(s, steps[0]);
      HandlersStep(s, steps[0]);
      hide Apply;
      HandlersStay(Apply(s, steps[0]), steps[1..]);
    }
  }

  lemma HandlersStep(s: State, step: Step)
    requires |s.born| == |s.list|
    ensures var t := Apply(s, step); s.answered <= t.answered && s.timedOut <= t.timedOut && s.sent <= t.sent
  {
    hide Rearmed, Reverse, Users, ExpiredPrefix;
  }

  /** A pending request stays where its fate is still open, and else its handler has been called. */
  ghost predicate Met(t: State, p: Pending, born: nat, fate: Fate) {
    match fate
    case Waits => exists k :: 0 <= k < |t.list| && k < |t.born| && t.list[k] == p && t.born[k] == born
    case Answered => p.user in t.answered
    case TimedOut => p.user in t.timedOut
  }

  /** A step that does not decide the fate of request `k` keeps it pending, at its new place. */
  lemma StillPending(s: State, step: Step, k: nat) returns (i: nat)
    requires Inv(s) && Allowed(s, step) && k < |s.list|
    requires step.Responding? ==> step.mid != s.list[k].mid
    requires step.Expiring? ==> s.now - s.born[k] < 5000
    ensures var t := Apply(s, step); i < |t.list| && i < |t.born| && t.list[i] == s.list[k] && t.born[i] == s.born[k]
  {
    hide Accounted, Rearmed, Expired;
    match step
    case Sending(mid, user) => i := k;
    case Responding(mid) =>
      var f := Find(s.list, mid);
      i := if f < k then k - 1 else k;
    case Expiring(later) =>
      i := NotYet(s, later, k);
    case Ticking(ms) => i := k;
  }

  lemma NotYet(s: State, later: nat, k: nat) returns (i: nat)
    requires Inv(s) && k < |s.list| && s.now - s.born[k] < 5000
    ensures var t := Apply(s, Expiring(later)); i < |t.list| && i < |t.born| && t.list[i] == s.list[k] && t.born[i] == s.born[k]
  {
    hide Accounted, DistinctMids, Filter, Rearmed, ExpiredPrefix, Reverse, Users, Expired;
    ScanIsFilter(s);
    i := k - ExpiredPrefix(s.list, s.now);
  }

  /** Of every pending request the rest of the run makes what its steps say. */
  lemma {:induction false} FateIsMet(s: State, steps: seq<Step>, k: nat)
    requires Inv(s) && AllowedRun(s, steps) && k < |s.list| && k < |s.born|
    ensures Met(Run(s, steps), s.list[k], s.born[k], FateOf(steps, s.list[k].mid, s.born[k], s.now))
    decreases |steps|
  {
    hide Inv, Apply, Allowed, Met;
    if steps == [] {
      FateOpen(s, k);
    } else {
      var step, p, born := steps[0], s.list[k], s.born[k];
      Lengths(s);
      var t := Apply(s, step);
      StepKeepsInv(s, step);
      if step.Responding? && step.mid == p.mid {
        AnsweredNow(s, k);
        HandlersStay(t, steps[1..]);
        FateClosed(t, Run(t, steps[1..]), p, born, Answered);
      } else if step.Expiring? && s.now - born >= 5000 {
        TimesOutNow(s, step.later, k);
        HandlersStay(t, steps[1..]);
        FateClosed(t, Run(t, steps[1..]), p, born, TimedOut);
      } else {
        var i := StillPending(s, step, k);
        TimeAfterStep(s, step);
        FateIsMet(t, steps[1..], i);
      }
    }
  }

  lemma Lengths(s: State)
    requires Inv(s)
    ensures |s.born| == |s.list|
  {
  }

  lemma FateOpen(s: State, k: nat)
    requires k < |s.list| && k < |s.born|
    ensures Met(s, s.list[k], s.born[k], Waits)
  {
  }

  lemma FateClosed(t: State, end: State, p: Pending, born: nat, fate: Fate)
    requires t.answered <= end.answered && t.timedOut <= end.timedOut && !fate.Waits? && Met(t, p, born, fate)
    ensures Met(end, p, born, fate)
  {
    if fate.Answered? { Kept(t.answered, end.answered, p.user); } else { Kept(t.timedOut, end.timedOut, p.user); }
  }

  lemma AnsweredNow(s: State, k: nat)
    requires Inv(s) && k < |s.list| && k < |s.born|
    ensures Met(Apply(s, Responding(s.list[k].mid)), s.list[k], s.born[k], Answered)
  {
    var mid := s.list[k].mid;
    assert |s.born| == |s.list| && forall j :: 0 <= j < k ==> s.list[j].mid != mid;
    hide Inv, Apply;
    ResponseAnswersItsRequest(s, mid, k);
    assert Apply(s, Responding(mid)).answered[|s.answered|] == s.list[k].user;
  }

  lemma TimeAfterStep(s: State, step: Step)
    requires |s.born| == |s.list|
    ensures Apply(s, step).now == TimeAfter([step], s.now)
  {
    assert [step][1..] == [];
  }

  lemma Kept(a: seq<nat>, b: seq<nat>, x: nat)
    requires a <= b && x in a
    ensures x in b
  {
  }

  lemma TimesOutNow(s: State, later: nat, k: nat)
    requires Inv(s) && k < |s.list| && k < |s.born| && s.now - s.born[k] >= 5000
    ensures Met(Apply(s, Expiring(later)), s.list[k], s.born[k], TimedOut)
  {
    hide Accounted, ExpiredPrefix, DistinctMids, Filter;
    ScanIsFilter(s);
    var n := ExpiredPrefix(s.list, s.now);
    LastOfThem(s, later, n, k);
  }

  lemma LastOfThem(s: State, later: nat, n: nat, k: nat)
    requires Inv(s) && k < n <= |s.list| && |s.born| == |s.list| && forall i :: 0 <= i < |s.list| ==> (i < n <==> s.now - s.born[i] >= 5000)
    ensures Met(Apply(s, Expiring(later)), s.list[k], s.born[k], TimedOut)
  {
    hide Inv, Apply;
    ExpiryTakesTheOld(s, later, n);
    var gone := seq(n, j requires 0 <= j < n => s.list[n - 1 - j].user);
    assert gone[n - 1 - k] == s.list[k].user;
    KeptBehind(s.timedOut, gone, s.list[k].user);
  }

  lemma KeptBehind(a: seq<nat>, b: seq<nat>, x: nat)
    requires x in b
    ensures x in a + b
  {
  }

  /** The true time after some steps. */
  function TimeAfter(steps: seq<Step>, now: nat): nat
    decreases |steps|
  {
    if steps == [] then now
    else TimeAfter(steps[1..], match steps[0] case Expiring(later) => later case Ticking(ms) => now + ms case _ => now)
  }

  lemma {:induction false} RunInTwo(s: State, a: seq<Step>, b: seq<Step>)
    requires Inv(s) && AllowedRun(s, a + b)
    ensures AllowedRun(s, a) && Inv(Run(s, a)) && AllowedRun(Run(s, a), b) && Run(s, a + b) == Run(Run(s, a), b)
    ensures Run(s, a).now == TimeAfter(a, s.now)
    decreases |a|
  {
    if a == [] {
      assert a + b == b;
    } else {
      assert (a + b)[1..] == a[1..] + b && (a + b)[0] == a[0];
      StepKeepsInv(s, a[0]);
      assert |s.born| == |s.list|;
      hide Inv, Apply, Allowed;
      RunInTwo(Apply(s, a[0]), a[1..], b);
      TimeStep(s, a);
    }
  }

  lemma TimeStep(s: State, a: seq<Step>)
    requires |s.born| == |s.list| && a != []
    ensures TimeAfter(a, s.now) == TimeAfter(a[1..], Apply(s, a[0]).now)
  {
  }

  /**
   Over every run from the start each request that was sent is, at the end, exactly what the
   steps behind its sending say: answered by the first response with its message id, unless the
   timer handler ran 5000 ms or more after it was sent before that, and else pending.
   */
  lemma EveryFate(steps: seq<Step>, i: nat)
    requires AllowedRun(INITIAL, steps) && i < |steps| && steps[i].Sending?
    ensures var s, born, user := Run(INITIAL, steps), TimeAfter(steps[..i], 0), steps[i].user;
            var fate := FateOf(steps[i + 1..], steps[i].mid, born, born);
            && (user in s.answered <==> fate == Answered)
            && (user in s.timedOut <==> fate == TimedOut)
            && (user in Users(s.list) <==> fate == Waits)
  {
    hide Inv, FateOf, Users;
    InitialInv();
    Around(steps, i);
    var b := steps[i + 1..];
    var t := Run(INITIAL, steps[..i]);
    SentFate(t, steps[i].mid, steps[i].user, b);
    EveryRequestIsAccountedFor(steps, steps[i].user);
    hide *;
  }

  /** A run up to a sending, and from there. */
  lemma Around(steps: seq<Step>, i: nat)
    requires AllowedRun(INITIAL, steps) && i < |steps| && steps[i].Sending?
    ensures AllowedRun(INITIAL, steps[..i])
    ensures var t, rest := Run(INITIAL, steps[..i]), [Sending(steps[i].mid, steps[i].user)] + steps[i + 1..];
            Inv(t) && t.now == TimeAfter(steps[..i], 0) && AllowedRun(t, rest) && Run(INITIAL, steps) == Run(t, rest)
  {
    hide Run, AllowedRun, Inv, TimeAfter;
    InitialInv();
    Lists.SplitAt(steps, i);
    assert steps[i] == Sending(steps[i].mid, steps[i].user) && INITIAL.now == 0;
    RunInTwo(INITIAL, steps[..i], [steps[i]] + steps[i + 1..]);
  }

  lemma SentFate(t: State, mid: nat, user: nat, b: seq<Step>)
    requires Inv(t) && AllowedRun(t, [Sending(mid, user)] + b)
    ensures var s := Run(t, [Sending(mid, user)] + b);
            var fate := FateOf(b, mid, t.now, t.now);
            user in s.sent && match fate case Answered => user in s.answered case TimedOut => user in s.timedOut case Waits => user in Users(s.list)
  {
    assert ([Sending(mid, user)] + b)[1..] == b;
    StepKeepsInv(t, Sending(mid, user));
    var u := Apply(t, Sending(mid, user));
    var k := |t.list|;
    FateIsMet(u, b, k);
    HandlersStay(u, b);
    Kept(u.sent, Run(u, b).sent, user);
    var s := Run(u, b);
    if FateOf(b, mid, t.now, t.now) == Waits {
      var j :| 0 <= j < |s.list| && s.list[j] == u.list[k];
      UserAt(s.list, j);
    }
  }

  /** Nothing else is answered or times out. */
  lemma {:induction false} OnlySentIsHandled(steps: seq<Step>, user: nat)
    requires AllowedRun(INITIAL, steps) && forall i :: 0 <= i < |steps| && steps[i].Sending? ==> steps[i].user != user
    ensures var s := Run(INITIAL, steps); user !in s.answered && user !in s.timedOut && user !in Users(s.list)
  {
    InitialInv();
    NeverSent(INITIAL, steps, user);
    EveryRequestIsAccountedFor(steps, user);
  }

  lemma {:induction false} NeverSent(s: State, steps: seq<Step>, user: nat)
    requires Inv(s) && AllowedRun(s, steps) && user !in s.sent
    requires forall i :: 0 <= i < |steps| && steps[i].Sending? ==> steps[i].user != user
    ensures user !in Run(s, steps).sent
    decreases |steps|
  {
    if steps != [] {
      StepKeepsInv(s, steps[0]);
      assert steps[0].Sending? ==> steps[0].user != user;
      assert user !in Apply(s, steps[0]).sent;
      assert forall i :: 0 <= i < |steps| - 1 ==> steps[1..][i] == steps[i + 1];
      hide Inv, Apply, Allowed;
      NeverSent(Apply(s, steps[0]), steps[1..], user);
    }
  }
}
