/** Health aggregation, and the watchdog loop that it drives. */
module Health {
  import opened Wrappers

  datatype Status = Unknown | Healthy | Unhealthy | Degraded

  datatype Probe = Probe(name: string, critical: bool)
  datatype Reading = Reading(status: Status, message: string)
  datatype CheckResult = CheckResult(name: string, status: Status, message: string, critical: bool)
  datatype Result = Result(status: Status, checks: seq<CheckResult>)

  predicate Failing(c: CheckResult) {
    c.critical && c.status == Unhealthy
  }

  /** Unhealthy iff some critical probe is, Healthy iff all probes are, otherwise Degraded. */
  ghost predicate Aggregates(status: Status, checks: seq<CheckResult>) {
    && status != Unknown
    && (status == Unhealthy <==> exists i :: 0 <= i < |checks| && Failing(checks[i]))
    && (status == Healthy <==> forall i :: 0 <= i < |checks| ==> checks[i].status == Healthy)
  }

  class Aggregator {
    var probes: seq<Probe>

    constructor ()
      ensures probes == []
    {
      probes := [];
    }

    method Register(more: seq<Probe>)
      modifies this
      ensures probes == old(probes) + more
    {
      probes := probes + more;
    }

    /** `readings` are what the probes answer, one each. */
    method Check(readings: seq<Reading>) returns (r: Result)
      requires |readings| == |probes|
      ensures |r.checks| == |probes|
      ensures forall i :: 0 <= i < |probes| ==>
        r.checks[i] == CheckResult(probes[i].name, readings[i].status, readings[i].message, probes[i].critical)
      ensures Aggregates(r.status, r.checks)
    {
      var status := Healthy;
      var checks: seq<CheckResult> := [];
      for i := 0 to |probes|
        invariant |checks| == i
        invariant forall k :: 0 <= k < i ==>
          checks[k] == CheckResult(probes[k].name, readings[k].status, readings[k].message, probes[k].critical)
        invariant Aggregates(status, checks)
      {
        var probe, reading := probes[i], readings[i];
        ghost var before := checks;
        checks := checks + [CheckResult(probe.name, reading.status, reading.message, probe.critical)];
        assert checks[i] == CheckResult(probe.name, reading.status, reading.message, probe.critical);
        assert forall k :: 0 <= k < i ==> checks[k] == before[k];
        if reading.status == Unhealthy && probe.critical {
          status := Unhealthy;
          assert Failing(checks[i]);
        } else if reading.status != Healthy && status == Healthy {
          status := Degraded;
        }
      }
      return Result(status, checks);
    }
  }

  /** Aggregated statuses are never Unknown, so neither are those the loop sees. */
  lemma {:induction false} SeenKnown(ticks: seq<Option<Status>>)
    requires forall i :: 0 <= i < |ticks| && ticks[i].Some? ==> exists checks :: Aggregates(ticks[i].value, checks)
    ensures Unknown !in Seen(ticks)
  {
    if ticks != [] { SeenKnown(ticks[..|ticks| - 1]); }
  }

  /** The status does not depend on the order of the probes. */
  lemma OrderDoesNotMatter(a: seq<CheckResult>, sa: Status, b: seq<CheckResult>, sb: Status)
    requires Aggregates(sa, a) && Aggregates(sb, b) && multiset(a) == multiset(b)
    ensures sa == sb
  {
    forall c: CheckResult
      ensures c in a <==> c in b
    {
      assert c in multiset(a) <==> c in multiset(b);
    }
    SameByMembers(a, sa);
    SameByMembers(b, sb);
  }

  lemma SameByMembers(checks: seq<CheckResult>, status: Status)
    requires Aggregates(status, checks)
    ensures status == Unhealthy <==> exists c :: c in checks && Failing(c)
    ensures status == Healthy <==> forall c :: c in checks ==> c.status == Healthy
  {
    assert forall i :: 0 <= i < |checks| ==> checks[i] in checks;
  }

  // ---- The watchdog ----

  /** A lifecycle.health_change event. */
  datatype Change = Change(source: Status, target: Status)

  /** The statuses of the checks that succeeded. */
  function Seen(ticks: seq<Option<Status>>): seq<Status> {
    if ticks == [] then []
    else Seen(ticks[..|ticks| - 1]) + match ticks[|ticks| - 1] case None => [] case Some(s) => [s]
  }

  /** The changes between consecutive different statuses; nothing is reported after Unknown. */
  function Changes(seen: seq<Status>): seq<Change> {
    if |seen| < 2 then []
    else
      var n := |seen| - 1;
      Changes(seen[..n]) +
      if seen[n] != seen[n - 1] && seen[n - 1] != Unknown then [Change(seen[n - 1], seen[n])] else []
  }

  /** A ping is attempted for a check that succeeded and is not unhealthy. */
  predicate Pinged(tick: Option<Status>) {
    tick.Some? && tick.value != Unhealthy
  }

  predicate Increasing(s: seq<nat>) {
    forall i, j :: 0 <= i < j < |s| ==> s[i] < s[j]
  }

  /** The positions of those checks. */
  function PingsOf(ticks: seq<Option<Status>>): seq<nat> {
    if ticks == [] then []
    else
      var n := |ticks| - 1;
      PingsOf(ticks[..n]) + if Pinged(ticks[n]) then [n] else []
  }

  lemma {:induction false} PingsMeaning(ticks: seq<Option<Status>>)
    ensures forall i: nat :: i in PingsOf(ticks) <==> i < |ticks| && ticks[i].Some? && ticks[i].value != Unhealthy
    ensures Increasing(PingsOf(ticks))
  {
    if ticks != [] {
      var n := |ticks| - 1;
      var before := PingsOf(ticks[..n]);
      PingsMeaning(ticks[..n]);
      assert forall k :: 0 <= k < |before| ==> before[k] in before;
    }
  }

  function LastSeen(seen: seq<Status>): Status {
    if seen == [] then Unknown else seen[|seen| - 1]
  }

  /** The loop over a finite number of ticks; None is a failed check. */
  method WatchdogLoop(ticks: seq<Option<Status>>) returns (events: seq<Change>, pings: seq<nat>)
    ensures events == Changes(Seen(ticks))
    ensures pings == PingsOf(ticks)
  {
    events, pings := [], [];
    var prevStatus := Unknown;
    for n := 0 to |ticks|
      invariant prevStatus == LastSeen(Seen(ticks[..n]))
      invariant events == Changes(Seen(ticks[..n]))
      invariant pings == PingsOf(ticks[..n])
    {
      TickStep(ticks, n);
      if ticks[n].None? { continue; }
      var status := ticks[n].value;
      SeenStep(Seen(ticks[..n]), status);
      if status != prevStatus && prevStatus != Unknown {
        events := events + [Change(prevStatus, status)];
      }
      prevStatus := status;
      if status != Unhealthy {
        pings := pings + [n];
      }
    }
    assert ticks[..|ticks|] == ticks;
  }

  lemma TickStep(ticks: seq<Option<Status>>, n: nat)
    requires n < |ticks|
    ensures Seen(ticks[..n + 1]) == if ticks[n].None? then Seen(ticks[..n]) else Seen(ticks[..n]) + [ticks[n].value]
    ensures PingsOf(ticks[..n + 1]) == PingsOf(ticks[..n]) + if Pinged(ticks[n]) then [n] else []
  {
    assert ticks[..n + 1][..n] == ticks[..n];
  }

  lemma SeenStep(seen: seq<Status>, status: Status)
    ensures LastSeen(seen + [status]) == status
    ensures Changes(seen + [status]) == Changes(seen) +
      if LastSeen(seen) != Unknown && status != LastSeen(seen) then [Change(LastSeen(seen), status)] else []
  {
    assert (seen + [status])[..|seen|] == seen;
  }

  /** The changes are a path from the first to the latest status: each starts where the one
      before ended, and none stands still. */
  lemma {:induction false} ChangesArePath(seen: seq<Status>)
    requires seen != [] && Unknown !in seen
    ensures forall i :: 0 <= i < |Changes(seen)| ==> Changes(seen)[i].source != Changes(seen)[i].target
    ensures forall i, j :: 0 <= i < j < |Changes(seen)| && j == i + 1 ==>
      Changes(seen)[i].target == Changes(seen)[j].source
    ensures Changes(seen) == [] ==> seen[0] == seen[|seen| - 1]
    ensures Changes(seen) != [] ==>
      Changes(seen)[0].source == seen[0] && Changes(seen)[|Changes(seen)| - 1].target == seen[|seen| - 1]
  {
    if |seen| > 1 {
      var n := |seen| - 1;
      assert seen[n - 1] in seen;
      ChangesArePath(seen[..n]);
    }
  }

  /** A change is reported at this position: the status differs from the one before. */
  predicate ChangeAt(seen: seq<Status>, i: nat) {
    0 < i < |seen| && seen[i] != seen[i - 1]
  }

  /** `at` are the positions of all changes, in order, and `events` what is reported there. */
  ghost predicate Marks(seen: seq<Status>, at: seq<nat>, events: seq<Change>) {
    && |at| == |events| && Increasing(at)
    && (forall i: nat :: i in at <==> ChangeAt(seen, i))
    && forall k :: 0 <= k < |at| ==>
      0 < at[k] < |seen| && events[k] == Change(seen[at[k] - 1], seen[at[k]])
  }

  lemma MarksSnoc(seen: seq<Status>, at: seq<nat>, events: seq<Change>, s: Status)
    requires seen != [] && Marks(seen, at, events)
    ensures
      var n := |seen|;
      if s == seen[n - 1] then Marks(seen + [s], at, events)
      else Marks(seen + [s], at + [n], events + [Change(seen[n - 1], s)])
  {
    var n, all := |seen|, seen + [s];
    forall i: nat
      ensures ChangeAt(all, i) <==> ChangeAt(seen, i) || (i == n && s != seen[n - 1])
    {}
    assert forall k :: 0 <= k < |at| ==> at[k] in at && at[k] < n;
  }

  lemma ChangesSnoc(seen: seq<Status>, s: Status)
    requires seen != [] && Unknown !in seen
    ensures Changes(seen + [s]) ==
      if s == seen[|seen| - 1] then Changes(seen) else Changes(seen) + [Change(seen[|seen| - 1], s)]
  {
    assert (seen + [s])[..|seen|] == seen;
    assert seen[|seen| - 1] in seen;
  }

  lemma NoMarks(seen: seq<Status>)
    requires |seen| < 2
    ensures Marks(seen, [], [])
  {}

  /** The events are exactly the changes, one each and in order. */
  lemma {:induction false} ChangesAreAllChanges(seen: seq<Status>) returns (at: seq<nat>)
    requires Unknown !in seen
    ensures Marks(seen, at, Changes(seen))
  {
    if |seen| < 2 {
      at := [];
      NoMarks(seen);
    } else {
      var before, s := seen[..|seen| - 1], seen[|seen| - 1];
      at := ChangesAreAllChanges(before);
      at := MarkLast(before, s, at);
      assert seen == before + [s];
    }
  }

  lemma MarkLast(seen: seq<Status>, s: Status, at: seq<nat>) returns (more: seq<nat>)
    requires seen != [] && Unknown !in seen && Marks(seen, at, Changes(seen))
    ensures Marks(seen + [s], more, Changes(seen + [s]))
  {
    MarksSnoc(seen, at, Changes(seen), s);
    ChangesSnoc(seen, s);
    more := if s == seen[|seen| - 1] then at else at + [|seen|];
  }

  // ---- From the plugins to the events ----

  /** The probes of all plugins, in registration order. */
  function AllProbes(plugins: seq<seq<Probe>>): seq<Probe> {
    if plugins == [] then [] else AllProbes(plugins[..|plugins| - 1]) + plugins[|plugins| - 1]
  }

  /** The results of one round. */
  function ChecksOf(probes: seq<Probe>, readings: seq<Reading>): (checks: seq<CheckResult>)
    requires |readings| == |probes|
    ensures |checks| == |probes|
    ensures forall i :: 0 <= i < |probes| ==>
      checks[i] == CheckResult(probes[i].name, readings[i].status, readings[i].message, probes[i].critical)
  {
    seq(|probes|, i requires 0 <= i < |probes| =>
      CheckResult(probes[i].name, readings[i].status, readings[i].message, probes[i].critical))
  }

  predicate CriticalFailure(probes: seq<Probe>, readings: seq<Reading>)
    requires |readings| == |probes|
  {
    exists k :: 0 <= k < |probes| && probes[k].critical && readings[k].status == Unhealthy
  }

  /** `statuses` are the aggregated statuses of the rounds. */
  ghost predicate StatusesOf(probes: seq<Probe>, rounds: seq<seq<Reading>>, statuses: seq<Status>)
    requires forall n :: 0 <= n < |rounds| ==> |rounds[n]| == |probes|
  {
    && |statuses| == |rounds|
    && forall n :: 0 <= n < |rounds| ==> Aggregates(statuses[n], ChecksOf(probes, rounds[n]))
  }

  lemma UnhealthyMeansCritical(probes: seq<Probe>, readings: seq<Reading>, status: Status)
    requires |readings| == |probes| && Aggregates(status, ChecksOf(probes, readings))
    ensures status == Unhealthy <==> CriticalFailure(probes, readings)
  {
    var checks := ChecksOf(probes, readings);
    assert forall k :: 0 <= k < |probes| ==>
      (Failing(checks[k]) <==> probes[k].critical && readings[k].status == Unhealthy);
  }

  lemma {:induction false} AllSeen(ticks: seq<Option<Status>>, statuses: seq<Status>)
    requires |ticks| == |statuses| && forall n :: 0 <= n < |ticks| ==> ticks[n] == Some(statuses[n])
    ensures Seen(ticks) == statuses
  {
    if ticks != [] {
      var n := |ticks| - 1;
      AllSeen(ticks[..n], statuses[..n]);
      assert statuses == statuses[..n] + [statuses[n]];
    }
  }

  lemma MonitorReport(plugins: seq<seq<Probe>>, rounds: seq<seq<Reading>>, statuses: seq<Status>,
                      ticks: seq<Option<Status>>) returns (at: seq<nat>)
    requires forall n :: 0 <= n < |rounds| ==> |rounds[n]| == |AllProbes(plugins)|
    requires StatusesOf(AllProbes(plugins), rounds, statuses) && |ticks| == |statuses|
    requires forall n :: 0 <= n < |ticks| ==> ticks[n] == Some(statuses[n])
    ensures Seen(ticks) == statuses && Unknown !in statuses && Marks(statuses, at, Changes(statuses))
    ensures Increasing(PingsOf(ticks))
    ensures forall n: nat :: n in PingsOf(ticks) <==> n < |rounds| && !CriticalFailure(AllProbes(plugins), rounds[n])
  {
    AllSeen(ticks, statuses);
    SeenKnown(ticks);
    PingsMeaning(ticks);
    at := ChangesAreAllChanges(statuses);
    forall n: nat | n < |rounds|
      ensures ticks[n].value != Unhealthy <==> !CriticalFailure(AllProbes(plugins), rounds[n])
    {
      UnhealthyMeansCritical(AllProbes(plugins), rounds[n], statuses[n]);
    }
  }

  /** Every plugin registers its probes, then each tick checks them all. */
  method CheckRounds(plugins: seq<seq<Probe>>, rounds: seq<seq<Reading>>)
    returns (statuses: seq<Status>, ticks: seq<Option<Status>>)
    requires forall n :: 0 <= n < |rounds| ==> |rounds[n]| == |AllProbes(plugins)|
    ensures StatusesOf(AllProbes(plugins), rounds, statuses)
    ensures |ticks| == |statuses| && forall n :: 0 <= n < |ticks| ==> ticks[n] == Some(statuses[n])
  {
    var aggregator := new Aggregator();
    for i := 0 to |plugins|
      invariant aggregator.probes == AllProbes(plugins[..i])
      invariant fresh(aggregator)
    {
      assert plugins[..i + 1][..i] == plugins[..i];
      aggregator.Register(plugins[i]);
    }
    assert plugins[..|plugins|] == plugins;
    ghost var probes := AllProbes(plugins);
    statuses := [];
    ticks := [];
    for n := 0 to |rounds|
      invariant aggregator.probes == probes
      invariant |ticks| == |statuses| == n
      invariant forall k :: 0 <= k < n ==> ticks[k] == Some(statuses[k])
      invariant forall k :: 0 <= k < n ==> Aggregates(statuses[k], ChecksOf(probes, rounds[k]))
    {
      var result := aggregator.Check(rounds[n]);
      assert result.checks == ChecksOf(probes, rounds[n]);
      statuses := statuses + [result.status];
      ticks := ticks + [Some(result.status)];
    }
  }

  /** The agent's monitoring, from registration to the events and pings. There is one event for each
      round whose aggregated status differs from the one before; they are a path from the first to
      the last status, without a standstill; and a ping is sent exactly in the rounds in which no
      critical probe is unhealthy. */
  method Monitor(plugins: seq<seq<Probe>>, rounds: seq<seq<Reading>>)
    returns (events: seq<Change>, pings: seq<nat>, statuses: seq<Status>, ghost at: seq<nat>)
    requires forall n :: 0 <= n < |rounds| ==> |rounds[n]| == |AllProbes(plugins)|
    ensures StatusesOf(AllProbes(plugins), rounds, statuses)
    ensures Marks(statuses, at, events)
    ensures forall i :: 0 <= i < |events| ==> events[i].source != events[i].target
    ensures forall i, j :: 0 <= i < j < |events| && j == i + 1 ==> events[i].target == events[j].source
    ensures events == [] && statuses != [] ==> statuses[0] == statuses[|statuses| - 1]
    ensures events != [] ==>
      && statuses != []
      && events[0].source == statuses[0] && events[|events| - 1].target == statuses[|statuses| - 1]
    ensures Increasing(pings)
    ensures forall n: nat :: n in pings <==> n < |rounds| && !CriticalFailure(AllProbes(plugins), rounds[n])
  {
    var ticks;
    statuses, ticks := CheckRounds(plugins, rounds);
    events, pings := WatchdogLoop(ticks);
    at := MonitorReport(plugins, rounds, statuses, ticks);
    if statuses != [] {
      ChangesArePath(statuses);
    }
  }
}
