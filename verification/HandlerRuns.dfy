/** Sequences of RPCs: which business functions ran, and what the audit files then hold. */
module HandlerRuns {
  import opened Wrappers
  import opened AuditEvent
  import opened AuditChain
  import opened AuditRotation
  import opened AuditLogger
  import opened AuditHistory
  import opened AuditTheorems
  import opened Handler

  /** The requests whose business function runs. */
  function Executed(policy: Option<Policy>, rs: seq<Request>): seq<Request> {
    if rs == [] then []
    else
      var last := rs[|rs| - 1];
      Executed(policy, rs[..|rs| - 1]) + if Allowed(policy, last) then [last] else []
  }

  /** The events of all requests, in call order. */
  ghost function Trail(rules: seq<ExcludeRule>, policy: Option<Policy>, rs: seq<Request>): seq<Event> {
    if rs == [] then []
    else Trail(rules, policy, rs[..|rs| - 1]) + Emitted(rules, policy, rs[|rs| - 1])
  }

  ghost function TrailOps(rules: seq<ExcludeRule>, policy: Option<Policy>, rs: seq<Request>,
                          ats: seq<Surroundings>): seq<Op>
    requires |rs| == |ats|
  {
    if rs == [] then []
    else
      var n := |rs| - 1;
      TrailOps(rules, policy, rs[..n], ats[..n]) + LogOps(Emitted(rules, policy, rs[n]), ats[n])
  }

  /** Requests served one after the other. */
  method Serve(server: Endpoint, rs: seq<Request>, ats: seq<Surroundings>)
    requires server.audit.Valid() && |rs| == |ats|
    modifies server, server.audit, server.audit.dir`logs
    ensures server.audit.Valid()
    ensures server.executed == old(server.executed) + Executed(server.policy, rs)
    ensures server.audit.State() == AuditHistory.Run(server.audit.p, server.audit.cfg, old(server.audit.State()),
      TrailOps(server.audit.cfg.excludes, server.policy, rs, ats))
    decreases |rs|
  {
    if rs != [] {
      ghost var a := server.audit.State();
      Serve(server, rs[..|rs| - 1], ats[..|rs| - 1]);
      ghost var mid := server.audit.State();
      var code := server.Execute(rs[|rs| - 1], ats[|rs| - 1]);
      ServeStep(server.audit.p, server.audit.cfg, a, mid, server.policy, rs, ats);
    }
  }

  lemma ServeStep(p: Primitives, cfg: Config, a: Agent, mid: Agent, policy: Option<Policy>,
                  rs: seq<Request>, ats: seq<Surroundings>)
    requires 0 in a.logs && |rs| == |ats| && rs != []
    requires
      var n := |rs| - 1;
      mid == AuditHistory.Run(p, cfg, a, TrailOps(cfg.excludes, policy, rs[..n], ats[..n]))
    ensures
      var n := |rs| - 1;
      AuditHistory.Run(p, cfg, a, TrailOps(cfg.excludes, policy, rs, ats))
        == AuditHistory.Run(p, cfg, mid, LogOps(Emitted(cfg.excludes, policy, rs[n]), ats[n]))
    ensures Executed(policy, rs) == Executed(policy, rs[..|rs| - 1]) +
      (if Allowed(policy, rs[|rs| - 1]) then [rs[|rs| - 1]] else [])
  {
    var n := |rs| - 1;
    RunAtMostOneMore(p, cfg, a, TrailOps(cfg.excludes, policy, rs[..n], ats[..n]),
                     LogOps(Emitted(cfg.excludes, policy, rs[n]), ats[n]));
  }

  lemma RunAtMostOneMore(p: Primitives, cfg: Config, a: Agent, first: seq<Op>, more: seq<Op>)
    requires 0 in a.logs && |more| <= 1
    ensures AuditHistory.Run(p, cfg, a, first + more)
         == AuditHistory.Run(p, cfg, AuditHistory.Run(p, cfg, a, first), more)
  {
    if more == [] {
      assert first + more == first;
    } else {
      assert (first + more)[..|first|] == first && more[..0] == [];
    }
  }

  /** The logger adds only the stamp, the ID and the hashes. */
  ghost predicate SameReport(sealed: Event, draft: Event) {
    && sealed.kind == draft.kind && sealed.identity == draft.identity && sealed.action == draft.action
    && sealed.resourceType == draft.resourceType && sealed.resourceId == draft.resourceId
    && sealed.outcome == draft.outcome && sealed.peer == draft.peer && sealed.detail == draft.detail
  }

  /** One sealed event per call, in call order, with the time and ID of the call. */
  ghost predicate AllReported(sealed: seq<Event>, ops: seq<Op>) {
    |sealed| == |ops| && forall i :: 0 <= i < |ops| ==> ops[i].LogCall? && Reports(sealed[i], ops[i].call)
  }

  ghost predicate Reports(sealed: Event, c: AuditLogger.Call) {
    SameReport(sealed, c.draft) && sealed.ts == c.stamp && sealed.id == c.id
  }

  lemma AllReportedSnoc(sealed: seq<Event>, ops: seq<Op>, e: Event)
    requires ops != [] && AllReported(sealed, ops[..|ops| - 1])
    requires ops[|ops| - 1].LogCall? && Reports(e, ops[|ops| - 1].call)
    ensures AllReported(sealed + [e], ops)
  {
    var before := ops[..|ops| - 1];
    assert forall i :: 0 <= i < |before| ==> ops[i] == before[i];
  }

  lemma {:induction false} SealedMatchesOps(p: Primitives, cfg: Config, a: Agent, ops: seq<Op>)
    requires 0 in a.logs && Lossless(p, cfg, a, ops) && forall i :: 0 <= i < |ops| ==> ops[i].LogCall?
    ensures AllReported(Kept(p, cfg, a, ops), ops)
  {
    if ops != [] {
      var n := |ops| - 1;
      var before, mid := ops[..n], Run(p, cfg, a, ops[..n]);
      LosslessSnoc(p, cfg, a, ops);
      SealedMatchesOps(p, cfg, a, before);
      SealedKeepsReport(p, mid, ops[n].call);
      AllReportedSnoc(Kept(p, cfg, a, before), ops, SealedEvent(p, mid.key, mid.prevHash, ops[n].call));
    }
  }

  lemma SealedKeepsReport(p: Primitives, a: Agent, c: AuditLogger.Call)
    ensures Reports(SealedEvent(p, a.key, a.prevHash, c), c)
  {}

  lemma {:induction false} TrailOpsCarryTrail(rules: seq<ExcludeRule>, policy: Option<Policy>,
                                              rs: seq<Request>, ats: seq<Surroundings>)
    requires |rs| == |ats|
    ensures var ops, trail := TrailOps(rules, policy, rs, ats), Trail(rules, policy, rs);
      |ops| == |trail| && forall i :: 0 <= i < |ops| ==> ops[i].LogCall? && ops[i].call.draft == trail[i]
  {
    if rs != [] {
      var n := |rs| - 1;
      TrailOpsCarryTrail(rules, policy, rs[..n], ats[..n]);
    }
  }

  /** End to end: after any sequence of RPCs served from an empty audit directory, when nothing is
      lost on the way to the disk, the history is the trail, event by event and in call order,
      as one chain from "genesis"; and the log files hold its last part. */
  lemma TrailOnDisk(p: Primitives, cfg: Config, policy: Option<Policy>, a: Agent, start: int,
                    rs: seq<Request>, ats: seq<Surroundings>) returns (n: nat)
    requires p.Sound() && FreshStart(p, a, start) && |rs| == |ats|
    requires Monotone(start, TrailOps(cfg.excludes, policy, rs, ats))
    requires Lossless(p, cfg, a, TrailOps(cfg.excludes, policy, rs, ats))
    ensures
      var ops, trail := TrailOps(cfg.excludes, policy, rs, ats), Trail(cfg.excludes, policy, rs);
      var hist, logs := Kept(p, cfg, a, ops), Run(p, cfg, a, ops).logs;
      && |hist| == |trail|
      && (forall i :: 0 <= i < |hist| ==> SameReport(hist[i], trail[i]))
      && AllReported(hist, ops)
      && Chain(p, a.key, GENESIS, hist)
      && HasSlots(logs, n) && Readable(p, logs, n) && IsSuffix(ArchiveEvents(p, logs, n), hist)
  {
    var ops := TrailOps(cfg.excludes, policy, rs, ats);
    TrailOpsCarryTrail(cfg.excludes, policy, rs, ats);
    SealedMatchesOps(p, cfg, a, ops);
    n := HistoryOnDisk(p, cfg, a, start, ops);
  }
}
