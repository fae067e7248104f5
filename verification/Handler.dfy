/** The authorization and audit chain around every RPC, on top of the audit logger. */
module Handler {
  import opened Wrappers
  import opened AuditEvent
  import opened AuditLogger
  import opened AuditHistory

  datatype Resource = Resource(kind: string, id: string)

  const THIS_NODE := Resource("Node", "*")

  predicate ValidResource(r: Resource) {
    r.id != "" && r.kind in ["Node", "Service", "Image", "Config", "Path"]
  }

  datatype Verdict = Allow | Deny | AuthzError

  /** What the authenticator put into the request's context. */
  datatype Identity = Identity(name: string, groups: seq<string>, meta: map<string, string>)

  /** What else the answer of the policy engine may depend on: the peer, and a moment that stands
      for the clock, the policies loaded at that time and the rest of the context. */
  datatype Context = Context(peer: string, moment: int)

  /** The policy engine: any function of the context, the whole identity, the action and the
      resource. Through the moment it may answer the same question differently later. */
  type Policy = (Context, Identity, string, Resource) -> Verdict

  /** An RPC as the wrapper sees it: who calls, on what, and whether the business function, if
      it is run, returns an error. */
  datatype Request = Request(
    identity: Option<Identity>,
    action: string,
    resource: Resource,
    context: Context,
    fails: bool)

  /** Allowed means: an identity, a valid resource, and an Allow for exactly this call. */
  predicate Allowed(policy: Option<Policy>, r: Request) {
    && r.identity.Some? && ValidResource(r.resource)
    && policy.Some? && policy.value(r.context, r.identity.value, r.action, r.resource) == Allow
  }

  datatype Code = Unauthenticated | InvalidArgument | PermissionDenied | Internal | Returned(failed: bool)

  function Answer(policy: Option<Policy>, r: Request): Code {
    if r.identity.None? then Unauthenticated
    else if !ValidResource(r.resource) then InvalidArgument
    else if policy.None? then PermissionDenied
    else match policy.value(r.context, r.identity.value, r.action, r.resource)
      case AuthzError => Internal
      case Deny => PermissionDenied
      case Allow => Returned(r.fails)
  }

  /** The outcome that the trail records for an answer; a malformed resource leaves no trace. */
  function Recorded(code: Code): Option<string> {
    match code
    case Unauthenticated => Some("unauthenticated")
    case InvalidArgument => None
    case PermissionDenied => Some("denied")
    case Internal => Some("error")
    case Returned(failed) => Some(if failed then "error" else "success")
  }

  /** The event that emitAudit hands to the logger. */
  function Reported(identity: string, action: string, resource: Resource, outcome: string, peer: string): Event {
    Event("", "", "rpc." + action, identity, action, resource.kind, resource.id, outcome, peer, map[], "", "")
  }

  /** The audit event of a request. Of the identity it holds only the name. */
  function Draft(r: Request, outcome: string): Event {
    if r.identity.None? then Reported("", r.action, THIS_NODE, outcome, r.context.peer)
    else Reported(r.identity.value.name, r.action, r.resource, outcome, r.context.peer)
  }

  /** The events a request adds to the trail. */
  ghost function Emitted(rules: seq<ExcludeRule>, policy: Option<Policy>, r: Request): seq<Event> {
    var outcome := Recorded(Answer(policy, r));
    if outcome.None? then []
    else
      var e := Draft(r, outcome.value);
      if Suppressed(rules, e.identity, e.action, e.resourceId, e.outcome) then [] else [e]
  }

  /** One event for every outcome that is not a success, whatever the rules; one for a success
      exactly when no rule matches it; none for a malformed resource. */
  lemma EmittedExactlyWhen(rules: seq<ExcludeRule>, policy: Option<Policy>, r: Request)
    ensures Answer(policy, r) == Returned(false) <==> Allowed(policy, r) && !r.fails
    ensures Answer(policy, r) == InvalidArgument <==> r.identity.Some? && !ValidResource(r.resource)
    ensures Emitted(rules, policy, r) == [] <==>
      || Answer(policy, r) == InvalidArgument
      || (Answer(policy, r) == Returned(false) && r.identity.value.name != ""
          && exists i :: 0 <= i < |rules| && RuleMatches(rules[i], r.identity.value.name, r.action, r.resource.id))
  {
    var outcome := Recorded(Answer(policy, r));
    if outcome.Some? {
      assert outcome.value == "success" <==> Answer(policy, r) == Returned(false);
    }
  }

  /** Each answer, and each recorded outcome, in terms of the request and the policy's verdict. */
  lemma AnswersExactlyWhen(rules: seq<ExcludeRule>, policy: Option<Policy>, r: Request)
    ensures
      var answer, named, valid := Answer(policy, r), r.identity.Some?, ValidResource(r.resource);
      var asked := named && valid && policy.Some?;
      var verdict := if asked then policy.value(r.context, r.identity.value, r.action, r.resource) else Deny;
      && (answer == Unauthenticated <==> !named)
      && (answer == InvalidArgument <==> named && !valid)
      && (answer == PermissionDenied <==> named && valid && verdict == Deny)
      && (answer == Internal <==> asked && verdict == AuthzError)
      && (answer == Returned(r.fails) <==> asked && verdict == Allow)
      && forall e :: e in Emitted(rules, policy, r) ==>
        && (e.outcome == "unauthenticated" <==> !named)
        && (e.outcome == "denied" <==> named && valid && verdict == Deny)
        && (e.outcome == "error" <==> asked && (verdict == AuthzError || (verdict == Allow && r.fails)))
        && (e.outcome == "success" <==> asked && verdict == Allow && !r.fails)
  {
    OutcomesDiffer();
  }

  lemma OutcomesDiffer()
    ensures "unauthenticated" != "denied" && "unauthenticated" != "error" && "unauthenticated" != "success"
    ensures "denied" != "error" && "denied" != "success" && "error" != "success"
  {
    assert |"unauthenticated"| == 15 && |"denied"| == 6 && |"error"| == 5 && |"success"| == 7;
  }

  /** And the other fields of the entry. */
  lemma EntryFields(rules: seq<ExcludeRule>, policy: Option<Policy>, r: Request)
    ensures |Emitted(rules, policy, r)| <= 1
    ensures forall e :: e in Emitted(rules, policy, r) ==>
      && e.kind == "rpc." + r.action && e.action == r.action && e.peer == r.context.peer
      && (if r.identity.Some? then
            e.identity == r.identity.value.name && e.resourceType == r.resource.kind && e.resourceId == r.resource.id
          else e.identity == "" && e.resourceType == "Node" && e.resourceId == "*")
  {}

  /** The five kinds of resource, each with a non-empty ID. */
  lemma ValidResourceExactlyWhen(r: Resource)
    ensures ValidResource(r) <==>
      && |r.id| > 0
      && (r.kind == "Node" || r.kind == "Service" || r.kind == "Image" || r.kind == "Config" || r.kind == "Path")
  {}

  /** The clock, random ID and write result that the logger meets. */
  datatype Surroundings = Surroundings(now: int, stamp: Stamp, id: string, cutoff: int, writeOk: bool)

  function LogOf(e: Event, at: Surroundings): AuditLogger.Call {
    AuditLogger.Call(e, at.now, at.stamp, at.id, at.cutoff, at.writeOk)
  }

  function LogOps(events: seq<Event>, at: Surroundings): (ops: seq<Op>)
    ensures |ops| == |events|
  {
    seq(|events|, i requires 0 <= i < |events| => LogCall(LogOf(events[i], at)))
  }

  class Endpoint {
    const policy: Option<Policy>
    const audit: FileLogger
    /** The requests for which the business function was run, in order. */
    var executed: seq<Request>

    constructor (policy: Option<Policy>, audit: FileLogger)
      ensures this.policy == policy && this.audit == audit && executed == []
    {
      this.policy, this.audit, this.executed := policy, audit, [];
    }

    method EmitAudit(identity: string, action: string, resource: Resource, outcome: string, peer: string,
                     at: Surroundings)
      requires audit.Valid()
      modifies audit, audit.dir`logs
      ensures audit.Valid()
      ensures audit.State() ==
        if Suppressed(audit.cfg.excludes, identity, action, resource.id, outcome) then old(audit.State())
        else AfterLog(audit.p, audit.cfg, old(audit.State()),
                      LogOf(Reported(identity, action, resource, outcome, peer), at))
    {
      var wanted := audit.ShouldLog(identity, action, resource.id, outcome);
      if wanted {
        audit.Log(LogOf(Reported(identity, action, resource, outcome, peer), at));
      }
    }

    /** Execute of Unary and of ServerStream: the two take the same branches. */
    method Execute(r: Request, at: Surroundings) returns (code: Code)
      requires audit.Valid()
      modifies this, audit, audit.dir`logs
      ensures audit.Valid()
      ensures code == Answer(policy, r)
      ensures executed == old(executed) + if Allowed(policy, r) then [r] else []
      ensures audit.State() == AuditHistory.Run(audit.p, audit.cfg, old(audit.State()),
                                 LogOps(Emitted(audit.cfg.excludes, policy, r), at))
    {
      RunOfAtMostOne(audit.p, audit.cfg, audit.State(), Emitted(audit.cfg.excludes, policy, r), at);
      var peer := r.context.peer;
      if r.identity.None? {
        EmitAudit("", r.action, THIS_NODE, "unauthenticated", peer, at);
        return Unauthenticated;
      }
      var identity := r.identity.value;
      if !ValidResource(r.resource) { return InvalidArgument; }
      if policy.None? {
        EmitAudit(identity.name, r.action, r.resource, "denied", peer, at);
        return PermissionDenied;
      }
      var decision := policy.value(r.context, identity, r.action, r.resource);
      if decision == AuthzError {
        EmitAudit(identity.name, r.action, r.resource, "error", peer, at);
        return Internal;
      }
      if decision != Allow {
        EmitAudit(identity.name, r.action, r.resource, "denied", peer, at);
        return PermissionDenied;
      }
      executed := executed + [r];
      var outcome := if r.fails then "error" else "success";
      EmitAudit(identity.name, r.action, r.resource, outcome, peer, at);
      return Returned(r.fails);
    }
  }

  lemma RunOfAtMostOne(p: Primitives, cfg: Config, a: Agent, events: seq<Event>, at: Surroundings)
    requires 0 in a.logs && |events| <= 1
    ensures AuditHistory.Run(p, cfg, a, LogOps(events, at)) ==
      if events == [] then a else AfterLog(p, cfg, a, LogOf(events[0], at))
  {
    var ops := LogOps(events, at);
    if events != [] {
      assert ops[..0] == [] && ops[0] == LogCall(LogOf(events[0], at));
    }
  }
}
