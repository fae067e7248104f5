/** Concurrent callers of the JWKS cache. Each critical section of getKey and refresh is one
    step; between two steps of a call any steps of other calls can happen. */
module JwksConcurrent {
  import opened Wrappers
  import opened Jwks

  /** Where a call is. `began`, `seen` and `ended` are positions in the history: the call's first
      step, an instant at which the map held `found` or `answer` for its key ID, and its last step. */
  datatype Caller =
    | Begun(kid: string, began: nat)
    | LookedUp(kid: string, began: nat, found: Option<PublicKey>, seen: nat)
    | Fetching(kid: string, began: nat, found: Option<PublicKey>, seen: nat)
    | Fetched(kid: string, began: nat, keys: KeyMap, now: int)
    | Published(kid: string, began: nat)
    | Answered(kid: string, began: nat, answer: Option<PublicKey>, seen: nat, ended: nat)

  /** What the cache was at an instant, and what the clock showed. */
  datatype Instant = Instant(cache: Cache, clock: int)

  datatype World = World(
    cache: Cache,
    clock: int,
    callers: map<nat, Caller>,
    history: seq<Instant>)

  const START := World(NEW_CACHE, 0, map[], [Instant(NEW_CACHE, 0)])

  datatype Step =
    | Tick(elapsed: nat)
    | Arrive(id: nat, kid: string)
    | LookUp(id: nat)            // lookup and staleness, one read lock
    | CheckCooldown(id: nat)     // the second read lock
    | Receive(id: nat, fetch: Fetch)
    | Publish(id: nat)           // the write lock in refresh
    | LookAgain(id: nat)         // the last read lock

  function Now(w: World): nat
    requires w.history != []
  {
    |w.history| - 1
  }

  function With(w: World, id: nat, c: Caller): World {
    w.(callers := w.callers[id := c])
  }

  function AtState(w: World, id: nat): Option<Caller> {
    if id in w.callers then Some(w.callers[id]) else None
  }

  /** The effect of a step on the shared state and its caller; a step out of turn does nothing. */
  function Act(w: World, step: Step): World
    requires w.history != []
  {
    match step
    case Tick(elapsed) => w.(clock := w.clock + elapsed)
    case Arrive(id, kid) => if id in w.callers then w else With(w, id, Begun(kid, Now(w)))
    case LookUp(id) => (
      match AtState(w, id)
      case Some(Begun(kid, began)) =>
        var found := Find(w.cache.keys, kid);
        With(w, id, if found.Some? && !Stale(w.cache, w.clock) then Answered(kid, began, found, Now(w), Now(w))
                    else LookedUp(kid, began, found, Now(w)))
      case _ => w)
    case CheckCooldown(id) => (
      match AtState(w, id)
      case Some(LookedUp(kid, began, found, seen)) =>
        With(w, id, if CoolingDown(w.cache, w.clock) then Answered(kid, began, found, seen, Now(w))
                    else Fetching(kid, began, found, seen))
      case _ => w)
    case Receive(id, fetch) => (
      match AtState(w, id)
      case Some(Fetching(kid, began, found, seen)) =>
        With(w, id, if fetch.FetchFailed? then Answered(kid, began, found, seen, Now(w))
                    else Fetched(kid, began, UsableKeys(fetch.jwks), w.clock))
      case _ => w)
    case Publish(id) => (
      match AtState(w, id)
      case Some(Fetched(kid, began, keys, now)) =>
        With(w, id, Published(kid, began)).(cache := Cache(keys, now, now))
      case _ => w)
    case LookAgain(id) => (
      match AtState(w, id)
      case Some(Published(kid, began)) =>
        With(w, id, Answered(kid, began, Find(w.cache.keys, kid), Now(w), Now(w)))
      case _ => w)
  }

  /** Every step is one instant: what it leaves is the next entry of the history. */
  function Next(w: World, step: Step): (r: World)
    requires w.history != []
    ensures r.history != []
  {
    var acted := Act(w, step);
    acted.(history := w.history + [Instant(acted.cache, acted.clock)])
  }

  function Run(w: World, steps: seq<Step>): (r: World)
    requires w.history != []
    ensures r.history != []
  {
    if steps == [] then w else Next(Run(w, steps[..|steps| - 1]), steps[|steps| - 1])
  }

  /** The map held `answer` for `kid` at the instant `at`. */
  ghost predicate HeldAt(history: seq<Instant>, kid: string, answer: Option<PublicKey>, at: nat) {
    at < |history| && Find(history[at].cache.keys, kid) == answer
  }

  ghost predicate StaleAt(history: seq<Instant>, at: nat)
    requires at < |history|
  {
    Stale(history[at].cache, history[at].clock)
  }

  /** A first lookup that was carried on found either nothing or a stale cache. */
  ghost predicate JustifiedLookup(history: seq<Instant>, kid: string, began: nat, found: Option<PublicKey>, seen: nat) {
    began <= seen && HeldAt(history, kid, found, seen) && (found.Some? ==> StaleAt(history, seen))
  }

  ghost predicate Justified(history: seq<Instant>, c: Caller) {
    match c
    case LookedUp(kid, began, found, seen) => JustifiedLookup(history, kid, began, found, seen)
    case Fetching(kid, began, found, seen) => JustifiedLookup(history, kid, began, found, seen)
    case Answered(kid, began, answer, seen, ended) =>
      began <= seen <= ended < |history| && HeldAt(history, kid, answer, seen)
    case _ => c.began < |history|
  }

  ghost predicate Consistent(w: World) {
    && w.history != []
    && w.history[|w.history| - 1] == Instant(w.cache, w.clock)
    && (forall i :: 0 <= i < |w.history| ==> w.history[i].clock <= w.clock)
    && w.cache.lastFetch == w.cache.lastRefresh
    && forall id :: id in w.callers ==> Justified(w.history, w.callers[id])
  }

  lemma JustifiedLater(history: seq<Instant>, c: Caller, now: Instant)
    requires Justified(history, c)
    ensures Justified(history + [now], c)
  {}

  lemma ActJustifies(w: World, step: Step, id: nat)
    requires Consistent(w) && id in Act(w, step).callers
    ensures Justified(w.history, Act(w, step).callers[id])
  {}

  lemma NextConsistent(w: World, step: Step)
    requires Consistent(w)
    ensures Consistent(Next(w, step))
  {
    var acted := Act(w, step);
    forall id | id in acted.callers
      ensures Justified(w.history + [Instant(acted.cache, acted.clock)], acted.callers[id])
    {
      ActJustifies(w, step, id);
      JustifiedLater(w.history, acted.callers[id], Instant(acted.cache, acted.clock));
    }
  }

  lemma {:induction false} RunConsistent(steps: seq<Step>)
    ensures Consistent(Run(START, steps))
  {
    if steps != [] {
      RunConsistent(steps[..|steps| - 1]);
      NextConsistent(Run(START, steps[..|steps| - 1]), steps[|steps| - 1]);
    }
  }

  /** Under every interleaving each answer, an error included, is what the map held for that key
      ID at some instant between the call's first and last step. */
  lemma EveryAnswerWasHeld(steps: seq<Step>, id: nat)
    requires id in Run(START, steps).callers && Run(START, steps).callers[id].Answered?
    ensures
      var w := Run(START, steps);
      var c := w.callers[id];
      exists at: nat :: c.began <= at <= c.ended && HeldAt(w.history, c.kid, c.answer, at)
  {
    RunConsistent(steps);
    var w := Run(START, steps);
    assert Justified(w.history, w.callers[id]);
  }

  lemma {:induction false} RunConcat(w: World, first: seq<Step>, then': seq<Step>)
    requires w.history != []
    ensures Run(w, first + then') == Run(Run(w, first), then')
    decreases |then'|
  {
    if then' == [] {
      assert first + then' == first;
    } else {
      var n := |then'| - 1;
      assert (first + then')[..|first| + n] == first + then'[..n];
      RunConcat(w, first, then'[..n]);
    }
  }

  lemma RunOne(w: World, s: Step)
    requires w.history != []
    ensures Run(w, [s]) == Next(w, s)
  {
    assert [s][..0] == [];
  }

  lemma RunTwo(w: World, a: Step, b: Step)
    requires w.history != []
    ensures Run(w, [a, b]) == Next(Next(w, a), b)
  {
    assert [a, b] == [a] + [b];
    RunConcat(w, [a], [b]);
    RunOne(w, a);
    RunOne(Next(w, a), b);
  }

  // ---- Stale answers ----

  /** The answer is a key whose document was, when it was given, older than the TTL. */
  ghost predicate StaleAnswer(history: seq<Instant>, c: Caller)
    requires Justified(history, c)
  {
    c.Answered? && c.answer.Some? && history[c.ended].clock - history[c.seen].cache.lastFetch > TTL
  }

  ghost predicate GivesStaleAnswer(w: World, step: Step, id: nat)
    requires Consistent(w)
  {
    NextConsistent(w, step);
    id in Next(w, step).callers && StaleAnswer(Next(w, step).history, Next(w, step).callers[id])
  }

  /** When a step of a call that is not over gives a stale answer: never at the first lookup,
      always with a key at the cooldown check and after a failed fetch, and at the last lookup when
      the map it then meets is older than the TTL. */
  ghost predicate AnswersStale(w: World, step: Step, c: Caller) {
    match c
    case LookedUp(_, _, found, _) => step.CheckCooldown? && found.Some? && CoolingDown(w.cache, w.clock)
    case Fetching(_, _, found, _) => step.Receive? && step.fetch.FetchFailed? && found.Some?
    case Published(kid, _) => step.LookAgain? && Find(w.cache.keys, kid).Some? && Stale(w.cache, w.clock)
    case _ => false
  }

  function StepOf(step: Step): Option<nat> {
    if step.Tick? then None else Some(step.id)
  }

  lemma EveryStaleAnswer(steps: seq<Step>, step: Step, id: nat)
    requires id in Run(START, steps).callers && !Run(START, steps).callers[id].Answered?
    ensures Consistent(Run(START, steps))
    ensures
      var w := Run(START, steps);
      GivesStaleAnswer(w, step, id) <==> StepOf(step) == Some(id) && AnswersStale(w, step, w.callers[id])
  {
    RunConsistent(steps);
    var w := Run(START, steps);
    NextConsistent(w, step);
    assert Justified(w.history, w.callers[id]);
    assert Next(w, step).history[|w.history| - 1] == Instant(w.cache, w.clock);
  }

  /** The step is a publish that changes the cache. */
  predicate Publishes(w: World, step: Step) {
    step.Publish? && AtState(w, step.id).Some? && AtState(w, step.id).value.Fetched?
  }

  /** The time that the last publish of a run wrote, if there was one. */
  function LastPublish(w: World, steps: seq<Step>): Option<int>
    requires w.history != []
  {
    if steps == [] then None
    else
      var n := |steps| - 1;
      var mid := Run(w, steps[..n]);
      if Publishes(mid, steps[n]) then Some(AtState(mid, steps[n].id).value.now) else LastPublish(w, steps[..n])
  }

  lemma {:induction false} CacheOfLastPublish(w: World, steps: seq<Step>)
    requires w.history != []
    ensures LastPublish(w, steps).None? ==> Run(w, steps).cache == w.cache
    ensures LastPublish(w, steps).Some? ==> Run(w, steps).cache.lastRefresh == LastPublish(w, steps).value
  {
    if steps != [] {
      var n := |steps| - 1;
      CacheOfLastPublish(w, steps[..n]);
      OnlyPublishChangesCache(Run(w, steps[..n]), steps[n]);
    }
  }

  lemma OnlyPublishChangesCache(w: World, step: Step)
    requires w.history != []
    ensures !Publishes(w, step) ==> Next(w, step).cache == w.cache
    ensures Publishes(w, step) ==> Next(w, step).cache.lastRefresh == AtState(w, step.id).value.now
    ensures w.clock <= Next(w, step).clock
  {}

  lemma {:induction false} ClockAdvances(w: World, steps: seq<Step>)
    requires w.history != []
    ensures w.clock <= Run(w, steps).clock
  {
    if steps != [] {
      var n := |steps| - 1;
      ClockAdvances(w, steps[..n]);
      OnlyPublishChangesCache(Run(w, steps[..n]), steps[n]);
    }
  }

  /** A caller that is still past its first lookup carries what that lookup found. */
  lemma {:induction false} LookupKept(w: World, id: nat, steps: seq<Step>)
    requires w.history != [] && id in w.callers && w.callers[id].LookedUp?
    ensures id in Run(w, steps).callers && Later(w.callers[id], Run(w, steps).callers[id])
    ensures Run(w, steps).callers[id].Published? ==> LastPublish(w, steps).Some?
  {
    if steps != [] {
      var n := |steps| - 1;
      LookupKept(w, id, steps[..n]);
      LaterNext(Run(w, steps[..n]), w.callers[id], id, steps[n]);
    }
  }

  /** Where a call can be that was at `first` after its lookup. */
  ghost predicate Later(first: Caller, c: Caller)
    requires first.LookedUp?
  {
    && !c.Begun? && c.kid == first.kid && c.began == first.began
    && (c.LookedUp? ==> c == first)
    && (c.Fetching? ==> c.found == first.found && c.seen == first.seen)
  }

  lemma LaterNext(w: World, first: Caller, id: nat, step: Step)
    requires w.history != [] && first.LookedUp? && id in w.callers && Later(first, w.callers[id])
    ensures id in Next(w, step).callers && Later(first, Next(w, step).callers[id])
    ensures Next(w, step).callers[id].Published? ==> w.callers[id].Published? || Publishes(w, step)
  {}

  /** A lookup that did not answer found no key or a stale cache, and left the cache alone. */
  lemma LookedUpMeansStale(w: World, id: nat)
    requires w.history != [] && AtState(w, id).Some? && AtState(w, id).value.Begun?
    requires Next(w, LookUp(id)).callers[id].LookedUp?
    ensures
      var w0 := Next(w, LookUp(id));
      && w0.callers[id].found == Find(w.cache.keys, w.callers[id].kid)
      && (w0.callers[id].found.Some? ==> Stale(w.cache, w.clock))
      && w0.cache == w.cache && w0.clock == w.clock
  {}

  ghost predicate SawSomeKey(w: World, id: nat) {
    id in w.callers && w.callers[id].LookedUp? && w.callers[id].found.Some?
  }

  /** The two ways to a stale answer without a failed fetch, for a call whose lookup found `found`
      and since when the last publish, if any, wrote the time `last`. */
  ghost predicate StaleWithoutFailure(w: World, step: Step, c: Caller, found: Option<PublicKey>, last: Option<int>) {
    && last.Some?
    && (|| (c.LookedUp? && step.CheckCooldown? && found.Some? && w.clock - last.value < COOLDOWN)
        || (c.Published? && step.LookAgain? && Find(w.cache.keys, c.kid).Some? && w.clock - last.value > TTL))
  }

  /** In terms of the last publish, when nothing else is known of the two worlds. */
  lemma StaleSinceLookup(w0: World, w1: World, step: Step, first: Caller, c: Caller, last: Option<int>)
    requires first.LookedUp? && Later(first, c) && Succeeding(step) && !c.Answered?
    requires w0.cache.lastFetch == w0.cache.lastRefresh && w1.cache.lastFetch == w1.cache.lastRefresh
    requires w0.clock <= w1.clock && (first.found.Some? ==> Stale(w0.cache, w0.clock))
    requires if last.None? then w1.cache == w0.cache else w1.cache.lastRefresh == last.value
    requires c.Published? ==> last.Some?
    ensures AnswersStale(w1, step, c) <==> StaleWithoutFailure(w1, step, c, first.found, last)
  {}

  /** Over every run, for a call whose first lookup did not answer, any steps after it, and any next
      step without a failed fetch: it gives a stale answer exactly when, since the lookup, some call
      published and either the lookup had found a key, the cooldown is being checked and the last
      publish is less than the cooldown old; or the map is being read again, holds the key, and the
      last publish is more than the TTL old. */
  lemma StaleAnswerExactlyWhen(before: seq<Step>, id: nat, mid: seq<Step>, step: Step)
    requires var w := Run(START, before); AtState(w, id).Some? && AtState(w, id).value.Begun?
    requires Next(Run(START, before), LookUp(id)).callers[id].LookedUp?
    requires
      var c := AtState(Run(Next(Run(START, before), LookUp(id)), mid), id);
      c.Some? && !c.value.Answered?
    requires Succeeding(step) && StepOf(step) == Some(id)
    ensures
      var w0 := Next(Run(START, before), LookUp(id));
      var w1 := Run(w0, mid);
      && w1 == Run(START, before + [LookUp(id)] + mid) && Consistent(w1)
      && (GivesStaleAnswer(w1, step, id) <==>
            StaleWithoutFailure(w1, step, w1.callers[id], w0.callers[id].found, LastPublish(w0, mid)))
      && (GivesStaleAnswer(w1, step, id) && step.CheckCooldown? ==>
            Next(w1, step).callers[id].answer == w0.callers[id].found)
      && (GivesStaleAnswer(w1, step, id) && step.LookAgain? ==>
            Next(w1, step).callers[id].answer == Find(w1.cache.keys, w0.callers[id].kid))
      && (!GivesStaleAnswer(w1, step, id) && step.CheckCooldown? && SawSomeKey(w1, id) ==>
            Next(w1, step).callers[id].Fetching?)
  {
    var w := Run(START, before);
    var w0 := Next(w, LookUp(id));
    var w1 := Run(w0, mid);
    RunOne(w, LookUp(id));
    RunConcat(START, before, [LookUp(id)]);
    RunConcat(START, before + [LookUp(id)], mid);
    EveryStaleAnswer(before + [LookUp(id)] + mid, step, id);
    RunConsistent(before);
    LookedUpMeansStale(w, id);
    LookupKept(w0, id, mid);
    ClockAdvances(w0, mid);
    CacheOfLastPublish(w0, mid);
    StaleSinceLookup(w0, w1, step, w0.callers[id], w1.callers[id], LastPublish(w0, mid));
    if AnswersStale(w1, step, w1.callers[id]) {
      StepAnswer(w1, step, id);
    } else if SawSomeKey(w1, id) && step.CheckCooldown? {
      CooldownOver(w1, id);
    }
  }

  lemma CooldownOver(w: World, id: nat)
    requires w.history != [] && SawSomeKey(w, id) && !CoolingDown(w.cache, w.clock)
    ensures Next(w, CheckCooldown(id)).callers[id].Fetching?
  {}

  lemma StepAnswer(w: World, step: Step, id: nat)
    requires w.history != [] && id in w.callers && StepOf(step) == Some(id) && AnswersStale(w, step, w.callers[id])
    ensures Next(w, step).callers[id].Answered?
    ensures w.callers[id].LookedUp? ==> Next(w, step).callers[id].answer == w.callers[id].found
    ensures w.callers[id].Published? ==> Next(w, step).callers[id].answer == Find(w.cache.keys, w.callers[id].kid)
  {}

  /** The first lookup itself never gives a stale answer. */
  lemma FirstLookupIsFresh(before: seq<Step>, id: nat)
    requires var w := Run(START, before); AtState(w, id).Some? && AtState(w, id).value.Begun?
    ensures Consistent(Run(START, before)) && !GivesStaleAnswer(Run(START, before), LookUp(id), id)
  {
    EveryStaleAnswer(before, LookUp(id), id);
  }

  // ---- Fetches within the cooldown ----

  lemma {:induction false} FetchKept(w: World, id: nat, steps: seq<Step>)
    requires w.history != [] && id in w.callers && w.callers[id].Fetching?
    ensures id in Run(w, steps).callers
    ensures var c := Run(w, steps).callers[id]; FetchedSince(w.clock, Run(w, steps).clock, c)
  {
    if steps != [] {
      var n := |steps| - 1;
      FetchKept(w, id, steps[..n]);
      ClockAdvances(w, steps);
    }
  }

  ghost predicate FetchedSince(start: int, clock: int, c: Caller) {
    && start <= clock && !c.Begun? && !c.LookedUp?
    && (c.Fetched? ==> start <= c.now <= clock)
  }

  /** Over every run: a call that passed the cooldown check publishes within the cooldown of the
      refresh before it exactly when, since that check, another call published, and the last one
      that did wrote a time less than the cooldown before (or after) its own. */
  lemma PublishesWithinCooldown(before: seq<Step>, id: nat, mid: seq<Step>)
    requires var w := Run(START, before); AtState(w, id).Some? && AtState(w, id).value.LookedUp?
    requires Next(Run(START, before), CheckCooldown(id)).callers[id].Fetching?
    requires
      var c := AtState(Run(Next(Run(START, before), CheckCooldown(id)), mid), id);
      c.Some? && c.value.Fetched?
    ensures
      var w0 := Next(Run(START, before), CheckCooldown(id));
      var w1 := Run(w0, mid);
      var w2 := Next(w1, Publish(id));
      var last := LastPublish(w0, mid);
      && w2.cache.lastRefresh == w1.callers[id].now
      && (w2.cache.lastRefresh - w1.cache.lastRefresh < COOLDOWN <==>
            last.Some? && w2.cache.lastRefresh - last.value < COOLDOWN)
  {
    var w0 := Next(Run(START, before), CheckCooldown(id));
    CacheOfLastPublish(w0, mid);
    FetchKept(w0, id, mid);
  }

  // ---- Runs from the start in which these happen ----

  ghost predicate NoFailedFetch(steps: seq<Step>) {
    forall i :: 0 <= i < |steps| ==> Succeeding(steps[i])
  }

  predicate Succeeding(step: Step) {
    step.Receive? ==> step.fetch.Document?
  }

  function KeyDocument(kid: string, key: PublicKey): Fetch {
    Document([Jwk(kid, "sig", Some(key))])
  }

  lemma OneUsableKey(kid: string, key: PublicKey)
    ensures UsableKeys([Jwk(kid, "sig", Some(key))]) == map[kid := key]
  {
    assert [Jwk(kid, "sig", Some(key))][..0] == [];
  }

  /** One call is past the cooldown check. */
  function FirstFetch(kid: string): seq<Step> {
    [Tick(COOLDOWN), Arrive(0, kid)] + [LookUp(0), CheckCooldown(0)]
  }

  lemma FirstFetchBegins(kid: string)
    ensures
      var w := Run(START, FirstFetch(kid));
      w.cache == NEW_CACHE && w.clock == COOLDOWN && w.callers == map[0 := Fetching(kid, 1, None, 2)]
  {
    RunConcat(START, [Tick(COOLDOWN), Arrive(0, kid)], [LookUp(0), CheckCooldown(0)]);
    RunTwo(START, Tick(COOLDOWN), Arrive(0, kid));
    RunTwo(Run(START, [Tick(COOLDOWN), Arrive(0, kid)]), LookUp(0), CheckCooldown(0));
  }

  /** It receives a document and publishes it, late or not. */
  function PublishAfter(id: nat, fetch: Fetch, delay: nat): seq<Step> {
    [Receive(id, fetch), Tick(delay)] + [Publish(id)]
  }

  lemma PublishedAfter(w: World, id: nat, fetch: Fetch, delay: nat)
    requires w.history != [] && AtState(w, id).Some? && AtState(w, id).value.Fetching? && fetch.Document?
    ensures
      var v, c := Run(w, PublishAfter(id, fetch, delay)), AtState(w, id).value;
      && v.cache == Cache(UsableKeys(fetch.jwks), w.clock, w.clock) && v.clock == w.clock + delay
      && v.callers == w.callers[id := Published(c.kid, c.began)]
  {
    RunConcat(w, [Receive(id, fetch), Tick(delay)], [Publish(id)]);
    RunTwo(w, Receive(id, fetch), Tick(delay));
    RunOne(Run(w, [Receive(id, fetch), Tick(delay)]), Publish(id));
  }

  lemma NoFailureConcat(a: seq<Step>, b: seq<Step>)
    requires NoFailedFetch(a) && NoFailedFetch(b)
    ensures NoFailedFetch(a + b)
  {}

  /** One call alone, whose own document is too old when it reads the map again. */
  function LatePublish(kid: string, key: PublicKey): seq<Step> {
    FirstFetch(kid) + PublishAfter(0, KeyDocument(kid, key), TTL + 1)
  }

  lemma LatePublishLeaves(kid: string, key: PublicKey)
    ensures NoFailedFetch(LatePublish(kid, key))
    ensures
      var w := Run(START, LatePublish(kid, key));
      && w.cache == Cache(map[kid := key], COOLDOWN, COOLDOWN) && w.clock == COOLDOWN + TTL + 1
      && w.callers == map[0 := Published(kid, 1)]
  {
    NoFailureConcat(FirstFetch(kid), PublishAfter(0, KeyDocument(kid, key), TTL + 1));
    RunConcat(START, FirstFetch(kid), PublishAfter(0, KeyDocument(kid, key), TTL + 1));
    FirstFetchBegins(kid);
    OneUsableKey(kid, key);
    PublishedAfter(Run(START, FirstFetch(kid)), 0, KeyDocument(kid, key), TTL + 1);
  }

  /** From the start, with no failed fetch and no other call: the last lookup answers with a key
      that is older than the TTL. */
  lemma StaleAnswerOfOneCall(kid: string, key: PublicKey)
    ensures NoFailedFetch(LatePublish(kid, key))
    ensures
      var w := Run(START, LatePublish(kid, key));
      && w.callers.Keys == {0}
      && Consistent(w) && GivesStaleAnswer(w, LookAgain(0), 0)
      && Next(w, LookAgain(0)).callers[0].answer == Some(key)
  {
    LatePublishLeaves(kid, key);
    EveryStaleAnswer(LatePublish(kid, key), LookAgain(0), 0);
  }

  /** Two calls meet the cache that was published late. */
  function BothLookUp(kid: string): seq<Step> {
    [Arrive(1, kid), Arrive(2, kid)] + [LookUp(1), LookUp(2)]
  }

  /** The caller's lookup found `key`. */
  ghost predicate SawKey(w: World, id: nat, key: PublicKey) {
    id in w.callers && w.callers[id].LookedUp? && w.callers[id].found == Some(key)
  }

  /** Two callers can both be past a lookup that found a stale key. */
  lemma BothSeeStaleKey(w: World, kid: string, key: PublicKey)
    requires w.history != [] && 1 !in w.callers && 2 !in w.callers
    requires Find(w.cache.keys, kid) == Some(key) && Stale(w.cache, w.clock)
    ensures
      var v := Run(w, BothLookUp(kid));
      SawKey(v, 1, key) && SawKey(v, 2, key) && v.cache == w.cache && v.clock == w.clock
  {
    RunConcat(w, [Arrive(1, kid), Arrive(2, kid)], [LookUp(1), LookUp(2)]);
    RunTwo(w, Arrive(1, kid), Arrive(2, kid));
    RunTwo(Run(w, [Arrive(1, kid), Arrive(2, kid)]), LookUp(1), LookUp(2));
  }

  /** One of them fetches a document without the key before the other looks at the cooldown. */
  function Overlap(): seq<Step> {
    [CheckCooldown(2)] + PublishAfter(2, Document([]), 0)
  }

  lemma OverlapCoolsDown(w: World, key: PublicKey)
    requires w.history != [] && SawKey(w, 1, key) && SawKey(w, 2, key)
    requires Stale(w.cache, w.clock) && w.cache.lastRefresh == w.cache.lastFetch
    ensures
      var v := Run(w, Overlap());
      SawKey(v, 1, key) && v.cache == Cache(map[], w.clock, w.clock) && v.clock == w.clock
  {
    RunConcat(w, [CheckCooldown(2)], PublishAfter(2, Document([]), 0));
    RunOne(w, CheckCooldown(2));
    PublishedAfter(Next(w, CheckCooldown(2)), 2, Document([]), 0);
  }

  function OverlapRun(kid: string, key: PublicKey): seq<Step> {
    LatePublish(kid, key) + (BothLookUp(kid) + Overlap())
  }

  lemma OverlapLeaves(kid: string, key: PublicKey)
    ensures NoFailedFetch(OverlapRun(kid, key))
    ensures
      var w := Run(START, OverlapRun(kid, key));
      SawKey(w, 1, key) && w.cache.keys == map[] && CoolingDown(w.cache, w.clock)
  {
    LatePublishLeaves(kid, key);
    NoFailureConcat(BothLookUp(kid), Overlap());
    NoFailureConcat(LatePublish(kid, key), BothLookUp(kid) + Overlap());
    var w := Run(START, LatePublish(kid, key));
    RunConcat(START, LatePublish(kid, key), BothLookUp(kid) + Overlap());
    RunConcat(w, BothLookUp(kid), Overlap());
    BothSeeStaleKey(w, kid, key);
    OverlapCoolsDown(Run(w, BothLookUp(kid)), key);
  }

  /** From the start, with no failed fetch: the refresh by one call stops another at the cooldown
      check, and it answers with a key that is too old and that the map no longer holds. */
  lemma StaleAnswerWithoutFailure(kid: string, key: PublicKey)
    ensures NoFailedFetch(OverlapRun(kid, key))
    ensures
      var w := Run(START, OverlapRun(kid, key));
      && Consistent(w) && GivesStaleAnswer(w, CheckCooldown(1), 1)
      && Next(w, CheckCooldown(1)).callers[1].answer == Some(key)
      && w.cache.keys == map[]
  {
    OverlapLeaves(kid, key);
    EveryStaleAnswer(OverlapRun(kid, key), CheckCooldown(1), 1);
  }

  /** A second call fetches and publishes a newer document while the first still holds its own. */
  function SecondFetch(kid: string): seq<Step> {
    [Arrive(1, kid), LookUp(1)] + [CheckCooldown(1)]
  }

  lemma SecondFetchBegins(w: World, kid: string)
    requires w.history != [] && 1 !in w.callers && w.cache == NEW_CACHE && w.clock >= COOLDOWN
    ensures
      var v := Run(w, SecondFetch(kid));
      && v.cache == w.cache && v.clock == w.clock
      && v.callers == w.callers[1 := Fetching(kid, Now(w), None, Now(w) + 1)]
  {
    RunConcat(w, [Arrive(1, kid), LookUp(1)], [CheckCooldown(1)]);
    RunTwo(w, Arrive(1, kid), LookUp(1));
    RunOne(Run(w, [Arrive(1, kid), LookUp(1)]), CheckCooldown(1));
  }

  function HeldBack(kid: string, key: PublicKey, delay: nat): seq<Step> {
    FirstFetch(kid) + [Receive(0, KeyDocument(kid, key)), Tick(delay)]
  }

  lemma HeldBackLeaves(kid: string, key: PublicKey, delay: nat)
    ensures NoFailedFetch(HeldBack(kid, key, delay))
    ensures
      var w := Run(START, HeldBack(kid, key, delay));
      && w.cache == NEW_CACHE && w.clock == COOLDOWN + delay
      && w.callers == map[0 := Fetched(kid, 1, map[kid := key], COOLDOWN)]
  {
    var w := Run(START, FirstFetch(kid));
    NoFailureConcat(FirstFetch(kid), [Receive(0, KeyDocument(kid, key)), Tick(delay)]);
    RunConcat(START, FirstFetch(kid), [Receive(0, KeyDocument(kid, key)), Tick(delay)]);
    FirstFetchBegins(kid);
    OneUsableKey(kid, key);
    RunTwo(w, Receive(0, KeyDocument(kid, key)), Tick(delay));
  }

  function BothFetch(kid: string, key: PublicKey, delay: nat): seq<Step> {
    HeldBack(kid, key, delay) + (SecondFetch(kid) + PublishAfter(1, Document([]), 0))
  }

  lemma BothFetchLeaves(kid: string, key: PublicKey, delay: nat)
    ensures NoFailedFetch(BothFetch(kid, key, delay))
    ensures
      var w := Run(START, BothFetch(kid, key, delay));
      && w.cache == Cache(map[], COOLDOWN + delay, COOLDOWN + delay) && w.clock == COOLDOWN + delay
      && w.callers == map[0 := Fetched(kid, 1, map[kid := key], COOLDOWN),
                          1 := Published(kid, Now(Run(START, HeldBack(kid, key, delay))))]
  {
    var w := Run(START, HeldBack(kid, key, delay));
    NoFailureConcat(SecondFetch(kid), PublishAfter(1, Document([]), 0));
    NoFailureConcat(HeldBack(kid, key, delay), SecondFetch(kid) + PublishAfter(1, Document([]), 0));
    HeldBackLeaves(kid, key, delay);
    RunConcat(START, HeldBack(kid, key, delay), SecondFetch(kid) + PublishAfter(1, Document([]), 0));
    RunConcat(w, SecondFetch(kid), PublishAfter(1, Document([]), 0));
    SecondFetchBegins(w, kid);
    PublishedAfter(Run(w, SecondFetch(kid)), 1, Document([]), 0);
  }

  /** From the start, with no failed fetch: two calls publish within the cooldown, in fact at the
      same time, because both passed the check before either published. */
  lemma FetchesTogether(kid: string, key: PublicKey)
    ensures NoFailedFetch(BothFetch(kid, key, 0))
    ensures
      var w := Run(START, BothFetch(kid, key, 0));
      && w.cache.lastRefresh == COOLDOWN
      && Publishes(w, Publish(0)) && Next(w, Publish(0)).cache.lastRefresh == w.cache.lastRefresh
  {
    BothFetchLeaves(kid, key, 0);
  }

  function LateOverNewer(kid: string, key: PublicKey): seq<Step> {
    BothFetch(kid, key, TTL + 1) + [Publish(0)]
  }

  lemma LateOverNewerLeaves(kid: string, key: PublicKey)
    ensures NoFailedFetch(LateOverNewer(kid, key))
    ensures
      var w, v := Run(START, LateOverNewer(kid, key)), Run(START, HeldBack(kid, key, TTL + 1));
      && w.cache == Cache(map[kid := key], COOLDOWN, COOLDOWN) && w.clock == v.clock == COOLDOWN + TTL + 1
      && AtState(w, 1) == Some(Published(kid, Now(v)))
  {
    BothFetchLeaves(kid, key, TTL + 1);
    HeldBackLeaves(kid, key, TTL + 1);
    NoFailureConcat(BothFetch(kid, key, TTL + 1), [Publish(0)]);
    RunConcat(START, BothFetch(kid, key, TTL + 1), [Publish(0)]);
    RunOne(Run(START, BothFetch(kid, key, TTL + 1)), Publish(0));
  }

  /** From the start, with no failed fetch: a call's last lookup answers with a key that another
      call fetched more than the TTL before this one began, although this one had published a newer
      document in between. */
  lemma StaleAnswerOfAnother(kid: string, key: PublicKey)
    ensures NoFailedFetch(LateOverNewer(kid, key))
    ensures
      var w, v := Run(START, LateOverNewer(kid, key)), Run(START, HeldBack(kid, key, TTL + 1));
      && Consistent(w) && GivesStaleAnswer(w, LookAgain(1), 1)
      && Next(w, LookAgain(1)).callers[1].answer == Some(key)
      && w.callers[1].began == Now(v) && Stale(w.cache, v.clock)
  {
    LateOverNewerLeaves(kid, key);
    EveryStaleAnswer(LateOverNewer(kid, key), LookAgain(1), 1);
  }

  // ---- A call alone ----

  /** The steps of one call up to the cooldown check, with the clock moved on to its readings. */
  function FirstSteps(id: nat, call: Call): seq<Step>
    requires call.lookupTime <= call.cooldownTime <= call.publishTime
  {
    LookUpSteps(id, call) + CheckSteps(id, call)
  }

  function CheckSteps(id: nat, call: Call): seq<Step>
    requires call.cooldownTime <= call.publishTime
  {
    [CheckCooldown(id), Tick(call.publishTime - call.cooldownTime)]
  }

  function LookUpSteps(id: nat, call: Call): seq<Step>
    requires call.lookupTime <= call.cooldownTime
  {
    [Arrive(id, call.kid), LookUp(id)] + [Tick(call.cooldownTime - call.lookupTime)]
  }

  function LastSteps(id: nat, call: Call): seq<Step> {
    [Receive(id, call.fetch), Publish(id)] + [LookAgain(id)]
  }

  /** Uninterrupted, these steps leave the cache and give the answer that the sequential call does,
      whatever the cache was; so what is proved of one call at a time and of interleaved steps is
      about one algorithm. */
  lemma CallIsUninterruptedSteps(w: World, id: nat, call: Call)
    requires w.history != [] && id !in w.callers
    requires w.clock == call.lookupTime <= call.cooldownTime <= call.publishTime
    ensures
      var v := Run(w, FirstSteps(id, call) + LastSteps(id, call));
      && v.cache == AfterCall(w.cache, call) && v.clock == call.publishTime
      && AtState(v, id).Some? && v.callers[id].Answered? && v.callers[id].answer == Answer(w.cache, call)
  {
    var looked := Run(w, LookUpSteps(id, call));
    RunConcat(w, FirstSteps(id, call), LastSteps(id, call));
    RunConcat(w, LookUpSteps(id, call), CheckSteps(id, call));
    LooksUpAlone(w, id, call);
    ChecksAlone(looked, id, call, w.cache);
    FetchesAlone(Run(looked, CheckSteps(id, call)), id, call, w.cache);
  }

  /** The caller is there, and the shared state is as given. */
  ghost predicate Alone(w: World, id: nat, cache: Cache, clock: int) {
    w.history != [] && id in w.callers && w.cache == cache && w.clock == clock
  }

  ghost predicate PastLookUp(w: World, id: nat, call: Call, cache: Cache) {
    var found := Find(cache.keys, call.kid);
    && Alone(w, id, cache, call.cooldownTime) && w.callers[id].kid == call.kid
    && if found.Some? && !Stale(cache, call.lookupTime)
       then w.callers[id].Answered? && w.callers[id].answer == found
       else w.callers[id].LookedUp? && w.callers[id].found == found
  }

  ghost predicate PastCheck(w: World, id: nat, call: Call, cache: Cache) {
    var found := Find(cache.keys, call.kid);
    && Alone(w, id, cache, call.publishTime) && w.callers[id].kid == call.kid
    && if Fetches(cache, call) then w.callers[id].Fetching? && w.callers[id].found == found
       else w.callers[id].Answered? && w.callers[id].answer == found
  }

  lemma LooksUpAlone(w: World, id: nat, call: Call)
    requires w.history != [] && id !in w.callers && w.clock == call.lookupTime <= call.cooldownTime
    ensures PastLookUp(Run(w, LookUpSteps(id, call)), id, call, w.cache)
  {
    RunConcat(w, [Arrive(id, call.kid), LookUp(id)], [Tick(call.cooldownTime - call.lookupTime)]);
    RunTwo(w, Arrive(id, call.kid), LookUp(id));
    RunOne(Next(Next(w, Arrive(id, call.kid)), LookUp(id)), Tick(call.cooldownTime - call.lookupTime));
  }

  lemma ChecksAlone(w: World, id: nat, call: Call, cache: Cache)
    requires PastLookUp(w, id, call, cache) && call.cooldownTime <= call.publishTime
    ensures PastCheck(Run(w, CheckSteps(id, call)), id, call, cache)
  {
    RunTwo(w, CheckCooldown(id), Tick(call.publishTime - call.cooldownTime));
  }

  lemma FetchesAlone(w: World, id: nat, call: Call, cache: Cache)
    requires PastCheck(w, id, call, cache)
    ensures
      var v := Run(w, LastSteps(id, call));
      && v.cache == AfterCall(cache, call) && v.clock == call.publishTime
      && AtState(v, id).Some? && v.callers[id].Answered? && v.callers[id].answer == Answer(cache, call)
  {
    RunConcat(w, [Receive(id, call.fetch), Publish(id)], [LookAgain(id)]);
    PublishesAlone(w, id, call);
    RunOne(Run(w, [Receive(id, call.fetch), Publish(id)]), LookAgain(id));
  }

  lemma PublishesAlone(w: World, id: nat, call: Call)
    requires Alone(w, id, w.cache, call.publishTime)
    requires w.callers[id].Answered? || w.callers[id].Fetching?
    ensures
      var v, c := Run(w, [Receive(id, call.fetch), Publish(id)]), w.callers[id];
      if c.Answered? then Alone(v, id, w.cache, w.clock) && v.callers[id] == c
      else if call.fetch.FetchFailed? then
        Alone(v, id, w.cache, w.clock) && v.callers[id].Answered? && v.callers[id].answer == c.found
      else
        Alone(v, id, Cache(UsableKeys(call.fetch.jwks), w.clock, w.clock), w.clock)
        && v.callers[id] == Published(c.kid, c.began)
  {
    RunTwo(w, Receive(id, call.fetch), Publish(id));
  }
}
