/** Whole runs of the audit logger: logging, lost writes, rotation, age purge and reopening,
    in any order, and what is then on disk. */
module AuditHistory {
  import opened Wrappers
  import opened AuditEvent
  import opened LogLines
  import opened AuditChain
  import opened AuditRotation
  import opened AuditLogger

  datatype Op =
    | LogCall(call: Call)
    | Reopen(random: seq<byte>, at: int)
  {
    function Now(): int {
      if LogCall? then call.now else at
    }
  }

  function Step(p: Primitives, cfg: Config, a: Agent, op: Op): (r: Agent)
    requires 0 in a.logs
    ensures 0 in r.logs
  {
    match op
    case LogCall(c) => AfterLog(p, cfg, a, c)
    case Reopen(random, at) => AfterOpen(p, a.logs, Some(a.key), random, at)
  }

  function Run(p: Primitives, cfg: Config, a: Agent, ops: seq<Op>): (r: Agent)
    requires 0 in a.logs
    ensures 0 in r.logs
  {
    if ops == [] then a else Step(p, cfg, Run(p, cfg, a, ops[..|ops| - 1]), ops[|ops| - 1])
  }

  /** The event an operation seals, and the one it puts on disk. */
  function SealedBy(p: Primitives, a: Agent, op: Op): seq<Event> {
    if op.LogCall? then [SealedEvent(p, a.key, a.prevHash, op.call)] else []
  }

  function KeptBy(p: Primitives, a: Agent, op: Op): seq<Event> {
    var sealed := SealedBy(p, a, op);
    if sealed != [] && op.call.writeOk && p.encode(sealed[0]).Some? then sealed else []
  }

  /** Everything ever written, in order. */
  function Kept(p: Primitives, cfg: Config, a: Agent, ops: seq<Op>): seq<Event>
    requires 0 in a.logs
  {
    if ops == [] then []
    else
      var before := ops[..|ops| - 1];
      Kept(p, cfg, a, before) + KeptBy(p, Run(p, cfg, a, before), ops[|ops| - 1])
  }

  ghost predicate Monotone(start: int, ops: seq<Op>) {
    && (forall i :: 0 <= i < |ops| ==> start <= ops[i].Now())
    && (forall i, j :: 0 <= i < j < |ops| ==> ops[i].Now() <= ops[j].Now())
  }

  function LastTime(start: int, ops: seq<Op>): int {
    if ops == [] then start else ops[|ops| - 1].Now()
  }

  lemma MonotonePrefix(start: int, ops: seq<Op>)
    requires Monotone(start, ops) && ops != []
    ensures
      var before := ops[..|ops| - 1];
      Monotone(start, before) && LastTime(start, before) <= LastTime(start, ops)
  {}

  // ---- What is on disk ----

  ghost predicate IsSuffix<T>(a: seq<T>, b: seq<T>) {
    |a| <= |b| && b[|b| - |a|..] == a
  }

  /** The segments from the oldest file, which has the highest number, to audit.log. */
  function Archive(segs: seq<seq<Event>>): seq<Event> {
    if segs == [] then [] else Archive(segs[1..]) + segs[0]
  }

  ghost predicate Holds(p: Primitives, logs: Logs, segs: seq<seq<Event>>, s: nat)
    requires s < |segs| && HasSlots(logs, |segs|)
  {
    Encodable(p, segs[s]) && logs[s].content == Content(p, segs[s])
  }

  ghost predicate OnDisk(p: Primitives, logs: Logs, segs: seq<seq<Event>>, hist: seq<Event>, clock: int) {
    && 1 <= |segs| <= LAST_SLOT + 1
    && HasSlots(logs, |segs|)
    && AgeOrdered(logs, |segs|, clock)
    && (forall s: nat :: s < |segs| ==> Holds(p, logs, segs, s))
    && IsSuffix(Archive(segs), hist)
  }

  lemma {:induction false} ArchiveOfNewest(segs: seq<seq<Event>>, m: nat)
    requires m <= |segs|
    ensures IsSuffix(Archive(segs[..m]), Archive(segs))
  {
    if m > 0 {
      assert segs[..m][1..] == segs[1..][..m - 1];
      ArchiveOfNewest(segs[1..], m - 1);
    }
  }

  lemma RotateSegments(p: Primitives, logs: Logs, segs: seq<seq<Event>>, hist: seq<Event>,
                       maxSizeMB: int, keep: Retention, now: int) returns (m: nat)
    requires OnDisk(p, logs, segs, hist, now) && NeedsRotation(logs, maxSizeMB)
    ensures m <= |segs| && OnDisk(p, Rotated(logs, maxSizeMB, keep, now), [[]] + segs[..m], hist, now)
  {
    var k := RotationKeepsStretch(logs, |segs|, maxSizeMB, keep, now);
    m := k - 1;
    var rotated, after := Rotated(logs, maxSizeMB, keep, now), [[]] + segs[..m];
    forall s: nat | s < k
      ensures Holds(p, rotated, after, s)
    {
      if s > 0 { assert Holds(p, logs, segs, s - 1); }
    }
    assert after[1..] == segs[..m];
    ArchiveOfNewest(segs, m);
  }

  lemma RotateOnDisk(p: Primitives, logs: Logs, segs: seq<seq<Event>>, hist: seq<Event>,
                     maxSizeMB: int, keep: Retention, now: int) returns (after: seq<seq<Event>>)
    requires OnDisk(p, logs, segs, hist, now)
    ensures OnDisk(p, Rotated(logs, maxSizeMB, keep, now), after, hist, now)
  {
    if NeedsRotation(logs, maxSizeMB) {
      var m := RotateSegments(p, logs, segs, hist, maxSizeMB, keep, now);
      after := [[]] + segs[..m];
    } else {
      after := segs;
    }
  }

  lemma AppendOnDisk(p: Primitives, logs: Logs, segs: seq<seq<Event>>, hist: seq<Event>, e: Event, now: int)
    requires OnDisk(p, logs, segs, hist, now) && p.encode(e).Some?
    ensures OnDisk(p, AppendLine(logs, p.encode(e).value, now), segs[0 := segs[0] + [e]], hist + [e], now)
  {
    var after := segs[0 := segs[0] + [e]];
    var written := AppendLine(logs, p.encode(e).value, now);
    assert Holds(p, logs, segs, 0);
    var line := p.encode(e).value;
    ContentOfOne(p, e);
    ContentConcat(p, segs[0], [e]);
    assert logs[0].content + line + [NEWLINE] == logs[0].content + Content(p, [e]);
    forall s: nat | s < |after|
      ensures Holds(p, written, after, s)
    {
      assert Holds(p, logs, segs, s);
    }
    assert after[1..] == segs[1..];
    assert Archive(after) == Archive(segs) + [e];
  }

  lemma ReopenOnDisk(p: Primitives, logs: Logs, segs: seq<seq<Event>>, hist: seq<Event>, clock: int, now: int)
    requires OnDisk(p, logs, segs, hist, clock) && clock <= now
    ensures OnDisk(p, logs, segs, hist, now)
  {}

  lemma StepOnDisk(p: Primitives, cfg: Config, a: Agent, segs: seq<seq<Event>>, hist: seq<Event>,
                   clock: int, op: Op) returns (after: seq<seq<Event>>)
    requires 0 in a.logs && OnDisk(p, a.logs, segs, hist, clock) && clock <= op.Now()
    ensures OnDisk(p, Step(p, cfg, a, op).logs, after, hist + KeptBy(p, a, op), op.Now())
    ensures KeptBy(p, a, op) != [] ==> after[0] != []
    ensures op.Reopen? ==> after == segs
  {
    ReopenOnDisk(p, a.logs, segs, hist, clock, op.Now());
    after := segs;
    assert hist + [] == hist;
    if op.LogCall? {
      var c := op.call;
      var e := SealedEvent(p, a.key, a.prevHash, c);
      if p.encode(e).Some? {
        var keep := Retention(cfg.retention, c.cutoff);
        after := RotateOnDisk(p, a.logs, segs, hist, cfg.maxSizeMB, keep, c.now);
        if c.writeOk {
          AppendOnDisk(p, Rotated(a.logs, cfg.maxSizeMB, keep, c.now), after, hist, e, c.now);
          after := after[0 := after[0] + [e]];
        }
      }
    }
  }

  /** An agent that was just started on an empty directory. */
  ghost predicate FreshStart(p: Primitives, a: Agent, start: int) {
    a == AfterOpen(p, map[], None, a.key, start) && |a.key| == KEY_SIZE
  }

  lemma FreshOnDisk(p: Primitives, a: Agent, start: int)
    requires FreshStart(p, a, start)
    ensures OnDisk(p, a.logs, [[]], [], start)
    ensures a.prevHash == GENESIS == "genesis"
  {
    LinesOfNothing();
    assert Archive([[]]) == Archive([[]][1..]) + [];
  }

  /** Whatever succeeds or fails, the files are an unbroken tail of what was written, file
      boundaries included. */
  lemma {:induction false} RunOnDisk(p: Primitives, cfg: Config, a: Agent, start: int, ops: seq<Op>)
    returns (segs: seq<seq<Event>>)
    requires FreshStart(p, a, start) && Monotone(start, ops)
    ensures OnDisk(p, Run(p, cfg, a, ops).logs, segs, Kept(p, cfg, a, ops), LastTime(start, ops))
  {
    if ops == [] {
      FreshOnDisk(p, a, start);
      segs := [[]];
    } else {
      var n := |ops| - 1;
      MonotonePrefix(start, ops);
      segs := RunOnDisk(p, cfg, a, start, ops[..n]);
      segs := StepOnDisk(p, cfg, Run(p, cfg, a, ops[..n]), segs, Kept(p, cfg, a, ops[..n]),
                         LastTime(start, ops[..n]), ops[n]);
    }
  }

  // ---- Runs that lose nothing ----

  /** Every call is encodable and its write succeeds. */
  ghost predicate Lossless(p: Primitives, cfg: Config, a: Agent, ops: seq<Op>)
    requires 0 in a.logs
  {
    forall i :: 0 <= i < |ops| ==> LosslessAt(p, cfg, a, ops, i)
  }

  ghost predicate LosslessAt(p: Primitives, cfg: Config, a: Agent, ops: seq<Op>, i: nat)
    requires 0 in a.logs && i < |ops|
  {
    var b := Run(p, cfg, a, ops[..i]);
    KeptBy(p, b, ops[i]) == SealedBy(p, b, ops[i])
  }

  lemma LosslessPrefix(p: Primitives, cfg: Config, a: Agent, ops: seq<Op>, i: nat)
    requires 0 in a.logs && i <= |ops|
    ensures Lossless(p, cfg, a, ops[..i]) <==> forall k :: 0 <= k < i ==> LosslessAt(p, cfg, a, ops, k)
  {
    forall k: nat | k < i
      ensures LosslessAt(p, cfg, a, ops[..i], k) <==> LosslessAt(p, cfg, a, ops, k)
    {
      assert ops[..i][..k] == ops[..k];
    }
  }

  lemma LosslessSnoc(p: Primitives, cfg: Config, a: Agent, ops: seq<Op>)
    requires 0 in a.logs && ops != []
    ensures
      var n := |ops| - 1;
      Lossless(p, cfg, a, ops) <==> Lossless(p, cfg, a, ops[..n]) && LosslessAt(p, cfg, a, ops, n)
  {
    LosslessPrefix(p, cfg, a, ops, |ops| - 1);
  }

  /** The history is one chain from "genesis", and its tip is in memory. */
  ghost predicate OneChain(p: Primitives, a: Agent, hist: seq<Event>) {
    Chain(p, a.key, GENESIS, hist) && a.prevHash == Tip(hist, GENESIS)
  }

  /** The hash that a restart takes from the line of `e` at the end of audit.log. */
  function FoundHash(p: Primitives, e: Event): string {
    if p.encode(e).None? || !Decodes(p, ResumeTail(p.encode(e).value)) then GENESIS
    else Decoded(p, ResumeTail(p.encode(e).value)).hash
  }

  /** The line of `e` fits the window, or the part that does happens to decode to the same hash. */
  predicate Survives(p: Primitives, e: Event) {
    && p.encode(e).Some?
    && var line := p.encode(e).value;
       || |line| < WINDOW
       || (Decodes(p, ResumeTail(line)) && Decoded(p, ResumeTail(line)).hash == e.hash)
  }

  lemma SurvivesMeaning(p: Primitives, e: Event)
    requires p.Sound() && p.encode(e).Some? && e.hash != GENESIS
    ensures Survives(p, e) <==> FoundHash(p, e) == e.hash
    ensures |p.encode(e).value| < WINDOW ==> Survives(p, e)
  {
    assert p.IsLineOf(e, p.encode(e).value);
  }

  /** Reopening finds what the window shows of the newest event in audit.log, and "genesis" when
      that file is empty, whatever older files hold. */
  lemma ReopenFindsTip(p: Primitives, logs: Logs, segs: seq<seq<Event>>, hist: seq<Event>, clock: int)
    requires p.Sound() && OnDisk(p, logs, segs, hist, clock)
    ensures LastHash(p, Lines(Window(logs[0].content))) ==
      if segs[0] == [] then GENESIS else FoundHash(p, segs[0][|segs[0]| - 1])
  {
    assert Holds(p, logs, segs, 0);
    var newest := segs[0];
    if newest == [] {
      LinesOfNothing();
    } else {
      var n := |newest| - 1;
      NewestLine(p, newest);
      ContentLines(p, newest[..n]);
      LastLineFoundHash(p, Content(p, newest[..n]), newest[n]);
    }
  }

  lemma LastLineFoundHash(p: Primitives, before: seq<byte>, e: Event)
    requires p.Sound() && p.encode(e).Some? && EndsLine(before)
    ensures LastHash(p, Lines(Window(before + p.encode(e).value + [NEWLINE]))) == FoundHash(p, e)
  {
    var line := p.encode(e).value;
    assert p.IsLineOf(e, line);
    if |line| < WINDOW {
      LineAtEnd(line);
      WindowSuffices(p, before, line, [NEWLINE]);
    } else {
      LongLineLosesChain(p, before, line);
    }
  }

  /** The newest segment ends the history; it is empty exactly when audit.log is. */
  lemma NewestSegment(p: Primitives, logs: Logs, segs: seq<seq<Event>>, hist: seq<Event>, clock: int)
    requires OnDisk(p, logs, segs, hist, clock)
    ensures IsSuffix(segs[0], hist) && Encodable(p, segs[0])
    ensures segs[0] == [] <==> logs[0].content == []
  {
    assert Holds(p, logs, segs, 0);
    assert Archive(segs) == Archive(segs[1..]) + segs[0];
    assert hist[|hist| - |segs[0]|..] == segs[0];
    if segs[0] != [] {
      NewestLine(p, segs[0]);
    }
  }

  /** So a restart takes its hash from the newest event written, unless audit.log is empty. */
  lemma ReopenFindsNewest(p: Primitives, logs: Logs, segs: seq<seq<Event>>, hist: seq<Event>, clock: int)
    requires p.Sound() && OnDisk(p, logs, segs, hist, clock)
    ensures logs[0].content == [] || (hist != [] && p.encode(hist[|hist| - 1]).Some?)
    ensures LastHash(p, Lines(Window(logs[0].content))) ==
      if logs[0].content == [] then GENESIS else FoundHash(p, hist[|hist| - 1])
  {
    NewestSegment(p, logs, segs, hist, clock);
    ReopenFindsTip(p, logs, segs, hist, clock);
    assert segs[0] != [] ==> segs[0][|segs[0]| - 1] == hist[|hist| - 1];
  }

  /** A restart of an agent with these files resumes where `hist` ends. It can be told from the
      size of audit.log and the last line written. */
  predicate Resumes(p: Primitives, logs: Logs, hist: seq<Event>)
    requires 0 in logs
  {
    hist == [] || (logs[0].content != [] && Survives(p, hist[|hist| - 1]))
  }

  lemma ReopenResumes(p: Primitives, logs: Logs, segs: seq<seq<Event>>, hist: seq<Event>, clock: int)
    requires p.Sound() && OnDisk(p, logs, segs, hist, clock)
    requires hist != [] ==> Tip(hist, GENESIS) != GENESIS
    ensures LastHash(p, Lines(Window(logs[0].content))) == Tip(hist, GENESIS) <==> Resumes(p, logs, hist)
  {
    ReopenFindsNewest(p, logs, segs, hist, clock);
    if logs[0].content != [] {
      SurvivesMeaning(p, hist[|hist| - 1]);
    }
  }

  /** So when the first write after a rotation is lost and the agent restarts, the chain starts
      anew: the next event links to "genesis" although older files exist. */
  lemma LostWriteAfterRotation(p: Primitives, cfg: Config, a: Agent, c: Call, random: seq<byte>, at: int)
    requires 0 in a.logs && NeedsRotation(a.logs, cfg.maxSizeMB)
    requires p.encode(SealedEvent(p, a.key, a.prevHash, c)).Some? && !c.writeOk
    ensures Run(p, cfg, a, [LogCall(c), Reopen(random, at)]).prevHash == GENESIS
  {
    var ops := [LogCall(c), Reopen(random, at)];
    assert ops[..1] == [LogCall(c)] && ops[..1][..0] == [];
    assert Run(p, cfg, a, ops[..1]) == AfterLog(p, cfg, a, c);
    LinesOfNothing();
  }

  lemma NewestLine(p: Primitives, evs: seq<Event>)
    requires evs != [] && Encodable(p, evs)
    ensures
      var n := |evs| - 1;
      && Encodable(p, evs[..n])
      && Content(p, evs) == Content(p, evs[..n]) + p.encode(evs[n]).value + [NEWLINE]
  {
    var n := |evs| - 1;
    var line := p.encode(evs[n]).value;
    assert evs == evs[..n] + [evs[n]];
    ContentOfOne(p, evs[n]);
    ContentConcat(p, evs[..n], [evs[n]]);
  }

  lemma LineAtEnd(line: seq<byte>)
    ensures Lines([NEWLINE]) == [[]] && |line + [NEWLINE]| == |line| + 1
  {
    assert [NEWLINE] == [] + [NEWLINE] + [];
    LinesCons([], []);
    LinesOfNothing();
  }

  /** Whatever is lost, every event written carries its MAC under the one key. */
  lemma {:induction false} KeptSealed(p: Primitives, cfg: Config, a: Agent, ops: seq<Op>)
    requires 0 in a.logs && |a.key| == KEY_SIZE
    ensures Run(p, cfg, a, ops).key == a.key
    ensures forall e :: e in Kept(p, cfg, a, ops) ==> p.Sealed(a.key, e)
  {
    if ops != [] {
      var n := |ops| - 1;
      KeptSealed(p, cfg, a, ops[..n]);
      if ops[n].LogCall? {
        var mid := Run(p, cfg, a, ops[..n]);
        SealedEventIsSealed(p, mid.key, mid.prevHash, ops[n].call);
      }
    }
  }

  lemma SealedEventIsSealed(p: Primitives, key: seq<byte>, prevHash: string, c: Call)
    ensures p.Sealed(key, SealedEvent(p, key, prevHash, c))
    ensures SealedEvent(p, key, prevHash, c).prevHash == prevHash
  {
    var e := SealedEvent(p, key, prevHash, c);
    assert MacFields(e) == MacFields(e.(hash := c.draft.hash));
  }

  lemma KeptTip(p: Primitives, cfg: Config, a: Agent, ops: seq<Op>)
    requires p.Sound() && 0 in a.logs && |a.key| == KEY_SIZE
    ensures Kept(p, cfg, a, ops) != [] ==> Tip(Kept(p, cfg, a, ops), GENESIS) != GENESIS
  {
    var hist := Kept(p, cfg, a, ops);
    KeptSealed(p, cfg, a, ops);
    if hist != [] {
      var last := hist[|hist| - 1];
      assert last in hist && IsHexMac(p.mac(a.key, MacInput(last)));
    }
  }

  /** After any run, whatever was lost, a restart resumes at the last event written exactly when
      nothing was ever written, or audit.log is not empty and the last line fits the window (or
      its last 8191 bytes decode to an event with that hash). */
  lemma RestartResumes(p: Primitives, cfg: Config, a: Agent, start: int, ops: seq<Op>, random: seq<byte>, at: int)
    requires p.Sound() && FreshStart(p, a, start) && Monotone(start, ops)
    ensures
      var b, hist := Run(p, cfg, a, ops), Kept(p, cfg, a, ops);
      Step(p, cfg, b, Reopen(random, at)).prevHash == Tip(hist, GENESIS) <==> Resumes(p, b.logs, hist)
  {
    var segs := RunOnDisk(p, cfg, a, start, ops);
    KeptTip(p, cfg, a, ops);
    ReopenResumes(p, Run(p, cfg, a, ops).logs, segs, Kept(p, cfg, a, ops), LastTime(start, ops));
  }

  /** In particular not when the last line is too long and its tail does not decode: then the
      chain starts anew although audit.log is not empty. */
  lemma LongLineBeforeRestart(p: Primitives, cfg: Config, a: Agent, start: int, ops: seq<Op>,
                              random: seq<byte>, at: int)
    requires p.Sound() && FreshStart(p, a, start) && Monotone(start, ops) && Kept(p, cfg, a, ops) != []
    requires
      var line := p.encode(Kept(p, cfg, a, ops)[|Kept(p, cfg, a, ops)| - 1]);
      line.Some? && |line.value| >= WINDOW && !Decodes(p, ResumeTail(line.value))
    ensures Step(p, cfg, Run(p, cfg, a, ops), Reopen(random, at)).prevHash == GENESIS
    ensures Tip(Kept(p, cfg, a, ops), GENESIS) != GENESIS
  {
    var segs := RunOnDisk(p, cfg, a, start, ops);
    KeptTip(p, cfg, a, ops);
    ReopenFindsNewest(p, Run(p, cfg, a, ops).logs, segs, Kept(p, cfg, a, ops), LastTime(start, ops));
  }

  /** Every restart of the run resumes. */
  ghost predicate AllResume(p: Primitives, cfg: Config, a: Agent, ops: seq<Op>)
    requires 0 in a.logs
  {
    forall i :: 0 <= i < |ops| && ops[i].Reopen? ==> ResumesAt(p, cfg, a, ops, i)
  }

  ghost predicate ResumesAt(p: Primitives, cfg: Config, a: Agent, ops: seq<Op>, i: nat)
    requires 0 in a.logs && i <= |ops|
  {
    Resumes(p, Run(p, cfg, a, ops[..i]).logs, Kept(p, cfg, a, ops[..i]))
  }

  lemma AllResumeSnoc(p: Primitives, cfg: Config, a: Agent, ops: seq<Op>)
    requires 0 in a.logs && ops != []
    ensures
      var n := |ops| - 1;
      AllResume(p, cfg, a, ops) <==>
        AllResume(p, cfg, a, ops[..n]) && (ops[n].Reopen? ==> ResumesAt(p, cfg, a, ops, n))
  {
    var n := |ops| - 1;
    forall i: nat | i <= n
      ensures ResumesAt(p, cfg, a, ops[..n], i) <==> ResumesAt(p, cfg, a, ops, i)
    {
      assert ops[..n][..i] == ops[..i];
    }
  }

  /** When nothing is lost and a restart would resume, the tip is in memory already. */
  lemma TipInMemory(p: Primitives, cfg: Config, a: Agent, start: int, ops: seq<Op>)
    requires p.Sound() && FreshStart(p, a, start) && Monotone(start, ops) && Lossless(p, cfg, a, ops)
    requires Resumes(p, Run(p, cfg, a, ops).logs, Kept(p, cfg, a, ops))
    ensures Run(p, cfg, a, ops).prevHash == Tip(Kept(p, cfg, a, ops), GENESIS)
  {
    if ops == [] {
      FreshOnDisk(p, a, start);
    } else {
      var n := |ops| - 1;
      MonotonePrefix(start, ops);
      LosslessSnoc(p, cfg, a, ops);
      if ops[n].Reopen? {
        ReopenStep(p, cfg, a, ops);
        RestartResumes(p, cfg, a, start, ops[..n], ops[n].random, ops[n].at);
      } else {
        CallStoresTip(p, cfg, a, ops);
      }
    }
  }

  lemma CallStoresTip(p: Primitives, cfg: Config, a: Agent, ops: seq<Op>)
    requires 0 in a.logs && ops != [] && ops[|ops| - 1].LogCall?
    requires
      var mid := Run(p, cfg, a, ops[..|ops| - 1]);
      KeptBy(p, mid, ops[|ops| - 1]) == SealedBy(p, mid, ops[|ops| - 1])
    ensures Run(p, cfg, a, ops).prevHash == Tip(Kept(p, cfg, a, ops), GENESIS)
  {}

  lemma ReopenStep(p: Primitives, cfg: Config, a: Agent, ops: seq<Op>)
    requires 0 in a.logs && |a.key| == KEY_SIZE && ops != [] && ops[|ops| - 1].Reopen?
    ensures
      var before := ops[..|ops| - 1];
      && Run(p, cfg, a, ops) == Step(p, cfg, Run(p, cfg, a, before), ops[|ops| - 1])
      && Run(p, cfg, a, ops).logs == Run(p, cfg, a, before).logs
      && Run(p, cfg, a, ops).key == Run(p, cfg, a, before).key == a.key
      && Kept(p, cfg, a, ops) == Kept(p, cfg, a, before)
  {
    KeptSealed(p, cfg, a, ops[..|ops| - 1]);
    assert Kept(p, cfg, a, ops) == Kept(p, cfg, a, ops[..|ops| - 1]) + [];
  }

  lemma CallKeepsOneChain(p: Primitives, cfg: Config, a: Agent, hist: seq<Event>, c: Call)
    requires 0 in a.logs
    ensures OneChain(p, Step(p, cfg, a, LogCall(c)), hist + [SealedEvent(p, a.key, a.prevHash, c)])
       <==> OneChain(p, a, hist)
  {
    SealedEventIsSealed(p, a.key, a.prevHash, c);
    ChainSnoc(p, a.key, GENESIS, hist, SealedEvent(p, a.key, a.prevHash, c));
  }

  /** When nothing is lost the history is one chain whose tip is in memory, across rotations,
      exactly when every restart resumed. */
  lemma {:induction false} RunResumable(p: Primitives, cfg: Config, a: Agent, start: int, ops: seq<Op>)
    requires p.Sound() && FreshStart(p, a, start) && Monotone(start, ops) && Lossless(p, cfg, a, ops)
    ensures OneChain(p, Run(p, cfg, a, ops), Kept(p, cfg, a, ops)) <==> AllResume(p, cfg, a, ops)
  {
    if ops == [] {
      FreshOnDisk(p, a, start);
    } else {
      var n := |ops| - 1;
      MonotonePrefix(start, ops);
      LosslessSnoc(p, cfg, a, ops);
      RunResumable(p, cfg, a, start, ops[..n]);
      AllResumeSnoc(p, cfg, a, ops);
      if ops[n].LogCall? {
        CallKeepsOneChain(p, cfg, Run(p, cfg, a, ops[..n]), Kept(p, cfg, a, ops[..n]), ops[n].call);
      } else {
        RestartKeepsOneChain(p, cfg, a, start, ops);
      }
    }
  }

  lemma RestartKeepsOneChain(p: Primitives, cfg: Config, a: Agent, start: int, ops: seq<Op>)
    requires p.Sound() && FreshStart(p, a, start) && Monotone(start, ops) && Lossless(p, cfg, a, ops)
    requires ops != [] && ops[|ops| - 1].Reopen?
    ensures
      var n := |ops| - 1;
      OneChain(p, Run(p, cfg, a, ops), Kept(p, cfg, a, ops)) <==>
        OneChain(p, Run(p, cfg, a, ops[..n]), Kept(p, cfg, a, ops[..n])) && ResumesAt(p, cfg, a, ops, n)
  {
    var n := |ops| - 1;
    MonotonePrefix(start, ops);
    LosslessSnoc(p, cfg, a, ops);
    ReopenStep(p, cfg, a, ops);
    RestartResumes(p, cfg, a, start, ops[..n], ops[n].random, ops[n].at);
    if ResumesAt(p, cfg, a, ops, n) {
      TipInMemory(p, cfg, a, start, ops[..n]);
    }
  }

  /** A run that loses nothing leaves audit.log empty only when nothing was written; so all its
      restarts resume when the last line before each of them fits the window. */
  lemma ShortLinesResume(p: Primitives, cfg: Config, a: Agent, start: int, ops: seq<Op>)
    requires p.Sound() && FreshStart(p, a, start) && Lossless(p, cfg, a, ops)
    requires forall i :: 0 <= i < |ops| && ops[i].Reopen? ==> ShortAtEnd(p, Kept(p, cfg, a, ops[..i]))
    ensures AllResume(p, cfg, a, ops)
  {
    forall i: nat | i < |ops| && ops[i].Reopen?
      ensures ResumesAt(p, cfg, a, ops, i)
    {
      LosslessPrefix(p, cfg, a, ops, i);
      LosslessLeavesContent(p, cfg, a, ops[..i]);
    }
  }

  predicate ShortAtEnd(p: Primitives, hist: seq<Event>) {
    hist == [] || (p.encode(hist[|hist| - 1]).Some? && |p.encode(hist[|hist| - 1]).value| < WINDOW)
  }

  lemma {:induction false} LosslessLeavesContent(p: Primitives, cfg: Config, a: Agent, ops: seq<Op>)
    requires 0 in a.logs && Lossless(p, cfg, a, ops)
    ensures Kept(p, cfg, a, ops) == [] || Run(p, cfg, a, ops).logs[0].content != []
  {
    if ops != [] {
      LosslessSnoc(p, cfg, a, ops);
      LosslessLeavesContent(p, cfg, a, ops[..|ops| - 1]);
    }
  }
}
