/** What is kept on disk: exactly when the numbered files hold the whole history, and how much of
    it they hold at least. */
module AuditRetention {
  import opened Wrappers
  import opened AuditEvent
  import opened LogLines
  import opened AuditChain
  import opened AuditVerify
  import opened AuditTamper
  import opened AuditRotation
  import opened AuditLogger
  import opened AuditHistory
  import opened AuditTheorems

  /** What one call does, in terms of the limit in bytes: below it the line is appended to
      audit.log and every other file is as before; at it the line begins a fresh file. */
  lemma LoggedLine(p: Primitives, cfg: Config, a: Agent, c: Call)
    requires 0 in a.logs && p.encode(SealedEvent(p, a.key, a.prevHash, c)).Some?
    ensures
      var e, b := SealedEvent(p, a.key, a.prevHash, c), Step(p, cfg, a, LogCall(c));
      var full := 0 < cfg.maxSizeMB && |a.logs[0].content| >= cfg.maxSizeMB * 0x10_0000;
      && e.ts == c.stamp && e.id == c.id && e.prevHash == a.prevHash && b.prevHash == e.hash
      && b.logs[0].content ==
           (if full then [] else a.logs[0].content) + (if c.writeOk then p.encode(e).value + [10] else [])
      && (c.writeOk || full ==> b.logs[0].mtime == c.now)
      && (!full ==> b.logs - {0} == a.logs - {0})
      && (!full && !c.writeOk ==> b.logs == a.logs)
  {
    RotatesExactlyAtLimit(a.logs, cfg.maxSizeMB, Retention(cfg.retention, c.cutoff), c.now);
  }

  // ---- Below the limit ----

  /** These events stay below the limit, or there is none. */
  ghost predicate BelowLimit(p: Primitives, cfg: Config, evs: seq<Event>) {
    Encodable(p, evs) && (cfg.maxSizeMB <= 0 || |Content(p, evs)| < cfg.maxSizeMB * 0x10_0000)
  }

  /** audit.log is the only file, and holds exactly these events. */
  ghost predicate HoldsAll(p: Primitives, logs: Logs, hist: seq<Event>) {
    HasSlots(logs, 1) && Encodable(p, hist) && logs[0].content == Content(p, hist)
  }

  /** While the bytes written stay below the limit, or there is no limit, audit.log is the only
      file and holds everything. */
  lemma {:induction false} SmallLogIsWhole(p: Primitives, cfg: Config, a: Agent, start: int, ops: seq<Op>)
    requires FreshStart(p, a, start) && BelowLimit(p, cfg, Kept(p, cfg, a, ops))
    ensures HoldsAll(p, Run(p, cfg, a, ops).logs, Kept(p, cfg, a, ops))
  {
    if ops == [] {
      assert a.logs == map[0 := LogFile([], start)];
    } else {
      var n := |ops| - 1;
      KeptGrows(p, cfg, a, ops);
      SmallLogIsWhole(p, cfg, a, start, ops[..n]);
      if ops[n].LogCall? {
        CallOnSmallLog(p, cfg, Run(p, cfg, a, ops[..n]), Kept(p, cfg, a, ops[..n]), ops[n].call);
      } else {
        ReopenStep(p, cfg, a, ops);
      }
    }
  }

  lemma {:induction false} KeptEncodable(p: Primitives, cfg: Config, a: Agent, ops: seq<Op>)
    requires 0 in a.logs
    ensures Encodable(p, Kept(p, cfg, a, ops))
  {
    if ops != [] { KeptEncodable(p, cfg, a, ops[..|ops| - 1]); }
  }

  lemma KeptGrows(p: Primitives, cfg: Config, a: Agent, ops: seq<Op>)
    requires 0 in a.logs && ops != []
    ensures
      BelowLimit(p, cfg, Kept(p, cfg, a, ops)) ==> BelowLimit(p, cfg, Kept(p, cfg, a, ops[..|ops| - 1]))
  {
    var before, last := ops[..|ops| - 1], ops[|ops| - 1];
    var added := KeptBy(p, Run(p, cfg, a, before), last);
    KeptEncodable(p, cfg, a, before);
    ContentConcat(p, Kept(p, cfg, a, before), added);
  }

  lemma CallOnSmallLog(p: Primitives, cfg: Config, a: Agent, hist: seq<Event>, c: Call)
    requires HoldsAll(p, a.logs, hist) && BelowLimit(p, cfg, hist)
    ensures HoldsAll(p, Step(p, cfg, a, LogCall(c)).logs, hist + KeptBy(p, a, LogCall(c)))
  {
    var e := SealedEvent(p, a.key, a.prevHash, c);
    RotatesExactlyAtLimit(a.logs, cfg.maxSizeMB, Retention(cfg.retention, c.cutoff), c.now);
    assert hist + [] == hist;
    if p.encode(e).Some? {
      ContentOfOne(p, e);
      ContentConcat(p, hist, [e]);
      var line := p.encode(e).value;
      assert Content(p, hist) + (line + [NEWLINE]) == Content(p, hist) + line + [NEWLINE];
    }
  }

  // ---- Past the limit ----

  /** Every numbered file was full when it was moved. */
  ghost predicate FullFiles(logs: Logs, maxSizeMB: int) {
    forall s: nat :: 0 < s && s in logs ==> 0 < maxSizeMB && |logs[s].content| >= maxSizeMB * 0x10_0000
  }

  lemma FullSegments(p: Primitives, logs: Logs, segs: seq<seq<Event>>, hist: seq<Event>, clock: int, maxSizeMB: int)
    requires OnDisk(p, logs, segs, hist, clock) && FullFiles(logs, maxSizeMB) && NeedsRotation(logs, maxSizeMB)
    ensures forall s: nat :: s < |segs| ==> segs[s] != []
  {
    forall s: nat | s < |segs|
      ensures segs[s] != []
    {
      assert Holds(p, logs, segs, s);
      assert |logs[s].content| > 0;
    }
  }

  lemma {:induction false} ArchiveShrinks(segs: seq<seq<Event>>, m: nat)
    requires m < |segs| && forall s: nat :: s < |segs| ==> segs[s] != []
    ensures |Archive(segs[..m])| < |Archive(segs)|
  {
    if m > 0 {
      assert segs[..m][1..] == segs[1..][..m - 1];
      ArchiveShrinks(segs[1..], m - 1);
    }
  }

  lemma RotateRetention(p: Primitives, logs: Logs, segs: seq<seq<Event>>, hist: seq<Event>,
                        maxSizeMB: int, keep: Retention, now: int) returns (after: seq<seq<Event>>)
    requires OnDisk(p, logs, segs, hist, now) && FullFiles(logs, maxSizeMB)
    ensures OnDisk(p, Rotated(logs, maxSizeMB, keep, now), after, hist, now)
    ensures FullFiles(Rotated(logs, maxSizeMB, keep, now), maxSizeMB)
    ensures Archive(after) == hist <==>
      Archive(segs) == hist && !LosesFile(logs, maxSizeMB, keep.enabled, keep.cutoff)
    ensures !keep.enabled ==>
      |segs| <= |after| && (LosesFile(logs, maxSizeMB, keep.enabled, keep.cutoff) ==> |after| == 6)
  {
    after := segs;
    if NeedsRotation(logs, maxSizeMB) {
      var m := RotateSegments(p, logs, segs, hist, maxSizeMB, keep, now);
      after := [[]] + segs[..m];
      SegmentsLost(p, logs, segs, hist, maxSizeMB, keep, now, m);
      RotatedFull(logs, |segs|, maxSizeMB, keep, now);
    }
  }

  lemma RotatedFull(logs: Logs, n: nat, maxSizeMB: int, keep: Retention, now: int)
    requires HasSlots(logs, n) && n <= LAST_SLOT + 1 && FullFiles(logs, maxSizeMB) && NeedsRotation(logs, maxSizeMB)
    ensures FullFiles(Rotated(logs, maxSizeMB, keep, now), maxSizeMB)
  {
    RotatedSlots(logs, n, maxSizeMB, keep, now);
  }

  /** Of n segments a rotation keeps m: all exactly when it loses no file. */
  lemma SegmentsLost(p: Primitives, logs: Logs, segs: seq<seq<Event>>, hist: seq<Event>,
                     maxSizeMB: int, keep: Retention, now: int, m: nat)
    requires OnDisk(p, logs, segs, hist, now) && FullFiles(logs, maxSizeMB) && NeedsRotation(logs, maxSizeMB)
    requires m <= |segs| && HasSlots(Rotated(logs, maxSizeMB, keep, now), m + 1)
    ensures m == |segs| <==> !LosesFile(logs, maxSizeMB, keep.enabled, keep.cutoff)
    ensures !keep.enabled && |segs| == 6 ==> m == 5
    ensures Archive([[]] + segs[..m]) == hist <==> Archive(segs) == hist && m == |segs|
  {
    var n, rotated := |segs|, Rotated(logs, maxSizeMB, keep, now);
    LosesFileExactlyWhen(logs, n, maxSizeMB, keep, now);
    SlotsUnique(rotated, m + 1, n + 1);
    SlotsUnique(rotated, m + 1, n);
    FullSegments(p, logs, segs, hist, now, maxSizeMB);
    ArchiveKept(segs, hist, m);
  }

  lemma ArchiveKept(segs: seq<seq<Event>>, hist: seq<Event>, m: nat)
    requires m <= |segs| && IsSuffix(Archive(segs), hist) && forall s: nat :: s < |segs| ==> segs[s] != []
    ensures Archive([[]] + segs[..m]) == hist <==> Archive(segs) == hist && m == |segs|
  {
    assert ([[]] + segs[..m])[1..] == segs[..m];
    assert Archive([[]] + segs[..m]) == Archive(segs[..m]) + [];
    if m < |segs| {
      ArchiveShrinks(segs, m);
    } else {
      assert segs[..m] == segs;
    }
  }

  lemma SlotsUnique(logs: Logs, n: nat, m: nat)
    requires HasSlots(logs, n)
    ensures HasSlots(logs, m) <==> n == m
  {
    if n < m { assert n !in logs; }
    if m < n { assert m in logs; }
  }

  /** The call rotates and thereby loses a file. */
  predicate Drops(p: Primitives, cfg: Config, a: Agent, op: Op)
    requires 0 in a.logs
  {
    && op.LogCall? && p.encode(SealedEvent(p, a.key, a.prevHash, op.call)).Some?
    && LosesFile(a.logs, cfg.maxSizeMB, cfg.retention, op.call.cutoff)
  }

  lemma StepRetention(p: Primitives, cfg: Config, a: Agent, segs: seq<seq<Event>>, hist: seq<Event>,
                      clock: int, op: Op) returns (after: seq<seq<Event>>)
    requires 0 in a.logs && OnDisk(p, a.logs, segs, hist, clock) && clock <= op.Now()
    requires FullFiles(a.logs, cfg.maxSizeMB)
    ensures OnDisk(p, Step(p, cfg, a, op).logs, after, hist + KeptBy(p, a, op), op.Now())
    ensures FullFiles(Step(p, cfg, a, op).logs, cfg.maxSizeMB)
    ensures Archive(after) == hist + KeptBy(p, a, op) <==> Archive(segs) == hist && !Drops(p, cfg, a, op)
    ensures !cfg.retention ==> |segs| <= |after| && (Drops(p, cfg, a, op) ==> |after| == 6)
  {
    ReopenOnDisk(p, a.logs, segs, hist, clock, op.Now());
    assert hist + [] == hist;
    if op.LogCall? && p.encode(SealedEvent(p, a.key, a.prevHash, op.call)).Some? {
      var keep := Retention(cfg.retention, op.call.cutoff);
      after := RotateRetention(p, a.logs, segs, hist, cfg.maxSizeMB, keep, op.call.now);
      after := WriteRetention(p, Rotated(a.logs, cfg.maxSizeMB, keep, op.call.now), after, hist,
                              SealedEvent(p, a.key, a.prevHash, op.call), op.call, cfg.maxSizeMB);
    } else {
      after := segs;
    }
  }

  /** The write after the rotation, if it succeeds. */
  lemma WriteRetention(p: Primitives, logs: Logs, segs: seq<seq<Event>>, hist: seq<Event>, e: Event, c: Call,
                       maxSizeMB: int) returns (after: seq<seq<Event>>)
    requires OnDisk(p, logs, segs, hist, c.now) && FullFiles(logs, maxSizeMB) && p.encode(e).Some?
    ensures
      var written := if c.writeOk then AppendLine(logs, p.encode(e).value, c.now) else logs;
      var more := if c.writeOk then hist + [e] else hist;
      && OnDisk(p, written, after, more, c.now) && FullFiles(written, maxSizeMB)
      && |after| == |segs| && (Archive(after) == more <==> Archive(segs) == hist)
  {
    after := segs;
    if c.writeOk {
      AppendOnDisk(p, logs, segs, hist, e, c.now);
      AppendWhole(segs, hist, e);
      after := segs[0 := segs[0] + [e]];
    }
  }

  lemma AppendWhole(segs: seq<seq<Event>>, hist: seq<Event>, e: Event)
    requires segs != []
    ensures Archive(segs[0 := segs[0] + [e]]) == hist + [e] <==> Archive(segs) == hist
  {
    var after := segs[0 := segs[0] + [e]];
    assert after[1..] == segs[1..];
    assert Archive(after) == Archive(segs) + [e];
    if Archive(after) == hist + [e] {
      assert Archive(segs) == Archive(after)[..|Archive(after)| - 1] == hist;
    }
  }

  ghost predicate DropsAt(p: Primitives, cfg: Config, a: Agent, ops: seq<Op>, i: nat)
    requires 0 in a.logs && i < |ops|
  {
    Drops(p, cfg, Run(p, cfg, a, ops[..i]), ops[i])
  }

  /** No call of the run loses a file. */
  ghost predicate NeverDrops(p: Primitives, cfg: Config, a: Agent, ops: seq<Op>)
    requires 0 in a.logs
  {
    forall i :: 0 <= i < |ops| ==> !DropsAt(p, cfg, a, ops, i)
  }

  lemma NeverDropsSnoc(p: Primitives, cfg: Config, a: Agent, ops: seq<Op>)
    requires 0 in a.logs && ops != []
    ensures
      var n := |ops| - 1;
      NeverDrops(p, cfg, a, ops) <==> NeverDrops(p, cfg, a, ops[..n]) && !DropsAt(p, cfg, a, ops, n)
  {
    var n := |ops| - 1;
    forall i: nat | i < n
      ensures DropsAt(p, cfg, a, ops[..n], i) <==> DropsAt(p, cfg, a, ops, i)
    {
      assert ops[..n][..i] == ops[..i];
    }
  }

  ghost predicate Retained(p: Primitives, cfg: Config, b: Agent, segs: seq<seq<Event>>, hist: seq<Event>,
                           clock: int, never: bool) {
    && OnDisk(p, b.logs, segs, hist, clock)
    && FullFiles(b.logs, cfg.maxSizeMB)
    && (Archive(segs) == hist <==> never)
    && (!cfg.retention && !never ==> |segs| == 6)
  }

  lemma FreshRetained(p: Primitives, cfg: Config, a: Agent, start: int)
    requires FreshStart(p, a, start)
    ensures Retained(p, cfg, a, [[]], [], start, true)
  {
    FreshOnDisk(p, a, start);
    assert a.logs == map[0 := LogFile([], start)];
    assert Archive([[]]) == Archive([[]][1..]) + [];
  }

  lemma StepRetained(p: Primitives, cfg: Config, a: Agent, segs: seq<seq<Event>>, hist: seq<Event>,
                     clock: int, never: bool, op: Op) returns (after: seq<seq<Event>>)
    requires 0 in a.logs && Retained(p, cfg, a, segs, hist, clock, never) && clock <= op.Now()
    ensures Retained(p, cfg, Step(p, cfg, a, op), after, hist + KeptBy(p, a, op), op.Now(),
                     never && !Drops(p, cfg, a, op))
  {
    after := StepRetention(p, cfg, a, segs, hist, clock, op);
  }

  lemma {:induction false} RunRetention(p: Primitives, cfg: Config, a: Agent, start: int, ops: seq<Op>)
    returns (segs: seq<seq<Event>>)
    requires FreshStart(p, a, start) && Monotone(start, ops)
    ensures Retained(p, cfg, Run(p, cfg, a, ops), segs, Kept(p, cfg, a, ops), LastTime(start, ops),
                     NeverDrops(p, cfg, a, ops))
  {
    if ops == [] {
      FreshRetained(p, cfg, a, start);
      segs := [[]];
    } else {
      MonotonePrefix(start, ops);
      segs := RunRetention(p, cfg, a, start, ops[..|ops| - 1]);
      segs := RunRetentionStep(p, cfg, a, start, ops, segs);
    }
  }

  lemma RunRetentionStep(p: Primitives, cfg: Config, a: Agent, start: int, ops: seq<Op>, segs: seq<seq<Event>>)
    returns (after: seq<seq<Event>>)
    requires 0 in a.logs && ops != [] && LastTime(start, ops[..|ops| - 1]) <= ops[|ops| - 1].Now()
    requires
      var before := ops[..|ops| - 1];
      Retained(p, cfg, Run(p, cfg, a, before), segs, Kept(p, cfg, a, before), LastTime(start, before),
               NeverDrops(p, cfg, a, before))
    ensures Retained(p, cfg, Run(p, cfg, a, ops), after, Kept(p, cfg, a, ops), ops[|ops| - 1].Now(),
                     NeverDrops(p, cfg, a, ops))
  {
    var before, last := ops[..|ops| - 1], ops[|ops| - 1];
    after := StepRetained(p, cfg, Run(p, cfg, a, before), segs, Kept(p, cfg, a, before),
                          LastTime(start, before), NeverDrops(p, cfg, a, before), last);
    NeverDropsSnoc(p, cfg, a, ops);
  }

  /** After any run, whatever else is lost: the files hold everything ever written exactly when no
      rotation found a file in slot 5 or, with retention on, one older than its cutoff. Every
      numbered file is at least as large as the limit; so without retention, once anything was
      dropped, five full files remain behind audit.log. */
  lemma WholeHistoryExactlyWhen(p: Primitives, cfg: Config, a: Agent, start: int, ops: seq<Op>) returns (n: nat)
    requires p.Sound() && FreshStart(p, a, start) && Monotone(start, ops)
    ensures
      var logs, hist := Run(p, cfg, a, ops).logs, Kept(p, cfg, a, ops);
      && 1 <= n <= 6 && HasSlots(logs, n) && Readable(p, logs, n)
      && (ArchiveEvents(p, logs, n) == hist <==> NeverDrops(p, cfg, a, ops))
      && (forall s: nat :: 0 < s < n ==> |logs[s].content| >= cfg.maxSizeMB * 0x10_0000)
      && (!cfg.retention ==> ArchiveEvents(p, logs, n) == hist || n == 6)
  {
    var segs := RunRetention(p, cfg, a, start, ops);
    n := |segs|;
    ArchiveReadBack(p, Run(p, cfg, a, ops).logs, segs, n);
    assert segs[..n] == segs;
  }

  // ---- An agent from its first start to the verifier's report ----

  function Calls(calls: seq<Call>): (ops: seq<Op>)
    ensures |ops| == |calls| && forall i :: 0 <= i < |ops| ==> ops[i] == LogCall(calls[i])
  {
    seq(|calls|, i requires 0 <= i < |calls| => LogCall(calls[i]))
  }

  /** The report on a file that holds exactly these events, all of ordinary length. */
  lemma WrittenReport(p: Primitives, key: seq<byte>, evs: seq<Event>, r: VerifyResult, file: seq<byte>)
    requires p.Sound() && OrdinaryLines(p, evs) && file == Content(p, evs)
    requires IsReport(p, key, Scanned(Lines(file)).tokens, r)
    ensures !Scanned(Lines(file)).tooLong && r.total == |evs|
    ensures r.broken == 0 && r.invalid == 0 <==> Chain(p, key, GENESIS, evs)
  {
    FileTokens(p, evs);
    AllDelivered(Encoded(p, evs));
    assert evs[..|evs|] == evs;
    EncodedDecode(p, evs);
    CleanReport(p, key, Encoded(p, evs), r);
  }

  lemma {:induction false} KeptAtMostAll(p: Primitives, cfg: Config, a: Agent, ops: seq<Op>)
    requires 0 in a.logs
    ensures |Kept(p, cfg, a, ops)| <= |ops|
    ensures |Kept(p, cfg, a, ops)| == |ops| ==> Lossless(p, cfg, a, ops)
  {
    if ops != [] {
      KeptAtMostAll(p, cfg, a, ops[..|ops| - 1]);
      LosslessSnoc(p, cfg, a, ops);
    }
  }

  lemma {:induction false} LosslessCallsChain(p: Primitives, cfg: Config, a: Agent, ops: seq<Op>)
    requires 0 in a.logs && a.prevHash == GENESIS && Lossless(p, cfg, a, ops)
    requires forall i :: 0 <= i < |ops| ==> ops[i].LogCall?
    ensures Run(p, cfg, a, ops).key == a.key
    ensures OneChain(p, Run(p, cfg, a, ops), Kept(p, cfg, a, ops))
  {
    if ops != [] {
      var n := |ops| - 1;
      LosslessSnoc(p, cfg, a, ops);
      LosslessCallsChain(p, cfg, a, ops[..n]);
      CallKeepsOneChain(p, cfg, Run(p, cfg, a, ops[..n]), Kept(p, cfg, a, ops[..n]), ops[n].call);
    }
  }

  method StartAndLog(p: Primitives, cfg: Config, random: seq<byte>, start: int, calls: seq<Call>)
    returns (logger: FileLogger, ghost a: Agent)
    requires |random| == 32
    ensures fresh(logger) && logger.Valid() && logger.hmacKey == random
    ensures FreshStart(p, a, start) && a.key == random
    ensures logger.State() == Run(p, cfg, a, Calls(calls))
  {
    var dir := new LogDir();
    logger := new FileLogger(p, cfg, dir, random, start);
    a := logger.State();
    ghost var ops := Calls(calls);
    for i := 0 to |calls|
      invariant logger.Valid() && fresh(logger) && fresh(dir)
      invariant logger.p == p && logger.cfg == cfg && logger.dir == dir && logger.hmacKey == random
      invariant logger.State() == Run(p, cfg, a, ops[..i])
    {
      assert ops[..i + 1][..i] == ops[..i];
      logger.Log(calls[i]);
    }
    assert ops[..|calls|] == ops;
  }

  lemma SmallLogReport(p: Primitives, cfg: Config, a: Agent, start: int, calls: seq<Call>, r: VerifyResult)
    requires p.Sound() && FreshStart(p, a, start)
    requires BelowLimit(p, cfg, Kept(p, cfg, a, Calls(calls))) && OrdinaryLines(p, Kept(p, cfg, a, Calls(calls)))
    requires IsReport(p, a.key, Scanned(Lines(Run(p, cfg, a, Calls(calls)).logs[0].content)).tokens, r)
    ensures
      var hist := Kept(p, cfg, a, Calls(calls));
      && !Scanned(Lines(Run(p, cfg, a, Calls(calls)).logs[0].content)).tooLong
      && r.total == |hist| && (|hist| == |calls| ==> r.broken == 0 && r.invalid == 0 && r.valid == |calls|)
  {
    var ops := Calls(calls);
    var hist := Kept(p, cfg, a, ops);
    SmallLogIsWhole(p, cfg, a, start, ops);
    WrittenReport(p, a.key, hist, r, Run(p, cfg, a, ops).logs[0].content);
    if |hist| == |calls| {
      AllKeptIsChain(p, cfg, a, start, ops);
    }
  }

  lemma AllKeptIsChain(p: Primitives, cfg: Config, a: Agent, start: int, ops: seq<Op>)
    requires FreshStart(p, a, start) && forall i :: 0 <= i < |ops| ==> ops[i].LogCall?
    requires |Kept(p, cfg, a, ops)| == |ops|
    ensures Chain(p, a.key, GENESIS, Kept(p, cfg, a, ops))
  {
    KeptAtMostAll(p, cfg, a, ops);
    FreshOnDisk(p, a, start);
    LosslessCallsChain(p, cfg, a, ops);
  }

  /** Started on an empty directory with a fresh 32-byte key, used for some calls, then verified
      with the key on disk: as long as audit.log stays below its limit and every line below one MiB,
      the report counts every event written, and finds nothing wrong if all were. */
  method LogAndVerify(p: Primitives, cfg: Config, random: seq<byte>, start: int, calls: seq<Call>)
    returns (v: Verification, ghost hist: seq<Event>)
    requires p.Sound() && |random| == 32
    ensures v.Report? && |hist| <= |calls|
    ensures exists a :: FreshStart(p, a, start) && a.key == random && hist == Kept(p, cfg, a, Calls(calls))
    ensures BelowLimit(p, cfg, hist) && OrdinaryLines(p, hist) ==>
      && !v.tooLong && v.result.total == |hist|
      && (|hist| == |calls| ==> v.result.broken == 0 && v.result.invalid == 0 && v.result.valid == |calls|)
  {
    ghost var a;
    var logger;
    logger, a := StartAndLog(p, cfg, random, start, calls);
    hist := Kept(p, cfg, a, Calls(calls));
    KeptAtMostAll(p, cfg, a, Calls(calls));
    v := VerifyLog(p, logger.dir.keyFile, Some(logger.dir.logs[0].content));
    if BelowLimit(p, cfg, hist) && OrdinaryLines(p, hist) {
      SmallLogReport(p, cfg, a, start, calls, v.result);
    }
  }
}
