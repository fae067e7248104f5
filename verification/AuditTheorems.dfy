/** The main results about the audit log, stated on the files that a run leaves behind. */
module AuditTheorems {
  import opened Wrappers
  import opened AuditEvent
  import opened LogLines
  import opened AuditChain
  import opened AuditVerify
  import opened AuditTamper
  import opened AuditRotation
  import opened AuditLogger
  import opened AuditHistory

  // ---- Reading the files back ----

  ghost predicate Readable(p: Primitives, logs: Logs, n: nat) {
    forall s: nat :: s < n ==> s in logs && AllDecode(p, Lines(logs[s].content))
  }

  /** audit.log.(n-1), ..., audit.log.1, audit.log, decoded and concatenated. */
  ghost function ArchiveEvents(p: Primitives, logs: Logs, n: nat): seq<Event>
    requires Readable(p, logs, n)
  {
    if n == 0 then []
    else DecodedAll(p, Lines(logs[n - 1].content)) + ArchiveEvents(p, logs, n - 1)
  }

  lemma {:induction false} ArchiveOldestFirst(segs: seq<seq<Event>>, oldest: seq<Event>)
    ensures Archive(segs + [oldest]) == oldest + Archive(segs)
  {
    if segs == [] {
      assert Archive([oldest]) == Archive([oldest][1..]) + oldest;
    } else {
      assert (segs + [oldest])[1..] == segs[1..] + [oldest];
      ArchiveOldestFirst(segs[1..], oldest);
    }
  }

  lemma ArchivePrefix(segs: seq<seq<Event>>, n: nat)
    requires 0 < n <= |segs|
    ensures Archive(segs[..n]) == segs[n - 1] + Archive(segs[..n - 1])
  {
    assert segs[..n] == segs[..n - 1] + [segs[n - 1]];
    ArchiveOldestFirst(segs[..n - 1], segs[n - 1]);
  }

  lemma SegmentReadBack(p: Primitives, logs: Logs, segs: seq<seq<Event>>, s: nat)
    requires p.Sound() && HasSlots(logs, |segs|) && s < |segs| && Holds(p, logs, segs, s)
    ensures s in logs && AllDecode(p, Lines(logs[s].content))
    ensures DecodedAll(p, Lines(logs[s].content)) == segs[s]
  {
    ContentLines(p, segs[s]);
    EncodedDecode(p, segs[s]);
  }

  lemma ReadableSnoc(p: Primitives, logs: Logs, n: nat)
    requires Readable(p, logs, n) && n in logs && AllDecode(p, Lines(logs[n].content))
    ensures Readable(p, logs, n + 1)
    ensures ArchiveEvents(p, logs, n + 1) == DecodedAll(p, Lines(logs[n].content)) + ArchiveEvents(p, logs, n)
  {}

  lemma {:induction false} ArchiveReadBack(p: Primitives, logs: Logs, segs: seq<seq<Event>>, n: nat)
    requires p.Sound() && HasSlots(logs, |segs|) && n <= |segs|
    requires forall s: nat :: s < |segs| ==> Holds(p, logs, segs, s)
    ensures Readable(p, logs, n)
    ensures ArchiveEvents(p, logs, n) == Archive(segs[..n])
  {
    if n > 0 {
      ArchiveReadBack(p, logs, segs, n - 1);
      SegmentReadBack(p, logs, segs, n - 1);
      ReadableSnoc(p, logs, n - 1);
      ArchivePrefix(segs, n);
    }
  }

  lemma FilesReadBack(p: Primitives, cfg: Config, a: Agent, start: int, ops: seq<Op>) returns (n: nat)
    requires p.Sound() && FreshStart(p, a, start) && Monotone(start, ops)
    ensures
      var logs := Run(p, cfg, a, ops).logs;
      && 1 <= n <= 6 && HasSlots(logs, n) && Readable(p, logs, n)
      && IsSuffix(ArchiveEvents(p, logs, n), Kept(p, cfg, a, ops))
  {
    var segs := RunOnDisk(p, cfg, a, start, ops);
    n := |segs|;
    ArchiveReadBack(p, Run(p, cfg, a, ops).logs, segs, n);
    assert segs[..n] == segs;
  }

  /** From an empty directory, through any mix of logging, lost writes, rotation, age purge and
      reopening: the numbered files, read oldest first, are exactly the last part of the events
      written. When nothing is lost these are one MAC-correct chain from "genesis", also across
      file boundaries and restarts, with the tip in memory, exactly when every restart resumed. */
  lemma HistoryOnDisk(p: Primitives, cfg: Config, a: Agent, start: int, ops: seq<Op>) returns (n: nat)
    requires p.Sound() && FreshStart(p, a, start) && Monotone(start, ops)
    ensures
      var b, hist := Run(p, cfg, a, ops), Kept(p, cfg, a, ops);
      && 1 <= n <= 6 && HasSlots(b.logs, n)
      && Readable(p, b.logs, n)
      && IsSuffix(ArchiveEvents(p, b.logs, n), hist)
      && b.key == a.key
      && (Lossless(p, cfg, a, ops) ==> (OneChain(p, b, hist) <==> AllResume(p, cfg, a, ops)))
  {
    n := FilesReadBack(p, cfg, a, start, ops);
    KeptSealed(p, cfg, a, ops);
    if Lossless(p, cfg, a, ops) {
      RunResumable(p, cfg, a, start, ops);
    }
  }

  // ---- What VerifyLog says of each file ----

  lemma {:induction false} SegmentIsStretch(segs: seq<seq<Event>>, hist: seq<Event>, s: nat)
    returns (from: nat, to: nat)
    requires IsSuffix(Archive(segs), hist) && s < |segs|
    ensures from <= to <= |hist| && hist[from..to] == segs[s]
  {
    var archive := Archive(segs);
    var offset := |hist| - |archive|;
    assert hist[offset..] == archive == Archive(segs[1..]) + segs[0];
    if s == 0 {
      from, to := |hist| - |segs[0]|, |hist|;
      assert hist[from..to] == archive[|archive| - |segs[0]|..];
    } else {
      var older := hist[..|hist| - |segs[0]|];
      assert older[|older| - |Archive(segs[1..])|..] == Archive(segs[1..]);
      from, to := SegmentIsStretch(segs[1..], older, s - 1);
      assert hist[from..to] == older[from..to];
    }
  }

  /** The lines of a file reach the verifier as written, up to the first one that is too long for
      its scanner. */
  lemma FileTokens(p: Primitives, evs: seq<Event>)
    requires p.Sound() && Encodable(p, evs)
    ensures
      var m := Delivered(Encoded(p, evs));
      && Encoded(p, evs[..m]) == Encoded(p, evs)[..m]
      && Scanned(Lines(Content(p, evs))) == Scan(Encoded(p, evs[..m]), m < |evs|)
  {
    ContentLines(p, evs);
    forall i | 0 <= i < |evs|
      ensures IsPlain(Encoded(p, evs)[i])
    {
      assert p.IsLineOf(evs[i], p.encode(evs[i]).value);
    }
    ScannedPlain(Encoded(p, evs));
    var m := Delivered(Encoded(p, evs));
    assert Encoded(p, evs[..m]) == Encoded(p, evs)[..m];
  }

  /** No line reaches one MiB. */
  ghost predicate OrdinaryLines(p: Primitives, evs: seq<Event>) {
    forall i :: 0 <= i < |evs| ==> p.encode(evs[i]).Some? && |p.encode(evs[i]).value| < 0x10_0000
  }

  lemma OrdinaryLinesDelivered(p: Primitives, evs: seq<Event>)
    requires OrdinaryLines(p, evs)
    ensures Encodable(p, evs) && Delivered(Encoded(p, evs)) == |evs|
  {
    AllDelivered(Encoded(p, evs));
  }

  /** Each file of a run is a stretch of what was written. */
  lemma FileIsStretch(p: Primitives, logs: Logs, segs: seq<seq<Event>>, hist: seq<Event>, clock: int, slot: nat)
    returns (from: nat, to: nat)
    requires OnDisk(p, logs, segs, hist, clock) && slot in logs
    ensures from <= to <= |hist| && Encodable(p, hist[from..to])
    ensures logs[slot].content == Content(p, hist[from..to])
  {
    assert Holds(p, logs, segs, slot);
    from, to := SegmentIsStretch(segs, hist, slot);
  }

  /** After such a run each file, verified on its own, has valid MACs throughout and at most one
      break: its first event, when older events exist. The chain is carried over a rotation, so
      the break in a rotated-in file is there although nothing was tampered with. */
  lemma EachFileReport(p: Primitives, cfg: Config, a: Agent, start: int, ops: seq<Op>, slot: nat, r: VerifyResult)
    returns (from: nat, to: nat)
    requires p.Sound() && FreshStart(p, a, start) && Monotone(start, ops)
    requires Lossless(p, cfg, a, ops) && AllResume(p, cfg, a, ops)
    requires DistinctIds(Kept(p, cfg, a, ops)) && p.CollisionFree(a.key, Inputs(Kept(p, cfg, a, ops)))
    requires slot in Run(p, cfg, a, ops).logs
    requires IsReport(p, a.key, Scanned(Lines(Run(p, cfg, a, ops).logs[slot].content)).tokens, r)
    ensures from <= to <= |Kept(p, cfg, a, ops)|
    ensures Encodable(p, Kept(p, cfg, a, ops)[from..to])
    ensures Run(p, cfg, a, ops).logs[slot].content == Content(p, Kept(p, cfg, a, ops)[from..to])
    ensures r.total == r.valid == Delivered(Encoded(p, Kept(p, cfg, a, ops)[from..to])) && r.invalid == 0
    ensures r.broken == r.firstBreak == if from == 0 || r.total == 0 then 0 else 1
  {
    var hist := Kept(p, cfg, a, ops);
    var segs := RunOnDisk(p, cfg, a, start, ops);
    KeptSealed(p, cfg, a, ops);
    RunResumable(p, cfg, a, start, ops);
    from, to := FileIsStretch(p, Run(p, cfg, a, ops).logs, segs, hist, LastTime(start, ops), slot);
    ChainFileReport(p, a.key, hist, from, to, Run(p, cfg, a, ops).logs[slot].content, r);
  }

  lemma StretchTokens(p: Primitives, evs: seq<Event>, from: nat, to: nat)
    requires p.Sound() && from <= to <= |evs| && Encodable(p, evs[from..to])
    ensures
      var m := Delivered(Encoded(p, evs[from..to]));
      && from + m <= to && Encodable(p, evs[from..from + m])
      && Scanned(Lines(Content(p, evs[from..to]))).tokens == Encoded(p, evs[from..from + m])
  {
    var m := Delivered(Encoded(p, evs[from..to]));
    FileTokens(p, evs[from..to]);
    assert evs[from..to][..m] == evs[from..from + m];
  }

  lemma ChainFileReport(p: Primitives, key: seq<byte>, chain: seq<Event>, from: nat, to: nat, file: seq<byte>,
                        r: VerifyResult)
    requires p.Sound() && Chain(p, key, GENESIS, chain)
    requires DistinctIds(chain) && p.CollisionFree(key, Inputs(chain))
    requires from <= to <= |chain| && Encodable(p, chain[from..to]) && file == Content(p, chain[from..to])
    requires IsReport(p, key, Scanned(Lines(file)).tokens, r)
    ensures r.total == r.valid == Delivered(Encoded(p, chain[from..to])) && r.invalid == 0
    ensures r.broken == r.firstBreak == if from == 0 || r.total == 0 then 0 else 1
  {
    StretchTokens(p, chain, from, to);
    StretchReport(p, key, chain, from, from + Delivered(Encoded(p, chain[from..to])), r);
  }

  // ---- Space ----

  /** At most six files, each below the limit plus one line. */
  ghost predicate WithinLimits(logs: Logs, maxBytes: int, longest: nat) {
    forall s: nat :: s in logs ==> s <= LAST_SLOT && |logs[s].content| < maxBytes + longest
  }

  /** No line, with its newline, is longer than `longest`. */
  ghost predicate LinesAtMost(p: Primitives, cfg: Config, a: Agent, ops: seq<Op>, longest: nat)
    requires 0 in a.logs
  {
    forall i :: 0 <= i < |ops| && ops[i].LogCall? ==> LineAtMost(p, Run(p, cfg, a, ops[..i]), ops[i].call, longest)
  }

  ghost predicate LineAtMost(p: Primitives, a: Agent, c: Call, longest: nat) {
    var line := p.encode(SealedEvent(p, a.key, a.prevHash, c));
    line.Some? ==> |line.value| + 1 <= longest
  }

  lemma StepWithinLimits(p: Primitives, cfg: Config, a: Agent, op: Op, longest: nat)
    requires 0 in a.logs && cfg.maxSizeMB > 0 && longest > 0
    requires WithinLimits(a.logs, MaxBytes(cfg.maxSizeMB), longest)
    requires op.LogCall? ==> LineAtMost(p, a, op.call, longest)
    ensures WithinLimits(Step(p, cfg, a, op).logs, MaxBytes(cfg.maxSizeMB), longest)
  {
    var maxBytes := MaxBytes(cfg.maxSizeMB);
    assert maxBytes > 0;
    if op.LogCall? {
      var keep := Retention(cfg.retention, op.call.cutoff);
      var shifted := Shifted(a.logs);
      assert forall s: nat :: s in shifted ==> s <= LAST_SLOT && |shifted[s].content| < maxBytes + longest;
      var logs := Rotated(a.logs, cfg.maxSizeMB, keep, op.call.now);
      assert WithinLimits(logs, maxBytes, longest);
      assert |logs[0].content| < maxBytes;
    }
  }

  /** In every reachable state, whatever the clock does and whatever fails. */
  lemma {:induction false} RunWithinLimits(p: Primitives, cfg: Config, a: Agent, start: int, ops: seq<Op>, longest: nat)
    requires FreshStart(p, a, start) && cfg.maxSizeMB > 0 && longest > 0
    requires LinesAtMost(p, cfg, a, ops, longest)
    ensures WithinLimits(Run(p, cfg, a, ops).logs, MaxBytes(cfg.maxSizeMB), longest)
    ensures |Run(p, cfg, a, ops).logs.Keys| <= 6
  {
    if ops == [] {
      assert a.logs == map[0 := LogFile([], start)];
    } else {
      var n := |ops| - 1;
      var before := ops[..n];
      forall i | 0 <= i < n && before[i].LogCall?
        ensures LineAtMost(p, Run(p, cfg, a, before[..i]), before[i].call, longest)
      {
        assert before[..i] == ops[..i];
      }
      RunWithinLimits(p, cfg, a, start, before, longest);
      StepWithinLimits(p, cfg, Run(p, cfg, a, before), ops[n], longest);
    }
    SlotCount(Run(p, cfg, a, ops).logs.Keys, 6);
  }

  lemma {:induction false} SlotCount(slots: set<nat>, n: nat)
    requires forall s :: s in slots ==> s < n
    ensures |slots| <= n
  {
    if n > 0 {
      SlotCount(slots - {n - 1}, n - 1);
    }
  }
}
