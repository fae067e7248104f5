/** Runs in which writes are lost and the agent restarts, in any mixture: what each sealed event
    links to, and which breaks the verifier then reports of each file. */
module AuditLosses {
  import opened Wrappers
  import opened AuditEvent
  import opened LogLines
  import opened AuditChain
  import opened AuditVerify
  import opened AuditTamper
  import opened AuditLogger
  import opened AuditHistory
  import opened AuditTheorems

  /** All events sealed in a run, whether or not they reached the disk. */
  function SealedAll(p: Primitives, cfg: Config, a: Agent, ops: seq<Op>): seq<Event>
    requires 0 in a.logs
  {
    if ops == [] then []
    else
      var before := ops[..|ops| - 1];
      SealedAll(p, cfg, a, before) + SealedBy(p, Run(p, cfg, a, before), ops[|ops| - 1])
  }

  /** Which of them reached the disk. */
  function KeptPositions(p: Primitives, cfg: Config, a: Agent, ops: seq<Op>): seq<nat>
    requires 0 in a.logs
  {
    if ops == [] then []
    else
      var before := ops[..|ops| - 1];
      var kept := KeptBy(p, Run(p, cfg, a, before), ops[|ops| - 1]);
      KeptPositions(p, cfg, a, before) + if kept == [] then [] else [|SealedAll(p, cfg, a, before)|]
  }

  /** What a restart finds: "genesis", the last event written, or, when that line does not fit the
      window, whatever its tail decodes to. */
  function Found(p: Primitives, cfg: Config, a: Agent, ops: seq<Op>): Link
    requires 0 in a.logs
  {
    if Run(p, cfg, a, ops).logs[0].content == [] then ToGenesis
    else FoundAtEnd(p, Kept(p, cfg, a, ops), KeptPositions(p, cfg, a, ops))
  }

  function FoundAtEnd(p: Primitives, hist: seq<Event>, kept: seq<nat>): Link {
    if hist == [] || kept == [] then ToGenesis
    else
      var last := hist[|hist| - 1];
      if Survives(p, last) then ToEvent(kept[|kept| - 1])
      else if FoundHash(p, last) == GENESIS then ToGenesis
      else Stray(FoundHash(p, last))
  }

  lemma FoundAtEndHash(p: Primitives, sealed: seq<Event>, kept: seq<nat>)
    requires p.Sound() && IsSelection(kept, |sealed|) && kept != []
    requires var last := sealed[kept[|kept| - 1]]; p.encode(last).Some? && last.hash != GENESIS
    ensures
      var found := FoundAtEnd(p, Select(sealed, kept), kept);
      InRange(found, |sealed|) && HashOf(sealed, found) == FoundHash(p, sealed[kept[|kept| - 1]])
  {
    SurvivesMeaning(p, sealed[kept[|kept| - 1]]);
  }

  /** Where the hash in memory is from: the last event sealed by this process, or what its restart
      found. */
  function Memory(p: Primitives, cfg: Config, a: Agent, ops: seq<Op>): Link
    requires 0 in a.logs
  {
    if ops == [] then ToGenesis
    else
      var before := ops[..|ops| - 1];
      match ops[|ops| - 1]
      case LogCall(_) => ToEvent(|SealedAll(p, cfg, a, before)|)
      case Reopen(_, _) => Found(p, cfg, a, before)
  }

  /** What each sealed event links to. */
  function Links(p: Primitives, cfg: Config, a: Agent, ops: seq<Op>): (links: seq<Link>)
    requires 0 in a.logs
    ensures |links| == |SealedAll(p, cfg, a, ops)|
  {
    if ops == [] then []
    else
      var before := ops[..|ops| - 1];
      Links(p, cfg, a, before) + if ops[|ops| - 1].LogCall? then [Memory(p, cfg, a, before)] else []
  }

  lemma SelectionStep(evs: seq<Event>, kept: seq<nat>, e: Event)
    requires IsSelection(kept, |evs|)
    ensures IsSelection(kept, |evs + [e]|) && Select(evs + [e], kept) == Select(evs, kept)
    ensures IsSelection(kept + [|evs|], |evs + [e]|)
    ensures Select(evs + [e], kept + [|evs|]) == Select(evs, kept) + [e]
  {}

  lemma SelectSlice(evs: seq<Event>, kept: seq<nat>, from: nat, to: nat)
    requires IsSelection(kept, |evs|) && from <= to <= |kept|
    ensures IsSelection(kept[from..to], |evs|)
    ensures Select(evs, kept[from..to]) == Select(evs, kept)[from..to]
  {}

  /** What was written is a selection of what was sealed. */
  lemma {:induction false} KeptIsSelection(p: Primitives, cfg: Config, a: Agent, ops: seq<Op>)
    requires 0 in a.logs
    ensures IsSelection(KeptPositions(p, cfg, a, ops), |SealedAll(p, cfg, a, ops)|)
    ensures Select(SealedAll(p, cfg, a, ops), KeptPositions(p, cfg, a, ops)) == Kept(p, cfg, a, ops)
  {
    if ops != [] {
      var n := |ops| - 1;
      var before, op := ops[..n], ops[n];
      KeptIsSelection(p, cfg, a, before);
      if op.LogCall? {
        var mid := Run(p, cfg, a, before);
        SelectionStep(SealedAll(p, cfg, a, before), KeptPositions(p, cfg, a, before),
                      SealedEvent(p, mid.key, mid.prevHash, op.call));
      }
    }
  }

  lemma LinkedSnoc(p: Primitives, key: seq<byte>, evs: seq<Event>, links: seq<Link>, e: Event, at: Link)
    requires Linked(p, key, evs, links) && InRange(at, |evs|)
    requires p.Sealed(key, e) && e.prevHash == HashOf(evs, at)
    ensures Linked(p, key, evs + [e], links + [at])
  {
    var all := evs + [e];
    forall i: nat | i < |all|
      ensures LinkedTo(p, key, all, links + [at], i)
    {
      assert i < |evs| ==> LinkedTo(p, key, evs, links, i);
    }
  }

  /** The hash in memory is the one that Memory names. */
  ghost predicate InMemory(p: Primitives, cfg: Config, a: Agent, ops: seq<Op>)
    requires 0 in a.logs
  {
    var at, sealed := Memory(p, cfg, a, ops), SealedAll(p, cfg, a, ops);
    InRange(at, |sealed|) && Run(p, cfg, a, ops).prevHash == HashOf(sealed, at)
  }

  /** A restart takes its hash from what Found names. */
  lemma RestartFinds(p: Primitives, cfg: Config, a: Agent, start: int, ops: seq<Op>, random: seq<byte>, at: int)
    requires p.Sound() && FreshStart(p, a, start) && Monotone(start, ops)
    ensures
      var found, sealed := Found(p, cfg, a, ops), SealedAll(p, cfg, a, ops);
      && InRange(found, |sealed|)
      && Step(p, cfg, Run(p, cfg, a, ops), Reopen(random, at)).prevHash == HashOf(sealed, found)
  {
    var segs := RunOnDisk(p, cfg, a, start, ops);
    ReopenFindsNewest(p, Run(p, cfg, a, ops).logs, segs, Kept(p, cfg, a, ops), LastTime(start, ops));
    if Run(p, cfg, a, ops).logs[0].content != [] {
      KeptIsSelection(p, cfg, a, ops);
      KeptTip(p, cfg, a, ops);
      FoundAtEndHash(p, SealedAll(p, cfg, a, ops), KeptPositions(p, cfg, a, ops));
    }
  }

  /** In every run, whatever is lost and however often the agent restarts: each sealed event
      carries its MAC and links where Links says, and the hash in memory is the one that Memory
      names. */
  lemma {:induction false} RunLinked(p: Primitives, cfg: Config, a: Agent, start: int, ops: seq<Op>)
    requires p.Sound() && FreshStart(p, a, start) && Monotone(start, ops)
    ensures Linked(p, a.key, SealedAll(p, cfg, a, ops), Links(p, cfg, a, ops))
    ensures InMemory(p, cfg, a, ops)
    ensures Run(p, cfg, a, ops).key == a.key
  {
    if ops == [] {
      FreshOnDisk(p, a, start);
    } else {
      var n := |ops| - 1;
      var before, op := ops[..n], ops[n];
      MonotonePrefix(start, ops);
      RunLinked(p, cfg, a, start, before);
      if op.LogCall? {
        LinkedCall(p, cfg, a, ops);
      } else {
        RestartFinds(p, cfg, a, start, before, op.random, op.at);
        LinkedRestart(p, cfg, a, ops);
      }
    }
  }

  lemma LinkedCall(p: Primitives, cfg: Config, a: Agent, ops: seq<Op>)
    requires 0 in a.logs && ops != [] && ops[|ops| - 1].LogCall?
    requires
      var before := ops[..|ops| - 1];
      && Linked(p, a.key, SealedAll(p, cfg, a, before), Links(p, cfg, a, before))
      && InMemory(p, cfg, a, before)
      && Run(p, cfg, a, before).key == a.key
    ensures Linked(p, a.key, SealedAll(p, cfg, a, ops), Links(p, cfg, a, ops))
    ensures InMemory(p, cfg, a, ops)
    ensures Run(p, cfg, a, ops).key == a.key
  {
    var n := |ops| - 1;
    var before, c := ops[..n], ops[n].call;
    var mid := Run(p, cfg, a, before);
    SealedEventIsSealed(p, mid.key, mid.prevHash, c);
    LinkedSnoc(p, a.key, SealedAll(p, cfg, a, before), Links(p, cfg, a, before),
               SealedEvent(p, mid.key, mid.prevHash, c), Memory(p, cfg, a, before));
  }

  lemma LinkedRestart(p: Primitives, cfg: Config, a: Agent, ops: seq<Op>)
    requires 0 in a.logs && ops != [] && ops[|ops| - 1].Reopen?
    requires
      var before := ops[..|ops| - 1];
      var found, sealed := Found(p, cfg, a, before), SealedAll(p, cfg, a, before);
      && Linked(p, a.key, sealed, Links(p, cfg, a, before))
      && InRange(found, |sealed|)
      && Step(p, cfg, Run(p, cfg, a, before), ops[|ops| - 1]).prevHash == HashOf(sealed, found)
      && Run(p, cfg, a, before).key == a.key && |a.key| == KEY_SIZE
    ensures Linked(p, a.key, SealedAll(p, cfg, a, ops), Links(p, cfg, a, ops))
    ensures InMemory(p, cfg, a, ops)
    ensures Run(p, cfg, a, ops).key == a.key
  {
    var before := ops[..|ops| - 1];
    assert SealedAll(p, cfg, a, ops) == SealedAll(p, cfg, a, before);
    assert Links(p, cfg, a, ops) == Links(p, cfg, a, before);
  }

  /** Each file of any run is a selection of the sealed events. */
  lemma FileIsSelection(p: Primitives, cfg: Config, a: Agent, start: int, ops: seq<Op>, slot: nat)
    returns (kept: seq<nat>)
    requires FreshStart(p, a, start) && Monotone(start, ops)
    requires slot in Run(p, cfg, a, ops).logs
    ensures
      var sealed := SealedAll(p, cfg, a, ops);
      && IsSelection(kept, |sealed|)
      && Encodable(p, Select(sealed, kept))
      && Run(p, cfg, a, ops).logs[slot].content == Content(p, Select(sealed, kept))
  {
    var segs := RunOnDisk(p, cfg, a, start, ops);
    var hist, sealed := Kept(p, cfg, a, ops), SealedAll(p, cfg, a, ops);
    var from, to := FileIsStretch(p, Run(p, cfg, a, ops).logs, segs, hist, LastTime(start, ops), slot);
    KeptIsSelection(p, cfg, a, ops);
    kept := KeptPositions(p, cfg, a, ops)[from..to];
    SelectSlice(sealed, KeptPositions(p, cfg, a, ops), from, to);
  }

  /** The lines of a selection that the verifier's scanner delivers: those before one that is too
      long for it. */
  ghost function Read(p: Primitives, evs: seq<Event>, kept: seq<nat>): (read: seq<nat>)
    requires IsSelection(kept, |evs|) && Encodable(p, Select(evs, kept))
    ensures IsSelection(read, |evs|)
  {
    kept[..Delivered(Encoded(p, Select(evs, kept)))]
  }

  lemma ReadTokens(p: Primitives, evs: seq<Event>, kept: seq<nat>)
    requires p.Sound() && IsSelection(kept, |evs|) && Encodable(p, Select(evs, kept))
    ensures Encodable(p, Select(evs, Read(p, evs, kept)))
    ensures Scanned(Lines(Content(p, Select(evs, kept)))).tokens == Encoded(p, Select(evs, Read(p, evs, kept)))
  {
    FileTokens(p, Select(evs, kept));
    SelectSlice(evs, kept, 0, Delivered(Encoded(p, Select(evs, kept))));
  }

  /** In every run, with any writes lost and any restarts, rotations and purges, a file's report
      shows no invalid hash, and exactly one break per event that links to something else than
      the event before it in that file. */
  lemma LossReport(p: Primitives, cfg: Config, a: Agent, start: int, ops: seq<Op>, slot: nat, r: VerifyResult)
    returns (kept: seq<nat>)
    requires p.Sound() && FreshStart(p, a, start) && Monotone(start, ops)
    requires DistinctIds(SealedAll(p, cfg, a, ops)) && p.CollisionFree(a.key, Inputs(SealedAll(p, cfg, a, ops)))
    requires slot in Run(p, cfg, a, ops).logs
    requires IsReport(p, a.key, Scanned(Lines(Run(p, cfg, a, ops).logs[slot].content)).tokens, r)
    ensures
      var sealed := SealedAll(p, cfg, a, ops);
      && IsSelection(kept, |sealed|)
      && Encodable(p, Select(sealed, kept))
      && Run(p, cfg, a, ops).logs[slot].content == Content(p, Select(sealed, kept))
      && var breaks := Breaks(sealed, Links(p, cfg, a, ops), Read(p, sealed, kept));
      && r.total == r.valid == |Read(p, sealed, kept)| && r.invalid == 0
      && r.broken == |breaks|
      && (r.firstBreak == 0 <==> breaks == {})
      && (r.firstBreak > 0 ==> r.firstBreak - 1 in breaks)
      && forall i :: i in breaks ==> r.firstBreak - 1 <= i
  {
    var sealed := SealedAll(p, cfg, a, ops);
    kept := FileIsSelection(p, cfg, a, start, ops, slot);
    RunLinked(p, cfg, a, start, ops);
    ReadTokens(p, sealed, kept);
    SelectionReport(p, a.key, sealed, Links(p, cfg, a, ops), Read(p, sealed, kept), r);
  }

  /** When no line written reaches one MiB, that is every event of the file. */
  lemma OrdinaryFileReport(p: Primitives, cfg: Config, a: Agent, start: int, ops: seq<Op>, slot: nat, r: VerifyResult)
    returns (kept: seq<nat>)
    requires p.Sound() && FreshStart(p, a, start) && Monotone(start, ops)
    requires DistinctIds(SealedAll(p, cfg, a, ops)) && p.CollisionFree(a.key, Inputs(SealedAll(p, cfg, a, ops)))
    requires OrdinaryLines(p, Kept(p, cfg, a, ops)) && slot in Run(p, cfg, a, ops).logs
    requires IsReport(p, a.key, Scanned(Lines(Run(p, cfg, a, ops).logs[slot].content)).tokens, r)
    ensures
      var sealed := SealedAll(p, cfg, a, ops);
      && IsSelection(kept, |sealed|) && Encodable(p, Select(sealed, kept))
      && Run(p, cfg, a, ops).logs[slot].content == Content(p, Select(sealed, kept))
      && r.total == r.valid == |kept| && r.invalid == 0
      && r.broken == |Breaks(sealed, Links(p, cfg, a, ops), kept)|
  {
    kept := LossReport(p, cfg, a, start, ops, slot, r);
    var evs := Select(SealedAll(p, cfg, a, ops), kept);
    SelectedAreOrdinary(p, cfg, a, start, ops, slot, evs);
    OrdinaryLinesDelivered(p, evs);
    assert kept[..|kept|] == kept;
  }

  lemma SelectedAreOrdinary(p: Primitives, cfg: Config, a: Agent, start: int, ops: seq<Op>, slot: nat,
                            evs: seq<Event>)
    requires p.Sound() && FreshStart(p, a, start) && Monotone(start, ops)
    requires OrdinaryLines(p, Kept(p, cfg, a, ops)) && slot in Run(p, cfg, a, ops).logs
    requires Encodable(p, evs) && Run(p, cfg, a, ops).logs[slot].content == Content(p, evs)
    ensures OrdinaryLines(p, evs)
  {
    var segs := RunOnDisk(p, cfg, a, start, ops);
    var hist := Kept(p, cfg, a, ops);
    var from, to := FileIsStretch(p, Run(p, cfg, a, ops).logs, segs, hist, LastTime(start, ops), slot);
    assert OrdinaryLines(p, hist[from..to]);
    SameContentOrdinary(p, evs, hist[from..to]);
  }

  lemma SameContentOrdinary(p: Primitives, a: seq<Event>, b: seq<Event>)
    requires p.Sound() && Encodable(p, a) && OrdinaryLines(p, b) && Content(p, a) == Content(p, b)
    ensures OrdinaryLines(p, a)
  {
    ContentLines(p, a);
    ContentLines(p, b);
    forall i | 0 <= i < |a|
      ensures |p.encode(a[i]).value| < 0x10_0000
    {
      assert Encoded(p, a)[i] == Encoded(p, b)[i];
    }
  }

  // ---- One process ----

  lemma CallStep(p: Primitives, cfg: Config, a: Agent, ops: seq<Op>)
    requires 0 in a.logs && ops != [] && ops[|ops| - 1].LogCall?
    ensures
      var before := ops[..|ops| - 1];
      && |SealedAll(p, cfg, a, ops)| == |SealedAll(p, cfg, a, before)| + 1
      && Links(p, cfg, a, ops) == Links(p, cfg, a, before) + [Memory(p, cfg, a, before)]
      && Memory(p, cfg, a, ops) == ToEvent(|SealedAll(p, cfg, a, before)|)
  {}

  lemma PredecessorsSnoc(n: nat)
    ensures Predecessors(n + 1) == Predecessors(n) + [if n == 0 then ToGenesis else ToEvent(n - 1)]
  {}

  lemma {:induction false} OneProcess(p: Primitives, cfg: Config, a: Agent, ops: seq<Op>)
    requires 0 in a.logs && forall i :: 0 <= i < |ops| ==> ops[i].LogCall?
    ensures |SealedAll(p, cfg, a, ops)| == |ops|
    ensures Links(p, cfg, a, ops) == Predecessors(|ops|)
    ensures Memory(p, cfg, a, ops) == if ops == [] then ToGenesis else ToEvent(|ops| - 1)
  {
    if ops != [] {
      OneProcess(p, cfg, a, ops[..|ops| - 1]);
      CallStep(p, cfg, a, ops);
      PredecessorsSnoc(|ops| - 1);
    }
  }

  /** Without a restart the sealed events are one chain even when writes or encodings fail. */
  lemma {:induction false} SealedChain(p: Primitives, cfg: Config, a: Agent, ops: seq<Op>)
    requires 0 in a.logs && a.prevHash == GENESIS && forall i :: 0 <= i < |ops| ==> ops[i].LogCall?
    ensures Run(p, cfg, a, ops).key == a.key
    ensures OneChain(p, Run(p, cfg, a, ops), SealedAll(p, cfg, a, ops))
  {
    if ops != [] {
      var n := |ops| - 1;
      SealedChain(p, cfg, a, ops[..n]);
      CallKeepsOneChain(p, cfg, Run(p, cfg, a, ops[..n]), SealedAll(p, cfg, a, ops[..n]), ops[n].call);
    }
  }

  /** So a file's breaks are then the events whose predecessor is not in that file. */
  lemma LostWritesReport(p: Primitives, cfg: Config, a: Agent, start: int, ops: seq<Op>, slot: nat, r: VerifyResult)
    returns (kept: seq<nat>)
    requires p.Sound() && FreshStart(p, a, start) && Monotone(start, ops)
    requires forall i :: 0 <= i < |ops| ==> ops[i].LogCall?
    requires DistinctIds(SealedAll(p, cfg, a, ops)) && p.CollisionFree(a.key, Inputs(SealedAll(p, cfg, a, ops)))
    requires slot in Run(p, cfg, a, ops).logs
    requires IsReport(p, a.key, Scanned(Lines(Run(p, cfg, a, ops).logs[slot].content)).tokens, r)
    ensures
      var sealed := SealedAll(p, cfg, a, ops);
      && IsSelection(kept, |sealed|)
      && Encodable(p, Select(sealed, kept))
      && Run(p, cfg, a, ops).logs[slot].content == Content(p, Select(sealed, kept))
      && r.total == r.valid == |Read(p, sealed, kept)| && r.invalid == 0
      && r.broken == |Orphans(Read(p, sealed, kept))|
  {
    kept := LossReport(p, cfg, a, start, ops, slot, r);
    OneProcess(p, cfg, a, ops);
    PredecessorBreaks(SealedAll(p, cfg, a, ops), Read(p, SealedAll(p, cfg, a, ops), kept));
  }

  // ---- Restarts ----

  /** Whatever was sealed and lost before a restart, the first event that the new process writes
      follows the last one on disk; and it links to it, so that the losses cannot be seen, exactly
      when the restart resumed. */
  lemma RestartHidesLosses(p: Primitives, cfg: Config, a: Agent, start: int, ops: seq<Op>,
                           random: seq<byte>, at: int, c: Call)
    requires p.Sound() && FreshStart(p, a, start) && Monotone(start, ops)
    requires KeptBy(p, Run(p, cfg, a, ops + [Reopen(random, at)]), LogCall(c)) != []
    ensures
      var hist := Kept(p, cfg, a, ops);
      var all := Kept(p, cfg, a, ops + [Reopen(random, at)] + [LogCall(c)]);
      && |all| == |hist| + 1 && all[..|hist|] == hist
      && (all[|hist|].prevHash == Tip(hist, GENESIS) <==> Resumes(p, Run(p, cfg, a, ops).logs, hist))
  {
    var restarted := ops + [Reopen(random, at)];
    var b := Run(p, cfg, a, restarted);
    assert restarted[..|ops|] == ops;
    ReopenStep(p, cfg, a, restarted);
    RestartResumes(p, cfg, a, start, ops, random, at);
    KeptAfterCall(p, cfg, a, restarted, c);
    SealedEventIsSealed(p, b.key, b.prevHash, c);
  }

  lemma KeptAfterCall(p: Primitives, cfg: Config, a: Agent, ops: seq<Op>, c: Call)
    requires 0 in a.logs && KeptBy(p, Run(p, cfg, a, ops), LogCall(c)) != []
    ensures
      var b := Run(p, cfg, a, ops);
      Kept(p, cfg, a, ops + [LogCall(c)]) == Kept(p, cfg, a, ops) + [SealedEvent(p, b.key, b.prevHash, c)]
  {
    assert (ops + [LogCall(c)])[..|ops|] == ops;
  }
}
