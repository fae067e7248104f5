/** What the verifier's report says about a log that was cut, thinned out or edited. */
module AuditTamper {
  import opened Wrappers
  import opened AuditEvent
  import opened AuditChain
  import opened AuditVerify

  lemma TipHasNoBar(p: Primitives, key: seq<byte>, evs: seq<Event>)
    requires p.Sound() && Chain(p, key, GENESIS, evs)
    ensures '|' !in Tip(evs, GENESIS)
    ensures Tip(evs, GENESIS) == GENESIS <==> evs == []
  {
    if evs != [] {
      var last := evs[|evs| - 1];
      assert LinkedAt(p, key, GENESIS, evs, |evs| - 1);
      assert IsHexMac(p.mac(key, MacInput(last)));
    }
  }

  /** Two chains from "genesis" that end in the same hash are the same history: same length,
      same MAC input and same hash everywhere, unless two of their inputs collide. */
  lemma {:induction false} SameTipSameHistory(p: Primitives, key: seq<byte>, a: seq<Event>, b: seq<Event>,
                                              inputs: set<string>)
    requires p.Sound() && p.CollisionFree(key, inputs)
    requires forall i :: 0 <= i < |a| ==> MacInput(a[i]) in inputs
    requires forall i :: 0 <= i < |b| ==> MacInput(b[i]) in inputs
    requires Chain(p, key, GENESIS, a) && Chain(p, key, GENESIS, b)
    requires Tip(a, GENESIS) == Tip(b, GENESIS)
    ensures |a| == |b|
    ensures forall i :: 0 <= i < |a| ==> MacInput(a[i]) == MacInput(b[i]) && a[i].hash == b[i].hash
    decreases |a|
  {
    TipHasNoBar(p, key, a);
    TipHasNoBar(p, key, b);
    if a != [] {
      var n, m := |a| - 1, |b| - 1;
      LastLink(p, key, a);
      LastLink(p, key, b);
      assert MacInput(a[n]) == MacInput(b[m]);
      PrevHashRecovered(a[n], b[m]);
      SameTipSameHistory(p, key, a[..n], b[..m], inputs);
    }
  }

  lemma LastLink(p: Primitives, key: seq<byte>, evs: seq<Event>)
    requires p.Sound() && Chain(p, key, GENESIS, evs) && evs != []
    ensures
      var n := |evs| - 1;
      && Chain(p, key, GENESIS, evs[..n])
      && p.Sealed(key, evs[n])
      && evs[n].prevHash == Tip(evs[..n], GENESIS)
      && '|' !in evs[n].prevHash
  {
    var n := |evs| - 1;
    assert evs == evs[..n] + [evs[n]];
    ChainSnoc(p, key, GENESIS, evs[..n], evs[n]);
    TipHasNoBar(p, key, evs[..n]);
  }

  /** The MAC inputs of the decodable lines are among `inputs`. */
  ghost predicate InputsWithin(p: Primitives, tokens: seq<seq<byte>>, inputs: set<string>) {
    forall i :: 0 <= i < |tokens| && Decodes(p, tokens[i]) ==> MacInput(Decoded(p, tokens[i])) in inputs
  }

  /** The same for two files whose verification is clean. */
  lemma SameTipSameLog(p: Primitives, key: seq<byte>, a: seq<seq<byte>>, ra: VerifyResult,
                       b: seq<seq<byte>>, rb: VerifyResult, inputs: set<string>)
    requires p.Sound() && p.CollisionFree(key, inputs)
    requires InputsWithin(p, a, inputs) && InputsWithin(p, b, inputs)
    requires IsReport(p, key, a, ra) && ra.broken == 0 && ra.invalid == 0
    requires IsReport(p, key, b, rb) && rb.broken == 0 && rb.invalid == 0
    requires LastHash(p, a) == LastHash(p, b)
    ensures ra.total == rb.total
    ensures AllDecode(p, a) && AllDecode(p, b)
    ensures forall i :: 0 <= i < |a| ==> MacInput(DecodedAll(p, a)[i]) == MacInput(DecodedAll(p, b)[i])
  {
    CleanReport(p, key, a, ra);
    CleanReport(p, key, b, rb);
    DecodedInputs(p, a, inputs);
    DecodedInputs(p, b, inputs);
    LastHashIsTip(p, a);
    LastHashIsTip(p, b);
    SameTipSameHistory(p, key, DecodedAll(p, a), DecodedAll(p, b), inputs);
  }

  lemma DecodedInputs(p: Primitives, tokens: seq<seq<byte>>, inputs: set<string>)
    requires AllDecode(p, tokens) && InputsWithin(p, tokens, inputs)
    ensures var evs := DecodedAll(p, tokens); forall i :: 0 <= i < |evs| ==> MacInput(evs[i]) in inputs
  {
    var evs := DecodedAll(p, tokens);
    forall i | 0 <= i < |evs|
      ensures MacInput(evs[i]) in inputs
    {
      assert evs[i] == Decoded(p, tokens[i]);
    }
  }

  lemma LastHashIsTip(p: Primitives, tokens: seq<seq<byte>>)
    requires AllDecode(p, tokens)
    ensures LastHash(p, tokens) == Tip(DecodedAll(p, tokens), GENESIS)
  {
    if tokens != [] {
      var n := |tokens| - 1;
      assert DecodedAll(p, tokens)[n] == Decoded(p, tokens[n]);
    }
  }

  // ---- Reports on lines that the logger wrote ----

  ghost function LinkFaults(evs: seq<Event>): set<nat> {
    set i: nat | i < |evs| && evs[i].prevHash != Tip(evs[..i], GENESIS)
  }

  ghost function SealFaults(p: Primitives, key: seq<byte>, evs: seq<Event>): set<nat> {
    set i: nat | i < |evs| && !p.Sealed(key, evs[i])
  }

  lemma EncodedDecode(p: Primitives, evs: seq<Event>)
    requires p.Sound() && Encodable(p, evs)
    ensures AllDecode(p, Encoded(p, evs))
    ensures DecodedAll(p, Encoded(p, evs)) == evs
  {
    var lines := Encoded(p, evs);
    forall i | 0 <= i < |evs|
      ensures Decodes(p, lines[i]) && Decoded(p, lines[i]) == evs[i]
    {
      assert p.IsLineOf(evs[i], p.encode(evs[i]).value);
    }
  }

  /** On written events the counters are the link faults and the seal faults. */
  lemma WrittenFaults(p: Primitives, key: seq<byte>, evs: seq<Event>)
    requires p.Sound() && Encodable(p, evs)
    ensures BrokenLinks(p, Encoded(p, evs)) == LinkFaults(evs)
    ensures InvalidLines(p, key, Encoded(p, evs)) == SealFaults(p, key, evs)
  {
    var lines := Encoded(p, evs);
    EncodedDecode(p, evs);
    forall i: nat | i < |evs|
      ensures LinkBroken(p, lines, i) <==> evs[i].prevHash != Tip(evs[..i], GENESIS)
      ensures MacHolds(p, key, lines[i]) <==> p.Sealed(key, evs[i])
    {
      assert Decoded(p, lines[i]) == DecodedAll(p, lines)[i];
      assert lines[..i] == Encoded(p, evs[..i]);
      LastHashOfEvents(p, evs[..i]);
    }
  }

  // ---- Deletions ----

  /** Positions of a chain that were kept, in order. */
  ghost predicate IsSelection(kept: seq<nat>, length: nat) {
    && (forall i :: 0 <= i < |kept| ==> kept[i] < length)
    && (forall i, j :: 0 <= i < j < |kept| ==> kept[i] < kept[j])
  }

  ghost function Select(evs: seq<Event>, kept: seq<nat>): (r: seq<Event>)
    requires IsSelection(kept, |evs|)
    ensures |r| == |kept| && forall i :: 0 <= i < |kept| ==> r[i] == evs[kept[i]]
  {
    seq(|kept|, i requires 0 <= i < |kept| => evs[kept[i]])
  }

  /** The kept events whose original predecessor was not kept. */
  ghost function Orphans(kept: seq<nat>): set<nat> {
    set i: nat | i < |kept| && kept[i] > 0 && kept[i] - 1 !in kept
  }

  /** Generated IDs: hex, so free of bars, and never the same twice. */
  ghost predicate DistinctIds(evs: seq<Event>) {
    && (forall i :: 0 <= i < |evs| ==> '|' !in evs[i].id)
    && (forall i, j :: 0 <= i < j < |evs| ==> evs[i].id != evs[j].id)
  }

  /** What an event links to: "genesis", an earlier event, or a hash from elsewhere. */
  datatype Link = ToGenesis | ToEvent(position: nat) | Stray(hash: string)

  predicate InRange(link: Link, length: nat) {
    link.ToEvent? ==> link.position < length
  }

  function HashOf(evs: seq<Event>, link: Link): string
    requires InRange(link, |evs|)
  {
    match link
    case ToGenesis => GENESIS
    case ToEvent(position) => evs[position].hash
    case Stray(hash) => hash
  }

  /** Each event carries its own MAC and links where `links` says. */
  ghost predicate Linked(p: Primitives, key: seq<byte>, evs: seq<Event>, links: seq<Link>) {
    && |links| == |evs|
    && forall i :: 0 <= i < |evs| ==> LinkedTo(p, key, evs, links, i)
  }

  ghost predicate LinkedTo(p: Primitives, key: seq<byte>, evs: seq<Event>, links: seq<Link>, i: nat)
    requires i < |evs| == |links|
  {
    && p.Sealed(key, evs[i])
    && InRange(links[i], i)
    && evs[i].prevHash == HashOf(evs, links[i])
  }

  /** The event before the i-th of the kept ones. */
  function Before(kept: seq<nat>, i: nat): Link
    requires i < |kept|
  {
    if i == 0 then ToGenesis else ToEvent(kept[i - 1])
  }

  /** The link leads to that event; a stray hash does so only by being its hash. */
  predicate LeadsTo(evs: seq<Event>, link: Link, target: Link)
    requires InRange(target, |evs|)
  {
    if link.Stray? then link.hash == HashOf(evs, target) else link == target
  }

  /** The kept events that link to something else than the kept event before them. */
  ghost function Breaks(evs: seq<Event>, links: seq<Link>, kept: seq<nat>): set<nat>
    requires |links| == |evs| && IsSelection(kept, |evs|)
  {
    set i: nat | i < |kept| && !LeadsTo(evs, links[kept[i]], Before(kept, i))
  }

  /** With distinct IDs and no collisions a hash names one event, and none is "genesis". */
  lemma HashesIdentify(p: Primitives, key: seq<byte>, evs: seq<Event>, links: seq<Link>, a: Link, b: Link)
    requires p.Sound() && Linked(p, key, evs, links)
    requires DistinctIds(evs) && p.CollisionFree(key, Inputs(evs))
    requires InRange(a, |evs|) && InRange(b, |evs|) && !a.Stray? && !b.Stray?
    ensures HashOf(evs, a) == HashOf(evs, b) <==> a == b
  {
    forall i: nat | i < |evs|
      ensures evs[i].hash != GENESIS && evs[i].hash == p.mac(key, MacInput(evs[i]))
    {
      assert LinkedTo(p, key, evs, links, i);
      assert IsHexMac(p.mac(key, MacInput(evs[i])));
    }
    if a.ToEvent? && b.ToEvent? && HashOf(evs, a) == HashOf(evs, b) {
      assert MacInput(evs[a.position]) in Inputs(evs) && MacInput(evs[b.position]) in Inputs(evs);
      StampAndIdRecovered(evs[a.position], evs[b.position]);
    }
  }

  /** A kept event is a link fault exactly when it does not link to the kept event before it. */
  lemma KeptLink(p: Primitives, key: seq<byte>, evs: seq<Event>, links: seq<Link>, kept: seq<nat>, i: nat)
    requires p.Sound() && Linked(p, key, evs, links)
    requires DistinctIds(evs) && p.CollisionFree(key, Inputs(evs))
    requires IsSelection(kept, |evs|) && i < |kept|
    ensures p.Sealed(key, Select(evs, kept)[i])
    ensures i in LinkFaults(Select(evs, kept)) <==> i in Breaks(evs, links, kept)
  {
    assert LinkedTo(p, key, evs, links, kept[i]);
    assert Tip(Select(evs, kept)[..i], GENESIS) == HashOf(evs, Before(kept, i));
    if !links[kept[i]].Stray? {
      HashesIdentify(p, key, evs, links, links[kept[i]], Before(kept, i));
    }
  }

  lemma KeptFaults(p: Primitives, key: seq<byte>, evs: seq<Event>, links: seq<Link>, kept: seq<nat>)
    requires p.Sound() && Linked(p, key, evs, links)
    requires DistinctIds(evs) && p.CollisionFree(key, Inputs(evs))
    requires IsSelection(kept, |evs|)
    ensures LinkFaults(Select(evs, kept)) == Breaks(evs, links, kept)
    ensures SealFaults(p, key, Select(evs, kept)) == {}
  {
    forall i: nat | i < |kept| {
      KeptLink(p, key, evs, links, kept, i);
    }
  }

  /** What is reported of any selection of linked events: every line has a valid MAC, and the
      breaks are exactly the kept events that do not link to the kept event before them. */
  lemma SelectionReport(p: Primitives, key: seq<byte>, evs: seq<Event>, links: seq<Link>,
                        kept: seq<nat>, r: VerifyResult)
    requires p.Sound() && Linked(p, key, evs, links)
    requires DistinctIds(evs) && p.CollisionFree(key, Inputs(evs))
    requires IsSelection(kept, |evs|) && Encodable(p, Select(evs, kept))
    requires IsReport(p, key, Encoded(p, Select(evs, kept)), r)
    ensures r.total == r.valid == |kept| && r.invalid == 0
    ensures r.broken == |Breaks(evs, links, kept)|
    ensures r.firstBreak == 0 <==> Breaks(evs, links, kept) == {}
    ensures r.firstBreak > 0 ==> r.firstBreak - 1 in Breaks(evs, links, kept)
    ensures forall i :: i in Breaks(evs, links, kept) ==> r.firstBreak - 1 <= i
  {
    KeptLines(p, key, evs, links, kept);
    ReportOfLinkFaults(p, key, Encoded(p, Select(evs, kept)), Breaks(evs, links, kept), r);
  }

  lemma KeptLines(p: Primitives, key: seq<byte>, evs: seq<Event>, links: seq<Link>, kept: seq<nat>)
    requires p.Sound() && Linked(p, key, evs, links)
    requires DistinctIds(evs) && p.CollisionFree(key, Inputs(evs))
    requires IsSelection(kept, |evs|) && Encodable(p, Select(evs, kept))
    ensures
      var lines := Encoded(p, Select(evs, kept));
      && BrokenLinks(p, lines) == Breaks(evs, links, kept)
      && InvalidLines(p, key, lines) == {}
      && AllDecode(p, lines)
  {
    KeptFaults(p, key, evs, links, kept);
    WrittenFaults(p, key, Select(evs, kept));
    EncodedDecode(p, Select(evs, kept));
  }

  lemma ReportOfLinkFaults(p: Primitives, key: seq<byte>, tokens: seq<seq<byte>>, faults: set<nat>, r: VerifyResult)
    requires AllDecode(p, tokens) && IsReport(p, key, tokens, r)
    requires BrokenLinks(p, tokens) == faults && InvalidLines(p, key, tokens) == {}
    ensures r.total == r.valid == |tokens| && r.invalid == 0 && r.broken == |faults|
    ensures r.firstBreak == 0 <==> faults == {}
    ensures r.firstBreak > 0 ==> r.firstBreak - 1 in faults
    ensures forall i :: i in faults ==> r.firstBreak - 1 <= i
  {
    FaultyFromSets(p, key, tokens);
    assert forall i :: i in faults ==> i < |tokens| && Faulty(p, key, tokens, i);
  }

  /** In one chain every event links to the one before it. */
  function Predecessors(n: nat): (links: seq<Link>)
    ensures |links| == n && forall i :: 0 <= i < n ==> links[i] == if i == 0 then ToGenesis else ToEvent(i - 1)
  {
    seq(n, i requires 0 <= i => if i == 0 then ToGenesis else ToEvent(i - 1))
  }

  lemma ChainIsLinked(p: Primitives, key: seq<byte>, chain: seq<Event>)
    ensures Chain(p, key, GENESIS, chain) <==> Linked(p, key, chain, Predecessors(|chain|))
  {
    forall i: nat | i < |chain|
      ensures LinkedAt(p, key, GENESIS, chain, i) <==> LinkedTo(p, key, chain, Predecessors(|chain|), i)
    {}
  }

  lemma PredecessorBreaks(chain: seq<Event>, kept: seq<nat>)
    requires IsSelection(kept, |chain|)
    ensures Breaks(chain, Predecessors(|chain|), kept) == Orphans(kept)
  {
    forall i: nat | i < |kept| && kept[i] > 0 {
      PredecessorKeptIsPrevious(kept, |chain|, i);
    }
  }

  lemma PredecessorKeptIsPrevious(kept: seq<nat>, length: nat, i: nat)
    requires IsSelection(kept, length) && i < |kept| && kept[i] > 0
    ensures kept[i] - 1 in kept <==> i > 0 && kept[i - 1] == kept[i] - 1
  {
    if kept[i] - 1 in kept {
      var j :| 0 <= j < |kept| && kept[j] == kept[i] - 1;
      assert !(i < j);
    }
  }

  /** Whatever is deleted from a genuine chain, every kept line still has a valid MAC, and the
      breaks reported are exactly the kept events whose predecessor is gone. */
  lemma DeletionReport(p: Primitives, key: seq<byte>, chain: seq<Event>, kept: seq<nat>, r: VerifyResult)
    requires p.Sound() && Chain(p, key, GENESIS, chain)
    requires DistinctIds(chain) && p.CollisionFree(key, Inputs(chain))
    requires IsSelection(kept, |chain|) && Encodable(p, Select(chain, kept))
    requires IsReport(p, key, Encoded(p, Select(chain, kept)), r)
    ensures r.total == r.valid == |kept| && r.invalid == 0
    ensures r.broken == |Orphans(kept)|
    ensures r.firstBreak == 0 <==> Orphans(kept) == {}
    ensures r.firstBreak > 0 ==> r.firstBreak - 1 in Orphans(kept)
    ensures forall i :: i in Orphans(kept) ==> r.firstBreak - 1 <= i
  {
    ChainIsLinked(p, key, chain);
    PredecessorBreaks(chain, kept);
    SelectionReport(p, key, chain, Predecessors(|chain|), kept, r);
  }

  function Range(from: nat, to: nat): (r: seq<nat>)
    requires from <= to
    ensures |r| == to - from && forall i :: 0 <= i < |r| ==> r[i] == from + i
  {
    seq(to - from, i requires 0 <= i => from + i)
  }

  /** A contiguous stretch of the chain, such as a rotated file read on its own: one break, at
      its first event, unless it starts at "genesis". Losing only a tail goes unnoticed. */
  lemma StretchReport(p: Primitives, key: seq<byte>, chain: seq<Event>, from: nat, to: nat, r: VerifyResult)
    requires p.Sound() && Chain(p, key, GENESIS, chain)
    requires DistinctIds(chain) && p.CollisionFree(key, Inputs(chain))
    requires from <= to <= |chain| && Encodable(p, chain[from..to])
    requires IsReport(p, key, Encoded(p, chain[from..to]), r)
    ensures r.total == to - from && r.invalid == 0
    ensures if from == 0 || from == to then r.broken == 0 && r.firstBreak == 0
            else r.broken == 1 && r.firstBreak == 1
  {
    RangeSelects(chain, from, to);
    RangeOrphans(from, to);
    DeletionReport(p, key, chain, Range(from, to), r);
  }

  lemma RangeSelects(evs: seq<Event>, from: nat, to: nat)
    requires from <= to <= |evs|
    ensures IsSelection(Range(from, to), |evs|)
    ensures Select(evs, Range(from, to)) == evs[from..to]
  {}

  lemma RangeOrphans(from: nat, to: nat)
    requires from <= to
    ensures Orphans(Range(from, to)) == if from == 0 || from == to then {} else {0}
  {
    var kept := Range(from, to);
    forall i: nat | 0 < i < |kept|
      ensures i !in Orphans(kept)
    {
      assert kept[i - 1] == kept[i] - 1;
    }
  }

  // ---- Edits ----

  /** The edited event links elsewhere than the original did. */
  predicate CutsBefore(chain: seq<Event>, at: nat, edited: Event)
    requires at < |chain|
  {
    edited.prevHash != chain[at].prevHash
  }

  /** The event after it no longer finds the hash it links to. */
  predicate CutsAfter(chain: seq<Event>, at: nat, edited: Event)
    requires at < |chain|
  {
    at + 1 < |chain| && edited.hash != chain[at].hash
  }

  lemma EditedLink(p: Primitives, key: seq<byte>, chain: seq<Event>, at: nat, edited: Event, i: nat)
    requires Chain(p, key, GENESIS, chain) && at < |chain| && i < |chain|
    ensures
      var evs := chain[at := edited];
      && (i in LinkFaults(evs) <==>
            (i == at && CutsBefore(chain, at, edited)) || (i == at + 1 && CutsAfter(chain, at, edited)))
      && (i in SealFaults(p, key, evs) <==> i == at && !p.Sealed(key, edited))
  {
    assert LinkedAt(p, key, GENESIS, chain, i);
    var evs := chain[at := edited];
    if i > 0 {
      assert Tip(evs[..i], GENESIS) == evs[i - 1].hash && Tip(chain[..i], GENESIS) == chain[i - 1].hash;
    }
  }

  lemma EditedFaults(p: Primitives, key: seq<byte>, chain: seq<Event>, at: nat, edited: Event)
    requires Chain(p, key, GENESIS, chain) && at < |chain|
    ensures
      var evs := chain[at := edited];
      && LinkFaults(evs) ==
           (if CutsBefore(chain, at, edited) then {at} else {}) +
           (if CutsAfter(chain, at, edited) then {at + 1} else {})
      && SealFaults(p, key, evs) == if p.Sealed(key, edited) then {} else {at}
  {
    var evs := chain[at := edited];
    forall i: nat | i < |evs|
      ensures i in LinkFaults(evs) <==>
        (i == at && CutsBefore(chain, at, edited)) || (i == at + 1 && CutsAfter(chain, at, edited))
      ensures i in SealFaults(p, key, evs) <==> i == at && !p.Sealed(key, edited)
    {
      EditedLink(p, key, chain, at, edited, i);
    }
  }

  /** The lines of the edited log that count for FirstBreak. */
  lemma EditedFaulty(p: Primitives, key: seq<byte>, chain: seq<Event>, at: nat, edited: Event, i: nat)
    requires p.Sound() && Chain(p, key, GENESIS, chain) && at < |chain| && i < |chain|
    requires Encodable(p, chain[at := edited])
    ensures Faulty(p, key, Encoded(p, chain[at := edited]), i) <==>
      || (i == at && (CutsBefore(chain, at, edited) || !p.Sealed(key, edited)))
      || (i == at + 1 && CutsAfter(chain, at, edited))
  {
    var evs := chain[at := edited];
    WrittenFaults(p, key, evs);
    EncodedDecode(p, evs);
    FaultyFromSets(p, key, Encoded(p, evs));
    EditedLink(p, key, chain, at, edited, i);
  }

  lemma EditCounts(p: Primitives, key: seq<byte>, chain: seq<Event>, at: nat, edited: Event)
    requires p.Sound() && Chain(p, key, GENESIS, chain) && at < |chain|
    requires Encodable(p, chain[at := edited])
    ensures
      var lines := Encoded(p, chain[at := edited]);
      && |InvalidLines(p, key, lines)| == (if p.Sealed(key, edited) then 0 else 1)
      && |BrokenLinks(p, lines)| ==
           (if CutsBefore(chain, at, edited) then 1 else 0) + (if CutsAfter(chain, at, edited) then 1 else 0)
  {
    WrittenFaults(p, key, chain[at := edited]);
    EditedFaults(p, key, chain, at, edited);
  }

  /** Whatever an event is replaced by, its two hash fields included: the hash counter says whether
      the replacement carries its own MAC, and the chain is reported broken exactly when the
      replacement links elsewhere or its successor no longer links to it. */
  lemma EditReport(p: Primitives, key: seq<byte>, chain: seq<Event>, at: nat, edited: Event, r: VerifyResult)
    requires p.Sound() && Chain(p, key, GENESIS, chain) && at < |chain|
    requires Encodable(p, chain[at := edited])
    requires IsReport(p, key, Encoded(p, chain[at := edited]), r)
    ensures r.invalid == if p.Sealed(key, edited) then 0 else 1
    ensures r.broken ==
      (if CutsBefore(chain, at, edited) then 1 else 0) + (if CutsAfter(chain, at, edited) then 1 else 0)
    ensures r.firstBreak ==
      if CutsBefore(chain, at, edited) || !p.Sealed(key, edited) then at + 1
      else if CutsAfter(chain, at, edited) then at + 2
      else 0
  {
    var lines := Encoded(p, chain[at := edited]);
    EditCounts(p, key, chain, at, edited);
    forall i: nat | i < |lines|
      ensures Faulty(p, key, lines, i) <==>
        || (i == at && (CutsBefore(chain, at, edited) || !p.Sealed(key, edited)))
        || (i == at + 1 && CutsAfter(chain, at, edited))
    {
      EditedFaulty(p, key, chain, at, edited, i);
    }
    FirstOfTwo(p, key, lines, r.firstBreak, at,
               CutsBefore(chain, at, edited) || !p.Sealed(key, edited), CutsAfter(chain, at, edited));
  }

  lemma FirstOfTwo(p: Primitives, key: seq<byte>, tokens: seq<seq<byte>>, first: nat, at: nat,
                   here: bool, next: bool)
    requires IsFirstFault(p, key, tokens, first) && at < |tokens| && (next ==> at + 1 < |tokens|)
    requires forall i: nat :: i < |tokens| ==>
      (Faulty(p, key, tokens, i) <==> (i == at && here) || (i == at + 1 && next))
    ensures first == if here then at + 1 else if next then at + 2 else 0
  {
    if here { assert Faulty(p, key, tokens, at); }
    if next { assert Faulty(p, key, tokens, at + 1); }
  }

  /** In particular, when the two hash fields are left alone nothing is reported broken, also not
      further on, and the edit is noticed exactly when it changes the MAC input. */
  lemma FieldEditReport(p: Primitives, key: seq<byte>, chain: seq<Event>, at: nat, edited: Event, r: VerifyResult)
    requires p.Sound() && Chain(p, key, GENESIS, chain) && at < |chain|
    requires edited.prevHash == chain[at].prevHash && edited.hash == chain[at].hash
    requires p.CollisionFree(key, {MacInput(edited), MacInput(chain[at])})
    requires Encodable(p, chain[at := edited])
    requires IsReport(p, key, Encoded(p, chain[at := edited]), r)
    ensures r.broken == 0 && r.invalid <= 1
    ensures r.invalid == 0 <==> MacInput(edited) == MacInput(chain[at])
    ensures r.firstBreak == if MacInput(edited) == MacInput(chain[at]) then 0 else at + 1
  {
    assert LinkedAt(p, key, GENESIS, chain, at);
    EditReport(p, key, chain, at, edited, r);
  }

  lemma FaultyFromSets(p: Primitives, key: seq<byte>, tokens: seq<seq<byte>>)
    requires AllDecode(p, tokens)
    ensures forall i: nat :: i < |tokens| ==>
      (Faulty(p, key, tokens, i) <==> i in BrokenLinks(p, tokens) || i in InvalidLines(p, key, tokens))
  {}

  /** Detail is not covered: rewriting it everywhere goes unnoticed. */
  lemma DetailIsNotCovered(p: Primitives, key: seq<byte>, evs: seq<Event>, details: seq<map<string, string>>)
    requires |details| == |evs|
    ensures Chain(p, key, GENESIS, evs)
       <==> Chain(p, key, GENESIS, seq(|evs|, i requires 0 <= i < |evs| => evs[i].(detail := details[i])))
  {
    var other := seq(|evs|, i requires 0 <= i < |evs| => evs[i].(detail := details[i]));
    forall i: nat | i < |evs|
      ensures LinkedAt(p, key, GENESIS, evs, i) <==> LinkedAt(p, key, GENESIS, other, i)
    {
      assert MacFields(other[i]) == MacFields(evs[i]);
    }
  }
}
