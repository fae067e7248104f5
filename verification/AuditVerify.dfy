/** VerifyLog: the loop that replays a log file, and what its counters mean. */
module AuditVerify {
  import opened Wrappers
  import opened AuditEvent
  import opened LogLines
  import opened AuditChain

  datatype VerifyResult = VerifyResult(total: nat, valid: nat, broken: nat, firstBreak: nat, invalid: nat)

  datatype Verification =
    | KeyUnreadable
    | KeyLength(length: nat)
    | LogUnreadable
    | Report(result: VerifyResult, tooLong: bool)

  /** The event on line i links to something else than the last decodable line before it. */
  ghost predicate LinkBroken(p: Primitives, tokens: seq<seq<byte>>, i: nat)
    requires i < |tokens|
  {
    Decodes(p, tokens[i]) && Decoded(p, tokens[i]).prevHash != LastHash(p, tokens[..i])
  }

  ghost predicate MacHolds(p: Primitives, key: seq<byte>, line: seq<byte>) {
    Decodes(p, line) && p.Sealed(key, Decoded(p, line))
  }

  /** The faults that FirstBreak looks at: a line that does not decode is not one. */
  ghost predicate Faulty(p: Primitives, key: seq<byte>, tokens: seq<seq<byte>>, i: nat)
    requires i < |tokens|
  {
    LinkBroken(p, tokens, i) || (Decodes(p, tokens[i]) && !MacHolds(p, key, tokens[i]))
  }

  ghost function BrokenLinks(p: Primitives, tokens: seq<seq<byte>>): set<nat> {
    set i: nat | i < |tokens| && LinkBroken(p, tokens, i)
  }

  ghost function InvalidLines(p: Primitives, key: seq<byte>, tokens: seq<seq<byte>>): set<nat> {
    set i: nat | i < |tokens| && !MacHolds(p, key, tokens[i])
  }

  ghost predicate IsFirstFault(p: Primitives, key: seq<byte>, tokens: seq<seq<byte>>, position: nat) {
    if position == 0 then
      forall i: nat :: i < |tokens| ==> !Faulty(p, key, tokens, i)
    else
      && position <= |tokens|
      && Faulty(p, key, tokens, position - 1)
      && forall i: nat :: i < position - 1 ==> !Faulty(p, key, tokens, i)
  }

  /** The five counters, for the non-empty lines `tokens`. */
  ghost predicate IsReport(p: Primitives, key: seq<byte>, tokens: seq<seq<byte>>, r: VerifyResult) {
    && r.total == |tokens|
    && r.valid + r.invalid == r.total
    && r.invalid == |InvalidLines(p, key, tokens)|
    && r.broken == |BrokenLinks(p, tokens)|
    && IsFirstFault(p, key, tokens, r.firstBreak)
  }

  method VerifyLog(p: Primitives, keyFile: Option<seq<byte>>, logFile: Option<seq<byte>>)
    returns (v: Verification)
    ensures v.KeyUnreadable? <==> keyFile.None?
    ensures v.KeyLength? <==> keyFile.Some? && |keyFile.value| != 32
    ensures v.LogUnreadable? <==> keyFile.Some? && |keyFile.value| == 32 && logFile.None?
    ensures v.Report? ==>
      && v.tooLong == Scanned(Lines(logFile.value)).tooLong
      && IsReport(p, keyFile.value, Scanned(Lines(logFile.value)).tokens, v.result)
    ensures v.Report? ==>
      (v.tooLong <==> exists i :: 0 <= i < |Lines(logFile.value)| && |Lines(logFile.value)[i]| >= 0x10_0000)
    ensures v.Report? && !v.tooLong ==> v.result.total == |NonEmpty(Lines(logFile.value))|
  {
    if keyFile.None? { return KeyUnreadable; }
    var key := keyFile.value;
    if |key| != 32 { return KeyLength(|key|); }
    if logFile.None? { return LogUnreadable; }

    var lines := Lines(logFile.value);
    ScanExactlyWhen(lines);
    var r := VerifyResult(0, 0, 0, 0, 0);
    var prevHash := GENESIS;
    ghost var seen: seq<seq<byte>> := [];
    EmptyReport(p, key);
    for n := 0 to |lines|
      invariant DeliveredBefore(lines, n, seen)
      invariant prevHash == LastHash(p, seen)
      invariant IsReport(p, key, seen, r)
    {
      DeliveryStep(lines, n, seen);
      if |lines[n]| >= MAX_TOKEN {
        return Report(r, true);
      }
      var line := DropCR(lines[n]);
      if line != [] {
        r, prevHash := CheckLine(p, key, seen, line, r, prevHash);
        seen := seen + [line];
      }
    }
    assert seen + [] == seen;
    return Report(r, false);
  }

  lemma EmptyReport(p: Primitives, key: seq<byte>)
    ensures IsReport(p, key, [], VerifyResult(0, 0, 0, 0, 0))
  {
    assert InvalidLines(p, key, []) == {} && BrokenLinks(p, []) == {};
  }

  /** The scanner has delivered `seen` when it reaches line n. */
  ghost predicate DeliveredBefore(lines: seq<seq<byte>>, n: nat, seen: seq<seq<byte>>)
    requires n <= |lines|
  {
    var rest := Scanned(lines[n..]);
    Scanned(lines) == Scan(seen + rest.tokens, rest.tooLong)
  }

  lemma DeliveryStep(lines: seq<seq<byte>>, n: nat, seen: seq<seq<byte>>)
    requires n < |lines| && DeliveredBefore(lines, n, seen)
    ensures |lines[n]| >= MAX_TOKEN ==> Scanned(lines) == Scan(seen, true)
    ensures |lines[n]| < MAX_TOKEN ==>
      DeliveredBefore(lines, n + 1, if DropCR(lines[n]) == [] then seen else seen + [DropCR(lines[n])])
  {
    var here := lines[n..];
    assert here[0] == lines[n] && here[1..] == lines[n + 1..];
    var token, rest := DropCR(lines[n]), Scanned(lines[n + 1..]);
    assert seen + ([token] + rest.tokens) == seen + [token] + rest.tokens;
  }

  /** The body of the scanning loop, for a non-empty line after the lines `seen`. */
  method CheckLine(p: Primitives, key: seq<byte>, ghost seen: seq<seq<byte>>, line: seq<byte>,
                   result: VerifyResult, prev: string)
    returns (r: VerifyResult, prevHash: string)
    requires line != [] && prev == LastHash(p, seen) && IsReport(p, key, seen, result)
    ensures prevHash == LastHash(p, seen + [line])
    ensures IsReport(p, key, seen + [line], r)
  {
    ReportStep(p, key, seen, line, result);
    assert (seen + [line])[..|seen|] == seen;
    r := result.(total := result.total + 1);
    prevHash := prev;
    var decoded := p.decode(line);
    if decoded.None? {
      r := r.(invalid := r.invalid + 1);
      return;
    }
    var event := decoded.value;
    if event.prevHash != prevHash {
      r := r.(broken := r.broken + 1);
      if r.firstBreak == 0 { r := r.(firstBreak := r.total); }
    }
    var expected := p.ComputeHash(key, event);
    if event.hash != expected {
      r := r.(invalid := r.invalid + 1);
      if r.firstBreak == 0 { r := r.(firstBreak := r.total); }
    } else {
      r := r.(valid := r.valid + 1);
    }
    prevHash := event.hash;
  }

  lemma LinkBrokenPrefix(p: Primitives, tokens: seq<seq<byte>>, line: seq<byte>, i: nat)
    requires i < |tokens|
    ensures LinkBroken(p, tokens + [line], i) <==> LinkBroken(p, tokens, i)
  {
    assert (tokens + [line])[..i] == tokens[..i];
  }

  lemma BrokenLinksStep(p: Primitives, tokens: seq<seq<byte>>, line: seq<byte>)
    ensures |BrokenLinks(p, tokens + [line])|
         == |BrokenLinks(p, tokens)| + (if LinkBroken(p, tokens + [line], |tokens|) then 1 else 0)
  {
    var all, n := tokens + [line], |tokens|;
    forall i: nat | i < n { LinkBrokenPrefix(p, tokens, line, i); }
    assert BrokenLinks(p, all) == BrokenLinks(p, tokens) + (if LinkBroken(p, all, n) then {n} else {});
  }

  lemma InvalidLinesStep(p: Primitives, key: seq<byte>, tokens: seq<seq<byte>>, line: seq<byte>)
    ensures |InvalidLines(p, key, tokens + [line])|
         == |InvalidLines(p, key, tokens)| + (if MacHolds(p, key, line) then 0 else 1)
  {
    var all, n := tokens + [line], |tokens|;
    assert InvalidLines(p, key, all) == InvalidLines(p, key, tokens) + (if MacHolds(p, key, line) then {} else {n});
  }

  lemma FirstFaultStep(p: Primitives, key: seq<byte>, tokens: seq<seq<byte>>, line: seq<byte>, first: nat)
    requires IsFirstFault(p, key, tokens, first)
    ensures
      var all, n := tokens + [line], |tokens|;
      IsFirstFault(p, key, all, if first == 0 && Faulty(p, key, all, n) then n + 1 else first)
  {
    var all, n := tokens + [line], |tokens|;
    forall i: nat | i < n
      ensures Faulty(p, key, all, i) <==> Faulty(p, key, tokens, i)
    {
      LinkBrokenPrefix(p, tokens, line, i);
    }
  }

  /** The report after one more line, as the loop body computes it. */
  lemma ReportStep(p: Primitives, key: seq<byte>, tokens: seq<seq<byte>>, line: seq<byte>, r: VerifyResult)
    requires IsReport(p, key, tokens, r)
    ensures
      var all, n := tokens + [line], |tokens|;
      IsReport(p, key, all, VerifyResult(
        n + 1,
        r.valid + (if MacHolds(p, key, line) then 1 else 0),
        r.broken + (if LinkBroken(p, all, n) then 1 else 0),
        if r.firstBreak == 0 && Faulty(p, key, all, n) then n + 1 else r.firstBreak,
        r.invalid + (if MacHolds(p, key, line) then 0 else 1)))
  {
    BrokenLinksStep(p, tokens, line);
    InvalidLinesStep(p, key, tokens, line);
    FirstFaultStep(p, key, tokens, line, r.firstBreak);
  }

  ghost predicate AllDecode(p: Primitives, tokens: seq<seq<byte>>) {
    forall i :: 0 <= i < |tokens| ==> Decodes(p, tokens[i])
  }

  ghost function DecodedAll(p: Primitives, tokens: seq<seq<byte>>): (evs: seq<Event>)
    requires AllDecode(p, tokens)
    ensures |evs| == |tokens|
    ensures forall i :: 0 <= i < |tokens| ==> evs[i] == Decoded(p, tokens[i])
  {
    seq(|tokens|, i requires 0 <= i < |tokens| => Decoded(p, tokens[i]))
  }

  /** Every line decodes, and the events form a MAC-correct chain from "genesis". */
  ghost predicate CleanChain(p: Primitives, key: seq<byte>, tokens: seq<seq<byte>>) {
    AllDecode(p, tokens) && Chain(p, key, GENESIS, DecodedAll(p, tokens))
  }

  lemma LinkedLine(p: Primitives, key: seq<byte>, tokens: seq<seq<byte>>, i: nat)
    requires AllDecode(p, tokens) && i < |tokens|
    ensures LinkedAt(p, key, GENESIS, DecodedAll(p, tokens), i)
       <==> MacHolds(p, key, tokens[i]) && !LinkBroken(p, tokens, i)
  {
    var evs := DecodedAll(p, tokens);
    assert evs[i] == Decoded(p, tokens[i]);
    if i > 0 {
      assert tokens[..i][i - 1] == tokens[i - 1] && evs[..i][i - 1] == evs[i - 1];
      assert evs[i - 1] == Decoded(p, tokens[i - 1]);
    }
  }

  /** The report is clean exactly when the lines are a chain from "genesis". */
  lemma CleanReport(p: Primitives, key: seq<byte>, tokens: seq<seq<byte>>, r: VerifyResult)
    requires IsReport(p, key, tokens, r)
    ensures r.broken == 0 && r.invalid == 0 <==> CleanChain(p, key, tokens)
  {
    if r.broken == 0 && r.invalid == 0 {
      forall i: nat | i < |tokens|
        ensures MacHolds(p, key, tokens[i]) && !LinkBroken(p, tokens, i)
      {
        assert i !in InvalidLines(p, key, tokens) && i !in BrokenLinks(p, tokens);
      }
      forall i: nat | i < |tokens| { LinkedLine(p, key, tokens, i); }
    }
    if CleanChain(p, key, tokens) {
      forall i: nat | i < |tokens|
        ensures MacHolds(p, key, tokens[i]) && !LinkBroken(p, tokens, i)
      {
        LinkedLine(p, key, tokens, i);
      }
      assert InvalidLines(p, key, tokens) == {};
      assert BrokenLinks(p, tokens) == {};
    }
  }
}
