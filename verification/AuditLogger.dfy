/** FileLogger: sealing and appending events, and resuming the chain from the file's tail. */
module AuditLogger {
  import opened Wrappers
  import opened Text
  import opened AuditEvent
  import opened LogLines
  import opened AuditChain
  import opened AuditRotation

  const WINDOW := 8192
  const KEY_SIZE := 32

  // ---- Resuming ----

  function Window(content: seq<byte>): seq<byte> {
    if |content| <= WINDOW then content else content[|content| - WINDOW..]
  }

  method ReadLastHash(p: Primitives, file: Option<seq<byte>>) returns (hash: string)
    ensures hash == if file.None? then GENESIS else LastHash(p, Lines(Window(file.value)))
  {
    if file.None? || |file.value| == 0 { return GENESIS; }
    var buf := Window(file.value);
    var lines := SplitLines(buf);
    var i := |lines| - 1;
    assert lines[..i + 1] == lines;
    while i >= 0
      invariant -1 <= i < |lines|
      invariant LastHash(p, lines) == LastHash(p, lines[..i + 1])
    {
      assert lines[..i + 1][..i] == lines[..i];
      if lines[i] != [] {
        var event := p.decode(lines[i]);
        if event.Some? { return event.value.hash; }
      }
      i := i - 1;
    }
    return GENESIS;
  }

  /** The backward scan finds the last decodable line of the whole file whenever that line
      lies inside the window, however the window cuts the lines before it. */
  lemma WindowSuffices(p: Primitives, before: seq<byte>, line: seq<byte>, after: seq<byte>)
    requires EndsLine(before)
    requires NEWLINE !in line && Decodes(p, line)
    requires after != [] ==> after[0] == NEWLINE
    requires forall i :: 0 <= i < |Lines(after)| ==> !Decodes(p, Lines(after)[i])
    requires |line + after| <= 8192
    ensures LastHash(p, Lines(Window(before + line + after))) == Decoded(p, line).hash
    ensures LastHash(p, Lines(before + line + after)) == Decoded(p, line).hash
  {
    var content := before + line + after;
    LastLineFound(p, before, line, after);
    if |content| > WINDOW {
      var cut := before[|content| - WINDOW..];
      assert Window(content) == cut + line + after;
      LastLineFound(p, cut, line, after);
    }
  }

  lemma LastLineFound(p: Primitives, before: seq<byte>, line: seq<byte>, after: seq<byte>)
    requires EndsLine(before)
    requires NEWLINE !in line && Decodes(p, line)
    requires after != [] ==> after[0] == NEWLINE
    requires forall i :: 0 <= i < |Lines(after)| ==> !Decodes(p, Lines(after)[i])
    ensures LastHash(p, Lines(before + line + after)) == Decoded(p, line).hash
  {
    ConcatAssoc(before, line, after);
    LinesConcat(before, line + after);
    var junk := LineThenJunk(p, line, after);
    ConcatAssoc(Lines(before), [line], junk);
    LastHashIgnoresJunk(p, Lines(before) + [line], junk);
  }

  lemma LineThenJunk(p: Primitives, line: seq<byte>, after: seq<byte>) returns (junk: seq<seq<byte>>)
    requires line != [] && NEWLINE !in line
    requires after != [] ==> after[0] == NEWLINE
    requires forall i :: 0 <= i < |Lines(after)| ==> !Decodes(p, Lines(after)[i])
    ensures Lines(line + after) == [line] + junk
    ensures forall i :: 0 <= i < |junk| ==> !Decodes(p, junk[i])
  {
    LinesOfOne(line, after);
    if after == [] {
      junk := [];
    } else {
      junk := Lines(after[1..]);
      assert after == [] + [NEWLINE] + after[1..];
      LinesCons([], after[1..]);
      assert forall i :: 0 <= i < |junk| ==> Lines(after)[i + 1] == junk[i];
    }
  }

  /** What the window holds of a last line: all of it, or its last 8191 bytes. */
  function ResumeTail(line: seq<byte>): seq<byte> {
    if |line| < WINDOW then line else line[|line| - (WINDOW - 1)..]
  }

  /** Of a last line longer than the window only that tail is looked at: unless it happens to
      decode, the chain restarts at "genesis". */
  lemma LongLineLosesChain(p: Primitives, before: seq<byte>, line: seq<byte>)
    requires NEWLINE !in line && |line| >= 8192
    ensures
      var tail := line[|line| - 8191..];
      && tail == ResumeTail(line)
      && LastHash(p, Lines(Window(before + line + [NEWLINE]))) ==
           if Decodes(p, tail) then Decoded(p, tail).hash else GENESIS
  {
    var tail := ResumeTail(line);
    assert Window(before + line + [NEWLINE]) == tail + [NEWLINE] + [];
    LinesCons(tail, []);
    LinesOfNothing();
    assert LastHash(p, [tail][..0]) == GENESIS;
  }

  lemma LinesOfNothing()
    ensures Lines([]) == []
  {
    LinesTerminated([]);
  }

  // ---- Logging ----

  datatype Config = Config(maxSizeMB: int, retention: bool, excludes: seq<ExcludeRule>)
  datatype ExcludeRule = ExcludeRule(identity: string, action: string, resource: string)

  predicate RuleMatches(rule: ExcludeRule, identity: string, action: string, resource: string) {
    && rule.identity == identity
    && (rule.action == "" || rule.action == action)
    && (rule.resource == "" || rule.resource == resource)
  }

  /** Only a success of a named identity that some rule matches is left out. A rule with an
      empty identity therefore never applies. */
  ghost predicate Suppressed(rules: seq<ExcludeRule>, identity: string, action: string,
                             resource: string, outcome: string) {
    outcome == "success" && identity != ""
    && exists i :: 0 <= i < |rules| && RuleMatches(rules[i], identity, action, resource)
  }

  /** What the comment on ExcludeRule says: an empty field, the identity included, matches all. */
  predicate DocumentedMatch(rule: ExcludeRule, identity: string, action: string, resource: string) {
    && (rule.identity == "" || rule.identity == identity)
    && (rule.action == "" || rule.action == action)
    && (rule.resource == "" || rule.resource == resource)
  }

  ghost predicate DocumentedSuppressed(rules: seq<ExcludeRule>, identity: string, action: string,
                                       resource: string, outcome: string) {
    outcome == "success" && exists i :: 0 <= i < |rules| && DocumentedMatch(rules[i], identity, action, resource)
  }

  predicate AllNamed(rules: seq<ExcludeRule>) {
    forall i :: 0 <= i < |rules| ==> rules[i].identity != ""
  }

  /** The code and the comment agree on these calls. */
  ghost predicate Agree(rules: seq<ExcludeRule>, identity: string, action: string, resource: string, outcome: string) {
    Suppressed(rules, identity, action, resource, outcome) ==
    DocumentedSuppressed(rules, identity, action, resource, outcome)
  }

  /** They agree on all calls exactly when no rule has an empty identity, and also when only
      named callers are looked at. */
  lemma CommentHoldsExactlyWhen(rules: seq<ExcludeRule>)
    ensures (forall identity, action, resource, outcome :: Agree(rules, identity, action, resource, outcome))
       <==> AllNamed(rules)
    ensures (forall identity, action, resource, outcome ::
               identity != "" ==> Agree(rules, identity, action, resource, outcome))
       <==> AllNamed(rules)
  {
    if AllNamed(rules) {
      forall identity, action, resource, outcome
        ensures Agree(rules, identity, action, resource, outcome)
      {
        assert forall i :: 0 <= i < |rules| ==>
          (DocumentedMatch(rules[i], identity, action, resource) <==>
            identity != "" && RuleMatches(rules[i], identity, action, resource));
      }
    } else {
      var i :| 0 <= i < |rules| && rules[i].identity == "";
      var stranger := Stranger(rules);
      StrangerIsNew(rules);
      assert DocumentedMatch(rules[i], stranger, rules[i].action, rules[i].resource);
      assert !Agree(rules, stranger, rules[i].action, rules[i].resource, "success");
    }
  }

  /** A rule with an empty identity, alone, suppresses nothing, although by the comment it does
      suppress every success on its action and resource. */
  lemma EmptyIdentityNeverApplies(rule: ExcludeRule, identity: string, action: string, resource: string)
    requires rule.identity == "" && DocumentedMatch(rule, identity, action, resource)
    ensures DocumentedSuppressed([rule], identity, action, resource, "success")
    ensures !Suppressed([rule], identity, action, resource, "success")
  {
    assert DocumentedMatch([rule][0], identity, action, resource);
  }

  /** A named caller that no rule names: longer than all of them together. */
  function Stranger(rules: seq<ExcludeRule>): string {
    if rules == [] then "x" else Stranger(rules[1..]) + rules[0].identity
  }

  lemma {:induction false} StrangerIsNew(rules: seq<ExcludeRule>)
    ensures Stranger(rules) != ""
    ensures forall i :: 0 <= i < |rules| ==> |rules[i].identity| < |Stranger(rules)|
  {
    if rules != [] {
      StrangerIsNew(rules[1..]);
      assert forall i :: 0 < i < |rules| ==> rules[i] == rules[1..][i - 1];
    }
  }

  /** What one call of Log meets: the caller's fields, the clock (also as text and as the
      retention cutoff), the random ID, and whether the write succeeds. */
  datatype Call = Call(draft: Event, now: int, stamp: Stamp, id: string, cutoff: int, writeOk: bool)

  /** The files on disk and the logger's memory. */
  datatype Agent = Agent(logs: Logs, key: seq<byte>, prevHash: string)

  function SealedEvent(p: Primitives, key: seq<byte>, prevHash: string, c: Call): Event {
    var e := c.draft.(ts := c.stamp, id := c.id, prevHash := prevHash);
    e.(hash := p.ComputeHash(key, e))
  }

  function AppendLine(logs: Logs, line: seq<byte>, now: int): Logs
    requires 0 in logs
  {
    logs[0 := LogFile(logs[0].content + line + [NEWLINE], now)]
  }

  function AfterLog(p: Primitives, cfg: Config, a: Agent, c: Call): Agent
    requires 0 in a.logs
  {
    var e := SealedEvent(p, a.key, a.prevHash, c);
    var line := p.encode(e);
    if line.None? then a.(prevHash := e.hash)
    else
      var logs := Rotated(a.logs, cfg.maxSizeMB, Retention(cfg.retention, c.cutoff), c.now);
      Agent(if c.writeOk then AppendLine(logs, line.value, c.now) else logs, a.key, e.hash)
  }

  function KeyAfterOpen(keyFile: Option<seq<byte>>, random: seq<byte>): seq<byte> {
    if keyFile.Some? && |keyFile.value| == KEY_SIZE then keyFile.value else random
  }

  function LogsAfterOpen(logs: Logs, now: int): (r: Logs)
    ensures 0 in r
  {
    if 0 in logs then logs else logs[0 := LogFile([], now)]
  }

  function AfterOpen(p: Primitives, logs: Logs, keyFile: Option<seq<byte>>, random: seq<byte>, now: int): Agent {
    var opened' := LogsAfterOpen(logs, now);
    Agent(opened', KeyAfterOpen(keyFile, random), LastHash(p, Lines(Window(opened'[0].content))))
  }

  /** A key file of 32 bytes is kept, anything else is replaced by the fresh key; an audit.log that
      exists is left as it is. */
  lemma OpeningKeepsWhatIsThere(p: Primitives, logs: Logs, keyFile: Option<seq<byte>>, random: seq<byte>, now: int)
    ensures
      var a := AfterOpen(p, logs, keyFile, random, now);
      && (keyFile.Some? && |keyFile.value| == 32 ==> a.key == keyFile.value)
      && (keyFile.None? || |keyFile.value| != 32 ==> a.key == random)
      && (0 in logs ==> a.logs == logs)
      && (0 !in logs ==> a.logs == logs[0 := LogFile([], now)] && a.prevHash == "genesis")
  {
    LinesOfNothing();
  }

  class FileLogger {
    const p: Primitives
    const cfg: Config
    const dir: LogDir
    const hmacKey: seq<byte>
    var prevHash: string

    /** The log file is open, and the key in memory is the one on disk. */
    ghost predicate Valid()
      reads this, dir
    {
      0 in dir.logs && dir.keyFile == Some(hmacKey) && |hmacKey| == KEY_SIZE
    }

    ghost function State(): Agent
      reads this, dir
    {
      Agent(dir.logs, hmacKey, prevHash)
    }

    constructor (p: Primitives, cfg: Config, dir: LogDir, random: seq<byte>, now: int)
      requires |random| == KEY_SIZE
      modifies dir
      ensures Valid() && this.p == p && this.cfg == cfg && this.dir == dir
      ensures State() == AfterOpen(p, old(dir.logs), old(dir.keyFile), random, now)
    {
      this.p, this.cfg, this.dir := p, cfg, dir;
      if 0 !in dir.logs {
        dir.logs := dir.logs[0 := LogFile([], now)];
      }
      var key := random;
      if dir.keyFile.Some? && |dir.keyFile.value| == KEY_SIZE {
        key := dir.keyFile.value;
      } else {
        dir.keyFile := Some(key);
      }
      this.hmacKey := key;
      var last := ReadLastHash(p, Some(dir.logs[0].content));
      this.prevHash := last;
    }

    method Log(c: Call)
      requires Valid()
      modifies this, dir`logs
      ensures Valid()
      ensures State() == AfterLog(p, cfg, old(State()), c)
    {
      var event := c.draft.(ts := c.stamp, id := c.id, prevHash := prevHash);
      event := event.(hash := p.ComputeHash(hmacKey, event));
      prevHash := event.hash;

      var data := p.encode(event);
      if data.None? { return; }

      dir.MaybeRotate(cfg.maxSizeMB, Retention(cfg.retention, c.cutoff), c.now);
      if c.writeOk {
        dir.logs := AppendLine(dir.logs, data.value, c.now);
      }
    }

    method ShouldLog(identity: string, action: string, resource: string, outcome: string) returns (yes: bool)
      ensures yes <==> !Suppressed(cfg.excludes, identity, action, resource, outcome)
    {
      if outcome != "success" { return true; }
      if identity == "" { return true; }
      for i := 0 to |cfg.excludes|
        invariant forall k :: 0 <= k < i ==> !RuleMatches(cfg.excludes[k], identity, action, resource)
      {
        var rule := cfg.excludes[i];
        if rule.identity != identity { continue; }
        if rule.action != "" && rule.action != action { continue; }
        if rule.resource != "" && rule.resource != resource { continue; }
        return false;
      }
      return true;
    }
  }
}
