/** The hash chain over sequences of events, and the hash a reader finds at the end of a
    sequence of lines. */
module AuditChain {
  import opened Wrappers
  import opened Text
  import opened AuditEvent
  import opened LogLines

  /** The hash that the next event after `evs` must link to. */
  function Tip(evs: seq<Event>, start: string): string {
    if evs == [] then start else evs[|evs| - 1].hash
  }

  ghost predicate Chain(p: Primitives, key: seq<byte>, start: string, evs: seq<Event>) {
    forall i :: 0 <= i < |evs| ==> LinkedAt(p, key, start, evs, i)
  }

  ghost predicate LinkedAt(p: Primitives, key: seq<byte>, start: string, evs: seq<Event>, i: nat)
    requires i < |evs|
  {
    p.Sealed(key, evs[i]) && evs[i].prevHash == Tip(evs[..i], start)
  }

  lemma ChainSnoc(p: Primitives, key: seq<byte>, start: string, evs: seq<Event>, e: Event)
    ensures Chain(p, key, start, evs + [e])
       <==> Chain(p, key, start, evs) && p.Sealed(key, e) && e.prevHash == Tip(evs, start)
  {
    var all := evs + [e];
    assert all[..|evs|] == evs;
    forall i | 0 <= i < |evs|
      ensures LinkedAt(p, key, start, evs, i) <==> LinkedAt(p, key, start, all, i)
    {
      assert all[..i] == evs[..i];
    }
    if Chain(p, key, start, all) {
      assert LinkedAt(p, key, start, all, |evs|);
    }
  }

  /** A chain cut anywhere is a chain followed by a chain that starts at the first one's tip. */
  lemma ChainConcat(p: Primitives, key: seq<byte>, start: string, a: seq<Event>, b: seq<Event>)
    ensures Chain(p, key, start, a + b)
       <==> Chain(p, key, start, a) && Chain(p, key, Tip(a, start), b)
    decreases |b|
  {
    if b == [] {
      assert a + b == a;
    } else {
      var n := |b| - 1;
      assert a + b == a + b[..n] + [b[n]] && b == b[..n] + [b[n]];
      ChainSnoc(p, key, start, a + b[..n], b[n]);
      ChainSnoc(p, key, Tip(a, start), b[..n], b[n]);
      ChainConcat(p, key, start, a, b[..n]);
    }
  }

  /** What the logger writes, one line per event. */
  ghost predicate Encodable(p: Primitives, evs: seq<Event>) {
    forall i :: 0 <= i < |evs| ==> p.encode(evs[i]).Some?
  }

  ghost function Encoded(p: Primitives, evs: seq<Event>): (lines: seq<seq<byte>>)
    requires Encodable(p, evs)
    ensures |lines| == |evs|
    ensures forall i :: 0 <= i < |evs| ==> lines[i] == p.encode(evs[i]).value
  {
    seq(|evs|, i requires 0 <= i < |evs| => p.encode(evs[i]).value)
  }

  ghost function Content(p: Primitives, evs: seq<Event>): seq<byte>
    requires Encodable(p, evs)
  {
    Terminated(Encoded(p, evs))
  }

  lemma ContentConcat(p: Primitives, a: seq<Event>, b: seq<Event>)
    requires Encodable(p, a) && Encodable(p, b)
    ensures Encodable(p, a + b)
    ensures Content(p, a + b) == Content(p, a) + Content(p, b)
  {
    assert Encoded(p, a + b) == Encoded(p, a) + Encoded(p, b);
    EndedConcat(Encoded(p, a), Encoded(p, b), NEWLINE);
  }

  lemma ContentOfOne(p: Primitives, e: Event)
    requires p.encode(e).Some?
    ensures Encodable(p, [e]) && Content(p, [e]) == p.encode(e).value + [NEWLINE]
  {
    var line := p.encode(e).value;
    var lines := Encoded(p, [e]);
    assert lines[0] == line && lines[1..] == [];
    assert Terminated(lines) == line + [NEWLINE] + Terminated(lines[1..]);
    assert line + [NEWLINE] + [] == line + [NEWLINE];
  }

  lemma ContentLines(p: Primitives, evs: seq<Event>)
    requires p.Sound() && Encodable(p, evs)
    ensures Lines(Content(p, evs)) == Encoded(p, evs)
    ensures EndsLine(Content(p, evs))
  {
    forall i | 0 <= i < |evs|
      ensures NEWLINE !in Encoded(p, evs)[i]
    {
      assert p.IsLineOf(evs[i], p.encode(evs[i]).value);
    }
    LinesTerminated(Encoded(p, evs));
    TerminatedEndsLine(Encoded(p, evs));
  }

  predicate Decodes(p: Primitives, line: seq<byte>) {
    line != [] && p.decode(line).Some?
  }

  function Decoded(p: Primitives, line: seq<byte>): Event
    requires Decodes(p, line)
  {
    p.decode(line).value
  }

  /** The hash of the last decodable line, or "genesis". */
  function LastHash(p: Primitives, lines: seq<seq<byte>>): string {
    if lines == [] then GENESIS
    else
      var n := |lines| - 1;
      if Decodes(p, lines[n]) then Decoded(p, lines[n]).hash else LastHash(p, lines[..n])
  }

  lemma {:induction false} LastHashIgnoresJunk(p: Primitives, lines: seq<seq<byte>>, junk: seq<seq<byte>>)
    requires forall i :: 0 <= i < |junk| ==> !Decodes(p, junk[i])
    ensures LastHash(p, lines + junk) == LastHash(p, lines)
    decreases |junk|
  {
    if junk == [] {
      assert lines + junk == lines;
    } else {
      var n := |junk| - 1;
      assert (lines + junk)[..|lines| + n] == lines + junk[..n];
      LastHashIgnoresJunk(p, lines, junk[..n]);
    }
  }

  lemma LastHashOfEvents(p: Primitives, evs: seq<Event>)
    requires p.Sound() && Encodable(p, evs)
    ensures LastHash(p, Encoded(p, evs)) == Tip(evs, GENESIS)
  {
    if evs != [] {
      var n := |evs| - 1;
      assert p.IsLineOf(evs[n], p.encode(evs[n]).value);
    }
  }
}
