/** /etc/resolv.conf as machineconfig writes and reads it. */
module Resolv {
  import opened Text
  import opened GoStrings

  function ServerLines(servers: seq<string>): (r: seq<string>)
    ensures |r| == |servers| && forall i :: 0 <= i < |r| ==> r[i] == "nameserver " + servers[i]
  {
    seq(|servers|, i requires 0 <= i < |servers| => "nameserver " + servers[i])
  }

  function ResolvText(servers: seq<string>): string {
    Ended(ServerLines(servers), '\n')
  }

  method RenderResolv(servers: seq<string>) returns (b: string)
    ensures b == ResolvText(servers)
  {
    b := "";
    for i := 0 to |servers|
      invariant b == Ended(ServerLines(servers)[..i], '\n')
    {
      TextStep(servers, i);
      b := b + "nameserver " + servers[i] + "\n";
    }
    assert ServerLines(servers)[..|servers|] == ServerLines(servers);
  }

  lemma TextStep(servers: seq<string>, i: nat)
    requires i < |servers|
    ensures Ended(ServerLines(servers)[..i + 1], '\n')
         == Ended(ServerLines(servers)[..i], '\n') + "nameserver " + servers[i] + "\n"
  {
    var lines := ServerLines(servers);
    assert lines[..i + 1] == lines[..i] + [lines[i]];
    EndedConcat(lines[..i], [lines[i]], '\n');
    assert [lines[i]][1..] == [];
    assert Ended([lines[i]], '\n') == lines[i] + "\n" + Ended<char>([], '\n');
  }

  function ServerOnLine(raw: string): seq<string> {
    var line := TrimSpace(raw);
    if HasPrefix(line, "nameserver ") then [TrimPrefix(line, "nameserver ")] else []
  }

  function ServersIn(lines: seq<string>): seq<string> {
    if lines == [] then [] else ServersIn(lines[..|lines| - 1]) + ServerOnLine(lines[|lines| - 1])
  }

  function ParsedResolv(content: string): seq<string> {
    ServersIn(Split(content, '\n'))
  }

  method ReadDNS(content: string) returns (servers: seq<string>)
    ensures servers == ParsedResolv(content)
  {
    servers := [];
    var lines := Split(content, '\n');
    for i := 0 to |lines|
      invariant servers == ServersIn(lines[..i])
    {
      assert lines[..i + 1][..i] == lines[..i];
      var line := TrimSpace(lines[i]);
      if HasPrefix(line, "nameserver ") {
        servers := servers + [TrimPrefix(line, "nameserver ")];
      }
    }
    assert lines[..|lines|] == lines;
  }

  /** A server that a line of resolv.conf can carry. */
  predicate Writable(server: string) {
    server != "" && !IsSpace(server[|server| - 1]) && '\n' !in server
  }

  lemma ServerLineBack(server: string)
    requires Writable(server)
    ensures ServerOnLine("nameserver " + server) == [server]
    ensures '\n' !in "nameserver " + server
  {
    var line := "nameserver " + server;
    assert line[|line| - 1] == server[|server| - 1];
    TrimmedIsFixed(line);
    assert line[11..] == server;
  }

  lemma {:induction false} ServersBack(servers: seq<string>, n: nat)
    requires n <= |servers| && forall i :: 0 <= i < |servers| ==> Writable(servers[i])
    ensures ServersIn(ServerLines(servers)[..n]) == servers[..n]
  {
    if n > 0 {
      var lines := ServerLines(servers);
      assert lines[..n][..n - 1] == lines[..n - 1];
      ServersBack(servers, n - 1);
      assert Writable(servers[n - 1]);
      ServerLineBack(servers[n - 1]);
      assert servers[..n] == servers[..n - 1] + [servers[n - 1]];
    }
  }

  lemma {:induction false} ServersAreWritable(lines: seq<string>)
    requires forall i :: 0 <= i < |lines| ==> '\n' !in lines[i]
    ensures forall i :: 0 <= i < |ServersIn(lines)| ==> Writable(ServersIn(lines)[i])
  {
    if lines != [] {
      ServersAreWritable(lines[..|lines| - 1]);
      ServerOnLineWritable(lines[|lines| - 1]);
    }
  }

  lemma ServerOnLineWritable(raw: string)
    requires '\n' !in raw
    ensures forall i :: 0 <= i < |ServerOnLine(raw)| ==> Writable(ServerOnLine(raw)[i])
  {
    TrimSpaceStretch(raw);
    var line := TrimSpace(raw);
    if HasPrefix(line, "nameserver ") {
      assert line[10] == ' ';
      var server := line[11..];
      assert server != "" ==> server[|server| - 1] == line[|line| - 1];
      assert forall k :: 0 <= k < |server| ==> server[k] == line[11 + k];
    }
  }

  lemma WrittenServersBack(servers: seq<string>)
    requires forall i :: 0 <= i < |servers| ==> Writable(servers[i])
    ensures ParsedResolv(ResolvText(servers)) == servers
  {
    var lines := ServerLines(servers);
    forall i | 0 <= i < |lines|
      ensures '\n' !in lines[i]
    {
      assert Writable(servers[i]);
      ServerLineBack(servers[i]);
    }
    SplitEnded(lines, '\n');
    ServersBack(servers, |servers|);
    assert lines[..|servers|] == lines && servers[..|servers|] == servers;
    assert (lines + [""])[..|lines|] == lines;
  }

  /** Reading gives back the written servers exactly when each is non-empty, on one line and
      does not end in white space. */
  lemma RoundTrip(servers: seq<string>)
    ensures ParsedResolv(ResolvText(servers)) == servers
       <==> forall i :: 0 <= i < |servers| ==> Writable(servers[i])
  {
    if forall i :: 0 <= i < |servers| ==> Writable(servers[i]) {
      WrittenServersBack(servers);
    }
    var lines := Split(ResolvText(servers), '\n');
    JoinSplit(ResolvText(servers), '\n');
    ServersAreWritable(lines);
  }

  lemma {:induction false} ServersConcat(a: seq<string>, b: seq<string>)
    ensures ServersIn(a + b) == ServersIn(a) + ServersIn(b)
    decreases |b|
  {
    if b == [] {
      assert a + b == a;
    } else {
      assert (a + b)[..|a| + |b| - 1] == a + b[..|b| - 1];
      ServersConcat(a, b[..|b| - 1]);
    }
  }

  /** Lines of other kinds, and comments, contribute nothing wherever they stand. */
  lemma OtherLinesIgnored(lines: seq<string>, other: string, more: seq<string>)
    requires !("nameserver " <= TrimSpace(other))
    ensures ServersIn(lines + [other] + more) == ServersIn(lines + more)
  {
    ServersConcat(lines + [other], more);
    ServersConcat(lines, more);
    OtherLineLast(lines, other);
  }

  lemma OtherLineLast(lines: seq<string>, other: string)
    requires !("nameserver " <= TrimSpace(other))
    ensures ServersIn(lines + [other]) == ServersIn(lines)
  {
    assert (lines + [other])[..|lines|] == lines;
  }
}
