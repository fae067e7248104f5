/** The line structure of a log file: splitLines, the newline-terminated form that the
    logger writes, and the lines that bufio.Scanner hands to the verifier. */
module LogLines {
  import opened Wrappers
  import opened Text
  import opened AuditEvent

  /** bufio.Scanner is given a buffer of one MiB and no room to grow. */
  const MAX_TOKEN := 0x10_0000

  ghost predicate EndsLine(data: seq<byte>) {
    data == [] || data[|data| - 1] == NEWLINE
  }

  /** The newline-separated lines, without the empty one after a final newline. */
  function Lines(data: seq<byte>): seq<seq<byte>> {
    WithoutEmptyLast(Split(data, NEWLINE))
  }

  function WithoutEmptyLast(parts: seq<seq<byte>>): seq<seq<byte>>
    requires parts != []
  {
    if parts[|parts| - 1] == [] then parts[..|parts| - 1] else parts
  }

  lemma WithoutEmptyLastConcat(a: seq<seq<byte>>, b: seq<seq<byte>>)
    requires b != []
    ensures WithoutEmptyLast(a + b) == a + WithoutEmptyLast(b)
  {
    assert (a + b)[|a + b| - 1] == b[|b| - 1];
    assert (a + b)[..|a + b| - 1] == a + b[..|b| - 1];
  }

  ghost predicate NewlineFree(lines: seq<seq<byte>>) {
    forall i :: 0 <= i < |lines| ==> NEWLINE !in lines[i]
  }

  function Terminated(lines: seq<seq<byte>>): seq<byte> {
    Ended(lines, NEWLINE)
  }

  method SplitLines(data: seq<byte>) returns (lines: seq<seq<byte>>)
    ensures lines == Lines(data)
  {
    lines := [];
    var start := 0;
    StartSplitting(data);
    for i := 0 to |data|
      invariant start <= i
      invariant forall k :: start <= k < i ==> data[k] != NEWLINE
      invariant SplitBefore(data, lines, start)
    {
      if data[i] == NEWLINE {
        SplitAtNewline(data, lines, start, i);
        lines := lines + [data[start..i]];
        start := i + 1;
      }
    }
    SplitAtEnd(data, lines, start);
    if start < |data| {
      lines := lines + [data[start..]];
    }
  }

  /** `lines` are the lines that end before position `start`. */
  ghost predicate SplitBefore(data: seq<byte>, lines: seq<seq<byte>>, start: nat)
    requires start <= |data|
  {
    Split(data, NEWLINE) == lines + Split(data[start..], NEWLINE)
  }

  lemma StartSplitting(data: seq<byte>)
    ensures SplitBefore(data, [], 0)
  {
    assert data[0..] == data;
  }

  lemma SplitAtNewline(data: seq<byte>, lines: seq<seq<byte>>, start: nat, i: nat)
    requires start <= i < |data| && data[i] == NEWLINE
    requires forall k :: start <= k < i ==> data[k] != NEWLINE
    requires SplitBefore(data, lines, start)
    ensures SplitBefore(data, lines + [data[start..i]], i + 1)
  {
    var line, rest := data[start..i], Split(data[i + 1..], NEWLINE);
    assert data[start..] == line + [NEWLINE] + data[i + 1..];
    SplitHead(line, NEWLINE, data[i + 1..]);
    assert lines + ([line] + rest) == lines + [line] + rest;
  }

  lemma SplitAtEnd(data: seq<byte>, lines: seq<seq<byte>>, start: nat)
    requires start <= |data| && forall k :: start <= k < |data| ==> data[k] != NEWLINE
    requires SplitBefore(data, lines, start)
    ensures Lines(data) == lines + (if start < |data| then [data[start..]] else [])
  {
    SplitWhole(data[start..], NEWLINE);
    WithoutEmptyLastConcat(lines, [data[start..]]);
  }

  lemma LinesConcat(a: seq<byte>, b: seq<byte>)
    requires EndsLine(a)
    ensures Lines(a + b) == Lines(a) + Lines(b)
  {
    SplitWhole<byte>([], NEWLINE);
    if a == [] {
      assert a + b == b;
    } else {
      var c := a[..|a| - 1];
      assert a == c + [NEWLINE] + [] && a + b == c + [NEWLINE] + b;
      SplitConcat(c, NEWLINE, []);
      SplitConcat(c, NEWLINE, b);
      WithoutEmptyLastConcat(Split(c, NEWLINE), [[]]);
      WithoutEmptyLastConcat(Split(c, NEWLINE), Split(b, NEWLINE));
    }
  }

  lemma LinesCons(line: seq<byte>, rest: seq<byte>)
    requires NEWLINE !in line
    ensures Lines(line + [NEWLINE] + rest) == [line] + Lines(rest)
  {
    SplitHead(line, NEWLINE, rest);
    WithoutEmptyLastConcat([line], Split(rest, NEWLINE));
  }

  /** A final line, whether or not its newline was written. */
  lemma LinesOfOne(line: seq<byte>, tail: seq<byte>)
    requires line != [] && NEWLINE !in line
    requires tail != [] ==> tail[0] == NEWLINE
    ensures Lines(line + tail) == [line] + (if tail == [] then [] else Lines(tail[1..]))
  {
    if tail == [] {
      assert line + tail == line;
      SplitWhole(line, NEWLINE);
    } else {
      assert line + tail == line + [NEWLINE] + tail[1..];
      LinesCons(line, tail[1..]);
    }
  }

  lemma {:induction false} TerminatedEndsLine(lines: seq<seq<byte>>)
    ensures EndsLine(Terminated(lines))
  {
    if lines != [] {
      TerminatedEndsLine(lines[1..]);
    }
  }

  /** splitLines undoes newline-terminated joining. */
  lemma LinesTerminated(lines: seq<seq<byte>>)
    requires NewlineFree(lines)
    ensures Lines(Terminated(lines)) == lines
  {
    SplitEnded(lines, NEWLINE);
  }

  /** And the other way round, up to a missing final newline. */
  lemma TerminatedLines(data: seq<byte>)
    ensures Terminated(Lines(data)) == (if EndsLine(data) then data else data + [NEWLINE])
    ensures NewlineFree(Lines(data))
  {
    JoinSplit(data, NEWLINE);
    var parts := Split(data, NEWLINE);
    var n := |parts| - 1;
    var last := parts[n];
    if n == 0 {
      assert data == last;
      if last != [] {
        EndedIsJoin(parts, NEWLINE);
        assert last[|last| - 1] in last;
      }
    } else {
      JoinSnoc(parts[..n], last, NEWLINE);
      assert parts == parts[..n] + [last];
      EndedIsJoin(parts[..n], NEWLINE);
      EndedIsJoin(parts, NEWLINE);
      assert data == Terminated(parts[..n]) + last;
      if last != [] {
        assert data[|data| - 1] == last[|last| - 1];
        assert last[|last| - 1] in last;
      }
    }
  }

  /** ScanLines strips one trailing carriage return. */
  function DropCR(line: seq<byte>): seq<byte> {
    if line != [] && line[|line| - 1] == CARRIAGE_RETURN then line[..|line| - 1] else line
  }

  /** The non-empty lines the scanner delivers, and whether it stopped with ErrTooLong. */
  datatype Scan = Scan(tokens: seq<seq<byte>>, tooLong: bool)

  function Scanned(lines: seq<seq<byte>>): Scan {
    if lines == [] then Scan([], false)
    else if |lines[0]| >= MAX_TOKEN then Scan([], true)
    else
      var rest := Scanned(lines[1..]);
      var token := DropCR(lines[0]);
      if token == [] then rest else Scan([token] + rest.tokens, rest.tooLong)
  }

  /** The non-empty lines, each without its carriage return. */
  function NonEmpty(lines: seq<seq<byte>>): seq<seq<byte>> {
    if lines == [] then []
    else (if DropCR(lines[0]) == [] then [] else [DropCR(lines[0])]) + NonEmpty(lines[1..])
  }

  /** One trailing carriage return goes, anything else stays. */
  lemma DropCRMeaning(line: seq<byte>)
    ensures DropCR(line + [13]) == line
    ensures line == [] || line[|line| - 1] != 13 ==> DropCR(line) == line
  {}

  /** As long as every line is below one MiB the scanner delivers all non-empty ones. */
  lemma {:induction false} ShortLinesScanned(lines: seq<seq<byte>>)
    requires forall i :: 0 <= i < |lines| ==> |lines[i]| < 0x10_0000
    ensures Scanned(lines) == Scan(NonEmpty(lines), false)
  {
    if lines != [] {
      ShortLinesScanned(lines[1..]);
    }
  }

  /** The first line of one MiB or more stops it: nothing after that is looked at. */
  lemma {:induction false} LongLineStopsScan(lines: seq<seq<byte>>, k: nat)
    requires k < |lines| && |lines[k]| >= 0x10_0000
    requires forall i :: 0 <= i < k ==> |lines[i]| < 0x10_0000
    ensures Scanned(lines) == Scan(NonEmpty(lines[..k]), true)
  {
    if k > 0 {
      LongLineStopsScan(lines[1..], k - 1);
      assert lines[..k] == [lines[0]] + lines[1..][..k - 1];
    }
  }

  /** So what the verifier sees can be told from the lengths of the lines. */
  lemma ScanExactlyWhen(lines: seq<seq<byte>>)
    ensures Scanned(lines).tooLong <==> exists i :: 0 <= i < |lines| && |lines[i]| >= 0x10_0000
    ensures !Scanned(lines).tooLong ==> Scanned(lines).tokens == NonEmpty(lines)
  {
    if exists i :: 0 <= i < |lines| && |lines[i]| >= 0x10_0000 {
      var k := FirstLong(lines);
      LongLineStopsScan(lines, k);
    } else {
      ShortLinesScanned(lines);
    }
  }

  lemma {:induction false} FirstLong(lines: seq<seq<byte>>) returns (k: nat)
    requires exists i :: 0 <= i < |lines| && |lines[i]| >= 0x10_0000
    ensures k < |lines| && |lines[k]| >= 0x10_0000
    ensures forall i :: 0 <= i < k ==> |lines[i]| < 0x10_0000
  {
    k := 0;
    while |lines[k]| < 0x10_0000
      invariant k < |lines| && forall i :: 0 <= i < k ==> |lines[i]| < 0x10_0000
      decreases |lines| - k
    {
      var i :| 0 <= i < |lines| && |lines[i]| >= 0x10_0000;
      k := k + 1;
    }
  }

  ghost predicate IsPlain(line: seq<byte>) {
    line != [] && CARRIAGE_RETURN !in line
  }

  /** How many lines the scanner delivers: those before the first one that is too long. */
  function Delivered(lines: seq<seq<byte>>): (n: nat)
    ensures n <= |lines|
  {
    if lines == [] || |lines[0]| >= MAX_TOKEN then 0 else 1 + Delivered(lines[1..])
  }

  /** Lines of ordinary content reach the verifier as they were written, up to the first one that
      is too long. */
  lemma {:induction false} ScannedPlain(lines: seq<seq<byte>>)
    requires forall i :: 0 <= i < |lines| ==> IsPlain(lines[i])
    ensures Scanned(lines) == Scan(lines[..Delivered(lines)], Delivered(lines) < |lines|)
  {
    if lines != [] && |lines[0]| < MAX_TOKEN {
      ScannedPlain(lines[1..]);
      assert lines[..Delivered(lines)] == [lines[0]] + lines[1..][..Delivered(lines[1..])];
    }
  }

  /** Lines below one MiB are all delivered. */
  lemma {:induction false} AllDelivered(lines: seq<seq<byte>>)
    ensures Delivered(lines) == |lines| <==> forall i :: 0 <= i < |lines| ==> |lines[i]| < 0x10_0000
  {
    if lines != [] {
      AllDelivered(lines[1..]);
      assert forall i :: 0 < i < |lines| ==> lines[i] == lines[1..][i - 1];
    }
  }
}
