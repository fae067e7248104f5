/** Audit events, the string that is fed to the MAC, and the two foreign primitives
    (HMAC-SHA256 and the JSON codec) as function values with their assumed shape. */
module AuditEvent {
  import opened Wrappers
  import opened Text

  const NEWLINE: byte := 10
  const CARRIAGE_RETURN: byte := 13
  const GENESIS := "genesis"

  predicate IsStamp(s: string) {
    forall c :: c in s ==> c in "0123456789-:.+TZ"
  }

  /** A time.Time, represented by its RFC 3339 rendering with nanoseconds. */
  type Stamp = s: string | IsStamp(s)

  datatype Event = Event(
    ts: Stamp,
    id: string,
    kind: string,
    identity: string,
    action: string,
    resourceType: string,
    resourceId: string,
    outcome: string,
    peer: string,
    detail: map<string, string>,
    prevHash: string,
    hash: string)

  /** The ten strings covered by the MAC, in order. Detail is not among them. */
  function MacFields(e: Event): seq<string> {
    [e.ts, e.id, e.kind, e.identity, e.action, e.resourceType, e.resourceId, e.outcome, e.peer, e.prevHash]
  }

  function MacInput(e: Event): string {
    Join(MacFields(e), '|')
  }

  /** HMAC-SHA256 in hex, and the JSON codec, as the program sees them. */
  datatype Primitives = Primitives(
    mac: (seq<byte>, string) -> string,
    encode: Event -> Option<seq<byte>>,
    decode: seq<byte> -> Option<Event>)
  {
    /** What is assumed of the foreign code: a MAC is 64 hex digits; an encoding is a
        non-empty byte string without CR or LF that decodes to the event it came from.
        No MAC is assumed to be collision-free here. */
    ghost predicate Sound() {
      && (forall k, s :: IsHexMac(mac(k, s)))
      && (forall e :: encode(e).Some? ==> IsLineOf(e, encode(e).value))
    }

    ghost predicate IsLineOf(e: Event, line: seq<byte>) {
      && line != []
      && NEWLINE !in line
      && CARRIAGE_RETURN !in line
      && decode(line) == Some(e)
    }

    function ComputeHash(key: seq<byte>, e: Event): string {
      mac(key, MacInput(e))
    }

    ghost predicate Sealed(key: seq<byte>, e: Event) {
      e.hash == ComputeHash(key, e)
    }

    /** Among these MAC inputs no two different ones have the same MAC under `key`. */
    ghost predicate CollisionFree(key: seq<byte>, inputs: set<string>) {
      forall x, y :: x in inputs && y in inputs && mac(key, x) == mac(key, y) ==> x == y
    }
  }

  ghost function Inputs(evs: seq<Event>): set<string> {
    set e | e in evs :: MacInput(e)
  }

  predicate IsHexMac(s: string) {
    |s| == 64 && forall c :: c in s ==> c in "0123456789abcdef"
  }

  /** The link of an event is always recoverable from its MAC input, whatever the other fields. */
  lemma PrevHashRecovered(a: Event, b: Event)
    requires MacInput(a) == MacInput(b)
    requires '|' !in a.prevHash && '|' !in b.prevHash
    ensures a.prevHash == b.prevHash
  {
    JoinSnoc(MacFields(a)[..9], a.prevHash, '|');
    JoinSnoc(MacFields(b)[..9], b.prevHash, '|');
    assert MacFields(a) == MacFields(a)[..9] + [a.prevHash];
    assert MacFields(b) == MacFields(b)[..9] + [b.prevHash];
    LastSegmentUnique(Join(MacFields(a)[..9], '|'), a.prevHash, Join(MacFields(b)[..9], '|'), b.prevHash, '|');
  }

  /** So are the timestamp and, as generated IDs are hex, the ID. */
  lemma StampAndIdRecovered(a: Event, b: Event)
    requires MacInput(a) == MacInput(b)
    requires '|' !in a.id && '|' !in b.id
    ensures a.ts == b.ts && a.id == b.id
  {
    var restA, restB := MacFields(a)[1..], MacFields(b)[1..];
    FirstSegmentUnique(a.ts, Join(restA, '|'), b.ts, Join(restB, '|'), '|');
    FirstSegmentUnique(a.id, Join(restA[1..], '|'), b.id, Join(restB[1..], '|'), '|');
  }

  ghost predicate BarFree(e: Event) {
    forall f :: f in MacFields(e) ==> '|' !in f
  }

  /** Moving a separator from one part to the next leaves the joined string unchanged. */
  lemma {:induction false} JoinReassociates(pre: seq<string>, x: string, y: string, z: string, post: seq<string>)
    ensures Join(pre + [x + "|" + y, z] + post, '|') == Join(pre + [x, y + "|" + z] + post, '|')
  {
    var a, b := pre + [x + "|" + y, z] + post, pre + [x, y + "|" + z] + post;
    if pre == [] {
      assert a[1..] == [z] + post && b[1..] == [y + "|" + z] + post;
      if post != [] {
        assert a[1..][1..] == post && b[1..][1..] == post;
      }
      assert Join(a[1..], '|') == z + (if post == [] then "" else "|" + Join(post, '|'));
      assert Join(b[1..], '|') == y + "|" + z + (if post == [] then "" else "|" + Join(post, '|'));
    } else {
      assert a[1..] == pre[1..] + [x + "|" + y, z] + post;
      assert b[1..] == pre[1..] + [x, y + "|" + z] + post;
      JoinReassociates(pre[1..], x, y, z, post);
    }
  }

  function WithFields(e: Event, f: seq<string>): Event
    requires |f| == 10 && IsStamp(f[0])
  {
    Event(f[0], f[1], f[2], f[3], f[4], f[5], f[6], f[7], f[8], e.detail, f[9], e.hash)
  }

  /** A part holding a separator can give what follows it to the next part, or, when it is
      the last one, take what precedes it to the part before. */
  lemma BarMoves(f: seq<string>, i: nat) returns (g: seq<string>)
    requires 0 < i < |f| && '|' in f[i] && '|' !in f[0] && |f| > 2
    ensures |g| == |f| && g != f && g[0] == f[0]
    ensures Join(g, '|') == Join(f, '|')
  {
    var k := Index(f[i], '|');
    CutAtIndex(f[i], '|');
    var x, y := f[i][..k], f[i][k + 1..];
    if i + 1 < |f| {
      g := f[..i] + [x, y + "|" + f[i + 1]] + f[i + 2..];
      assert f == f[..i] + [x + "|" + y, f[i + 1]] + f[i + 2..];
      JoinReassociates(f[..i], x, y, f[i + 1], f[i + 2..]);
      assert g[i] == x;
    } else {
      g := f[..i - 1] + [f[i - 1] + "|" + x, y] + [];
      assert f == f[..i - 1] + [f[i - 1], x + "|" + y] + [];
      JoinReassociates(f[..i - 1], f[i - 1], x, y, []);
      assert g[i] == y;
    }
  }

  /** An event with a bar in some field has a different twin with the same MAC input. */
  lemma TwinOf(e: Event) returns (twin: Event)
    requires !BarFree(e)
    ensures MacInput(twin) == MacInput(e) && MacFields(twin) != MacFields(e)
  {
    var f := MacFields(e);
    var i :| 0 <= i < |f| && '|' in f[i];
    var g := BarMoves(f, i);
    twin := WithFields(e, g);
    assert MacFields(twin) == g;
  }

  /** The MAC input pins down the ten covered fields exactly when none of them holds a bar. */
  lemma MacInputPinsFields(e: Event)
    ensures BarFree(e) <==> forall e2: Event :: MacInput(e2) == MacInput(e) ==> MacFields(e2) == MacFields(e)
  {
    if BarFree(e) {
      SplitJoin(MacFields(e), '|');
      forall e2: Event | MacInput(e2) == MacInput(e)
        ensures MacFields(e2) == MacFields(e)
      {
        JoinSegments(MacFields(e2), '|');
        SplitJoin(MacFields(e2), '|');
      }
    } else {
      var twin := TwinOf(e);
    }
  }

  /** While none of these fields holds a bar, cutting the input at the bars gives the ten fields in
      this order, so an event with the same input agrees in each of them. */
  lemma SameInputSameFields(a: Event, b: Event)
    requires '|' !in a.id && '|' !in a.kind && '|' !in a.identity && '|' !in a.action && '|' !in a.resourceType
    requires '|' !in a.resourceId && '|' !in a.outcome && '|' !in a.peer && '|' !in a.prevHash
    ensures Split(MacInput(a), '|') ==
      [a.ts, a.id, a.kind, a.identity, a.action, a.resourceType, a.resourceId, a.outcome, a.peer, a.prevHash]
    ensures MacInput(a) == MacInput(b) ==>
      && a.ts == b.ts && a.id == b.id && a.kind == b.kind && a.identity == b.identity && a.action == b.action
      && a.resourceType == b.resourceType && a.resourceId == b.resourceId && a.outcome == b.outcome
      && a.peer == b.peer && a.prevHash == b.prevHash
  {
    assert BarFree(a);
    SplitJoin(MacFields(a), '|');
    MacInputPinsFields(a);
    if MacInput(a) == MacInput(b) {
      FieldsAgree(a, b);
    }
  }

  lemma FieldsAgree(a: Event, b: Event)
    requires MacFields(a) == MacFields(b)
    ensures a.ts == b.ts && a.id == b.id && a.kind == b.kind && a.identity == b.identity && a.action == b.action
    ensures a.resourceType == b.resourceType && a.resourceId == b.resourceId && a.outcome == b.outcome
    ensures a.peer == b.peer && a.prevHash == b.prevHash
  {
    var f, g := MacFields(a), MacFields(b);
    assert f[0] == g[0] && f[1] == g[1] && f[2] == g[2] && f[3] == g[3] && f[4] == g[4];
    assert f[5] == g[5] && f[6] == g[6] && f[7] == g[7] && f[8] == g[8] && f[9] == g[9];
  }
}
