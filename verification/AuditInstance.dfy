/** The assumptions on the foreign code and on the events can be met together: a codec and a MAC,
    sound and free of collisions on any given chain. */
module AuditInstance {
  import opened Wrappers
  import opened Text
  import opened GoStrings
  import opened AuditEvent
  import opened AuditChain
  import opened AuditTamper
  import opened AuditLogger
  import opened AuditHistory

  /** Three digits to base 128, each as a byte above 127. */
  function CharBytes(c: char): (r: seq<byte>)
    ensures |r| == 3 && forall x :: x in r ==> x >= 128
  {
    var n := c as nat;
    [(128 + n / 0x4000) as byte, (128 + n / 0x80 % 0x80) as byte, (128 + n % 0x80) as byte]
  }

  lemma CharBytesInjective(c: char, d: char)
    requires CharBytes(c) == CharBytes(d)
    ensures c == d
  {
    assert CharBytes(c)[0] == CharBytes(d)[0] && CharBytes(c)[1] == CharBytes(d)[1];
    assert CharBytes(c)[2] == CharBytes(d)[2];
    Digits(c as nat);
    Digits(d as nat);
  }

  lemma Digits(n: nat)
    ensures n == n / 0x4000 * 0x4000 + n / 0x80 % 0x80 * 0x80 + n % 0x80
  {}

  function EncodeString(s: string): seq<byte> {
    if s == "" then [3] else CharBytes(s[0]) + EncodeString(s[1..])
  }

  function EncodeList(parts: seq<string>): seq<byte> {
    if parts == [] then [4] else EncodeString(parts[0]) + EncodeList(parts[1..])
  }

  lemma {:induction false} StringPrefixFree(s: string, a: seq<byte>, t: string, b: seq<byte>)
    requires EncodeString(s) + a == EncodeString(t) + b
    ensures s == t && a == b
  {
    var left, right := EncodeString(s) + a, EncodeString(t) + b;
    if s == "" || t == "" {
      assert left[0] == right[0];
      assert s == "" && t == "";
      assert a == left[1..] && b == right[1..];
    } else {
      assert left == CharBytes(s[0]) + (EncodeString(s[1..]) + a);
      assert right == CharBytes(t[0]) + (EncodeString(t[1..]) + b);
      assert CharBytes(s[0]) == left[..3] == right[..3] == CharBytes(t[0]);
      assert EncodeString(s[1..]) + a == left[3..] == right[3..] == EncodeString(t[1..]) + b;
      CharBytesInjective(s[0], t[0]);
      StringPrefixFree(s[1..], a, t[1..], b);
      assert s == [s[0]] + s[1..] && t == [t[0]] + t[1..];
    }
  }

  lemma StringStart(s: string)
    ensures EncodeString(s) != [] && EncodeString(s)[0] != 4
  {}

  lemma {:induction false} ListInjective(a: seq<string>, b: seq<string>)
    requires EncodeList(a) == EncodeList(b)
    ensures a == b
  {
    if a != [] { StringStart(a[0]); }
    if b != [] { StringStart(b[0]); }
    if a != [] && b != [] {
      StringPrefixFree(a[0], EncodeList(a[1..]), b[0], EncodeList(b[1..]));
      ListInjective(a[1..], b[1..]);
    }
  }

  lemma {:induction false} StringBytes(s: string)
    ensures forall x :: x in EncodeString(s) ==> x == 3 || x >= 128
    ensures |EncodeString(s)| == 3 * |s| + 1
  {
    if s != "" { StringBytes(s[1..]); }
  }

  function TotalLength(parts: seq<string>): nat {
    if parts == [] then 0 else |parts[0]| + TotalLength(parts[1..])
  }

  /** Three bytes a character and one a part: far below the window for an event of ordinary size. */
  lemma {:induction false} ListBytes(parts: seq<string>)
    ensures forall x :: x in EncodeList(parts) ==> x == 3 || x == 4 || x >= 128
    ensures EncodeList(parts) != []
    ensures |EncodeList(parts)| == 3 * TotalLength(parts) + |parts| + 1
  {
    if parts != [] {
      StringBytes(parts[0]);
      ListBytes(parts[1..]);
    }
  }

  ghost function Listing(m: map<string, string>): seq<string> {
    if m == map[] then []
    else
      var k :| k in m;
      [k, m[k]] + Listing(m - {k})
  }

  ghost function Rebuild(l: seq<string>): map<string, string> {
    if |l| < 2 then map[] else Rebuild(l[2..])[l[0] := l[1]]
  }

  lemma {:induction false} ListingRebuilds(m: map<string, string>)
    ensures Rebuild(Listing(m)) == m
    decreases m.Keys
  {
    if m != map[] {
      var l := Listing(m);
      var k := l[0];
      assert l[2..] == Listing(m - {k}) && k in m && l[1] == m[k];
      ListingRebuilds(m - {k});
    }
  }

  ghost function EventParts(e: Event): seq<string> {
    MacFields(e) + [e.hash] + Listing(e.detail)
  }

  lemma EncodingInjective(a: Event, b: Event)
    requires EncodeList(EventParts(a)) == EncodeList(EventParts(b))
    ensures a == b
  {
    ListInjective(EventParts(a), EventParts(b));
    var x, y := EventParts(a), EventParts(b);
    assert MacFields(a) == x[..10] == y[..10] == MacFields(b);
    assert a.hash == x[10] == y[10] == b.hash;
    assert Listing(a.detail) == x[11..] == y[11..] == Listing(b.detail);
    ListingRebuilds(a.detail);
    ListingRebuilds(b.detail);
    SameFields(a, b);
  }

  lemma SameFields(a: Event, b: Event)
    requires MacFields(a) == MacFields(b) && a.hash == b.hash && a.detail == b.detail
    ensures a == b
  {
    assert a == WithFields(a, MacFields(a));
    assert b == WithFields(b, MacFields(b));
  }

  ghost function Decode(line: seq<byte>): Option<Event> {
    if e: Event :| EncodeList(EventParts(e)) == line then Some(e) else None
  }

  function Pow16(width: nat): nat {
    if width == 0 then 1 else 16 * Pow16(width - 1)
  }

  lemma {:induction false} HexDigits(n: nat, width: nat)
    ensures |Hex(n, width)| == width && forall c :: c in Hex(n, width) ==> c in "0123456789abcdef"
  {
    if width > 0 { HexDigits(n / 16, width - 1); }
  }

  lemma {:induction false} HexInjective(a: nat, b: nat, width: nat)
    requires a < Pow16(width) && b < Pow16(width) && Hex(a, width) == Hex(b, width)
    ensures a == b
  {
    if width > 0 {
      var x, y := Hex(a / 16, width - 1), Hex(b / 16, width - 1);
      HexDigits(a / 16, width - 1);
      HexDigits(b / 16, width - 1);
      assert x == Hex(a, width)[..width - 1] == Hex(b, width)[..width - 1] == y;
      assert HexDigit(a % 16) == Hex(a, width)[width - 1] == Hex(b, width)[width - 1] == HexDigit(b % 16);
      HexInjective(a / 16, b / 16, width - 1);
    }
  }

  /** Names for the numbers below n: 64 hex digits, and different for different numbers. */
  ghost predicate Naming(name: nat -> string, n: nat) {
    && (forall i: nat :: IsHexMac(name(i)))
    && (forall i: nat, j: nat :: i < n && j < n && name(i) == name(j) ==> i == j)
  }

  function HexName(): nat -> string {
    (n: nat) => Hex(n, 64)
  }

  lemma HexNaming(n: nat)
    requires n <= Pow16(64)
    ensures Naming(HexName(), n)
  {
    forall i: nat
      ensures IsHexMac(HexName()(i))
    {
      HexDigits(i, 64);
    }
    forall i: nat, j: nat | i < n && j < n && HexName()(i) == HexName()(j)
      ensures i == j
    {
      HexInjective(i, j, 64);
    }
  }

  /** A codec, and a MAC that names the given inputs by their positions. */
  ghost function Instance(inputs: seq<string>, name: nat -> string): Primitives {
    Primitives(
      (k, s) => name(Index(inputs, s)),
      (e: Event) => Some(EncodeList(EventParts(e))),
      (line: seq<byte>) => Decode(line))
  }

  lemma InstanceIsSound(inputs: seq<string>, name: nat -> string)
    requires forall i: nat :: IsHexMac(name(i))
    ensures Instance(inputs, name).Sound()
  {
    var p := Instance(inputs, name);
    forall e: Event
      ensures p.IsLineOf(e, p.encode(e).value)
    {
      var line := EncodeList(EventParts(e));
      ListBytes(EventParts(e));
      var d := Decode(line);
      assert d.Some?;
      EncodingInjective(d.value, e);
    }
    forall k: seq<byte>, s: string
      ensures IsHexMac(p.mac(k, s))
    {
      assert p.mac(k, s) == name(Index(inputs, s));
    }
  }

  /** That MAC has no collision among the given inputs. */
  lemma InstanceIsCollisionFree(inputs: seq<string>, name: nat -> string, key: seq<byte>)
    requires Naming(name, |inputs|)
    ensures Instance(inputs, name).CollisionFree(key, set s | s in inputs)
  {
    var p := Instance(inputs, name);
    forall x, y | x in inputs && y in inputs && p.mac(key, x) == p.mac(key, y)
      ensures x == y
    {
      IndexIsFirst(inputs, x);
      IndexIsFirst(inputs, y);
      IndexAbsent(inputs, x);
      IndexAbsent(inputs, y);
    }
  }

  // ---- A chain over any events ----

  /** The drafts as a chain in which the i-th hash is the i-th name. */
  ghost function Numbered(drafts: seq<Event>, name: nat -> string): (evs: seq<Event>)
    ensures |evs| == |drafts|
    ensures forall i :: 0 <= i < |evs| ==> evs[i] == NumberedAt(drafts, name, i)
  {
    seq(|drafts|, i requires 0 <= i < |drafts| => NumberedAt(drafts, name, i))
  }

  ghost function NumberedAt(drafts: seq<Event>, name: nat -> string, i: nat): Event
    requires i < |drafts|
  {
    drafts[i].(prevHash := if i == 0 then GENESIS else name(i - 1), hash := name(i))
  }

  ghost function InputList(evs: seq<Event>): (inputs: seq<string>)
    ensures |inputs| == |evs| && forall i :: 0 <= i < |evs| ==> inputs[i] == MacInput(evs[i])
  {
    seq(|evs|, i requires 0 <= i < |evs| => MacInput(evs[i]))
  }

  /** The instance in which the drafts are that chain. */
  ghost function InstanceOf(drafts: seq<Event>, name: nat -> string): Primitives {
    Instance(InputList(Numbered(drafts, name)), name)
  }

  lemma InputPosition(evs: seq<Event>, i: nat)
    requires DistinctIds(evs) && i < |evs|
    ensures Index(InputList(evs), MacInput(evs[i])) == i
  {
    var inputs := InputList(evs);
    IndexIsFirst(inputs, inputs[i]);
    IndexAbsent(inputs, inputs[i]);
    var k := Index(inputs, inputs[i]);
    assert inputs[i] in inputs;
    StampAndIdRecovered(evs[i], evs[k]);
  }

  lemma NumberedIds(drafts: seq<Event>, name: nat -> string)
    requires DistinctIds(drafts)
    ensures DistinctIds(Numbered(drafts, name))
  {
    var chain := Numbered(drafts, name);
    assert forall i :: 0 <= i < |chain| ==> chain[i].id == drafts[i].id;
  }

  /** Under that MAC the hash of the i-th event is its name. */
  lemma NumberedHash(drafts: seq<Event>, name: nat -> string, key: seq<byte>, i: nat, e: Event)
    requires DistinctIds(Numbered(drafts, name)) && i < |drafts|
    requires MacInput(e) == MacInput(Numbered(drafts, name)[i])
    ensures InstanceOf(drafts, name).mac(key, MacInput(e)) == name(i)
  {
    InputPosition(Numbered(drafts, name), i);
  }

  lemma NumberedLink(drafts: seq<Event>, name: nat -> string, i: nat)
    requires i < |drafts|
    ensures Numbered(drafts, name)[i].prevHash == Tip(Numbered(drafts, name)[..i], GENESIS)
    ensures Numbered(drafts, name)[i].hash == name(i)
  {}

  lemma NumberedIsChain(drafts: seq<Event>, name: nat -> string, key: seq<byte>)
    requires DistinctIds(Numbered(drafts, name))
    ensures Chain(InstanceOf(drafts, name), key, GENESIS, Numbered(drafts, name))
  {
    forall i: nat | i < |drafts|
      ensures LinkedAt(InstanceOf(drafts, name), key, GENESIS, Numbered(drafts, name), i)
    {
      NumberedLink(drafts, name, i);
      NumberedHash(drafts, name, key, i, Numbered(drafts, name)[i]);
    }
  }

  lemma InputsOfList(evs: seq<Event>)
    ensures Inputs(evs) == set s | s in InputList(evs)
  {
    var inputs := InputList(evs);
    forall s | s in inputs
      ensures s in Inputs(evs)
    {
      var i :| 0 <= i < |inputs| && inputs[i] == s;
      assert evs[i] in evs;
    }
    forall e | e in evs
      ensures MacInput(e) in inputs
    {
      var i :| 0 <= i < |evs| && evs[i] == e;
      assert inputs[i] == MacInput(e);
    }
  }

  /** Whatever events with distinct generated IDs are given, there is a codec and a MAC under
      which they form a chain that meets every hypothesis of the theorems on tampering. */
  lemma ChainMeetsHypotheses(drafts: seq<Event>, name: nat -> string, key: seq<byte>)
    requires DistinctIds(drafts) && Naming(name, |drafts|)
    ensures
      var p, chain := InstanceOf(drafts, name), Numbered(drafts, name);
      && p.Sound() && Encodable(p, chain)
      && Chain(p, key, GENESIS, chain)
      && DistinctIds(chain) && p.CollisionFree(key, Inputs(chain))
  {
    var inputs := InputList(Numbered(drafts, name));
    InstanceIsSound(inputs, name);
    InstanceIsCollisionFree(inputs, name, key);
    InputsOfList(Numbered(drafts, name));
    NumberedIds(drafts, name);
    NumberedIsChain(drafts, name, key);
  }

  lemma HypothesesCanBeMet(drafts: seq<Event>, key: seq<byte>)
    requires DistinctIds(drafts) && |drafts| <= Pow16(64)
    ensures
      var p, chain := InstanceOf(drafts, HexName()), Numbered(drafts, HexName());
      && p.Sound() && Encodable(p, chain)
      && Chain(p, key, GENESIS, chain)
      && DistinctIds(chain) && p.CollisionFree(key, Inputs(chain))
  {
    HexNaming(|drafts|);
    ChainMeetsHypotheses(drafts, HexName(), key);
  }

  // ---- A run over any calls ----

  /** The calls of a run with their stamps and IDs. */
  ghost function DraftsOf(ops: seq<Op>): seq<Event> {
    if ops == [] then []
    else
      var n := |ops| - 1;
      DraftsOf(ops[..n]) +
      if ops[n].LogCall? then [ops[n].call.draft.(ts := ops[n].call.stamp, id := ops[n].call.id)] else []
  }

  ghost predicate AllWritten(ops: seq<Op>) {
    forall i :: 0 <= i < |ops| && ops[i].LogCall? ==> ops[i].call.writeOk
  }

  /** All lines fit the window of a restart. */
  ghost predicate FitWindow(evs: seq<Event>) {
    forall i :: 0 <= i < |evs| ==> |EncodeList(EventParts(evs[i]))| < WINDOW
  }

  /** The next call seals the next numbered event. */
  lemma SealedIsNumbered(drafts: seq<Event>, name: nat -> string, key: seq<byte>, n: nat, prevHash: string, c: Call)
    requires n < |drafts| && DistinctIds(Numbered(drafts, name))
    requires drafts[n] == c.draft.(ts := c.stamp, id := c.id)
    requires prevHash == Tip(Numbered(drafts, name)[..n], GENESIS)
    ensures SealedEvent(InstanceOf(drafts, name), key, prevHash, c) == Numbered(drafts, name)[n]
  {
    var e := c.draft.(ts := c.stamp, id := c.id, prevHash := prevHash);
    NumberedLink(drafts, name, n);
    assert MacFields(e) == MacFields(Numbered(drafts, name)[n]);
    NumberedHash(drafts, name, key, n, e);
  }

  ghost predicate NumberedRun(drafts: seq<Event>, name: nat -> string, cfg: Config, a: Agent, ops: seq<Op>)
    requires 0 in a.logs
  {
    var p := InstanceOf(drafts, name);
    && Lossless(p, cfg, a, ops) && AllResume(p, cfg, a, ops)
    && |DraftsOf(ops)| <= |drafts|
    && Kept(p, cfg, a, ops) == Numbered(drafts, name)[..|DraftsOf(ops)|]
  }

  lemma DraftOfCall(ops: seq<Op>, drafts: seq<Event>)
    requires ops != [] && ops[|ops| - 1].LogCall? && DraftsOf(ops) <= drafts
    ensures
      var m, c := |DraftsOf(ops[..|ops| - 1])|, ops[|ops| - 1].call;
      |DraftsOf(ops)| == m + 1 <= |drafts| && drafts[m] == c.draft.(ts := c.stamp, id := c.id)
  {
    assert DraftsOf(ops)[|DraftsOf(ops)| - 1] == drafts[|DraftsOf(ops)| - 1];
  }

  lemma KeptByInstance(inputs: seq<string>, name: nat -> string, a: Agent, op: Op)
    requires op.LogCall? && op.call.writeOk
    ensures
      var p := Instance(inputs, name);
      KeptBy(p, a, op) == SealedBy(p, a, op) == [SealedEvent(p, a.key, a.prevHash, op.call)]
  {}

  lemma NumberedCall(drafts: seq<Event>, name: nat -> string, cfg: Config, a: Agent, ops: seq<Op>)
    requires 0 in a.logs && ops != [] && ops[|ops| - 1].LogCall? && ops[|ops| - 1].call.writeOk
    requires DistinctIds(Numbered(drafts, name)) && DraftsOf(ops) <= drafts
    requires
      var before, p := ops[..|ops| - 1], InstanceOf(drafts, name);
      && NumberedRun(drafts, name, cfg, a, before)
      && Run(p, cfg, a, before).prevHash == Tip(Kept(p, cfg, a, before), GENESIS)
    ensures NumberedRun(drafts, name, cfg, a, ops)
  {
    var p, n := InstanceOf(drafts, name), |ops| - 1;
    var mid, m := Run(p, cfg, a, ops[..n]), |DraftsOf(ops[..n])|;
    DraftOfCall(ops, drafts);
    SealedIsNumbered(drafts, name, mid.key, m, mid.prevHash, ops[n].call);
    KeptByInstance(InputList(Numbered(drafts, name)), name, mid, ops[n]);
    CallExtendsRun(p, cfg, a, ops, Numbered(drafts, name), m);
  }

  lemma CallExtendsRun(p: Primitives, cfg: Config, a: Agent, ops: seq<Op>, evs: seq<Event>, m: nat)
    requires 0 in a.logs && ops != [] && ops[|ops| - 1].LogCall? && m < |evs|
    requires
      var before, last := ops[..|ops| - 1], ops[|ops| - 1];
      var mid := Run(p, cfg, a, before);
      && Lossless(p, cfg, a, before) && AllResume(p, cfg, a, before)
      && Kept(p, cfg, a, before) == evs[..m]
      && KeptBy(p, mid, last) == SealedBy(p, mid, last) == [evs[m]]
    ensures Lossless(p, cfg, a, ops) && AllResume(p, cfg, a, ops) && Kept(p, cfg, a, ops) == evs[..m + 1]
  {
    LosslessSnoc(p, cfg, a, ops);
    AllResumeSnoc(p, cfg, a, ops);
    assert evs[..m] + [evs[m]] == evs[..m + 1];
  }

  lemma NumberedRestart(drafts: seq<Event>, name: nat -> string, cfg: Config, a: Agent, ops: seq<Op>)
    requires 0 in a.logs && |a.key| == KEY_SIZE && ops != [] && ops[|ops| - 1].Reopen?
    requires FitWindow(Numbered(drafts, name)) && NumberedRun(drafts, name, cfg, a, ops[..|ops| - 1])
    ensures NumberedRun(drafts, name, cfg, a, ops)
  {
    var p, n := InstanceOf(drafts, name), |ops| - 1;
    LosslessSnoc(p, cfg, a, ops);
    LosslessLeavesContent(p, cfg, a, ops[..n]);
    AllResumeSnoc(p, cfg, a, ops);
    ReopenStep(p, cfg, a, ops);
    assert DraftsOf(ops) == DraftsOf(ops[..n]);
  }

  lemma {:induction false} RunIsNumbered(drafts: seq<Event>, name: nat -> string, cfg: Config, a: Agent, start: int,
                                         ops: seq<Op>)
    requires DistinctIds(Numbered(drafts, name)) && DraftsOf(ops) <= drafts && FitWindow(Numbered(drafts, name))
    requires AllWritten(ops) && Monotone(start, ops)
    requires InstanceOf(drafts, name).Sound() && FreshStart(InstanceOf(drafts, name), a, start)
    ensures NumberedRun(drafts, name, cfg, a, ops)
  {
    if ops != [] {
      var n := |ops| - 1;
      MonotonePrefix(start, ops);
      RunIsNumbered(drafts, name, cfg, a, start, ops[..n]);
      if ops[n].LogCall? {
        RunResumable(InstanceOf(drafts, name), cfg, a, start, ops[..n]);
        NumberedCall(drafts, name, cfg, a, ops);
      } else {
        NumberedRestart(drafts, name, cfg, a, ops);
      }
    }
  }

  /** Whatever calls with distinct generated IDs are made, with restarts in between: as long as
      the lines fit the window there are a codec and a MAC under which the run loses nothing,
      every restart resumes, and what is written meets the hypotheses of the theorems on runs. */
  lemma RunHypothesesCanBeMet(cfg: Config, a: Agent, start: int, ops: seq<Op>)
    requires DistinctIds(DraftsOf(ops)) && |DraftsOf(ops)| <= Pow16(64)
    requires FitWindow(Numbered(DraftsOf(ops), HexName()))
    requires AllWritten(ops) && Monotone(start, ops)
    requires FreshStart(InstanceOf(DraftsOf(ops), HexName()), a, start)
    ensures
      var p := InstanceOf(DraftsOf(ops), HexName());
      var hist := Kept(p, cfg, a, ops);
      && p.Sound() && Lossless(p, cfg, a, ops) && AllResume(p, cfg, a, ops)
      && |hist| == |DraftsOf(ops)| && DistinctIds(hist) && p.CollisionFree(a.key, Inputs(hist))
  {
    var drafts := DraftsOf(ops);
    HypothesesCanBeMet(drafts, a.key);
    RunIsNumbered(drafts, HexName(), cfg, a, start, ops);
    assert Numbered(drafts, HexName())[..|drafts|] == Numbered(drafts, HexName());
  }
}
