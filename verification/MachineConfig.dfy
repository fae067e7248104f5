/** Applying a machine configuration to the files under /etc, and reading it back. */
module MachineConfig {
  import opened Wrappers
  import opened Network
  import Validate

  datatype Config = Config(
    hostname: string,
    kernelArgs: seq<string>,
    dnsServers: seq<string>,
    ntpServers: seq<string>,
    interfaces: seq<Interface>)

  /** What the applier is built with: the file formats of its managers and net.ParseIP. */
  datatype Formats = Formats(
    unitFile: string -> string,
    isUnitFile: string -> bool,
    unitText: Interface -> string,
    parseUnit: string -> Interface,
    kargsText: seq<string> -> string,
    parseKargs: string -> seq<string>,
    resolvText: seq<string> -> string,
    parseResolv: string -> seq<string>,
    parseIP: string -> bool)

  /** The files that the applier touches; an absent directory is an empty one. */
  datatype Etc = Etc(
    hostname: Option<string>,
    units: map<string, string>,
    kargs: Option<string>,
    resolv: Option<string>)

  datatype Write =
    | SetHostname(text: string)
    | SetUnit(file: string, text: string)
    | SetKargs(text: string)
    | RemoveKargs
    | SetResolv(text: string)

  function Perform(etc: Etc, w: Write): Etc {
    match w
    case SetHostname(text) => etc.(hostname := Some(text))
    case SetUnit(file, text) => etc.(units := etc.units[file := text])
    case SetKargs(text) => etc.(kargs := Some(text))
    case RemoveKargs => etc.(kargs := None)
    case SetResolv(text) => etc.(resolv := Some(text))
  }

  /** The files after the first n of the writes. */
  function Replay(etc: Etc, ws: seq<Write>, n: nat): Etc
    requires n <= |ws|
  {
    if n == 0 then etc else Perform(Replay(etc, ws, n - 1), ws[n - 1])
  }

  // ---- The fixed write sequence ----

  function HostnameWrites(cfg: Config): seq<Write> {
    if cfg.hostname == "" then [] else [SetHostname(cfg.hostname + "\n")]
  }

  function UnitWrites(ifaces: seq<Interface>, fm: Formats): (ws: seq<Write>)
    ensures |ws| == |ifaces|
  {
    seq(|ifaces|, i requires 0 <= i < |ifaces| => SetUnit(fm.unitFile(ifaces[i].name), fm.unitText(ifaces[i])))
  }

  function KargsWrites(cfg: Config, fm: Formats): seq<Write> {
    if cfg.kernelArgs == [] then [] else [SetKargs(fm.kargsText(cfg.kernelArgs))]
  }

  function ResolvWrites(cfg: Config, fm: Formats): seq<Write> {
    if cfg.dnsServers == [] then [] else [SetResolv(fm.resolvText(cfg.dnsServers))]
  }

  function Writes(cfg: Config, fm: Formats): seq<Write> {
    HostnameWrites(cfg) + UnitWrites(cfg.interfaces, fm) + KargsWrites(cfg, fm) + ResolvWrites(cfg, fm)
  }

  /** Where the stages begin in that sequence. */
  function UnitsFrom(cfg: Config): nat {
    |HostnameWrites(cfg)|
  }

  function KargsFrom(cfg: Config): nat {
    UnitsFrom(cfg) + |cfg.interfaces|
  }

  function ResolvFrom(cfg: Config): nat {
    KargsFrom(cfg) + if cfg.kernelArgs == [] then 0 else 1
  }

  // ---- Validation ----

  predicate ValidHostname(cfg: Config) {
    cfg.hostname != "" ==> Validate.Hostname(cfg.hostname)
  }

  predicate ValidInterface(iface: Interface) {
    && Validate.InterfaceName(iface.name)
    && (forall i :: 0 <= i < |iface.addresses| ==> Validate.NetworkAddress(iface.addresses[i]))
    && (iface.gateway != "" ==> Validate.NoNewlines(iface.gateway))
  }

  predicate ValidInterfaces(cfg: Config) {
    forall i :: 0 <= i < |cfg.interfaces| ==> ValidInterface(cfg.interfaces[i])
  }

  predicate ValidKernelArgs(cfg: Config) {
    forall i :: 0 <= i < |cfg.kernelArgs| ==> Validate.KernelArg(cfg.kernelArgs[i])
  }

  predicate ValidDns(cfg: Config, fm: Formats) {
    forall i :: 0 <= i < |cfg.dnsServers| ==> Validate.IPAddress(cfg.dnsServers[i], fm.parseIP)
  }

  predicate Valid(cfg: Config, fm: Formats) {
    ValidHostname(cfg) && ValidInterfaces(cfg) && ValidKernelArgs(cfg) && ValidDns(cfg, fm)
  }

  // ---- Results ----

  datatype ApplyError =
    | InvalidHostname | HostnameNotWritten
    | InvalidInterface | NetworkNotWritten
    | BlockedKernelArg | KargsNotWritten
    | InvalidDnsServer

  datatype Warning = DnsNotWritten | NtpNotImplemented

  datatype Outcome =
    | Failed(error: ApplyError)
    | Applied(warnings: seq<Warning>, rebootRequired: bool)

  /** How many writes of the sequence were done, given the outcome. */
  ghost predicate StoppedAfter(cfg: Config, fm: Formats, r: Outcome, n: nat) {
    match r
    case Failed(InvalidHostname) => n == 0 && !ValidHostname(cfg)
    case Failed(HostnameNotWritten) => n == 0 && ValidHostname(cfg) && cfg.hostname != ""
    case Failed(InvalidInterface) => n == UnitsFrom(cfg) && ValidHostname(cfg) && !ValidInterfaces(cfg)
    case Failed(NetworkNotWritten) =>
      UnitsFrom(cfg) <= n < KargsFrom(cfg) && ValidHostname(cfg) && ValidInterfaces(cfg)
    case Failed(BlockedKernelArg) =>
      n == KargsFrom(cfg) && ValidHostname(cfg) && ValidInterfaces(cfg) && !ValidKernelArgs(cfg)
    case Failed(KargsNotWritten) =>
      n == KargsFrom(cfg) && ValidHostname(cfg) && ValidInterfaces(cfg) && ValidKernelArgs(cfg) && cfg.kernelArgs != []
    case Failed(InvalidDnsServer) =>
      n == ResolvFrom(cfg) && ValidHostname(cfg) && ValidInterfaces(cfg) && ValidKernelArgs(cfg) && !ValidDns(cfg, fm)
    case Applied(warnings, _) =>
      && Valid(cfg, fm)
      && n == (if DnsNotWritten in warnings then ResolvFrom(cfg) else |Writes(cfg, fm)|)
      && (DnsNotWritten in warnings ==> cfg.dnsServers != [])
      && (NtpNotImplemented in warnings <==> cfg.ntpServers != [])
  }

  /** Exactly the first n writes of the sequence were done. */
  ghost predicate Written(cfg: Config, fm: Formats, before: Etc, after: Etc, n: nat) {
    n <= |Writes(cfg, fm)| && after == Replay(before, Writes(cfg, fm), n)
  }

  class Host {
    const fm: Formats
    /** Which of the numbered write operations the file system will refuse. */
    const faulty: nat -> bool
    var operations: nat
    var etc: Etc

    constructor (fm: Formats, faulty: nat -> bool, etc: Etc)
      ensures this.fm == fm && this.faulty == faulty && this.etc == etc && operations == 0
    {
      this.fm, this.faulty, this.etc, this.operations := fm, faulty, etc, 0;
    }

    /** os.WriteFile or os.Remove: done completely or not at all. */
    method Do(w: Write) returns (ok: bool)
      modifies this
      ensures operations == old(operations) + 1
      ensures ok <==> !faulty(old(operations))
      ensures etc == if ok then Perform(old(etc), w) else old(etc)
    {
      ok := !faulty(operations);
      operations := operations + 1;
      if ok { etc := Perform(etc, w); }
    }

    method MkdirAll() returns (ok: bool)
      modifies this`operations
      ensures operations == old(operations) + 1
      ensures ok <==> !faulty(old(operations))
    {
      ok := !faulty(operations);
      operations := operations + 1;
    }

    method WriteUnits(ifaces: seq<Interface>) returns (ok: bool, ghost n: nat)
      modifies this
      ensures n <= |ifaces| && etc == Replay(old(etc), UnitWrites(ifaces, fm), n)
      ensures ok ==> n == |ifaces|
      ensures !ok && ifaces != [] ==> n < |ifaces|
      ensures (exists i :: 0 <= i < |ifaces| && ifaces[i].name == "") ==> !ok
      ensures (forall k :: !faulty(k)) && (forall i :: 0 <= i < |ifaces| ==> ifaces[i].name != "") ==> ok
    {
      n := 0;
      ok := MkdirAll();
      if !ok { return; }
      for i := 0 to |ifaces|
        invariant n == i && ok
        invariant etc == Replay(old(etc), UnitWrites(ifaces, fm), i)
        invariant forall k :: 0 <= k < i ==> ifaces[k].name != ""
      {
        if ifaces[i].name == "" { return false, n; }
        var content := fm.unitText(ifaces[i]);
        ok := Do(SetUnit(fm.unitFile(ifaces[i].name), content));
        if !ok { return; }
        n := n + 1;
      }
    }

    /** os.ReadDir of the unit directory, in some order. */
    method ReadDir() returns (entries: seq<string>)
      ensures Lists(entries, etc.units)
    {
      entries := [];
      var rest := etc.units.Keys;
      while rest != {}
        invariant rest <= etc.units.Keys
        invariant forall f :: f in etc.units <==> f in rest || f in entries
        invariant forall f :: f in entries ==> f !in rest
        invariant forall i, j :: 0 <= i < j < |entries| ==> entries[i] != entries[j]
      {
        var f :| f in rest;
        entries := entries + [f];
        rest := rest - {f};
      }
    }

    /** The interfaces of the unit files, in the order the directory lists them. */
    method ReadUnits(entries: seq<string>) returns (ifaces: seq<Interface>)
      requires forall f :: f in entries ==> f in etc.units
      ensures ifaces == InterfacesIn(entries, etc.units, fm)
    {
      ifaces := [];
      for i := 0 to |entries|
        invariant ifaces == InterfacesIn(entries[..i], etc.units, fm)
      {
        assert entries[..i + 1][..i] == entries[..i];
        if fm.isUnitFile(entries[i]) {
          var iface := fm.parseUnit(etc.units[entries[i]]);
          if iface.name != "" {
            ifaces := ifaces + [iface];
          }
        }
      }
      assert entries[..|entries|] == entries;
    }

    method WriteKargs(args: seq<string>) returns (ok: bool)
      modifies this
      ensures etc == if !ok then old(etc)
        else Perform(old(etc), if args == [] then RemoveKargs else SetKargs(fm.kargsText(args)))
      ensures ok ==> etc == old(etc).(kargs := if args == [] then None else Some(fm.kargsText(args)))
      ensures (forall k :: !faulty(k)) ==> ok
    {
      ok := MkdirAll();
      if !ok { return; }
      if |args| == 0 {
        ok := Do(RemoveKargs);
        return;
      }
      var content := fm.kargsText(args);
      ok := Do(SetKargs(content));
    }

    method ReadKargs() returns (args: seq<string>)
      ensures args == KargsIn(etc, fm)
    {
      if etc.kargs.None? { return []; }
      args := fm.parseKargs(etc.kargs.value);
    }

    /** First stage of Apply. */
    method ApplyHostname(cfg: Config) returns (e: Option<ApplyError>)
      modifies this
      ensures Written(cfg, fm, old(etc), etc, if e.None? then UnitsFrom(cfg) else 0)
      ensures e.Some? ==> StoppedAfter(cfg, fm, Failed(e.value), 0)
      ensures e.None? ==> ValidHostname(cfg)
      ensures (forall k :: !faulty(k)) && ValidHostname(cfg) ==> e.None?
    {
      HostnameStage(cfg, fm, etc);
      if cfg.hostname != "" {
        if !Validate.Hostname(cfg.hostname) { return Some(InvalidHostname); }
        var ok := Do(SetHostname(cfg.hostname + "\n"));
        if !ok { return Some(HostnameNotWritten); }
      }
      return None;
    }

    /** Second stage: all interfaces are checked before the first is written. */
    method ApplyInterfaces(cfg: Config, ghost before: Etc) returns (e: Option<ApplyError>, ghost n: nat)
      requires ValidHostname(cfg) && Written(cfg, fm, before, etc, UnitsFrom(cfg))
      modifies this
      ensures Written(cfg, fm, before, etc, n)
      ensures e.Some? ==> StoppedAfter(cfg, fm, Failed(e.value), n)
      ensures e.None? ==> ValidInterfaces(cfg) && n == KargsFrom(cfg)
      ensures (forall k :: !faulty(k)) && ValidInterfaces(cfg) ==> e.None?
    {
      n := UnitsFrom(cfg);
      var fine := CheckInterfaces(cfg);
      if !fine { return Some(InvalidInterface), n; }
      ghost var start := etc;
      if |cfg.interfaces| > 0 {
        var ok, m := WriteUnits(cfg.interfaces);
        UnitStage(cfg, fm, before, start, m);
        n := n + m;
        if !ok { return Some(NetworkNotWritten), n; }
      }
      return None, n;
    }

    /** Third stage. */
    method ApplyKargs(cfg: Config, ghost before: Etc) returns (e: Option<ApplyError>, rebootRequired: bool)
      requires ValidHostname(cfg) && ValidInterfaces(cfg) && Written(cfg, fm, before, etc, KargsFrom(cfg))
      modifies this
      ensures Written(cfg, fm, before, etc, if e.None? then ResolvFrom(cfg) else KargsFrom(cfg))
      ensures e.Some? ==> StoppedAfter(cfg, fm, Failed(e.value), KargsFrom(cfg))
      ensures e.None? ==> ValidKernelArgs(cfg)
      ensures e.None? ==> (rebootRequired <==> cfg.kernelArgs != [] && KargsIn(before, fm) != cfg.kernelArgs)
      ensures (forall k :: !faulty(k)) && ValidKernelArgs(cfg) ==> e.None?
    {
      KargsUntouched(cfg, fm, before, etc);
      KargsStage(cfg, fm, before, etc);
      rebootRequired := false;
      var fine := CheckKernelArgs(cfg);
      if !fine { return Some(BlockedKernelArg), false; }
      if |cfg.kernelArgs| > 0 {
        var existing := ReadKargs();
        var ok := WriteKargs(cfg.kernelArgs);
        if !ok { return Some(KargsNotWritten), false; }
        var same := StringSliceEqual(existing, cfg.kernelArgs);
        if !same { rebootRequired := true; }
      }
      return None, rebootRequired;
    }

    /** Last stage: a failed write is only a warning. */
    method ApplyDNS(cfg: Config, ghost before: Etc)
      returns (e: Option<ApplyError>, warnings: seq<Warning>, ghost n: nat)
      requires ValidHostname(cfg) && ValidInterfaces(cfg) && ValidKernelArgs(cfg)
      requires Written(cfg, fm, before, etc, ResolvFrom(cfg))
      modifies this
      ensures Written(cfg, fm, before, etc, n)
      ensures e.Some? ==> StoppedAfter(cfg, fm, Failed(e.value), n)
      ensures e.None? ==> ValidDns(cfg, fm)
      ensures e.None? ==>
        || (warnings == [] && n == |Writes(cfg, fm)|)
        || (warnings == [DnsNotWritten] && n == ResolvFrom(cfg) && cfg.dnsServers != [])
      ensures (forall k :: !faulty(k)) && ValidDns(cfg, fm) ==> e.None? && warnings == []
    {
      n := ResolvFrom(cfg);
      warnings := [];
      var fine := CheckDns(cfg);
      if !fine { return Some(InvalidDnsServer), [], n; }
      ResolvStage(cfg, fm, before, etc);
      if |cfg.dnsServers| > 0 {
        var ok := Do(SetResolv(fm.resolvText(cfg.dnsServers)));
        if ok { n := n + 1; } else { warnings := [DnsNotWritten]; }
      }
      return None, warnings, n;
    }

    /** The configuration as found: the running kernel's host name (None when os.Hostname fails),
        and the rest from the files. NTP servers are never read. */
    method Read(kernelName: Option<string>) returns (found: Config, ghost entries: seq<string>)
      ensures Lists(entries, etc.units)
      ensures found.hostname == if kernelName.Some? then kernelName.value else ""
      ensures found.interfaces == InterfacesIn(entries, etc.units, fm)
      ensures found.kernelArgs == KargsIn(etc, fm) && found.dnsServers == DnsIn(etc, fm)
      ensures etc.kargs.None? ==> found.kernelArgs == []
      ensures etc.resolv.None? ==> found.dnsServers == []
      ensures found.ntpServers == []
    {
      found := Config("", [], [], [], []);
      if kernelName.Some? {
        found := found.(hostname := kernelName.value);
      }
      var listed := ReadDir();
      entries := listed;
      var ifaces := ReadUnits(listed);
      found := found.(interfaces := ifaces);
      var args := ReadKargs();
      found := found.(kernelArgs := args);
      if etc.resolv.Some? {
        found := found.(dnsServers := fm.parseResolv(etc.resolv.value));
      }
    }

    method Apply(cfg: Config) returns (r: Outcome, ghost n: nat)
      modifies this
      ensures Written(cfg, fm, old(etc), etc, n)
      ensures StoppedAfter(cfg, fm, r, n)
      ensures r.Applied? ==> (r.rebootRequired <==> cfg.kernelArgs != [] && KargsIn(old(etc), fm) != cfg.kernelArgs)
      ensures (forall k :: !faulty(k)) && Valid(cfg, fm) ==> r.Applied? && DnsNotWritten !in r.warnings
    {
      n := 0;
      var e := ApplyHostname(cfg);
      if e.Some? { return Failed(e.value), n; }
      e, n := ApplyInterfaces(cfg, old(etc));
      if e.Some? { return Failed(e.value), n; }
      var rebootRequired;
      e, rebootRequired := ApplyKargs(cfg, old(etc));
      if e.Some? { return Failed(e.value), n; }
      var warnings;
      e, warnings, n := ApplyDNS(cfg, old(etc));
      if e.Some? { return Failed(e.value), n; }
      if |cfg.ntpServers| > 0 {
        warnings := warnings + [NtpNotImplemented];
      }
      return Applied(warnings, rebootRequired), n;
    }

    method CheckDns(cfg: Config) returns (fine: bool)
      ensures fine <==> ValidDns(cfg, fm)
    {
      for i := 0 to |cfg.dnsServers|
        invariant forall k :: 0 <= k < i ==> Validate.IPAddress(cfg.dnsServers[k], fm.parseIP)
      {
        if !Validate.IPAddress(cfg.dnsServers[i], fm.parseIP) { return false; }
      }
      return true;
    }
  }

  method CheckInterfaces(cfg: Config) returns (fine: bool)
    ensures fine <==> ValidInterfaces(cfg)
  {
    for i := 0 to |cfg.interfaces|
      invariant forall k :: 0 <= k < i ==> ValidInterface(cfg.interfaces[k])
    {
      var ok := CheckInterface(cfg.interfaces[i]);
      if !ok { return false; }
    }
    return true;
  }

  method CheckKernelArgs(cfg: Config) returns (fine: bool)
    ensures fine <==> ValidKernelArgs(cfg)
  {
    for i := 0 to |cfg.kernelArgs|
      invariant forall k :: 0 <= k < i ==> Validate.KernelArg(cfg.kernelArgs[k])
    {
      if !Validate.KernelArg(cfg.kernelArgs[i]) { return false; }
    }
    return true;
  }

  method CheckInterface(iface: Interface) returns (ok: bool)
    ensures ok <==> ValidInterface(iface)
  {
    if !Validate.InterfaceName(iface.name) { return false; }
    for i := 0 to |iface.addresses|
      invariant forall k :: 0 <= k < i ==> Validate.NetworkAddress(iface.addresses[k])
    {
      if !Validate.NetworkAddress(iface.addresses[i]) { return false; }
    }
    if iface.gateway != "" && !Validate.NoNewlines(iface.gateway) { return false; }
    return true;
  }

  method StringSliceEqual(a: seq<string>, b: seq<string>) returns (same: bool)
    ensures same <==> a == b
  {
    if |a| != |b| { return false; }
    for i := 0 to |a|
      invariant a[..i] == b[..i]
    {
      if a[i] != b[i] { return false; }
    }
    assert a == a[..|a|] && b == b[..|b|];
    return true;
  }

  // ---- Reading ----

  function KargsIn(etc: Etc, fm: Formats): seq<string> {
    if etc.kargs.None? then [] else fm.parseKargs(etc.kargs.value)
  }

  function DnsIn(etc: Etc, fm: Formats): seq<string> {
    if etc.resolv.None? then [] else fm.parseResolv(etc.resolv.value)
  }

  /** A listing of a directory: every file once. */
  ghost predicate Lists(entries: seq<string>, units: map<string, string>) {
    && (forall f :: f in entries <==> f in units)
    && forall i, j :: 0 <= i < j < |entries| ==> entries[i] != entries[j]
  }

  function InterfaceOf(file: string, text: string, fm: Formats): seq<Interface> {
    if fm.isUnitFile(file) && fm.parseUnit(text).name != "" then [fm.parseUnit(text)] else []
  }

  function InterfacesIn(entries: seq<string>, units: map<string, string>, fm: Formats): seq<Interface>
    requires forall f :: f in entries ==> f in units
  {
    if entries == [] then []
    else
      var last := entries[|entries| - 1];
      InterfacesIn(entries[..|entries| - 1], units, fm) + InterfaceOf(last, units[last], fm)
  }

  // ---- Writes and prefixes ----

  /** Of concatenated sequences, the first part is replayed first. */
  lemma {:induction false} ReplayConcat(etc: Etc, a: seq<Write>, b: seq<Write>, n: nat)
    requires n <= |a| + |b|
    ensures Replay(etc, a + b, n) == if n <= |a| then Replay(etc, a, n) else Replay(Replay(etc, a, |a|), b, n - |a|)
  {
    if n > 0 {
      ReplayConcat(etc, a, b, n - 1);
    }
  }

  lemma HostnameStage(cfg: Config, fm: Formats, etc: Etc)
    ensures cfg.hostname == "" ==> UnitsFrom(cfg) == 0
    ensures cfg.hostname != "" ==> UnitsFrom(cfg) == 1
    ensures Written(cfg, fm, etc, etc, 0)
    ensures cfg.hostname != "" ==>
      Written(cfg, fm, etc, Perform(etc, HostnameWrites(cfg)[0]), 1)
  {
    if cfg.hostname != "" {
      assert Writes(cfg, fm)[0] == HostnameWrites(cfg)[0];
    }
  }

  lemma UnitStage(cfg: Config, fm: Formats, before: Etc, mid: Etc, m: nat)
    requires m <= |cfg.interfaces| && Written(cfg, fm, before, mid, UnitsFrom(cfg))
    ensures Written(cfg, fm, before, Replay(mid, UnitWrites(cfg.interfaces, fm), m), UnitsFrom(cfg) + m)
  {
    var h, u, rest := HostnameWrites(cfg), UnitWrites(cfg.interfaces, fm), KargsWrites(cfg, fm) + ResolvWrites(cfg, fm);
    assert Writes(cfg, fm) == h + (u + rest);
    ReplayConcat(before, h, u + rest, |h|);
    ReplayConcat(before, h, u + rest, |h| + m);
    ReplayConcat(mid, u, rest, m);
  }

  lemma KargsStage(cfg: Config, fm: Formats, before: Etc, mid: Etc)
    requires Written(cfg, fm, before, mid, KargsFrom(cfg))
    ensures cfg.kernelArgs == [] ==> ResolvFrom(cfg) == KargsFrom(cfg)
    ensures cfg.kernelArgs != [] ==>
      Written(cfg, fm, before, Perform(mid, KargsWrites(cfg, fm)[0]), ResolvFrom(cfg))
  {
    if cfg.kernelArgs != [] {
      assert Writes(cfg, fm)[KargsFrom(cfg)] == KargsWrites(cfg, fm)[0];
    }
  }

  lemma ResolvStage(cfg: Config, fm: Formats, before: Etc, mid: Etc)
    requires Written(cfg, fm, before, mid, ResolvFrom(cfg))
    ensures |Writes(cfg, fm)| == ResolvFrom(cfg) + if cfg.dnsServers == [] then 0 else 1
    ensures cfg.dnsServers != [] ==>
      Written(cfg, fm, before, Perform(mid, ResolvWrites(cfg, fm)[0]), ResolvFrom(cfg) + 1)
  {
    if cfg.dnsServers != [] {
      assert Writes(cfg, fm)[ResolvFrom(cfg)] == ResolvWrites(cfg, fm)[0];
    }
  }

  /** Hostname and unit writes leave the other two files alone. */
  lemma {:induction false} OtherFilesUntouched(etc: Etc, ws: seq<Write>, n: nat)
    requires n <= |ws| && forall i :: 0 <= i < n ==> ws[i].SetHostname? || ws[i].SetUnit?
    ensures Replay(etc, ws, n).kargs == etc.kargs && Replay(etc, ws, n).resolv == etc.resolv
  {
    if n > 0 { OtherFilesUntouched(etc, ws, n - 1); }
  }

  lemma KargsUntouched(cfg: Config, fm: Formats, before: Etc, mid: Etc)
    requires Written(cfg, fm, before, mid, KargsFrom(cfg))
    ensures mid.kargs == before.kargs && mid.resolv == before.resolv
  {
    OtherFilesUntouched(before, Writes(cfg, fm), KargsFrom(cfg));
  }
}
