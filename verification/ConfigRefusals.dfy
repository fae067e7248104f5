/** What Apply does with a configuration that must not be applied: each kind of bad value is named
    here by its characters, not by the validator. */
module ConfigRefusals {
  import opened Wrappers
  import opened Text
  import opened Network
  import opened MachineConfig
  import Validate

  /** Neither a letter, a digit, a hyphen nor a dot. */
  predicate BadHostChar(c: char) {
    !Validate.IsLetterOrDigit(c) && c != '-' && c != '.'
  }

  predicate BadHostname(name: string) {
    |name| > 253 || exists i :: 0 <= i < |name| && BadHostChar(name[i])
  }

  predicate HasLineBreak(s: string) {
    '\n' in s || '\r' in s
  }

  predicate BadInterface(iface: Interface) {
    || iface.name == "" || |iface.name| > 15 || '/' in iface.name || HasLineBreak(iface.name)
    || HasLineBreak(iface.gateway)
    || exists i :: 0 <= i < |iface.addresses| && HasLineBreak(iface.addresses[i])
  }

  predicate HasBadInterface(cfg: Config) {
    exists i :: 0 <= i < |cfg.interfaces| && BadInterface(cfg.interfaces[i])
  }

  predicate HasDangerousArg(cfg: Config) {
    exists i :: 0 <= i < |cfg.kernelArgs| && Validate.Dangerous(cfg.kernelArgs[i])
  }

  predicate HasBadServer(cfg: Config, parseIP: string -> bool) {
    exists i :: 0 <= i < |cfg.dnsServers| && !parseIP(cfg.dnsServers[i])
  }

  lemma BadHostnameIsInvalid(name: string)
    requires BadHostname(name)
    ensures !Validate.Hostname(name)
  {
    if Validate.Hostname(name) {
      var i :| 0 <= i < |name| && BadHostChar(name[i]);
      JoinSplit(name, '.');
      HostCharsOfLabels(Split(name, '.'), i);
    }
  }

  lemma {:induction false} HostCharsOfLabels(labels: seq<string>, i: nat)
    requires labels != [] && forall k :: 0 <= k < |labels| ==> Validate.HostLabel(labels[k])
    requires i < |Join(labels, '.')|
    ensures !BadHostChar(Join(labels, '.')[i])
  {
    if |labels| > 1 && i > |labels[0]| {
      HostCharsOfLabels(labels[1..], i - |labels[0]| - 1);
    }
  }

  lemma BadInterfaceIsInvalid(iface: Interface)
    requires BadInterface(iface)
    ensures !ValidInterface(iface)
  {
    if exists i :: 0 <= i < |iface.addresses| && HasLineBreak(iface.addresses[i]) {
      var i :| 0 <= i < |iface.addresses| && HasLineBreak(iface.addresses[i]);
      assert !Validate.NetworkAddress(iface.addresses[i]);
    }
  }

  /** Which stages a refused configuration reaches, in terms of the writes done. */
  lemma RefusedBefore(cfg: Config, fm: Formats, before: Etc, after: Etc, r: Outcome, n: nat)
    requires StoppedAfter(cfg, fm, r, n) && Written(cfg, fm, before, after, n)
    ensures !ValidHostname(cfg) ==> r == Failed(InvalidHostname) && after == before
    ensures !ValidInterfaces(cfg) ==>
      r.Failed? && after.units == before.units && after.kargs == before.kargs && after.resolv == before.resolv
    ensures !ValidKernelArgs(cfg) ==> r.Failed? && after.kargs == before.kargs && after.resolv == before.resolv
    ensures !ValidDns(cfg, fm) ==> r.Failed? && after.resolv == before.resolv
  {
    if !ValidInterfaces(cfg) {
      UnitsUntouched(before, Writes(cfg, fm), n);
    }
    if !ValidInterfaces(cfg) || !ValidKernelArgs(cfg) {
      OtherFilesUntouched(before, Writes(cfg, fm), n);
    }
    if !ValidDns(cfg, fm) {
      ResolvUntouched(before, Writes(cfg, fm), n);
    }
  }

  lemma {:induction false} UnitsUntouched(etc: Etc, ws: seq<Write>, n: nat)
    requires n <= |ws| && forall i :: 0 <= i < n ==> !ws[i].SetUnit?
    ensures Replay(etc, ws, n).units == etc.units
  {
    if n > 0 { UnitsUntouched(etc, ws, n - 1); }
  }

  lemma {:induction false} ResolvUntouched(etc: Etc, ws: seq<Write>, n: nat)
    requires n <= |ws| && forall i :: 0 <= i < n ==> !ws[i].SetResolv?
    ensures Replay(etc, ws, n).resolv == etc.resolv
  {
    if n > 0 { ResolvUntouched(etc, ws, n - 1); }
  }

  lemma BadValuesAreInvalid(cfg: Config, fm: Formats)
    ensures cfg.hostname != "" && BadHostname(cfg.hostname) ==> !ValidHostname(cfg)
    ensures HasBadInterface(cfg) ==> !ValidInterfaces(cfg)
    ensures HasDangerousArg(cfg) ==> !ValidKernelArgs(cfg)
    ensures HasBadServer(cfg, fm.parseIP) ==> !ValidDns(cfg, fm)
  {
    if cfg.hostname != "" && BadHostname(cfg.hostname) {
      BadHostnameIsInvalid(cfg.hostname);
    }
    if HasBadInterface(cfg) {
      var i :| 0 <= i < |cfg.interfaces| && BadInterface(cfg.interfaces[i]);
      BadInterfaceIsInvalid(cfg.interfaces[i]);
    }
    if HasDangerousArg(cfg) {
      var i :| 0 <= i < |cfg.kernelArgs| && Validate.Dangerous(cfg.kernelArgs[i]);
      Validate.KernelArgExactlyWhen(cfg.kernelArgs[i]);
    }
    if HasBadServer(cfg, fm.parseIP) {
      var i :| 0 <= i < |cfg.dnsServers| && !fm.parseIP(cfg.dnsServers[i]);
      assert !Validate.IPAddress(cfg.dnsServers[i], fm.parseIP);
    }
  }

  /** A client that applies any configuration: a host name with a foreign character changes nothing
      at all; a bad interface no unit file; a dangerous kernel argument neither the arguments nor
      the servers; a server that is no address not the servers. Each is refused. */
  method ApplyAny(host: Host, cfg: Config) returns (r: Outcome)
    modifies host
    ensures cfg.hostname != "" && BadHostname(cfg.hostname) ==>
      r == Failed(InvalidHostname) && host.etc == old(host.etc)
    ensures HasBadInterface(cfg) ==>
      && r.Failed? && host.etc.units == old(host.etc.units)
      && host.etc.kargs == old(host.etc.kargs) && host.etc.resolv == old(host.etc.resolv)
    ensures HasDangerousArg(cfg) ==>
      r.Failed? && host.etc.kargs == old(host.etc.kargs) && host.etc.resolv == old(host.etc.resolv)
    ensures HasBadServer(cfg, host.fm.parseIP) ==> r.Failed? && host.etc.resolv == old(host.etc.resolv)
  {
    ghost var before := host.etc;
    ghost var n;
    r, n := host.Apply(cfg);
    BadValuesAreInvalid(cfg, host.fm);
    RefusedBefore(cfg, host.fm, before, host.etc, r, n);
  }

  // ---- What is let through ----

  /** An ordinary configuration, in terms of its characters. */
  ghost predicate Ordinary(cfg: Config, labels: seq<string>, parseIP: string -> bool) {
    && (cfg.hostname != "" ==> labels != [] && cfg.hostname == Join(labels, '.') && |cfg.hostname| <= 253)
    && (forall i :: 0 <= i < |labels| ==> Validate.DnsLabel(labels[i]))
    && (forall i :: 0 <= i < |cfg.interfaces| ==> OrdinaryInterface(cfg.interfaces[i]))
    && (forall i :: 0 <= i < |cfg.kernelArgs| ==> OrdinaryArg(cfg.kernelArgs[i]))
    && (forall i :: 0 <= i < |cfg.dnsServers| ==> cfg.dnsServers[i] != "" && parseIP(cfg.dnsServers[i]))
  }

  /** Visible characters only. */
  predicate Visible(s: string) {
    forall i :: 0 <= i < |s| ==> '!' <= s[i] <= '~'
  }

  predicate OrdinaryInterface(iface: Interface) {
    && 1 <= |iface.name| <= 15
    && (forall i :: 0 <= i < |iface.name| ==> Validate.IsLetterOrDigit(iface.name[i]))
    && Visible(iface.gateway)
    && forall i :: 0 <= i < |iface.addresses| ==> Visible(iface.addresses[i])
  }

  predicate OrdinaryArg(arg: string) {
    Visible(arg) && !Validate.Dangerous(arg)
  }

  lemma OrdinaryIsValid(cfg: Config, labels: seq<string>, fm: Formats)
    requires Ordinary(cfg, labels, fm.parseIP) && Validate.IsParseIP(fm.parseIP)
    ensures Valid(cfg, fm)
  {
    if cfg.hostname != "" {
      assert forall i :: 0 <= i < |labels| ==> Validate.DnsLabel(labels[i]) && '.' !in labels[i];
      Validate.HostnameExactlyWhen(labels);
    }
    forall i | 0 <= i < |cfg.interfaces|
      ensures ValidInterface(cfg.interfaces[i])
    {
      OrdinaryInterfaceIsValid(cfg.interfaces[i]);
    }
    forall i | 0 <= i < |cfg.kernelArgs|
      ensures Validate.KernelArg(cfg.kernelArgs[i])
    {
      assert OrdinaryArg(cfg.kernelArgs[i]);
      Validate.KernelArgExactlyWhen(cfg.kernelArgs[i]);
    }
    forall i | 0 <= i < |cfg.dnsServers|
      ensures Validate.IPAddress(cfg.dnsServers[i], fm.parseIP)
    {
      Validate.AddressesExactlyWhen(cfg.dnsServers[i], fm.parseIP);
    }
  }

  lemma OrdinaryInterfaceIsValid(iface: Interface)
    requires OrdinaryInterface(iface)
    ensures ValidInterface(iface)
  {
    assert forall i :: 0 <= i < |iface.addresses| ==> Visible(iface.addresses[i]);
  }

  /** On a working host an ordinary configuration is applied, and every file written. */
  method ApplyOrdinary(host: Host, cfg: Config, ghost labels: seq<string>) returns (r: Outcome)
    requires Ordinary(cfg, labels, host.fm.parseIP) && Validate.IsParseIP(host.fm.parseIP)
    requires forall k :: !host.faulty(k)
    modifies host
    ensures r.Applied? && DnsNotWritten !in r.warnings
    ensures NtpNotImplemented in r.warnings <==> cfg.ntpServers != []
    ensures Written(cfg, host.fm, old(host.etc), host.etc, |Writes(cfg, host.fm)|)
  {
    ghost var valid := Valid(cfg, host.fm);
    OrdinaryIsValid(cfg, labels, host.fm);
    assert valid;
    ghost var before, n := host.etc, 0;
    r, n := host.Apply(cfg);
    AppliedInFull(cfg, host.fm, r, n);
  }

  lemma AppliedInFull(cfg: Config, fm: Formats, r: Outcome, n: nat)
    requires StoppedAfter(cfg, fm, r, n) && r.Applied? && DnsNotWritten !in r.warnings
    ensures n == |Writes(cfg, fm)| && (NtpNotImplemented in r.warnings <==> cfg.ntpServers != [])
  {}
}
