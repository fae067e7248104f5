/** What a successful Apply leaves for Read, with the actual file formats. */
module ConfigTheorems {
  import opened Wrappers
  import opened GoStrings
  import opened Network
  import opened MachineConfig
  import Kargs
  import Resolv
  import Validate

  const UNIT_PREFIX := "10-hb-"
  const UNIT_SUFFIX := ".network"

  function UnitFile(name: string): string {
    UNIT_PREFIX + name + UNIT_SUFFIX
  }

  predicate IsUnitFile(file: string) {
    HasPrefix(file, UNIT_PREFIX) && HasSuffix(file, UNIT_SUFFIX)
  }

  /** The formats that NewApplier is given in the agent. */
  function FileFormats(isPrint: char -> bool, parseIP: string -> bool): Formats {
    Formats(
      UnitFile, IsUnitFile, UnitText, ParsedUnit,
      (args: seq<string>) => Kargs.TomlText(args, isPrint), Kargs.ParsedToml,
      Resolv.ResolvText, Resolv.ParsedResolv,
      parseIP)
  }

  lemma UnitFileInjective(a: string, b: string)
    requires UnitFile(a) == UnitFile(b)
    ensures a == b
  {
    assert a == UnitFile(a)[6..6 + |a|];
    assert b == UnitFile(b)[6..6 + |b|];
  }

  /** The validation in front of the k-th write of the sequence. */
  predicate ValidatedBefore(cfg: Config, fm: Formats, k: nat) {
    && ValidHostname(cfg)
    && (k >= UnitsFrom(cfg) ==> ValidInterfaces(cfg))
    && (k >= KargsFrom(cfg) ==> ValidKernelArgs(cfg))
    && (k >= ResolvFrom(cfg) ==> ValidDns(cfg, fm))
  }

  /** However Apply ends, a write it did had passed the validation of its stage and of all
      stages before: an invalid stage is not begun, nor any later one. */
  lemma EveryWriteWasValidated(cfg: Config, fm: Formats, r: Outcome, n: nat, k: nat)
    requires StoppedAfter(cfg, fm, r, n) && k < n <= |Writes(cfg, fm)|
    ensures ValidatedBefore(cfg, fm, k)
  {}

  // ---- The state after all writes ----

  /** The unit files after the first n interfaces were written over `units`. */
  function UnitsAfter(units: map<string, string>, ifaces: seq<Interface>, n: nat, fm: Formats): map<string, string>
    requires n <= |ifaces|
  {
    if n == 0 then units
    else UnitsAfter(units, ifaces, n - 1, fm)[fm.unitFile(ifaces[n - 1].name) := fm.unitText(ifaces[n - 1])]
  }

  function AfterAll(etc: Etc, cfg: Config, fm: Formats): Etc {
    Etc(if cfg.hostname == "" then etc.hostname else Some(cfg.hostname + "\n"),
        UnitsAfter(etc.units, cfg.interfaces, |cfg.interfaces|, fm),
        if cfg.kernelArgs == [] then etc.kargs else Some(fm.kargsText(cfg.kernelArgs)),
        if cfg.dnsServers == [] then etc.resolv else Some(fm.resolvText(cfg.dnsServers)))
  }

  lemma {:induction false} UnitReplay(etc: Etc, ifaces: seq<Interface>, n: nat, fm: Formats)
    requires n <= |ifaces|
    ensures Replay(etc, UnitWrites(ifaces, fm), n) == etc.(units := UnitsAfter(etc.units, ifaces, n, fm))
  {
    if n > 0 { UnitReplay(etc, ifaces, n - 1, fm); }
  }

  /** Doing the whole sequence amounts to replacing each file that the config speaks of. */
  lemma FullReplay(etc: Etc, cfg: Config, fm: Formats, after: Etc)
    requires Written(cfg, fm, etc, after, |Writes(cfg, fm)|)
    ensures after == AfterAll(etc, cfg, fm)
  {
    HostnameStage(cfg, fm, etc);
    var named := if cfg.hostname == "" then etc else Perform(etc, HostnameWrites(cfg)[0]);
    UnitStage(cfg, fm, etc, named, |cfg.interfaces|);
    UnitReplay(named, cfg.interfaces, |cfg.interfaces|, fm);
    var linked := Replay(named, UnitWrites(cfg.interfaces, fm), |cfg.interfaces|);
    KargsStage(cfg, fm, etc, linked);
    var booted := if cfg.kernelArgs == [] then linked else Perform(linked, KargsWrites(cfg, fm)[0]);
    ResolvStage(cfg, fm, etc, booted);
  }

  lemma {:induction false} UnitsAfterMerge(units: map<string, string>, ifaces: seq<Interface>, n: nat, fm: Formats)
    requires n <= |ifaces|
    ensures UnitsAfter(units, ifaces, n, fm) == units + UnitsAfter(map[], ifaces, n, fm)
  {
    if n > 0 { UnitsAfterMerge(units, ifaces, n - 1, fm); }
  }

  /** Applying the same config again changes no file. */
  lemma ApplyTwice(etc: Etc, cfg: Config, fm: Formats, once: Etc, twice: Etc)
    requires Written(cfg, fm, etc, once, |Writes(cfg, fm)|)
    requires Written(cfg, fm, once, twice, |Writes(cfg, fm)|)
    ensures twice == once
  {
    FullReplay(etc, cfg, fm, once);
    FullReplay(once, cfg, fm, twice);
    var n := |cfg.interfaces|;
    UnitsAfterMerge(etc.units, cfg.interfaces, n, fm);
    UnitsAfterMerge(once.units, cfg.interfaces, n, fm);
  }

  // ---- Reading back ----

  /** The parsed unit files, by file name. */
  function DecodedUnits(units: map<string, string>, fm: Formats): map<string, Interface> {
    map f | f in units && fm.isUnitFile(f) :: fm.parseUnit(units[f])
  }

  /** `decoded` overlaid with the first n interfaces, later ones over earlier ones. */
  function Overlaid(decoded: map<string, Interface>, ifaces: seq<Interface>, n: nat, fm: Formats):
    map<string, Interface>
    requires n <= |ifaces|
  {
    if n == 0 then decoded
    else Overlaid(decoded, ifaces, n - 1, fm)[fm.unitFile(ifaces[n - 1].name) := Normal(ifaces[n - 1])]
  }

  function Listed(entries: seq<string>, decoded: map<string, Interface>): seq<Interface> {
    if entries == [] then []
    else
      var last := entries[|entries| - 1];
      Listed(entries[..|entries| - 1], decoded) +
      if last in decoded && decoded[last].name != "" then [decoded[last]] else []
  }

  lemma {:induction false} InterfacesAreListed(entries: seq<string>, units: map<string, string>, fm: Formats)
    requires forall f :: f in entries ==> f in units
    ensures InterfacesIn(entries, units, fm) == Listed(entries, DecodedUnits(units, fm))
  {
    if entries != [] {
      InterfacesAreListed(entries[..|entries| - 1], units, fm);
    }
  }

  /** The agent's own unit files are exactly those named 10-hb-*.network. */
  lemma UnitFileExactlyWhen(file: string)
    ensures IsUnitFile(file) <==> exists name: string :: file == "10-hb-" + name + ".network"
  {
    if IsUnitFile(file) {
      var n := |file| - 8;
      assert file[n..] == UNIT_SUFFIX && file[..6] == UNIT_PREFIX;
      assert file[n] == '.' && forall i :: 0 <= i < 6 ==> file[i] == UNIT_PREFIX[i] && file[i] != '.';
      assert file == "10-hb-" + file[6..n] + ".network";
    }
    if exists name: string :: file == "10-hb-" + name + ".network" {
      var name: string :| file == "10-hb-" + name + ".network";
      UnitFileListed(name);
    }
  }

  /** Nothing else is listed: each interface has a name and comes from such a file. */
  lemma {:induction false} ListedOnly(entries: seq<string>, units: map<string, string>, fm: Formats, iface: Interface)
    requires iface in Listed(entries, DecodedUnits(units, fm))
    ensures iface.name != ""
    ensures exists f :: f in entries && f in units && fm.isUnitFile(f) && fm.parseUnit(units[f]) == iface
  {
    var n := |entries| - 1;
    if iface in Listed(entries[..n], DecodedUnits(units, fm)) {
      ListedOnly(entries[..n], units, fm, iface);
      var f :| f in entries[..n] && f in units && fm.isUnitFile(f) && fm.parseUnit(units[f]) == iface;
      assert f in entries;
    } else {
      assert entries[n] in entries;
    }
  }

  /** Formats whose unit files are listed and come back. */
  ghost predicate UnitsRoundTrip(ifaces: seq<Interface>, fm: Formats) {
    && (forall i :: 0 <= i < |ifaces| ==> fm.isUnitFile(fm.unitFile(ifaces[i].name)))
    && forall i :: 0 <= i < |ifaces| ==> fm.parseUnit(fm.unitText(ifaces[i])) == Normal(ifaces[i])
  }

  lemma {:induction false} OverlayOnDisk(units: map<string, string>, ifaces: seq<Interface>, n: nat, fm: Formats)
    requires n <= |ifaces| && UnitsRoundTrip(ifaces, fm)
    ensures DecodedUnits(UnitsAfter(units, ifaces, n, fm), fm) == Overlaid(DecodedUnits(units, fm), ifaces, n, fm)
  {
    if n > 0 {
      OverlayOnDisk(units, ifaces, n - 1, fm);
      var last := ifaces[n - 1];
      DecodeUpdate(UnitsAfter(units, ifaces, n - 1, fm), fm.unitFile(last.name), fm.unitText(last), fm);
    }
  }

  lemma DecodeUpdate(units: map<string, string>, file: string, text: string, fm: Formats)
    requires fm.isUnitFile(file)
    ensures DecodedUnits(units[file := text], fm) == DecodedUnits(units, fm)[file := fm.parseUnit(text)]
  {}

  /** In the overlay each name has the last interface given for it. */
  lemma {:induction false} OverlayIsLast(decoded: map<string, Interface>, ifaces: seq<Interface>, n: nat, i: nat,
                                         isPrint: char -> bool, parseIP: string -> bool, fm: Formats)
    requires i < n <= |ifaces| && forall j :: i < j < n ==> ifaces[j].name != ifaces[i].name
    requires fm == FileFormats(isPrint, parseIP)
    ensures UnitFile(ifaces[i].name) in Overlaid(decoded, ifaces, n, fm)
    ensures Overlaid(decoded, ifaces, n, fm)[UnitFile(ifaces[i].name)] == Normal(ifaces[i])
  {
    if i < n - 1 {
      OverlayIsLast(decoded, ifaces, n - 1, i, isPrint, parseIP, fm);
      if UnitFile(ifaces[i].name) == UnitFile(ifaces[n - 1].name) {
        UnitFileInjective(ifaces[i].name, ifaces[n - 1].name);
      }
    }
  }

  /** And the files of other names are as they were. */
  lemma {:induction false} OverlayKeepsOthers(decoded: map<string, Interface>, ifaces: seq<Interface>, n: nat,
                                              f: string, fm: Formats)
    requires n <= |ifaces| && forall i :: 0 <= i < n ==> fm.unitFile(ifaces[i].name) != f
    ensures f in Overlaid(decoded, ifaces, n, fm) <==> f in decoded
    ensures f in decoded ==> Overlaid(decoded, ifaces, n, fm)[f] == decoded[f]
  {
    if n > 0 { OverlayKeepsOthers(decoded, ifaces, n - 1, f, fm); }
  }

  /** What a valid config needs besides to be carried by the file formats. Validation is enough
      for interface names and DNS servers, not for addresses, gateways and kernel arguments. */
  ghost predicate Storable(cfg: Config, isPrint: char -> bool) {
    && (forall i :: 0 <= i < |cfg.interfaces| ==> CleanAddressing(Normal(cfg.interfaces[i])))
    && (forall i :: 0 <= i < |cfg.kernelArgs| ==> Kargs.PlainArg(cfg.kernelArgs[i], isPrint))
  }

  ghost predicate CleanAddressing(iface: Interface) {
    Clean(iface.gateway) && forall i :: 0 <= i < |iface.addresses| ==> Clean(iface.addresses[i])
  }

  lemma ValidServersWritable(cfg: Config, fm: Formats)
    requires ValidDns(cfg, fm) && Validate.IsParseIP(fm.parseIP)
    ensures forall i :: 0 <= i < |cfg.dnsServers| ==> Resolv.Writable(cfg.dnsServers[i])
  {
    forall i | 0 <= i < |cfg.dnsServers|
      ensures Resolv.Writable(cfg.dnsServers[i])
    {
      var s := cfg.dnsServers[i];
      assert Validate.IPAddress(s, fm.parseIP) && fm.parseIP(s);
      assert forall k :: 0 <= k < |s| ==> Validate.IsIPChar(s[k]);
      assert Validate.IsIPChar(s[|s| - 1]);
    }
  }

  /** Every part of the config survives its file format. */
  ghost predicate Carries(cfg: Config, fm: Formats) {
    && UnitsRoundTrip(cfg.interfaces, fm)
    && fm.parseKargs(fm.kargsText(cfg.kernelArgs)) == cfg.kernelArgs
    && fm.parseResolv(fm.resolvText(cfg.dnsServers)) == cfg.dnsServers
  }

  lemma UnitFileListed(name: string)
    ensures IsUnitFile(UnitFile(name))
  {
    var f := UnitFile(name);
    assert f == UNIT_PREFIX + (name + UNIT_SUFFIX);
    assert f[|f| - |UNIT_SUFFIX|..] == UNIT_SUFFIX;
  }

  lemma UnitsCarried(ifaces: seq<Interface>, fm: Formats)
    requires fm.unitFile == UnitFile && fm.isUnitFile == IsUnitFile
    requires fm.unitText == UnitText && fm.parseUnit == ParsedUnit
    requires forall i :: 0 <= i < |ifaces| ==> Validate.InterfaceName(ifaces[i].name)
    requires forall i :: 0 <= i < |ifaces| ==> CleanAddressing(Normal(ifaces[i]))
    ensures UnitsRoundTrip(ifaces, fm)
  {
    forall i | 0 <= i < |ifaces|
      ensures fm.parseUnit(fm.unitText(ifaces[i])) == Normal(ifaces[i])
      ensures fm.isUnitFile(fm.unitFile(ifaces[i].name))
    {
      Validate.InterfaceNameIsClean(ifaces[i].name);
      Network.RoundTrip(ifaces[i]);
      UnitFileListed(ifaces[i].name);
    }
  }

  lemma FileFormatsCarry(cfg: Config, isPrint: char -> bool, parseIP: string -> bool)
    requires Kargs.IsPrintTable(isPrint) && Validate.IsParseIP(parseIP)
    requires ValidInterfaces(cfg) && ValidDns(cfg, FileFormats(isPrint, parseIP)) && Storable(cfg, isPrint)
    ensures Carries(cfg, FileFormats(isPrint, parseIP))
  {
    assert forall i :: 0 <= i < |cfg.interfaces| ==> ValidInterface(cfg.interfaces[i]);
    UnitsCarried(cfg.interfaces, FileFormats(isPrint, parseIP));
    Kargs.RoundTrip(cfg.kernelArgs, isPrint);
    ValidServersWritable(cfg, FileFormats(isPrint, parseIP));
    Resolv.RoundTrip(cfg.dnsServers);
  }

  lemma ReadCarried(etc: Etc, cfg: Config, fm: Formats, after: Etc, entries: seq<string>)
    requires Carries(cfg, fm) && Written(cfg, fm, etc, after, |Writes(cfg, fm)|)
    requires forall f :: f in entries ==> f in after.units
    ensures KargsIn(after, fm) == if cfg.kernelArgs == [] then KargsIn(etc, fm) else cfg.kernelArgs
    ensures DnsIn(after, fm) == if cfg.dnsServers == [] then DnsIn(etc, fm) else cfg.dnsServers
    ensures InterfacesIn(entries, after.units, fm)
         == Listed(entries, Overlaid(DecodedUnits(etc.units, fm), cfg.interfaces, |cfg.interfaces|, fm))
  {
    FullReplay(etc, cfg, fm, after);
    OverlayOnDisk(etc.units, cfg.interfaces, |cfg.interfaces|, fm);
    InterfacesAreListed(entries, after.units, fm);
  }

  /** After every write of a valid, storable config, reading gives its kernel arguments and DNS
      servers, and the old interface directory overlaid with its interfaces; what it leaves
      empty reads as before. */
  lemma ReadAfterApply(etc: Etc, cfg: Config, isPrint: char -> bool, parseIP: string -> bool, fm: Formats,
                       after: Etc, entries: seq<string>)
    requires Kargs.IsPrintTable(isPrint) && Validate.IsParseIP(parseIP) && fm == FileFormats(isPrint, parseIP)
    requires Valid(cfg, fm) && Storable(cfg, isPrint)
    requires Written(cfg, fm, etc, after, |Writes(cfg, fm)|)
    requires forall f :: f in entries ==> f in after.units
    ensures KargsIn(after, fm) == if cfg.kernelArgs == [] then KargsIn(etc, fm) else cfg.kernelArgs
    ensures DnsIn(after, fm) == if cfg.dnsServers == [] then DnsIn(etc, fm) else cfg.dnsServers
    ensures InterfacesIn(entries, after.units, fm)
         == Listed(entries, Overlaid(DecodedUnits(etc.units, fm), cfg.interfaces, |cfg.interfaces|, fm))
  {
    FileFormatsCarry(cfg, isPrint, parseIP);
    ReadCarried(etc, cfg, fm, after, entries);
  }

  // ---- Apply, then Read ----

  /** What an Apply that was not refused has put into the files: all of the config, except that
      a failed write of resolv.conf is only warned of. */
  function Effective(cfg: Config, warnings: seq<Warning>): Config {
    if DnsNotWritten in warnings then cfg.(dnsServers := []) else cfg
  }

  lemma EffectiveWritten(cfg: Config, fm: Formats, before: Etc, after: Etc, r: Outcome, n: nat)
    requires r.Applied? && StoppedAfter(cfg, fm, r, n) && Written(cfg, fm, before, after, n)
    ensures
      var done := Effective(cfg, r.warnings);
      Valid(done, fm) && Written(done, fm, before, after, |Writes(done, fm)|)
  {
    var done := Effective(cfg, r.warnings);
    if done != cfg {
      assert Writes(done, fm) + ResolvWrites(cfg, fm) == Writes(cfg, fm);
      ReplayConcat(before, Writes(done, fm), ResolvWrites(cfg, fm), n);
    }
  }

  /** The last interface given under its name. */
  ghost predicate IsLastOfName(ifaces: seq<Interface>, i: nat)
    requires i < |ifaces|
  {
    forall j :: i < j < |ifaces| ==> ifaces[j].name != ifaces[i].name
  }

  lemma {:induction false} ListedHolds(entries: seq<string>, decoded: map<string, Interface>, f: string)
    requires f in entries && f in decoded && decoded[f].name != ""
    ensures decoded[f] in Listed(entries, decoded)
  {
    if f != entries[|entries| - 1] {
      assert f in entries[..|entries| - 1];
      ListedHolds(entries[..|entries| - 1], decoded, f);
    }
  }

  /** Each interface that is the last of its name is found again, in normal form. */
  lemma InterfacesFound(etc: Etc, cfg: Config, isPrint: char -> bool, parseIP: string -> bool, fm: Formats,
                        after: Etc, entries: seq<string>, i: nat)
    requires fm == FileFormats(isPrint, parseIP) && ValidInterfaces(cfg)
    requires Written(cfg, fm, etc, after, |Writes(cfg, fm)|) && Lists(entries, after.units)
    requires i < |cfg.interfaces| && IsLastOfName(cfg.interfaces, i)
    ensures Normal(cfg.interfaces[i])
      in Listed(entries, Overlaid(DecodedUnits(etc.units, fm), cfg.interfaces, |cfg.interfaces|, fm))
  {
    var n, f := |cfg.interfaces|, UnitFile(cfg.interfaces[i].name);
    var overlay := Overlaid(DecodedUnits(etc.units, fm), cfg.interfaces, n, fm);
    OverlayIsLast(DecodedUnits(etc.units, fm), cfg.interfaces, n, i, isPrint, parseIP, fm);
    FullReplay(etc, cfg, fm, after);
    UnitFileWritten(etc.units, cfg.interfaces, n, i, fm);
    assert ValidInterface(cfg.interfaces[i]);
    ListedHolds(entries, overlay, f);
  }

  lemma {:induction false} UnitFileWritten(units: map<string, string>, ifaces: seq<Interface>, n: nat, i: nat,
                                           fm: Formats)
    requires i < n <= |ifaces|
    ensures fm.unitFile(ifaces[i].name) in UnitsAfter(units, ifaces, n, fm)
  {
    if i < n - 1 { UnitFileWritten(units, ifaces, n - 1, i, fm); }
  }

  /** A client that applies a storable config and reads back: unless it is refused, whatever was
      applied is found again, and everything else is found as it was before. */
  method ApplyThenRead(host: Host, cfg: Config, kernelName: Option<string>,
                       ghost isPrint: char -> bool, ghost parseIP: string -> bool)
    returns (r: Outcome, found: Config, ghost entries: seq<string>)
    requires Kargs.IsPrintTable(isPrint) && Validate.IsParseIP(parseIP)
    requires host.fm == FileFormats(isPrint, parseIP) && Storable(cfg, isPrint)
    modifies host
    ensures (forall k :: !host.faulty(k)) && Valid(cfg, host.fm) ==> r.Applied? && DnsNotWritten !in r.warnings
    ensures r.Applied? ==>
      var done := Effective(cfg, r.warnings);
      && found.kernelArgs == (if done.kernelArgs == [] then KargsIn(old(host.etc), host.fm) else done.kernelArgs)
      && found.dnsServers == (if done.dnsServers == [] then DnsIn(old(host.etc), host.fm) else done.dnsServers)
      && found.interfaces == Listed(entries,
           Overlaid(DecodedUnits(old(host.etc.units), host.fm), cfg.interfaces, |cfg.interfaces|, host.fm))
      && Lists(entries, host.etc.units)
      && (forall i :: 0 <= i < |cfg.interfaces| && IsLastOfName(cfg.interfaces, i) ==>
            Normal(cfg.interfaces[i]) in found.interfaces)
      && host.etc.hostname == (if cfg.hostname == "" then old(host.etc.hostname) else Some(cfg.hostname + "\n"))
  {
    ghost var etc, n := host.etc, 0;
    r, n := host.Apply(cfg);
    found, entries := host.Read(kernelName);
    if r.Applied? {
      ghost var done := Effective(cfg, r.warnings);
      EffectiveWritten(cfg, host.fm, etc, host.etc, r, n);
      FullReplay(etc, done, host.fm, host.etc);
      ReadAfterApply(etc, done, isPrint, parseIP, host.fm, host.etc, entries);
      forall i | 0 <= i < |cfg.interfaces| && IsLastOfName(cfg.interfaces, i)
        ensures Normal(cfg.interfaces[i]) in found.interfaces
      {
        InterfacesFound(etc, done, isPrint, parseIP, host.fm, host.etc, entries, i);
      }
    }
  }

  /** Re-applying asks for no reboot exactly when the arguments survive the file. A validated
      argument with a quote or a backslash in it makes every Apply ask for a reboot. */
  lemma NoRebootOnReapply(etc: Etc, cfg: Config, isPrint: char -> bool, parseIP: string -> bool, after: Etc)
    requires Kargs.IsPrintTable(isPrint)
    requires Written(cfg, FileFormats(isPrint, parseIP), etc, after, |Writes(cfg, FileFormats(isPrint, parseIP))|)
    ensures cfg.kernelArgs == [] || KargsIn(after, FileFormats(isPrint, parseIP)) == cfg.kernelArgs
       <==> forall i :: 0 <= i < |cfg.kernelArgs| ==> Kargs.PlainArg(cfg.kernelArgs[i], isPrint)
  {
    FullReplay(etc, cfg, FileFormats(isPrint, parseIP), after);
    Kargs.RoundTrip(cfg.kernelArgs, isPrint);
  }

  /** Such an argument: it passes the validator and does not come back. */
  lemma QuotedArgIsNotStable(isPrint: char -> bool)
    requires Kargs.IsPrintTable(isPrint)
    ensures Validate.KernelArg(['"'])
    ensures Kargs.ParsedToml(Kargs.TomlText([['"']], isPrint)) != [['"']]
  {
    Validate.QuoteIsAllowed();
    var args := [['"']];
    assert !Kargs.PlainArg(args[0], isPrint) by { assert '"' in args[0]; }
    Kargs.RoundTrip(args, isPrint);
  }
}
