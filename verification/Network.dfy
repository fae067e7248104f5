/** systemd-networkd unit files: the printer, the parser, and what survives a round trip. */
module Network {
  import opened Text
  import opened GoStrings

  newtype uint32 = x: int | 0 <= x < 0x1_0000_0000

  datatype Interface = Interface(name: string, dhcp: bool, addresses: seq<string>, gateway: string, mtu: uint32)

  const EMPTY := Interface("", false, [], "", 0)

  // ---- Printing ----

  function KeyLine(key: string, value: string): string {
    key + "=" + value
  }

  function AddressLines(addresses: seq<string>): (r: seq<string>)
    ensures |r| == |addresses| && forall i :: 0 <= i < |r| ==> r[i] == KeyLine("Address", addresses[i])
  {
    seq(|addresses|, i requires 0 <= i < |addresses| => KeyLine("Address", addresses[i]))
  }

  function GatewayLines(gateway: string): seq<string> {
    if gateway == "" then [] else [KeyLine("Gateway", gateway)]
  }

  function AddressingLines(iface: Interface): seq<string> {
    if iface.dhcp then [KeyLine("DHCP", "yes")]
    else [KeyLine("DHCP", "no")] + AddressLines(iface.addresses) + GatewayLines(iface.gateway)
  }

  function LinkLines(iface: Interface): seq<string> {
    if iface.mtu == 0 then [] else ["", "[Link]", KeyLine("MTUBytes", Decimal(iface.mtu as nat))]
  }

  function HeaderLines(iface: Interface): seq<string> {
    ["[Match]"] + [KeyLine("Name", iface.name)] + [""] + ["[Network]"]
  }

  /** The lines of the unit file, in order. */
  function UnitLines(iface: Interface): seq<string> {
    HeaderLines(iface) + AddressingLines(iface) + LinkLines(iface)
  }

  function UnitText(iface: Interface): string {
    Ended(UnitLines(iface), '\n')
  }

  lemma EndedSnoc(lines: seq<string>, line: string)
    ensures Ended(lines + [line], '\n') == Ended(lines, '\n') + line + "\n"
  {
    EndedConcat(lines, [line], '\n');
    assert [line][1..] == [];
    assert Ended([line], '\n') == line + "\n" + Ended<char>([], '\n');
  }

  method RenderNetworkFile(iface: Interface) returns (b: string)
    ensures b == UnitText(iface)
  {
    b := "[Match]" + "\n";
    EndedOfOne("[Match]");
    EndedSnoc(["[Match]"], KeyLine("Name", iface.name));
    b := b + KeyLine("Name", iface.name) + "\n";
    ghost var lines := ["[Match]"] + [KeyLine("Name", iface.name)];
    EndedSnoc(lines, "");
    EndedSnoc(lines + [""], "[Network]");
    b := b + "" + "\n" + "[Network]" + "\n";
    lines := HeaderLines(iface);
    if iface.dhcp {
      EndedSnoc(lines, KeyLine("DHCP", "yes"));
      b := b + KeyLine("DHCP", "yes") + "\n";
    } else {
      EndedSnoc(lines, KeyLine("DHCP", "no"));
      b := b + KeyLine("DHCP", "no") + "\n";
      lines := lines + [KeyLine("DHCP", "no")];
      NoAddressYet(lines, iface.addresses);
      for i := 0 to |iface.addresses|
        invariant b == Ended(lines + AddressLines(iface.addresses)[..i], '\n')
      {
        AddressStep(lines, iface.addresses, i);
        b := b + KeyLine("Address", iface.addresses[i]) + "\n";
      }
      AllAddresses(lines, iface.addresses);
      lines := lines + AddressLines(iface.addresses);
      NoGatewayLines(lines);
      if iface.gateway != "" {
        EndedSnoc(lines, KeyLine("Gateway", iface.gateway));
        b := b + KeyLine("Gateway", iface.gateway) + "\n";
      }
      StaticLines(HeaderLines(iface), KeyLine("DHCP", "no"),
                  AddressLines(iface.addresses), GatewayLines(iface.gateway));
    }
    lines := HeaderLines(iface) + AddressingLines(iface);
    NoGatewayLines(lines);
    if iface.mtu > 0 {
      var mtu := KeyLine("MTUBytes", Decimal(iface.mtu as nat));
      EndedOfThree(lines, "", "[Link]", mtu);
      b := b + "" + "\n" + "[Link]" + "\n" + mtu + "\n";
    }
  }

  lemma EndedOfOne(line: string)
    ensures Ended([line], '\n') == line + "\n"
  {
    EndedSnoc([], line);
  }

  lemma EndedOfThree(lines: seq<string>, x: string, y: string, z: string)
    ensures Ended(lines + [x, y, z], '\n') == Ended(lines, '\n') + x + "\n" + y + "\n" + z + "\n"
  {
    EndedSnoc(lines, x);
    EndedSnoc(lines + [x], y);
    EndedSnoc(lines + [x] + [y], z);
    assert lines + [x] + [y] + [z] == lines + [x, y, z];
  }

  lemma NoAddressYet(lines: seq<string>, addresses: seq<string>)
    ensures lines + AddressLines(addresses)[..0] == lines
  {}

  lemma AllAddresses(lines: seq<string>, addresses: seq<string>)
    ensures lines + AddressLines(addresses)[..|addresses|] == lines + AddressLines(addresses)
  {}

  lemma NoGatewayLines(lines: seq<string>)
    ensures lines + [] == lines
  {}

  lemma StaticLines(header: seq<string>, dhcp: string, addresses: seq<string>, gateway: seq<string>)
    ensures header + ([dhcp] + addresses + gateway) == header + [dhcp] + addresses + gateway
  {}

  lemma AddressStep(lines: seq<string>, addresses: seq<string>, i: nat)
    requires i < |addresses|
    ensures Ended(lines + AddressLines(addresses)[..i + 1], '\n')
         == Ended(lines + AddressLines(addresses)[..i], '\n') + KeyLine("Address", addresses[i]) + "\n"
  {
    var all := AddressLines(addresses);
    assert lines + all[..i + 1] == (lines + all[..i]) + [all[i]];
    EndedSnoc(lines + all[..i], all[i]);
  }

  // ---- Parsing ----

  function SetKey(iface: Interface, key: string, v: string): Interface {
    if key == "Name" then iface.(name := v)
    else if key == "DHCP" then iface.(dhcp := v == "yes")
    else if key == "Address" then iface.(addresses := iface.addresses + [v])
    else if key == "Gateway" then iface.(gateway := v)
    else if key == "MTUBytes" then iface.(mtu := ScanMtu(v, iface.mtu))
    else iface
  }

  function ScanMtu(v: string, current: uint32): uint32 {
    ScanUint32(v, current as nat) as uint32
  }

  function ParseLine(iface: Interface, raw: string): Interface {
    var cut := Cut(TrimSpace(raw), '=');
    if cut.found then SetKey(iface, cut.before, TrimSpace(cut.after)) else iface
  }

  function ParseLines(lines: seq<string>): Interface {
    if lines == [] then EMPTY else ParseLine(ParseLines(lines[..|lines| - 1]), lines[|lines| - 1])
  }

  function ParsedUnit(content: string): Interface {
    ParseLines(Split(content, '\n'))
  }

  method ParseNetworkFile(content: string) returns (iface: Interface)
    ensures iface == ParsedUnit(content)
  {
    iface := EMPTY;
    var lines := Split(content, '\n');
    for i := 0 to |lines|
      invariant iface == ParseLines(lines[..i])
    {
      assert lines[..i + 1][..i] == lines[..i];
      var line := TrimSpace(lines[i]);
      var cut := Cut(line, '=');
      if !cut.found { continue; }
      var k, v := cut.before, TrimSpace(cut.after);
      if k == "Name" {
        iface := iface.(name := v);
      } else if k == "DHCP" {
        iface := iface.(dhcp := v == "yes");
      } else if k == "Address" {
        iface := iface.(addresses := iface.addresses + [v]);
      } else if k == "Gateway" {
        iface := iface.(gateway := v);
      } else if k == "MTUBytes" {
        iface := iface.(mtu := ScanMtu(v, iface.mtu));
      }
    }
    assert lines[..|lines|] == lines;
  }

  // ---- Round trip ----

  /** A value that a line of a unit file can carry. */
  predicate Clean(v: string) {
    Trimmed(v) && '\n' !in v
  }

  /** What is written at all: DHCP leaves out the static addressing. */
  function Normal(iface: Interface): Interface {
    if iface.dhcp then iface.(addresses := [], gateway := "") else iface
  }

  ghost predicate CleanStrings(iface: Interface) {
    Clean(iface.name) && Clean(iface.gateway) && forall i :: 0 <= i < |iface.addresses| ==> Clean(iface.addresses[i])
  }

  lemma ParseSnoc(lines: seq<string>, line: string)
    ensures ParseLines(lines + [line]) == ParseLine(ParseLines(lines), line)
  {
    assert (lines + [line])[..|lines|] == lines;
  }

  lemma ParseKeyLine(iface: Interface, key: string, v: string)
    requires key != "" && !IsSpace(key[0]) && '=' !in key && Trimmed(v)
    ensures ParseLine(iface, KeyLine(key, v)) == SetKey(iface, key, v)
  {
    TrimmedIsFixed(KeyLine(key, v));
    CutFound(key, '=', v);
    assert KeyLine(key, v) == key + ['='] + v;
    TrimmedIsFixed(v);
  }

  lemma ParsePlainLine(iface: Interface, line: string)
    requires '=' !in line
    ensures ParseLine(iface, line) == iface
  {
    TrimSpaceStretch(line);
    IndexAbsent(TrimSpace(line), '=');
  }

  lemma ParseName(iface: Interface, v: string)
    requires Trimmed(v)
    ensures ParseLine(iface, KeyLine("Name", v)) == iface.(name := v)
  {
    ParseKeyLine(iface, "Name", v);
  }

  lemma ParseDhcp(iface: Interface, on: bool)
    ensures ParseLine(iface, KeyLine("DHCP", if on then "yes" else "no")) == iface.(dhcp := on)
  {
    ParseKeyLine(iface, "DHCP", if on then "yes" else "no");
  }

  lemma ParseAddress(iface: Interface, v: string)
    requires Trimmed(v)
    ensures ParseLine(iface, KeyLine("Address", v)) == iface.(addresses := iface.addresses + [v])
  {
    ParseKeyLine(iface, "Address", v);
  }

  lemma ParseGateway(iface: Interface, v: string)
    requires Trimmed(v)
    ensures ParseLine(iface, KeyLine("Gateway", v)) == iface.(gateway := v)
  {
    ParseKeyLine(iface, "Gateway", v);
  }

  lemma ParseMtu(iface: Interface, mtu: uint32)
    ensures ParseLine(iface, KeyLine("MTUBytes", Decimal(mtu as nat))) == iface.(mtu := mtu)
  {
    var d := Decimal(mtu as nat);
    DecimalDigits(mtu as nat);
    assert d[0] in d && d[|d| - 1] in d;
    ParseKeyLine(iface, "MTUBytes", d);
    ScanPrinted(mtu as nat, iface.mtu as nat);
  }

  lemma ParseHeader(iface: Interface)
    requires Clean(iface.name)
    ensures ParseLines(HeaderLines(iface)) == EMPTY.(name := iface.name)
  {
    ParsePlainLine(EMPTY, "[Match]");
    ParseName(EMPTY, iface.name);
    ParsePlainLine(EMPTY.(name := iface.name), "");
    ParsePlainLine(EMPTY.(name := iface.name), "[Network]");
    ParseFour("[Match]", KeyLine("Name", iface.name), "", "[Network]", EMPTY.(name := iface.name));
  }

  lemma ParseFour(w: string, x: string, y: string, z: string, parsed: Interface)
    requires ParseLine(EMPTY, w) == EMPTY && ParseLine(EMPTY, x) == parsed
    requires ParseLine(parsed, y) == parsed && ParseLine(parsed, z) == parsed
    ensures ParseLines([w] + [x] + [y] + [z]) == parsed
  {
    ParseSnoc([], w);
    assert [] + [w] == [w];
    ParseSnoc([w], x);
    ParseSnoc([w] + [x], y);
    ParseSnoc([w] + [x] + [y], z);
  }

  lemma ParseAddressStep(lines: seq<string>, addresses: seq<string>, i: nat)
    requires i < |addresses| && Trimmed(addresses[i])
    ensures
      var before := ParseLines(lines + AddressLines(addresses)[..i]);
      ParseLines(lines + AddressLines(addresses)[..i + 1])
        == before.(addresses := before.addresses + [addresses[i]])
  {
    var before := lines + AddressLines(addresses)[..i];
    AddressSnoc(lines, addresses, i);
    ParseSnoc(before, KeyLine("Address", addresses[i]));
    ParseAddress(ParseLines(before), addresses[i]);
  }

  function WithAddresses(iface: Interface, more: seq<string>): Interface {
    iface.(addresses := iface.addresses + more)
  }

  lemma WithOneMore(iface: Interface, addresses: seq<string>, i: nat)
    requires i < |addresses|
    ensures var before := WithAddresses(iface, addresses[..i]);
      WithAddresses(iface, addresses[..i + 1]) == before.(addresses := before.addresses + [addresses[i]])
  {
    assert iface.addresses + addresses[..i + 1] == iface.addresses + addresses[..i] + [addresses[i]];
  }

  lemma {:induction false} ParseAddresses(lines: seq<string>, addresses: seq<string>, n: nat)
    requires n <= |addresses| && forall i :: 0 <= i < |addresses| ==> Trimmed(addresses[i])
    ensures ParseLines(lines + AddressLines(addresses)[..n]) == WithAddresses(ParseLines(lines), addresses[..n])
  {
    if n == 0 {
      NoAddressYet(lines, addresses);
    } else {
      ParseAddresses(lines, addresses, n - 1);
      ParseAddressStep(lines, addresses, n - 1);
      WithOneMore(ParseLines(lines), addresses, n - 1);
    }
  }

  lemma AddressSnoc(lines: seq<string>, addresses: seq<string>, i: nat)
    requires i < |addresses|
    ensures lines + AddressLines(addresses)[..i + 1]
         == lines + AddressLines(addresses)[..i] + [KeyLine("Address", addresses[i])]
  {}

  lemma ParseStatic(lines: seq<string>, iface: Interface)
    requires !iface.dhcp && CleanStrings(iface)
    requires ParseLines(lines) == EMPTY.(name := iface.name)
    ensures ParseLines(lines + AddressingLines(iface)) == iface.(mtu := 0)
  {
    var no := KeyLine("DHCP", "no");
    ParseSnoc(lines, no);
    ParseDhcp(ParseLines(lines), false);
    ParseAddresses(lines + [no], iface.addresses, |iface.addresses|);
    AllAddresses(lines + [no], iface.addresses);
    assert iface.addresses[..|iface.addresses|] == iface.addresses;
    var static' := lines + [no] + AddressLines(iface.addresses);
    StaticLines(lines, no, AddressLines(iface.addresses), GatewayLines(iface.gateway));
    NoGatewayLines(static');
    if iface.gateway != "" {
      ParseSnoc(static', KeyLine("Gateway", iface.gateway));
      ParseGateway(ParseLines(static'), iface.gateway);
    }
  }

  lemma ParseAddressing(lines: seq<string>, iface: Interface)
    requires CleanStrings(Normal(iface))
    requires ParseLines(lines) == EMPTY.(name := iface.name)
    ensures ParseLines(lines + AddressingLines(iface)) == Normal(iface).(mtu := 0)
  {
    if iface.dhcp {
      ParseSnoc(lines, KeyLine("DHCP", "yes"));
      ParseDhcp(ParseLines(lines), true);
    } else {
      ParseStatic(lines, iface);
    }
  }

  lemma ParseLink(lines: seq<string>, iface: Interface)
    requires ParseLines(lines).mtu == 0
    ensures ParseLines(lines + LinkLines(iface)) == ParseLines(lines).(mtu := iface.mtu)
  {
    NoGatewayLines(lines);
    if iface.mtu > 0 {
      var m := KeyLine("MTUBytes", Decimal(iface.mtu as nat));
      ParsePlainLine(ParseLines(lines), "");
      ParsePlainLine(ParseLines(lines), "[Link]");
      ParseMtu(ParseLines(lines), iface.mtu);
      ParseTwoPlain(lines, "", "[Link]", m);
    }
  }

  lemma ParseTwoPlain(lines: seq<string>, x: string, y: string, z: string)
    requires ParseLine(ParseLines(lines), x) == ParseLine(ParseLines(lines), y) == ParseLines(lines)
    ensures ParseLines(lines + [x, y, z]) == ParseLine(ParseLines(lines), z)
  {
    ParseSnoc(lines, x);
    ParseSnoc(lines + [x], y);
    ParseSnoc(lines + [x] + [y], z);
    assert lines + [x] + [y] + [z] == lines + [x, y, z];
  }

  predicate NoNewline(line: string) {
    '\n' !in line
  }

  ghost predicate NoNewlines(lines: seq<string>) {
    forall i :: 0 <= i < |lines| ==> NoNewline(lines[i])
  }

  lemma NoNewlinesConcat(a: seq<string>, b: seq<string>)
    requires NoNewlines(a) && NoNewlines(b)
    ensures NoNewlines(a + b)
  {}

  lemma UnitLinesHaveNoNewline(iface: Interface)
    requires CleanStrings(Normal(iface))
    ensures NoNewlines(UnitLines(iface))
  {
    HeaderNoNewline(iface);
    AddressingNoNewline(iface);
    LinkNoNewline(iface);
    NoNewlinesConcat(HeaderLines(iface), AddressingLines(iface));
    NoNewlinesConcat(HeaderLines(iface) + AddressingLines(iface), LinkLines(iface));
  }

  lemma HeaderNoNewline(iface: Interface)
    requires Clean(iface.name)
    ensures NoNewlines(HeaderLines(iface))
  {}

  lemma AddressingNoNewline(iface: Interface)
    requires CleanStrings(Normal(iface))
    ensures NoNewlines(AddressingLines(iface))
  {}

  lemma LinkNoNewline(iface: Interface)
    ensures NoNewlines(LinkLines(iface))
  {
    if iface.mtu > 0 { DecimalDigits(iface.mtu as nat); }
  }

  lemma ParseRendered(iface: Interface)
    requires CleanStrings(Normal(iface))
    ensures ParsedUnit(UnitText(iface)) == Normal(iface)
  {
    UnitLinesHaveNoNewline(iface);
    SplitEnded(UnitLines(iface), '\n');
    ParseHeader(iface);
    ParseAddressing(HeaderLines(iface), iface);
    ParseLink(HeaderLines(iface) + AddressingLines(iface), iface);
    ParseSnoc(UnitLines(iface), "");
    ParsePlainLine(ParseLines(UnitLines(iface)), "");
  }

  lemma {:induction false} ParsedIsClean(lines: seq<string>)
    requires NoNewlines(lines)
    ensures CleanStrings(ParseLines(lines))
  {
    if lines != [] {
      var n := |lines| - 1;
      ParsedIsClean(lines[..n]);
      ParsedLineIsClean(ParseLines(lines[..n]), lines[n]);
    }
  }

  lemma ParsedLineIsClean(iface: Interface, raw: string)
    requires CleanStrings(iface) && NoNewline(raw)
    ensures CleanStrings(ParseLine(iface, raw))
  {
    ParsedValueClean(raw);
    var cut := Cut(TrimSpace(raw), '=');
    SetKeyClean(iface, cut.before, TrimSpace(cut.after));
  }

  lemma SetKeyClean(iface: Interface, key: string, v: string)
    requires CleanStrings(iface) && Clean(v)
    ensures CleanStrings(SetKey(iface, key, v))
  {}

  lemma ParsedValueClean(raw: string)
    requires NoNewline(raw)
    ensures Clean(TrimSpace(Cut(TrimSpace(raw), '=').after))
  {
    TrimSpaceStretch(raw);
    CutParts(TrimSpace(raw), '=');
    TrimSpaceStretch(Cut(TrimSpace(raw), '=').after);
  }

  /** Parsing gives back what was printed, up to the static addressing that DHCP leaves out,
      exactly when the printed strings have no newline and no surrounding white space. */
  lemma RoundTrip(iface: Interface)
    ensures ParsedUnit(UnitText(iface)) == Normal(iface) <==> CleanStrings(Normal(iface))
  {
    var text := UnitText(iface);
    if CleanStrings(Normal(iface)) {
      ParseRendered(iface);
    }
    JoinSplit(text, '\n');
    var lines := Split(text, '\n');
    assert NoNewlines(lines);
    ParsedIsClean(lines);
  }

  /** So printing is injective on clean interfaces, up to that normal form. */
  lemma RenderInjective(a: Interface, b: Interface)
    requires CleanStrings(Normal(a)) && CleanStrings(Normal(b))
    ensures UnitText(a) == UnitText(b) <==> Normal(a) == Normal(b)
  {
    RoundTrip(a);
    RoundTrip(b);
    assert UnitText(Normal(a)) == UnitText(a) && UnitText(Normal(b)) == UnitText(b);
  }

  // ---- The text ----

  /** The whole file, section headers included. */
  lemma UnitTextInFull(iface: Interface)
    ensures UnitText(iface) ==
      "[Match]\nName=" + iface.name + "\n\n[Network]\n"
      + Ended(AddressingLines(iface), '\n')
      + (if iface.mtu == 0 then "" else "\n[Link]\nMTUBytes=" + Decimal(iface.mtu as nat) + "\n")
  {
    EndedConcat(HeaderLines(iface) + AddressingLines(iface), LinkLines(iface), '\n');
    EndedConcat(HeaderLines(iface), AddressingLines(iface), '\n');
    HeaderText(iface);
    LinkText(iface);
  }

  lemma HeaderText(iface: Interface)
    ensures Ended(HeaderLines(iface), '\n') == "[Match]\nName=" + iface.name + "\n\n[Network]\n"
  {
    EndedOfOne("[Match]");
    EndedOfThree(["[Match]"], KeyLine("Name", iface.name), "", "[Network]");
    assert HeaderLines(iface) == ["[Match]"] + [KeyLine("Name", iface.name), "", "[Network]"];
    assert KeyLine("Name", iface.name) == "Name" + "=" + iface.name;
  }

  lemma LinkText(iface: Interface)
    ensures Ended(LinkLines(iface), '\n') ==
      if iface.mtu == 0 then "" else "\n[Link]\nMTUBytes=" + Decimal(iface.mtu as nat) + "\n"
  {
    if iface.mtu != 0 {
      var mtu := KeyLine("MTUBytes", Decimal(iface.mtu as nat));
      EndedOfThree([], "", "[Link]", mtu);
      assert LinkLines(iface) == [] + ["", "[Link]", mtu];
    }
  }

  /** The lines of the network section: DHCP alone, or the addresses in order and the gateway. */
  lemma AddressingInFull(iface: Interface)
    ensures iface.dhcp ==> AddressingLines(iface) == ["DHCP=yes"]
    ensures !iface.dhcp ==>
      var n := |iface.addresses|;
      && |AddressingLines(iface)| == 1 + n + (if iface.gateway == "" then 0 else 1)
      && AddressingLines(iface)[0] == "DHCP=no"
      && (forall i :: 0 <= i < n ==> AddressingLines(iface)[1 + i] == "Address=" + iface.addresses[i])
      && (iface.gateway != "" ==> AddressingLines(iface)[1 + n] == "Gateway=" + iface.gateway)
  {
    DhcpLines();
    assert "Address" + "=" == "Address=" && "Gateway" + "=" == "Gateway=";
  }

  lemma DhcpLines()
    ensures KeyLine("DHCP", "yes") == "DHCP=yes" && KeyLine("DHCP", "no") == "DHCP=no"
  {
    assert "DHCP" + "=" + "yes" == "DHCP=yes" && "DHCP" + "=" + "no" == "DHCP=no";
  }

  // ---- Files written by hand ----

  /** Only "yes" switches DHCP on, keys of other names change nothing, and neither does a line
      without an equals sign. */
  lemma OtherLinesOfUnit(iface: Interface, key: string, v: string, line: string)
    requires key != "" && !IsSpace(key[0]) && '=' !in key && Trimmed(v)
    ensures ParseLine(iface, KeyLine("DHCP", v)) == iface.(dhcp := v == "yes")
    ensures key != "Name" && key != "DHCP" && key != "Address" && key != "Gateway" && key != "MTUBytes" ==>
      ParseLine(iface, KeyLine(key, v)) == iface
    ensures '=' !in line ==> ParseLine(iface, line) == iface
  {
    ParseKeyLine(iface, "DHCP", v);
    ParseKeyLine(iface, key, v);
    if '=' !in line {
      TrimSpaceStretch(line);
      IndexAbsent(TrimSpace(line), '=');
    }
  }

  /** An MTU that is no number, or does not fit 32 bits, leaves the value before it. */
  lemma BadMtuIgnored(current: uint32, n: nat, s: string)
    ensures ScanMtu(Decimal(n), current) as nat == if n < 0x1_0000_0000 then n else current as nat
    ensures s == "" || !IsDigit(s[0]) ==> ScanMtu(s, current) == current
  {
    DecimalDigits(n);
    DigitPrefixWhole(Decimal(n));
  }
}
