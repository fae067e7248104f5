/** The validators that stand in front of every configuration write. */
module Validate {
  import opened Text
  import opened GoStrings

  predicate IsAlnum(c: char) {
    'a' <= c <= 'z' || 'A' <= c <= 'Z' || '0' <= c <= '9'
  }

  predicate ContainsAny(s: string, chars: string) {
    exists i :: 0 <= i < |s| && s[i] in chars
  }

  /** ^[a-zA-Z0-9_.-]+$ of at most 15 characters, without "..". */
  predicate InterfaceName(name: string) {
    && 0 < |name| <= 15
    && (forall i :: 0 <= i < |name| ==> IsAlnum(name[i]) || name[i] in "_.-")
    && !(exists i :: 0 <= i < |name| - 1 && name[i] == '.' && name[i + 1] == '.')
  }

  /** One label of hostnameRe. */
  predicate HostLabel(part: string) {
    && 0 < |part| <= 63
    && IsAlnum(part[0]) && IsAlnum(part[|part| - 1])
    && forall i :: 0 <= i < |part| ==> IsAlnum(part[i]) || part[i] == '-'
  }

  predicate Hostname(name: string) {
    0 < |name| <= 253 && forall i :: 0 <= i < |Split(name, '.')| ==> HostLabel(Split(name, '.')[i])
  }

  predicate NetworkAddress(addr: string) {
    !ContainsAny(addr, "\n\r\t")
  }

  predicate NoNewlines(value: string) {
    !ContainsAny(value, "\n\r")
  }

  /** `parseIP` says whether net.ParseIP accepts. */
  predicate IPAddress(addr: string, parseIP: string -> bool) {
    addr != "" && !ContainsAny(addr, "\n\r\t ") && parseIP(addr)
  }

  /** net.ParseIP accepts hexadecimal digits, colons and dots only. */
  ghost predicate IsParseIP(parseIP: string -> bool) {
    forall s :: parseIP(s) ==> forall i :: 0 <= i < |s| ==> IsIPChar(s[i])
  }

  predicate IsIPChar(c: char) {
    '0' <= c <= '9' || 'a' <= c <= 'f' || 'A' <= c <= 'F' || c == ':' || c == '.'
  }

  /** unicode.ToLower where the result is ASCII; other characters match no blocked prefix. */
  function ToLower(c: char): char {
    if 'A' <= c <= 'Z' then c - 'A' + 'a'
    else if c == '\U{130}' then 'i'
    else if c == '\U{212A}' then 'k'
    else c
  }

  function Lowered(s: string): string {
    seq(|s|, i requires 0 <= i < |s| => ToLower(s[i]))
  }

  const BLOCKED: seq<string> :=
    ["init=", "rd.break", "selinux=0", "enforcing=0", "systemd.unit=", "rescue", "emergency", "single"]

  predicate KernelArg(arg: string) {
    && !ContainsAny(arg, "\n\r\t")
    && !(exists i :: 0 <= i < |BLOCKED| && HasPrefix(Lowered(arg), BLOCKED[i]))
  }

  // ---- What they refuse and what they let through ----

  /** The same letter, of either case, or the same character. */
  predicate SameLetter(c: char, lower: char) {
    c == lower || ('a' <= lower <= 'z' && c as int + 32 == lower as int)
  }

  predicate Begins(arg: string, prefix: string) {
    |prefix| <= |arg| && forall i :: 0 <= i < |prefix| ==> SameLetter(arg[i], prefix[i])
  }

  /** The arguments that take over the boot or switch off its protection, in any case. */
  predicate Dangerous(arg: string) {
    || Begins(arg, "init=") || Begins(arg, "rd.break") || Begins(arg, "selinux=0") || Begins(arg, "enforcing=0")
    || Begins(arg, "systemd.unit=") || Begins(arg, "rescue") || Begins(arg, "emergency") || Begins(arg, "single")
  }

  predicate IsAscii(s: string) {
    forall i :: 0 <= i < |s| ==> s[i] < '\U{80}'
  }

  /** Characters that the blocked prefixes are made of. */
  predicate IsPrefixChar(c: char) {
    'a' <= c <= 'z' || c == '=' || c == '.' || c == '0'
  }

  lemma BeginsLowered(arg: string, prefix: string)
    requires forall i :: 0 <= i < |prefix| ==> IsPrefixChar(prefix[i])
    ensures Begins(arg, prefix) ==> HasPrefix(Lowered(arg), prefix)
    ensures IsAscii(arg) && HasPrefix(Lowered(arg), prefix) ==> Begins(arg, prefix)
  {
    if HasPrefix(Lowered(arg), prefix) {
      assert forall i :: 0 <= i < |prefix| ==> Lowered(arg)[i] == prefix[i];
    }
  }

  lemma BlockedAt(i: nat)
    requires i < 8
    ensures |BLOCKED| == 8 && forall k :: 0 <= k < |BLOCKED[i]| ==> IsPrefixChar(BLOCKED[i][k])
  {}

  lemma DangerousIsBlocked(arg: string)
    ensures Dangerous(arg) <==> exists i :: 0 <= i < |BLOCKED| && Begins(arg, BLOCKED[i])
  {
    assert BLOCKED[0] == "init=" && BLOCKED[1] == "rd.break" && BLOCKED[2] == "selinux=0";
    assert BLOCKED[3] == "enforcing=0" && BLOCKED[4] == "systemd.unit=" && BLOCKED[5] == "rescue";
    assert BLOCKED[6] == "emergency" && BLOCKED[7] == "single";
  }

  /** A dangerous argument is refused, whatever follows the prefix and in whatever case; an argument
      of printable ASCII characters is refused only then. */
  lemma KernelArgExactlyWhen(arg: string)
    ensures Dangerous(arg) ==> !KernelArg(arg)
    ensures '\n' in arg || '\r' in arg || '\t' in arg ==> !KernelArg(arg)
    ensures (forall i :: 0 <= i < |arg| ==> ' ' <= arg[i] <= '~') ==> (KernelArg(arg) <==> !Dangerous(arg))
  {
    DangerousIsBlocked(arg);
    forall i | 0 <= i < |BLOCKED|
      ensures Begins(arg, BLOCKED[i]) ==> HasPrefix(Lowered(arg), BLOCKED[i])
      ensures IsAscii(arg) && HasPrefix(Lowered(arg), BLOCKED[i]) ==> Begins(arg, BLOCKED[i])
    {
      BlockedAt(i);
      BeginsLowered(arg, BLOCKED[i]);
    }
  }

  predicate IsLetterOrDigit(c: char) {
    '0' <= c <= '9' || 'A' <= c <= 'Z' || 'a' <= c <= 'z'
  }

  /** Between dots: 1 to 63 letters, digits and hyphens, no hyphen at either end. */
  predicate DnsLabel(part: string) {
    && 1 <= |part| < 64 && part[0] != '-' && part[|part| - 1] != '-'
    && forall c :: c in part ==> IsLetterOrDigit(c) || c == '-'
  }

  /** Joined with dots, labels make a host name exactly when each is a DNS label and the whole has
      at most 253 characters. Every string is such a join. */
  lemma HostnameExactlyWhen(labels: seq<string>)
    requires labels != [] && forall i :: 0 <= i < |labels| ==> '.' !in labels[i]
    ensures Hostname(Join(labels, '.')) <==>
      |Join(labels, '.')| <= 253 && forall i :: 0 <= i < |labels| ==> DnsLabel(labels[i])
  {
    SplitJoin(labels, '.');
    forall i | 0 <= i < |labels|
      ensures HostLabel(labels[i]) <==> DnsLabel(labels[i])
    {
      var part := labels[i];
      assert forall k :: 0 <= k < |part| ==> part[k] in part;
    }
    if Join(labels, '.') == "" {
      assert |Join(labels, '.')| == 0;
      assert labels[0] == "";
    }
  }

  /** At most 15 letters, digits, dots, hyphens and underscores, never two dots in a row. */
  lemma InterfaceNameExactlyWhen(name: string)
    ensures InterfaceName(name) <==>
      && 1 <= |name| < 16
      && (forall c :: c in name ==> IsLetterOrDigit(c) || c == '_' || c == '.' || c == '-')
      && (forall a, b :: name != a + ".." + b)
  {
    assert forall i :: 0 <= i < |name| ==> name[i] in name;
    if exists i :: 0 <= i < |name| - 1 && name[i] == '.' && name[i + 1] == '.' {
      var i :| 0 <= i < |name| - 1 && name[i] == '.' && name[i + 1] == '.';
      assert name == name[..i] + ".." + name[i + 2..];
    }
    if exists a, b :: name == a + ".." + b {
      var a, b :| name == a + ".." + b;
      assert name[|a|] == '.' && name[|a| + 1] == '.';
    }
  }

  /** An address may hold anything but line breaks and tabs, a gateway anything but line breaks, and
      a server is what net.ParseIP accepts. */
  lemma AddressesExactlyWhen(addr: string, parseIP: string -> bool)
    requires IsParseIP(parseIP)
    ensures NetworkAddress(addr) <==> '\n' !in addr && '\r' !in addr && '\t' !in addr
    ensures NoNewlines(addr) <==> '\n' !in addr && '\r' !in addr
    ensures IPAddress(addr, parseIP) <==> addr != "" && parseIP(addr)
  {
    if parseIP(addr) {
      assert forall i :: 0 <= i < |addr| ==> IsIPChar(addr[i]);
    }
  }

  /** A valid interface name can be written to a unit file and names exactly one file. */
  lemma InterfaceNameIsClean(name: string)
    requires InterfaceName(name)
    ensures Trimmed(name) && '\n' !in name && '/' !in name
  {}

  /** A lone quote is shorter than every blocked prefix. */
  lemma QuoteIsAllowed()
    ensures KernelArg(['"'])
  {}
}
