/** The parts of Go's `strings`, `unicode` and `fmt` that the config files' printers and
    parsers use. A string is a sequence of Unicode characters. */
module GoStrings {
  import opened Text

  /** unicode.IsSpace. */
  predicate IsSpace(c: char) {
    || '\t' <= c <= '\r' || c == ' ' || c == '\U{85}' || c == '\U{A0}'
    || c == '\U{1680}' || '\U{2000}' <= c <= '\U{200A}'
    || c == '\U{2028}' || c == '\U{2029}' || c == '\U{202F}' || c == '\U{205F}' || c == '\U{3000}'
  }

  function TrimLeft(s: string, cut: char -> bool): string {
    if s != "" && cut(s[0]) then TrimLeft(s[1..], cut) else s
  }

  function TrimRight(s: string, cut: char -> bool): string {
    if s != "" && cut(s[|s| - 1]) then TrimRight(s[..|s| - 1], cut) else s
  }

  function TrimSpace(s: string): string {
    TrimRight(TrimLeft(s, IsSpace), IsSpace)
  }

  predicate Trimmed(s: string) {
    s == "" || (!IsSpace(s[0]) && !IsSpace(s[|s| - 1]))
  }

  lemma TrimmedIsFixed(s: string)
    requires Trimmed(s)
    ensures TrimSpace(s) == s
  {}

  /** Trimming takes a stretch of the string, and that stretch is trimmed. */
  lemma {:induction false} TrimLeftStretch(s: string, cut: char -> bool)
    ensures exists i: nat :: i <= |s| && TrimLeft(s, cut) == s[i..]
    ensures TrimLeft(s, cut) != "" ==> !cut(TrimLeft(s, cut)[0])
  {
    if s != "" && cut(s[0]) {
      TrimLeftStretch(s[1..], cut);
      var i: nat :| i <= |s[1..]| && TrimLeft(s[1..], cut) == s[1..][i..];
      assert s[1..][i..] == s[i + 1..];
    } else {
      assert s == s[0..];
    }
  }

  lemma {:induction false} TrimRightStretch(s: string, cut: char -> bool)
    ensures TrimRight(s, cut) <= s
    ensures TrimRight(s, cut) != "" ==> !cut(TrimRight(s, cut)[|TrimRight(s, cut)| - 1])
  {
    if s != "" && cut(s[|s| - 1]) {
      TrimRightStretch(s[..|s| - 1], cut);
    }
  }

  lemma TrimBothStretch(s: string, cut: char -> bool, t: string)
    requires t == TrimRight(TrimLeft(s, cut), cut)
    ensures t != "" ==> !cut(t[0]) && !cut(t[|t| - 1])
    ensures forall c :: c in t ==> c in s
  {
    var left := TrimLeft(s, cut);
    TrimLeftStretch(s, cut);
    TrimRightStretch(left, cut);
    var i: nat :| i <= |s| && left == s[i..];
    StretchMembers(s, i, t);
  }

  lemma TrimSpaceStretch(s: string)
    ensures Trimmed(TrimSpace(s))
    ensures forall c :: c in TrimSpace(s) ==> c in s
  {
    TrimBothStretch(s, IsSpace, TrimSpace(s));
  }

  lemma StretchMembers(s: string, i: nat, t: string)
    requires i <= |s| && t <= s[i..]
    ensures forall c :: c in t ==> c in s
  {
    assert forall k :: 0 <= k < |t| ==> t[k] == s[i + k];
  }

  /** strings.Cut around a single character. */
  datatype CutResult = CutResult(before: string, after: string, found: bool)

  function Cut(s: string, sep: char): CutResult {
    var i := Index(s, sep);
    if i == |s| then CutResult(s, "", false) else CutResult(s[..i], s[i + 1..], true)
  }

  lemma CutFound(a: string, sep: char, b: string)
    requires sep !in a
    ensures Cut(a + [sep] + b, sep) == CutResult(a, b, true)
  {
    IndexOf(a, sep, b);
    var s := a + [sep] + b;
    assert s[..|a|] == a && s[|a| + 1..] == b;
  }

  lemma CutParts(s: string, sep: char)
    ensures forall c :: c in Cut(s, sep).before ==> c in s
    ensures forall c :: c in Cut(s, sep).after ==> c in s
  {}

  predicate HasPrefix(s: string, p: string) {
    p <= s
  }

  predicate HasSuffix(s: string, p: string) {
    |p| <= |s| && s[|s| - |p|..] == p
  }

  function TrimPrefix(s: string, p: string): string {
    if HasPrefix(s, p) then s[|p|..] else s
  }

  function TrimSuffix(s: string, p: string): string {
    if HasSuffix(s, p) then s[..|s| - |p|] else s
  }

  // ---- Decimal numbers ----

  predicate IsDigit(c: char) {
    '0' <= c <= '9'
  }

  function Digit(d: nat): char
    requires d < 10
  {
    '0' + d as char
  }

  function HexDigit(d: nat): char
    requires d < 16
  {
    if d < 10 then Digit(d) else 'a' + (d - 10) as char
  }

  /** %0*x of a number that fits the width: its lowest digits. */
  function Hex(n: nat, width: nat): string {
    if width == 0 then "" else Hex(n / 16, width - 1) + [HexDigit(n % 16)]
  }

  /** %d of a non-negative number. */
  function Decimal(n: nat): string {
    if n < 10 then [Digit(n)] else Decimal(n / 10) + [Digit(n % 10)]
  }

  /** The longest prefix of decimal digits. */
  function DigitPrefix(s: string): string {
    if s != "" && IsDigit(s[0]) then [s[0]] + DigitPrefix(s[1..]) else ""
  }

  function DecimalValue(s: string): nat {
    if s == "" then 0
    else if IsDigit(s[|s| - 1]) then 10 * DecimalValue(s[..|s| - 1]) + (s[|s| - 1] - '0') as nat
    else 0
  }

  const UINT32_LIMIT := 0x1_0000_0000

  /** Sscanf("%d") into a uint32 that holds `current`: a missing or too large number leaves it. */
  function ScanUint32(s: string, current: nat): nat {
    var digits := DigitPrefix(s);
    if digits == "" || DecimalValue(digits) >= UINT32_LIMIT then current else DecimalValue(digits)
  }

  lemma {:induction false} DecimalDigits(n: nat)
    ensures Decimal(n) != "" && forall c :: c in Decimal(n) ==> IsDigit(c)
    ensures DecimalValue(Decimal(n)) == n
  {
    if n >= 10 {
      DecimalDigits(n / 10);
      var s := Decimal(n);
      assert s[..|s| - 1] == Decimal(n / 10) && s[|s| - 1] == Digit(n % 10);
    } else {
      var s := Decimal(n);
      assert s[..0] == "";
      assert DecimalValue(s) == 10 * DecimalValue(s[..0]) + n;
    }
  }

  lemma {:induction false} DigitPrefixWhole(s: string)
    requires forall c :: c in s ==> IsDigit(c)
    ensures DigitPrefix(s) == s
  {
    if s != "" {
      DigitPrefixWhole(s[1..]);
      assert s == [s[0]] + s[1..];
    }
  }

  /** Scanning undoes printing for every 32-bit number. */
  lemma ScanPrinted(n: nat, current: nat)
    requires n < UINT32_LIMIT
    ensures ScanUint32(Decimal(n), current) == n
  {
    DecimalDigits(n);
    DigitPrefixWhole(Decimal(n));
  }
}
