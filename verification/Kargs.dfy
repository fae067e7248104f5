/** The kernel-argument file: a one-line TOML list, printed with %q and parsed by hand. */
module Kargs {
  import opened Text
  import opened GoStrings

  // ---- Printing ----

  /** strconv.IsPrint, known exactly only for ASCII. */
  ghost predicate IsPrintTable(isPrint: char -> bool) {
    forall c :: c < '\U{80}' ==> (isPrint(c) <==> ' ' <= c <= '~')
  }

  /** One character inside a %q string. */
  function EscapeChar(c: char, isPrint: char -> bool): string {
    if c == '"' || c == '\\' then ['\\', c]
    else if isPrint(c) then [c]
    else if c == '\U{07}' then ['\\', 'a']
    else if c == '\U{08}' then ['\\', 'b']
    else if c == '\U{0C}' then ['\\', 'f']
    else if c == '\n' then ['\\', 'n']
    else if c == '\r' then ['\\', 'r']
    else if c == '\t' then ['\\', 't']
    else if c == '\U{0B}' then ['\\', 'v']
    else if c < ' ' || c == '\U{7F}' then ['\\', 'x'] + Hex(c as nat, 2)
    else if c as nat < 0x1_0000 then ['\\', 'u'] + Hex(c as nat, 4)
    else ['\\', 'U'] + Hex(c as nat, 8)
  }

  function Escape(s: string, isPrint: char -> bool): string {
    if s == "" then "" else EscapeChar(s[0], isPrint) + Escape(s[1..], isPrint)
  }

  function Quote(s: string, isPrint: char -> bool): string {
    ['"'] + Escape(s, isPrint) + ['"']
  }

  /** strings.Join(quoted, ", "). */
  function JoinComma(parts: seq<string>): string {
    if parts == [] then ""
    else if |parts| == 1 then parts[0]
    else parts[0] + [',', ' '] + JoinComma(parts[1..])
  }

  function QuoteAll(args: seq<string>, isPrint: char -> bool): (r: seq<string>)
    ensures |r| == |args| && forall i :: 0 <= i < |r| ==> r[i] == Quote(args[i], isPrint)
  {
    seq(|args|, i requires 0 <= i < |args| => Quote(args[i], isPrint))
  }

  function TomlText(args: seq<string>, isPrint: char -> bool): string {
    "kargs = [" + JoinComma(QuoteAll(args, isPrint)) + "]\n"
  }

  method RenderTOML(args: seq<string>, isPrint: char -> bool) returns (content: string)
    ensures content == TomlText(args, isPrint)
  {
    var quoted := new string[|args|](_ => "");
    for i := 0 to |args|
      invariant quoted[..i] == QuoteAll(args, isPrint)[..i]
    {
      quoted[i] := Quote(args[i], isPrint);
    }
    assert quoted[..] == quoted[..|args|] == QuoteAll(args, isPrint);
    content := "kargs = [" + JoinComma(quoted[..]) + "]\n";
  }

  // ---- Parsing ----

  predicate IsCommaOrSpace(c: char) {
    c == ',' || c == ' '
  }

  /** One round of the parsing loop on a trimmed, non-empty string: stop, or take zero or one
      argument and go on with a shorter rest. */
  datatype Round = Stop | Take(taken: seq<string>, rest: string)

  function NextRound(t: string): (r: Round)
    requires t != ""
    ensures r.Take? ==> |r.rest| < |t|
  {
    if t[0] == '"' then
      var end := Index(t[1..], '"');
      if end == |t| - 1 then Stop
      else
        TrimLeftShrinks(t[end + 2..], IsCommaOrSpace);
        Take([t[1..end + 1]], TrimLeft(t[end + 2..], IsCommaOrSpace))
    else
      var cut := Cut(t, ',');
      var token := TrimSpace(cut.before);
      Take(if token == "" then [] else [token], cut.after)
  }

  /** All that parseQuotedList collects from `s`. */
  function QuotedList(s: string): seq<string>
    decreases |s|
  {
    TrimShrinks(s);
    var t := TrimSpace(s);
    if t == "" then []
    else match NextRound(t)
      case Stop => []
      case Take(taken, rest) => taken + QuotedList(rest)
  }

  lemma TrimLeftShrinks(s: string, cut: char -> bool)
    ensures |TrimLeft(s, cut)| <= |s|
  {
    TrimLeftStretch(s, cut);
  }

  lemma TrimShrinks(s: string)
    ensures |TrimSpace(s)| <= |s|
  {
    TrimLeftStretch(s, IsSpace);
    TrimRightStretch(TrimLeft(s, IsSpace), IsSpace);
  }

  method ParseQuotedList(input: string) returns (args: seq<string>)
    ensures args == QuotedList(input)
  {
    args := [];
    var s := input;
    while |s| > 0
      invariant Collected(input, args, s)
      decreases |s|
    {
      TrimShrinks(s);
      CollectRound(input, args, s);
      s := TrimSpace(s);
      if s == "" { return; }
      ghost var r, before := NextRound(s), args;
      if s[0] == '"' {
        var end := Index(s[1..], '"');
        if end == |s| - 1 { return; }
        args := args + [s[1..end + 1]];
        s := TrimLeft(s[end + 2..], IsCommaOrSpace);
      } else {
        var cut := Cut(s, ',');
        var token := TrimSpace(cut.before);
        s := cut.after;
        args := args + if token == "" then [] else [token];
      }
      assert r.Take? && s == r.rest && args == before + r.taken;
    }
    CollectEnd(input, args, s);
  }

  /** `args` is what was collected from `input` before the rest `s`. */
  ghost predicate Collected(input: string, args: seq<string>, s: string) {
    QuotedList(input) == args + QuotedList(s)
  }

  lemma CollectEnd(input: string, args: seq<string>, s: string)
    requires Collected(input, args, s) && s == ""
    ensures args == QuotedList(input)
  {
    assert args + [] == args;
  }

  lemma CollectRound(input: string, args: seq<string>, s: string)
    requires Collected(input, args, s)
    ensures TrimSpace(s) == "" || NextRound(TrimSpace(s)).Stop? ==> args == QuotedList(input)
    ensures TrimSpace(s) != "" && NextRound(TrimSpace(s)).Take? ==>
      var r := NextRound(TrimSpace(s)); Collected(input, args + r.taken, r.rest)
  {
    var t := TrimSpace(s);
    if t == "" || NextRound(t).Stop? {
      assert args + [] == args;
    } else {
      var taken, rest := NextRound(t).taken, QuotedList(NextRound(t).rest);
      assert args + (taken + rest) == args + taken + rest;
    }
  }

  /** The list on a line, or None when the line is passed over. */
  datatype LineResult = Skipped | Found(args: seq<string>)

  function ListOnLine(raw: string): LineResult {
    var line := TrimSpace(raw);
    if !HasPrefix(line, "kargs") then Skipped
    else
      var cut := Cut(line, '=');
      if !cut.found then Skipped
      else
        var value := TrimSpace(TrimSuffix(TrimPrefix(TrimSpace(cut.after), "["), "]"));
        Found(if value == "" then [] else QuotedList(value))
  }

  function FirstList(lines: seq<string>): seq<string> {
    if lines == [] then []
    else match ListOnLine(lines[0])
      case Found(args) => args
      case Skipped => FirstList(lines[1..])
  }

  function ParsedToml(content: string): seq<string> {
    FirstList(Split(content, '\n'))
  }

  method ParseTOML(content: string) returns (args: seq<string>)
    ensures args == ParsedToml(content)
  {
    var lines := Split(content, '\n');
    for i := 0 to |lines|
      invariant ParsedToml(content) == FirstList(lines[i..])
    {
      assert lines[i..][0] == lines[i] && lines[i..][1..] == lines[i + 1..];
      var line := TrimSpace(lines[i]);
      if !HasPrefix(line, "kargs") { continue; }
      var cut := Cut(line, '=');
      if !cut.found { continue; }
      var value := TrimSpace(cut.after);
      value := TrimPrefix(value, "[");
      value := TrimSuffix(value, "]");
      value := TrimSpace(value);
      if value == "" { return []; }
      args := ParseQuotedList(value);
      return;
    }
    return [];
  }

  // ---- Round trip ----

  /** A character that %q prints as itself. */
  predicate Plain(c: char, isPrint: char -> bool) {
    c != '"' && c != '\\' && isPrint(c)
  }

  ghost predicate PlainArg(s: string, isPrint: char -> bool) {
    forall c :: c in s ==> Plain(c, isPrint)
  }

  lemma HexHasNoQuote(n: nat, width: nat)
    ensures |Hex(n, width)| == width && '"' !in Hex(n, width) && '\n' !in Hex(n, width)
  {}

  lemma EscapeCharShape(c: char, isPrint: char -> bool)
    requires IsPrintTable(isPrint)
    ensures Plain(c, isPrint) ==> EscapeChar(c, isPrint) == [c]
    ensures !Plain(c, isPrint) ==> |EscapeChar(c, isPrint)| >= 2
    ensures '"' in EscapeChar(c, isPrint) <==> c == '"'
    ensures '\n' !in EscapeChar(c, isPrint)
  {
    HexHasNoQuote(c as nat, 2);
    HexHasNoQuote(c as nat, 4);
    HexHasNoQuote(c as nat, 8);
  }

  lemma {:induction false} EscapeShape(s: string, isPrint: char -> bool)
    requires IsPrintTable(isPrint)
    ensures |Escape(s, isPrint)| >= |s|
    ensures if PlainArg(s, isPrint) then Escape(s, isPrint) == s else |Escape(s, isPrint)| > |s|
    ensures '"' in Escape(s, isPrint) <==> '"' in s
    ensures '\n' !in Escape(s, isPrint)
  {
    if s != "" {
      EscapeCharShape(s[0], isPrint);
      EscapeShape(s[1..], isPrint);
      assert s == [s[0]] + s[1..];
    }
  }

  lemma RoundOnQuoted(body: string, rest: string)
    ensures
      var s := ['"'] + body + ['"'] + rest;
      && NextRound(s).Take? && |NextRound(s).taken| == 1
      && (if '"' in body then '"' !in NextRound(s).taken[0]
          else NextRound(s) == Take([body], TrimLeft(rest, IsCommaOrSpace)))
  {
    var s := ['"'] + body + ['"'] + rest;
    var inner := body + ['"'] + rest;
    assert s[1..] == inner && inner[|body|] == '"';
    var end := Index(inner, '"');
    IndexIsFirst(inner, '"');
    IndexAbsent(inner, '"');
    assert s[1..end + 1] == inner[..end];
    assert forall k :: 0 <= k < end ==> inner[..end][k] != '"';
    if '"' !in body {
      IndexOf(body, '"', rest);
      assert s[end + 2..] == rest && inner[..end] == body;
    }
  }

  /** The first argument that is parsed after an opening quote. */
  lemma FirstToken(body: string, rest: string)
    requires rest == "" || !IsSpace(rest[|rest| - 1])
    ensures
      var s := ['"'] + body + ['"'] + rest;
      && QuotedList(s) != []
      && (if '"' in body then '"' !in QuotedList(s)[0]
          else QuotedList(s) == [body] + QuotedList(TrimLeft(rest, IsCommaOrSpace)))
  {
    var s := ['"'] + body + ['"'] + rest;
    assert s[|s| - 1] == if rest == "" then '"' else rest[|rest| - 1];
    TrimmedIsFixed(s);
    RoundOnQuoted(body, rest);
  }

  /** What is parsed from a printed list: all of it when the arguments are plain; otherwise
      something else, because the first argument that is not plain comes back changed. */
  lemma {:induction false} ListRoundTrip(args: seq<string>, isPrint: char -> bool)
    requires IsPrintTable(isPrint)
    ensures QuotedList(JoinComma(QuoteAll(args, isPrint))) == args
       <==> forall i :: 0 <= i < |args| ==> PlainArg(args[i], isPrint)
  {
    if args != [] {
      ListHead(args, isPrint);
      ListRoundTrip(args[1..], isPrint);
      HeadAndTail(args, QuotedList(JoinComma(QuoteAll(args, isPrint))));
    }
  }

  lemma HeadAndTail(a: seq<string>, b: seq<string>)
    requires a != [] && b != []
    ensures a == b <==> a[0] == b[0] && a[1..] == b[1..]
  {
    assert a == [a[0]] + a[1..] && b == [b[0]] + b[1..];
  }

  lemma ListHead(args: seq<string>, isPrint: char -> bool)
    requires IsPrintTable(isPrint) && args != []
    ensures
      var text := QuotedList(JoinComma(QuoteAll(args, isPrint)));
      && text != []
      && (if PlainArg(args[0], isPrint) then text == [args[0]] + QuotedList(JoinComma(QuoteAll(args[1..], isPrint)))
          else text[0] != args[0])
  {
    EscapeShape(args[0], isPrint);
    ListText(args, isPrint);
    ListRestTrims(args, isPrint);
    FirstToken(Escape(args[0], isPrint), ListRest(args, isPrint));
  }

  /** The printed list after its first argument. */
  function ListRest(args: seq<string>, isPrint: char -> bool): string
    requires args != []
  {
    if |args| == 1 then "" else [',', ' '] + JoinComma(QuoteAll(args[1..], isPrint))
  }

  lemma ListText(args: seq<string>, isPrint: char -> bool)
    requires args != []
    ensures JoinComma(QuoteAll(args, isPrint))
         == ['"'] + Escape(args[0], isPrint) + ['"'] + ListRest(args, isPrint)
  {
    var quoted := QuoteAll(args, isPrint);
    assert quoted[1..] == QuoteAll(args[1..], isPrint);
    if |args| == 1 {
      assert Quote(args[0], isPrint) + "" == Quote(args[0], isPrint);
    }
  }

  lemma {:induction false} ListEnds(args: seq<string>, isPrint: char -> bool)
    requires args != []
    ensures var t := JoinComma(QuoteAll(args, isPrint));
      |t| >= 2 && t[0] == '"' && t[|t| - 1] == '"'
  {
    ListText(args, isPrint);
    if |args| > 1 {
      ListEnds(args[1..], isPrint);
    }
  }

  lemma ListRestTrims(args: seq<string>, isPrint: char -> bool)
    requires args != []
    ensures ListRest(args, isPrint) == "" || !IsSpace(ListRest(args, isPrint)[|ListRest(args, isPrint)| - 1])
    ensures TrimLeft(ListRest(args, isPrint), IsCommaOrSpace) == JoinComma(QuoteAll(args[1..], isPrint))
  {
    if |args| > 1 {
      ListEnds(args[1..], isPrint);
      var t := JoinComma(QuoteAll(args[1..], isPrint));
      var rest := [',', ' '] + t;
      assert rest[1..] == [' '] + t && rest[1..][1..] == t;
      assert TrimLeft(t, IsCommaOrSpace) == t;
    }
  }

  lemma {:induction false} ListHasNoNewline(args: seq<string>, isPrint: char -> bool)
    requires IsPrintTable(isPrint)
    ensures '\n' !in JoinComma(QuoteAll(args, isPrint))
  {
    if args != [] {
      ListText(args, isPrint);
      EscapeShape(args[0], isPrint);
      ListHasNoNewline(args[1..], isPrint);
    }
  }

  lemma ListOnPrintedLine(args: seq<string>, isPrint: char -> bool)
    ensures ListOnLine("kargs = [" + JoinComma(QuoteAll(args, isPrint)) + "]")
         == Found(QuotedList(JoinComma(QuoteAll(args, isPrint))))
  {
    var list := JoinComma(QuoteAll(args, isPrint));
    if args != [] { ListEnds(args, isPrint); }
    PrintedLine(list);
  }

  lemma PrintedLine(list: string)
    requires list == "" || (list[0] == '"' && list[|list| - 1] == '"')
    ensures ListOnLine("kargs = [" + list + "]") == Found(QuotedList(list))
  {
    PrintedLineCut(list);
    UnbracketValue(list);
  }

  lemma PrintedLineCut(list: string)
    ensures var line := "kargs = [" + list + "]";
      && TrimSpace(line) == line
      && HasPrefix(line, "kargs")
      && Cut(line, '=') == CutResult("kargs ", [' ', '['] + list + [']'], true)
  {
    var line := "kargs = [" + list + "]";
    TrimmedIsFixed(line);
    CutFound("kargs ", '=', [' ', '['] + list + [']']);
    assert line == "kargs " + ['='] + ([' ', '['] + list + [']']);
  }

  lemma UnbracketValue(list: string)
    requires Trimmed(list)
    ensures TrimSpace(TrimSuffix(TrimPrefix(TrimSpace([' ', '['] + list + [']']), "["), "]")) == list
  {
    var bracketed := ['['] + list + [']'];
    assert [' ', '['] + list + [']'] == [' '] + bracketed;
    TrimOneSpace(bracketed);
    assert bracketed[1..] == list + [']'];
    TrimmedIsFixed(list);
  }

  lemma TrimOneSpace(s: string)
    requires s != "" && Trimmed(s)
    ensures TrimSpace([' '] + s) == s
  {
    assert ([' '] + s)[1..] == s;
    TrimmedIsFixed(s);
  }

  /** Parsing gives back the printed arguments exactly when every character of every argument
      is printable and neither a quote nor a backslash. */
  lemma RoundTrip(args: seq<string>, isPrint: char -> bool)
    requires IsPrintTable(isPrint)
    ensures ParsedToml(TomlText(args, isPrint)) == args
       <==> forall i :: 0 <= i < |args| ==> PlainArg(args[i], isPrint)
  {
    var list := JoinComma(QuoteAll(args, isPrint));
    var line := "kargs = [" + list + "]";
    ListHasNoNewline(args, isPrint);
    assert TomlText(args, isPrint) == line + ['\n'] + "";
    SplitHead(line, '\n', "");
    ListOnPrintedLine(args, isPrint);
    ListRoundTrip(args, isPrint);
  }

  // ---- Files written by hand ----

  /** A bare argument: no comma, no quote at its start, no space around it. */
  predicate Bare(token: string) {
    token != "" && token[0] != '"' && ',' !in token && Trimmed(token)
  }

  /** A comma-separated list of bare arguments is read as those arguments. */
  lemma {:induction false} BareListReadsBack(tokens: seq<string>)
    requires forall i :: 0 <= i < |tokens| ==> Bare(tokens[i])
    ensures QuotedList(Join(tokens, ',')) == tokens
  {
    var s := Join(tokens, ',');
    if tokens == [] {
      assert s == "";
    } else {
      var first, rest := tokens[0], Join(tokens[1..], ',');
      assert Bare(tokens[0]);
      JoinedBareIsTrimmed(tokens);
      TrimmedIsFixed(s);
      TrimmedIsFixed(first);
      BareListReadsBack(tokens[1..]);
      if |tokens| == 1 {
        assert s == first;
        NoCut(first);
        assert tokens == [first] + tokens[1..];
      } else {
        assert s == first + [','] + rest;
        CutFound(first, ',', rest);
        assert tokens == [first] + tokens[1..];
      }
    }
  }

  lemma NoCut(s: string)
    requires ',' !in s
    ensures Cut(s, ',') == CutResult(s, "", false)
  {
    IndexAbsent(s, ',');
  }

  lemma {:induction false} JoinedBareIsTrimmed(tokens: seq<string>)
    requires tokens != [] && forall i :: 0 <= i < |tokens| ==> Bare(tokens[i])
    ensures Trimmed(Join(tokens, ',')) && Join(tokens, ',') != "" && tokens[0] != ""
    ensures Join(tokens, ',')[0] == tokens[0][0]
  {
    assert Bare(tokens[0]);
    if |tokens| > 1 {
      JoinedBareIsTrimmed(tokens[1..]);
      var s, rest := Join(tokens, ','), Join(tokens[1..], ',');
      assert s == tokens[0] + [','] + rest && s[|s| - 1] == rest[|rest| - 1];
    }
  }

  /** Lines that do not begin with "kargs" are skipped. */
  lemma {:induction false} OtherLinesSkipped(lines: seq<string>, rest: seq<string>)
    requires forall i :: 0 <= i < |lines| ==> !("kargs" <= TrimSpace(lines[i]))
    ensures FirstList(lines + rest) == FirstList(rest)
  {
    if lines == [] {
      assert lines + rest == rest;
    } else {
      assert (lines + rest)[1..] == lines[1..] + rest;
      OtherLinesSkipped(lines[1..], rest);
    }
  }

  // ---- The text ----

  /** The escapes of %q that can occur in a validated argument, and those of the control
      characters that cannot. */
  lemma EscapeTable(isPrint: char -> bool)
    requires IsPrintTable(isPrint)
    ensures EscapeChar('"', isPrint) == ['\\', '"'] && EscapeChar('\\', isPrint) == ['\\', '\\']
    ensures EscapeChar('\n', isPrint) == ['\\', 'n'] && EscapeChar('\t', isPrint) == ['\\', 't']
    ensures EscapeChar('\r', isPrint) == ['\\', 'r'] && EscapeChar(' ', isPrint) == [' ']
    ensures EscapeChar('\U{7F}', isPrint) == ['\\', 'x', '7', 'f']
  {
    HexPair(0x7F);
  }

  lemma HexPair(n: nat)
    requires n < 0x100
    ensures Hex(n, 2) == [HexDigit(n / 16), HexDigit(n % 16)]
  {
    assert Hex(n / 16 / 16, 0) == "" && Hex(n / 16, 1) == [HexDigit(n / 16 % 16)];
  }

  /** The file of two plain arguments. */
  lemma TomlTextOfTwo(a: string, b: string, isPrint: char -> bool)
    requires IsPrintTable(isPrint) && PlainArg(a, isPrint) && PlainArg(b, isPrint)
    ensures TomlText([a, b], isPrint) == "kargs = [" + (['"'] + a + ['"'] + [',', ' '] + (['"'] + b + ['"'])) + "]\n"
  {
    EscapeShape(a, isPrint);
    EscapeShape(b, isPrint);
    var quoted := QuoteAll([a, b], isPrint);
    assert quoted[0] == ['"'] + a + ['"'] && quoted[1] == ['"'] + b + ['"'];
    assert quoted[1..] == [quoted[1]] && JoinComma([quoted[1]]) == quoted[1];
    assert JoinComma(quoted) == quoted[0] + [',', ' '] + quoted[1];
  }
}
