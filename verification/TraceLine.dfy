/**
 One execve trace line: printed by cmd/build-tracer/native_linux_amd64.go (emitExecve,
 straceQuote), read back by cmd/convert-element-trace/main.go (parseExecveLine and helpers).
 */
module TraceLine {
  import opened Decimals
  import opened Options
  import opened Sequences
  import opened Text

  // ------------------------------------------------------------- printing

  /** Bytes straceQuote writes as \xNN. */
  predicate IsHexEscaped(c: char) {
    (c < ' ' && c != '\n' && c != '\t' && c != '\r') || c == '\U{007f}'
  }

  function HexDigit(d: int): (c: char)
    requires 0 <= d < 16
    ensures '0' <= c <= '9' || 'a' <= c <= 'f'
  {
    if d < 10 then '0' + d as char else 'a' + (d - 10) as char
  }

  function HexPair(c: char): string {
    [HexDigit(c as int / 16 % 16), HexDigit(c as int % 16)]
  }

  function QuoteChar(c: char): string {
    if c == '\\' then "\\\\"
    else if c == '"' then "\\\""
    else if c == '\n' then "\\n"
    else if c == '\t' then "\\t"
    else if c == '\r' then "\\r"
    else if IsHexEscaped(c) then "\\x" + HexPair(c)
    else [c]
  }

  function QuoteBody(s: string): string {
    if s == "" then "" else QuoteChar(s[0]) + QuoteBody(s[1..])
  }

  function Quote(s: string): string {
    "\"" + QuoteBody(s) + "\""
  }

  lemma {:induction false} QuoteBodySnoc(s: string, c: char)
    ensures QuoteBody(s + [c]) == QuoteBody(s) + QuoteChar(c)
  {
    if s == "" {
      assert s + [c] == [c] && [c][1..] == "";
    } else {
      QuoteBodySnoc(s[1..], c);
      assert (s + [c])[1..] == s[1..] + [c];
      Assoc(QuoteChar(s[0]), QuoteBody(s[1..]), QuoteChar(c));
    }
  }

  /** straceQuote: appends the quoted string to a buffer, byte by byte. */
  method StraceQuote(w: string, s: string) returns (out: string)
    ensures out == w + Quote(s)
  {
    out := w + "\"";
    ghost var open := out;
    for i := 0 to |s|
      invariant out == open + QuoteBody(s[..i])
    {
      PrefixStep(s, i);
      QuoteBodySnoc(s[..i], s[i]);
      Assoc(open, QuoteBody(s[..i]), QuoteChar(s[i]));
      out := out + QuoteChar(s[i]);
    }
    WholePrefix(s);
    out := out + "\"";
  }

  /** The quoted arguments, separated by ", ". */
  function ArgvText(argv: seq<string>): string {
    if argv == [] then ""
    else if |argv| == 1 then Quote(argv[0])
    else Quote(argv[0]) + ", " + ArgvText(argv[1..])
  }

  lemma {:induction false} ArgvTextSnoc(argv: seq<string>, a: string)
    ensures ArgvText(argv + [a]) == if argv == [] then Quote(a) else ArgvText(argv) + ", " + Quote(a)
  {
    hide Quote;
    if |argv| == 1 {
      assert (argv + [a])[1..] == [a];
    } else if |argv| > 1 {
      ArgvTextSnoc(argv[1..], a);
      assert (argv + [a])[1..] == argv[1..] + [a];
    }
  }

  const CALL := "execve("

  /** Everything before the call: pid, and the cwd annotation when there is one. */
  function Head(pid: nat, cwd: string): string {
    Decimal(pid) + "  " + if cwd == "" then "" else "cwd:" + Quote(cwd) + "  "
  }

  function Tail(path: string, argv: seq<string>): string {
    Quote(path) + ", [" + ArgvText(argv) + "], 0x0) = 0"
  }

  /** The emitted line, without its newline. */
  function LineText(pid: nat, cwd: string, path: string, argv: seq<string>): string {
    Head(pid, cwd) + CALL + Tail(path, argv)
  }

  /** The argument loop of emitExecve. */
  method EmitArgv(w: string, argv: seq<string>) returns (b: string)
    ensures b == w + ArgvText(argv)
  {
    b := w;
    for i := 0 to |argv|
      invariant b == w + ArgvText(argv[..i])
    {
      PrefixStep(argv, i);
      ArgvTextSnoc(argv[..i], argv[i]);
      if i > 0 {
        b := b + ", ";
      }
      b := StraceQuote(b, argv[i]);
    }
    WholePrefix(argv);
  }

  lemma EmittedText(head: string, path: string, argv: seq<string>)
    ensures head + CALL + Quote(path) + ", [" + ArgvText(argv) + "], 0x0) = 0\n" == head + CALL + Tail(path, argv) + "\n"
  {
  }

  /** emitExecve */
  method EmitExecve(pid: nat, cwd: string, path: string, argv: seq<string>) returns (b: string)
    ensures b == LineText(pid, cwd, path, argv) + "\n"
  {
    hide Quote, ArgvText, Decimal;
    b := Decimal(pid) + "  ";
    if cwd != "" {
      b := b + "cwd:";
      b := StraceQuote(b, cwd);
      b := b + "  ";
      assert b == Head(pid, cwd);
    }
    ghost var head := b;
    b := b + CALL;
    b := StraceQuote(b, path);
    b := b + ", [";
    b := EmitArgv(b, argv);
    b := b + "], 0x0) = 0\n";
    EmittedText(head, path, argv);
  }

  // ------------------------------------------------------------- scanning

  function Shift(n: nat, r: int): int {
    if r < 0 then -1 else n + r
  }

  /** Offset of the quote that ends the string starting here; a backslash hides the next byte. */
  function CloseQuote(t: string): (r: int)
    ensures -1 <= r < |t|
  {
    if t == "" then -1
    else if t[0] == '\\' then (if |t| == 1 then -1 else Shift(2, CloseQuote(t[2..])))
    else if t[0] == '"' then 0
    else Shift(1, CloseQuote(t[1..]))
  }

  /** indexAfterQuoted */
  method IndexAfterQuoted(s: string, start: nat) returns (r: int)
    ensures r == if start < |s| && s[start] == '"' then Shift(start + 1, CloseQuote(s[start + 1..])) else -1
  {
    if start >= |s| || s[start] != '"' {
      return -1;
    }
    var i := start + 1;
    while i < |s|
      invariant start < i
      invariant i <= |s| ==> Shift(start + 1, CloseQuote(s[start + 1..])) == Shift(i, CloseQuote(s[i..]))
      invariant i > |s| ==> Shift(start + 1, CloseQuote(s[start + 1..])) == -1
    {
      if s[i] == '\\' {
        if i + 2 <= |s| {
          DropDrop(s, i, 2);
        }
        i := i + 2;
      } else if s[i] == '"' {
        return i;
      } else {
        DropDrop(s, i, 1);
        i := i + 1;
      }
    }
    r := -1;
  }

  /** Offset of the first `close` outside quotes. */
  function CloseBracket(t: string, close: char): (r: int)
    ensures -1 <= r < |t|
  {
    if t == "" then -1
    else if t[0] == '"' then
      var j := CloseQuote(t[1..]);
      if j < 0 then -1 else Shift(j + 2, CloseBracket(t[j + 2..], close))
    else if t[0] == close then 0
    else Shift(1, CloseBracket(t[1..], close))
  }

  /** indexUnescapedClose */
  method IndexUnescapedClose(s: string, close: char) returns (r: int)
    ensures r == CloseBracket(s, close)
  {
    var i := 0;
    while i < |s|
      invariant 0 <= i <= |s|
      invariant CloseBracket(s, close) == Shift(i, CloseBracket(s[i..], close))
    {
      if s[i] == '"' {
        var j := IndexAfterQuoted(s, i);
        DropDrop(s, i, 1);
        if j < 0 {
          return -1;
        }
        DropDrop(s, i, j - i + 1);
        i := j;
      } else if s[i] == close {
        return i;
      } else {
        DropDrop(s, i, 1);
      }
      i := i + 1;
    }
    r := -1;
  }

  function UnescapeChar(c: char): char {
    if c == 'n' then '\n' else if c == 't' then '\t' else if c == 'r' then '\r' else c
  }

  function Unescape(t: string): string {
    if t == "" then ""
    else if t[0] != '\\' || |t| == 1 then [t[0]] + Unescape(t[1..])
    else [UnescapeChar(t[1])] + Unescape(t[2..])
  }

  lemma UnescapeNone()
    ensures Unescape("") == ""
  {
  }

  lemma UnescapeStep(s: string, i: nat)
    requires i < |s|
    ensures Unescape(s[i..])
      == if s[i] != '\\' || i + 1 >= |s| then [s[i]] + Unescape(s[i + 1..])
         else [UnescapeChar(s[i + 1])] + Unescape(s[i + 2..])
  {
    DropDrop(s, i, 1);
    if i + 1 < |s| {
      DropDrop(s, i, 2);
    }
  }

  /** unescapeStraceString */
  method UnescapeStraceString(s: string) returns (b: string)
    ensures b == Unescape(s)
  {
    UnescapeNone();
    hide Unescape;
    b := "";
    var i := 0;
    assert s[0..] == s && "" + Unescape(s) == Unescape(s);
    while i < |s|
      invariant 0 <= i <= |s|
      invariant Unescape(s) == b + Unescape(s[i..])
    {
      UnescapeStep(s, i);
      if s[i] != '\\' || i + 1 >= |s| {
        Assoc(b, [s[i]], Unescape(s[i + 1..]));
        b := b + [s[i]];
      } else {
        Assoc(b, [UnescapeChar(s[i + 1])], Unescape(s[i + 2..]));
        i := i + 1;
        b := b + [UnescapeChar(s[i])];
      }
      i := i + 1;
    }
    assert s[i..] == "" && b + "" == b;
  }

  /** The quoted strings at the front of a block, separated by any mix of spaces and commas. */
  function ArgvOf(block: string): seq<string> {
    if block == "" then []
    else if block[0] == ' ' || block[0] == ',' then ArgvOf(block[1..])
    else if block[0] != '"' then []
    else
      var end := CloseQuote(block[1..]);
      if end < 0 then [] else [Unescape(block[1..end + 1])] + ArgvOf(block[end + 2..])
  }

  /** The inner loop: past spaces and commas. */
  method SkipSeparators(block: string, start: nat) returns (i: nat)
    requires start <= |block|
    ensures start <= i <= |block| && ArgvOf(block[start..]) == ArgvOf(block[i..])
    ensures i < |block| ==> block[i] != ' ' && block[i] != ','
  {
    i := start;
    while i < |block| && (block[i] == ' ' || block[i] == ',')
      invariant start <= i <= |block|
      invariant ArgvOf(block[start..]) == ArgvOf(block[i..])
    {
      DropDrop(block, i, 1);
      i := i + 1;
    }
  }

  lemma ArgvStep(block: string, i: nat)
    requires i < |block| && block[i] == '"'
    ensures var end := Shift(i + 1, CloseQuote(block[i + 1..]));
      if end < 0 then ArgvOf(block[i..]) == []
      else ArgvOf(block[i..]) == [Unescape(block[i + 1..end])] + ArgvOf(block[end + 1..])
  {
    hide Unescape, CloseQuote;
    DropDrop(block, i, 1);
    var c := CloseQuote(block[i + 1..]);
    if c >= 0 {
      DropSlice(block, i, 1, c + 1);
      DropDrop(block, i, c + 2);
    }
  }

  /** One turn of the loop: the next quoted argument, if there is one. */
  method NextArg(block: string, start: nat) returns (more: bool, arg: string, next: nat)
    requires start <= |block|
    ensures !more ==> ArgvOf(block[start..]) == []
    ensures more ==> start < next <= |block| && ArgvOf(block[start..]) == [arg] + ArgvOf(block[next..])
  {
    more, arg, next := false, "", start;
    var i := SkipSeparators(block, start);
    if i >= |block| || block[i] != '"' {
      return;
    }
    var end := IndexAfterQuoted(block, i);
    ArgvStep(block, i);
    if end < 0 {
      return;
    }
    arg := UnescapeStraceString(block[i + 1..end]);
    more, next := true, end + 1;
  }

  /** parseArgvBlock */
  method ParseArgvBlock(block: string) returns (out: seq<string>)
    ensures out == ArgvOf(block)
  {
    out := [];
    var i := 0;
    while true
      invariant 0 <= i <= |block|
      invariant ArgvOf(block) == out + ArgvOf(block[i..])
      decreases |block| - i
    {
      var more, arg, next := NextArg(block, i);
      if !more {
        assert out + [] == out;
        return;
      }
      Assoc(out, [arg], ArgvOf(block[next..]));
      out := out + [arg];
      i := next;
    }
  }

  function TrimLeftCommas(t: string): string {
    if t != "" && (t[0] == ',' || t[0] == ' ') then TrimLeftCommas(t[1..]) else t
  }

  const UNFINISHED := "<unfinished"
  const RESUMED := "resumed>"

  /** The bracketed argument block. */
  function ListAt(t: string): Option<seq<string>> {
    if t == "" || t[0] != '[' then None
    else
      var end := CloseBracket(t[1..], ']');
      if end < 0 then None else Some(ArgvOf(t[1..end + 1]))
  }

  /** The part after "execve(": the quoted path, then the arguments. */
  function AfterCall(rest: string): Option<seq<string>> {
    if rest == "" || rest[0] != '"' || CloseQuote(rest[1..]) < 0 then None
    else ListAt(TrimLeftCommas(rest[CloseQuote(rest[1..]) + 2..]))
  }

  /** What parseExecveLine returns, step for step. */
  function ExecveArgv(line: string): Option<seq<string>> {
    var idx := Index(line, CALL);
    if idx < 0 || |line| < 12 then None
    else if !Contains(line[|line| - 12..], "= 0") then None
    else if Contains(line, UNFINISHED) || Contains(line, RESUMED) then None
    else AfterCall(line[idx + |CALL|..])
  }

  function HasText(s: string, sub: string): (r: bool)
    ensures r <==> Contains(s, sub)
  {
    Index(s, sub) >= 0
  }

  /** parseExecveLine */
  method ParseExecveLine(line: string) returns (r: Option<seq<string>>)
    ensures r == ExecveArgv(line)
  {
    var idx := Index(line, CALL);
    if idx < 0 || |line| < 12 {
      return None;
    }
    var tail := line[|line| - 12..];
    if !HasText(tail, "= 0") || HasText(line, UNFINISHED) || HasText(line, RESUMED) {
      return None;
    }
    var rest := line[idx + |CALL|..];
    var pathEnd := IndexAfterQuoted(rest, 0);
    if pathEnd < 0 {
      return None;
    }
    rest := TrimLeftCommas(rest[pathEnd + 1..]);
    if rest == "" || rest[0] != '[' {
      return None;
    }
    ghost var t := rest;
    rest := rest[1..];
    var end := IndexUnescapedClose(rest, ']');
    if end < 0 {
      return None;
    }
    assert t[1..end + 1] == rest[..end];
    var argv := ParseArgvBlock(rest[..end]);
    r := Some(argv);
  }

  /** strings.NewReplacer(`\"`, `"`, `\\`, `\`) */
  function UnquoteCwd(t: string): string {
    if t == "" then ""
    else if |t| > 1 && t[0] == '\\' && (t[1] == '"' || t[1] == '\\') then [t[1]] + UnquoteCwd(t[2..])
    else [t[0]] + UnquoteCwd(t[1..])
  }

  const ANNOTATION := "cwd:\""

  /** parseCwdAnnotation */
  function CwdAnnotation(line: string): string {
    var idx, exec := Index(line, ANNOTATION), Index(line, CALL);
    if idx < 0 || exec < 0 || idx >= exec then ""
    else
      var rest := line[idx + 5..];
      var end := CloseQuote(rest);
      if end < 0 then "" else UnquoteCwd(rest[..end])
  }
}
