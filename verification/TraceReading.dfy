/**
 How cmd/convert-element-trace/main.go reads the pieces of a line that cmd/build-tracer printed:
 quoted strings, the argument list, and the cwd annotation.
 */
module TraceReading {
  import opened Decimals
  import opened Options
  import opened Sequences
  import opened Text
  import opened TraceLine

  /** What is left of a quoted byte and its continuation after one, two, three or four bytes. */
  lemma QuotedTails(c: char, rest: string)
    ensures var q := QuoteChar(c);
      && (|q| == 1 ==> (q + rest)[1..] == rest)
      && (|q| == 2 ==> (q + rest)[2..] == rest)
      && (|q| == 4 ==> (q + rest)[2..] == HexPair(c) + rest
                       && (HexPair(c) + rest)[1..] == [HexPair(c)[1]] + rest
                       && ([HexPair(c)[1]] + rest)[1..] == rest)
      && (|q| == 1 || |q| == 2 || |q| == 4) && (|q| == 4 <==> IsHexEscaped(c))
  {
  }

  lemma SkipsQuoted(c: char, rest: string)
    ensures CloseQuote(QuoteChar(c) + rest) == Shift(|QuoteChar(c)|, CloseQuote(rest))
  {
    QuotedTails(c, rest);
    if IsHexEscaped(c) {
      assert CloseQuote([HexPair(c)[1]] + rest) == Shift(1, CloseQuote(rest));
      assert CloseQuote(HexPair(c) + rest) == Shift(1, CloseQuote([HexPair(c)[1]] + rest));
    }
  }

  lemma {:induction false} CloseQuoteOfBody(x: string, post: string)
    ensures CloseQuote(QuoteBody(x) + "\"" + post) == |QuoteBody(x)|
  {
    var t := QuoteBody(x) + "\"" + post;
    if x != "" {
      var rest := QuoteBody(x[1..]) + "\"" + post;
      assert t == QuoteChar(x[0]) + rest;
      CloseQuoteOfBody(x[1..], post);
      SkipsQuoted(x[0], rest);
    }
  }

  function HexCount(s: string): nat {
    if s == "" then 0 else HexCount(s[1..]) + if IsHexEscaped(s[0]) then 1 else 0
  }

  lemma UnescapeQuoted(c: char, rest: string)
    ensures Unescape(QuoteChar(c) + rest) == (if IsHexEscaped(c) then ['x'] + HexPair(c) else [c]) + Unescape(rest)
  {
    QuotedTails(c, rest);
    if IsHexEscaped(c) {
      assert Unescape([HexPair(c)[1]] + rest) == [HexPair(c)[1]] + Unescape(rest);
      assert Unescape(HexPair(c) + rest) == [HexPair(c)[0]] + ([HexPair(c)[1]] + Unescape(rest));
    }
  }

  /** Unescaping gives the string back exactly when no byte had to be written in hexadecimal. */
  lemma {:induction false} UnescapeUndoesQuote(x: string)
    ensures |Unescape(QuoteBody(x))| == |x| + 2 * HexCount(x)
    ensures Unescape(QuoteBody(x)) == x <==> HexCount(x) == 0
  {
    if x != "" {
      UnescapeUndoesQuote(x[1..]);
      UnescapeQuoted(x[0], QuoteBody(x[1..]));
      assert x == [x[0]] + x[1..];
    }
  }

  function Unescaped(argv: seq<string>): seq<string> {
    if argv == [] then [] else [Unescape(QuoteBody(argv[0]))] + Unescaped(argv[1..])
  }

  lemma BracketSkipsQuoted(x: string, after: string)
    ensures CloseBracket(Quote(x) + after, ']') == Shift(|Quote(x)|, CloseBracket(after, ']'))
  {
    var t := Quote(x) + after;
    assert t[1..] == QuoteBody(x) + "\"" + after;
    CloseQuoteOfBody(x, after);
    Cut(Quote(x), after);
  }

  lemma ArgvOfQuoted(x: string, after: string)
    ensures ArgvOf(Quote(x) + after) == [Unescape(QuoteBody(x))] + ArgvOf(after)
  {
    var t := Quote(x) + after;
    assert t[1..] == QuoteBody(x) + "\"" + after;
    CloseQuoteOfBody(x, after);
    assert t[1..|QuoteBody(x)| + 1] == QuoteBody(x);
    Cut(Quote(x), after);
  }

  lemma CommaSpace(t: string)
    ensures ArgvOf(", " + t) == ArgvOf(t)
    ensures CloseBracket(", " + t, ']') == Shift(2, CloseBracket(t, ']'))
    ensures TrimLeftCommas(", " + t) == TrimLeftCommas(t)
  {
    assert (", " + t)[1..] == " " + t;
    assert (" " + t)[1..] == t;
  }

  lemma ArgvTextSplit(argv: seq<string>, end: string)
    requires |argv| > 1
    ensures ArgvText(argv) + end == Quote(argv[0]) + (", " + (ArgvText(argv[1..]) + end))
  {
    var q, t := Quote(argv[0]), ArgvText(argv[1..]);
    Assoc(q + ", ", t, end);
    Assoc(q, ", ", t + end);
  }

  /** The bracket that ends the argument list is found past every quoted argument. */
  lemma {:induction false} BracketOfArgv(argv: seq<string>, post: string)
    ensures CloseBracket(ArgvText(argv) + ("]" + post), ']') == |ArgvText(argv)|
  {
    var end := "]" + post;
    if argv == [] {
      assert "" + end == end;
    } else {
      if |argv| > 1 {
        var inner := ArgvText(argv[1..]) + end;
        BracketOfArgv(argv[1..], post);
        CommaSpace(inner);
        BracketSkipsQuoted(argv[0], ", " + inner);
        ArgvTextSplit(argv, end);
      } else {
        BracketSkipsQuoted(argv[0], end);
      }
    }
  }

  lemma {:induction false} ArgvOfText(argv: seq<string>)
    ensures ArgvOf(ArgvText(argv)) == Unescaped(argv)
  {
    if |argv| == 1 {
      ArgvOfQuoted(argv[0], "");
      assert Quote(argv[0]) + "" == Quote(argv[0]);
    } else if |argv| > 1 {
      ArgvOfText(argv[1..]);
      CommaSpace(ArgvText(argv[1..]));
      ArgvOfQuoted(argv[0], ", " + ArgvText(argv[1..]));
      assert ArgvText(argv) == Quote(argv[0]) + (", " + ArgvText(argv[1..]));
    }
  }

  lemma BlockAt(block: string, rest: string)
    requires CloseBracket(block + rest, ']') == |block|
    ensures ListAt("[" + (block + rest)) == Some(ArgvOf(block))
  {
    hide ArgvOf, CloseBracket;
    Cut("[", block + rest);
    assert ("[" + (block + rest))[1..|block| + 1] == block;
  }

  /** The path is skipped, and the bracketed block is cut at the bracket that closes it. */
  lemma {:induction false} AfterCallOf(path: string, block: string, post: string)
    requires CloseBracket(block + ("]" + post), ']') == |block|
    ensures AfterCall(Quote(path) + (", " + ("[" + (block + ("]" + post))))) == Some(ArgvOf(block))
  {
    var inner := block + ("]" + post);
    var after := ", " + ("[" + inner);
    var rest := Quote(path) + after;
    CommaSpace("[" + inner);
    BlockAt(block, "]" + post);
    assert TrimLeftCommas("[" + inner) == "[" + inner;
    hide ListAt, QuoteBody, TrimLeftCommas, CloseBracket, CloseQuote, ArgvOf;
    assert rest[1..] == QuoteBody(path) + "\"" + after;
    CloseQuoteOfBody(path, after);
    Cut(Quote(path), after);
  }

  lemma TailShape(path: string, argv: seq<string>)
    ensures Tail(path, argv) == Quote(path) + (", " + ("[" + (ArgvText(argv) + ("]" + ", 0x0) = 0"))))
  {
  }

  lemma AfterCallOfTail(path: string, argv: seq<string>)
    ensures AfterCall(Tail(path, argv)) == Some(Unescaped(argv))
  {
    TailShape(path, argv);
    BracketOfArgv(argv, ", 0x0) = 0");
    AfterCallOf(path, ArgvText(argv), ", 0x0) = 0");
    ArgvOfText(argv);
  }

  /** No proper suffix of "execve(" is also a prefix of it. */
  function Mismatch(d: nat): (k: nat)
    requires 1 <= d < 7
    ensures k < 7 - d && CALL[k] != CALL[d + k]
  {
    if d == 2 then 1 else if d == 5 then 1 else 0
  }

  lemma NoStraddle(head: string, rest: string, q: nat)
    requires q < |head| < q + 7
    ensures !OccursAt(head + CALL + rest, CALL, q)
  {
    var k := Mismatch(|head| - q);
    assert (head + CALL + rest)[|head| + k] == CALL[k];
    NotAt(head + CALL + rest, CALL, q, |head| - q + k);
  }

  /** "execve(" can only start where the printer put it. */
  lemma CallFound(head: string, rest: string)
    requires !Contains(head, CALL)
    ensures Index(head + CALL + rest, CALL) == |head|
  {
    var line := head + CALL + rest;
    assert line[|head|..|head| + 7] == CALL;
    forall q | 0 <= q < |head|
      ensures !OccursAt(line, CALL, q)
    {
      if q + 7 <= |head| {
        assert line[q..q + 7] == head[q..q + 7];
        assert !OccursAt(head, CALL, q);
      } else {
        NoStraddle(head, rest, q);
      }
    }
    IndexIs(line, CALL, |head|);
  }

  /** strace's markers of a line that another one continues; the parser refuses any line that holds one. */
  predicate Marked(line: string) {
    Contains(line, UNFINISHED) || Contains(line, RESUMED)
  }

  /** The line is no shorter than its last bytes, and they spell a zero result. */
  ghost predicate SaysSuccess(line: string) {
    |line| >= 12 && Contains(line[|line| - 12..], "= 0")
  }

  /** The end of a printed line passes the success test. */
  lemma SaysZero(front: string)
    requires front != ""
    ensures SaysSuccess(front + "], 0x0) = 0")
  {
    var line := front + "], 0x0) = 0";
    var tail := line[|line| - 12..];
    assert tail[9..12] == "= 0";
    assert OccursAt(tail, "= 0", 9);
  }

  lemma LineSaysZero(pid: nat, cwd: string, path: string, argv: seq<string>)
    ensures SaysSuccess(LineText(pid, cwd, path, argv))
  {
    var front := Head(pid, cwd) + CALL + (Quote(path) + ", [" + ArgvText(argv));
    assert LineText(pid, cwd, path, argv) == front + "], 0x0) = 0";
    SaysZero(front);
  }

  lemma {:induction false} UnescapedIsIdentity(argv: seq<string>)
    ensures |Unescaped(argv)| == |argv|
    ensures Unescaped(argv) == argv <==> forall a | a in argv :: HexCount(a) == 0
  {
    if argv != [] {
      UnescapeUndoesQuote(argv[0]);
      UnescapedIsIdentity(argv[1..]);
      assert argv == [argv[0]] + argv[1..];
      assert Unescaped(argv)[1..] == Unescaped(argv[1..]);
    }
  }

  // ------------------------------------------------------------- the cwd annotation

  /** Control bytes of any kind, and DEL: what the cwd reader does not decode. */
  predicate IsControl(c: char) {
    IsHexEscaped(c) || c == '\n' || c == '\t' || c == '\r'
  }

  function ControlCount(s: string): nat {
    if s == "" then 0 else ControlCount(s[1..]) + if IsControl(s[0]) then 1 else 0
  }

  lemma UnquoteStep(c: char, rest: string)
    ensures !IsControl(c) ==> UnquoteCwd(QuoteChar(c) + rest) == [c] + UnquoteCwd(rest)
    ensures IsControl(c) ==> |UnquoteCwd(QuoteChar(c) + rest)| > 1 + |UnquoteCwd(rest)|
  {
    QuotedTails(c, rest);
    var t := QuoteChar(c) + rest;
    if IsHexEscaped(c) {
      var h := HexPair(c);
      assert t[1..] == "x" + (h + rest) && ("x" + (h + rest))[1..] == h + rest;
      assert UnquoteCwd([h[1]] + rest) == [h[1]] + UnquoteCwd(rest);
      assert UnquoteCwd(h + rest) == [h[0]] + ([h[1]] + UnquoteCwd(rest));
      assert UnquoteCwd("x" + (h + rest)) == "x" + UnquoteCwd(h + rest);
    } else if IsControl(c) {
      assert t[1..] == [t[1]] + rest && ([t[1]] + rest)[1..] == rest;
      assert UnquoteCwd([t[1]] + rest) == [t[1]] + UnquoteCwd(rest);
    }
  }

  lemma {:induction false} UnquoteBody(x: string)
    ensures |UnquoteCwd(QuoteBody(x))| >= |x| + ControlCount(x)
    ensures UnquoteCwd(QuoteBody(x)) == x <==> ControlCount(x) == 0
  {
    if x != "" {
      UnquoteBody(x[1..]);
      UnquoteStep(x[0], QuoteBody(x[1..]));
      assert x == [x[0]] + x[1..];
    }
  }

  lemma NoAnnotation(d: string, rest: string)
    requires forall c | c in d :: c == ' ' || '0' <= c <= '9'
    ensures Index(d + rest, ANNOTATION) == -1 || Index(d + rest, ANNOTATION) >= |d|
  {
    forall q | 0 <= q < |d|
      ensures !OccursAt(d + rest, ANNOTATION, q)
    {
      assert d[q] in d && ANNOTATION[0] == 'c';
      NotAt(d + rest, ANNOTATION, q, 0);
    }
  }

  lemma QuietText(s: string)
    requires 'e' !in s
    ensures !Contains(s, CALL)
  {
    forall p | 0 <= p <= |s|
      ensures !OccursAt(s, CALL, p)
    {
      if p < |s| {
        assert s[p] in s;
        NotAt(s, CALL, p, 0);
      }
    }
  }

  /** A mention printed after any text. */
  lemma MentionLater(before: string, rest: string)
    ensures Contains(before + CALL + rest, CALL)
  {
    var line := before + CALL + rest;
    assert line[|before|..|before| + 7] == CALL;
    assert OccursAt(line, CALL, |before|);
  }

  /** No mention of the call begins among digits and spaces, nor at the letter after them. */
  lemma CallNotIn(d: string, rest: string)
    requires forall c | c in d :: c == ' ' || '0' <= c <= '9'
    requires rest != "" && rest[0] != 'e' && Contains(rest, CALL)
    ensures Index(d + rest, CALL) > |d|
  {
    var line := d + rest;
    forall q | 0 <= q <= |d|
      ensures !OccursAt(line, CALL, q)
    {
      assert q < |d| ==> line[q] == d[q] && d[q] in d;
      NotAt(line, CALL, q, 0);
    }
    var p :| 0 <= p <= |rest| && OccursAt(rest, CALL, p);
    assert line[|d| + p..|d| + p + 7] == rest[p..p + 7];
    assert OccursAt(line, CALL, |d| + p);
  }

  /** The numeral a line begins with, up to two spaces. */
  ghost predicate BeginsWith(line: string, n: nat) {
    exists k | 0 < k < |line| - 2 :: DecimalValue(line[..k]) == Some(n) && line[k..k + 2] == "  "
  }

  lemma NumeralFirst(d: string, n: nat, rest: string)
    requires d != "" && rest != "" && DecimalValue(d) == Some(n)
    ensures BeginsWith(d + "  " + rest, n)
  {
    hide DecimalValue;
    var line := d + "  " + rest;
    assert line[..|d|] == d && line[|d|..|d| + 2] == "  ";
  }

  /** A line begins with the pid it was written for. */
  lemma PidReadBack(pid: nat, cwd: string, path: string, argv: seq<string>)
    ensures BeginsWith(LineText(pid, cwd, path, argv), pid)
  {
    hide BeginsWith, DecimalValue, Decimal, Quote, Tail;
    var d, middle := Decimal(pid), if cwd == "" then "" else "cwd:" + Quote(cwd) + "  ";
    DecimalRead(pid);
    assert Head(pid, cwd) == d + "  " + middle;
    Assoc(d + "  ", middle, CALL + Tail(path, argv));
    Assoc(d + "  " + middle, CALL, Tail(path, argv));
    NumeralFirst(d, pid, middle + (CALL + Tail(path, argv)));
  }

  /** A control byte is written by the value of its two hexadecimal digits. */
  lemma HexWritten(c: char)
    requires IsHexEscaped(c)
    ensures QuoteChar(c) == "\\x" + ["0123456789abcdef"[c as int / 16], "0123456789abcdef"[c as int % 16]]
  {
  }

  lemma {:induction false} NothingRead(pid: nat, path: string, argv: seq<string>)
    ensures CwdAnnotation(LineText(pid, "", path, argv)) == ""
  {
    var d := Decimal(pid) + "  ";
    DecimalDigits(pid);
    assert Head(pid, "") == d;
    QuietText(d);
    CallFound(d, Tail(path, argv));
    NoAnnotation(d, CALL + Tail(path, argv));
    Assoc(d, CALL, Tail(path, argv));
  }

  lemma {:induction false} AnnotationRead(d: string, cwd: string, after: string)
    requires forall c | c in d :: c == ' ' || '0' <= c <= '9'
    requires Index(d + ANNOTATION + (QuoteBody(cwd) + "\"" + after), CALL) > |d|
    ensures CwdAnnotation(d + ANNOTATION + (QuoteBody(cwd) + "\"" + after)) == UnquoteCwd(QuoteBody(cwd))
  {
    var rest := QuoteBody(cwd) + "\"" + after;
    FoundAfter(d, ANNOTATION, rest);
    Cut(d + ANNOTATION, rest);
    CloseQuoteOfBody(cwd, after);
    assert rest[..|QuoteBody(cwd)|] == QuoteBody(cwd);
  }

  lemma AnnotatedLine(pid: nat, cwd: string, path: string, argv: seq<string>)
    requires cwd != ""
    ensures LineText(pid, cwd, path, argv) == Decimal(pid) + "  " + ANNOTATION
      + (QuoteBody(cwd) + "\"" + ("  " + CALL + Tail(path, argv)))
  {
  }

  lemma CallAfterAnnotation(d: string, body: string, tail: string)
    requires forall c | c in d :: c == ' ' || '0' <= c <= '9'
    ensures Index(d + ANNOTATION + (body + "\"" + ("  " + CALL + tail)), CALL) > |d|
  {
    var rest := ANNOTATION + (body + "\"" + ("  " + CALL + tail));
    MentionLater(ANNOTATION + (body + "\"  "), tail);
    assert rest == ANNOTATION + (body + "\"  ") + CALL + tail;
    CallNotIn(d, rest);
    Assoc(d, ANNOTATION, body + "\"" + ("  " + CALL + tail));
  }

  lemma {:induction false} SomethingRead(pid: nat, cwd: string, path: string, argv: seq<string>)
    requires cwd != ""
    ensures CwdAnnotation(LineText(pid, cwd, path, argv)) == UnquoteCwd(QuoteBody(cwd))
  {
    var d, after := Decimal(pid) + "  ", "  " + CALL + Tail(path, argv);
    DecimalDigits(pid);
    AnnotatedLine(pid, cwd, path, argv);
    CallAfterAnnotation(d, QuoteBody(cwd), Tail(path, argv));
    AnnotationRead(d, cwd, after);
  }

  /**
   Main result on the annotation: a non-empty cwd is read back exactly when it holds no control
   byte, whatever else it holds, and an absent annotation reads as the empty cwd.
   */
  lemma {:induction false} CwdReadBack(pid: nat, cwd: string, path: string, argv: seq<string>)
    ensures CwdAnnotation(LineText(pid, cwd, path, argv)) == cwd <==> ControlCount(cwd) == 0
  {
    if cwd == "" {
      NothingRead(pid, path, argv);
    } else {
      SomethingRead(pid, cwd, path, argv);
      UnquoteBody(cwd);
    }
  }

  // ------------------------------------------------------------- a line without an annotation

  /** No end of a text together with the call spells the annotation: the call begins with another letter. */
  lemma NoStraddledAnnotation(head: string, rest: string, q: nat)
    requires q < |head| < q + 5
    ensures !OccursAt(head + CALL + rest, ANNOTATION, q)
  {
    assert (head + CALL + rest)[|head|] == 'e';
    assert ANNOTATION[|head| - q] != 'e';
    NotAt(head + CALL + rest, ANNOTATION, q, |head| - q);
  }

  /** Only an annotation before the call counts: what the arguments hold is no cwd. */
  lemma NoAnnotationNoCwd(head: string, rest: string)
    requires !Contains(head, CALL) && !Contains(head, ANNOTATION)
    ensures CwdAnnotation(head + CALL + rest) == ""
  {
    var line := head + CALL + rest;
    CallFound(head, rest);
    forall q | 0 <= q < |head|
      ensures !OccursAt(line, ANNOTATION, q)
    {
      if q + 5 <= |head| {
        assert line[q..q + 5] == head[q..q + 5];
        assert !OccursAt(head, ANNOTATION, q);
      } else {
        NoStraddledAnnotation(head, rest, q);
      }
    }
    hide CwdAnnotation, Contains;
    assert Index(line, ANNOTATION) < 0 || Index(line, ANNOTATION) >= |head|;
    NotBefore(line);
  }

  lemma NotBefore(line: string)
    requires Index(line, CALL) >= 0 && (Index(line, ANNOTATION) < 0 || Index(line, ANNOTATION) >= Index(line, CALL))
    ensures CwdAnnotation(line) == ""
  {
  }
}
