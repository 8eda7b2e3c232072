/**
 The argument vector cmd/convert-element-trace/main.go reads from a whole printed line, whatever
 the pid, the cwd, the path and the arguments hold.
 */
module TraceRoundTrip {
  import opened Decimals
  import opened Options
  import opened Sequences
  import opened Text
  import opened TraceLine
  import opened TraceReading

  // ------------------------------------------------------------- mentions and quoting

  /** Text without backslashes that a quoted string starts with, the string itself starts with. */
  lemma {:induction false} QuotedPrefix(x: string, w: string)
    requires '\\' !in w && HasPrefix(QuoteBody(x), w)
    ensures HasPrefix(x, w)
  {
    if w != "" {
      assert x != "" && QuoteChar(x[0])[0] == w[0];
      assert w[0] in w;
      assert QuoteChar(x[0]) == [x[0]];
      var q := QuoteBody(x[1..]);
      assert QuoteBody(x)[1..] == q;
      assert q[..|w| - 1] == QuoteBody(x)[..|w|][1..] == w[1..];
      QuotedPrefix(x[1..], w[1..]);
      assert x[..|w|] == [x[0]] + x[1..][..|w| - 1];
      assert w == [w[0]] + w[1..];
    }
  }

  /** Quoting a cwd that needs no hexadecimal escape cannot create a mention of the call. */
  lemma {:induction false} QuotedMention(x: string, p: nat)
    requires HexCount(x) == 0 && OccursAt(QuoteBody(x), CALL, p)
    ensures Contains(x, CALL)
  {
    assert x != "";
    var q := QuoteChar(x[0]);
    var rest := QuoteBody(x[1..]);
    assert QuoteBody(x)[p..p + 7][0] == QuoteBody(x)[p];
    if p < |q| {
      assert QuoteBody(x)[p] == q[p];
      assert p == 0 && q == [x[0]];
      QuotedPrefix(x, CALL);
      assert OccursAt(x, CALL, 0);
    } else {
      assert QuoteBody(x)[p..p + 7] == rest[p - |q|..p - |q| + 7];
      QuotedMention(x[1..], p - |q|);
      var r :| 0 <= r <= |x[1..]| && OccursAt(x[1..], CALL, r);
      assert x[1 + r..1 + r + 7] == x[1..][r..r + 7];
      assert OccursAt(x, CALL, 1 + r);
    }
  }

  lemma EmptyBody()
    ensures QuoteBody("") == ""
  {
  }

  /** Text that needs no escape is quoted as it is. */
  lemma {:induction false} PlainPrefix(w: string, rest: string)
    requires forall c | c in w :: QuoteChar(c) == [c]
    ensures QuoteBody(w + rest) == w + QuoteBody(rest)
  {
    hide QuoteChar;
    if w == "" {
      assert w + rest == rest;
    } else {
      assert w[0] in w;
      assert (w + rest)[1..] == w[1..] + rest;
      PlainPrefix(w[1..], rest);
      assert w == [w[0]] + w[1..];
    }
  }

  lemma {:induction false} QuoteBodyConcat(a: string, b: string)
    ensures QuoteBody(a + b) == QuoteBody(a) + QuoteBody(b)
  {
    hide QuoteChar;
    if a == "" {
      assert a + b == b;
    } else {
      assert (a + b)[1..] == a[1..] + b;
      QuoteBodyConcat(a[1..], b);
    }
  }

  lemma CallIsPlain(rest: string)
    ensures QuoteBody(CALL + rest) == CALL + QuoteBody(rest)
  {
    hide QuoteBody;
    PlainPrefix(CALL, rest);
  }

  /** Quoting keeps every mention. */
  lemma MentionIsQuoted(x: string, p: nat)
    requires OccursAt(x, CALL, p)
    ensures Contains(QuoteBody(x), CALL)
  {
    var before, after := x[..p], x[p + 7..];
    assert x == before + (CALL + after);
    hide *;
    QuoteBodyConcat(before, CALL + after);
    CallIsPlain(after);
    Assoc(QuoteBody(before), CALL, QuoteBody(after));
    MentionLater(QuoteBody(before), QuoteBody(after));
  }

  // ------------------------------------------------------------- a cwd that mentions the call

  /** A quote inside a quoted text follows a backslash. */
  lemma {:induction false} QuotesAreEscaped(x: string, k: nat)
    requires k < |QuoteBody(x)| && QuoteBody(x)[k] == '"'
    ensures k > 0 && QuoteBody(x)[k - 1] == '\\'
  {
    var n := |QuoteChar(x[0])|;
    assert QuoteBody(x) == QuoteChar(x[0]) + QuoteBody(x[1..]);
    if k < n {
      assert QuoteChar(x[0])[k] == '"';
    } else {
      assert QuoteBody(x[1..])[k - n] == '"';
      QuotesAreEscaped(x[1..], k - n);
    }
  }

  /** A text found in the front is found at the same place in the whole. */
  lemma IndexExtends(front: string, rest: string, sub: string)
    requires Contains(front, sub)
    ensures Index(front + rest, sub) == Index(front, sub)
  {
    var p := Index(front, sub);
    assert (front + rest)[p..p + |sub|] == front[p..p + |sub|];
    forall q | 0 <= q < p
      ensures !OccursAt(front + rest, sub, q)
    {
      assert !OccursAt(front, sub, q);
      assert (front + rest)[q..q + |sub|] == front[q..q + |sub|];
    }
    IndexIs(front + rest, sub, p);
  }

  /** The first mention is the end of the cwd. */
  predicate EndsInCall(cwd: string) {
    |CALL| <= |QuoteBody(cwd)| && Index(QuoteBody(cwd), CALL) == |QuoteBody(cwd)| - |CALL|
  }

  /** A mention in the text before the call is one in the quoted cwd, at the same place. */
  lemma MentionInHead(before: string, body: string)
    requires 'e' !in before
    ensures Contains(before + body + "\"  ", CALL) <==> Contains(body, CALL)
    ensures Contains(body, CALL) ==> Index(before + body + "\"  ", CALL) == |before| + Index(body, CALL)
  {
    var s := before + body + "\"  ";
    var close := |before| + |body|;
    forall p | 0 <= p <= |s|
      ensures OccursAt(s, CALL, p) <==> OccursAt(body, CALL, p - |before|)
    {
      if p < |before| {
        assert s[p] == before[p] && before[p] in before;
        NotAt(s, CALL, p, 0);
      } else if p + 7 <= close {
        assert s[p..p + 7] == body[p - |before|..p - |before| + 7];
      } else if p <= close {
        assert CALL[close - p] != '"';
        NotAt(s, CALL, p, close - p);
      }
    }
    if Contains(body, CALL) {
      var p := Index(body, CALL);
      assert OccursAt(s, CALL, |before| + p);
      IndexIs(s, CALL, |before| + p);
    }
  }

  lemma {:induction false} CloseQuoteAfter(a: string, b: string)
    requires '"' !in a && '\\' !in a
    ensures CloseQuote(a + "\"" + b) == |a|
  {
    if a != "" {
      assert a[0] in a;
      assert (a + "\"" + b)[1..] == a[1..] + "\"" + b;
      CloseQuoteAfter(a[1..], b);
    }
  }

  predicate IsSeparator(c: char) {
    c == ',' || c == ' '
  }

  lemma FirstOfQuoted(c: char)
    ensures QuoteChar(c) != [] && QuoteChar(c)[0] != '"'
    ensures IsSeparator(c) <==> IsSeparator(QuoteChar(c)[0])
    ensures IsSeparator(c) ==> QuoteChar(c) == [c]
  {
  }

  /** Separators are not escaped, so trimming and quoting commute. */
  lemma {:induction false} TrimQuoted(path: string, after: string)
    ensures TrimLeftCommas(QuoteBody(path) + "\"" + after) == QuoteBody(TrimLeftCommas(path)) + "\"" + after
  {
    hide QuoteChar;
    var t := QuoteBody(path) + "\"" + after;
    if path != "" {
      FirstOfQuoted(path[0]);
      assert t[0] == QuoteChar(path[0])[0];
      if IsSeparator(path[0]) {
        TrimQuoted(path[1..], after);
        assert t[1..] == QuoteBody(path[1..]) + "\"" + after;
      }
    }
  }

  /** Unless it is all separators, no quoted text read as an argument list has an argument. */
  lemma {:induction false} NoArguments(x: string, after: string, end: nat)
    requires TrimLeftCommas(x) != "" && end <= |QuoteBody(x) + after|
    ensures ArgvOf((QuoteBody(x) + after)[..end]) == []
  {
    hide CloseQuote, Unescape, QuoteChar;
    var t := QuoteBody(x) + after;
    if end > 0 {
      FirstOfQuoted(x[0]);
      assert t == QuoteChar(x[0]) + (QuoteBody(x[1..]) + after);
      assert t[..end][0] == QuoteChar(x[0])[0];
      if IsSeparator(x[0]) {
        assert t[..end][1..] == (QuoteBody(x[1..]) + after)[..end - 1];
        NoArguments(x[1..], after, end - 1);
      }
    }
  }

  lemma {:induction false} BracketSkips(w: string, rest: string)
    requires '"' !in w && ']' !in w
    ensures CloseBracket(w + rest, ']') == Shift(|w|, CloseBracket(rest, ']'))
  {
    if w == "" {
      assert w + rest == rest;
    } else {
      assert w[0] in w;
      assert (w + rest)[1..] == w[1..] + rest;
      BracketSkips(w[1..], rest);
    }
  }

  lemma BracketSkipsChar(c: char, rest: string)
    requires c != '"' && c != ']'
    ensures CloseBracket(QuoteChar(c) + rest, ']') == Shift(|QuoteChar(c)|, CloseBracket(rest, ']'))
  {
    assert '"' !in QuoteChar(c) && ']' !in QuoteChar(c);
    BracketSkips(QuoteChar(c), rest);
  }

  lemma {:induction false} QuoteFree(s: string)
    requires '"' !in s
    ensures CloseQuote(s) == -1
    decreases |s|
  {
    if s != "" {
      assert s[0] in s;
      if s[0] != '\\' {
        QuoteFree(s[1..]);
      } else if |s| > 1 {
        QuoteFree(s[2..]);
      }
    }
  }

  const SEPARATOR := ", ["
  const CLOSING := "], 0x0) = 0"
  const NO_ARGUMENTS := SEPARATOR + CLOSING

  lemma NoArgumentsClose()
    ensures CloseBracket(NO_ARGUMENTS, ']') >= 0
    ensures CloseQuote(NO_ARGUMENTS) == -1
  {
    hide CloseQuote;
    BracketSkips(SEPARATOR, CLOSING);
    QuoteFree(NO_ARGUMENTS);
  }

  /** A quote in the text opens a quoted string that ends with the text; the bracket comes after it. */
  lemma BracketPastQuote(x: string, after: string)
    requires CloseBracket(after, ']') >= 0
    ensures CloseBracket("\\\"" + (QuoteBody(x) + "\"" + after), ']') >= 0
  {
    hide QuoteBody;
    var rest := QuoteBody(x) + "\"" + after;
    CloseQuoteOfBody(x, after);
    Cut(QuoteBody(x) + "\"", after);
    assert ("\\\"" + rest)[1..] == "\"" + rest && ("\"" + rest)[1..] == rest;
    assert ("\"" + rest)[|QuoteBody(x)| + 2..] == after;
    assert CloseBracket("\"" + rest, ']') >= 0;
  }

  /** With no quote after it, a bracket is found past a quoted `x` only if `x` holds a bracket or a quote. */
  lemma {:induction false} BracketPast(x: string, after: string)
    requires CloseBracket(after, ']') >= 0 && CloseQuote(after) == -1
    ensures CloseBracket(QuoteBody(x) + "\"" + after, ']') >= 0 <==> ']' in x || '"' in x
  {
    var t := QuoteBody(x) + "\"" + after;
    if x == "" {
      assert t == "\"" + after && t[1..] == after;
    } else {
      var rest := QuoteBody(x[1..]) + "\"" + after;
      assert t == QuoteChar(x[0]) + rest;
      assert x == [x[0]] + x[1..];
      BracketPast(x[1..], after);
      if x[0] == '"' {
        BracketPastQuote(x[1..], after);
      } else if x[0] != ']' {
        BracketSkipsChar(x[0], rest);
      }
    }
  }

  /** What a line holds from the end of the path on. */
  function AfterPath(argv: seq<string>): string {
    SEPARATOR + ArgvText(argv) + CLOSING
  }

  lemma TailCut(path: string, argv: seq<string>)
    ensures Tail(path, argv) == "\"" + (QuoteBody(path) + "\"" + AfterPath(argv))
  {
  }

  lemma {:induction false} AllSeparators(x: string)
    requires TrimLeftCommas(x) == ""
    ensures forall c | c in x :: IsSeparator(c)
  {
    if x != "" {
      AllSeparators(x[1..]);
      assert x == [x[0]] + x[1..];
    }
  }

  lemma {:induction false} ArgvSkips(x: string, after: string)
    requires forall c | c in x :: IsSeparator(c)
    ensures ArgvOf(x + after) == ArgvOf(after)
  {
    if x == "" {
      assert x + after == after;
    } else {
      assert x[0] in x;
      assert (x + after)[1..] == x[1..] + after;
      ArgvSkips(x[1..], after);
    }
  }

  lemma SeparatorsSkipped(x: string, after: string)
    requires TrimLeftCommas(x) == ""
    ensures QuoteBody(x) == x && ']' !in x && '"' !in x
    ensures CloseBracket(x + after, ']') == Shift(|x|, CloseBracket(after, ']'))
    ensures ArgvOf(x + after) == ArgvOf(after)
  {
    hide QuoteBody, TrimLeftCommas, CloseBracket, ArgvOf;
    AllSeparators(x);
    BracketSkips(x, after);
    ArgvSkips(x, after);
    PlainPrefix(x, "");
    EmptyBody();
    assert x + "" == x;
  }

  /** With neither a bracket nor a second quote, none is found. */
  lemma {:induction false} NoBracketPast(x: string, after: string)
    requires ']' !in x && '"' !in x && CloseQuote(after) == -1
    ensures CloseBracket(QuoteBody(x) + ("\"" + after), ']') == -1
  {
    if x == "" {
      assert "" + ("\"" + after) == "\"" + after && ("\"" + after)[1..] == after;
    } else {
      assert x == [x[0]] + x[1..];
      NoBracketPast(x[1..], after);
      BracketSkipsChar(x[0], QuoteBody(x[1..]) + ("\"" + after));
      Assoc(QuoteChar(x[0]), QuoteBody(x[1..]), "\"" + after);
    }
  }

  lemma {:induction false} NothingHex(w: string)
    requires forall c | c in w :: !IsHexEscaped(c)
    ensures HexCount(w) == 0
  {
    if w != "" {
      assert w[0] in w;
      NothingHex(w[1..]);
    }
  }

  lemma {:induction false} TrimStops(w: string, c: char)
    requires c in w && !IsSeparator(c)
    ensures TrimLeftCommas(w) != ""
  {
    if IsSeparator(w[0]) {
      assert w == [w[0]] + w[1..];
      TrimStops(w[1..], c);
    }
  }

  lemma LoneSeparator()
    ensures TrimLeftCommas(SEPARATOR) != "" && HexCount(SEPARATOR) == 0
    ensures ']' !in SEPARATOR && '"' !in SEPARATOR && QuoteBody(SEPARATOR) == SEPARATOR
  {
    hide QuoteBody, HexCount, TrimLeftCommas;
    assert SEPARATOR[2] == '[';
    TrimStops(SEPARATOR, '[');
    NothingHex(SEPARATOR);
    PlainPrefix(SEPARATOR, "");
    EmptyBody();
    assert SEPARATOR + "" == SEPARATOR;
  }

  /** What follows the first argument's own quotes. */
  function AfterFirst(argv: seq<string>): string
    requires argv != []
  {
    if |argv| == 1 then CLOSING else ", " + ArgvText(argv[1..]) + CLOSING
  }

  lemma OnlyClosing(argv: seq<string>)
    requires |argv| == 1
    ensures AfterFirst(argv) == CLOSING && CloseQuote(CLOSING) == -1
  {
    QuoteFree(CLOSING);
  }

  lemma Slices(a: string, b: string, n: nat)
    requires n <= |b|
    ensures (a + b)[..|a| + n] == a + b[..n]
  {
  }

  /** The quotes of two neighbouring texts, paired the other way. */
  lemma Regroup(quote: string, a: string, b: string, c: string, end: string)
    ensures quote + (a + (quote + b + quote + c) + end) == (quote + a + quote) + (b + (quote + (c + end)))
  {
  }

  lemma PairsText(argv: seq<string>)
    requires argv != []
    ensures "\"" + AfterPath(argv) == Quote(SEPARATOR) + (QuoteBody(argv[0]) + ("\"" + AfterFirst(argv)))
  {
    LoneSeparator();
    var q, more := QuoteBody(argv[0]), if |argv| == 1 then "" else ", " + ArgvText(argv[1..]);
    assert ArgvText(argv) == "\"" + q + "\"" + more;
    Regroup("\"", SEPARATOR, q, more, CLOSING);
    assert AfterFirst(argv) == more + CLOSING;
    hide QuoteBody, SEPARATOR, CLOSING, AfterFirst;
  }

  /** If the first argument reads like what stands between two arguments, it is not the only one. */
  lemma SeparatorIsNotAll(argv: seq<string>)
    requires argv != []
    ensures var inner := QuoteBody(argv[0]) + ("\"" + AfterFirst(argv));
      var end := CloseBracket(inner, ']');
      end >= 0 ==> [SEPARATOR] + ArgvOf(inner[..end]) != argv
  {
    hide QuoteBody, ArgvOf, CloseBracket, TrimLeftCommas, CLOSING, SEPARATOR, AfterFirst;
    LoneSeparator();
    var after := "\"" + AfterFirst(argv);
    var inner := QuoteBody(argv[0]) + after;
    var end := CloseBracket(inner, ']');
    if end >= 0 && argv[0] == SEPARATOR {
      NoArguments(SEPARATOR, after, end);
      if |argv| == 1 {
        OnlyClosing(argv);
        NoBracketPast(SEPARATOR, CLOSING);
      }
    }
  }

  /** The quotes are paired the wrong way round, and the first pair does not hold the first argument alone. */
  lemma WrongPairs(argv: seq<string>)
    requires argv != []
    ensures var t := "\"" + AfterPath(argv);
      var end := CloseBracket(t, ']');
      end >= 0 ==> ArgvOf(t[..end]) != argv
  {
    hide AfterPath, QuoteBody, ArgvOf, CloseBracket, Unescape, HexCount, TrimLeftCommas, SEPARATOR, CLOSING, AfterFirst;
    hide Quote;
    var q, inner := Quote(SEPARATOR), QuoteBody(argv[0]) + ("\"" + AfterFirst(argv));
    PairsText(argv);
    BracketSkipsQuoted(SEPARATOR, inner);
    SeparatorIsNotAll(argv);
    var end := CloseBracket(inner, ']');
    if end >= 0 {
      Slices(q, inner, end);
      ArgvOfQuoted(SEPARATOR, inner[..end]);
      LoneSeparator();
      UnescapeUndoesQuote(SEPARATOR);
    }
  }

  lemma ListOfSeparators(x: string, argv: seq<string>)
    requires TrimLeftCommas(x) == "" && argv != []
    ensures var t := QuoteBody(x) + ("\"" + AfterPath(argv));
      var end := CloseBracket(t, ']');
      end >= 0 ==> ArgvOf(t[..end]) != argv
  {
    hide AfterPath, QuoteBody, CloseBracket, ArgvOf, TrimLeftCommas;
    var after := "\"" + AfterPath(argv);
    SeparatorsSkipped(x, after);
    WrongPairs(argv);
    var end := CloseBracket(after, ']');
    if end >= 0 {
      Slices(x, after, end);
      SeparatorsSkipped(x, after[..end]);
    }
  }

  lemma EmptyArgv()
    ensures AfterPath([]) == NO_ARGUMENTS && CloseBracket(NO_ARGUMENTS, ']') >= 0 && CloseQuote(NO_ARGUMENTS) == -1
  {
    NoArgumentsClose();
    assert SEPARATOR + "" == SEPARATOR;
  }

  /** The text after the bracket of a path that begins with one. */
  lemma ListPath(x: string, argv: seq<string>)
    ensures var t := QuoteBody(x) + ("\"" + AfterPath(argv));
      var end := CloseBracket(t, ']');
      end >= 0 && ArgvOf(t[..end]) == argv <==> argv == [] && (']' in x || '"' in x)
  {
    hide *;
    var after := "\"" + AfterPath(argv);
    var end := CloseBracket(QuoteBody(x) + after, ']');
    if argv == [] {
      EmptyArgv();
      BracketPast(x, NO_ARGUMENTS);
      Assoc(QuoteBody(x), "\"", NO_ARGUMENTS);
    }
    if TrimLeftCommas(x) == "" {
      SeparatorsSkipped(x, after);
      if argv != [] {
        ListOfSeparators(x, argv);
      }
    } else if end >= 0 {
      NoArguments(x, after, end);
    }
  }

  lemma BracketedList(t: string)
    ensures ListAt("[" + t) == if CloseBracket(t, ']') < 0 then None else Some(ArgvOf(t[..CloseBracket(t, ']')]))
  {
    hide ArgvOf, CloseBracket;
    assert ("[" + t)[1..] == t;
    var end := CloseBracket(t, ']');
    if end >= 0 {
      assert ("[" + t)[1..end + 1] == t[..end];
    }
  }

  lemma BracketIsPlain(x: string, after: string)
    ensures QuoteBody("[" + x) + "\"" + after == "[" + (QuoteBody(x) + ("\"" + after))
  {
    assert ("[" + x)[1..] == x;
    assert QuoteBody("[" + x) == "[" + QuoteBody(x);
    hide QuoteBody;
  }

  lemma OpenedList(x: string, argv: seq<string>)
    ensures ListAt(QuoteBody("[" + x) + "\"" + AfterPath(argv)) == Some(argv) <==> argv == [] && (']' in x || '"' in x)
  {
    hide *;
    BracketIsPlain(x, AfterPath(argv));
    ListPath(x, argv);
    BracketedList(QuoteBody(x) + ("\"" + AfterPath(argv)));
  }

  lemma NoListOpened(p: string, after: string)
    requires p == "" || p[0] != '['
    ensures ListAt(QuoteBody(p) + "\"" + after) == None
  {
    hide CloseBracket, ArgvOf;
    if p != "" {
      assert (QuoteBody(p) + "\"" + after)[0] == QuoteChar(p[0])[0];
    }
  }

  /** A path taken for the arguments: it has to begin with a bracket, and the vector only agrees if it is empty. */
  lemma PathAsList(p: string, argv: seq<string>)
    ensures var r := ListAt(QuoteBody(p) + "\"" + AfterPath(argv));
      && (p == "" || p[0] != '[' ==> r == None)
      && (r == Some(argv) <==> argv == [] && p != "" && p[0] == '[' && (']' in p || '"' in p))
  {
    hide *;
    if p == "" || p[0] != '[' {
      NoListOpened(p, AfterPath(argv));
    } else {
      OpenedList(p[1..], argv);
      assert p == "[" + p[1..];
    }
  }

  /** From a mention that ends the cwd, the parser takes everything up to the path for the path. */
  lemma PathMisplaced(path: string, argv: seq<string>)
    ensures AfterCall("\"  " + CALL + Tail(path, argv)) == ListAt(QuoteBody(TrimLeftCommas(path)) + "\"" + AfterPath(argv))
  {
    hide ListAt, Tail, QuoteBody, TrimLeftCommas, AfterPath, CloseQuote;
    var t := QuoteBody(path) + "\"" + AfterPath(argv);
    var rest := "\"  " + CALL + Tail(path, argv);
    TailCut(path, argv);
    TrimQuoted(path, AfterPath(argv));
    assert rest == "\"" + ("  " + CALL + "\"" + t) && rest[1..] == "  " + CALL + "\"" + t;
    CloseQuoteAfter("  " + CALL, t);
    assert rest == ("\"" + ("  " + CALL) + "\"") + t;
    Cut("\"" + ("  " + CALL) + "\"", t);
  }

  lemma HeadJoin(d: string, body: string)
    ensures d + ("cwd:" + ("\"" + body + "\"") + "  ") == d + ANNOTATION + body + "\"  "
  {
    var quoted := "\"" + body + "\"";
    assert "cwd:" + quoted + "  " == ANNOTATION + (body + "\"  ");
    Assoc(d, ANNOTATION, body + "\"  ");
  }

  lemma QuietPrefix(pid: nat)
    ensures 'e' !in Decimal(pid) + "  " + ANNOTATION
  {
    DecimalDigits(pid);
    hide Decimal;
  }

  lemma HeadCut(pid: nat, cwd: string)
    requires cwd != ""
    ensures Head(pid, cwd) == Decimal(pid) + "  " + ANNOTATION + QuoteBody(cwd) + "\"  "
    ensures 'e' !in Decimal(pid) + "  " + ANNOTATION
  {
    hide QuoteBody, Decimal, ANNOTATION;
    HeadJoin(Decimal(pid) + "  ", QuoteBody(cwd));
    QuietPrefix(pid);
  }

  lemma NoCwdIsQuiet(pid: nat)
    ensures !Contains(Head(pid, ""), CALL)
  {
    DecimalDigits(pid);
    QuietText(Head(pid, ""));
  }

  lemma Regrouped(a: string, b: string, c: string, d: string)
    ensures a + b + c + d == a + b + (c + d)
    ensures a + b + c + d == a + (b + c + d)
  {
  }

  lemma CallFits(s: string)
    requires Contains(s, CALL)
    ensures 0 <= Index(s, CALL) && Index(s, CALL) + 7 <= |s|
  {
  }

  lemma RestOf(a: string, b: string, c: string, n: nat)
    requires n <= |b|
    ensures (a + b + c)[|a| + n..] == b[n..] + c
  {
  }

  /** What the parser works on when the cwd mentions the call. */
  lemma RestOfNoisy(before: string, body: string, tail: string)
    requires 'e' !in before && Contains(body, CALL)
    ensures var line := before + body + "\"  " + CALL + tail;
      && Index(line, CALL) == |before| + Index(body, CALL)
      && line[|before| + Index(body, CALL) + 7..] == body[Index(body, CALL) + 7..] + ("\"  " + CALL + tail)
  {
    hide *;
    MentionInHead(before, body);
    IndexExtends(before + body + "\"  ", CALL + tail, CALL);
    Regrouped(before + body, "\"  ", CALL, tail);
    CallFits(body);
    RestOf(before, body, "\"  " + CALL + tail, Index(body, CALL) + 7);
  }

  /** What follows a mention in a quoted text is no quote. */
  lemma NoQuoteAfterCall(cwd: string, p: nat)
    requires OccursAt(QuoteBody(cwd), CALL, p) && p + 7 < |QuoteBody(cwd)|
    ensures QuoteBody(cwd)[p + 7] != '"'
  {
    assert QuoteBody(cwd)[p..p + 7][6] == CALL[6];
    if QuoteBody(cwd)[p + 7] == '"' {
      QuotesAreEscaped(cwd, p + 7);
    }
  }

  lemma ReadFrom(line: string)
    requires SaysSuccess(line) && Index(line, CALL) >= 0
    ensures ExecveArgv(line) == if Marked(line) then None else AfterCall(line[Index(line, CALL) + 7..])
  {
  }

  /** What the parser makes of it: nothing, unless the mention ends the cwd. */
  lemma RestIsRead(cwd: string, path: string, argv: seq<string>)
    requires Contains(QuoteBody(cwd), CALL)
    ensures AfterCall(QuoteBody(cwd)[Index(QuoteBody(cwd), CALL) + 7..] + ("\"  " + CALL + Tail(path, argv))) ==
        if !EndsInCall(cwd) then None else ListAt(QuoteBody(TrimLeftCommas(path)) + "\"" + AfterPath(argv))
  {
    hide QuoteBody, ListAt, Tail;
    var body, rest := QuoteBody(cwd), "\"  " + CALL + Tail(path, argv);
    var p := Index(body, CALL);
    if p + 7 < |body| {
      NoQuoteAfterCall(cwd, p);
    } else {
      hide AfterCall;
      PathMisplaced(path, argv);
      assert body[p + 7..] + rest == rest;
    }
  }

  lemma NoisyLine(pid: nat, cwd: string, path: string, argv: seq<string>)
    requires Contains(Head(pid, cwd), CALL)
    ensures var line, body := LineText(pid, cwd, path, argv), QuoteBody(cwd);
      && Contains(body, CALL) && Index(line, CALL) >= 0
      && line[Index(line, CALL) + 7..] == body[Index(body, CALL) + 7..] + ("\"  " + CALL + Tail(path, argv))
  {
    NoCwdIsQuiet(pid);
    hide Head, Tail, QuoteBody, Decimal, ANNOTATION;
    HeadCut(pid, cwd);
    var before := Decimal(pid) + "  " + ANNOTATION;
    MentionInHead(before, QuoteBody(cwd));
    RestOfNoisy(before, QuoteBody(cwd), Tail(path, argv));
  }

  lemma NoisyRead(pid: nat, cwd: string, path: string, argv: seq<string>)
    requires Contains(Head(pid, cwd), CALL)
    ensures var line := LineText(pid, cwd, path, argv);
      ExecveArgv(line) ==
        if Marked(line) || !EndsInCall(cwd) then None
        else ListAt(QuoteBody(TrimLeftCommas(path)) + "\"" + AfterPath(argv))
  {
    hide *;
    LineSaysZero(pid, cwd, path, argv);
    NoisyLine(pid, cwd, path, argv);
    RestIsRead(cwd, path, argv);
    ReadFrom(LineText(pid, cwd, path, argv));
  }

  lemma {:induction false} QuietRead(pid: nat, cwd: string, path: string, argv: seq<string>)
    requires !Contains(Head(pid, cwd), CALL)
    ensures var line := LineText(pid, cwd, path, argv);
      ExecveArgv(line) == if Marked(line) then None else Some(Unescaped(argv))
  {
    hide Head, Tail, AfterCall, Unescaped;
    var line := LineText(pid, cwd, path, argv);
    CallFound(Head(pid, cwd), Tail(path, argv));
    Cut(Head(pid, cwd) + CALL, Tail(path, argv));
    AfterCallOfTail(path, argv);
    LineSaysZero(pid, cwd, path, argv);
  }

  /** A path that, after separators, opens a list and closes it or opens a quote. */
  predicate LooksLikeList(path: string) {
    var p := TrimLeftCommas(path);
    p != "" && p[0] == '[' && (']' in p || '"' in p)
  }

  /**
   Main result on arguments, for every pid, cwd, path and argument vector.  The parser returns the
   very argument vector if and only if the line holds no resumption marker and
   - the text before the call does not mention execve( and no argument holds a byte that has to be
     written in hexadecimal, or
   - the first such mention ends the cwd, so that the path is taken for the arguments; there are no
     arguments, and the path reads as a list.
   */
  lemma {:induction false} ParseUndoesEmit(pid: nat, cwd: string, path: string, argv: seq<string>)
    ensures var line := LineText(pid, cwd, path, argv);
      ExecveArgv(line) == Some(argv) <==>
        && !Marked(line)
        && if Contains(Head(pid, cwd), CALL) then argv == [] && EndsInCall(cwd) && LooksLikeList(path)
           else forall a | a in argv :: HexCount(a) == 0
  {
    hide Head, Unescaped, HexCount, Marked, LineText;
    if Contains(Head(pid, cwd), CALL) {
      NoisyRead(pid, cwd, path, argv);
      PathAsList(TrimLeftCommas(path), argv);
    } else {
      QuietRead(pid, cwd, path, argv);
      UnescapedIsIdentity(argv);
    }
  }

  /** What comes back otherwise: the unescaped arguments, or nothing unless the path opens a list. */
  lemma ParsedOtherwise(pid: nat, cwd: string, path: string, argv: seq<string>)
    ensures var line := LineText(pid, cwd, path, argv);
      && (!Contains(Head(pid, cwd), CALL) ==> ExecveArgv(line) == if Marked(line) then None else Some(Unescaped(argv)))
      && (Contains(Head(pid, cwd), CALL) && !(EndsInCall(cwd) && HasPrefix(TrimLeftCommas(path), "[")) ==>
            ExecveArgv(line) == None)
  {
    hide Head, Unescaped, HexCount, Marked, LineText;
    if Contains(Head(pid, cwd), CALL) {
      NoisyRead(pid, cwd, path, argv);
      PathAsList(TrimLeftCommas(path), argv);
    } else {
      QuietRead(pid, cwd, path, argv);
    }
  }

  /** The side condition in terms of the cwd alone: a printable cwd is mentioned from exactly when it holds execve(. */
  lemma HeadIsQuiet(pid: nat, cwd: string)
    requires HexCount(cwd) == 0
    ensures Contains(Head(pid, cwd), CALL) <==> Contains(cwd, CALL)
  {
    NoCwdIsQuiet(pid);
    if cwd != "" {
      HeadCut(pid, cwd);
      MentionInHead(Decimal(pid) + "  " + ANNOTATION, QuoteBody(cwd));
      if p :| 0 <= p <= |cwd| && OccursAt(cwd, CALL, p) {
        MentionIsQuoted(cwd, p);
      } else if p :| 0 <= p <= |QuoteBody(cwd)| && OccursAt(QuoteBody(cwd), CALL, p) {
        QuotedMention(cwd, p);
      }
    }
  }

  /** A directory whose name mentions the call: no line of a process in it is read, whatever it executes. */
  lemma {:induction false} MentioningCwdIsRefused(pid: nat, path: string, argv: seq<string>)
    ensures ExecveArgv(LineText(pid, "/execve(1)", path, argv)) == None
  {
    var cwd := "/execve(1)";
    assert cwd[1..8] == CALL;
    assert OccursAt(cwd, CALL, 1);
    PlainPrefix(cwd, "");
    assert cwd + "" == cwd;
    MentionIsQuoted(cwd, 1);
    HeadCut(pid, cwd);
    MentionInHead(Decimal(pid) + "  " + ANNOTATION, QuoteBody(cwd));
    ParsedOtherwise(pid, cwd, path, argv);
  }

  /** The path `[]`, taken for the arguments. */
  lemma EmptyListRead(after: string)
    ensures ListAt(QuoteBody(TrimLeftCommas("[]")) + "\"" + after) == Some([])
  {
    PlainPrefix("[]", "");
    assert "[]" + "" == "[]";
    var t := "]" + ("\"" + after);
    assert QuoteBody("[]") + "\"" + after == "[" + t;
    assert ("[" + t)[1..] == t && ("[" + t)[1..1] == "";
    assert CloseBracket(t, ']') == 0 && ArgvOf("") == [];
  }

  /** And one that ends in it, where a path `[]` is read as the empty argument vector. */
  lemma {:induction false} PathReadAsArguments(pid: nat, argv: seq<string>)
    ensures var line := LineText(pid, "/execve(", "[]", argv);
      !Marked(line) ==> ExecveArgv(line) == Some([])
  {
    var cwd := "/execve(";
    assert cwd[1..8] == CALL && cwd[0] != CALL[0];
    assert OccursAt(cwd, CALL, 1);
    NotAt(cwd, CALL, 0, 0);
    IndexIs(cwd, CALL, 1);
    PlainPrefix(cwd, "");
    assert cwd + "" == cwd;
    MentionIsQuoted(cwd, 1);
    HeadCut(pid, cwd);
    MentionInHead(Decimal(pid) + "  " + ANNOTATION, QuoteBody(cwd));
    EmptyListRead(AfterPath(argv));
    hide QuoteBody, ListAt, TrimLeftCommas, Head, LineText, Decimal, Index;
    NoisyRead(pid, cwd, "[]", argv);
  }
}
