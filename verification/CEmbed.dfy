/**
 cmd/cc-embed/main.go: embedding bytes in C source, and reading the generated initializers
 back by the rules of ISO/IEC 9899:2018 (5.1.1.2, 6.4.4.4, 6.4.5), without trigraphs.
 */
module CEmbed {
  import opened Decimals
  import opened Options
  import opened Sequences
  import opened Text

  newtype Byte = x: int | 0 <= x < 256

  const NEWLINE: Byte := 10

  // ------------------------------------------------------------- the escaper

  function OctalDigit(n: int): char
    requires 0 <= n < 8
  {
    '0' + n as char
  }

  /** \%03o */
  function Octal(c: Byte): string {
    var n := c as int;
    ['\\', OctalDigit(n / 64), OctalDigit(n / 8 % 8), OctalDigit(n % 8)]
  }

  function EscapeByte(c: Byte): string {
    if c == 92 then "\\\\"
    else if c == 34 then "\\\""
    else if c == 10 then "\\n\"\n\""
    else if c == 13 then "\\r"
    else if c == 9 then "\\t"
    else if c < 0x20 || c >= 0x7f then Octal(c)
    else [c as int as char]
  }

  function Escape(data: seq<Byte>): string {
    if data == [] then "" else EscapeByte(data[0]) + Escape(data[1..])
  }

  lemma {:induction false} EscapeStep(data: seq<Byte>, i: nat)
    requires i < |data|
    ensures Escape(data[..i + 1]) == Escape(data[..i]) + EscapeByte(data[i])
    decreases i
  {
    var prefix := data[..i + 1];
    if i == 0 {
      assert prefix[1..] == [] && Escape([]) == "";
    } else {
      EscapeStep(data[1..], i - 1);
      assert prefix[1..] == data[1..][..i] && data[..i][1..] == data[1..][..i - 1];
    }
  }

  /** escapeCString */
  method EscapeCString(data: seq<Byte>) returns (b: string)
    ensures b == Escape(data)
  {
    b := "";
    for i := 0 to |data|
      invariant b == Escape(data[..i])
    {
      EscapeStep(data, i);
      var c := data[i];
      if c == 92 {
        b := b + "\\\\";
      } else if c == 34 {
        b := b + "\\\"";
      } else if c == 10 {
        b := b + "\\n\"\n\"";
      } else if c == 13 {
        b := b + "\\r";
      } else if c == 9 {
        b := b + "\\t";
      } else if c < 0x20 || c >= 0x7f {
        b := b + Octal(c);
      } else {
        b := b + [c as int as char];
      }
    }
    WholePrefix(data);
  }

  // ------------------------------------------------------------- reading C string literals

  /** Translation phase 2: a backslash before a newline joins two physical lines. */
  function Splice(s: string): string {
    if s == "" then ""
    else if HasPrefix(s, "\\\n") then Splice(s[2..])
    else [s[0]] + Splice(s[1..])
  }

  datatype EscapeSequence = Reads(value: int, width: nat) | Malformed

  predicate IsOctal(c: char) { '0' <= c <= '7' }

  predicate IsHex(c: char) { '0' <= c <= '9' || 'a' <= c <= 'f' || 'A' <= c <= 'F' }

  function HexValueOf(c: char): (v: int)
    requires IsHex(c)
    ensures 0 <= v < 16
  {
    if c <= '9' then (c - '0') as int else if c >= 'a' then (c - 'a') as int + 10 else (c - 'A') as int + 10
  }

  /** How many hexadecimal digits the text begins with. */
  function HexRun(s: string): (n: nat)
    ensures n <= |s| && (n < |s| ==> !IsHex(s[n])) && forall i | 0 <= i < n :: IsHex(s[i])
  {
    if s == "" || !IsHex(s[0]) then 0 else 1 + HexRun(s[1..])
  }

  function HexValue(s: string): (v: int)
    requires forall i | 0 <= i < |s| :: IsHex(s[i])
    ensures v >= 0
  {
    if s == "" then 0 else HexValue(s[..|s| - 1]) * 16 + HexValueOf(s[|s| - 1])
  }

  /** An octal escape takes one, two or three digits, as many as there are (6.4.4.4). */
  function OctalEscape(s: string): EscapeSequence
    requires s != "" && IsOctal(s[0])
  {
    var a := (s[0] - '0') as int;
    if |s| < 2 || !IsOctal(s[1]) then Reads(a, 1)
    else
      var b := (s[1] - '0') as int;
      if |s| < 3 || !IsOctal(s[2]) then Reads(a * 8 + b, 2)
      else Reads(a * 64 + b * 8 + (s[2] - '0') as int, 3)
  }

  /** The escape sequence after a backslash (6.4.4.4). */
  function EscapeSequenceAt(s: string): EscapeSequence {
    if s == "" then Malformed
    else if s[0] in "'\"?\\" then Reads(s[0] as int, 1)
    else if s[0] == 'a' then Reads(7, 1)
    else if s[0] == 'b' then Reads(8, 1)
    else if s[0] == 'f' then Reads(12, 1)
    else if s[0] == 'n' then Reads(10, 1)
    else if s[0] == 'r' then Reads(13, 1)
    else if s[0] == 't' then Reads(9, 1)
    else if s[0] == 'v' then Reads(11, 1)
    else if IsOctal(s[0]) then OctalEscape(s)
    else if s[0] == 'x' && HexRun(s[1..]) > 0 then
      Reads(HexValue(s[1..][..HexRun(s[1..])]), 1 + HexRun(s[1..]))
    else Malformed
  }

  function Prepend(c: Byte, rest: Option<seq<Byte>>): Option<seq<Byte>> {
    if rest.None? then None else Some([c] + rest.value)
  }

  /** Between literals: white space, then a literal or the end.  Adjacent literals concatenate. */
  function Outside(s: string, seen: bool): Option<seq<Byte>>
    decreases |s|
  {
    if s == "" then if seen then Some([]) else None
    else if IsSpace(s[0]) then Outside(s[1..], seen)
    else if s[0] == '"' then Inside(s[1..])
    else None
  }

  /** Inside a literal (6.4.5): a newline may not occur, an escape must fit a byte. */
  function Inside(s: string): Option<seq<Byte>>
    decreases |s|
  {
    if s == "" || s[0] == '\n' then None
    else if s[0] == '"' then Outside(s[1..], true)
    else if s[0] == '\\' then
      var e := EscapeSequenceAt(s[1..]);
      if e.Malformed? || e.value >= 256 || 1 + e.width > |s| then None
      else Prepend(e.value as Byte, Inside(s[1 + e.width..]))
    else if ' ' <= s[0] <= '~' then Prepend(s[0] as int as Byte, Inside(s[1..]))
    else None
  }

  /** The bytes a string initializer stands for. */
  function Decode(s: string): Option<seq<Byte>> {
    Outside(Splice(s), false)
  }

  // ------------------------------------------------------------- decoding undoes escaping

  function Quoted(data: seq<Byte>): string {
    "\"" + Escape(data) + "\""
  }

  lemma OctalDigits(c: Byte, t: string)
    ensures EscapeSequenceAt(Octal(c)[1..] + t) == Reads(c as int, 3)
  {
    var n := c as int;
    var s := Octal(c)[1..] + t;
    assert s[0] == OctalDigit(n / 64) && s[1] == OctalDigit(n / 8 % 8) && s[2] == OctalDigit(n % 8);
    assert n == n / 64 * 64 + n / 8 % 8 * 8 + n % 8;
  }

  lemma InsideOctal(c: Byte, t: string)
    ensures Inside(Octal(c) + t) == Prepend(c, Inside(t))
  {
    OctalDigits(c, t);
    var s := Octal(c) + t;
    assert s[1..] == Octal(c)[1..] + t && s[4..] == t && s[0] == '\\';
    hide Octal, EscapeSequenceAt;
  }

  lemma NextLiteral(t: string)
    ensures Inside("\"\n\"" + t) == Inside(t)
  {
    var u := "\"\n\"" + t;
    assert u[1..] == "\n\"" + t && u[1..][1..] == "\"" + t && u[1..][1..][1..] == t;
    assert Inside(u) == Outside(u[1..], true) == Outside(u[1..][1..], true) == Inside(t);
  }

  /** A newline ends the literal, and the next line opens another. */
  lemma InsideNewline(t: string)
    ensures Inside("\\n\"\n\"" + t) == Prepend(NEWLINE, Inside(t))
  {
    hide Outside, OctalEscape;
    var s, u := "\\n\"\n\"" + t, "\"\n\"" + t;
    NextLiteral(t);
    assert s[2..] == u && s[1..][0] == 'n';
    assert EscapeSequenceAt(s[1..]) == Reads(10, 1);
  }

  /** Each byte's escape is read back as that byte, whatever follows it. */
  lemma InsideStep(c: Byte, t: string)
    ensures Inside(EscapeByte(c) + t) == Prepend(c, Inside(t))
  {
    hide Octal, OctalDigit;
    var s := EscapeByte(c) + t;
    if c == NEWLINE {
      InsideNewline(t);
    } else if EscapeByte(c) == Octal(c) {
      InsideOctal(c, t);
    } else if s[0] == '\\' {
      assert s[1..][0] == EscapeByte(c)[1];
      assert s[2..] == t;
    } else {
      assert s[1..] == t;
    }
  }

  lemma {:induction false} InsideEscaped(data: seq<Byte>, t: string)
    requires Inside(t) == Some([])
    ensures Inside(Escape(data) + t) == Some(data)
    decreases data
  {
    if data == [] {
      assert Escape(data) + t == t;
    } else {
      InsideEscaped(data[1..], t);
      InsideStep(data[0], Escape(data[1..]) + t);
      Assoc(EscapeByte(data[0]), Escape(data[1..]), t);
      assert data == [data[0]] + data[1..];
    }
  }

  lemma {:induction false} SpliceChars(e: string, t: string)
    requires t == "" || t[0] != '\n'
    requires forall i | 0 <= i < |e| - 1 :: !(e[i] == '\\' && e[i + 1] == '\n')
    ensures Splice(e + t) == e + Splice(t)
  {
    if e == "" {
      assert e + t == t;
    } else {
      assert (e + t)[1..] == e[1..] + t;
      if |e + t| > 1 {
        NotAt(e + t, "\\\n", 0, if e[0] == '\\' then 1 else 0);
      }
      SpliceChars(e[1..], t);
    }
  }

  /** Nothing the escaper writes is a line splice. */
  lemma {:induction false} SpliceStep(c: Byte, t: string)
    requires t != "" && t[0] != '\n'
    ensures Splice(EscapeByte(c) + t) == EscapeByte(c) + Splice(t)
  {
    var e := EscapeByte(c);
    SpliceChars(e, t);
  }

  lemma {:induction false} SpliceEscaped(data: seq<Byte>)
    ensures Splice(Escape(data) + "\"") == Escape(data) + "\""
    ensures (Escape(data) + "\"")[0] != '\n'
    decreases data
  {
    if data == [] {
      SpliceChars("\"", "");
    } else {
      SpliceEscaped(data[1..]);
      SpliceStep(data[0], Escape(data[1..]) + "\"");
      Assoc(EscapeByte(data[0]), Escape(data[1..]), "\"");
    }
  }

  /** Main result in string mode: the initializer decodes to the input, for every input. */
  lemma DecodeUndoesEscape(data: seq<Byte>)
    ensures Decode(Quoted(data)) == Some(data)
  {
    SpliceEscaped(data);
    var body := Escape(data) + "\"";
    assert Quoted(data) == "\"" + body;
    SpliceChars("\"", body);
    assert ("\"" + body)[1..] == body;
    assert "\""[1..] == "";
    InsideEscaped(data, "\"");
  }

  // ------------------------------------------------------------- physical lines

  /** The text cut at its newlines, which are dropped. */
  function Lines(s: string): (r: seq<string>)
    ensures r != []
  {
    if s == "" then [""]
    else
      var rest := Lines(s[1..]);
      if s[0] == '\n' then [""] + rest else [[s[0]] + rest[0]] + rest[1..]
  }

  /** The data cut after its newlines, which are kept. */
  function DataLines(data: seq<Byte>): (r: seq<seq<Byte>>)
    ensures r != []
  {
    if data == [] then [[]]
    else
      var rest := DataLines(data[1..]);
      if data[0] == NEWLINE then [[NEWLINE]] + rest else [[data[0]] + rest[0]] + rest[1..]
  }

  lemma {:induction false} LinesPrefix(e: string, t: string)
    requires '\n' !in e
    ensures Lines(e + t) == [e + Lines(t)[0]] + Lines(t)[1..]
  {
    if e == "" {
      assert e + t == t && "" + Lines(t)[0] == Lines(t)[0];
    } else {
      assert (e + t)[1..] == e[1..] + t;
      assert e[0] in e;
      LinesPrefix(e[1..], t);
      assert [e[0]] + (e[1..] + Lines(t)[0]) == e + Lines(t)[0];
    }
  }

  /** The lines of an open literal, against the lines of the data. */
  ghost predicate LineByLine(lines: seq<string>, data: seq<seq<Byte>>) {
    && |lines| == |data| > 0
    && Inside(lines[0]) == Some(data[0])
    && forall i | 0 < i < |lines| :: Outside(lines[i], false) == Some(data[i])
  }

  lemma ClosingNewline()
    ensures Inside(['\\', 'n', '"']) == Some([NEWLINE])
  {
    var s := ['\\', 'n', '"'];
    assert s[1..][0] == 'n' && s[2..] == "\"" && "\""[1..] == "";
    assert Inside("\"") == Outside("", true) == Some([]);
    assert EscapeSequenceAt(s[1..]) == Reads(10, 1);
    assert [NEWLINE] + [] == [NEWLINE];
    assert Inside(s) == Prepend(NEWLINE, Inside("\""));
  }

  lemma NewlineCuts(t: string)
    ensures Lines(EscapeByte(NEWLINE) + t) == [['\\', 'n', '"'], "\"" + Lines(t)[0]] + Lines(t)[1..]
  {
    var u := "\"" + t;
    LinesPrefix("\"", t);
    assert ("\n" + u)[1..] == u;
    assert Lines("\n" + u) == [""] + Lines(u);
    LinesPrefix("\\n\"", "\n" + u);
    assert EscapeByte(NEWLINE) + t == "\\n\"" + ("\n" + u);
    assert "\\n\"" + "" == ['\\', 'n', '"'];
  }

  lemma NewlineLines(t: string, rest: seq<seq<Byte>>)
    requires LineByLine(Lines(t), rest)
    ensures LineByLine(Lines(EscapeByte(NEWLINE) + t), [[NEWLINE]] + rest)
  {
    hide Lines, EscapeByte, Inside;
    NewlineCuts(t);
    ClosingNewline();
    var lines := Lines(EscapeByte(NEWLINE) + t);
    assert lines[1][1..] == Lines(t)[0];
    assert forall i | 1 < i < |lines| :: lines[i] == Lines(t)[i - 1];
  }

  lemma PlainLines(c: Byte, t: string, rest: seq<seq<Byte>>)
    requires c != NEWLINE && LineByLine(Lines(t), rest)
    ensures LineByLine(Lines(EscapeByte(c) + t), [[c] + rest[0]] + rest[1..])
  {
    LinesPrefix(EscapeByte(c), t);
    InsideStep(c, Lines(t)[0]);
  }

  lemma {:induction false} EscapedLines(data: seq<Byte>)
    ensures LineByLine(Lines(Escape(data) + "\""), DataLines(data))
    decreases data
  {
    if data == [] {
      assert Escape(data) + "\"" == "\"";
      assert "\""[1..] == "" && Lines("") == [""];
      assert Lines("\"") == [['"'] + ""] + [];
    } else {
      var t := Escape(data[1..]) + "\"";
      EscapedLines(data[1..]);
      Assoc(EscapeByte(data[0]), Escape(data[1..]), "\"");
      assert Escape(data) + "\"" == EscapeByte(data[0]) + t;
      if data[0] == NEWLINE {
        NewlineLines(t, DataLines(data[1..]));
      } else {
        PlainLines(data[0], t, DataLines(data[1..]));
      }
    }
  }

  lemma {:induction false} LinesHaveNoNewline(s: string)
    ensures forall i | 0 <= i < |Lines(s)| :: '\n' !in Lines(s)[i]
  {
    if s != "" {
      LinesHaveNoNewline(s[1..]);
    }
  }

  lemma NoNewlineNoSplice(s: string)
    requires '\n' !in s
    ensures Splice(s) == s
  {
    assert s + "" == s;
    SpliceChars(s, "");
  }

  /** Every physical line of the initializer is itself a complete literal: that of one line of data. */
  lemma EveryLineIsALiteral(data: seq<Byte>)
    ensures |Lines(Quoted(data))| == |DataLines(data)|
    ensures forall i | 0 <= i < |Lines(Quoted(data))| ::
      Decode(Lines(Quoted(data))[i]) == Some(DataLines(data)[i])
  {
    var body := Escape(data) + "\"";
    assert Quoted(data) == "\"" + body;
    EscapedLines(data);
    LinesPrefix("\"", body);
    LinesHaveNoNewline(Quoted(data));
    var lines := Lines(Quoted(data));
    assert lines[0] == "\"" + Lines(body)[0] && lines[0][1..] == Lines(body)[0];
    forall i | 0 <= i < |lines|
      ensures Decode(lines[i]) == Some(DataLines(data)[i])
    {
      NoNewlineNoSplice(lines[i]);
    }
  }

  // ------------------------------------------------------------- byte arrays

  const PER_LINE := 16

  function HexDigit(n: int): (c: char)
    requires 0 <= n < 16
    ensures IsHex(c) && HexValueOf(c) == n
  {
    if n < 10 then '0' + n as char else 'a' + (n - 10) as char
  }

  /** 0x%02x */
  function Hex(c: Byte): string {
    "0x" + [HexDigit(c as int / 16), HexDigit(c as int % 16)]
  }

  function Separator(i: nat): string {
    if i == 0 then "" else if i % PER_LINE == 0 then ",\n" else ","
  }

  /** The elements from `i` on. */
  function FormatFrom(data: seq<Byte>, i: nat): string
    requires i <= |data|
    decreases |data| - i
  {
    if i == |data| then "" else Separator(i) + Hex(data[i]) + FormatFrom(data, i + 1)
  }

  /** formatByteArray */
  method FormatByteArray(data: seq<Byte>) returns (b: string)
    ensures b == FormatFrom(data, 0)
  {
    b := "";
    for i := 0 to |data|
      invariant b + FormatFrom(data, i) == FormatFrom(data, 0)
    {
      var before := b;
      if i > 0 {
        b := b + ",";
        if i % PER_LINE == 0 {
          b := b + "\n";
        }
      }
      assert b == before + Separator(i);
      b := b + Hex(data[i]);
      Assoc(before, Separator(i), Hex(data[i]));
      Assoc(before, Separator(i) + Hex(data[i]), FormatFrom(data, i + 1));
    }
  }

  /** A brace-enclosed list of hexadecimal constants; each must fit an unsigned char. */
  function Elements(s: string): Option<seq<Byte>>
    decreases |s|
  {
    var t := TrimLeft(s);
    TrimLeftShorter(s);
    if !HasPrefix(t, "0x") then None
    else
      var n := HexRun(t[2..]);
      if n == 0 || HexValue(t[2..][..n]) >= 256 then None
      else
        var v := HexValue(t[2..][..n]) as Byte;
        var rest := TrimLeft(t[2..][n..]);
        TrimLeftShorter(t[2..][n..]);
        if rest == "" then Some([v])
        else if rest[0] == ',' then Prepend(v, Elements(rest[1..]))
        else None
  }

  function DecodeArray(s: string): Option<seq<Byte>> {
    if TrimLeft(s) == "" then Some([]) else Elements(s)
  }

  lemma HexRead(c: Byte, t: string)
    requires t == "" || !IsHex(t[0])
    ensures var s := (Hex(c) + t)[2..];
      HexRun(s) == 2 && HexValue(s[..2]) == c as int && s[2..] == t
  {
    var s := (Hex(c) + t)[2..];
    assert s == [HexDigit(c as int / 16), HexDigit(c as int % 16)] + t;
    assert s[..2][..1] == [s[0]] && s[..2][..1][..0] == "";
    assert HexValue(s[..2][..1]) == c as int / 16;
    assert s[1..][1..] == t;
  }

  lemma ElementRead(pad: string, c: Byte, t: string)
    requires AllSpace(pad) && (t == "" || t[0] == ',')
    ensures Elements(pad + (Hex(c) + t)) == if t == "" then Some([c]) else Prepend(c, Elements(t[1..]))
  {
    var body := Hex(c) + t;
    assert body[0] == '0' && body[..2] == "0x";
    TrimLeftPadding(pad, body);
    HexRead(c, t);
    assert TrimLeft(t) == t;
  }

  lemma ElementThenMore(pad: string, c: Byte, t: string, more: string, rest: seq<Byte>)
    requires AllSpace(pad) && t != "" && t[0] == ',' && t[1..] == more && Elements(more) == Some(rest)
    ensures Elements(pad + (Hex(c) + t)) == Some([c] + rest)
  {
    ElementRead(pad, c, t);
  }

  lemma SeparatorThen(i: nat, hex: string, rest: string)
    requires i > 0
    ensures (Separator(i) + hex + rest)[0] == ','
    ensures (Separator(i) + hex + rest)[1..] == (if i % PER_LINE == 0 then "\n" else "") + (hex + rest)
  {
  }

  lemma {:induction false} ElementsRead(data: seq<Byte>, i: nat, pad: string)
    requires i < |data| && AllSpace(pad)
    ensures Elements(pad + (Hex(data[i]) + FormatFrom(data, i + 1))) == Some(data[i..])
    decreases |data| - i
  {
    var t := FormatFrom(data, i + 1);
    SuffixStep(data, i);
    if i + 1 == |data| {
      ElementRead(pad, data[i], t);
    } else {
      var pad' := if (i + 1) % PER_LINE == 0 then "\n" else "";
      var hex, after := Hex(data[i + 1]), FormatFrom(data, i + 2);
      assert t == Separator(i + 1) + hex + after;
      SeparatorThen(i + 1, hex, after);
      ElementsRead(data, i + 1, pad');
      ElementThenMore(pad, data[i], t, pad' + (hex + after), data[i + 1..]);
    }
  }

  /** Main result in binary mode: the element list decodes to the bytes. */
  lemma DecodeUndoesFormat(data: seq<Byte>)
    ensures DecodeArray(FormatFrom(data, 0)) == Some(data)
  {
    if data != [] {
      var body := Hex(data[0]) + FormatFrom(data, 1);
      assert FormatFrom(data, 0) == body && "" + body == body;
      assert body[0] == '0';
      ElementsRead(data, 0, "");
    }
  }

  // ------------------------------------------------------------- the generated files

  function ArrayDeclarator(name: string, length: string): string {
    "const unsigned char " + name + "[" + length + "]"
  }

  predicate HasSuffix(s: string, suffix: string) {
    |suffix| <= |s| && s[|s| - |suffix|..] == suffix
  }

  /** Both files declare one array whose length is the number of bytes its elements decode to. */
  ghost predicate EmbedsBytes(header: string, source: string, name: string, bytes: seq<Byte>) {
    exists length, elements ::
      && DecimalValue(length) == Some(|bytes|)
      && DecodeArray(elements) == Some(bytes)
      && Contains(header, "extern const unsigned char " + name + "[" + length + "];\n")
      && HasSuffix(source, "\nconst unsigned char " + name + "[" + length + "] = {\n" + elements + "\n};\n")
  }

  ghost predicate EmbedsString(header: string, source: string, name: string, data: seq<Byte>) {
    exists literal ::
      && Decode(literal) == Some(data)
      && Contains(header, "extern const char *" + name + ";\n")
      && HasSuffix(source, "\nconst char *" + name + " =\n" + literal + ";\n")
  }

  /** A guard made from the symbol, and none that C reserves; then the include and the export macro. */
  ghost predicate Opens(opening: string, name: string, exportSymbol: string, exportHeader: string) {
    exists guard ::
      && HasSuffix(guard, name + "_h") && guard[0] != '_'
      && (name != "" && name[0] != '_' ==> guard == name + "_h")
      && opening == "#ifndef " + guard + "\n#define " + guard + "\n\n"
        + (if exportHeader != "" then "#include \"" + exportHeader + "\"\n\n" else "")
        + (if exportSymbol != "" then exportSymbol + " " else "")
  }

  /** What stands around the declaration and the definition. */
  ghost predicate Framed(header: string, source: string, name: string, headerInclude: string,
                         exportSymbol: string, exportHeader: string)
  {
    exists opening, declaration, definition ::
      && Opens(opening, name, exportSymbol, exportHeader)
      && header == opening + declaration + "\n#endif\n"
      && source == "#include \"" + headerInclude + "\"\n" + definition
  }

  lemma ContainsMiddle(a: string, b: string, c: string)
    ensures Contains(a + b + c, b)
  {
    var s := a + b + c;
    assert s[|a|..|a| + |b|] == b;
    assert OccursAt(s, b, |a|);
  }

  lemma SuffixOf(a: string, b: string)
    ensures HasSuffix(a + b, b)
  {
  }

  lemma GuardText(name: string)
    ensures HasPrefix(name + "_h", "_") <==> (name + "_h")[0] == '_'
    ensures name != "" ==> (name + "_h")[0] == name[0]
    ensures HasSuffix(name + "_h", name + "_h") && HasSuffix("CCEMBED" + (name + "_h"), name + "_h")
  {
    var guard := name + "_h";
    assert guard[..1] == [guard[0]] && "_" == ['_'];
    SuffixOf("CCEMBED", guard);
    SuffixOf("", guard);
    assert "" + guard == guard;
  }

  /** The part before the declaration. */
  method Opening(name: string, exportSymbol: string, exportHeader: string) returns (header: string)
    ensures Opens(header, name, exportSymbol, exportHeader)
  {
    GuardText(name);
    hide HasSuffix, HasPrefix;
    var guard := name + "_h";
    if HasPrefix(guard, "_") {
      guard := "CCEMBED" + guard;
    }
    header := "#ifndef " + guard + "\n#define " + guard + "\n\n";
    var inclusion := if exportHeader != "" then "#include \"" + exportHeader + "\"\n\n" else "";
    var decl := if exportSymbol != "" then exportSymbol + " " else "";
    header := header + inclusion + decl;
  }

  lemma DeclarationText(name: string, length: string)
    ensures "extern " + ArrayDeclarator(name, length) + ";\n" == "extern const unsigned char " + name + "[" + length + "];\n"
  {
    var front := "extern const unsigned char " + name + "[" + length;
    assert "extern " + ArrayDeclarator(name, length) == front + "]";
    assert front + "]" + ";\n" == front + "];\n";
  }

  lemma DefinitionText(name: string, length: string, elements: string)
    ensures "\n" + ArrayDeclarator(name, length) + " = {\n" + elements + "\n};\n"
      == "\nconst unsigned char " + name + "[" + length + "] = {\n" + elements + "\n};\n"
  {
    var front := "\nconst unsigned char " + name + "[" + length;
    assert "\n" + ArrayDeclarator(name, length) == front + "]";
    assert front + "]" + " = {\n" == front + "] = {\n";
  }

  lemma BytesEmbedded(opening: string, inclusion: string, name: string, length: string, elements: string, bytes: seq<Byte>)
    requires DecimalValue(length) == Some(|bytes|) && DecodeArray(elements) == Some(bytes)
    ensures EmbedsBytes(opening + ("extern " + ArrayDeclarator(name, length) + ";\n") + "\n#endif\n",
                        inclusion + ("\n" + ArrayDeclarator(name, length) + " = {\n" + elements + "\n};\n"), name, bytes)
  {
    hide DecimalValue, DecodeArray, ArrayDeclarator, Contains, HasSuffix;
    DeclarationText(name, length);
    DefinitionText(name, length, elements);
    ContainsMiddle(opening, "extern " + ArrayDeclarator(name, length) + ";\n", "\n#endif\n");
    SuffixOf(inclusion, "\n" + ArrayDeclarator(name, length) + " = {\n" + elements + "\n};\n");
  }

  /** The two files with an array. */
  method EncodeBytes(opening: string, inclusion: string, name: string, bytes: seq<Byte>)
    returns (header: string, source: string, ghost declaration: string, ghost definition: string)
    ensures EmbedsBytes(header, source, name, bytes)
    ensures header == opening + declaration + "\n#endif\n" && source == inclusion + definition
  {
    hide EmbedsBytes, ArrayDeclarator;
    var length := Decimal(|bytes|);
    var elements := FormatByteArray(bytes);
    DecimalRead(|bytes|);
    DecodeUndoesFormat(bytes);
    BytesEmbedded(opening, inclusion, name, length, elements, bytes);
    var declared := "extern " + ArrayDeclarator(name, length) + ";\n";
    var defined := "\n" + ArrayDeclarator(name, length) + " = {\n" + elements + "\n};\n";
    header, source := opening + declared + "\n#endif\n", inclusion + defined;
    declaration, definition := declared, defined;
  }

  /** The two files with a string. */
  method EncodeString(opening: string, inclusion: string, name: string, data: seq<Byte>)
    returns (header: string, source: string, ghost declaration: string, ghost definition: string)
    ensures EmbedsString(header, source, name, data)
    ensures header == opening + declaration + "\n#endif\n" && source == inclusion + definition
  {
    var escaped := EscapeCString(data);
    var literal := "\"" + escaped + "\"";
    DecodeUndoesEscape(data);
    var declared := "extern const char *" + name + ";\n";
    var defined := "\nconst char *" + name + " =\n" + literal + ";\n";
    ContainsMiddle(opening, declared, "\n#endif\n");
    SuffixOf(inclusion, defined);
    header, source := opening + declared + "\n#endif\n", inclusion + defined;
    declaration, definition := declared, defined;
  }

  /** encode.  With `nulTerminate` the array holds one more byte, a zero. */
  method Encode(data: seq<Byte>, name: string, headerInclude: string, binary: bool, nulTerminate: bool,
                exportSymbol: string, exportHeader: string)
    returns (header: string, source: string)
    ensures binary ==> EmbedsBytes(header, source, name, if nulTerminate then data + [0] else data)
    ensures !binary ==> EmbedsString(header, source, name, data)
    ensures Framed(header, source, name, headerInclude, exportSymbol, exportHeader)
  {
    hide EmbedsBytes, EmbedsString, Opens;
    var opening := Opening(name, exportSymbol, exportHeader);
    var inclusion := "#include \"" + headerInclude + "\"\n";
    ghost var declaration, definition;
    if binary {
      var bytes := if nulTerminate then data + [0] else data;
      header, source, declaration, definition := EncodeBytes(opening, inclusion, name, bytes);
    } else {
      header, source, declaration, definition := EncodeString(opening, inclusion, name, data);
    }
  }
}
