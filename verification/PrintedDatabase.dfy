/**
 cmd/convert-element-trace/makedb.go: a make database as `make -np` prints it, what the parser
 records of it, and where that differs from what make means.
 */
module PrintedDatabase {
  import opened MakeDatabase
  import opened Options
  import opened Sequences
  import opened Text

  datatype BodyLine = Recipe(text: string) | Note(text: string)

  datatype Item =
    | RuleItem(target: string, prereqs: seq<string>, body: seq<BodyLine>)
    | VariableItem(name: string, op: string, value: string)
    | TargetItem(targets: seq<string>, name: string, op: string, value: string)
    | CommentItem(text: string)

  function AssignmentText(name: string, op: string, value: string): string {
    name + " " + op + " " + value
  }

  function BodyText(b: BodyLine): string {
    match b
    case Recipe(text) => TAB + text
    case Note(text) => "#" + text
  }

  function BodyLines(body: seq<BodyLine>): seq<string> {
    if body == [] then [] else [BodyText(body[0])] + BodyLines(body[1..])
  }

  /** The lines of one item, ended by a blank line. */
  function ItemLines(it: Item): seq<string> {
    (match it
     case RuleItem(t, ps, body) => [t + ": " + JoinSpaced(ps)] + BodyLines(body)
     case VariableItem(n, op, v) => [AssignmentText(n, op, v)]
     case TargetItem(ts, n, op, v) => [JoinSpaced(ts) + ": " + AssignmentText(n, op, v)]
     case CommentItem(text) => ["#" + text])
    + [""]
  }

  function Print(items: seq<Item>): seq<string> {
    if items == [] then [] else ItemLines(items[0]) + Print(items[1..])
  }

  /** The bytes: every line ended by a newline. */
  function Bytes(lines: seq<string>): string {
    if lines == [] then "" else lines[0] + "\n" + Bytes(lines[1..])
  }

  /** A line a scanner gives back: no newline, no carriage return at its end, and no longer than its buffer. */
  predicate Fits(line: string) {
    '\n' !in line && (line == "" || line[|line| - 1] != '\r') && |line| < MAX_LINE
  }

  /** A target as explicit rules spell it: one word, no pattern, no operator, no comment sign. */
  ghost predicate PlainTarget(t: string) {
    IsToken(t) && t[0] != '#' && '%' !in t && forall c | c in t :: !OperatorChar(c)
  }

  /** What the grammar of the printed database asks of an item's text. */
  ghost predicate WellSpelled(it: Item) {
    match it
    case RuleItem(t, ps, _) =>
      PlainTarget(t) && (forall p | p in ps :: IsToken(p)) && LeftmostReading(JoinSpaced(ps)).None?
    case VariableItem(n, op, v) => IsMakeIdent(n) && IsOperator(op) && Trimmed(v)
    case TargetItem(ts, n, op, v) =>
      ts != [] && (forall t | t in ts :: PlainTarget(t)) && IsMakeIdent(n) && IsOperator(op) && Trimmed(v)
    case CommentItem(_) => true
  }

  ghost predicate WellFormed(it: Item) {
    WellSpelled(it) && forall line | line in ItemLines(it) :: Fits(line)
  }

  /** GNU make's `+=`, from version 4.3 on: one space between two values that are not empty. */
  function Appended(was: string, more: string): string {
    if was == "" then more else if more == "" then was else was + " " + more
  }

  /** make's own reading: ?= assigns only a variable without a value, += appends. */
  function Assigned(vars: map<string, string>, name: string, op: string, value: string): map<string, string> {
    if name in vars && op == "?=" then vars
    else if name in vars && op == "+=" then vars[name := Appended(vars[name], value)]
    else vars[name := value]
  }

  function RecipeOf(b: BodyLine): seq<string> {
    match b
    case Recipe(text) => [text]
    case Note(_) => []
  }

  function Recipes(body: seq<BodyLine>): seq<string> {
    if body == [] then [] else RecipeOf(body[0]) + Recipes(body[1..])
  }

  /** What the parser records of an item: last rule wins, target variables accumulate in order. */
  function Recorded(s: State, it: Item): State {
    match it
    case RuleItem(t, ps, body) => s.(rules := s.rules[t := MakeRule(t, ps, Recipes(body))])
    case VariableItem(n, op, v) =>
      s.(variables := Record(s.variables, AssignmentText(n, op, v), Assignment(n, op, v)))
    case TargetItem(ts, n, op, v) => s.(targetVars := AddAll(s.targetVars, ts, TargetVar(n, op, v)))
    case CommentItem(_) => s
  }

  function RecordedOf(s: State, items: seq<Item>): State
    decreases items
  {
    if items == [] then s else RecordedOf(Recorded(s, items[0]), items[1..])
  }

  /** What an item means to make: the same, but for variables. */
  function Meaning(s: State, it: Item): State {
    if it.VariableItem? then s.(variables := Assigned(s.variables, it.name, it.op, it.value)) else Recorded(s, it)
  }

  function MeaningOf(s: State, items: seq<Item>): State
    decreases items
  {
    if items == [] then s else MeaningOf(Meaning(s, items[0]), items[1..])
  }

  lemma {:induction false} RunAppend(s: State, a: seq<string>, b: seq<string>)
    ensures Run(s, a + b) == Run(Run(s, a), b)
    decreases a
  {
    if a == [] {
      assert a + b == b;
    } else {
      RunAppend(Step(s, a[0]), a[1..], b);
      assert (a + b)[1..] == a[1..] + b;
    }
  }

  // ------------------------------------------------------------- lines read back

  lemma {:induction false} IdentIsPlain(n: string)
    requires IsMakeIdent(n)
    ensures Trimmed(n) && IsToken(n) && forall c | c in n :: !OperatorChar(c)
  {
    assert n[0] in n && n[|n| - 1] in n;
  }

  lemma {:induction false} FirstOperatorAfter(before: string, rest: string)
    requires forall c | c in before :: !OperatorChar(c)
    requires rest != "" && OperatorChar(rest[0])
    ensures FirstOperatorChar(before + rest) == |before|
  {
    if before == "" {
      assert before + rest == rest;
    } else {
      assert before[0] in before;
      FirstOperatorAfter(before[1..], rest);
      assert (before + rest)[1..] == before[1..] + rest;
    }
  }

  lemma {:induction false} FoundIs(line: string, p: nat, ops: seq<string>, op: string)
    requires op in ops && forall o | o in ops :: OccursAt(line, o, p) <==> o == op
    ensures OperatorAt(line, p, ops) == Some(op)
  {
    if ops[0] != op {
      assert ops[0] in ops;
      FoundIs(line, p, ops[1..], op);
    }
  }

  /** Index of a byte where the two operators, the first followed by a space, differ. */
  function Differ(op: string, o: string): (k: nat)
    requires IsOperator(op) && IsOperator(o) && o != op
    ensures k < |o| && k <= |op| && o[k] != (op + " ")[k]
  {
    if o[0] != op[0] then 0
    else if |o| == 1 || |op| == 1 then 1
    else if o[1] != op[1] then 1
    else 2
  }

  lemma OperatorMatch(before: string, op: string, rest: string, o: string)
    requires IsOperator(op) && IsOperator(o)
    ensures OccursAt(before + (op + " " + rest), o, |before|) <==> o == op
  {
    var line := before + (op + " " + rest);
    if o != op {
      var k := Differ(op, o);
      assert line[|before| + k] == (op + " ")[k];
      NotAt(line, o, |before|, k);
    } else {
      assert line[|before|..|before| + |op|] == op;
    }
  }

  /** An operator followed by a space is the one found at its position. */
  lemma {:induction false} OperatorFound(before: string, op: string, rest: string)
    requires IsOperator(op)
    ensures OperatorAt(before + (op + " " + rest), |before|, OPERATORS) == Some(op)
  {
    var line := before + (op + " " + rest);
    forall o | o in OPERATORS
      ensures OccursAt(line, o, |before|) <==> o == op
    {
      OperatorMatch(before, op, rest, o);
    }
    FoundIs(line, |before|, OPERATORS, op);
  }

  lemma SplitPrinted(name: string, op: string, tail: string)
    requires IsMakeIdent(name)
    ensures SplitAt(name + " " + (op + tail), |name| + 1, op) == Some(Assignment(name, op, TrimSpace(tail)))
  {
    var before := name + " ";
    Cut(before, op + tail);
    IdentIsPlain(name);
    TrimPadding("", name, " ");
    assert "" + name + " " == before;
    Cut(op, tail);
    DropDrop(before + (op + tail), |before|, |op|);
  }

  /** A name, a space and the operator found there are split off whatever follows. */
  lemma {:induction false} SplitReadBack(name: string, op: string, tail: string)
    requires IsMakeIdent(name) && IsOperator(op)
    requires OperatorAt(name + " " + (op + tail), |name| + 1, OPERATORS) == Some(op)
    ensures ParseAssignment(name + " " + (op + tail)) == Some(Assignment(name, op, TrimSpace(tail)))
  {
    var before := name + " ";
    var line := before + (op + tail);
    LeftmostOperatorWins(line);
    IdentIsPlain(name);
    OperatorShape(op);
    assert (op + tail)[0] == op[0];
    FirstOperatorAfter(before, op + tail);
    SplitPrinted(name, op, tail);
  }

  /** A printed assignment is read back exactly. */
  lemma AssignmentReadBack(name: string, op: string, value: string)
    requires IsMakeIdent(name) && IsOperator(op) && Trimmed(value)
    ensures ParseAssignment(AssignmentText(name, op, value)) == Some(Assignment(name, op, value))
  {
    OperatorFound(name + " ", op, value);
    var tail := " " + value;
    assert op + " " + value == op + tail;
    SplitReadBack(name, op, tail);
    assert AssignmentText(name, op, value) == name + " " + (op + tail);
    assert tail == " " + value + "";
    TrimPadding(" ", value, "");
  }

  lemma {:induction false} NoneAt(line: string, p: nat, ops: seq<string>)
    requires forall o | o in ops :: !OccursAt(line, o, p)
    ensures OperatorAt(line, p, ops).None?
  {
    if ops != [] {
      assert ops[0] in ops;
      NoneAt(line, p, ops[1..]);
    }
  }

  lemma NoOperatorAtColon(lhs: string, rest: string)
    ensures OperatorAt(lhs + ": " + rest, |lhs|, OPERATORS).None?
  {
    var line := lhs + ": " + rest;
    assert line[|lhs|] == ':' && line[|lhs| + 1] == ' ';
    forall o | o in OPERATORS
      ensures !OccursAt(line, o, |lhs|)
    {
      NotAt(line, o, |lhs|, if o[0] == ':' then 1 else 0);
    }
    NoneAt(line, |lhs|, OPERATORS);
  }

  /** A colon after plain targets, followed by a space, is not an assignment. */
  lemma ColonIsNoAssignment(lhs: string, rest: string)
    requires lhs != "" && forall c | c in lhs :: !OperatorChar(c)
    ensures ParseAssignment(lhs + ": " + rest).None?
    ensures Index(lhs + ": " + rest, ":") == |lhs|
  {
    LeftmostOperatorWins(lhs + ": " + rest);
    Assoc(lhs, ": ", rest);
    FirstOperatorAfter(lhs, ": " + rest);
    NoOperatorAtColon(lhs, rest);
    assert lhs + ": " + rest == lhs + ":" + (" " + rest);
    FoundAfter(lhs, ":", " " + rest);
  }

  lemma {:induction false} JoinedTargets(ts: seq<string>)
    requires ts != [] && forall t | t in ts :: PlainTarget(t)
    ensures JoinSpaced(ts) != "" && JoinSpaced(ts)[0] != '#' && !IsSpace(JoinSpaced(ts)[0])
    ensures '%' !in JoinSpaced(ts) && forall c | c in JoinSpaced(ts) :: !OperatorChar(c)
  {
    assert PlainTarget(ts[0]) && ts[0][0] in ts[0];
    if |ts| > 1 {
      JoinedTargets(ts[1..]);
    }
  }

  lemma {:induction false} JoinedTrimmed(ps: seq<string>)
    requires forall p | p in ps :: IsToken(p)
    ensures Trimmed(JoinSpaced(ps))
    ensures ps != [] ==> JoinSpaced(ps) != ""
  {
    if ps != [] {
      assert IsToken(ps[0]) && ps[0][0] in ps[0] && ps[0][|ps[0]| - 1] in ps[0];
      JoinedTrimmed(ps[1..]);
    }
  }

  /** Prerequisites on the right of the colon are read back as a list of words. */
  lemma PrereqsRead(s: State, t: string, ps: seq<string>)
    requires WellSpelled(RuleItem(t, ps, []))
    ensures ColonLine(s, t, TrimSpace(" " + JoinSpaced(ps))) == Close(s).(current := Some(MakeRule(t, ps, [])))
  {
    LeftmostOperatorWins(JoinSpaced(ps));
    JoinedTrimmed(ps);
    assert " " + JoinSpaced(ps) + "" == " " + JoinSpaced(ps);
    TrimPadding(" ", JoinSpaced(ps), "");
    FieldsOfJoin("", ps);
    assert "" + JoinSpaced(ps) == JoinSpaced(ps);
    FieldsOfJoin("", [t]);
    assert "" + JoinSpaced([t]) == t;
  }

  /** A line with a colon after plain words is split at that colon. */
  lemma ColonStep(s: State, lhs: string, rhs: string)
    requires s.current.None? && lhs != "" && lhs[0] != '#' && forall c | c in lhs :: !OperatorChar(c)
    ensures Step(s, lhs + ": " + rhs) == ColonLine(s, lhs, TrimSpace(" " + rhs))
  {
    var line := lhs + ": " + rhs;
    ColonIsNoAssignment(lhs, rhs);
    Assoc(lhs, ": ", rhs);
    Cut(lhs, ": " + rhs);
    assert line[0] == lhs[0];
    assert line[|lhs| + 1..] == " " + rhs;
  }

  /** The first line of a rule opens it, closing whatever was pending. */
  lemma RuleLine(s: State, t: string, ps: seq<string>)
    requires s.current.None? && WellSpelled(RuleItem(t, ps, []))
    ensures Step(s, t + ": " + JoinSpaced(ps)) == s.(current := Some(MakeRule(t, ps, [])))
  {
    ColonStep(s, t, JoinSpaced(ps));
    PrereqsRead(s, t, ps);
  }

  /** The pending rule with more recipe lines. */
  function Extended(s: State, more: seq<string>): State
    requires s.current.Some?
  {
    s.(current := Some(s.current.value.(recipe := s.current.value.recipe + more)))
  }

  lemma BodyLineRead(s: State, b: BodyLine)
    requires s.current.Some?
    ensures Step(s, BodyText(b)) == Extended(s, RecipeOf(b))
  {
    var line := BodyText(b);
    if b.Recipe? {
      assert line[..1] == TAB && line[1..] == b.text;
    } else {
      assert line[0] == '#';
      NotAt(line, TAB, 0, 0);
      assert s.current.value.recipe + [] == s.current.value.recipe;
    }
  }

  lemma {:induction false} BodyRead(s: State, body: seq<BodyLine>)
    requires s.current.Some?
    ensures Run(s, BodyLines(body)) == Extended(s, Recipes(body))
    decreases body
  {
    if body != [] {
      BodyLineRead(s, body[0]);
      var next := Extended(s, RecipeOf(body[0]));
      BodyRead(next, body[1..]);
      assert BodyLines(body)[1..] == BodyLines(body[1..]);
      Assoc(s.current.value.recipe, RecipeOf(body[0]), Recipes(body[1..]));
    } else {
      assert s.current.value.recipe + [] == s.current.value.recipe;
    }
  }

  lemma RunOne(s: State, line: string)
    ensures Run(s, [line]) == Step(s, line)
  {
    assert [line][1..] == [];
    assert Run(Step(s, line), []) == Step(s, line);
  }

  /** A rule's header and body, then the blank line that closes it. */
  lemma RuleRead(s: State, t: string, ps: seq<string>, body: seq<BodyLine>)
    requires s.current.None? && WellSpelled(RuleItem(t, ps, body))
    ensures Run(s, ItemLines(RuleItem(t, ps, body))) == Recorded(s, RuleItem(t, ps, body))
  {
    var first := [t + ": " + JoinSpaced(ps)];
    RuleLine(s, t, ps);
    RunOne(s, first[0]);
    var pending := s.(current := Some(MakeRule(t, ps, [])));
    BodyRead(pending, body);
    var whole := Extended(pending, Recipes(body));
    assert [] + Recipes(body) == Recipes(body);
    RunOne(whole, "");
    RunAppend(s, first, BodyLines(body));
    RunAppend(s, first + BodyLines(body), [""]);
  }

  lemma TwoLines(s: State, line: string)
    ensures Run(s, [line] + [""]) == Close(Step(s, line))
  {
    assert ([line] + [""])[1..] == [""] && [""][1..] == [];
    assert Run(Step(s, line), [""]) == Step(Step(s, line), "");
  }

  lemma VariableRead(s: State, it: Item)
    requires s.current.None? && it.VariableItem? && WellSpelled(it)
    ensures Run(s, ItemLines(it)) == Recorded(s, it)
  {
    var line := AssignmentText(it.name, it.op, it.value);
    AssignmentReadBack(it.name, it.op, it.value);
    assert it.name[0] in it.name && line[0] == it.name[0];
    TwoLines(s, line);
  }

  lemma OperatorMatchAtEnd(before: string, op: string, o: string)
    requires IsOperator(op) && IsOperator(o)
    ensures OccursAt(before + op, o, |before|) <==> o == op
  {
    var line := before + op;
    if o == op {
      assert line[|before|..|before| + |op|] == op;
    } else if |o| <= |op| {
      var k := Differ(op, o);
      assert k < |op| ==> line[|before| + k] == op[k];
      NotAt(line, o, |before|, k);
    }
  }

  lemma ShortReadBack(name: string, op: string)
    requires IsMakeIdent(name) && IsOperator(op)
    ensures ParseAssignment(name + " " + op) == Some(Assignment(name, op, ""))
  {
    var before := name + " ";
    forall o | o in OPERATORS
      ensures OccursAt(before + op, o, |before|) <==> o == op
    {
      OperatorMatchAtEnd(before, op, o);
    }
    FoundIs(before + op, |before|, OPERATORS, op);
    assert before + op == before + (op + "") && op + "" == op;
    SplitReadBack(name, op, "");
  }

  /** Trimming the right-hand side does not change how it is read, even when the value is empty. */
  lemma TrimmedRhs(name: string, op: string, value: string)
    requires IsMakeIdent(name) && IsOperator(op) && Trimmed(value)
    ensures ParseAssignment(TrimSpace(" " + AssignmentText(name, op, value))) == Some(Assignment(name, op, value))
  {
    var rhs := AssignmentText(name, op, value);
    AssignmentReadBack(name, op, value);
    IdentIsPlain(name);
    assert name[0] in name && rhs[0] == name[0];
    if value != "" {
      assert rhs[|rhs| - 1] == value[|value| - 1];
      assert " " + rhs == " " + rhs + "";
      TrimPadding(" ", rhs, "");
    } else {
      var short := name + " " + op;
      OperatorShape(op);
      assert op[|op| - 1] == '=';
      assert short[|short| - 1] == '=' && short[0] == name[0];
      assert " " + rhs == " " + short + " ";
      TrimPadding(" ", short, " ");
      ShortReadBack(name, op);
    }
  }

  lemma {:induction false} TargetRead(s: State, it: Item)
    requires s.current.None? && it.TargetItem? && WellSpelled(it)
    ensures Run(s, ItemLines(it)) == Recorded(s, it)
  {
    var lhs, rhs := JoinSpaced(it.targets), AssignmentText(it.name, it.op, it.value);
    JoinedTargets(it.targets);
    TrimmedRhs(it.name, it.op, it.value);
    FieldsOfJoin("", it.targets);
    assert "" + lhs == lhs;
    ColonStep(s, lhs, rhs);
    TwoLines(s, lhs + ": " + rhs);
  }

  lemma ItemRead(s: State, it: Item)
    requires s.current.None? && WellSpelled(it)
    ensures Run(s, ItemLines(it)) == Recorded(s, it)
  {
    match it
    case RuleItem(t, ps, body) => RuleRead(s, t, ps, body);
    case VariableItem(_, _, _) => VariableRead(s, it);
    case TargetItem(_, _, _, _) => TargetRead(s, it);
    case CommentItem(text) =>
      assert ("#" + text)[0] == '#';
      TwoLines(s, "#" + text);
  }

  lemma {:induction false} ItemsRead(s: State, items: seq<Item>)
    requires s.current.None? && forall it | it in items :: WellSpelled(it)
    ensures Run(s, Print(items)) == RecordedOf(s, items) && RecordedOf(s, items).current.None?
    decreases items
  {
    if items != [] {
      assert items[0] in items;
      RunAppend(s, ItemLines(items[0]), Print(items[1..]));
      ItemRead(s, items[0]);
      ItemsRead(Recorded(s, items[0]), items[1..]);
    }
  }

  // ------------------------------------------------------------- from bytes to lines

  lemma {:induction false} LineLengthIs(line: string, rest: string)
    requires '\n' !in line
    ensures LineLength(line + "\n" + rest) == |line|
  {
    if line == "" {
      assert line + "\n" + rest == "\n" + rest;
    } else {
      LineLengthIs(line[1..], rest);
      assert (line + "\n" + rest)[1..] == line[1..] + "\n" + rest;
    }
  }

  /** The scanner gives back the lines that were printed. */
  lemma {:induction false} LinesOfBytes(lines: seq<string>)
    requires forall line | line in lines :: Fits(line)
    ensures Lines(Bytes(lines)) == lines
  {
    if lines != [] {
      var line, rest := lines[0], Bytes(lines[1..]);
      assert line in lines;
      LineLengthIs(line, rest);
      Cut(line + "\n", rest);
      assert (line + "\n" + rest)[..|line|] == line;
      LinesOfBytes(lines[1..]);
      assert lines == [line] + lines[1..];
    }
  }

  lemma {:induction false} PrintFits(items: seq<Item>)
    requires forall it | it in items :: WellFormed(it)
    ensures forall line | line in Print(items) :: Fits(line)
  {
    if items != [] {
      assert items[0] in items;
      PrintFits(items[1..]);
    }
  }

  /**
   Main result on databases: from the bytes of a printed database the parser records every item,
   with recipes kept by their rule across comment lines.
   */
  lemma ParseUndoesPrint(s: State, items: seq<Item>)
    requires s.current.None? && forall it | it in items :: WellFormed(it)
    ensures Close(Run(s, Lines(Bytes(Print(items))))) == RecordedOf(s, items)
  {
    PrintFits(items);
    LinesOfBytes(Print(items));
    ItemsRead(s, items);
  }

  // ------------------------------------------------------------- where the record departs from make

  /** The text of the assignment holds `?=`, whatever its operator. */
  predicate SpellsConditional(it: Item)
    requires it.VariableItem?
  {
    Contains(AssignmentText(it.name, it.op, it.value), "?=")
  }

  /** The recorded value after this item is the one make assigns, if it was before. */
  predicate Agrees(vars: map<string, string>, it: Item) {
    it.VariableItem? && it.name in vars ==>
      || it.op == "?="
      || (it.op == "+=" && vars[it.name] == "" && !SpellsConditional(it))
      || (it.op != "+=" && (!SpellsConditional(it) || vars[it.name] == it.value))
  }

  lemma ConditionalShows(name: string, value: string)
    ensures Contains(AssignmentText(name, "?=", value), "?=")
  {
    var line := AssignmentText(name, "?=", value);
    assert line[|name| + 1..|name| + 3] == "?=";
    assert OccursAt(line, "?=", |name| + 1);
  }

  /** An empty appended value spells no "?=". */
  lemma EmptyAppendIsPlain(name: string)
    requires IsMakeIdent(name)
    ensures !Contains(AssignmentText(name, "+=", ""), "?=")
  {
    var line := AssignmentText(name, "+=", "");
    IdentIsPlain(name);
    forall p | 0 <= p <= |line|
      ensures !OccursAt(line, "?=", p)
    {
      if p < |line| {
        assert p < |name| ==> line[p] == name[p] && name[p] in name;
        assert p >= |name| ==> line[p] == " += "[p - |name|];
        NotAt(line, "?=", p, 0);
      }
    }
  }

  lemma AppendExact(vars: map<string, string>, name: string, value: string)
    requires name in vars && IsMakeIdent(name)
    ensures var line := AssignmentText(name, "+=", value);
      Record(vars, line, Assignment(name, "+=", value)) == Assigned(vars, name, "+=", value)
      <==> vars[name] == "" && !Contains(line, "?=")
  {
    var line, was := AssignmentText(name, "+=", value), vars[name];
    if value == "" {
      EmptyAppendIsPlain(name);
    }
    assert vars[name := Appended(was, value)][name] == Appended(was, value);
    assert vars[name := value][name] == value;
    assert |was + " " + value| == |was| + 1 + |value|;
  }

  /**
   The test for a conditional assignment looks for "?=" anywhere in the line, so another assignment
   whose value contains it is dropped when the variable has a value; and an appending assignment
   replaces the value.  The record differs from make's in exactly these cases.
   */
  lemma ConditionalExact(s: State, it: Item)
    requires WellSpelled(it)
    ensures Recorded(s, it) == Meaning(s, it) <==> Agrees(s.variables, it)
  {
    if it.VariableItem? && it.name in s.variables {
      var vars, line := s.variables, AssignmentText(it.name, it.op, it.value);
      var made := Assigned(vars, it.name, it.op, it.value);
      assert Recorded(s, it) == Meaning(s, it) <==> Record(vars, line, Assignment(it.name, it.op, it.value)) == made;
      assert it.op != "?=" ==> it.name in made;
      assert vars[it.name := vars[it.name]] == vars;
      assert vars[it.name := it.value][it.name] == it.value;
      if it.op == "?=" {
        ConditionalShows(it.name, it.value);
      } else if it.op == "+=" {
        AppendExact(vars, it.name, it.value);
      }
    }
  }

  /** Every item agrees where it is reached. */
  predicate AllAgree(s: State, items: seq<Item>)
    decreases items
  {
    items == [] || (Agrees(s.variables, items[0]) && AllAgree(Meaning(s, items[0]), items[1..]))
  }

  ghost predicate SamePrefixes(s: State, items: seq<Item>) {
    forall n | 0 <= n <= |items| :: RecordedOf(s, items[..n]) == MeaningOf(s, items[..n])
  }

  lemma PrefixOfRest(s: State, items: seq<Item>, n: nat)
    requires n < |items|
    ensures RecordedOf(s, items[..n + 1]) == RecordedOf(Recorded(s, items[0]), items[1..][..n])
    ensures MeaningOf(s, items[..n + 1]) == MeaningOf(Meaning(s, items[0]), items[1..][..n])
  {
    assert items[..n + 1][1..] == items[1..][..n];
  }

  lemma SamePrefixesStep(s: State, items: seq<Item>)
    requires items != []
    requires forall n | 0 <= n < |items| ::
      RecordedOf(s, items[..n + 1]) == MeaningOf(s, items[..n + 1])
      <==> RecordedOf(Meaning(s, items[0]), items[1..][..n]) == MeaningOf(Meaning(s, items[0]), items[1..][..n])
    ensures SamePrefixes(s, items) <==> SamePrefixes(Meaning(s, items[0]), items[1..])
  {
    assert RecordedOf(s, items[..0]) == MeaningOf(s, items[..0]);
    if SamePrefixes(Meaning(s, items[0]), items[1..]) {
      forall n | 0 < n <= |items|
        ensures RecordedOf(s, items[..n]) == MeaningOf(s, items[..n])
      {
        assert RecordedOf(Meaning(s, items[0]), items[1..][..n - 1]) == MeaningOf(Meaning(s, items[0]), items[1..][..n - 1]);
        assert RecordedOf(s, items[..(n - 1) + 1]) == MeaningOf(s, items[..(n - 1) + 1]);
      }
    }
    if SamePrefixes(s, items) {
      forall n | 0 <= n <= |items[1..]|
        ensures RecordedOf(Meaning(s, items[0]), items[1..][..n]) == MeaningOf(Meaning(s, items[0]), items[1..][..n])
      {
        assert RecordedOf(s, items[..n + 1]) == MeaningOf(s, items[..n + 1]);
      }
    }
  }

  /** The record is make's after every item exactly when every item agrees; in particular at the end. */
  lemma {:induction false} RecordIsMeaning(s: State, items: seq<Item>)
    requires forall it | it in items :: WellSpelled(it)
    ensures AllAgree(s, items) <==> SamePrefixes(s, items)
    ensures AllAgree(s, items) ==> RecordedOf(s, items) == MeaningOf(s, items)
    decreases items
  {
    if items != [] {
      var it, rest := items[0], items[1..];
      assert it in items;
      ConditionalExact(s, it);
      PrefixOfRest(s, items, 0);
      RecordIsMeaning(Meaning(s, it), rest);
      if Recorded(s, it) == Meaning(s, it) {
        forall n | 0 <= n < |items|
          ensures RecordedOf(s, items[..n + 1]) == MeaningOf(s, items[..n + 1])
            <==> RecordedOf(Meaning(s, it), rest[..n]) == MeaningOf(Meaning(s, it), rest[..n])
        {
          PrefixOfRest(s, items, n);
        }
        SamePrefixesStep(s, items);
      } else {
        assert RecordedOf(s, items[..1]) != MeaningOf(s, items[..1]);
      }
      WholePrefix(items);
    }
  }

  // ------------------------------------------------------------- the final value of one variable

  predicate SameValue(rec: map<string, string>, made: map<string, string>, v: string) {
    (v in rec <==> v in made) && (v in rec ==> rec[v] == made[v])
  }

  /** The assignment leaves what is recorded and what make has the same, whether or not they were before. */
  predicate AgreesAt(rec: map<string, string>, made: map<string, string>, it: Item)
    requires it.VariableItem? && (it.name in rec <==> it.name in made)
  {
    || it.name !in rec
    || if it.op == "+=" then
         (if SpellsConditional(it) then rec[it.name] == Appended(made[it.name], it.value) else made[it.name] == "")
       else !SpellsConditional(it) || rec[it.name] == it.value
  }

  predicate Assigns(it: Item, v: string) {
    it.VariableItem? && it.name == v
  }

  /** The last assignment to a variable that is not conditional, or -1. */
  function LastThatMatters(items: seq<Item>, v: string): (k: int)
    ensures -1 <= k < |items|
    ensures k >= 0 ==> Assigns(items[k], v) && items[k].op != "?="
  {
    if items == [] then -1
    else if Assigns(items[|items| - 1], v) && items[|items| - 1].op != "?=" then |items| - 1
    else LastThatMatters(items[..|items| - 1], v)
  }

  lemma {:induction false} RecordedSnoc(s: State, items: seq<Item>, it: Item)
    ensures RecordedOf(s, items + [it]) == Recorded(RecordedOf(s, items), it)
    ensures MeaningOf(s, items + [it]) == Meaning(MeaningOf(s, items), it)
    decreases items
  {
    hide Recorded, Meaning;
    if items == [] {
      assert items + [it] == [it] && [it][1..] == [];
    } else {
      assert (items + [it])[1..] == items[1..] + [it];
      RecordedSnoc(Recorded(s, items[0]), items[1..], it);
      RecordedSnoc(Meaning(s, items[0]), items[1..], it);
    }
  }

  lemma OtherVariable(vars: map<string, string>, made: map<string, string>, it: Item, v: string)
    requires it.VariableItem? && it.name != v
    ensures var line := AssignmentText(it.name, it.op, it.value);
      SameValue(Record(vars, line, Assignment(it.name, it.op, it.value)), Assigned(made, it.name, it.op, it.value), v)
      <==> SameValue(vars, made, v)
  {
  }

  /** One assignment to the variable itself. */
  lemma OwnAssignment(rec: map<string, string>, made: map<string, string>, it: Item)
    requires it.VariableItem? && (it.name in rec <==> it.name in made)
    ensures var line := AssignmentText(it.name, it.op, it.value);
      var after, now := Record(rec, line, Assignment(it.name, it.op, it.value)), Assigned(made, it.name, it.op, it.value);
      && it.name in after && it.name in now
      && (it.op != "?=" ==> (SameValue(after, now, it.name) <==> AgreesAt(rec, made, it)))
      && (it.op == "?=" ==> (SameValue(after, now, it.name) <==> SameValue(rec, made, it.name)))
  {
    if it.op == "?=" {
      ConditionalShows(it.name, it.value);
    }
  }

  /**
   What is recorded of a variable in the end is what make has, exactly when its last assignment that is
   not conditional agrees; a plain one without a stray ?= does, whatever went wrong before it.
   */
  lemma {:induction false} FinalValue(s: State, items: seq<Item>, v: string)
    ensures v in RecordedOf(s, items).variables <==> v in MeaningOf(s, items).variables
    ensures var k := LastThatMatters(items, v);
      && (k >= 0 ==> (v in RecordedOf(s, items[..k]).variables <==> v in MeaningOf(s, items[..k]).variables))
      && (SameValue(RecordedOf(s, items).variables, MeaningOf(s, items).variables, v)
          <==> k < 0 || AgreesAt(RecordedOf(s, items[..k]).variables, MeaningOf(s, items[..k]).variables, items[k]))
    decreases items
  {
    if items != [] {
      var n := |items| - 1;
      var init, last := items[..n], items[n];
      FinalValue(s, init, v);
      assert items == init + [last];
      RecordedSnoc(s, init, last);
      var rec, made := RecordedOf(s, init).variables, MeaningOf(s, init).variables;
      if Assigns(last, v) {
        OwnAssignment(rec, made, last);
      } else if last.VariableItem? {
        OtherVariable(rec, made, last, v);
      }
      var k := LastThatMatters(items, v);
      if 0 <= k < n {
        assert init[..k] == items[..k];
      }
    }
  }

  lemma {:induction false} RestIsRecorded(s: State, items: seq<Item>)
    ensures RecordedOf(s, items).(variables := map[]) == MeaningOf(s, items).(variables := map[])
    decreases items
  {
    if items != [] {
      var init, last := items[..|items| - 1], items[|items| - 1];
      RestIsRecorded(s, init);
      assert items == init + [last];
      RecordedSnoc(s, init, last);
    }
  }

  lemma SameValues(rec: map<string, string>, made: map<string, string>)
    ensures rec == made <==> forall v :: SameValue(rec, made, v)
  {
    if forall v :: SameValue(rec, made, v) {
      assert forall v | v in rec :: SameValue(rec, made, v);
      assert forall v | v in made :: SameValue(rec, made, v);
      assert rec.Keys == made.Keys;
    }
  }

  /** The last assignment of the variable that matters agrees, in the states where it is reached. */
  ghost predicate Settled(s: State, items: seq<Item>, v: string) {
    var k := LastThatMatters(items, v);
    k >= 0 ==>
      && (v in RecordedOf(s, items[..k]).variables <==> v in MeaningOf(s, items[..k]).variables)
      && AgreesAt(RecordedOf(s, items[..k]).variables, MeaningOf(s, items[..k]).variables, items[k])
  }

  /** The whole record is make's in the end exactly when every variable is settled. */
  lemma FinalRecordExact(s: State, items: seq<Item>)
    ensures RecordedOf(s, items) == MeaningOf(s, items) <==> forall v :: Settled(s, items, v)
  {
    var rec, made := RecordedOf(s, items), MeaningOf(s, items);
    RestIsRecorded(s, items);
    forall v
      ensures Settled(s, items, v) <==> SameValue(rec.variables, made.variables, v)
    {
      FinalValue(s, items, v);
    }
    SameValues(rec.variables, made.variables);
    assert rec == made <==> rec.variables == made.variables by {
      assert rec == rec.(variables := map[]).(variables := rec.variables);
      assert made == made.(variables := map[]).(variables := made.variables);
    }
  }

  /** A has a value; `A = x?=y` gives it another one, but the record keeps the old one. */
  lemma StrayConditionalIsDropped(s: State, was: string)
    requires s.variables == map["A" := was] && was != "x?=y"
    ensures var it := VariableItem("A", "=", "x?=y");
      && Recorded(s, it).variables == map["A" := was]
      && Meaning(s, it).variables == map["A" := "x?=y"]
  {
    var line := AssignmentText("A", "=", "x?=y");
    assert line[5..7] == "?=";
    assert OccursAt(line, "?=", 5);
  }

  /** A is x; `A += y` makes it `x y`, but the record says y. */
  lemma AppendReplaces(s: State)
    requires s.variables == map["A" := "x"]
    ensures var it := VariableItem("A", "+=", "y");
      && Recorded(s, it).variables == map["A" := "y"]
      && Meaning(s, it).variables == map["A" := "x y"]
  {
    var line := AssignmentText("A", "+=", "y");
    assert line == "A += y" && Appended("x", "y") == "x y";
    assert forall c | c in line :: c != '?';
    forall p | 0 <= p <= |line|
      ensures !OccursAt(line, "?=", p)
    {
      if p < |line| {
        assert line[p] in line;
        NotAt(line, "?=", p, 0);
      }
    }
  }
}
