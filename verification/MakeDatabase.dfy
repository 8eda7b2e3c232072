/** cmd/convert-element-trace/makedb.go: reading the database `make -np` prints. */
module MakeDatabase {
  import opened Options
  import opened Sequences
  import opened Text

  datatype MakeRule = MakeRule(target: string, prereqs: seq<string>, recipe: seq<string>)
  datatype TargetVar = TargetVar(name: string, op: string, value: string)

  datatype Assignment = Assignment(name: string, op: string, value: string)

  // ------------------------------------------------------------- parseAssignmentWithOp

  /** In the order the parser tries them. */
  const OPERATORS: seq<string> := [":::=", "::=", ":=", "?=", "+=", "="]

  predicate IdentChar(c: char) {
    'a' <= c <= 'z' || 'A' <= c <= 'Z' || '0' <= c <= '9' || c == '_' || c == '-' || c == '.'
  }

  /** isMakeIdent */
  predicate IsMakeIdent(s: string) {
    s != "" && forall c | c in s :: IdentChar(c)
  }

  method CheckMakeIdent(s: string) returns (ok: bool)
    ensures ok <==> IsMakeIdent(s)
  {
    if s == "" {
      return false;
    }
    for i := 0 to |s|
      invariant forall c | c in s[..i] :: IdentChar(c)
    {
      PrefixStep(s, i);
      if !IdentChar(s[i]) {
        assert s[i] in s;
        return false;
      }
    }
    WholePrefix(s);
    ok := true;
  }

  /** The line split by `op` at `p`, provided what stands left of it is an identifier. */
  function SplitAt(line: string, p: nat, op: string): Option<Assignment>
    requires p + |op| <= |line|
  {
    if p == 0 || !IsMakeIdent(TrimSpace(line[..p])) then None
    else Some(Assignment(TrimSpace(line[..p]), op, TrimSpace(line[p + |op|..])))
  }

  /** What trying one operator gives: a split at its first occurrence. */
  function TryOperator(line: string, op: string): Option<Assignment> {
    var idx := Index(line, op);
    if idx < 0 then None else SplitAt(line, idx, op)
  }

  function FirstSuccess(line: string, ops: seq<string>): Option<Assignment> {
    if ops == [] then None
    else if TryOperator(line, ops[0]).Some? then TryOperator(line, ops[0])
    else FirstSuccess(line, ops[1..])
  }

  function ParseAssignment(line: string): Option<Assignment> {
    FirstSuccess(line, OPERATORS)
  }

  /** The body of parseAssignmentWithOp's loop. */
  method TryCandidate(line: string, candidate: string) returns (r: Option<Assignment>)
    ensures r == TryOperator(line, candidate)
  {
    var idx := Index(line, candidate);
    if idx <= 0 {
      return None;
    }
    var lhs := TrimSpace(line[..idx]);
    var ok := CheckMakeIdent(lhs);
    if !ok {
      return None;
    }
    r := Some(Assignment(lhs, candidate, TrimSpace(line[idx + |candidate|..])));
  }

  /** parseAssignmentWithOp */
  method ParseAssignmentWithOp(line: string) returns (r: Option<Assignment>)
    ensures r == ParseAssignment(line)
  {
    for i := 0 to |OPERATORS|
      invariant ParseAssignment(line) == FirstSuccess(line, OPERATORS[i..])
    {
      DropDrop(OPERATORS, i, 1);
      r := TryCandidate(line, OPERATORS[i]);
      if r.Some? {
        return;
      }
    }
    r := None;
  }

  /** The bytes operators begin with; no identifier contains one. */
  predicate OperatorChar(c: char) {
    c == ':' || c == '?' || c == '+' || c == '='
  }

  /** Position of the first operator byte, or the length of the line. */
  function FirstOperatorChar(line: string): (p: nat)
    ensures p <= |line| && (p < |line| ==> OperatorChar(line[p]))
    ensures forall i | 0 <= i < p :: !OperatorChar(line[i])
  {
    if line == "" || OperatorChar(line[0]) then 0 else 1 + FirstOperatorChar(line[1..])
  }

  /** The operator of a list that stands at `p`, if any. */
  function OperatorAt(line: string, p: nat, ops: seq<string>): (r: Option<string>)
    ensures r.Some? ==> r.value in ops && OccursAt(line, r.value, p)
  {
    if ops == [] then None else if OccursAt(line, ops[0], p) then Some(ops[0]) else OperatorAt(line, p, ops[1..])
  }

  /** What the line says when read from the left: the operator at the first operator byte. */
  function LeftmostReading(line: string): Option<Assignment> {
    var p := FirstOperatorChar(line);
    var op := OperatorAt(line, p, OPERATORS);
    if op.None? then None else SplitAt(line, p, op.value)
  }

  /** The assignment operators of make. */
  predicate IsOperator(op: string) {
    op == "=" || op == ":=" || op == "::=" || op == ":::=" || op == "?=" || op == "+="
  }

  lemma OperatorShape(op: string)
    requires IsOperator(op)
    ensures op != "" && OperatorChar(op[0])
  {
  }

  lemma {:induction false} TrimLeftKeeps(s: string, i: nat)
    requires i < |s| && !IsSpace(s[i])
    ensures s[i] in TrimLeft(s)
  {
    if IsSpace(s[0]) {
      TrimLeftKeeps(s[1..], i - 1);
    }
  }

  lemma {:induction false} TrimRightKeeps(s: string, i: nat)
    requires i < |s| && !IsSpace(s[i])
    ensures s[i] in TrimRight(s)
  {
    if IsSpace(s[|s| - 1]) {
      TrimRightKeeps(s[..|s| - 1], i);
    }
  }

  /** An operator byte left of the split keeps the left side from being an identifier. */
  lemma {:induction false} TrimKeeps(s: string, i: nat)
    requires i < |s| && !IsSpace(s[i])
    ensures s[i] in TrimSpace(s)
  {
    TrimLeftKeeps(s, i);
    var t := TrimLeft(s);
    var j :| 0 <= j < |t| && t[j] == s[i];
    TrimRightKeeps(t, j);
  }

  lemma LateIsRejected(line: string, p: nat, idx: nat)
    requires p < idx <= |line| && OperatorChar(line[p])
    ensures !IsMakeIdent(TrimSpace(line[..idx]))
  {
    assert line[..idx][p] == line[p];
    TrimKeeps(line[..idx], p);
    assert !IdentChar(line[p]);
  }

  /** An operator is accepted only at the first operator byte. */
  lemma AcceptedOnlyLeftmost(line: string, op: string)
    requires IsOperator(op)
    ensures var p := FirstOperatorChar(line);
      TryOperator(line, op) == if OccursAt(line, op, p) then SplitAt(line, p, op) else None
  {
    OperatorShape(op);
    var p := FirstOperatorChar(line);
    forall q | 0 <= q < p
      ensures !OccursAt(line, op, q)
    {
      if q + |op| <= |line| {
        NotAt(line, op, q, 0);
      }
    }
    if OccursAt(line, op, p) {
      IndexIs(line, op, p);
    } else if Index(line, op) > p {
      LateIsRejected(line, p, Index(line, op));
    }
  }

  lemma {:induction false} FirstSuccessIsLeftmost(line: string, ops: seq<string>)
    requires forall op | op in ops :: IsOperator(op)
    ensures var p := FirstOperatorChar(line);
      var op := OperatorAt(line, p, ops);
      FirstSuccess(line, ops) == if op.None? then None else SplitAt(line, p, op.value)
  {
    if ops != [] {
      AcceptedOnlyLeftmost(line, ops[0]);
      FirstSuccessIsLeftmost(line, ops[1..]);
    }
  }

  /**
   Main result on assignments: whatever operators the value contains, the parser splits at the
   leftmost one.  Holds of every line.
   */
  lemma LeftmostOperatorWins(line: string)
    ensures ParseAssignment(line) == LeftmostReading(line)
  {
    FirstSuccessIsLeftmost(line, OPERATORS);
  }

  // ------------------------------------------------------------- parseMakeDB

  type TargetVars = map<string, seq<TargetVar>>

  /** The parser's state between two lines. */
  datatype State = State(rules: map<string, MakeRule>, variables: map<string, string>, targetVars: TargetVars,
                         current: Option<MakeRule>)

  const TAB := "\t"

  /** The pending rule, if any, goes into the table. */
  function Close(s: State): State {
    if s.current.None? then s else s.(rules := s.rules[s.current.value.target := s.current.value], current := None)
  }

  function Record(vars: map<string, string>, line: string, a: Assignment): map<string, string> {
    if a.name in vars && Contains(line, "?=") then vars else vars[a.name := a.value]
  }

  function AddOne(tvs: TargetVars, t: string, tv: TargetVar): TargetVars {
    tvs[t := (if t in tvs then tvs[t] else []) + [tv]]
  }

  function AddAll(tvs: TargetVars, targets: seq<string>, tv: TargetVar): TargetVars
    decreases targets
  {
    if targets == [] then tvs else AddAll(AddOne(tvs, targets[0], tv), targets[1..], tv)
  }

  /** A line with a colon that is not an assignment: a target-specific assignment or a rule. */
  function ColonLine(s: State, lhs: string, rhs: string): State {
    if '%' in lhs then s
    else
      match ParseAssignment(rhs)
      case Some(a) => s.(targetVars := AddAll(s.targetVars, Fields(lhs), TargetVar(a.name, a.op, a.value)))
      case None =>
        var targets := Fields(lhs);
        if targets == [] then Close(s)
        else Close(s).(current := Some(MakeRule(targets[0], Fields(rhs), [])))
  }

  function Step(s: State, line: string): State {
    if s.current.Some? && HasPrefix(line, TAB) then
      s.(current := Some(s.current.value.(recipe := s.current.value.recipe + [line[1..]])))
    else if line == "" then Close(s)
    else if line[0] == '#' then s
    else
      match ParseAssignment(line)
      case Some(a) => Close(s.(variables := Record(s.variables, line, a)))
      case None =>
        var idx := Index(line, ":");
        if idx > 0 then ColonLine(s, line[..idx], TrimSpace(line[idx + 1..])) else s
  }

  function Run(s: State, lines: seq<string>): State
    decreases lines
  {
    if lines == [] then s else Run(Step(s, lines[0]), lines[1..])
  }

  // ------------------------------------------------------------- bufio.ScanLines

  /** The scanner's buffer holds this many bytes; a longer line ends the scan. */
  const MAX_LINE := 0x10_0000

  /** Bytes up to the first newline, or up to the end. */
  function LineLength(s: string): (n: nat)
    ensures n <= |s| && (n < |s| ==> s[n] == '\n') && forall i | 0 <= i < n :: s[i] != '\n'
  {
    if s == "" || s[0] == '\n' then 0 else 1 + LineLength(s[1..])
  }

  /** One carriage return at the end of a line is dropped. */
  function DropCR(line: string): string {
    if line != "" && line[|line| - 1] == '\r' then line[..|line| - 1] else line
  }

  /** What remains after the first line. */
  function AfterLine(s: string): (r: string)
    ensures s != "" ==> |r| < |s|
  {
    if LineLength(s) < |s| then s[LineLength(s) + 1..] else ""
  }

  /** The lines a scanner yields: no empty last one, and nothing from the first overlong line on. */
  function Lines(body: string): seq<string>
    decreases |body|
  {
    if body == "" || LineLength(body) >= MAX_LINE then []
    else [DropCR(body[..LineLength(body)])] + Lines(AfterLine(body))
  }

  lemma RunFirst(s: State, line: string, rest: seq<string>)
    ensures Run(s, [line] + rest) == Run(Step(s, line), rest)
  {
    assert ([line] + rest)[1..] == rest;
  }

  class MakeDB {
    var rules: map<string, MakeRule>
    var variables: map<string, string>
    var targetVars: TargetVars

    constructor ()
      ensures rules == map[] && variables == map[] && targetVars == map[]
    {
      rules, variables, targetVars := map[], map[], map[];
    }

    ghost function With(current: Option<MakeRule>): State
      reads this
    {
      State(rules, variables, targetVars, current)
    }

    method CloseCurrent(current: Option<MakeRule>)
      modifies this`rules
      ensures With(None) == Close(old(With(current)))
    {
      if current.Some? {
        rules := rules[current.value.target := current.value];
      }
    }

    method AddTargetVars(targets: seq<string>, tv: TargetVar)
      modifies this`targetVars
      ensures targetVars == AddAll(old(targetVars), targets, tv)
    {
      for i := 0 to |targets|
        invariant AddAll(old(targetVars), targets, tv) == AddAll(targetVars, targets[i..], tv)
      {
        DropDrop(targets, i, 1);
        var t := targets[i];
        targetVars := targetVars[t := (if t in targetVars then targetVars[t] else []) + [tv]];
      }
    }

    method ParseColonLine(lhs: string, rhs: string, current: Option<MakeRule>) returns (next: Option<MakeRule>)
      modifies this
      ensures With(next) == ColonLine(old(With(current)), lhs, rhs)
    {
      if '%' in lhs {
        return current;
      }
      var tv := ParseAssignmentWithOp(rhs);
      if tv.Some? {
        AddTargetVars(Fields(lhs), TargetVar(tv.value.name, tv.value.op, tv.value.value));
        return current;
      }
      CloseCurrent(current);
      var targets := Fields(lhs);
      if targets == [] {
        return None;
      }
      next := Some(MakeRule(targets[0], Fields(rhs), []));
    }

    /** One pass of the scanner loop; returns the rule that is now pending. */
    method ParseLine(line: string, current: Option<MakeRule>) returns (next: Option<MakeRule>)
      modifies this
      ensures With(next) == Step(old(With(current)), line)
    {
      next := current;
      if current.Some? && HasPrefix(line, TAB) {
        return Some(current.value.(recipe := current.value.recipe + [line[1..]]));
      }
      if line == "" {
        CloseCurrent(current);
        return None;
      }
      if line[0] == '#' {
        return;
      }
      var a := ParseAssignmentWithOp(line);
      if a.Some? {
        if a.value.name !in variables || Index(line, "?=") < 0 {
          variables := variables[a.value.name := a.value.value];
        }
        CloseCurrent(current);
        return None;
      }
      var idx := Index(line, ":");
      if idx > 0 {
        next := ParseColonLine(line[..idx], TrimSpace(line[idx + 1..]), current);
      }
    }

    /** parseMakeDB */
    method Parse(body: string)
      modifies this
      ensures With(None) == Close(Run(old(With(None)), Lines(body)))
    {
      var current: Option<MakeRule> := None;
      var rest := body;
      while rest != "" && LineLength(rest) < MAX_LINE
        invariant Run(old(With(None)), Lines(body)) == Run(With(current), Lines(rest))
        decreases |rest|
      {
        var line := DropCR(rest[..LineLength(rest)]);
        RunFirst(With(current), line, Lines(AfterLine(rest)));
        current := ParseLine(line, current);
        rest := AfterLine(rest);
      }
      CloseCurrent(current);
    }
  }

  // ------------------------------------------------------------- single lines

  /** A line is neither a recipe line of the pending rule nor a comment, and no assignment. */
  ghost predicate RuleLike(s: State, lhs: string, rhs: string) {
    && lhs != "" && ':' !in lhs && lhs[0] != '#' && (s.current.Some? ==> lhs[0] != '\t')
    && LeftmostReading(lhs + ":" + rhs).None?
  }

  lemma AtColon(s: State, lhs: string, rhs: string)
    requires RuleLike(s, lhs, rhs)
    ensures Step(s, lhs + ":" + rhs) == ColonLine(s, lhs, TrimSpace(rhs))
  {
    var line := lhs + ":" + rhs;
    FoundAfter(lhs, ":", rhs);
    LeftmostOperatorWins(line);
    assert line[..|lhs|] == lhs && line[|lhs| + 1..] == rhs;
    assert HasPrefix(line, TAB) ==> line[..1][0] == lhs[0];
  }

  /** Pattern rules are passed over. */
  lemma PatternRuleSkipped(s: State, lhs: string, rhs: string)
    requires RuleLike(s, lhs, rhs) && '%' in lhs
    ensures Step(s, lhs + ":" + rhs) == s
  {
    AtColon(s, lhs, rhs);
  }

  /** A rule line files the pending rule and opens one for its first target. */
  lemma RuleOpens(s: State, lhs: string, rhs: string)
    requires RuleLike(s, lhs, rhs) && '%' !in lhs && Fields(lhs) != []
    requires LeftmostReading(TrimSpace(rhs)).None?
    ensures var s' := Step(s, lhs + ":" + rhs);
      && s'.current == Some(MakeRule(Fields(lhs)[0], Fields(TrimSpace(rhs)), []))
      && s'.rules == (if s.current.Some? then s.rules[s.current.value.target := s.current.value] else s.rules)
      && s'.variables == s.variables && s'.targetVars == s.targetVars
  {
    AtColon(s, lhs, rhs);
    LeftmostOperatorWins(TrimSpace(rhs));
  }

  /** An assignment files the pending rule too, which ends there. */
  lemma AssignmentFiles(s: State, line: string, a: Assignment)
    requires line != "" && line[0] != '#' && (s.current.Some? ==> line[0] != '\t')
    requires LeftmostReading(line) == Some(a)
    ensures var s' := Step(s, line);
      && s'.current == None && s'.variables == Record(s.variables, line, a) && s'.targetVars == s.targetVars
      && s'.rules == (if s.current.Some? then s.rules[s.current.value.target := s.current.value] else s.rules)
  {
    LeftmostOperatorWins(line);
    assert HasPrefix(line, TAB) ==> line[..1][0] == line[0];
  }

  lemma LengthIs(line: string, rest: string)
    requires '\n' !in line
    ensures LineLength(line + ("\n" + rest)) == |line|
  {
    var s := line + ("\n" + rest);
    assert s[|line|] == '\n';
    assert forall i | 0 <= i < |line| :: s[i] == line[i] && line[i] in line;
  }

  /** The scanner drops a carriage return at the end of a line, and gives up at a line longer than its buffer. */
  lemma ScannerLines(line: string, rest: string)
    requires '\n' !in line
    ensures |line| + 1 < MAX_LINE ==> Lines(line + "\r" + ("\n" + rest)) == [line] + Lines(rest)
    ensures |line| >= MAX_LINE ==> Lines(line + ("\n" + rest)) == []
  {
    LengthIs(line, rest);
    LengthIs(line + "\r", rest);
    var s := line + "\r" + ("\n" + rest);
    assert s[..|line| + 1] == line + "\r" && s[|line| + 2..] == rest;
    assert (line + "\r")[..|line|] == line;
  }
}
