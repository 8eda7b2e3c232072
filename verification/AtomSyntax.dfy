/**
 cmd/write-a/conditional.go: the three atomic conditions, as the package's regular expressions
 recognise them, scanned from left to right.
 */
module AtomSyntax {
  import opened Options
  import opened Sequences

  datatype Atom =
    | Eq(varname: string, value: string)
    | Neq(varname: string, value: string)
    | In(varname: string, values: seq<string>)

  /** \s in Go's regular expressions. */
  predicate Blank(c: char) {
    c == ' ' || c == '\t' || c == '\n' || c == '\r' || c == 12 as char
  }

  predicate AllBlank(s: string) {
    forall i | 0 <= i < |s| :: Blank(s[i])
  }

  predicate Quote(c: char) {
    c == '\'' || c == '"'
  }

  predicate IdentStart(c: char) {
    'a' <= c <= 'z' || 'A' <= c <= 'Z' || c == '_'
  }

  predicate IdentChar(c: char) {
    IdentStart(c) || '0' <= c <= '9' || c == '-'
  }

  function SkipBlanks(s: string): (r: string)
    ensures |r| <= |s| && (r == "" || !Blank(r[0]))
  {
    if s != "" && Blank(s[0]) then SkipBlanks(s[1..]) else s
  }

  /** Length of the longest run of identifier bytes. */
  function IdentRun(s: string): (n: nat)
    ensures n <= |s| && (n < |s| ==> !IdentChar(s[n])) && forall i | 0 <= i < n :: IdentChar(s[i])
  {
    if s == "" || !IdentChar(s[0]) then 0 else 1 + IdentRun(s[1..])
  }

  /** Length of the longest run without a quote. */
  function QuoteFree(s: string): (n: nat)
    ensures n <= |s| && (n < |s| ==> Quote(s[n])) && forall i | 0 <= i < n :: !Quote(s[i])
  {
    if s == "" || Quote(s[0]) then 0 else 1 + QuoteFree(s[1..])
  }

  /** Length of the longest run without a closing parenthesis. */
  function CloseFree(s: string): (n: nat)
    ensures n <= |s| && (n < |s| ==> s[n] == ')') && forall i | 0 <= i < n :: s[i] != ')'
  {
    if s == "" || s[0] == ')' then 0 else 1 + CloseFree(s[1..])
  }

  /** A non-empty quoted text at the start: its content and its width with the quotes. */
  function QuotedAt(s: string): Option<(string, nat)> {
    if s == "" || !Quote(s[0]) then None
    else
      var n := QuoteFree(s[1..]);
      if n == 0 || 1 + n == |s| then None else Some((s[1..][..n], n + 2))
  }

  /** archInTupleEntryRE, all matches. */
  function QuotedChunks(s: string): seq<string>
    decreases |s|
  {
    if s == "" then []
    else
      var q := QuotedAt(s);
      if q.Some? && q.value.1 <= |s| then [q.value.0] + QuotedChunks(s[q.value.1..])
      else QuotedChunks(s[1..])
  }

  /** The right-hand side of varEqualsRE and varNotEqualsRE. */
  function Comparison(s: string): Option<string> {
    var q := QuotedAt(SkipBlanks(s));
    if q.Some? && q.value.1 <= |SkipBlanks(s)| && AllBlank(SkipBlanks(s)[q.value.1..]) then Some(q.value.0) else None
  }

  /** The right-hand side of varInRE: the text between the parentheses. */
  function Membership(s: string): Option<string> {
    var r := SkipBlanks(s);
    if |r| == |s| || r == "" || r[0] != '(' then None
    else
      var n := CloseFree(r[1..]);
      if n == 0 || 1 + n == |r| || !AllBlank(r[n + 2..]) then None else Some(r[1..][..n])
  }

  predicate StartsWith(s: string, a: char, b: char) {
    |s| >= 2 && s[0] == a && s[1] == b
  }

  /** What follows the variable: one of the three operators and its operand. */
  function MatchOperator(name: string, s: string): Option<Atom> {
    var r := SkipBlanks(s);
    if StartsWith(r, '=', '=') then
      var v := Comparison(r[2..]);
      if v.Some? then Some(Eq(name, v.value)) else None
    else if StartsWith(r, '!', '=') then
      var v := Comparison(r[2..]);
      if v.Some? then Some(Neq(name, v.value)) else None
    else if |r| < |s| && StartsWith(r, 'i', 'n') then
      var body := Membership(r[2..]);
      if body.Some? then Some(In(name, QuotedChunks(body.value))) else None
    else None
  }

  /** The three regular expressions; at most one of them can match. */
  function MatchAtom(s: string): Option<Atom> {
    var t := SkipBlanks(s);
    if t == "" || !IdentStart(t[0]) then None
    else MatchOperator(t[..IdentRun(t)], t[IdentRun(t)..])
  }

  // ------------------------------------------------------------- nothing may follow an atom

  lemma {:induction false} SkipBlanksMore(s: string, u: string)
    requires SkipBlanks(s) != ""
    ensures SkipBlanks(s + u) == SkipBlanks(s) + u
  {
    if Blank(s[0]) {
      SkipBlanksMore(s[1..], u);
      assert (s + u)[1..] == s[1..] + u;
    }
  }

  lemma {:induction false} IdentRunMore(s: string, u: string)
    requires IdentRun(s) < |s|
    ensures IdentRun(s + u) == IdentRun(s)
  {
    if IdentChar(s[0]) {
      IdentRunMore(s[1..], u);
      assert (s + u)[1..] == s[1..] + u;
    }
  }

  lemma {:induction false} QuoteFreeMore(s: string, u: string)
    requires QuoteFree(s) < |s|
    ensures QuoteFree(s + u) == QuoteFree(s)
  {
    if !Quote(s[0]) {
      QuoteFreeMore(s[1..], u);
      assert (s + u)[1..] == s[1..] + u;
    }
  }

  lemma {:induction false} CloseFreeMore(s: string, u: string)
    requires CloseFree(s) < |s|
    ensures CloseFree(s + u) == CloseFree(s)
  {
    if s[0] != ')' {
      CloseFreeMore(s[1..], u);
      assert (s + u)[1..] == s[1..] + u;
    }
  }

  lemma QuotedAtMore(s: string, u: string)
    requires QuotedAt(s).Some?
    ensures QuotedAt(s + u) == QuotedAt(s) && QuotedAt(s).value.1 <= |s|
  {
    assert (s + u)[1..] == s[1..] + u;
    QuoteFreeMore(s[1..], u);
    var n := QuoteFree(s[1..]);
    assert (s[1..] + u)[..n] == s[1..][..n];
  }

  lemma BlankTail(r: string, u: string, n: nat)
    requires n <= |r| && AllBlank(r[n..])
    ensures AllBlank((r + u)[n..]) <==> AllBlank(u)
  {
    assert (r + u)[n..] == r[n..] + u;
    assert AllBlank((r + u)[n..]) ==> forall i | 0 <= i < |u| :: u[i] == (r[n..] + u)[|r| - n + i];
  }

  lemma ComparisonMore(s: string, u: string)
    requires Comparison(s).Some?
    ensures Comparison(s + u) == if AllBlank(u) then Comparison(s) else None
  {
    var r := SkipBlanks(s);
    SkipBlanksMore(s, u);
    QuotedAtMore(r, u);
    BlankTail(r, u, QuotedAt(r).value.1);
  }

  lemma MembershipMore(s: string, u: string)
    requires Membership(s).Some?
    ensures Membership(s + u) == if AllBlank(u) then Membership(s) else None
  {
    var r := SkipBlanks(s);
    SkipBlanksMore(s, u);
    assert (r + u)[1..] == r[1..] + u;
    CloseFreeMore(r[1..], u);
    var n := CloseFree(r[1..]);
    assert (r[1..] + u)[..n] == r[1..][..n];
    BlankTail(r, u, n + 2);
  }

  lemma MatchOperatorMore(name: string, s: string, u: string)
    requires MatchOperator(name, s).Some?
    ensures MatchOperator(name, s + u) == if AllBlank(u) then MatchOperator(name, s) else None
  {
    var r := SkipBlanks(s);
    SkipBlanksMore(s, u);
    assert (r + u)[2..] == r[2..] + u;
    if StartsWith(r, 'i', 'n') {
      MembershipMore(r[2..], u);
    } else {
      ComparisonMore(r[2..], u);
    }
  }

  /** A recognised text is no longer recognised once anything but white space follows it. */
  lemma NothingFollows(s: string, u: string)
    requires MatchAtom(s).Some?
    ensures MatchAtom(s + u) == if AllBlank(u) then MatchAtom(s) else None
  {
    var t := SkipBlanks(s);
    SkipBlanksMore(s, u);
    var n := IdentRun(t);
    IdentRunMore(t, u);
    assert (t + u)[..n] == t[..n] && (t + u)[n..] == t[n..] + u;
    MatchOperatorMore(t[..n], t[n..], u);
  }

  // ------------------------------------------------------------- the documented spellings

  /** A name as the documentation spells it: letters, digits, underscores and dashes, and no digit or dash first. */
  predicate IsIdent(s: string) {
    && s != "" && !('0' <= s[0] <= '9') && s[0] != '-'
    && forall i | 0 <= i < |s| ::
         'a' <= s[i] <= 'z' || 'A' <= s[i] <= 'Z' || '0' <= s[i] <= '9' || s[i] == '_' || s[i] == '-'
  }

  /** An operand the quotes can hold. */
  predicate IsOperand(v: string) {
    v != "" && forall i | 0 <= i < |v| :: !Quote(v[i])
  }

  predicate Spellable(a: Atom) {
    IsIdent(a.varname)
    && match a
       case Eq(_, v) => IsOperand(v)
       case Neq(_, v) => IsOperand(v)
       case In(_, vs) => forall v | v in vs :: IsOperand(v)
  }

  /** A value list is not empty, and no value closes its parenthesis. */
  predicate Enclosed(a: Atom) {
    a.In? ==> a.values != [] && forall v | v in a.values :: ')' !in v
  }

  function InQuotes(v: string, q: char): string {
    [q] + v + [q]
  }

  function List(vs: seq<string>, q: char): string {
    if vs == [] then "" else if |vs| == 1 then InQuotes(vs[0], q) else InQuotes(vs[0], q) + ", " + List(vs[1..], q)
  }

  /** The documented spelling, with either kind of quote. */
  function Spell(a: Atom, q: char): string {
    match a
    case Eq(x, v) => x + (" " + "==" + (" " + InQuotes(v, q)))
    case Neq(x, v) => x + (" " + "!=" + (" " + InQuotes(v, q)))
    case In(x, vs) => x + (" " + "in" + (" (" + List(vs, q) + ")"))
  }

  lemma {:induction false} IdentRunIs(x: string, rest: string)
    requires forall i | 0 <= i < |x| :: IdentChar(x[i])
    requires rest != "" && !IdentChar(rest[0])
    ensures IdentRun(x + rest) == |x|
  {
    if x == "" {
      assert x + rest == rest;
    } else {
      IdentRunIs(x[1..], rest);
      assert (x + rest)[1..] == x[1..] + rest;
    }
  }

  lemma {:induction false} QuoteFreeIs(v: string, rest: string)
    requires forall i | 0 <= i < |v| :: !Quote(v[i])
    requires rest != "" && Quote(rest[0])
    ensures QuoteFree(v + rest) == |v|
  {
    if v == "" {
      assert v + rest == rest;
    } else {
      QuoteFreeIs(v[1..], rest);
      assert (v + rest)[1..] == v[1..] + rest;
    }
  }

  lemma {:induction false} CloseFreeIs(v: string, rest: string)
    requires forall i | 0 <= i < |v| :: v[i] != ')'
    requires rest != "" && rest[0] == ')'
    ensures CloseFree(v + rest) == |v|
  {
    if v == "" {
      assert v + rest == rest;
    } else {
      CloseFreeIs(v[1..], rest);
      assert (v + rest)[1..] == v[1..] + rest;
    }
  }

  lemma QuotedRead(v: string, q: char, rest: string)
    requires IsOperand(v) && Quote(q)
    ensures QuotedAt(InQuotes(v, q) + rest) == Some((v, |v| + 2))
  {
    var s := InQuotes(v, q) + rest;
    assert s[1..] == v + ([q] + rest);
    QuoteFreeIs(v, [q] + rest);
    assert s[1..][..|v|] == v;
  }

  lemma ChunkRead(v: string, q: char, rest: string)
    requires IsOperand(v) && Quote(q)
    ensures QuotedChunks(InQuotes(v, q) + rest) == [v] + QuotedChunks(rest)
  {
    QuotedRead(v, q, rest);
    assert (InQuotes(v, q) + rest)[|v| + 2..] == rest;
  }

  lemma CommaSkipped(l: string)
    ensures QuotedChunks(", " + l) == QuotedChunks(l)
  {
    assert (", " + l)[1..] == " " + l && (" " + l)[1..] == l;
    assert QuotedChunks(", " + l) == QuotedChunks(" " + l);
  }

  lemma {:induction false} ListRead(vs: seq<string>, q: char)
    requires Quote(q) && forall v | v in vs :: IsOperand(v)
    ensures QuotedChunks(List(vs, q)) == vs
    decreases vs
  {
    if vs != [] {
      assert vs[0] in vs;
      ListRead(vs[1..], q);
      assert vs == [vs[0]] + vs[1..];
      if |vs| == 1 {
        assert InQuotes(vs[0], q) + "" == List(vs, q);
        ChunkRead(vs[0], q, "");
      } else {
        var rest := ", " + List(vs[1..], q);
        assert List(vs, q) == InQuotes(vs[0], q) + rest;
        ChunkRead(vs[0], q, rest);
        CommaSkipped(List(vs[1..], q));
      }
    }
  }

  /** The list's text closes early exactly when a value does. */
  lemma {:induction false} ListCloses(vs: seq<string>, q: char)
    requires Quote(q)
    ensures ')' in List(vs, q) <==> exists v :: v in vs && ')' in v
    ensures vs != [] ==> List(vs, q) != "" && List(vs, q)[|List(vs, q)| - 1] == q
    decreases vs
  {
    if vs != [] {
      ListCloses(vs[1..], q);
      assert vs == [vs[0]] + vs[1..];
      assert vs[0] in vs;
      assert ')' in InQuotes(vs[0], q) <==> ')' in vs[0];
      if |vs| > 1 {
        assert List(vs, q) == InQuotes(vs[0], q) + ", " + List(vs[1..], q);
      }
    }
  }

  lemma ComparisonRead(v: string, q: char)
    requires IsOperand(v) && Quote(q)
    ensures Comparison(" " + InQuotes(v, q)) == Some(v)
  {
    var s := " " + InQuotes(v, q);
    assert s[1..] == InQuotes(v, q);
    assert SkipBlanks(s) == InQuotes(v, q);
    assert InQuotes(v, q) + "" == InQuotes(v, q);
    QuotedRead(v, q, "");
    assert InQuotes(v, q)[|v| + 2..] == "";
  }

  lemma MembershipRead(body: string)
    requires body != "" && ')' !in body
    ensures Membership(" (" + body + ")") == Some(body)
  {
    var s := " (" + body + ")";
    assert s[1..] == "(" + body + ")";
    var r := s[1..];
    assert SkipBlanks(s) == r;
    assert r[1..] == body + ")";
    CloseFreeIs(body, ")");
    assert (body + ")")[..|body|] == body;
  }

  lemma MembershipUnread(body: string)
    requires body == "" || (')' in body && body[|body| - 1] != ')' && !Blank(body[|body| - 1]))
    ensures Membership(" (" + body + ")") == None
  {
    var s := " (" + body + ")";
    assert s[1..] == "(" + body + ")";
    var r := s[1..];
    assert SkipBlanks(s) == r;
    assert r[1..] == body + ")";
    var n := CloseFree(r[1..]);
    if body != "" {
      var k :| 0 <= k < |body| && body[k] == ')';
      assert r[1..][k] == ')' && r[1..][|body| - 1] == body[|body| - 1];
      assert r[n + 2..][|body| - n - 2] == body[|body| - 1];
    }
  }

  /** The variable is read up to the operator. */
  lemma VariableRead(x: string, rest: string)
    requires IsIdent(x) && rest != "" && !IdentChar(rest[0])
    ensures MatchAtom(x + rest) == MatchOperator(x, rest)
  {
    IdentRunIs(x, rest);
    assert (x + rest)[..|x|] == x && (x + rest)[|x|..] == rest;
  }

  lemma OperatorRead(x: string, op: string, operand: string)
    requires |op| == 2 && !Blank(op[0])
    ensures SkipBlanks(" " + op + operand) == op + operand
    ensures (op + operand)[2..] == operand
  {
    assert (" " + op + operand)[1..] == op + operand;
  }

  lemma OperandRead(x: string, operand: string, body: Option<string>)
    requires IsIdent(x) && Membership(operand) == body
    ensures MatchAtom(x + (" " + "in" + operand)) == if body.Some? then Some(In(x, QuotedChunks(body.value))) else None
  {
    VariableRead(x, " " + "in" + operand);
    OperatorRead(x, "in", operand);
  }

  /** A membership test is read by its quoted chunks, whatever stands between them. */
  lemma {:induction false} MembershipSpelled(x: string, body: string)
    requires IsIdent(x) && body != "" && ')' !in body
    ensures MatchAtom(x + (" " + "in" + (" (" + body + ")"))) == Some(In(x, QuotedChunks(body)))
  {
    MembershipRead(body);
    OperandRead(x, " (" + body + ")", Some(body));
  }

  lemma ListSpelled(x: string, vs: seq<string>, q: char)
    requires Spellable(In(x, vs)) && Quote(q)
    ensures MatchAtom(Spell(In(x, vs), q)) == if Enclosed(In(x, vs)) then Some(In(x, vs)) else None
  {
    ListCloses(vs, q);
    if Enclosed(In(x, vs)) {
      ListRead(vs, q);
      MembershipSpelled(x, List(vs, q));
    } else {
      MembershipUnread(List(vs, q));
      OperandRead(x, " (" + List(vs, q) + ")", None);
    }
  }

  /** A spelling is read back as the condition it spells, unless a value list is empty or closes early; then not at all. */
  lemma SpelledReadBack(a: Atom, q: char)
    requires Spellable(a) && Quote(q)
    ensures MatchAtom(Spell(a, q)) == if Enclosed(a) then Some(a) else None
  {
    match a {
      case Eq(x, v) =>
        var operand := " " + InQuotes(v, q);
        VariableRead(x, " " + "==" + operand);
        OperatorRead(x, "==", operand);
        ComparisonRead(v, q);
      case Neq(x, v) =>
        var operand := " " + InQuotes(v, q);
        VariableRead(x, " " + "!=" + operand);
        OperatorRead(x, "!=", operand);
        ComparisonRead(v, q);
      case In(x, vs) =>
        ListSpelled(x, vs, q);
    }
  }

  // ------------------------------------------------------------- with any white space

  /** White space before the variable, around the operator, and at the end. */
  datatype Spacing = Spacing(lead: string, before: string, after: string, trail: string)

  /** Space, tab, newline, carriage return and form feed. */
  ghost predicate AllWhite(s: string) {
    forall c | c in s :: c == ' ' || c == '\t' || c == '\n' || c == '\r' || c == 12 as char
  }

  ghost predicate AllBlanks(sp: Spacing) {
    AllWhite(sp.lead) && AllWhite(sp.before) && AllWhite(sp.after) && AllWhite(sp.trail)
  }

  lemma WhiteIsBlank(s: string)
    requires AllWhite(s)
    ensures AllBlank(s)
  {
    assert forall i | 0 <= i < |s| :: s[i] in s;
  }

  lemma BlanksAre(sp: Spacing)
    requires AllBlanks(sp)
    ensures AllBlank(sp.lead) && AllBlank(sp.before) && AllBlank(sp.after) && AllBlank(sp.trail)
  {
    WhiteIsBlank(sp.lead);
    WhiteIsBlank(sp.before);
    WhiteIsBlank(sp.after);
    WhiteIsBlank(sp.trail);
  }

  function Operand(a: Atom, q: char): string {
    match a
    case Eq(_, v) => InQuotes(v, q)
    case Neq(_, v) => InQuotes(v, q)
    case In(_, vs) => "(" + List(vs, q) + ")"
  }

  function Operator(a: Atom): string {
    match a
    case Eq(_, _) => "=="
    case Neq(_, _) => "!="
    case In(_, _) => "in"
  }

  function SpellSpaced(a: Atom, q: char, sp: Spacing): string {
    sp.lead + (a.varname + (sp.before + (Operator(a) + (sp.after + (Operand(a, q) + sp.trail)))))
  }

  lemma {:induction false} SkipBlanksIs(b: string, t: string)
    requires AllBlank(b) && (t == "" || !Blank(t[0]))
    ensures SkipBlanks(b + t) == t
  {
    if b == "" {
      assert b + t == t;
    } else {
      assert (b + t)[1..] == b[1..] + t;
      SkipBlanksIs(b[1..], t);
    }
  }

  lemma SpacedComparison(after: string, v: string, q: char, trail: string)
    requires AllBlank(after) && AllBlank(trail) && IsOperand(v) && Quote(q)
    ensures Comparison(after + (InQuotes(v, q) + trail)) == Some(v)
  {
    SkipBlanksIs(after, InQuotes(v, q) + trail);
    QuotedRead(v, q, trail);
    Cut(InQuotes(v, q), trail);
  }

  /** Where the text after the parenthesis ends, and what follows. */
  lemma BodyEnds(body: string, trail: string)
    ensures var r := body + (")" + trail);
      && CloseFree(r) <= |body| && (CloseFree(r) == |body| <==> ')' !in body)
      && r[..|body|] == body && r[|body| + 1..] == trail
      && (CloseFree(r) < |body| ==> r[CloseFree(r) + 1..][|body| - CloseFree(r) - 1] == ')')
      && (CloseFree(r) + 1 < |body| ==> r[CloseFree(r) + 1..][|body| - CloseFree(r) - 2] == body[|body| - 1])
  {
    var r := body + (")" + trail);
    var n := CloseFree(r);
    assert r[|body|] == ')';
    if k :| 0 <= k < |body| && body[k] == ')' {
      assert r[k] == ')';
    }
    Cut(body + ")", trail);
    assert r == (body + ")") + trail;
  }

  lemma MembershipAfter(after: string, rest: string)
    requires AllBlank(after)
    ensures Membership(after + ("(" + rest))
      == if after == "" || CloseFree(rest) == 0 || CloseFree(rest) == |rest| || !AllBlank(rest[CloseFree(rest) + 1..])
         then None
         else Some(rest[..CloseFree(rest)])
  {
    var r := "(" + rest;
    SkipBlanksIs(after, r);
    Cut("(", rest);
    var n := CloseFree(rest);
    hide SkipBlanks, CloseFree, AllBlank;
    assert r[1..] == rest;
    if n < |rest| {
      DropDrop(r, 1, n + 1);
    }
  }

  /** A text between the parentheses is read exactly when white space stands before them and it does not close them. */
  lemma SpacedMembership(after: string, body: string, trail: string)
    requires AllBlank(after) && AllBlank(trail)
    requires body != "" ==> body[|body| - 1] != ')' && !Blank(body[|body| - 1])
    ensures Membership(after + ("(" + (body + (")" + trail))))
      == if after != "" && body != "" && ')' !in body then Some(body) else None
  {
    hide Membership, CloseFree;
    MembershipAfter(after, body + (")" + trail));
    BodyEnds(body, trail);
  }

  lemma SpacedVariable(x: string, lead: string, rest: string)
    requires IsIdent(x) && AllBlank(lead) && rest != "" && !IdentChar(rest[0])
    ensures MatchAtom(lead + (x + rest)) == MatchOperator(x, rest)
  {
    SkipBlanksIs(lead, x + rest);
    IdentRunIs(x, rest);
    Cut(x, rest);
  }

  /** `in` directly after the variable is part of its name, and no operator follows. */
  lemma MergedOperator(x: string, lead: string, rest: string)
    requires IsIdent(x) && AllBlank(lead) && rest != "" && (Blank(rest[0]) || rest[0] == '(')
    requires SkipBlanks(rest) != "" && SkipBlanks(rest)[0] == '('
    ensures MatchAtom(lead + (x + ("in" + rest))) == None
  {
    assert x + ("in" + rest) == (x + "in") + rest;
    SpacedVariable(x + "in", lead, rest);
  }

  lemma OperatorAt(before: string, op: string, operand: string)
    requires AllBlank(before) && |op| == 2 && !Blank(op[0])
    ensures SkipBlanks(before + (op + operand)) == op + operand && (op + operand)[2..] == operand
  {
    SkipBlanksIs(before, op + operand);
    Cut(op, operand);
  }

  lemma SpacedText(x: string, vs: seq<string>, q: char, sp: Spacing)
    ensures SpellSpaced(In(x, vs), q, sp)
      == sp.lead + (x + (sp.before + ("in" + (sp.after + ("(" + (List(vs, q) + (")" + sp.trail)))))))
  {
    hide List;
    assert "(" + List(vs, q) + ")" + sp.trail == "(" + (List(vs, q) + (")" + sp.trail));
  }

  lemma SpacedList(x: string, vs: seq<string>, q: char, sp: Spacing)
    requires Spellable(In(x, vs)) && Quote(q) && AllBlanks(sp)
    ensures MatchAtom(SpellSpaced(In(x, vs), q, sp))
      == if Enclosed(In(x, vs)) && sp.before != "" && sp.after != "" then Some(In(x, vs)) else None
  {
    var body := List(vs, q);
    var operand := sp.after + ("(" + (body + (")" + sp.trail)));
    BlanksAre(sp);
    ListCloses(vs, q);
    SpacedText(x, vs, q, sp);
    SkipBlanksIs(sp.after, "(" + (body + (")" + sp.trail)));
    hide List, Membership, SkipBlanks, QuotedChunks, MatchAtom, SpellSpaced;
    if sp.before == "" {
      assert "" + ("in" + operand) == "in" + operand;
      MergedOperator(x, sp.lead, operand);
    } else {
      SpacedVariable(x, sp.lead, sp.before + ("in" + operand));
      OperatorAt(sp.before, "in", operand);
      SpacedMembership(sp.after, body, sp.trail);
      if Enclosed(In(x, vs)) {
        ListRead(vs, q);
      }
    }
  }

  /**
   With any white space in these places a documented spelling is read back as the condition it spells,
   or not at all: when a value list is empty or closes early, or `in` lacks white space on either side.
   */
  lemma SpacedReadBack(a: Atom, q: char, sp: Spacing)
    requires Spellable(a) && Quote(q) && AllBlanks(sp)
    ensures MatchAtom(SpellSpaced(a, q, sp))
      == if Enclosed(a) && (a.In? ==> sp.before != "" && sp.after != "") then Some(a) else None
  {
    BlanksAre(sp);
    match a
    case In(x, vs) =>
      SpacedList(x, vs, q, sp);
    case Eq(x, v) =>
      SpacedVariable(x, sp.lead, sp.before + ("==" + (sp.after + (InQuotes(v, q) + sp.trail))));
      OperatorAt(sp.before, "==", sp.after + (InQuotes(v, q) + sp.trail));
      SpacedComparison(sp.after, v, q, sp.trail);
    case Neq(x, v) =>
      SpacedVariable(x, sp.lead, sp.before + ("!=" + (sp.after + (InQuotes(v, q) + sp.trail))));
      OperatorAt(sp.before, "!=", sp.after + (InQuotes(v, q) + sp.trail));
      SpacedComparison(sp.after, v, q, sp.trail);
  }
}
