/**
 cmd/convert-element-trace/install_mapping.go: expanding $(VAR) and ${VAR} references by
 repeated single passes, at most 32 of them.
 */
module MakeVars {
  import opened Sequences

  type Vars = map<string, string>

  const MAX_PASSES := 32

  // ------------------------------------------------------------- the code

  /** strings.IndexByte */
  function IndexByte(s: string, c: char): (r: int)
    ensures -1 <= r < |s|
  {
    if s == "" then -1
    else if s[0] == c then 0
    else
      var r := IndexByte(s[1..], c);
      if r < 0 then -1 else r + 1
  }

  function Closer(open: char): char {
    if open == '{' then '}' else ')'
  }

  function Value(vars: Vars, name: string): string {
    if name in vars then vars[name] else ""
  }

  /** Where the name of a reference starting at `i` ends, or -1 if no reference starts there. */
  function NameEnd(s: string, i: nat): (r: int)
    requires i < |s|
    ensures -1 <= r && (r >= 0 ==> i + 2 + r < |s|)
  {
    if i + 1 < |s| && s[i] == '$' && (s[i + 1] == '(' || s[i + 1] == '{') then IndexByte(s[i + 2..], Closer(s[i + 1]))
    else -1
  }

  /** What one step of the pass writes, and where it goes on. */
  function StepText(s: string, i: nat, vars: Vars): string
    requires i < |s|
  {
    var end := NameEnd(s, i);
    if end >= 0 then Value(vars, s[i + 2..i + 2 + end]) else [s[i]]
  }

  function StepNext(s: string, i: nat): (j: nat)
    requires i < |s|
    ensures i < j <= |s|
  {
    var end := NameEnd(s, i);
    if end >= 0 then i + 2 + end + 1 else i + 1
  }

  /** One pass from the start of `s`. */
  function Once(s: string, vars: Vars): string {
    if s == "" then "" else StepText(s, 0, vars) + Once(s[StepNext(s, 0)..], vars)
  }

  /** The body of that loop: one reference, or one byte. */
  method ExpandAt(s: string, i: nat, vars: Vars) returns (text: string, next: nat)
    requires i < |s|
    ensures text == StepText(s, i, vars) && next == StepNext(s, i)
  {
    if i + 1 < |s| && s[i] == '$' && (s[i + 1] == '(' || s[i + 1] == '{') {
      var closeC := ')';
      if s[i + 1] == '{' {
        closeC := '}';
      }
      var end := IndexByte(s[i + 2..], closeC);
      if end < 0 {
        return [s[i]], i + 1;
      }
      var name := s[i + 2..i + 2 + end];
      text := if name in vars then vars[name] else "";
      next := i + 2 + end + 1;
    } else {
      text, next := [s[i]], i + 1;
    }
  }

  lemma StepShift(s: string, i: nat, vars: Vars)
    requires i < |s|
    ensures StepText(s[i..], 0, vars) == StepText(s, i, vars)
    ensures i + StepNext(s[i..], 0) == StepNext(s, i)
  {
    if i + 1 < |s| {
      DropDrop(s, i, 2);
      var end := IndexByte(s[i + 2..], Closer(s[i + 1]));
      if end >= 0 {
        assert s[i..][2..2 + end] == s[i + 2..i + 2 + end];
      }
    }
  }

  lemma OnceFrom(s: string, i: nat, vars: Vars)
    requires i < |s|
    ensures Once(s[i..], vars) == StepText(s, i, vars) + Once(s[StepNext(s, i)..], vars)
  {
    StepShift(s, i, vars);
    DropDrop(s, i, StepNext(s[i..], 0));
  }

  /** expandMakeVarsOnce */
  method ExpandMakeVarsOnce(s: string, vars: Vars) returns (b: string)
    ensures b == Once(s, vars)
  {
    b := "";
    var i := 0;
    while i < |s|
      invariant 0 <= i <= |s|
      invariant Once(s, vars) == b + Once(s[i..], vars)
    {
      OnceFrom(s, i, vars);
      var text, next := ExpandAt(s, i, vars);
      Assoc(b, text, Once(s[next..], vars));
      b := b + text;
      i := next;
    }
  }

  /** No reference opens in `s`, also not with what follows it. */
  ghost predicate OpensNothing(s: string, rest: string) {
    forall i | 0 <= i < |s| && s[i] == '$' :: i + 1 < |s + rest| ==> (s + rest)[i + 1] != '(' && (s + rest)[i + 1] != '{'
  }

  /** Text that opens no reference is kept, dollar signs included. */
  lemma {:induction false} PlainKept(s: string, rest: string, vars: Vars)
    requires OpensNothing(s, rest)
    ensures Once(s + rest, vars) == s + Once(rest, vars)
  {
    if s == "" {
      assert s + rest == rest;
    } else {
      assert (s + rest)[1..] == s[1..] + rest;
      forall i | 0 <= i < |s[1..]| && s[1..][i] == '$' && i + 1 < |s[1..] + rest|
        ensures (s[1..] + rest)[i + 1] != '(' && (s[1..] + rest)[i + 1] != '{'
      {
        assert s[i + 1] == '$' && (s + rest)[i + 2] == (s[1..] + rest)[i + 1];
      }
      PlainKept(s[1..], rest, vars);
    }
  }

  lemma {:induction false} ByteFound(name: string, c: char, rest: string)
    requires c !in name
    ensures IndexByte(name + ([c] + rest), c) == |name|
  {
    if name == "" {
      assert name + ([c] + rest) == [c] + rest;
    } else {
      ByteFound(name[1..], c, rest);
      assert (name + ([c] + rest))[1..] == name[1..] + ([c] + rest);
    }
  }

  /** A reference in either kind of brackets gives way to its value, or to nothing. */
  lemma ReferenceReplaced(name: string, rest: string, vars: Vars)
    ensures ')' !in name ==>
      Once("$(" + (name + (")" + rest)), vars) == (if name in vars then vars[name] else "") + Once(rest, vars)
    ensures '}' !in name ==>
      Once("${" + (name + ("}" + rest)), vars) == (if name in vars then vars[name] else "") + Once(rest, vars)
  {
    if ')' !in name {
      ReferenceAt("$(", name, ")", rest, vars);
    }
    if '}' !in name {
      ReferenceAt("${", name, "}", rest, vars);
    }
  }

  lemma ReferenceAt(open: string, name: string, close: string, rest: string, vars: Vars)
    requires (open == "$(" && close == ")") || (open == "${" && close == "}")
    requires close[0] !in name
    ensures Once(open + (name + (close + rest)), vars) == Value(vars, name) + Once(rest, vars)
  {
    var s := open + (name + (close + rest));
    assert s[2..] == name + (close + rest) && close == [close[0]];
    ByteFound(name, close[0], rest);
    assert s[2..2 + |name|] == name && s[2 + |name| + 1..] == rest;
  }

  lemma {:induction false} ByteAbsent(s: string, c: char)
    ensures IndexByte(s, c) < 0 <==> c !in s
  {
    if s != "" {
      ByteAbsent(s[1..], c);
      assert s == [s[0]] + s[1..];
    }
  }

  /** A reference that is never closed is text. */
  lemma UnclosedKept(rest: string, vars: Vars)
    ensures ')' !in rest ==> Once("$(" + rest, vars) == "$" + Once("(" + rest, vars)
    ensures '}' !in rest ==> Once("${" + rest, vars) == "$" + Once("{" + rest, vars)
  {
    ByteAbsent(rest, ')');
    ByteAbsent(rest, '}');
    assert ("$(" + rest)[2..] == rest && ("$(" + rest)[1..] == "(" + rest;
    assert ("${" + rest)[2..] == rest && ("${" + rest)[1..] == "{" + rest;
  }

  /** `n` passes. */
  function Passes(s: string, vars: Vars, n: nat): string {
    if n == 0 then s else Once(Passes(s, vars, n - 1), vars)
  }

  lemma {:induction false} FixedPoint(s: string, vars: Vars, n: nat, m: nat)
    requires n <= m && Once(Passes(s, vars, n), vars) == Passes(s, vars, n)
    ensures Passes(s, vars, m) == Passes(s, vars, n)
    decreases m - n
  {
    if n < m {
      FixedPoint(s, vars, n, m - 1);
    }
  }

  /** expandMakeVars: stops early only at a fixed point, so it is 32 passes either way. */
  method ExpandMakeVars(s0: string, vars: Vars) returns (s: string)
    ensures s == Passes(s0, vars, MAX_PASSES)
    ensures Once(s, vars) != s ==> forall n | 0 <= n < MAX_PASSES :: Passes(s0, vars, n + 1) != Passes(s0, vars, n)
  {
    s := s0;
    var depth := 0;
    while depth < MAX_PASSES
      invariant 0 <= depth <= MAX_PASSES
      invariant s == Passes(s0, vars, depth)
      invariant forall n | 0 <= n < depth :: Passes(s0, vars, n + 1) != Passes(s0, vars, n)
    {
      var next := ExpandMakeVarsOnce(s, vars);
      if next == s {
        FixedPoint(s0, vars, depth, MAX_PASSES);
        return;
      }
      s := next;
      depth := depth + 1;
    }
  }

  // ------------------------------------------------------------- templates and their meaning

  /** A text with its references made explicit. */
  datatype Piece = Lit(c: char) | Ref(name: string, open: char)

  type Template = seq<Piece>

  ghost predicate WellFormedPiece(p: Piece) {
    match p
    case Lit(c) => c != '$'
    case Ref(name, open) => (open == '(' || open == '{') && Closer(open) !in name && '$' !in name
  }

  ghost predicate WellFormed(t: Template) {
    forall p | p in t :: WellFormedPiece(p)
  }

  function PieceText(p: Piece): string {
    match p
    case Lit(c) => [c]
    case Ref(name, open) => ['$', open] + name + [Closer(open)]
  }

  function Text(t: Template): string {
    if t == [] then "" else PieceText(t[0]) + Text(t[1..])
  }

  type Defs = map<string, Template>

  function TextOf(defs: Defs): Vars {
    map n | n in defs :: Text(defs[n])
  }

  ghost predicate AllWellFormed(defs: Defs) {
    forall n | n in defs :: WellFormed(defs[n])
  }

  function Def(defs: Defs, name: string): Template {
    if name in defs then defs[name] else []
  }

  /** The references in `t` nest at most `k` deep through the definitions. */
  predicate DepthAtMost(defs: Defs, t: Template, k: nat)
    decreases k, |t|
  {
    t != [] ==>
      && (match t[0]
          case Lit(_) => true
          case Ref(name, _) => k > 0 && DepthAtMost(defs, Def(defs, name), k - 1))
      && DepthAtMost(defs, t[1..], k)
  }

  /** Full recursive evaluation; an undefined name evaluates to nothing. */
  function Eval(defs: Defs, t: Template, k: nat): string
    requires DepthAtMost(defs, t, k)
    decreases k, |t| + 1
  {
    if t == [] then "" else EvalPiece(defs, t[0], k) + Eval(defs, t[1..], k)
  }

  function EvalPiece(defs: Defs, p: Piece, k: nat): string
    requires p.Ref? ==> k > 0 && DepthAtMost(defs, Def(defs, p.name), k - 1)
    decreases k, 0
  {
    match p
    case Lit(c) => [c]
    case Ref(name, _) => Eval(defs, Def(defs, name), k - 1)
  }

  /** The bound is only there for termination: any sufficient one gives the same text. */
  lemma {:induction false} EvalStable(defs: Defs, t: Template, k: nat, m: nat)
    requires DepthAtMost(defs, t, k) && k <= m
    ensures DepthAtMost(defs, t, m) && Eval(defs, t, k) == Eval(defs, t, m)
    decreases k, |t|
  {
    if t != [] {
      EvalStable(defs, t[1..], k, m);
      if t[0].Ref? {
        EvalStable(defs, Def(defs, t[0].name), k - 1, m - 1);
      }
    }
  }

  function SubstPiece(defs: Defs, p: Piece): Template {
    if p.Lit? then [p] else Def(defs, p.name)
  }

  /** One pass on templates: every reference replaced by its definition. */
  function Subst(defs: Defs, t: Template): Template {
    if t == [] then [] else SubstPiece(defs, t[0]) + Subst(defs, t[1..])
  }

  lemma {:induction false} TextAppend(a: Template, b: Template)
    ensures Text(a + b) == Text(a) + Text(b)
  {
    if a == [] {
      assert a + b == b && "" + Text(b) == Text(b);
    } else {
      TextAppend(a[1..], b);
      TailAppend(a, b);
      Assoc(PieceText(a[0]), Text(a[1..]), Text(b));
    }
  }

  lemma {:induction false} FirstByte(name: string, c: char, rest: string)
    requires c !in name
    ensures IndexByte(name + [c] + rest, c) == |name|
  {
    if name != "" {
      FirstByte(name[1..], c, rest);
      assert (name + [c] + rest)[1..] == name[1..] + [c] + rest;
    }
  }

  lemma RefText(name: string, open: char, rest: string)
    requires WellFormedPiece(Ref(name, open))
    ensures var s := PieceText(Ref(name, open)) + rest;
      && s[0] == '$' && NameEnd(s, 0) == |name|
      && s[2..2 + |name|] == name && s[2 + |name| + 1..] == rest
  {
    var s := PieceText(Ref(name, open)) + rest;
    assert s[2..] == name + [Closer(open)] + rest;
    FirstByte(name, Closer(open), rest);
  }

  lemma OnceOfPiece(p: Piece, rest: string, vars: Vars)
    requires WellFormedPiece(p)
    ensures Once(PieceText(p) + rest, vars) == (if p.Lit? then [p.c] else Value(vars, p.name)) + Once(rest, vars)
  {
    match p
    case Lit(c) =>
      Cut([c], rest);
    case Ref(name, open) =>
      RefText(name, open, rest);
  }

  /** The pass on text is the pass on templates. */
  lemma {:induction false} OnceIsSubst(defs: Defs, t: Template)
    requires AllWellFormed(defs) && WellFormed(t)
    ensures WellFormed(Subst(defs, t))
    ensures Once(Text(t), TextOf(defs)) == Text(Subst(defs, t))
  {
    if t != [] {
      assert t[0] in t;
      OnceIsSubst(defs, t[1..]);
      OnceOfPiece(t[0], Text(t[1..]), TextOf(defs));
      TextAppend(SubstPiece(defs, t[0]), Subst(defs, t[1..]));
      assert t[0].Lit? ==> Text([t[0]]) == [t[0].c];
    }
  }

  lemma {:induction false} DepthAppend(defs: Defs, a: Template, b: Template, k: nat)
    ensures DepthAtMost(defs, a + b, k) <==> DepthAtMost(defs, a, k) && DepthAtMost(defs, b, k)
    ensures DepthAtMost(defs, a + b, k) ==> Eval(defs, a + b, k) == Eval(defs, a, k) + Eval(defs, b, k)
  {
    if a == [] {
      assert a + b == b;
      assert DepthAtMost(defs, b, k) ==> "" + Eval(defs, b, k) == Eval(defs, b, k);
    } else {
      DepthAppend(defs, a[1..], b, k);
      TailAppend(a, b);
      if DepthAtMost(defs, a, k) && DepthAtMost(defs, b, k) {
        Assoc(EvalPiece(defs, a[0], k), Eval(defs, a[1..], k), Eval(defs, b, k));
      }
    }
  }

  /** Each pass takes exactly one level off the nesting and keeps the meaning. */
  lemma {:induction false} SubstDescends(defs: Defs, t: Template, k: nat)
    ensures DepthAtMost(defs, t, k + 1) <==> DepthAtMost(defs, Subst(defs, t), k)
    ensures DepthAtMost(defs, t, k + 1) ==> Eval(defs, Subst(defs, t), k) == Eval(defs, t, k + 1)
  {
    if t != [] {
      SubstDescends(defs, t[1..], k);
      match t[0]
      case Lit(c) =>
        DepthAppend(defs, [t[0]], Subst(defs, t[1..]), k);
        assert [t[0]][1..] == [];
        assert DepthAtMost(defs, [t[0]], k) && Eval(defs, [t[0]], k) == [c];
      case Ref(name, _) =>
        DepthAppend(defs, Def(defs, name), Subst(defs, t[1..]), k);
    }
  }

  function SubstN(defs: Defs, t: Template, n: nat): Template {
    if n == 0 then t else Subst(defs, SubstN(defs, t, n - 1))
  }

  lemma {:induction false} PassesAreSubsts(defs: Defs, t: Template, n: nat)
    requires AllWellFormed(defs) && WellFormed(t)
    ensures WellFormed(SubstN(defs, t, n))
    ensures Passes(Text(t), TextOf(defs), n) == Text(SubstN(defs, t, n))
  {
    if n > 0 {
      PassesAreSubsts(defs, t, n - 1);
      OnceIsSubst(defs, SubstN(defs, t, n - 1));
    }
  }

  lemma {:induction false} SubstNDescends(defs: Defs, t: Template, n: nat, k: nat)
    ensures DepthAtMost(defs, t, n + k) <==> DepthAtMost(defs, SubstN(defs, t, n), k)
    ensures DepthAtMost(defs, t, n + k) ==> Eval(defs, SubstN(defs, t, n), k) == Eval(defs, t, n + k)
  {
    if n > 0 {
      SubstNDescends(defs, t, n - 1, k + 1);
      SubstDescends(defs, SubstN(defs, t, n - 1), k);
    }
  }

  /** A template is free of references exactly when its text is free of '$', and then is its own value. */
  lemma {:induction false} FlatText(defs: Defs, t: Template)
    requires WellFormed(t)
    ensures DepthAtMost(defs, t, 0) <==> '$' !in Text(t)
    ensures DepthAtMost(defs, t, 0) ==> Eval(defs, t, 0) == Text(t)
  {
    if t != [] {
      assert WellFormedPiece(t[0]);
      FlatText(defs, t[1..]);
      if t[0].Ref? {
        assert Text(t)[0] == '$';
      }
    }
  }

  /** Evaluation leaves no '$' behind. */
  lemma {:induction false} EvalIsFlat(defs: Defs, t: Template, k: nat)
    requires AllWellFormed(defs) && WellFormed(t) && DepthAtMost(defs, t, k)
    ensures '$' !in Eval(defs, t, k)
    decreases k, |t|
  {
    if t != [] {
      assert WellFormedPiece(t[0]);
      EvalIsFlat(defs, t[1..], k);
      if t[0].Ref? {
        EvalIsFlat(defs, Def(defs, t[0].name), k - 1);
      }
    }
  }

  /**
   Main result.  On templates, the bounded expansion is the full recursive evaluation exactly
   when references nest at most 32 deep; otherwise references are left in the result.
   */
  lemma ExpansionIsEvaluation(defs: Defs, t: Template)
    requires AllWellFormed(defs) && WellFormed(t)
    ensures DepthAtMost(defs, t, MAX_PASSES) ==>
      Passes(Text(t), TextOf(defs), MAX_PASSES) == Eval(defs, t, MAX_PASSES)
    ensures DepthAtMost(defs, t, MAX_PASSES) <==> '$' !in Passes(Text(t), TextOf(defs), MAX_PASSES)
  {
    PassesAreSubsts(defs, t, MAX_PASSES);
    SubstNDescends(defs, t, MAX_PASSES, 0);
    FlatText(defs, SubstN(defs, t, MAX_PASSES));
  }

  /** So for a template of any finite depth: equal to its value if and only if 32 passes suffice. */
  lemma ExpansionExact(defs: Defs, t: Template, k: nat)
    requires AllWellFormed(defs) && WellFormed(t) && DepthAtMost(defs, t, k)
    ensures Passes(Text(t), TextOf(defs), MAX_PASSES) == Eval(defs, t, k) <==> DepthAtMost(defs, t, MAX_PASSES)
  {
    ExpansionIsEvaluation(defs, t);
    EvalIsFlat(defs, t, k);
    if DepthAtMost(defs, t, MAX_PASSES) {
      EvalStable(defs, t, if k <= MAX_PASSES then k else MAX_PASSES, if k <= MAX_PASSES then MAX_PASSES else k);
    }
  }

  // ------------------------------------------------------------- a chain of references

  /** The name of the variable `i` references away from the end of the chain. */
  function Link(i: nat): string {
    seq(i + 1, _ => 'a')
  }

  function LinkBody(i: nat): Template {
    if i == 0 then [Lit('x')] else [Ref(Link(i - 1), '(')]
  }

  /** Each variable is defined as a reference to the one before it, the first as the letter x. */
  function ChainOf(n: nat): Defs {
    if n == 0 then map[] else ChainOf(n - 1)[Link(n - 1) := LinkBody(n - 1)]
  }

  lemma {:induction false} ChainDef(n: nat, i: nat)
    requires i < n
    ensures Def(ChainOf(n), Link(i)) == LinkBody(i)
  {
    if i < n - 1 {
      ChainDef(n - 1, i);
      assert |Link(i)| != |Link(n - 1)|;
    }
  }

  lemma {:induction false} ChainIsWellFormed(n: nat, i: nat)
    ensures AllWellFormed(ChainOf(n)) && WellFormed([Ref(Link(i), '(')])
  {
    if n > 0 {
      ChainIsWellFormed(n - 1, i);
    }
  }

  lemma LetterIsFlat(defs: Defs, k: nat)
    ensures DepthAtMost(defs, [Lit('x')], k) && Eval(defs, [Lit('x')], k) == "x"
  {
    var letter: Template := [Lit('x')];
    assert letter[1..] == [];
    assert DepthAtMost(defs, letter, k);
  }

  /** A reference to variable `i` nests i + 1 deep, and its value is the letter. */
  lemma {:induction false} ChainDepth(n: nat, i: nat, k: nat)
    requires i < n
    ensures DepthAtMost(ChainOf(n), [Ref(Link(i), '(')], k) <==> i < k
    ensures i < k ==> Eval(ChainOf(n), [Ref(Link(i), '(')], k) == "x"
    decreases i
  {
    var t := [Ref(Link(i), '(')];
    assert t[1..] == [];
    ChainDef(n, i);
    if k > 0 {
      if i > 0 {
        ChainDepth(n, i - 1, k - 1);
      } else {
        LetterIsFlat(ChainOf(n), k - 1);
      }
    }
  }

  /** 32 references in a row are expanded; 33 are not, and a reference is left over. */
  lemma ChainExpands(i: nat)
    ensures AllWellFormed(ChainOf(i + 1)) && WellFormed([Ref(Link(i), '(')])
    ensures var text := Passes(Text([Ref(Link(i), '(')]), TextOf(ChainOf(i + 1)), MAX_PASSES);
      if i < 32 then text == "x" else '$' in text
  {
    ChainIsWellFormed(i + 1, i);
    ChainDepth(i + 1, i, MAX_PASSES);
    ExpansionIsEvaluation(ChainOf(i + 1), [Ref(Link(i), '(')]);
  }
}
