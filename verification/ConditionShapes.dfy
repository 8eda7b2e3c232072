/**
 Conditions whose operands hold no connective and no stray parenthesis: for those the recognised
 shapes can be told from the tree alone.  And which documented spellings are of this kind.
 */
module ConditionShapes {
  import opened AtomSyntax
  import opened ConditionReading
  import opened ConditionTrees
  import opened Conditional
  import opened ExpressionMeaning
  import opened Expressions
  import opened Sequences
  import opened Text

  function Pad(s: string): string {
    " " + s + " "
  }

  predicate PlainLeaf(t: string) {
    && LeafText(t) && Balanced(t)
    && !Contains(Pad(t), OR) && !Contains(Pad(t), AND)
  }

  predicate AllPlain(e: Expr) {
    match e
    case Leaf(t) => PlainLeaf(t)
    case Group(x) => AllPlain(x)
    case Join(_, l, r) => AllPlain(l) && AllPlain(r)
  }

  /** One pair of parentheses around everything is ignored. */
  function Unwrapped(e: Expr): Expr {
    if e.Group? then e.inner else e
  }

  /** A chain of atoms, each in at most one pair of parentheses. */
  predicate Flat(e: Expr) {
    match e
    case Leaf(_) => true
    case Group(x) => x.Leaf?
    case Join(_, l, r) => Flat(l) && Flat(r)
  }

  /** An atom, a chain of or over one variable, or a chain of and. */
  predicate Supported(e: Expr)
    requires WellFormed(e)
  {
    var f := Unwrapped(e);
    || f.Leaf?
    || (f.Join? && Flat(f) && !Uses(f, AndOp) && OnlyVariable(f, FirstVariable(f)))
    || (f.Join? && Flat(f) && !Uses(f, OrOp))
  }

  // ------------------------------------------------------------- which connectives the text holds

  /** A byte the separator lacks keeps occurrences on either side of it. */
  lemma {:induction false} Glue(a: string, c: char, b: string, sep: string)
    requires sep != "" && c !in sep && !Contains(a, sep) && !Contains(b, sep)
    ensures !Contains(a + [c] + b, sep)
  {
    var s := a + [c] + b;
    forall p | 0 <= p <= |s|
      ensures !OccursAt(s, sep, p)
    {
      if p + |sep| <= |s| {
        if p + |sep| <= |a| {
          assert s[p..p + |sep|] == a[p..p + |sep|];
          assert !OccursAt(a, sep, p);
        } else if p > |a| {
          assert s[p..p + |sep|] == b[p - |a| - 1..p - |a| - 1 + |sep|];
          assert !OccursAt(b, sep, p - |a| - 1);
        } else {
          assert sep[|a| - p] in sep;
          NotAt(s, sep, p, |a| - p);
        }
      }
    }
  }

  lemma {:induction false} ShortHasNone(s: string, sep: string)
    requires |s| < |sep|
    ensures !Contains(s, sep)
  {
  }

  /** Parentheses create no connective. */
  lemma {:induction false} ParensAddNone(s: string, op: Op)
    requires !Contains(Pad(s), Sep(op))
    ensures !Contains(Pad("(" + s), Sep(op)) && !Contains(Pad(s + ")"), Sep(op)) && !Contains(s, Sep(op))
  {
    var sep := Sep(op);
    ShortHasNone(" ", sep);
    Within(" ", s + " ", "", sep);
    assert " " + (s + " ") + "" == Pad(s);
    Glue(" ", '(', s + " ", sep);
    assert " " + ['('] + (s + " ") == Pad("(" + s);
    Within("", " " + s, " ", sep);
    assert "" + (" " + s) + " " == Pad(s);
    Glue(" " + s, ')', " ", sep);
    assert " " + s + [')'] + " " == Pad(s + ")");
    Within(" ", s, " ", sep);
  }

  lemma {:induction false} PaddedGroupAddsNone(s: string, op: Op)
    requires !Contains(Pad(s), Sep(op))
    ensures !Contains(Pad("(" + s + ")"), Sep(op))
  {
    ParensAddNone(s, op);
    ParensAddNone("(" + s, op);
  }

  function Word(op: Op): string {
    if op == OrOp then "or" else "and"
  }

  lemma {:induction false} OtherWord(a: string, o: Op, b: string, op: Op)
    requires o != op && !Contains(a, Sep(op)) && !Contains(b, Sep(op))
    ensures !Contains(a + Word(o) + b, Sep(op))
  {
    var sep := Sep(op);
    ShortHasNone("", sep);
    if o == OrOp {
      Glue(a, 'o', "", sep);
      Glue(a + ['o'] + "", 'r', b, sep);
      assert a + ['o'] + "" + ['r'] + b == a + Word(o) + b;
    } else {
      Glue(a, 'a', "", sep);
      Glue(a + ['a'] + "", 'n', "", sep);
      Glue(a + ['a'] + "" + ['n'] + "", 'd', b, sep);
      assert a + ['a'] + "" + ['n'] + "" + ['d'] + b == a + Word(o) + b;
    }
  }

  lemma {:induction false} JoinAddsNone(a: string, o: Op, b: string, op: Op)
    requires o != op && !Contains(Pad(a), Sep(op)) && !Contains(Pad(b), Sep(op))
    ensures !Contains(Pad(a + Sep(o) + b), Sep(op))
  {
    OtherWord(Pad(a), o, Pad(b), op);
    assert Pad(a + Sep(o) + b) == Pad(a) + Word(o) + Pad(b);
  }

  /** Plain leaves add no connective to those of the tree. */
  lemma {:induction false} Absent(e: Expr, op: Op)
    requires AllPlain(e) && !Uses(e, op)
    ensures !Contains(Pad(Print(e)), Sep(op)) && !Contains(Print(e), Sep(op))
  {
    match e {
      case Leaf(_) =>
      case Group(x) =>
        Absent(x, op);
        PaddedGroupAddsNone(Print(x), op);
      case Join(o, l, r) =>
        Absent(l, op);
        Absent(r, op);
        JoinAddsNone(Print(l), o, Print(r), op);
    }
    Within(" ", Print(e), " ", Sep(op));
  }

  lemma {:induction false} NoParensWalk(s: string)
    requires forall i | 0 <= i < |s| :: s[i] != '(' && s[i] != ')'
    ensures Walk(s, 0) == 0
  {
    if s != "" {
      NoParensWalk(s[1..]);
    }
  }

  lemma GroupBalanced(s: string)
    requires Balanced(s)
    ensures Balanced("(" + s + ")")
  {
    WalkDeeper(s, 0, 1);
    WalkAppend("(" + s, ")", 0);
    WalkAppend("(", s, 0);
    assert "("[1..] == "" && ")"[1..] == "";
    assert Walk("(", 0) == 1 && Walk(")", 1) == 0;
  }

  lemma {:induction false} PlainIsBalanced(e: Expr)
    requires AllPlain(e)
    ensures Balanced(Print(e))
  {
    match e {
      case Leaf(_) =>
      case Group(x) =>
        PlainIsBalanced(x);
        GroupBalanced(Print(x));
      case Join(op, l, r) =>
        PlainIsBalanced(l);
        PlainIsBalanced(r);
        WalkAppend(Print(l) + Sep(op), Print(r), 0);
        WalkAppend(Print(l), Sep(op), 0);
        NoParensWalk(Sep(op));
    }
  }

  lemma {:induction false} SeparableIsFlat(e: Expr, op: Op)
    requires AllPlain(e)
    ensures Separable(e, op) <==> Flat(e)
  {
    match e {
      case Leaf(t) => Within(" ", t, " ", Sep(op));
      case Group(x) =>
        if x.Leaf? {
          Within(" ", x.text, " ", Sep(op));
        }
      case Join(_, l, r) =>
        SeparableIsFlat(l, op);
        SeparableIsFlat(r, op);
    }
  }

  lemma PlainUnwraps(e: Expr)
    requires WellFormed(e) && AllPlain(e)
    ensures Stripped(e) == LooselyOpened(e) == Unwrapped(e)
  {
    if e.Group? {
      PlainIsBalanced(e.inner);
      GroupStripped(e);
    }
  }

  lemma PlainChain(f: Expr, op: Op)
    requires AllPlain(f)
    ensures ChainOf(f, op) <==> f.Join? && Flat(f) && !Uses(f, Other(op))
  {
    SeparableIsFlat(f, op);
    Present(f, Other(op));
    if !Uses(f, Other(op)) {
      Absent(f, Other(op));
    }
  }

  /** With plain operands the recognised conditions are those of a supported shape. */
  lemma PlainRecognised(e: Expr)
    requires WellFormed(e) && AllPlain(e)
    ensures Recognised(e) <==> Supported(e)
  {
    var f := Unwrapped(e);
    PlainUnwraps(e);
    PlainChain(f, OrOp);
    PlainChain(f, AndOp);
    if f.Leaf? {
      Absent(f, OrOp);
      Absent(f, AndOp);
    }
  }

  // ------------------------------------------------------------- documented spellings that are plain

  lemma WholeSlice(s: string, n: nat)
    requires n == |s|
    ensures s[0..n] == s
  {
  }

  /** A name between two spaces is a connective only if it is that word. */
  lemma NameBetweenSpaces(x: string, op: Op)
    requires IsIdent(x) && x != Word(op)
    ensures !Contains(Pad(x), Sep(op))
  {
    var s, sep := Pad(x), Sep(op);
    forall p | 0 <= p <= |s|
      ensures !OccursAt(s, sep, p)
    {
      if p + |sep| <= |s| {
        if 0 < p {
          assert IdentChar(s[p]) && sep[0] == ' ';
          NotAt(s, sep, p, 0);
        } else if |sep| < |s| {
          assert IdentChar(s[|sep| - 1]) && sep[|sep| - 1] == ' ';
          NotAt(s, sep, 0, |sep| - 1);
        } else {
          assert s[1..|s| - 1] == x && sep[1..|sep| - 1] == Word(op);
          WholeSlice(s, |sep|);
        }
      }
    }
  }

  /** A test of the operands of an atom. */
  ghost predicate SomeOperand(a: Atom, p: string -> bool) {
    match a
    case Eq(_, v) => p(v)
    case Neq(_, v) => p(v)
    case In(_, vs) => exists v :: v in vs && p(v)
  }

  function Holding(c: string): string -> bool {
    v => Contains(v, c)
  }

  lemma QuotedHas(a: string, v: string, q: char, b: string, op: Op)
    requires Quote(q) && !Contains(a, Sep(op)) && !Contains(b, Sep(op))
    ensures Contains(a + InQuotes(v, q) + b, Sep(op)) <==> Contains(v, Sep(op))
  {
    assert a + [q] + v + [q] + b == a + InQuotes(v, q) + b;
    if Contains(v, Sep(op)) {
      Within(a + [q], v, [q] + b, Sep(op));
      assert a + [q] + v + ([q] + b) == a + [q] + v + [q] + b;
    } else {
      Glue(a, q, v, Sep(op));
      Glue(a + [q] + v, q, b, Sep(op));
    }
  }

  /** A quoted text in front of another text. */
  lemma QuotedThen(a: string, v: string, q: char, b: string, op: Op)
    requires Quote(q) && !Contains(a, Sep(op))
    ensures Contains(a + InQuotes(v, q) + b, Sep(op)) <==> Contains(v, Sep(op)) || Contains(b, Sep(op))
  {
    if Contains(b, Sep(op)) {
      Within(a + InQuotes(v, q), b, "", Sep(op));
      assert a + InQuotes(v, q) + b + "" == a + InQuotes(v, q) + b;
    } else {
      QuotedHas(a, v, q, b, op);
    }
  }

  predicate SomeHas(vs: seq<string>, op: Op) {
    exists v :: v in vs && Contains(v, Sep(op))
  }

  lemma SomeHasStep(vs: seq<string>, op: Op)
    requires vs != []
    ensures SomeHas(vs, op) <==> Contains(vs[0], Sep(op)) || SomeHas(vs[1..], op)
  {
    assert vs == [vs[0]] + vs[1..];
    assert vs[0] in vs;
  }

  lemma {:induction false} ListHas(vs: seq<string>, q: char, op: Op)
    requires Quote(q)
    ensures Contains(List(vs, q), Sep(op)) <==> SomeHas(vs, op)
    ensures Contains(", " + List(vs, q), Sep(op)) <==> SomeHas(vs, op)
    decreases vs
  {
    ShortHasNone("", Sep(op));
    ShortHasNone(", ", Sep(op));
    if vs == [] {
      assert ", " + "" == ", ";
    } else {
      var rest := if |vs| == 1 then "" else ", " + List(vs[1..], q);
      ListHas(vs[1..], q, op);
      SomeHasStep(vs, op);
      assert "" + InQuotes(vs[0], q) + rest == List(vs, q);
      QuotedThen("", vs[0], q, rest, op);
      assert ", " + InQuotes(vs[0], q) + rest == ", " + List(vs, q);
      QuotedThen(", ", vs[0], q, rest, op);
    }
  }

  /** A text that begins with the word of a connective, padded, holds the connective. */
  lemma WordHas(op: Op, more: string)
    ensures Contains(Pad(Word(op) + (" " + more)), Sep(op))
  {
    var s := Pad(Word(op) + (" " + more));
    assert s[0..|Sep(op)|] == Sep(op);
    assert OccursAt(s, Sep(op), 0);
  }

  /** What stands in front of an operand holds a connective only if it is the variable. */
  lemma HeadHas(x: string, op: Op, c: char, rest: string)
    requires IsIdent(x) && x != Word(op) && c !in Sep(op) && !Contains(rest, Sep(op))
    ensures !Contains(Pad(x) + [c] + rest, Sep(op))
  {
    NameBetweenSpaces(x, op);
    Glue(Pad(x), c, rest, Sep(op));
  }

  lemma ComparisonHas(x: string, c: char, v: string, q: char, op: Op)
    requires IsIdent(x) && Quote(q) && (c == '=' || c == '!')
    ensures Contains(Pad(x + (" " + [c, '='] + (" " + InQuotes(v, q)))), Sep(op)) <==> x == Word(op) || Contains(v, Sep(op))
  {
    ShortHasNone("= ", Sep(op));
    ShortHasNone(" ", Sep(op));
    var s := Pad(x + (" " + [c, '='] + (" " + InQuotes(v, q))));
    assert Pad(x) + [c] + ("= " + InQuotes(v, q) + " ") == s;
    assert Pad(x) + [c] + "= " + InQuotes(v, q) + " " == s;
    if x == Word(op) {
      assert Pad(x + (" " + ([c, '='] + (" " + InQuotes(v, q))))) == s;
      WordHas(op, [c, '='] + (" " + InQuotes(v, q)));
    } else {
      HeadHas(x, op, c, "= ");
      QuotedHas(Pad(x) + [c] + "= ", v, q, " ", op);
    }
  }

  lemma ListInside(x: string, list: string, op: Op)
    requires Contains(list, Sep(op))
    ensures Contains(Pad(x) + ['i'] + ("n " + ['('] + (list + [')'] + " ")), Sep(op))
  {
    Within(Pad(x) + "in (", list, ") ", Sep(op));
    assert Pad(x) + "in (" + list + ") " == Pad(x) + ['i'] + ("n " + ['('] + (list + [')'] + " "));
  }

  lemma ListOutside(x: string, list: string, op: Op)
    requires IsIdent(x) && x != Word(op) && !Contains(list, Sep(op))
    ensures !Contains(Pad(x) + ['i'] + ("n " + ['('] + (list + [')'] + " ")), Sep(op))
  {
    ShortHasNone("n ", Sep(op));
    ShortHasNone(" ", Sep(op));
    Glue(list, ')', " ", Sep(op));
    Glue("n ", '(', list + [')'] + " ", Sep(op));
    HeadHas(x, op, 'i', "n " + ['('] + (list + [')'] + " "));
  }

  lemma WordMembership(op: Op, list: string)
    ensures Contains(Pad(Word(op) + (" " + "in" + (" (" + list + ")"))), Sep(op))
  {
    WordHas(op, "in" + (" (" + list + ")"));
    Assoc(" ", "in", " (" + list + ")");
  }

  lemma Regrouped(x: string, list: string)
    ensures Pad(x) + ['i'] + ("n " + ['('] + (list + [')'] + " ")) == Pad(x + (" " + "in" + (" (" + list + ")")))
  {
  }

  lemma MembershipHas(x: string, vs: seq<string>, q: char, op: Op)
    requires IsIdent(x) && Quote(q)
    ensures Contains(Pad(x + (" " + "in" + (" (" + List(vs, q) + ")"))), Sep(op))
      <==> x == Word(op) || SomeHas(vs, op)
  {
    var list := List(vs, q);
    ListHas(vs, q, op);
    Regrouped(x, list);
    if x == Word(op) {
      WordMembership(op, list);
    } else if Contains(list, Sep(op)) {
      ListInside(x, list, op);
    } else {
      ListOutside(x, list, op);
    }
  }

  /** The spelling holds a connective exactly when an operand does, or the variable is named like one. */
  lemma SpellHas(a: Atom, q: char, op: Op)
    requires Spellable(a) && Quote(q)
    ensures Contains(Pad(Spell(a, q)), Sep(op)) <==> a.varname == Word(op) || SomeOperand(a, Holding(Sep(op)))
  {
    match a {
      case Eq(x, v) =>
        assert "==" == ['=', '='];
        ComparisonHas(x, '=', v, q, op);
      case Neq(x, v) =>
        assert "!=" == ['!', '='];
        ComparisonHas(x, '!', v, q, op);
      case In(x, vs) =>
        MembershipHas(x, vs, q, op);
        assert (exists v :: v in vs && Holding(Sep(op))(v)) <==> SomeHas(vs, op);
    }
  }

  // ------------------------------------------------------------- parentheses in spellings

  lemma {:induction false} ListOpens(vs: seq<string>, q: char)
    requires Quote(q)
    ensures '(' in List(vs, q) <==> exists v :: v in vs && '(' in v
    decreases vs
  {
    if vs != [] {
      ListOpens(vs[1..], q);
      assert vs == [vs[0]] + vs[1..];
      assert '(' in InQuotes(vs[0], q) <==> '(' in vs[0];
      if |vs| > 1 {
        assert List(vs, q) == InQuotes(vs[0], q) + ", " + List(vs[1..], q);
      }
    }
  }

  lemma {:induction false} WalkWithoutClose(s: string, depth: nat)
    requires ')' !in s
    ensures Walk(s, depth) >= depth && (Walk(s, depth) == depth <==> '(' !in s)
  {
    if s != "" {
      assert s == [s[0]] + s[1..];
      WalkWithoutClose(s[1..], if s[0] == '(' then depth + 1 else depth);
    }
  }

  lemma NoParensAround(a: string, v: string, b: string)
    requires '(' !in a && ')' !in a && '(' !in b && ')' !in b
    ensures Balanced(a + v + b) <==> Balanced(v)
  {
    WalkWithoutClose(a, 0);
    WalkAppend(a, v, 0);
    WalkAppend(a + v, b, 0);
    if Walk(v, 0) >= 0 {
      WalkWithoutClose(b, Walk(v, 0));
    }
  }

  lemma IdentHasNoParens(x: string)
    requires IsIdent(x)
    ensures '(' !in x && ')' !in x
  {
  }

  lemma ListBalanced(head: string, list: string)
    requires '(' !in head && ')' !in head && ')' !in list
    ensures Balanced(head + ("(" + list + ")")) <==> '(' !in list
  {
    WalkWithoutClose(head, 0);
    WalkAppend(head, "(" + list + ")", 0);
    WalkAppend("(" + list, ")", 0);
    WalkAppend("(", list, 0);
    WalkWithoutClose(list, 1);
    assert "("[1..] == "" && ")"[1..] == "";
    assert Walk("(", 0) == 1;
    assert Walk(")", Walk(list, 1)) == Walk(list, 1) - 1;
  }

  /** Operands that leave the spelling balanced; a list that is read has no closing parenthesis to balance an opening one. */
  ghost predicate BalancedOperands(a: Atom) {
    match a
    case Eq(_, v) => Balanced(v)
    case Neq(_, v) => Balanced(v)
    case In(_, vs) => forall v | v in vs :: '(' !in v
  }

  lemma CallBalanced(x: string, list: string)
    requires IsIdent(x) && ')' !in list
    ensures Balanced(x + (" " + "in" + (" (" + list + ")"))) <==> '(' !in list
  {
    IdentHasNoParens(x);
    assert x + (" " + "in" + (" (" + list + ")")) == x + " in " + ("(" + list + ")");
    ListBalanced(x + " in ", list);
  }

  lemma MembershipBalanced(x: string, vs: seq<string>, q: char)
    requires Spellable(In(x, vs)) && Enclosed(In(x, vs)) && Quote(q)
    ensures Balanced(Spell(In(x, vs), q)) <==> forall v | v in vs :: '(' !in v
  {
    ListCloses(vs, q);
    ListOpens(vs, q);
    CallBalanced(x, List(vs, q));
  }

  lemma ComparisonBalanced(x: string, op: string, v: string, q: char)
    requires IsIdent(x) && Quote(q) && '(' !in op && ')' !in op
    ensures Balanced(x + (" " + op + (" " + InQuotes(v, q)))) <==> Balanced(v)
  {
    IdentHasNoParens(x);
    var head := x + " " + op + " " + [q];
    assert x + (" " + op + (" " + InQuotes(v, q))) == head + v + [q];
    NoParensAround(head, v, [q]);
  }

  lemma SpellBalanced(a: Atom, q: char)
    requires Spellable(a) && Enclosed(a) && Quote(q)
    ensures Balanced(Spell(a, q)) <==> BalancedOperands(a)
  {
    match a {
      case Eq(x, v) => ComparisonBalanced(x, "==", v, q);
      case Neq(x, v) => ComparisonBalanced(x, "!=", v, q);
      case In(x, vs) => MembershipBalanced(x, vs, q);
    }
  }

  lemma SpellTrimmed(a: Atom, q: char)
    requires Spellable(a) && Quote(q)
    ensures Trimmed(Spell(a, q))
  {
    var s := Spell(a, q);
    assert s[0] == a.varname[0] && IdentStart(s[0]);
    assert s[|s| - 1] == if a.In? then ')' else q;
  }

  /** No operand holds a connective or an unpaired parenthesis, and the variable is not named like a connective. */
  ghost predicate PlainAtom(a: Atom) {
    && a.varname != "or" && a.varname != "and" && BalancedOperands(a)
    && !SomeOperand(a, Holding(OR)) && !SomeOperand(a, Holding(AND))
  }

  /** Every documented atom that is read back may be a leaf of a condition, and exactly these are plain leaves. */
  lemma DocumentedLeaves(a: Atom, q: char)
    requires Spellable(a) && Quote(q)
    ensures LeafText(Spell(a, q)) <==> Enclosed(a)
    ensures PlainLeaf(Spell(a, q)) <==> Enclosed(a) && PlainAtom(a)
  {
    SpelledReadBack(a, q);
    SpellTrimmed(a, q);
    SpellHas(a, q, OrOp);
    SpellHas(a, q, AndOp);
    if Enclosed(a) {
      SpellBalanced(a, q);
    }
  }

  /** An atom by itself whose operands hold one of the connectives and not the other is never matched. */
  lemma ConnectiveOperandIsRefused(a: Atom, q: char, tuple: Tuple)
    requires Spellable(a) && Enclosed(a) && Quote(q)
    requires Contains(Spell(a, q), OR) != Contains(Spell(a, q), AND)
    ensures !Matches(Spell(a, q), tuple)
  {
    DocumentedLeaves(a, q);
    MatchExact(Leaf(Spell(a, q)), tuple);
  }
}
