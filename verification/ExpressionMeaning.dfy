/**
 cmd/write-a/conditional.go: what the parsed conditions mean.  The parsers match a tuple exactly
 when the condition has a recognised shape and is true, so nesting they do not support is never
 misread.
 */
module ExpressionMeaning {
  import opened AtomSyntax
  import opened ConditionTrees
  import opened ConditionParts
  import opened ConditionReading
  import opened Conditional
  import opened Expressions

  // ------------------------------------------------------------- meaning

  predicate Holds(a: Atom, tuple: Tuple) {
    a.varname in tuple &&
    match a
    case Eq(x, v) => tuple[x] == v
    case Neq(x, v) => tuple[x] != v
    case In(x, vs) => tuple[x] in vs
  }

  /** The lowered values say all there is to say: != needs the closed set of architectures. */
  predicate Decidable(a: Atom, tuple: Tuple) {
    if a.varname == TARGET_ARCH then a.varname in tuple ==> IsSupported(tuple[a.varname]) else !a.Neq?
  }

  predicate Meaning(e: Expr, tuple: Tuple)
    requires WellFormed(e)
  {
    match e
    case Leaf(t) => Holds(MatchAtom(t).value, tuple)
    case Group(x) => Meaning(x, tuple)
    case Join(op, l, r) =>
      if op == OrOp then Meaning(l, tuple) || Meaning(r, tuple) else Meaning(l, tuple) && Meaning(r, tuple)
  }

  predicate AllDecidable(e: Expr, tuple: Tuple)
    requires WellFormed(e)
  {
    match e
    case Leaf(t) => Decidable(MatchAtom(t).value, tuple)
    case Group(x) => AllDecidable(x, tuple)
    case Join(_, l, r) => AllDecidable(l, tuple) && AllDecidable(r, tuple)
  }

  /** True by atoms that hold and are decidable. */
  predicate Fires(e: Expr, tuple: Tuple)
    requires WellFormed(e)
  {
    match e
    case Leaf(t) => Holds(MatchAtom(t).value, tuple) && Decidable(MatchAtom(t).value, tuple)
    case Group(x) => Fires(x, tuple)
    case Join(op, l, r) =>
      if op == OrOp then Fires(l, tuple) || Fires(r, tuple) else Fires(l, tuple) && Fires(r, tuple)
  }

  /** The shapes the parsers understand: an atom, a chain of or over one variable, a chain of and. */
  predicate Recognised(e: Expr)
    requires WellFormed(e)
  {
    var f := Stripped(e);
    || LoneAtom(f)
    || (ChainOf(f, OrOp) && OnlyVariable(f, FirstVariable(f)))
    || ChainOf(LooselyOpened(e), AndOp)
  }

  /** An atom's lowered values match exactly when it holds and is decidable. */
  lemma {:induction false} LowerMeaning(a: Atom, tuple: Tuple)
    ensures Allows(Lower(a), tuple) <==> Holds(a, tuple) && Decidable(a, tuple)
  {
  }

  lemma {:induction false} ConcatFires(a: seq<Parsed>, b: seq<Parsed>, tuple: Tuple)
    ensures SomeFires(a + b, tuple) <==> SomeFires(a, tuple) || SomeFires(b, tuple)
    ensures AllAllow(a + b, tuple) <==> AllAllow(a, tuple) && AllAllow(b, tuple)
  {
  }

  /** With one kind of connective, grouping does not matter. */
  lemma {:induction false} FiresByValues(e: Expr, tuple: Tuple)
    requires WellFormed(e)
    ensures !Uses(e, AndOp) ==> (Fires(e, tuple) <==> SomeFires(Values(e), tuple))
    ensures !Uses(e, OrOp) ==> (Fires(e, tuple) <==> AllAllow(Values(e), tuple))
  {
    match e {
      case Leaf(t) =>
        LowerMeaning(MatchAtom(t).value, tuple);
        assert Lowered(t) in Values(e);
      case Group(x) => FiresByValues(x, tuple);
      case Join(_, l, r) =>
        FiresByValues(l, tuple);
        FiresByValues(r, tuple);
        ConcatFires(Values(l), Values(r), tuple);
    }
  }

  // ------------------------------------------------------------- main results

  lemma OrFires(qs: seq<Parsed>, r: Parsed, tuple: Tuple)
    requires AllNamed(qs, r.varname) && forall x :: x in r.arches <==> SomeAllows(qs, x)
    ensures Allows(r, tuple) <==> SomeFires(qs, tuple)
  {
  }

  lemma AndFires(qs: seq<Parsed>, r: Parsed, tuple: Tuple)
    requires qs != [] && AllNamed(qs, r.varname) && forall x :: x in r.arches <==> EveryAllows(qs, x)
    ensures Allows(r, tuple) <==> AllAllow(qs, tuple)
  {
    assert qs[0] in qs;
  }

  /** A chain folded into one variable: it matches exactly when the tree fires. */
  lemma FoldedChain(f: Expr, op: Op, tuple: Tuple)
    requires WellFormed(f) && ChainOf(f, op)
    ensures var r := Fold(Values(f), op == AndOp, "", [], true);
      && (r.varname != "" <==> OnlyVariable(f, FirstVariable(f)))
      && (r.varname != "" ==> (Allows(r, tuple) <==> Fires(f, tuple)))
  {
    var qs := Values(f);
    var r := Fold(qs, op == AndOp, "", [], true);
    ChainShows(f, op);
    ValuesAreNamed(f);
    assert qs[0] in qs;
    FoldWhole(qs, op == AndOp);
    NamesOfValues(f, FirstVariable(f));
    FiresByValues(f, tuple);
    if r.varname != "" {
      if op == OrOp {
        OrFires(qs, r, tuple);
      } else {
        AndFires(qs, r, tuple);
      }
    }
  }

  lemma ChainFires(g: Expr, tuple: Tuple)
    requires WellFormed(g) && ChainOf(g, AndOp)
    ensures AllAllow(Values(g), tuple) <==> Fires(g, tuple)
  {
    ChainShows(g, AndOp);
    FiresByValues(g, tuple);
  }

  lemma OpenedAlike(e: Expr)
    requires WellFormed(e) && Stripped(e).Join?
    ensures LooselyOpened(e) == Stripped(e)
  {
    if e.Group? {
      GroupStripped(e);
    }
  }

  /** For every condition, however nested: it matches exactly when recognised and true by decidable atoms. */
  lemma MatchExact(e: Expr, tuple: Tuple)
    requires WellFormed(e)
    ensures Matches(Print(e), tuple) <==> Recognised(e) && Fires(e, tuple)
  {
    var f, g := Stripped(e), LooselyOpened(e);
    StaysWellFormed(e);
    TreesParse(e, f);
    TreesMixed(e, g);
    ChainShows(f, OrOp);
    ChainShows(f, AndOp);
    if ChainOf(g, AndOp) {
      ChainFires(g, tuple);
    }
    if LoneAtom(f) {
      LoweredName(f.text);
      LowerMeaning(MatchAtom(f.text).value, tuple);
    } else if ChainOf(f, OrOp) {
      OpenedAlike(e);
      FoldedChain(f, OrOp, tuple);
    } else if ChainOf(f, AndOp) {
      OpenedAlike(e);
      FoldedChain(f, AndOp, tuple);
    }
  }

  lemma {:induction false} FiresIsTrue(e: Expr, tuple: Tuple)
    requires WellFormed(e)
    ensures Fires(e, tuple) ==> Meaning(e, tuple)
    ensures AllDecidable(e, tuple) ==> (Fires(e, tuple) <==> Meaning(e, tuple))
  {
    match e {
      case Leaf(_) =>
      case Group(x) => FiresIsTrue(x, tuple);
      case Join(_, l, r) =>
        FiresIsTrue(l, tuple);
        FiresIsTrue(r, tuple);
    }
  }

  /** A branch never fires on a tuple its condition is false of. */
  lemma {:induction false} NeverMisread(e: Expr, tuple: Tuple)
    requires WellFormed(e) && Matches(Print(e), tuple)
    ensures Meaning(e, tuple)
  {
    MatchExact(e, tuple);
    FiresIsTrue(e, tuple);
  }

  /** On recognised conditions with decidable atoms, matching is evaluation. */
  lemma {:induction false} MatchIsMeaning(e: Expr, tuple: Tuple)
    requires WellFormed(e) && Recognised(e) && AllDecidable(e, tuple)
    ensures Matches(Print(e), tuple) <==> Meaning(e, tuple)
  {
    MatchExact(e, tuple);
    FiresIsTrue(e, tuple);
  }
}
