/**
 cmd/write-a/conditional.go: what the two parsers make of the text of a whole tree, including trees
 whose operands hold connectives or parentheses.
 */
module ConditionReading {
  import opened AtomSyntax
  import opened ConditionTrees
  import opened ConditionParts
  import opened Expressions
  import opened Options
  import opened Sequences
  import opened Text

  // ------------------------------------------------------------- shapes

  /** A chain of one connective whose parts can be told apart in the text. */
  predicate ChainOf(e: Expr, op: Op) {
    e.Join? && Separable(e, op) && !Contains(Print(e), Sep(Other(op)))
  }

  /** What is left when the first parser has stripped outer parentheses: it asks for balance. */
  function Stripped(e: Expr): Expr {
    if e.Group? && Balanced(Print(e.inner)) then e.inner else e
  }

  /** What the second parser leaves: its scan only looks for an early end. */
  function LooselyOpened(e: Expr): Expr {
    if e.Group? && LooselySpans(Print(e), 0, 0) then e.inner else e
  }

  /** An atom by itself: its text does not look like a chain of one connective. */
  predicate LoneAtom(e: Expr) {
    e.Leaf? && (Contains(e.text, OR) <==> Contains(e.text, AND))
  }

  predicate OnlyVariable(e: Expr, v: string)
    requires WellFormed(e)
  {
    match e
    case Leaf(t) => MatchAtom(t).value.varname == v
    case Group(x) => OnlyVariable(x, v)
    case Join(_, l, r) => OnlyVariable(l, v) && OnlyVariable(r, v)
  }

  function FirstVariable(e: Expr): string
    requires WellFormed(e)
  {
    match e
    case Leaf(t) => MatchAtom(t).value.varname
    case Group(x) => FirstVariable(x)
    case Join(_, l, _) => FirstVariable(l)
  }

  // ------------------------------------------------------------- trees and their pieces

  /** The lowered atoms, from left to right. */
  function Values(e: Expr): (qs: seq<Parsed>)
    requires WellFormed(e)
    ensures qs != [] && |qs| == |Pieces(e)|
  {
    match e
    case Leaf(t) => [Lowered(t)]
    case Group(x) => Values(x)
    case Join(_, l, r) => Values(l) + Values(r)
  }

  /** The values are the lowered leaves of the pieces. */
  ghost predicate Aligned(ps: seq<Piece>, qs: seq<Parsed>) {
    |ps| == |qs| && forall i | 0 <= i < |ps| :: LeafText(ps[i].leaf) && Lowered(ps[i].leaf) == qs[i]
  }

  lemma AlignedConcat(a: seq<Piece>, x: seq<Parsed>, b: seq<Piece>, y: seq<Parsed>)
    requires Aligned(a, x) && Aligned(b, y)
    ensures Aligned(a + b, x + y)
  {
  }

  lemma AlignedWrap(ps: seq<Piece>, qs: seq<Parsed>)
    requires ps != [] && Aligned(ps, qs)
    ensures Aligned(Wrap(ps), qs)
  {
    assert forall i | 0 <= i < |ps| :: Wrap(ps)[i].leaf == ps[i].leaf;
  }

  lemma {:induction false} ValuesOfPieces(e: Expr)
    requires WellFormed(e)
    ensures Aligned(Pieces(e), Values(e))
  {
    match e {
      case Leaf(_) =>
      case Group(x) =>
        ValuesOfPieces(x);
        AlignedWrap(Pieces(x), Values(x));
      case Join(_, l, r) =>
        ValuesOfPieces(l);
        ValuesOfPieces(r);
        AlignedConcat(Pieces(l), Values(l), Pieces(r), Values(r));
    }
  }

  lemma {:induction false} ValuesAreNamed(e: Expr)
    requires WellFormed(e)
    ensures AllRecognised(Values(e)) && Values(e)[0].varname == FirstVariable(e)
  {
    match e {
      case Leaf(t) => LoweredName(t);
      case Group(x) => ValuesAreNamed(x);
      case Join(_, l, r) =>
        ValuesAreNamed(l);
        ValuesAreNamed(r);
    }
  }

  lemma {:induction false} NamesOfValues(e: Expr, v: string)
    requires WellFormed(e)
    ensures OnlyVariable(e, v) <==> AllNamed(Values(e), v)
  {
    match e {
      case Leaf(t) => LoweredName(t);
      case Group(x) => NamesOfValues(x, v);
      case Join(_, l, r) =>
        NamesOfValues(l, v);
        NamesOfValues(r, v);
    }
  }

  // ------------------------------------------------------------- what the parsers make of a tree's text

  /** A text that begins as a join does is never taken for a single atom. */
  lemma OpeningIsNoAtom(k: nat, leaf: string, v: string)
    requires LeafText(leaf) && !AllBlank(v)
    ensures MatchAtom(Repeat('(', k) + (leaf + v)).None?
  {
    if k > 0 {
      ParenIsNoAtom(Repeat('(', k) + (leaf + v));
    } else {
      assert Repeat('(', k) + (leaf + v) == leaf + v;
      NothingFollows(leaf, v);
    }
  }

  lemma OnlyLeavesAreAtoms(e: Expr)
    requires WellFormed(e) && !e.Leaf?
    ensures MatchAtom(Print(e)).None?
  {
    if e.Group? {
      ParenIsNoAtom(Print(e));
    } else {
      var v := FirstLeaf(e);
      PiecesHaveLeaves(e);
      OpeningIsNoAtom(Pieces(e)[0].opens, Pieces(e)[0].leaf, v);
    }
  }

  /** A tree whose parts can be told apart is read as its lowered atoms. */
  lemma SeparableReadings(e: Expr, op: Op)
    requires WellFormed(e) && !Uses(e, Other(op)) && !Contains(Print(e), Sep(Other(op))) && Separable(e, op)
    ensures Readings(Split(Print(e), Sep(op))) == Values(e)
  {
    PrintIsJoin(e, op);
    PiecesHaveLeaves(e);
    SeparableIsGood(e, op);
    ChainReads(Pieces(e), op);
    ValuesOfPieces(e);
  }

  lemma InseparableReadings(e: Expr, op: Op)
    requires WellFormed(e) && !Uses(e, Other(op)) && !Contains(Print(e), Sep(Other(op))) && !Separable(e, op)
    ensures !AllRecognised(Readings(Split(Print(e), Sep(op))))
  {
    PrintIsJoin(e, op);
    PiecesHaveLeaves(e);
    SeparableIsGood(e, op);
    assert JoinText(Pieces(e), Sep(op)) + "" == JoinText(Pieces(e), Sep(op));
    ChainRejects(Pieces(e), op, "");
  }

  lemma NotAtParens(t: string, sep: string, p: nat)
    requires OccursAt("(" + t + ")", sep, p) && sep != "" && '(' !in sep && ')' !in sep
    ensures Contains(t, sep)
  {
    var s := "(" + t + ")";
    assert s[p..p + |sep|][0] == s[p] && s[p..p + |sep|][|sep| - 1] == s[p + |sep| - 1];
    assert sep[0] in sep && sep[|sep| - 1] in sep;
    assert t[p - 1..p - 1 + |sep|] == s[p..p + |sep|];
    assert OccursAt(t, sep, p - 1);
  }

  lemma GroupAddsNone(t: string, op: Op)
    requires !Contains(t, Sep(op))
    ensures !Contains("(" + t + ")", Sep(op))
  {
    var s := "(" + t + ")";
    forall p | 0 <= p <= |s|
      ensures !OccursAt(s, Sep(op), p)
    {
      if OccursAt(s, Sep(op), p) {
        NotAtParens(t, Sep(op), p);
      }
    }
  }

  /** Only a join has a connective in its text that no leaf holds. */
  lemma JoinsOnly(e: Expr, op: Op)
    ensures Separable(e, op) && !e.Join? ==> !Contains(Print(e), Sep(op))
  {
    if e.Group? && Separable(e, op) {
      GroupAddsNone(e.inner.text, op);
      assert Print(e) == "(" + e.inner.text + ")";
    }
  }

  /** With one kind of connective in its text, a tree is read as a chain of its pieces. */
  lemma TreeReadings(e: Expr, op: Op)
    requires WellFormed(e) && Contains(Print(e), Sep(op)) && !Contains(Print(e), Sep(Other(op)))
    ensures var rs := Readings(Split(Print(e), Sep(op)));
      if ChainOf(e, op) then rs == Values(e) else !AllRecognised(rs)
  {
    Present(e, Other(op));
    if Separable(e, op) {
      JoinsOnly(e, op);
      SeparableReadings(e, op);
    } else {
      InseparableReadings(e, op);
    }
  }

  lemma ParsedAsChain(expr: string, s: string, op: Op)
    requires s == StripOuter(TrimSpace(expr)) && Contains(s, Sep(op)) && !Contains(s, Sep(Other(op)))
    ensures ParseArch(expr) == Fold(Readings(Split(s, Sep(op))), op == AndOp, "", [], true)
  {
    ChainIsFold(Split(s, Sep(op)), |s|, op == AndOp, "", [], true);
  }

  lemma RejectedReadings(rs: seq<Parsed>, intersect: bool)
    requires rs != [] && !AllRecognised(rs)
    ensures Fold(rs, intersect, "", [], true).varname == ""
  {
    FoldWhole(rs, intersect);
  }

  lemma ParsedAsAtom(expr: string, s: string)
    requires s == StripOuter(TrimSpace(expr)) && (Contains(s, OR) <==> Contains(s, AND))
    ensures ParseArch(expr) == if MatchAtom(s).Some? then Lower(MatchAtom(s).value) else REJECT
  {
  }

  lemma ChainShows(f: Expr, op: Op)
    ensures ChainOf(f, op) ==> Contains(Print(f), Sep(op)) && !Uses(f, Other(op)) && !ChainOf(f, Other(op))
  {
    Present(f, op);
    Present(f, Other(op));
  }

  lemma ParsedAsTree(expr: string, f: Expr, op: Op)
    requires WellFormed(f) && StripOuter(TrimSpace(expr)) == Print(f)
    requires Contains(Print(f), Sep(op)) && !Contains(Print(f), Sep(Other(op)))
    ensures if ChainOf(f, op) then ParseArch(expr) == Fold(Values(f), op == AndOp, "", [], true)
            else ParseArch(expr).varname == ""
  {
    ParsedAsChain(expr, Print(f), op);
    TreeReadings(f, op);
    if !ChainOf(f, op) {
      RejectedReadings(Readings(Split(Print(f), Sep(op))), op == AndOp);
    }
  }

  /** The first parser on a text that strips to a tree's. */
  lemma TreeParse(expr: string, f: Expr)
    requires WellFormed(f) && StripOuter(TrimSpace(expr)) == Print(f)
    ensures LoneAtom(f) ==> ParseArch(expr) == Lowered(f.text)
    ensures forall op | ChainOf(f, op) :: ParseArch(expr) == Fold(Values(f), op == AndOp, "", [], true)
    ensures !LoneAtom(f) && !ChainOf(f, OrOp) && !ChainOf(f, AndOp) ==> ParseArch(expr).varname == ""
  {
    var s := Print(f);
    ChainShows(f, OrOp);
    ChainShows(f, AndOp);
    if Contains(s, OR) && !Contains(s, AND) {
      ParsedAsTree(expr, f, OrOp);
    } else if Contains(s, AND) && !Contains(s, OR) {
      ParsedAsTree(expr, f, AndOp);
    } else {
      ParsedAsAtom(expr, s);
      if !f.Leaf? {
        OnlyLeavesAreAtoms(f);
      }
    }
  }

  lemma MixedAsChain(expr: string, s: string)
    requires s == LooselyStripped(TrimSpace(expr))
    ensures var rs := Readings(Split(s, AND));
      MixedParts(expr) == if Contains(s, AND) && !Contains(s, OR) && AllRecognised(rs) then Some(rs) else None
  {
    ParseAllIs(Split(s, AND));
  }

  /** The second parser on a text that strips to a tree's. */
  lemma TreeMixed(expr: string, g: Expr)
    requires WellFormed(g) && LooselyStripped(TrimSpace(expr)) == Print(g)
    ensures MixedParts(expr) == if ChainOf(g, AndOp) then Some(Values(g)) else None
  {
    ChainShows(g, AndOp);
    MixedAsChain(expr, Print(g));
    ValuesAreNamed(g);
    if Contains(Print(g), AND) && !Contains(Print(g), OR) {
      TreeReadings(g, AndOp);
    }
  }

  // ------------------------------------------------------------- joins that lose their outermost bytes

  lemma {:induction false} TrimRightTail(x: string, b: string)
    requires TrimRight(b) != ""
    ensures TrimRight(x + b) == x + TrimRight(b)
  {
    if b != "" && IsSpace(b[|b| - 1]) {
      InitAppend(x, b);
      TrimRightTail(x, b[..|b| - 1]);
    } else {
      assert b != "" ==> (x + b)[|x + b| - 1] == b[|b| - 1];
    }
  }

  lemma {:induction false} TrimRightKeepsFirst(b: string)
    requires b != "" && !IsSpace(b[0])
    ensures TrimRight(b) != ""
  {
    if IsSpace(b[|b| - 1]) {
      TrimRightKeepsFirst(b[..|b| - 1]);
    }
  }

  lemma InnerSlice(l: string, sep: string, r: string)
    requires l != "" && r != ""
    ensures (l + sep + r)[1..|l + sep + r| - 1] == l[1..] + sep + r[..|r| - 1]
  {
  }

  lemma TrimJoined(x: string, b: string)
    requires x != "" && !IsSpace(x[0]) && b != "" && !IsSpace(b[0])
    ensures TrimSpace(x + b) == x + TrimRight(b)
  {
    assert (x + b)[0] == x[0];
    TrimRightKeepsFirst(b);
    TrimRightTail(x, b);
  }

  lemma FirstByte(k: nat, leaf: string, v: string)
    requires leaf != ""
    ensures (Repeat('(', k) + (leaf + v))[0] == if k == 0 then leaf[0] else '('
    ensures k > 0 ==> (Repeat('(', k) + (leaf + v))[1..] == Repeat('(', k - 1) + (leaf + v)
  {
    if k > 0 {
      assert Repeat('(', k) == "(" + Repeat('(', k - 1);
      Assoc("(", Repeat('(', k - 1), leaf + v);
    }
  }

  /** A tree's text after a first parenthesis. */
  lemma InsideStarts(e: Expr) returns (k: nat, v: string)
    requires WellFormed(e) && |Print(e)| > 0 && Print(e)[0] == '('
    ensures LeafText(Pieces(e)[0].leaf) && Pieces(e)[0].opens == k + 1
    ensures Print(e)[1..] == Repeat('(', k) + (Pieces(e)[0].leaf + v)
    ensures |Print(e)| >= 2 && !IsSpace(Print(e)[1])
  {
    v := FirstLeaf(e);
    PiecesHaveLeaves(e);
    var opens, leaf := Pieces(e)[0].opens, Pieces(e)[0].leaf;
    LeafShape(leaf);
    FirstByte(opens, leaf, v);
    k := opens - 1;
    FirstByte(k, leaf, v);
    assert Print(e)[1..][0] == Print(e)[1];
  }

  lemma InsideByte(e: Expr)
    requires WellFormed(e)
    ensures |Print(e)| > 0 && Print(e)[0] == '(' ==> |Print(e)| >= 2 && !IsSpace(Print(e)[1])
  {
    if |Print(e)| > 0 && Print(e)[0] == '(' {
      var k, v := InsideStarts(e);
    }
  }

  lemma TrimInner(t: string, l: string, sep: string, r: string)
    requires t == l + sep + r && |l| >= 2 && !IsSpace(l[1]) && |r| >= 2 && !IsSpace(r[0])
    ensures |t| >= 2 && TrimSpace(t[1..|t| - 1]) == l[1..] + (sep + TrimRight(r[..|r| - 1]))
  {
    var x, y := l[1..] + sep, r[..|r| - 1];
    InnerSlice(l, sep, r);
    assert x[0] == l[1] && y[0] == r[0];
    TrimJoined(x, y);
    Assoc(l[1..], sep, TrimRight(y));
  }

  lemma StripChoice(s: string)
    ensures StripOuter(s) == s || (|s| >= 2 && s[0] == '(' && StripOuter(s) == TrimSpace(s[1..|s| - 1]))
    ensures LooselyStripped(s) == s || (|s| >= 2 && s[0] == '(' && LooselyStripped(s) == TrimSpace(s[1..|s| - 1]))
  {
  }

  /** Two texts around a separator, without the first byte of the one and the last of the other. */
  function Inside(l: string, sep: string, r: string): string
    requires l != "" && r != ""
  {
    l[1..] + (sep + TrimRight(r[..|r| - 1]))
  }

  /** Either parser leaves joined texts as they are, or takes away the outermost bytes. */
  lemma StripJoined(t: string, l: string, sep: string, r: string)
    requires t == l + sep + r && |l| >= 2 && |r| >= 2 && !IsSpace(r[0]) && (l[0] == '(' ==> !IsSpace(l[1]))
    ensures StripOuter(t) == t || (l[0] == '(' && StripOuter(t) == Inside(l, sep, r))
    ensures LooselyStripped(t) == t || (l[0] == '(' && LooselyStripped(t) == Inside(l, sep, r))
  {
    StripChoice(t);
    assert t[0] == l[0];
    if l[0] == '(' {
      TrimInner(t, l, sep, r);
    }
  }

  lemma JoinStrips(e: Expr)
    requires WellFormed(e) && e.Join?
    ensures Print(e.left) != "" && Print(e.right) != ""
    ensures var s := Inside(Print(e.left), Sep(e.op), Print(e.right));
      && (StripOuter(Print(e)) == Print(e) || (Print(e.left)[0] == '(' && StripOuter(Print(e)) == s))
      && (LooselyStripped(Print(e)) == Print(e) || (Print(e.left)[0] == '(' && LooselyStripped(Print(e)) == s))
  {
    PrintShape(e.left);
    PrintShape(e.right);
    InsideByte(e.left);
    StripJoined(Print(e), Print(e.left), Sep(e.op), Print(e.right));
  }

  lemma PrintTrimmed(e: Expr)
    requires WellFormed(e)
    ensures TrimSpace(Print(e)) == Print(e)
  {
    PrintShape(e);
    TrimmedIsTrim(Print(e));
  }

  /** The pieces of a tree without the first parenthesis. */
  function Unopened(ps: seq<Piece>): seq<Piece>
    requires ps != [] && ps[0].opens > 0
  {
    ps[0 := ps[0].(opens := ps[0].opens - 1)]
  }

  lemma UnopenedText(e: Expr, op: Op)
    requires WellFormed(e) && !Uses(e, Other(op)) && Pieces(e)[0].opens > 0
    ensures Print(e) != "" && Print(e)[1..] == JoinText(Unopened(Pieces(e)), Sep(op))
    ensures LeafPieces(Unopened(Pieces(e))) && !AllGood(Unopened(Pieces(e)), Sep(op))
  {
    var ps := Unopened(Pieces(e));
    PrintIsJoin(e, op);
    assert OpenFirst(ps) == Pieces(e);
    OpenFirstText(ps, Sep(op));
    PiecesHaveLeaves(e);
    NetOpenFirst(ps);
    NetOfTree(e);
    if AllGood(ps, Sep(op)) {
      GoodNet(ps, Sep(op));
    }
  }

  lemma InsideIsNoAtom(l: Expr, op: Op, b: string)
    requires WellFormed(l) && |Print(l)| > 0 && Print(l)[0] == '('
    ensures MatchAtom(Print(l)[1..] + (Sep(op) + b)).None?
  {
    var k, v := InsideStarts(l);
    LeafMore(k, Pieces(l)[0].leaf, v, Sep(op) + b);
    WordShows(v, op, b);
    OpeningIsNoAtom(k, Pieces(l)[0].leaf, v + (Sep(op) + b));
  }

  /** Text without the other connective comes from a tree that does not use it. */
  lemma InsideUses(l: Expr, o: Op, b: string, op: Op)
    requires |Print(l)| > 0 && Print(l)[0] == '(' && !Contains(Print(l)[1..] + (Sep(o) + b), Sep(Other(op)))
    ensures o == op && !Uses(l, Other(op))
    ensures !Contains(Print(l)[1..] + (Sep(op) + b), Sep(Other(op)))
  {
    JoinedContains(Print(l)[1..], Sep(o), b, Sep(Other(op)));
    Assoc(Print(l)[1..], Sep(o), b);
    DropFirst(Print(l), Sep(Other(op)));
    Present(l, Other(op));
  }

  /** What is left of a join is never read as a chain of recognised parts. */
  lemma InsideReadings(l: Expr, o: Op, b: string, op: Op)
    requires WellFormed(l) && |Print(l)| > 0 && Print(l)[0] == '('
    requires var s := Print(l)[1..] + (Sep(o) + b);
      Contains(s, Sep(op)) && !Contains(s, Sep(Other(op)))
    ensures !AllRecognised(Readings(Split(Print(l)[1..] + (Sep(o) + b), Sep(op))))
  {
    var k, v := InsideStarts(l);
    InsideUses(l, o, b, op);
    UnopenedText(l, op);
    Cut(Sep(op), b);
    ChainRejects(Unopened(Pieces(l)), op, Sep(op) + b);
  }

  lemma {:induction false} SinglePiece(e: Expr)
    requires |Pieces(e)| == 1
    ensures Print(e) == PieceText(Pieces(e)[0])
  {
    match e {
      case Leaf(t) => assert PieceText(Pieces(e)[0]) == t;
      case Group(x) =>
        SinglePiece(x);
        OpenedText(Pieces(x)[0]);
        ClosedText(OpenFirst(Pieces(x))[0]);
    }
  }

  /** The text of a join begins with its whole first piece, and goes on. */
  lemma {:induction false} FirstPiece(e: Expr) returns (u: string)
    ensures Print(e) == PieceText(Pieces(e)[0]) + u && (e.Join? ==> u != "")
  {
    match e {
      case Leaf(t) =>
        u := "";
        assert PieceText(Pieces(e)[0]) == t;
      case Group(x) =>
        u := FirstPiece(x);
        OpenedText(Pieces(x)[0]);
        Assoc("(", PieceText(Pieces(x)[0]), u);
        if |Pieces(x)| == 1 {
          SinglePiece(x);
          ClosedText(OpenFirst(Pieces(x))[0]);
        } else {
          Assoc("(" + PieceText(Pieces(x)[0]), u, ")");
          u := u + ")";
        }
      case Join(op, l, r) =>
        u := FirstPiece(l);
        Assoc(PieceText(Pieces(l)[0]), u, Sep(op) + Print(r));
        Assoc(Print(l), Sep(op), Print(r));
        u := u + (Sep(op) + Print(r));
    }
  }

  /** A separable join is not spanned by parentheses, so nothing is stripped from it. */
  lemma SeparableIsKept(e: Expr, op: Op)
    requires WellFormed(e) && e.Join? && Separable(e, op)
    ensures StripOuter(Print(e)) == LooselyStripped(Print(e)) == Print(e)
  {
    var ps := Pieces(e);
    SeparableIsGood(e, op);
    if |Print(e)| > 0 && Print(e)[0] == '(' {
      var k, w := InsideStarts(e);
      var u := FirstPiece(e);
      OneParenText(ps[0]);
      FirstPartCloses(ps[0].leaf, u);
    }
  }

  // ------------------------------------------------------------- the three kinds of trees

  /** A join's text once something is stripped from it: neither an atom nor a chain. */
  lemma JoinRejected(e: Expr, b: string)
    requires WellFormed(e) && e.Join? && |Print(e.left)| > 0 && Print(e.left)[0] == '('
    requires StripOuter(TrimSpace(Print(e))) == Print(e.left)[1..] + (Sep(e.op) + b)
    ensures ParseArch(Print(e)).varname == ""
  {
    var s := Print(e.left)[1..] + (Sep(e.op) + b);
    InsideIsNoAtom(e.left, e.op, b);
    if Contains(s, OR) && !Contains(s, AND) {
      InsideReadings(e.left, e.op, b, OrOp);
      ParsedAsChain(Print(e), s, OrOp);
      RejectedReadings(Readings(Split(s, OR)), false);
    } else if Contains(s, AND) && !Contains(s, OR) {
      InsideReadings(e.left, e.op, b, AndOp);
      ParsedAsChain(Print(e), s, AndOp);
      RejectedReadings(Readings(Split(s, AND)), true);
    }
  }

  lemma JoinNotMixed(e: Expr, b: string)
    requires WellFormed(e) && e.Join? && |Print(e.left)| > 0 && Print(e.left)[0] == '('
    requires LooselyStripped(TrimSpace(Print(e))) == Print(e.left)[1..] + (Sep(e.op) + b)
    ensures MixedParts(Print(e)) == None
  {
    var s := Print(e.left)[1..] + (Sep(e.op) + b);
    MixedAsChain(Print(e), s);
    if Contains(s, AND) && !Contains(s, OR) {
      InsideReadings(e.left, e.op, b, AndOp);
    }
  }

  /** What is stripped or loosely stripped is no chain. */
  lemma NeitherChain(e: Expr)
    requires WellFormed(e) && e.Join?
    ensures StripOuter(Print(e)) != Print(e) || LooselyStripped(Print(e)) != Print(e) ==>
      !ChainOf(e, OrOp) && !ChainOf(e, AndOp)
  {
    if Separable(e, OrOp) {
      SeparableIsKept(e, OrOp);
    }
    if Separable(e, AndOp) {
      SeparableIsKept(e, AndOp);
    }
  }

  /** The two parsers on a join: what they make of its tree, whether or not they stripped it. */
  lemma JoinParse(e: Expr)
    requires WellFormed(e) && e.Join?
    ensures forall op | ChainOf(e, op) :: ParseArch(Print(e)) == Fold(Values(e), op == AndOp, "", [], true)
    ensures !ChainOf(e, OrOp) && !ChainOf(e, AndOp) ==> ParseArch(Print(e)).varname == ""
  {
    PrintTrimmed(e);
    JoinStrips(e);
    var b := TrimRight(Print(e.right)[..|Print(e.right)| - 1]);
    if StripOuter(Print(e)) == Print(e) {
      TreeParse(Print(e), e);
    } else {
      NeitherChain(e);
      JoinRejected(e, b);
    }
  }

  lemma JoinMixed(e: Expr)
    requires WellFormed(e) && e.Join?
    ensures MixedParts(Print(e)) == if ChainOf(e, AndOp) then Some(Values(e)) else None
  {
    PrintTrimmed(e);
    JoinStrips(e);
    var b := TrimRight(Print(e.right)[..|Print(e.right)| - 1]);
    if LooselyStripped(Print(e)) == Print(e) {
      TreeMixed(Print(e), e);
    } else {
      NeitherChain(e);
      JoinNotMixed(e, b);
    }
  }

  /** And on a parenthesised tree: each strips by a scan of its own. */
  lemma GroupStripped(e: Expr)
    requires WellFormed(e) && e.Group?
    ensures TrimSpace(Print(e)) == Print(e)
    ensures StripOuter(Print(e)) == Print(Stripped(e))
    ensures LooselyStripped(Print(e)) == Print(LooselyOpened(e))
    ensures Stripped(e) == e.inner ==> LooselyOpened(e) == e.inner
  {
    var p := Print(e.inner);
    PrintShape(e);
    PrintShape(e.inner);
    TrimmedIsTrim(Print(e));
    TrimmedIsTrim(p);
    SpansExactly(p);
    assert Print(e)[1..|Print(e)| - 1] == p;
    if Balanced(p) {
      SpansLoosely(Print(e), 0, 0);
    }
  }

  lemma StaysWellFormed(e: Expr)
    requires WellFormed(e)
    ensures WellFormed(Stripped(e)) && WellFormed(LooselyOpened(e))
  {
  }

  /** Every tree: the first parser reads what it strips to. */
  lemma TreesParse(e: Expr, f: Expr)
    requires WellFormed(e) && f == Stripped(e) && WellFormed(f)
    ensures LoneAtom(f) ==> ParseArch(Print(e)) == Lowered(f.text)
    ensures forall op | ChainOf(f, op) :: ParseArch(Print(e)) == Fold(Values(f), op == AndOp, "", [], true)
    ensures !LoneAtom(f) && !ChainOf(f, OrOp) && !ChainOf(f, AndOp) ==> ParseArch(Print(e)).varname == ""
  {
    if e.Join? {
      JoinParse(e);
    } else if e.Group? {
      GroupStripped(e);
      TreeParse(Print(e), f);
    } else {
      LeafShape(e.text);
      TrimmedIsTrim(e.text);
      TreeParse(Print(e), e);
    }
  }

  /** The second parser reads what it opens. */
  lemma TreesMixed(e: Expr, g: Expr)
    requires WellFormed(e) && g == LooselyOpened(e) && WellFormed(g)
    ensures MixedParts(Print(e)) == if ChainOf(g, AndOp) then Some(Values(g)) else None
  {
    if e.Join? {
      JoinMixed(e);
    } else if e.Group? {
      GroupStripped(e);
      TreeMixed(Print(e), g);
    } else {
      LeafShape(e.text);
      TrimmedIsTrim(e.text);
      TreeMixed(Print(e), e);
    }
  }
}
